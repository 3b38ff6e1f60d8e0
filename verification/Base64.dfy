/**
 The base64 encoding of section 4 of RFC 4648, as PEM bodies use it: padded,
 and lenient about the unused bits of the last sextet when decoding.
 */
module Base64 {
  import opened Prelude

  type Sextet = s: int | 0 <= s < 64

  const PAD := '='

  function SextetChar(s: Sextet): (c: char)
    ensures IsAlphabet(c)
  {
    if s < 26 then ('A' as int + s) as char
    else if s < 52 then ('a' as int + (s - 26)) as char
    else if s < 62 then ('0' as int + (s - 52)) as char
    else if s == 62 then '+'
    else '/'
  }

  function CharSextet(c: char): Option<Sextet> {
    if 'A' <= c <= 'Z' then Some(c as int - 'A' as int)
    else if 'a' <= c <= 'z' then Some(c as int - 'a' as int + 26)
    else if '0' <= c <= '9' then Some(c as int - '0' as int + 52)
    else if c == '+' then Some(62)
    else if c == '/' then Some(63)
    else None
  }

  predicate IsAlphabet(c: char) {
    'A' <= c <= 'Z' || 'a' <= c <= 'z' || '0' <= c <= '9' || c == '+' || c == '/' || c == PAD
  }

  predicate IsText(s: string) {
    forall i :: 0 <= i < |s| ==> IsAlphabet(s[i])
  }

  /** The four characters that carry three bytes. */
  function Quad(a: Byte, b: Byte, c: Byte): string {
    [SextetChar(a / 4), SextetChar(a % 4 * 16 + b / 16),
     SextetChar(b % 16 * 4 + c / 64), SextetChar(c % 64)]
  }

  function Encode(data: seq<Byte>): (text: string)
    ensures IsText(text)
  {
    if data == [] then ""
    else if |data| == 1 then
      [SextetChar(data[0] / 4), SextetChar(data[0] % 4 * 16), PAD, PAD]
    else if |data| == 2 then
      [SextetChar(data[0] / 4), SextetChar(data[0] % 4 * 16 + data[1] / 16),
       SextetChar(data[1] % 16 * 4), PAD]
    else
      Quad(data[0], data[1], data[2]) + Encode(data[3..])
  }

  /** The three bytes carried by four sextets. */
  function Bytes3(a: Sextet, b: Sextet, c: Sextet, d: Sextet): seq<Byte> {
    var high: int, low: int := c, d;
    [a * 4 + b / 16, b % 16 * 16 + c / 4, high % 4 * 64 + low]
  }

  function Decode(text: string): Option<seq<Byte>>
  {
    if text == "" then Some([])
    else if |text| < 4 then None
    else
      match (CharSextet(text[0]), CharSextet(text[1]))
      case (Some(a), Some(b)) =>
        if text[3] == PAD then
          if |text| != 4 then None
          else if text[2] == PAD then Some([a * 4 + b / 16])
          else match CharSextet(text[2])
            case Some(c) => Some([a * 4 + b / 16, b % 16 * 16 + c / 4])
            case None => None
        else
          (match (CharSextet(text[2]), CharSextet(text[3]), Decode(text[4..]))
           case (Some(c), Some(d), Some(rest)) =>
             Some(Bytes3(a, b, c, d) + rest)
           case _ => None)
      case _ => None
  }

  lemma CharSextetInverts(s: Sextet)
    ensures CharSextet(SextetChar(s)) == Some(s) && SextetChar(s) != PAD
  {
  }

  /** Splitting three bytes into four sextets loses nothing. */
  lemma SplitInverts(a: Byte, b: Byte, c: Byte)
    ensures a / 4 * 4 + (a % 4 * 16 + b / 16) / 16 == a
    ensures (a % 4 * 16 + b / 16) % 16 * 16 + (b % 16 * 4 + c / 64) / 4 == b
    ensures (b % 16 * 4 + c / 64) % 4 * 64 + c % 64 == c
  {
  }

  lemma DecodeOne(a: Byte)
    ensures Decode(Encode([a])) == Some([a])
  {
    var s0, s1 := a / 4, a % 4 * 16;
    CharSextetInverts(s0);
    CharSextetInverts(s1);
    var text := [SextetChar(s0), SextetChar(s1), PAD, PAD];
    assert Encode([a]) == text;
    assert Decode(text) == Some([s0 * 4 + s1 / 16]);
  }

  lemma DecodeTwo(a: Byte, b: Byte)
    ensures Decode(Encode([a, b])) == Some([a, b])
  {
    var s0, s1, s2 := a / 4, a % 4 * 16 + b / 16, b % 16 * 4;
    CharSextetInverts(s0);
    CharSextetInverts(s1);
    CharSextetInverts(s2);
    var text := [SextetChar(s0), SextetChar(s1), SextetChar(s2), PAD];
    assert Encode([a, b]) == text;
    assert Decode(text) == Some([s0 * 4 + s1 / 16, s1 % 16 * 16 + s2 / 4]);
    SplitInverts(a, b, 0);
  }

  lemma DecodeQuad(a: Byte, b: Byte, c: Byte, tail: string)
    requires Decode(tail).Some?
    ensures Decode(Quad(a, b, c) + tail) == Some([a, b, c] + Decode(tail).value)
  {
    var s0, s1, s2, s3 := a / 4, a % 4 * 16 + b / 16, b % 16 * 4 + c / 64, c % 64;
    CharSextetInverts(s0);
    CharSextetInverts(s1);
    CharSextetInverts(s2);
    CharSextetInverts(s3);
    var text := Quad(a, b, c) + tail;
    assert text[4..] == tail;
    assert Bytes3(s0, s1, s2, s3) == [a, b, c] by { SplitInverts(a, b, c); }
  }

  /** Decoding undoes encoding, for data of every length. */
  lemma {:induction false} DecodeEncode(data: seq<Byte>)
    ensures Decode(Encode(data)) == Some(data)
  {
    if |data| == 1 {
      DecodeOne(data[0]);
      assert data == [data[0]];
    } else if |data| == 2 {
      DecodeTwo(data[0], data[1]);
      assert data == [data[0], data[1]];
    } else if |data| >= 3 {
      DecodeEncodeStep(data);
    }
  }

  lemma {:induction false} DecodeEncodeStep(data: seq<Byte>)
    requires |data| >= 3
    ensures Decode(Encode(data)) == Some(data)
    decreases data, 0
  {
    var tail := Encode(data[3..]);
    DecodeEncode(data[3..]);
    DecodeQuad(data[0], data[1], data[2], tail);
    assert data == [data[0], data[1], data[2]] + data[3..];
    assert Encode(data) == Quad(data[0], data[1], data[2]) + tail;
  }

  // ---------- What the encoding is ----------

  const UPPER := "ABCDEFGHIJKLMNOPQRSTUVWXYZ"
  const LOWER := "abcdefghijklmnopqrstuvwxyz"
  const DIGITS := "0123456789"

  /** Table 1 of RFC 4648. */
  const ALPHABET := UPPER + LOWER + DIGITS + "+/"

  lemma LettersInOrder()
    ensures forall s: int :: 0 <= s < 26 ==> UPPER[s] as int == 'A' as int + s && LOWER[s] as int == 'a' as int + s
    ensures forall s: int :: 0 <= s < 10 ==> DIGITS[s] as int == '0' as int + s
  {
  }

  /** The 64 letters are those of the table, in its order. */
  lemma StandardAlphabet()
    ensures |ALPHABET| == 64
    ensures forall s: Sextet :: SextetChar(s) == ALPHABET[s]
    ensures forall c :: CharSextet(c).Some? <==> c in ALPHABET
    ensures forall c :: CharSextet(c).Some? ==> ALPHABET[CharSextet(c).value] == c
  {
    LettersInOrder();
    assert |UPPER| == 26 && |LOWER| == 26 && |DIGITS| == 10;
    forall s: Sextet
      ensures SextetChar(s) == ALPHABET[s]
    {
      if s < 26 {
        assert ALPHABET[s] == UPPER[s];
      } else if s < 52 {
        assert ALPHABET[s] == LOWER[s - 26];
      } else if s < 62 {
        assert ALPHABET[s] == DIGITS[s - 52];
      }
    }
    forall c
      ensures CharSextet(c).Some? ==> ALPHABET[CharSextet(c).value] == c && c in ALPHABET
    {
      if CharSextet(c).Some? {
        assert SextetChar(CharSextet(c).value) == c;
      }
    }
    forall c | c in ALPHABET
      ensures CharSextet(c).Some?
    {
      var s :| 0 <= s < 64 && ALPHABET[s] == c;
      CharSextetInverts(s);
    }
  }

  /** Four characters carry three bytes: read as numbers in base 64 and base 256 they are the same. */
  ghost predicate Carries(quad: string, a: Byte, b: Byte, c: Byte) {
    exists s0: Sextet, s1: Sextet, s2: Sextet, s3: Sextet ::
      quad == [ALPHABET[s0], ALPHABET[s1], ALPHABET[s2], ALPHABET[s3]]
      && ((s0 * 64 + s1) * 64 + s2) * 64 + s3 == (a * 256 + b) * 256 + c
  }

  lemma QuadCarries(a: Byte, b: Byte, c: Byte)
    ensures Carries(Quad(a, b, c), a, b, c)
  {
    StandardAlphabet();
    var s0: Sextet, s1: Sextet, s2: Sextet, s3: Sextet := a / 4, a % 4 * 16 + b / 16, b % 16 * 4 + c / 64, c % 64;
    assert ((s0 * 64 + s1) * 64 + s2) * 64 + s3 == (a * 256 + b) * 256 + c;
    assert Quad(a, b, c) == [ALPHABET[s0], ALPHABET[s1], ALPHABET[s2], ALPHABET[s3]];
  }

  lemma {:induction false} EncodedLength(data: seq<Byte>)
    ensures |Encode(data)| == (|data| + 2) / 3 * 4
  {
    if |data| >= 3 {
      EncodeMore(data);
      hide Encode, Quad;
      EncodedLength(data[3..]);
    }
  }

  /** Group `g` of a text: three bytes, or the rest of the data. */
  ghost predicate GroupCarries(text: string, data: seq<Byte>, g: nat)
    requires 3 * g < |data| && 4 * g + 4 <= |text|
  {
    var quad := text[4 * g..4 * g + 4];
    if 3 * g + 3 <= |data| then Carries(quad, data[3 * g], data[3 * g + 1], data[3 * g + 2])
    else if 3 * g + 2 == |data| then Carries(quad[..3] + "A", data[3 * g], data[3 * g + 1], 0) && quad[3] == '='
    else Carries(quad[..2] + "AA", data[3 * g], 0, 0) && quad[2] == quad[3] == '='
  }

  lemma EncodeMore(data: seq<Byte>)
    requires |data| >= 3
    ensures Encode(data) == Quad(data[0], data[1], data[2]) + Encode(data[3..])
    ensures |Quad(data[0], data[1], data[2])| == 4
  {
  }

  lemma EncodeRest(a: Byte, b: Byte)
    ensures Encode([a, b]) == Quad(a, b, 0)[..3] + "=" && Encode([a]) == Quad(a, 0, 0)[..2] + "=="
    ensures Quad(a, b, 0)[3] == Quad(a, 0, 0)[2] == Quad(a, 0, 0)[3] == 'A'
  {
  }

  lemma FirstGroup(data: seq<Byte>)
    requires data != [] && |Encode(data)| >= 4
    ensures GroupCarries(Encode(data), data, 0)
  {
    hide Carries, Quad, Encode;
    var quad := Encode(data)[4 * 0..4 * 0 + 4];
    if |data| >= 3 {
      EncodeMore(data);
      QuadCarries(data[0], data[1], data[2]);
      assert quad == Quad(data[0], data[1], data[2]);
    } else {
      var second := if |data| == 2 then data[1] else 0;
      QuadCarries(data[0], second, 0);
      EncodeRest(data[0], second);
      FilledUp(Quad(data[0], second, 0));
      assert data == if |data| == 2 then [data[0], second] else [data[0]];
      assert quad == Encode(data);
    }
  }

  lemma FilledUp(quad: string)
    ensures |quad| == 4 && quad[3] == 'A' ==> (quad[..3] + "=")[..3] + "A" == quad
    ensures |quad| == 4 && quad[3] == 'A' && quad[2] == 'A' ==> (quad[..2] + "==")[..2] + "AA" == quad
  {
  }

  lemma LaterGroup(first: string, text: string, head: seq<Byte>, data: seq<Byte>, g: nat)
    requires |first| == 4 && |head| == 3 && 3 * g < |data| && 4 * g + 4 <= |text| && GroupCarries(text, data, g)
    ensures GroupCarries(first + text, head + data, g + 1)
  {
    hide Carries;
    assert (first + text)[4 * (g + 1)..4 * (g + 1) + 4] == text[4 * g..4 * g + 4];
  }

  /** The text of the encoding (section 4 of RFC 4648): every full group of three bytes is carried by four characters,
      and the rest by two or three, filled up with zero bits and padded. */
  lemma {:induction false} EncodesGroups(data: seq<Byte>, g: nat)
    requires 3 * g < |data|
    ensures 4 * g + 4 <= |Encode(data)| == (|data| + 2) / 3 * 4
    ensures GroupCarries(Encode(data), data, g)
  {
    hide Encode, GroupCarries, Quad;
    EncodedLength(data);
    if g == 0 {
      FirstGroup(data);
    } else {
      EncodeMore(data);
      EncodesGroups(data[3..], g - 1);
      assert data == data[..3] + data[3..];
      LaterGroup(Quad(data[0], data[1], data[2]), Encode(data[3..]), data[..3], data[3..], g - 1);
    }
  }

  predicate IsLetter(c: char) {
    c in ALPHABET
  }

  /** The text consists of groups of four letters, of which the last may end in one or two pads. */
  predicate IsPadded(text: string) {
    |text| % 4 == 0
    && forall i :: 0 <= i < |text| ==>
         IsLetter(text[i]) || (text[i] == '=' && i + 2 >= |text| && text[|text| - 1] == '=')
  }

  lemma Letters()
    ensures forall c :: CharSextet(c).Some? <==> IsLetter(c)
    ensures !IsLetter('=')
  {
    StandardAlphabet();
    assert CharSextet('=').None?;
  }

  lemma DecodeGroup(text: string)
    requires |text| > 4
    ensures Decode(text).Some? <==>
            && CharSextet(text[0]).Some? && CharSextet(text[1]).Some?
            && CharSextet(text[2]).Some? && CharSextet(text[3]).Some? && Decode(text[4..]).Some?
  {
    assert CharSextet(PAD).None?;
    hide CharSextet, Bytes3;
  }

  lemma PaddedGroup(text: string)
    requires |text| > 4
    ensures IsPadded(text) <==>
            && IsLetter(text[0]) && IsLetter(text[1]) && IsLetter(text[2]) && IsLetter(text[3])
            && IsPadded(text[4..])
  {
    hide IsLetter;
    var tail := text[4..];
    assert forall i :: 4 <= i < |text| ==> text[i] == tail[i - 4];
    if IsPadded(text) {
      assert |text| >= 8;
    }
  }

  /** Text is decoded iff it consists of groups of four letters, the last padded or not. */
  lemma {:induction false} DecodesExactly(text: string)
    ensures Decode(text).Some? <==> IsPadded(text)
  {
    Letters();
    if |text| > 4 {
      DecodesExactly(text[4..]);
      DecodeGroup(text);
      PaddedGroup(text);
      hide *;
    } else if |text| == 4 {
      LastGroup(text);
    } else {
      hide IsLetter;
    }
  }

  lemma LastGroup(text: string)
    requires |text| == 4
    ensures Decode(text).Some? <==> IsPadded(text)
  {
    Letters();
    DecodeLast(text);
    PaddedLast(text);
    hide *;
  }

  lemma DecodeLast(text: string)
    requires |text| == 4
    ensures Decode(text).Some? <==>
            && CharSextet(text[0]).Some? && CharSextet(text[1]).Some?
            && (if text[3] == PAD then text[2] == PAD || CharSextet(text[2]).Some?
                else CharSextet(text[2]).Some? && CharSextet(text[3]).Some?)
  {
    hide CharSextet, Bytes3;
    assert text[4..] == "";
  }

  lemma PaddedLast(text: string)
    requires |text| == 4
    ensures IsPadded(text) <==>
            && IsLetter(text[0]) && IsLetter(text[1])
            && (if text[3] == '=' && !IsLetter('=') then text[2] == '=' || IsLetter(text[2])
                else IsLetter(text[2]) && IsLetter(text[3]))
  {
    hide IsLetter;
  }

  /** The test vectors of section 10 of RFC 4648: f, fo, foo, foob, fooba, foobar. */
  lemma TestVectors()
    ensures Encode([]) == "" && Encode([102]) == "Zg==" && Encode([102, 111]) == "Zm8="
    ensures Encode([102, 111, 111]) == "Zm9v" && Encode([102, 111, 111, 98]) == "Zm9vYg=="
    ensures Encode([102, 111, 111, 98, 97]) == "Zm9vYmE=" && Encode([102, 111, 111, 98, 97, 114]) == "Zm9vYmFy"
  {
    ShortVectors();
    assert Encode([]) == "";
    hide Encode, Quad;
    EncodeMore([102, 111, 111]);
    EncodeMore([102, 111, 111, 98]);
    EncodeMore([102, 111, 111, 98, 97]);
    EncodeMore([102, 111, 111, 98, 97, 114]);
    EncodeMore([98, 97, 114]);
    assert [102, 111, 111][3..] == [] && [98, 97, 114][3..] == [] && [102, 111, 111, 98][3..] == [98];
    assert [102, 111, 111, 98, 97][3..] == [98, 97] && [102, 111, 111, 98, 97, 114][3..] == [98, 97, 114];
  }

  lemma ShortVectors()
    ensures Encode([102]) == "Zg==" && Encode([102, 111]) == "Zm8=" && Quad(102, 111, 111) == "Zm9v"
    ensures Encode([98]) == "Yg==" && Encode([98, 97]) == "YmE=" && Quad(98, 97, 114) == "YmFy"
  {
  }
}
