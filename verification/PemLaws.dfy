/**
 Laws of reading PEM text that do not depend on how it was printed: line ends and blanks before them do not
 matter, nor does the way in which a body is cut into lines, and every document of text and armored blocks is
 read as what it says.
 */
module PemLaws {
  import opened Prelude
  import Base64
  import opened Digests
  import opened Pem
  import opened CertPools
  import opened PoolProperties

  // ---------- Blanks at the ends of lines ----------

  predicate Blank(pad: string) {
    forall i :: 0 <= i < |pad| ==> pad[i] in " \t\r"
  }

  /** The text with blanks before every newline and at the very end; `pads` chooses them by how many characters of
      the text are left. */
  function Padded(text: string, pads: nat -> string): string {
    if text == "" then pads(0)
    else (if text[0] == '\n' then pads(|text|) else "") + [text[0]] + Padded(text[1..], pads)
  }

  /** The text with CRLF line ends. */
  function WithCRLF(text: string): string {
    if text == "" then ""
    else (if text[0] == '\n' then "\r\n" else [text[0]]) + WithCRLF(text[1..])
  }

  lemma {:induction false} CRLFPads(text: string, pads: nat -> string)
    requires forall n :: pads(n) == if n == 0 then "" else "\r"
    ensures WithCRLF(text) == Padded(text, pads)
  {
    if text != "" {
      CRLFPads(text[1..], pads);
      assert "\r" + ['\n'] == "\r\n" && "" + [text[0]] == [text[0]];
    }
  }

  lemma Regrouped(a: string, b: string, c: string)
    ensures (a + b) + c == a + (b + c)
  {
  }

  /** A character in front of a text that is no newline is one in front of its first line. */
  lemma LongerLine(text: string)
    requires |text| > 1 && text[0] != '\n'
    ensures var tail := text[1..];
            && FirstLine(text) == [text[0]] + FirstLine(tail) && |FirstLine(tail)| <= |tail|
            && (|FirstLine(tail)| < |tail| ==> |FirstLine(text)| < |text| && OtherLines(text) == OtherLines(tail))
            && (|FirstLine(tail)| == |tail| ==> |FirstLine(text)| == |text|)
  {
    assert LineLength(text) == 1 + LineLength(text[1..]);
    assert |FirstLine(text[1..])| == LineLength(text[1..]);
  }

  lemma PaddedNewline(text: string, pads: nat -> string)
    requires text != "" && text[0] == '\n'
    ensures FirstLine(text) == ""
    ensures Padded(text, pads) == "" + pads(|text|) + "\n" + Padded(OtherLines(text), pads)
  {
    assert FirstLine(text) == "" && OtherLines(text) == text[1..] by {
      hide Padded;
    }
    assert Padded(text, pads) == pads(|text|) + ['\n'] + Padded(text[1..], pads) by {
      hide FirstLine, OtherLines, LineLength;
    }
    hide *;
    assert "" + pads(|text|) == pads(|text|);
  }

  lemma PaddedLetter(text: string, pads: nat -> string)
    requires |text| == 1 && text[0] != '\n'
    ensures FirstLine(text) == text && Padded(text, pads) == text + pads(0)
  {
    assert text[1..] == "" && "" + text == text;
  }

  lemma PaddedOn(text: string, pads: nat -> string)
    requires |text| > 1 && text[0] != '\n'
    ensures Padded(text, pads) == [text[0]] + Padded(text[1..], pads)
  {
  }

  /** Padding works line by line. */
  lemma {:induction false} PaddedLine(text: string, pads: nat -> string)
    requires text != ""
    ensures var line := FirstLine(text);
            Padded(text, pads) ==
            if |line| < |text| then line + pads(|text| - |line|) + "\n" + Padded(OtherLines(text), pads)
            else line + pads(0)
  {
    hide *;
    if text[0] == '\n' {
      PaddedNewline(text, pads);
    } else if |text| == 1 {
      PaddedLetter(text, pads);
    } else {
      var tail := text[1..];
      LongerLine(text);
      PaddedLine(tail, pads);
      PaddedOn(text, pads);
      var line, rest := FirstLine(tail), Padded(OtherLines(tail), pads);
      var pad := pads(|tail| - |line|);
      Regrouped([text[0]], line + pad + "\n", rest);
      Regrouped([text[0]], line + pad, "\n");
      Regrouped([text[0]], line, pad);
      Regrouped([text[0]], line, pads(0));
    }
  }

  lemma {:induction false} TrimPad(line: string, pad: string)
    requires Blank(pad)
    ensures TrimRight(line + pad) == TrimRight(line)
    decreases |pad|
  {
    if pad == "" {
      assert line + pad == line;
    } else {
      var n := |pad| - 1;
      assert (line + pad)[..|line + pad| - 1] == line + pad[..n];
      TrimPad(line, pad[..n]);
    }
  }

  lemma {:induction false} StripPad(line: string, pad: string)
    requires Blank(pad)
    ensures StripBlanks(line + pad) == StripBlanks(line)
    decreases |line| + |pad|
  {
    if line != "" {
      assert (line + pad)[1..] == line[1..] + pad;
      StripPad(line[1..], pad);
    } else if pad != "" {
      assert line + pad == pad;
      StripPad(line, pad[1..]);
      assert line + pad[1..] == pad[1..];
    } else {
      assert line + pad == line;
    }
  }

  /** A marker ends in a blank and has no other. */
  predicate IsMarker(marker: string) {
    marker != "" && marker[|marker| - 1] == ' ' && forall i :: 0 <= i < |marker| - 1 ==> !IsBlank(marker[i])
  }

  lemma PrefixPad(line: string, pad: string, marker: string)
    requires Blank(pad) && IsMarker(marker)
    ensures HasPrefix(line + pad, marker) <==>
            HasPrefix(line, marker) || (line + " " == marker && pad != "" && pad[0] == ' ')
  {
    var n := |marker|;
    if HasPrefix(line + pad, marker) && |line| < n {
      assert forall i :: 0 <= i < n ==> (line + pad)[i] == marker[i];
      assert marker[|line|] == (line + pad)[|line|] == pad[0];
      assert line + " " == marker;
    }
    if HasPrefix(line, marker) {
      assert (line + pad)[..n] == line[..n];
    }
    if line + " " == marker && pad != "" && pad[0] == ' ' {
      assert (line + pad)[..n] == line + " ";
    }
  }

  /** A pad that begins with a space completes a marker of which only the space was missing. */
  predicate CompletesMarker(line: string, pad: string) {
    pad != "" && pad[0] == ' ' && (line == "-----END" || HasSuffix(line, "-----BEGIN"))
  }

  lemma InsidePad(line: string, pad: string)
    requires Blank(pad)
    ensures BeginsInside(line) ==> BeginsInside(line + pad)
    ensures BeginsInside(line + pad) ==>
              BeginsInside(line) || (pad != "" && pad[0] == ' ' && HasSuffix(line, "-----BEGIN"))
  {
    if BeginsInside(line) {
      var i :| 0 <= i <= |line[1..]| - |BEGIN| && HasPrefix(line[1..][i..], BEGIN);
      MarkerAt(line, pad, i);
    }
    if BeginsInside(line + pad) {
      var all := (line + pad)[1..];
      var i :| 0 <= i <= |all| - |BEGIN| && HasPrefix(all[i..], BEGIN);
      assert all[i] == all[i..][..|BEGIN|][0] == '-';
      assert all[i] == (line + pad)[i + 1];
      assert i + 1 < |line|;
      MarkerAt(line, pad, i);
      if line[1..][i..] + " " == BEGIN {
        assert line[|line| - 10..] == line[1..][i..] == BEGIN[..10];
      } else {
        assert HasPrefix(line[1..][i..], BEGIN);
      }
    }
  }

  lemma MarkerAt(line: string, pad: string, i: nat)
    requires Blank(pad) && i + 1 < |line|
    ensures HasPrefix((line + pad)[1..][i..], BEGIN) <==>
            HasPrefix(line[1..][i..], BEGIN) || (line[1..][i..] + " " == BEGIN && pad != "" && pad[0] == ' ')
  {
    assert (line + pad)[1..][i..] == line[1..][i..] + pad;
    PrefixPad(line[1..][i..], pad, BEGIN);
  }

  lemma EndPad(line: string, pad: string)
    requires Blank(pad) && HasPrefix(line, END)
    ensures Classify(line + pad) == Classify(line)
  {
    PrefixPad(line, pad, END);
    TrimPad(line[|END|..], pad);
    assert (line + pad)[|END|..] == line[|END|..] + pad;
    hide TrimRight, BeginsInside;
  }

  lemma BeginPad(line: string, pad: string)
    requires Blank(pad) && HasPrefix(line, BEGIN) && !HasPrefix(line + pad, END) && !BeginsInside(line)
    ensures Classify(line + pad) == Classify(line)
  {
    PrefixPad(line, pad, END);
    PrefixPad(line, pad, BEGIN);
    InsidePad(line, pad);
    TrimPad(line[|BEGIN|..], pad);
    assert (line + pad)[|BEGIN|..] == line[|BEGIN|..] + pad;
    if HasSuffix(line, "-----BEGIN") {
      BeginCut(line);
    }
    hide TrimRight, BeginsInside;
  }

  lemma EndsInDash(rest: string)
    ensures HasSuffix(rest, DASHES) ==> rest != "" && rest[|rest| - 1] == '-'
  {
    if HasSuffix(rest, DASHES) {
      assert rest[|rest| - 5..][4] == '-';
    }
  }

  lemma BeginCut(line: string)
    requires HasPrefix(line, BEGIN) && HasSuffix(line, "-----BEGIN")
    ensures !HasSuffix(TrimRight(line[|BEGIN|..]), DASHES)
  {
    var n := |line|;
    assert line[n - 10..][9] == 'N';
    var rest := line[|BEGIN|..];
    if rest != "" {
      assert rest[|rest| - 1] == line[n - 1] == 'N';
      TrimsNothing(rest);
      EndsInDash(rest);
    }
  }

  lemma CutMarker(line: string, pad: string, marker: string)
    requires Blank(pad) && line + " " == marker && pad != "" && pad[0] == ' '
    ensures TrimRight((line + pad)[|marker|..]) == ""
    ensures marker == BEGIN ==> HasSuffix(line, "-----BEGIN")
    ensures marker == END ==> line == "-----END" && !BeginsInside(line) && !HasPrefix(line, BEGIN)
  {
    assert (line + pad)[|marker|..] == "" + pad[1..];
    TrimPad("", pad[1..]);
    assert line == marker[..|marker| - 1];
  }

  lemma CutEnd(line: string, pad: string)
    requires Blank(pad) && HasPrefix(line + pad, END) && !HasPrefix(line, END)
    ensures CompletesMarker(line, pad) && Classify(line) == Text && Classify(line + pad) == EndLine(None)
  {
    PrefixPad(line, pad, END);
    CutMarker(line, pad, END);
    hide TrimRight, BeginsInside;
  }

  lemma CutBegin(line: string, pad: string)
    requires Blank(pad) && HasPrefix(line + pad, BEGIN) && !HasPrefix(line, BEGIN)
    ensures CompletesMarker(line, pad) && TrimRight((line + pad)[|BEGIN|..]) == ""
  {
    PrefixPad(line, pad, BEGIN);
    CutMarker(line, pad, BEGIN);
    hide TrimRight;
  }

  /** Blanks at its end do not change what a line is, unless they complete a marker; then the line breaks a block. */
  lemma ClassifyPad(line: string, pad: string)
    requires Blank(pad)
    ensures Classify(line + pad) == Classify(line)
            || (CompletesMarker(line, pad) && Classify(line) == Text
                && Classify(line + pad) in {BrokenBegin, EndLine(None)})
  {
    InsidePad(line, pad);
    PrefixPad(line, pad, END);
    if HasPrefix(line, END) {
      EndPad(line, pad);
    } else if HasPrefix(line + pad, END) {
      CutEnd(line, pad);
    } else if HasPrefix(line, BEGIN) && !BeginsInside(line) {
      BeginPad(line, pad);
    } else {
      if HasPrefix(line + pad, BEGIN) && !HasPrefix(line, BEGIN) {
        CutBegin(line, pad);
      }
      hide TrimRight, BeginsInside, HasPrefix;
    }
  }

  // ---------- Reading padded lines ----------

  /** An open block whose body holds a dash can never be completed. */
  predicate Stuck(scan: Scan) {
    scan.Inside? && '-' in scan.body
  }

  lemma StuckStep(scan: Scan, line: string)
    requires Stuck(scan)
    ensures Step(scan, line).1.None? && (Classify(line).Text? ==> Stuck(Step(scan, line).0))
  {
    assert Base64.Decode(scan.body).None? by {
      Base64.DecodesExactly(scan.body);
      Base64.Letters();
      assert Base64.CharSextet('-').None?;
    }
    hide Classify, Base64.Decode, StripBlanks;
  }

  lemma {:induction false} StuckForever(scan: Scan, data: string)
    requires Stuck(scan)
    ensures !Completes(scan, data)
    decreases |data|
  {
    hide Step, Classify, Stuck;
    if data != "" {
      StuckStep(scan, FirstLine(data));
      if Classify(FirstLine(data)).Text? {
        StuckForever(Step(scan, FirstLine(data)).0, OtherLines(data));
      }
    }
  }

  lemma {:induction false} StripKeeps(line: string, c: char)
    requires c in line && !IsBlank(c)
    ensures c in StripBlanks(line)
  {
    if line[0] != c {
      assert line == [line[0]] + line[1..];
      StripKeeps(line[1..], c);
    }
  }

  /** A header that ends in a marker of which only the space is missing. */
  predicate IsCutHeader(line: string) {
    ':' in line && HasSuffix(line, "-----BEGIN")
  }

  lemma StepPad(scan: Scan, line: string, pad: string)
    requires Blank(pad) && !(IsCutHeader(line) && pad != "" && pad[0] == ' ')
    ensures var ((a, block), (b, block')) := (Step(scan, line), Step(scan, line + pad));
            block' == block && (b == a || (b.Outside? && Stuck(a)))
  {
    ClassifyPad(line, pad);
    StripPad(line, pad);
    assert ':' in line + pad <==> ':' in line;
    if Classify(line + pad) == Classify(line) {
      SameStep(scan, line, line + pad);
    } else {
      DashInside(line);
      StripKeeps(line, '-');
      assert ':' !in line;
      BrokenStep(scan, line, line + pad);
    }
    hide *;
  }

  lemma SameStep(scan: Scan, line: string, other: string)
    requires Classify(other) == Classify(line) && StripBlanks(other) == StripBlanks(line)
    requires ':' in other <==> ':' in line
    ensures Step(scan, other) == Step(scan, line)
  {
    hide Classify, StripBlanks, Base64.Decode;
  }

  lemma BrokenStep(scan: Scan, line: string, other: string)
    requires Classify(line) == Text && Classify(other) in {BrokenBegin, EndLine(None)}
    requires ':' !in line && '-' in StripBlanks(line)
    ensures Step(scan, other) == (Outside, None) && Step(scan, line).1 == None
    ensures Step(scan, line).0.Outside? || Stuck(Step(scan, line).0)
  {
    hide Classify, StripBlanks, Base64.Decode;
  }

  lemma DashInside(line: string)
    requires line == "-----END" || HasSuffix(line, "-----BEGIN")
    ensures '-' in line
  {
    if line == "-----END" {
      assert line[0] == '-';
    } else {
      assert line[|line| - 10..][0] == '-';
    }
  }

  predicate LeadsWithSpace(pad: string) {
    pad != "" && pad[0] == ' '
  }

  /** No pad that begins with a space follows a header that ends in "-----BEGIN". */
  ghost predicate MayPad(text: string, pads: nat -> string)
    decreases |text|
  {
    text != "" ==>
      && (IsCutHeader(FirstLine(text)) ==> !LeadsWithSpace(pads(|text| - |FirstLine(text)|)))
      && MayPad(OtherLines(text), pads)
  }

  lemma {:induction false} BlankText(scan: Scan, pad: string)
    requires Blank(pad)
    ensures Run(scan, pad).0 == []
  {
    if pad != "" {
      assert '\n' !in pad;
      ClassifyPad("", pad);
      assert "" + pad == pad;
      assert Classify("") == Text && !HasSuffix("", "-----BEGIN");
      OneLine(scan, pad);
      MarkersReset(scan, pad);
    }
  }

  lemma {:induction false} RunPad(scan: Scan, data: string, pads: nat -> string)
    requires (forall n :: Blank(pads(n))) && MayPad(data, pads)
    ensures Run(scan, Padded(data, pads)).0 == Run(scan, data).0
    decreases |data|
  {
    hide Step, Stuck, Blank;
    if data == "" {
      BlankText(scan, pads(0));
    } else {
      var line, rest := FirstLine(data), OtherLines(data);
      var pad := pads(|data| - |line|);
      PaddedLine(data, pads);
      StepPad(scan, line, pad);
      var next, next' := Step(scan, line).0, Step(scan, line + pad).0;
      PadHasNoNewline(line, pad);
      if |line| < |data| {
        RunLine(scan, line + pad, Padded(rest, pads));
        RunPad(next', rest, pads);
      } else {
        OneLine(scan, line + pad);
      }
      if next' != next {
        StuckForever(next, rest);
        RunFromAnyState(next, rest);
      }
    }
  }

  lemma PadHasNoNewline(line: string, pad: string)
    requires Blank(pad) && forall i :: 0 <= i < |line| ==> line[i] != '\n'
    ensures '\n' !in line + pad
  {
  }

  // ---------- The laws of line ends ----------

  /** Blanks before newlines and at the end of a text, however many and wherever, change none of its blocks, except for
      a space after a header that ends in "-----BEGIN". */
  lemma BlanksDoNotMatter(text: string, pads: nat -> string)
    requires (forall n :: Blank(pads(n))) && MayPad(text, pads)
    ensures Blocks(Padded(text, pads)) == Blocks(text)
  {
    RunPad(Outside, text, pads);
    hide Run;
  }

  lemma {:induction false} MayAlwaysPad(text: string, pads: nat -> string)
    requires forall n :: !LeadsWithSpace(pads(n))
    ensures MayPad(text, pads)
    decreases |text|
  {
    if text != "" {
      MayAlwaysPad(OtherLines(text), pads);
    }
  }

  lemma CRLFBlocks(text: string)
    ensures Blocks(WithCRLF(text)) == Blocks(text)
  {
    var pads: nat -> string := n => if n == 0 then "" else "\r";
    hide Run, Blocks, MayPad, Padded, WithCRLF;
    assert forall n :: Blank(pads(n)) && !LeadsWithSpace(pads(n));
    CRLFPads(text, pads);
    MayAlwaysPad(text, pads);
    BlanksDoNotMatter(text, pads);
  }

  /** Every text has the same blocks with CRLF line ends, and so it is accepted alike and read into the same pool. */
  lemma LineEndsDoNotMatter(x: Crypto, filters: seq<Filter>, pool: map<Digest, Certificate>, text: string)
    ensures Blocks(WithCRLF(text)) == Blocks(text)
    ensures AcceptsText(x, WithCRLF(text)) == AcceptsText(x, text)
    ensures ReadText(x, filters, pool, WithCRLF(text)) == ReadText(x, filters, pool, text)
  {
    CRLFBlocks(text);
    hide Blocks, WithCRLF, Admitted, Rejects, Insert;
  }

  // ---------- Inline texts that become one ----------

  function WithoutEmpty(texts: seq<string>): seq<string> {
    if texts == [] then []
    else (if texts[0] != "" then [texts[0]] else []) + WithoutEmpty(texts[1..])
  }

  /** The text without one newline at its end, if it has one there. */
  function Chopped(text: string): string {
    if text != "" && text[|text| - 1] == '\n' then text[..|text| - 1] else text
  }

  /** The texts with one newline between each and the next. */
  function Chained(texts: seq<string>): string {
    if texts == [] then ""
    else if |texts| == 1 then texts[0]
    else Chopped(texts[0]) + "\n" + Chained(texts[1..])
  }

  lemma ChoppedIsTrimmed(text: string)
    ensures TrimNewline(text) == Chopped(text)
  {
    if text != "" {
      assert text[|text| - 1..] == [text[|text| - 1]];
    }
  }

  lemma ChoppedEnd(a: string, b: string)
    requires b != ""
    ensures Chopped(a + b) == a + Chopped(b) && a + b != ""
  {
    if b[|b| - 1] == '\n' {
      assert (a + b)[..|a + b| - 1] == a + b[..|b| - 1];
    }
  }

  lemma {:induction false} ChainedOneMore(texts: seq<string>, last: string)
    requires texts != [] && forall t :: t in texts ==> t != ""
    ensures Chained(texts) != "" && Chained(texts + [last]) == Chopped(Chained(texts)) + "\n" + last
  {
    var rest := texts[1..];
    assert (texts + [last])[1..] == rest + [last];
    if rest == [] {
      assert texts == [texts[0]] && texts[0] in texts;
    } else {
      assert forall t :: t in rest ==> t in texts;
      ChainedOneMore(rest, last);
      hide Chopped;
      var first := Chopped(texts[0]) + "\n";
      assert Chained(texts) == first + Chained(rest);
      ChoppedEnd(first, Chained(rest));
      Regrouped(first, Chopped(Chained(rest)) + "\n", last);
      Regrouped(first, Chopped(Chained(rest)), "\n");
    }
  }

  lemma {:induction false} WithoutEmptyOneMore(texts: seq<string>, last: string)
    ensures WithoutEmpty(texts + [last]) == WithoutEmpty(texts) + if last != "" then [last] else []
    ensures forall t :: t in WithoutEmpty(texts) ==> t != ""
  {
    if texts == [] {
      assert [last][1..] == [];
    } else {
      assert (texts + [last])[1..] == texts[1..] + [last];
      WithoutEmptyOneMore(texts[1..], last);
    }
  }

  /** All inline texts of a Bundle become one: those that are not empty, in their order, with one newline between each
      and the next in place of one that it may end with. */
  lemma {:induction false} FoldedIsChained(texts: seq<string>)
    ensures FoldTexts(texts) == Chained(WithoutEmpty(texts))
  {
    if texts != [] {
      var n := |texts| - 1;
      var front, last := texts[..n], texts[n];
      FoldedIsChained(front);
      assert texts == front + [last];
      WithoutEmptyOneMore(front, last);
      var parts := WithoutEmpty(front);
      if last == "" {
        assert parts + [] == parts;
      } else if parts == [] {
        assert parts + [last] == [last];
      } else {
        ChainedOneMore(parts, last);
        ChoppedIsTrimmed(Chained(parts));
        hide Chained, WithoutEmpty, Chopped, TrimNewline;
      }
    }
  }

  // ---------- Documents ----------

  predicate DashesAt(line: string, i: nat) {
    i + 5 <= |line| && line[i..i + 5] == "-----"
  }

  /** No line break and no marker: never five dashes in a row. */
  predicate Plain(line: string) {
    '\n' !in line && forall i :: 0 <= i < |line| ==> !DashesAt(line, i)
  }

  /** A part of a document: explanatory text, or an armored block with headers, the lines of its body and the tag of
      its last line. */
  datatype Section =
    | Prose(lines: seq<string>)
    | Armored(tag: string, headers: seq<string>, body: seq<string>, closing: string)

  /** The lines of a text, each with its newline. */
  function Written(lines: seq<string>): string {
    if lines == [] then "" else lines[0] + "\n" + Written(lines[1..])
  }

  function Joined(lines: seq<string>): string {
    if lines == [] then "" else lines[0] + Joined(lines[1..])
  }

  function SectionText(s: Section): string {
    match s
    case Prose(lines) => Written(lines)
    case Armored(tag, headers, body, closing) =>
      "-----BEGIN " + tag + "-----" + "\n"
      + (Written(headers) + (Written(body) + ("-----END " + closing + "-----" + "\n")))
  }

  /** What a section says: a block iff it is closed by its own tag, its body is base64 in whatever lines, and headers
      are followed by a line. */
  function SectionBlocks(s: Section): seq<Block> {
    match s
    case Prose(_) => []
    case Armored(tag, headers, body, closing) =>
      var bytes := Base64.Decode(Joined(body));
      if closing == tag && bytes.Some? && (headers == [] || body != [])
      then [Block(tag, headers != [], bytes.value)] else []
  }

  predicate IsDocumentPart(s: Section) {
    match s
    case Prose(lines) => forall line :: line in lines ==> Plain(line)
    case Armored(tag, headers, body, closing) =>
      && Plain(tag) && ':' !in tag && Plain(closing) && ':' !in closing
      && (forall line :: line in headers ==> Plain(line) && ':' in line)
      && forall line :: line in body ==> Base64.IsText(line)
  }

  function DocumentText(parts: seq<Section>): string {
    if parts == [] then "" else SectionText(parts[0]) + DocumentText(parts[1..])
  }

  function DocumentBlocks(parts: seq<Section>): seq<Block> {
    if parts == [] then [] else SectionBlocks(parts[0]) + DocumentBlocks(parts[1..])
  }

  lemma PlainIsText(line: string)
    requires Plain(line)
    ensures Classify(line) == Text
  {
    if HasPrefix(line, BEGIN) || HasPrefix(line, END) {
      assert line[0..5] == line[..9][..5] == "-----";
      assert DashesAt(line, 0);
    }
    if BeginsInside(line) {
      var i := MarkerInside(line);
      assert DashesAt(line, i);
    }
  }

  lemma PlainIsTag(tag: string)
    requires Plain(tag) && ':' !in tag
    ensures PlainTag(tag)
  {
    var line := BEGIN + tag + DASHES;
    if BeginsInside(line) {
      var i := MarkerInside(line);
      assert line[5] == 'B' && line[6] == 'E' && line[7] == 'G' && line[8] == 'I' && line[9] == 'N' && line[10] == ' ';
      assert i >= 11;
      var j := i - 11;
      assert j + 5 < |tag|;
      var five := tag[j..j + 5];
      forall k | 0 <= k < 5
        ensures five[k] == '-'
      {
        assert line[i + k] == (BEGIN + tag)[i + k] == tag[j + k];
      }
      assert five == "-----";
      assert DashesAt(tag, j);
    }
  }

  // ---------- Documents are read as what they say ----------

  lemma {:induction false} RunProse(lines: seq<string>, rest: string)
    requires forall line :: line in lines ==> Plain(line)
    ensures Run(Outside, Written(lines) + rest) == Run(Outside, rest)
  {
    hide Run, Step, Plain, Classify;
    if lines == [] {
      assert "" + rest == rest;
    } else {
      var line, tail := lines[0], Written(lines[1..]) + rest;
      assert Written(lines) + rest == line + NEWLINE + tail;
      ProseStep(line);
      RunLine(Outside, line, tail);
      RunProse(lines[1..], rest);
    }
  }

  lemma ProseStep(line: string)
    requires Plain(line)
    ensures '\n' !in line && Step(Outside, line) == (Outside, None)
  {
    PlainIsText(line);
    hide Classify;
  }

  lemma {:induction false} RunHeaders(scan: Scan, headers: seq<string>, rest: string)
    requires scan.Inside? && scan.inHeaders
    requires forall line :: line in headers ==> Plain(line) && ':' in line
    ensures Run(scan, Written(headers) + rest) == Run(scan.(headers := scan.headers || headers != []), rest)
    decreases headers
  {
    hide Run, Step, Plain, Classify;
    if headers == [] {
      assert "" + rest == rest;
    } else {
      var line, tail := headers[0], Written(headers[1..]) + rest;
      assert Written(headers) + rest == line + NEWLINE + tail;
      HeaderStep(scan, line);
      RunLine(scan, line, tail);
      RunHeaders(scan.(headers := true), headers[1..], rest);
    }
  }

  lemma HeaderStep(scan: Scan, line: string)
    requires scan.Inside? && scan.inHeaders && Plain(line) && ':' in line
    ensures '\n' !in line && Step(scan, line) == (scan.(headers := true), None)
  {
    PlainIsText(line);
    hide Classify;
  }

  /** However a body is cut into lines, it is read as one. */
  lemma {:induction false} RunCutBody(scan: Scan, body: seq<string>, rest: string)
    requires scan.Inside? && forall line :: line in body ==> Base64.IsText(line)
    ensures Run(scan, Written(body) + rest)
         == Run(scan.(inHeaders := scan.inHeaders && body == [], body := scan.body + Joined(body)), rest)
    decreases body
  {
    hide Run, Base64.IsText;
    if body == [] {
      assert Written(body) + rest == rest && scan.body + "" == scan.body;
    } else {
      var line, lines := body[0], body[1..];
      var next := scan.(inHeaders := false, body := scan.body + line);
      assert Written(body) == line + NEWLINE + Written(lines) && Joined(body) == line + Joined(lines);
      Regrouped(line + NEWLINE, Written(lines), rest);
      Regrouped(scan.body, line, Joined(lines));
      hide Written, Joined;
      RunBodyLine(scan, line, Written(lines) + rest);
      RunCutBody(next, lines, rest);
    }
  }

  lemma RunArmored(tag: string, headers: seq<string>, body: seq<string>, closing: string, rest: string)
    requires IsDocumentPart(Armored(tag, headers, body, closing))
    ensures var s := Armored(tag, headers, body, closing);
            Run(Outside, SectionText(s) + rest) == (SectionBlocks(s) + Run(Outside, rest).0, Run(Outside, rest).1)
  {
    hide Run, Classify, Base64.Decode, Base64.IsText, Written, Joined, PlainTag, Plain;
    var begin, end := BEGIN + tag + DASHES, END + closing + DASHES;
    PlainIsTag(tag);
    PlainIsTag(closing);
    ClassifyMarkers(tag);
    ClassifyMarkers(closing);
    var last := end + NEWLINE + rest;
    var lines := Written(body) + last;
    ArmoredText(tag, headers, body, closing, rest);
    RunLine(Outside, begin, Written(headers) + lines);
    var open := Inside(tag, false, true, "");
    RunHeaders(open, headers, lines);
    var withHeaders := open.(headers := headers != []);
    RunCutBody(withHeaders, body, last);
    assert "" + Joined(body) == Joined(body);
    var full := withHeaders.(inHeaders := body == [], body := Joined(body));
    RunLine(full, end, rest);
    assert '\n' !in end && ':' !in end;
    CloseArmored(tag, headers, body, closing);
    assert [] + Run(Outside, rest).0 == Run(Outside, rest).0;
    hide Step, SectionText, SectionBlocks;
  }

  lemma CloseArmored(tag: string, headers: seq<string>, body: seq<string>, closing: string)
    requires Classify(END + closing + DASHES) == EndLine(Some(closing)) && ':' !in END + closing + DASHES
    ensures var blocks := SectionBlocks(Armored(tag, headers, body, closing));
            Step(Inside(tag, headers != [], body == [], Joined(body)), END + closing + DASHES)
            == (Outside, if blocks == [] then None else Some(blocks[0])) && |blocks| <= 1
  {
    hide Classify, Base64.Decode, Joined;
  }

  lemma ArmoredText(tag: string, headers: seq<string>, body: seq<string>, closing: string, rest: string)
    ensures SectionText(Armored(tag, headers, body, closing)) + rest
         == BEGIN + tag + DASHES + NEWLINE
            + (Written(headers) + (Written(body) + (END + closing + DASHES + NEWLINE + rest)))
  {
    hide Written;
    var begin, end := BEGIN + tag + DASHES + NEWLINE, END + closing + DASHES + NEWLINE;
    var h, b := Written(headers), Written(body);
    Regrouped(begin, h + (b + end), rest);
    Regrouped(h, b + end, rest);
    Regrouped(b, end, rest);
  }

  lemma RunSection(s: Section, rest: string)
    requires IsDocumentPart(s)
    ensures Run(Outside, SectionText(s) + rest) == (SectionBlocks(s) + Run(Outside, rest).0, Run(Outside, rest).1)
  {
    hide Run;
    match s
    case Prose(lines) =>
      RunProse(lines, rest);
      assert [] + Run(Outside, rest).0 == Run(Outside, rest).0;
    case Armored(tag, headers, body, closing) =>
      RunArmored(tag, headers, body, closing, rest);
  }

  /** Every document is read as what it says: explanatory text is passed over, a body may be cut into any lines, headers
      are told, and a block with the wrong END line or a body that is not base64 is dropped without harm to others. */
  lemma {:induction false} DocumentsAreRead(parts: seq<Section>)
    requires forall s :: s in parts ==> IsDocumentPart(s)
    ensures Blocks(DocumentText(parts)) == DocumentBlocks(parts)
  {
    hide Run, SectionText, SectionBlocks, IsDocumentPart;
    if parts == [] {
      RunNothing(Outside);
    } else {
      RunSection(parts[0], DocumentText(parts[1..]));
      DocumentsAreRead(parts[1..]);
    }
  }

  // ---------- What is printed ----------

  /** Lines of 64 columns, but for the last, which may be shorter. */
  predicate InColumns(lines: seq<string>) {
    && (forall i :: 0 <= i < |lines| - 1 ==> |lines[i]| == 64)
    && (lines != [] ==> 0 < |lines[|lines| - 1]| <= 64)
  }

  lemma {:induction false} WrapsInColumns(text: string) returns (lines: seq<string>)
    ensures Wrap(text) == Written(lines) && Joined(lines) == text && InColumns(lines)
    decreases |text|
  {
    if text == "" {
      lines := [];
    } else if |text| <= COLUMNS {
      lines := [text];
      assert lines[1..] == [] && Written([]) == "" && Joined([]) == "";
      assert text + NEWLINE + "" == text + NEWLINE && text + "" == text;
    } else {
      var rest := WrapsInColumns(text[COLUMNS..]);
      lines := [text[..COLUMNS]] + rest;
      assert lines[1..] == rest;
      assert rest != [] by { assert Joined([]) == ""; }
    }
  }

  /** A printed certificate is an armored block without headers whose body is its base64 text in 64 columns. */
  lemma PrintsSection(tag: string, bytes: seq<Byte>) returns (body: seq<string>)
    ensures EncodeBlock(tag, bytes) == SectionText(Armored(tag, [], body, tag))
    ensures Joined(body) == Base64.Encode(bytes) && InColumns(body)
  {
    body := WrapsInColumns(Base64.Encode(bytes));
    hide Wrap, InColumns, Base64.Encode;
    var begin, end := BEGIN + tag + DASHES + NEWLINE, END + tag + DASHES + NEWLINE;
    assert Written([]) + (Written(body) + end) == Written(body) + end;
    hide Written;
    Regrouped(begin, Written(body), END + tag + DASHES + NEWLINE);
    Regrouped(begin + Written(body), END + tag + DASHES, NEWLINE);
    Regrouped(begin + Written(body), END + tag, DASHES);
    Regrouped(begin + Written(body), END, tag);
  }

  /** One section of a printed pool. */
  predicate Prints(part: Section, raw: seq<Byte>) {
    part.Armored? && part.tag == part.closing == "CERTIFICATE" && part.headers == []
    && Joined(part.body) == Base64.Encode(raw) && InColumns(part.body)
  }

  lemma {:induction false} PrintsSections(blobs: seq<seq<Byte>>) returns (parts: seq<Section>)
    ensures EncodeAll(CERTIFICATE, blobs) == DocumentText(parts) && |parts| == |blobs|
    ensures forall i :: 0 <= i < |blobs| ==> Prints(parts[i], blobs[i])
  {
    parts := [];
    if blobs != [] {
      var body := PrintsSection(CERTIFICATE, blobs[0]);
      var rest := PrintsSections(blobs[1..]);
      hide EncodeBlock, SectionText, Joined, InColumns, Base64.Encode;
      parts := [Armored(CERTIFICATE, [], body, CERTIFICATE)] + rest;
      assert parts[1..] == rest;
    }
  }

  /** A pool is printed as one section for each certificate, in digest order, and without the last newline. */
  lemma PrintsDocument(pool: map<Digest, Certificate>) returns (parts: seq<Section>)
    ensures |parts| == |InOrder(pool)| && forall i :: 0 <= i < |parts| ==> Prints(parts[i], InOrder(pool)[i].raw)
    ensures if parts == [] then PemText(pool) == "" else PemText(pool) + "\n" == DocumentText(parts)
  {
    var certs := InOrder(pool);
    parts := PrintsSections(RawOf(certs));
    hide Prints, DocumentText, InOrder;
    if certs == [] {
      assert RawOf(certs) == [] && TrimSpace("") == "";
    } else {
      JoinedCores(certs);
      TrimNewlineOnly(JoinLines(Cores(certs)));
    }
  }

  // ---------- Where a blank does matter ----------

  lemma EndNeedsNoColon(header: string)
    requires ':' in header && !HasPrefix(header, END)
    ensures !HasPrefix(header + " ", END)
  {
    assert Blank(" ") && IsMarker(END);
    PrefixPad(header, " ", END);
    assert ':' !in END && ':' in header + " ";
  }

  lemma CutHeaderBroken(header: string)
    requires IsCutHeader(header) && Classify(header) == Text
    ensures Classify(header + " ") == BrokenBegin
  {
    var line, i := header + " ", |header| - 10;
    assert header[i..] == "-----BEGIN";
    assert header[0..] == header && ':' !in "-----BEGIN";
    assert i > 0;
    assert line[1..][i - 1..] == header[i..] + " " == BEGIN;
    assert BeginsInside(line);
    EndNeedsNoColon(header);
    hide TrimRight, BeginsInside;
  }

  /** Four lines: the first opens a block, the last closes it, unless the header breaks it. */
  lemma RunFour(tag: string, header: string)
    requires PlainTag(tag) && '\n' !in header && ':' in header && Classify(header) in {Text, BrokenBegin}
    ensures var text := BEGIN + tag + DASHES + NEWLINE + (header + NEWLINE + ("" + NEWLINE
                        + (END + tag + DASHES + NEWLINE + "")));
            Blocks(text) == if Classify(header) == Text then [Block(tag, true, [])] else []
  {
    var begin, end := BEGIN + tag + DASHES, END + tag + DASHES;
    FourSteps(tag, header);
    assert '\n' !in begin && '\n' !in end;
    var open, last := Inside(tag, false, true, ""), Inside(tag, true, false, "");
    hide Run, Step, Classify, PlainTag;
    RunLine(Outside, begin, header + NEWLINE + ("" + NEWLINE + (end + NEWLINE + "")));
    RunLine(open, header, "" + NEWLINE + (end + NEWLINE + ""));
    RunNothing(Outside);
    if Classify(header) == Text {
      RunLine(open.(headers := true), "", end + NEWLINE + "");
      RunLine(last, end, "");
    } else {
      RunLine(Outside, "", end + NEWLINE + "");
      RunLine(Outside, end, "");
    }
  }

  lemma FourSteps(tag: string, header: string)
    requires PlainTag(tag) && ':' in header && Classify(header) in {Text, BrokenBegin}
    ensures var open, last := Inside(tag, false, true, ""), Inside(tag, true, false, "");
            && Step(Outside, BEGIN + tag + DASHES) == (open, None)
            && Step(open, header) == (if Classify(header) == Text then open.(headers := true) else Outside, None)
            && Step(open.(headers := true), "") == (last, None) && Step(Outside, "") == (Outside, None)
            && Step(last, END + tag + DASHES) == (Outside, Some(Block(tag, true, [])))
            && Step(Outside, END + tag + DASHES) == (Outside, None)
  {
    ClassifyMarkers(tag);
    assert Classify("") == Text;
    assert Base64.Decode("") == Some([]) && StripBlanks("") == "" && "" + "" == "";
    hide Classify, Base64.Decode, StripBlanks;
  }

  /** After a header that ends in "-----BEGIN" a space does matter: it takes the block away. */
  lemma SpaceAfterCutHeader(tag: string, header: string)
    requires PlainTag(tag) && '\n' !in header && IsCutHeader(header) && Classify(header) == Text
    ensures var (first, last) := ("-----BEGIN " + tag + "-----\n", "\n\n-----END " + tag + "-----\n");
            && Blocks(first + header + last) == [Block(tag, true, [])]
            && Blocks(first + header + " " + last) == []
  {
    CutHeaderBroken(header);
    RunFour(tag, header);
    RunFour(tag, header + " ");
    FourLines(tag, header);
    FourLines(tag, header + " ");
    hide *;
    Regrouped("-----BEGIN " + tag + "-----\n", header, " ");
  }

  lemma FourLines(tag: string, header: string)
    ensures BEGIN + tag + DASHES + NEWLINE + (header + NEWLINE + ("" + NEWLINE + (END + tag + DASHES + NEWLINE + "")))
         == "-----BEGIN " + tag + "-----\n" + header + ("\n\n-----END " + tag + "-----\n")
  {
    var end := END + tag;
    assert DASHES + NEWLINE == "-----\n" && NEWLINE + ("" + NEWLINE + END) == "\n\n-----END ";
    Regrouped(BEGIN + tag, DASHES, NEWLINE);
    Regrouped(end, DASHES, NEWLINE);
    assert end + DASHES + NEWLINE + "" == end + "-----\n";
    Regrouped(NEWLINE + ("" + NEWLINE), END, tag);
    Regrouped(NEWLINE, "" + NEWLINE, END);
    Regrouped(NEWLINE + ("" + NEWLINE), end, "-----\n");
    Regrouped(NEWLINE, "" + NEWLINE, end + "-----\n");
    Regrouped(header, NEWLINE, "" + NEWLINE + (end + "-----\n"));
    Regrouped("-----BEGIN " + tag + "-----\n", header, "\n\n-----END " + tag + "-----\n");
  }
}
