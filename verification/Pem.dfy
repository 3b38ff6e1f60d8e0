/**
 PEM text (RFC 7468): a decoder that reads line by line and an encoder that writes
 64-column lines.

 The decoder is an automaton over lines.  Text outside blocks is ignored, a BEGIN line inside
 a block restarts it, a BEGIN marker inside a line breaks it, and a block that is closed by the
 wrong END line or whose body is not base64 is dropped without an error.
 */
module Pem {
  import opened Prelude
  import Base64

  const BEGIN := "-----BEGIN "
  const END := "-----END "
  const DASHES := "-----"
  const NEWLINE := "\n"
  const COLUMNS: nat := 64

  datatype Block = Block(tag: string, headers: bool, bytes: seq<Byte>)

  /** Where the decoder stands between two lines. */
  datatype Scan =
    | Outside
    | Inside(tag: string, headers: bool, inHeaders: bool, body: string)

  datatype Line = BeginLine(tag: string) | BrokenBegin | EndLine(closes: Option<string>) | Text

  // ---------- Lines ----------

  /** The length of the first line of `data`, without its newline. */
  function LineLength(data: string): (n: nat)
    ensures n <= |data|
    ensures forall i :: 0 <= i < n ==> data[i] != '\n'
    ensures n < |data| ==> data[n] == '\n'
  {
    if data == "" || data[0] == '\n' then 0 else 1 + LineLength(data[1..])
  }

  function FirstLine(data: string): string {
    data[..LineLength(data)]
  }

  function OtherLines(data: string): (rest: string)
    requires data != ""
    ensures |rest| < |data|
  {
    if LineLength(data) < |data| then data[LineLength(data) + 1..] else ""
  }

  predicate IsBlank(c: char) {
    c == ' ' || c == '\t' || c == '\r'
  }

  function TrimRight(line: string): string {
    if line != "" && IsBlank(line[|line| - 1]) then TrimRight(line[..|line| - 1]) else line
  }

  function StripBlanks(line: string): string {
    if line == "" then ""
    else (if IsBlank(line[0]) then "" else [line[0]]) + StripBlanks(line[1..])
  }

  predicate Contains(s: string, part: string) {
    exists i :: 0 <= i <= |s| - |part| && HasPrefix(s[i..], part)
  }

  /** The line holds a BEGIN marker that does not stand at its start. */
  predicate BeginsInside(line: string) {
    line != "" && Contains(line[1..], BEGIN)
  }

  /** The last BEGIN marker before an END line counts: one inside a line breaks the block. */
  function Classify(line: string): Line {
    if HasPrefix(line, END) then
      var rest := TrimRight(line[|END|..]);
      EndLine(if HasSuffix(rest, DASHES) then Some(rest[..|rest| - |DASHES|]) else None)
    else if BeginsInside(line) then BrokenBegin
    else if HasPrefix(line, BEGIN) then
      var rest := TrimRight(line[|BEGIN|..]);
      if HasSuffix(rest, DASHES) then BeginLine(rest[..|rest| - |DASHES|]) else BrokenBegin
    else Text
  }

  // ---------- Decoding ----------

  /** The block that an END line with `tag` closes, if it is well formed: headers must be followed by a line
      that is not one before the END line, and an END line with a colon counts as a header. */
  function Close(scan: Scan, line: string, tag: Option<string>): Option<Block> {
    if scan.Inside? && tag == Some(scan.tag) && !(scan.inHeaders && (scan.headers || ':' in line)) then
      match Base64.Decode(scan.body)
      case Some(bytes) => Some(Block(scan.tag, scan.headers, bytes))
      case None => None
    else None
  }

  /** One line: the next state, and the block that the line completes, if any. */
  function Step(scan: Scan, line: string): (Scan, Option<Block>) {
    match Classify(line)
    case BeginLine(tag) => (Inside(tag, false, true, ""), None)
    case BrokenBegin => (Outside, None)
    case EndLine(tag) => (Outside, Close(scan, line, tag))
    case Text =>
      if scan.Outside? then (Outside, None)
      else if scan.inHeaders && ':' in line then (scan.(headers := true), None)
      else (scan.(inHeaders := false, body := scan.body + StripBlanks(line)), None)
  }

  /** Reads up to the next complete block and returns it with the text that follows. */
  function DecodeFrom(scan: Scan, data: string): (r: (Option<Block>, string))
    ensures r.0.Some? ==> |r.1| < |data|
    decreases |data|
  {
    if data == "" then (None, "")
    else
      var (next, block) := Step(scan, FirstLine(data));
      if block.Some? then (block, OtherLines(data)) else DecodeFrom(next, OtherLines(data))
  }

  function Decode(data: string): (r: (Option<Block>, string))
    ensures r.0.Some? ==> |r.1| < |data|
  {
    DecodeFrom(Outside, data)
  }

  /** All blocks of `data` in order, and the state in which the text ends. */
  function Run(scan: Scan, data: string): (seq<Block>, Scan)
    decreases |data|
  {
    if data == "" then ([], scan)
    else
      var (next, block) := Step(scan, FirstLine(data));
      Emit(block, Run(next, OtherLines(data)))
  }

  function Emit(block: Option<Block>, rest: (seq<Block>, Scan)): (seq<Block>, Scan) {
    (if block.Some? then [block.value] + rest.0 else rest.0, rest.1)
  }

  function Blocks(data: string): seq<Block> {
    Run(Outside, data).0
  }

  /** The state in which reading `data` from the start ends. */
  function Final(data: string): Scan {
    Run(Outside, data).1
  }

  /** Calling `Decode` on the remainder until no block is left yields exactly `Blocks`. */
  lemma {:induction false} DecodeUnrolls(scan: Scan, data: string)
    ensures var (block, rest) := DecodeFrom(scan, data);
            Run(scan, data).0 == if block.Some? then [block.value] + Blocks(rest) else []
    decreases |data|
  {
    hide Step;
    if data != "" {
      var (next, block) := Step(scan, FirstLine(data));
      MarkersReset(scan, FirstLine(data));
      if block.None? {
        DecodeUnrolls(next, OtherLines(data));
      }
    }
  }

  // ---------- Reading a text in two parts ----------

  predicate EndsLine(data: string) {
    data == "" || data[|data| - 1] == '\n'
  }

  lemma {:induction false} LineLengthAppend(a: string, b: string)
    requires LineLength(a) < |a|
    ensures LineLength(a + b) == LineLength(a)
  {
    if a[0] != '\n' {
      assert (a + b)[1..] == a[1..] + b;
      LineLengthAppend(a[1..], b);
    }
  }

  lemma SplitLine(a: string, b: string)
    requires a != "" && EndsLine(a)
    ensures FirstLine(a + b) == FirstLine(a)
    ensures OtherLines(a + b) == OtherLines(a) + b
    ensures EndsLine(OtherLines(a))
  {
    assert LineLength(a) != |a| by { assert a[|a| - 1] == '\n'; }
    LineLengthAppend(a, b);
    var n := LineLength(a);
    assert (a + b)[..n] == a[..n];
    assert (a + b)[n + 1..] == a[n + 1..] + b;
  }

  /** Reading on after a first part. */
  function Then(first: (seq<Block>, Scan), data: string): (seq<Block>, Scan) {
    (first.0 + Run(first.1, data).0, Run(first.1, data).1)
  }

  lemma EmitThen(block: Option<Block>, first: (seq<Block>, Scan), data: string)
    ensures Emit(block, Then(first, data)) == Then(Emit(block, first), data)
  {
    if block.Some? {
      var more := Run(first.1, data).0;
      assert [block.value] + (first.0 + more) == [block.value] + first.0 + more;
    }
  }

  /** Reading complete lines and then more text is reading the two one after the other. */
  lemma {:induction false} RunAppend(scan: Scan, a: string, b: string)
    requires EndsLine(a)
    ensures Run(scan, a + b) == Then(Run(scan, a), b)
    decreases |a|
  {
    hide Step;
    if a == "" {
      assert a + b == b && [] + Run(scan, b).0 == Run(scan, b).0;
    } else {
      SplitLine(a, b);
      var (next, block) := Step(scan, FirstLine(a));
      var rest := OtherLines(a);
      RunAppend(next, rest, b);
      calc {
        Run(scan, a + b);
        Emit(block, Run(next, rest + b));
        Emit(block, Then(Run(next, rest), b));
        { EmitThen(block, Run(next, rest), b); }
        Then(Emit(block, Run(next, rest)), b);
        Then(Run(scan, a), b);
      }
    }
  }

  /** A missing newline at the very end changes nothing. */
  lemma {:induction false} RunFinalNewline(scan: Scan, data: string)
    requires data != "" && !EndsLine(data)
    ensures Run(scan, data + NEWLINE) == Run(scan, data)
    decreases |data|
  {
    hide Step;
    var n := LineLength(data);
    if n == |data| {
      UnterminatedLine(data);
      assert OtherLines(data) == "" && OtherLines(data + NEWLINE) == "";
      assert FirstLine(data + NEWLINE) == FirstLine(data);
    } else {
      LineLengthAppend(data, NEWLINE);
      var rest := OtherLines(data);
      assert (data + NEWLINE)[n + 1..] == rest + NEWLINE;
      assert (data + NEWLINE)[..n] == data[..n];
      assert rest != "" && rest[|rest| - 1] == data[|data| - 1];
      RunFinalNewline(Step(scan, FirstLine(data)).0, rest);
    }
  }

  lemma {:induction false} UnterminatedLine(data: string)
    requires LineLength(data) == |data|
    ensures LineLength(data + NEWLINE) == |data|
  {
    if data != "" {
      assert data[0] != '\n';
      assert (data + NEWLINE)[1..] == data[1..] + NEWLINE;
      UnterminatedLine(data[1..]);
    }
  }

  lemma RunLine(scan: Scan, line: string, rest: string)
    requires '\n' !in line
    ensures var (next, block) := Step(scan, line);
            Run(scan, line + NEWLINE + rest) == Emit(block, Run(next, rest))
  {
    hide Step;
    var data := line + NEWLINE;
    assert LineLength(line) == |line|;
    UnterminatedLine(line);
    assert FirstLine(data) == line && OtherLines(data) == "";
    SplitLine(data, rest);
    assert OtherLines(data + rest) == "" + rest == rest;
  }

  lemma RunNothing(scan: Scan)
    ensures Run(scan, "") == ([], scan)
  {
  }

  // ---------- Joining two texts ----------

  function TrimNewline(data: string): string {
    if HasSuffix(data, NEWLINE) then data[..|data| - 1] else data
  }

  /** The way several inline texts become one: exactly one newline is put between two texts
      unless the first already ends with several. */
  function JoinTexts(a: string, b: string): string {
    TrimNewline(a) + NEWLINE + b
  }

  /** A text is terminated when every BEGIN line in it is followed by an END line. */
  predicate Terminated(data: string) {
    Final(data).Outside?
  }

  /** Whether `data`, read in state `scan`, completes the block left open in `scan`: the first
      BEGIN or END line of `data` is an END line that closes that block. */
  predicate Completes(scan: Scan, data: string)
    decreases |data|
  {
    data != "" &&
    var (next, block) := Step(scan, FirstLine(data));
    block.Some? || (Classify(FirstLine(data)).Text? && Completes(next, OtherLines(data)))
  }

  /** A BEGIN or END line leads to the same state from everywhere, and no line completes a block
      when none is open. */
  lemma MarkersReset(scan: Scan, line: string)
    ensures !Classify(line).Text? ==> Step(scan, line).0 == Step(Outside, line).0
    ensures Classify(line).Text? ==> Step(scan, line).1.None? && Step(Outside, line).0.Outside?
    ensures scan.Outside? ==> Step(scan, line).1.None?
    ensures Step(scan, line).1.Some? ==> Step(scan, line).0.Outside?
  {
    hide Classify;
  }

  /** Reading `data` in any state yields the blocks it has on its own, preceded by one more
      block exactly when `data` completes the open one. */
  lemma {:induction false} RunFromAnyState(scan: Scan, data: string)
    ensures if Completes(scan, data)
            then Run(scan, data).0 != [] && Run(scan, data).0[1..] == Blocks(data)
            else Run(scan, data).0 == Blocks(data)
    ensures scan.Outside? ==> !Completes(scan, data)
    decreases |data|
  {
    hide Step;
    hide Classify;
    if data != "" {
      var line, rest := FirstLine(data), OtherLines(data);
      MarkersReset(scan, line);
      MarkersReset(Outside, line);
      if Classify(line).Text? {
        RunFromAnyState(Step(scan, line).0, rest);
      }
    }
  }

  /** Cutting a final newline off and putting it back changes nothing for the decoder. */
  lemma NewlineRestored(a: string)
    ensures Run(Outside, TrimNewline(a) + NEWLINE) == Run(Outside, a)
  {
    hide Run;
    if HasSuffix(a, NEWLINE) {
      assert TrimNewline(a) + NEWLINE == a;
    } else if a == "" {
      RunLine(Outside, "", "");
      RunNothing(Outside);
      assert "" + NEWLINE + "" == "" + NEWLINE;
    } else {
      assert a[|a| - 1..] == [a[|a| - 1]];
      RunFinalNewline(Outside, a);
    }
  }

  lemma RunJoined(a: string, b: string)
    ensures Run(Outside, JoinTexts(a, b)) == Then(Run(Outside, a), b)
  {
    hide Run;
    NewlineRestored(a);
    RunAppend(Outside, TrimNewline(a) + NEWLINE, b);
  }

  /** Joining two texts keeps their blocks if and only if the second text does not complete a
      block that the first one leaves open. */
  lemma JoinKeepsBlocks(a: string, b: string)
    ensures Blocks(JoinTexts(a, b)) == Blocks(a) + Blocks(b) <==> !Completes(Final(a), b)
    ensures |Blocks(JoinTexts(a, b))| >= |Blocks(a)| + |Blocks(b)|
    ensures !Completes(Final(a), b) || |Blocks(JoinTexts(a, b))| > |Blocks(a)| + |Blocks(b)|
    ensures Terminated(a) ==> Final(JoinTexts(a, b)) == Final(b)
  {
    RunJoined(a, b);
    RunFromAnyState(Final(a), b);
  }

  // ---------- Folding inline texts ----------

  /** What the conversion makes of a list of inline texts: empty texts are not sources. */
  function FoldTexts(texts: seq<string>): string {
    if texts == [] then ""
    else
      var acc, last := FoldTexts(texts[..|texts| - 1]), texts[|texts| - 1];
      if last == "" then acc else if acc == "" then last else JoinTexts(acc, last)
  }

  function BlocksOfAll(texts: seq<string>): seq<Block> {
    if texts == [] then []
    else BlocksOfAll(texts[..|texts| - 1]) + Blocks(texts[|texts| - 1])
  }

  /** Some text completes a block left open by the texts before it. */
  ghost predicate Glues(texts: seq<string>) {
    exists i :: 0 <= i < |texts| && Completes(Final(FoldTexts(texts[..i])), texts[i])
  }

  /** Folding any number of inline texts keeps their blocks if and only if no text completes a
      block left open by the texts before it. */
  lemma {:induction false} FoldKeepsBlocks(texts: seq<string>)
    ensures Blocks(FoldTexts(texts)) == BlocksOfAll(texts) <==> !Glues(texts)
    ensures |Blocks(FoldTexts(texts))| >= |BlocksOfAll(texts)|
    ensures Glues(texts) ==> |Blocks(FoldTexts(texts))| > |BlocksOfAll(texts)|
  {
    hide Run;
    hide Completes;
    hide JoinTexts;
    hide Glues;
    NothingGlues(texts);
    RunNothing(Outside);
    if texts != [] {
      var n := |texts| - 1;
      var acc, last := FoldTexts(texts[..n]), texts[n];
      FoldKeepsBlocks(texts[..n]);
      GluesLast(texts);
      JoinKeepsBlocks(acc, last);
      if last == "" {
        assert !Completes(Final(acc), last) by { CompletesNothing(Final(acc)); }
        assert BlocksOfAll(texts) == BlocksOfAll(texts[..n]) + [];
      } else if acc == "" {
        RunFromAnyState(Outside, last);
        FoldedToNothing(texts[..n]);
      } else {
        SuffixCancels(Blocks(acc), BlocksOfAll(texts[..n]), Blocks(last));
      }
    }
  }

  lemma NothingGlues(texts: seq<string>)
    ensures texts == [] ==> !Glues(texts)
  {
  }

  lemma CompletesNothing(scan: Scan)
    ensures !Completes(scan, "")
  {
  }

  lemma GluesLast(texts: seq<string>)
    requires texts != []
    ensures var n := |texts| - 1;
            Glues(texts) <==> Glues(texts[..n]) || Completes(Final(FoldTexts(texts[..n])), texts[n])
  {
    hide Run;
    hide Completes;
    hide FoldTexts;
    var n := |texts| - 1;
    var front := texts[..n];
    assert forall i :: 0 <= i < n ==> texts[..i] == front[..i] && texts[i] == front[i];
    if Glues(front) {
      var i :| 0 <= i < n && Completes(Final(FoldTexts(front[..i])), front[i]);
      assert Completes(Final(FoldTexts(texts[..i])), texts[i]);
    }
  }

  lemma {:induction false} FoldedToNothing(texts: seq<string>)
    requires FoldTexts(texts) == ""
    ensures BlocksOfAll(texts) == []
  {
    if texts != [] {
      FoldedToNothing(texts[..|texts| - 1]);
      RunNothing(Outside);
    }
  }

  /** Terminated texts never glue, so that folding them keeps all their blocks. */
  lemma {:induction false} TerminatedTextsFold(texts: seq<string>)
    requires forall i :: 0 <= i < |texts| - 1 ==> Terminated(texts[i])
    ensures Blocks(FoldTexts(texts)) == BlocksOfAll(texts) && !Glues(texts)
    ensures texts != [] && Terminated(texts[|texts| - 1]) ==> Terminated(FoldTexts(texts))
  {
    if texts != [] {
      var n := |texts| - 1;
      var front, last := texts[..n], texts[n];
      TerminatedTextsFold(front);
      RunFromAnyState(Final(FoldTexts(front)), last);
      JoinKeepsBlocks(FoldTexts(front), last);
      FoldKeepsBlocks(front);
      FoldKeepsBlocks(texts);
    }
  }

  /** Tags that survive on a marker line: no line break, no colon and no second marker. */
  predicate PlainTag(tag: string) {
    '\n' !in tag && ':' !in tag && !BeginsInside(BEGIN + tag + DASHES)
  }

  lemma MarkerInside(line: string) returns (i: nat)
    requires BeginsInside(line)
    ensures 1 <= i && i + 5 < |line| && line[i] == '-' && line[i + 5] == 'B'
    ensures forall j :: i <= j < i + 5 ==> line[j] == '-'
  {
    var tail := line[1..];
    var k :| 0 <= k <= |tail| - |BEGIN| && HasPrefix(tail[k..], BEGIN);
    i := k + 1;
    forall j | 0 <= j < 6
      ensures line[i + j] == BEGIN[j]
    {
      assert tail[k..][..|BEGIN|][j] == BEGIN[j];
    }
  }

  lemma PlainWithoutB(tag: string)
    requires '\n' !in tag && ':' !in tag && 'B' !in tag
    ensures PlainTag(tag)
  {
    var line := BEGIN + tag + DASHES;
    forall j | 6 <= j < |line|
      ensures line[j] != 'B'
    {
      assert j < |BEGIN| || (j < |BEGIN| + |tag| && line[j] == tag[j - |BEGIN|])
             || line[j] == DASHES[j - |BEGIN| - |tag|];
    }
    if BeginsInside(line) {
      var i := MarkerInside(line);
    }
  }

  lemma OneLine(scan: Scan, line: string)
    requires line != "" && '\n' !in line
    ensures Run(scan, line) == Emit(Step(scan, line).1, ([], Step(scan, line).0))
    ensures Step(scan, line).1.Some? ==> Completes(scan, line)
  {
    hide Step;
    assert LineLength(line) == |line|;
    assert FirstLine(line) == line && OtherLines(line) == "";
  }

  // ---------- Encoding ----------

  /** Lines of 64 columns, each with its newline. */
  function Wrap(text: string): string {
    if text == "" then ""
    else if |text| <= COLUMNS then text + NEWLINE
    else text[..COLUMNS] + NEWLINE + Wrap(text[COLUMNS..])
  }

  function EncodeBlock(tag: string, bytes: seq<Byte>): string {
    BEGIN + tag + DASHES + NEWLINE + Wrap(Base64.Encode(bytes)) + END + tag + DASHES + NEWLINE
  }

  lemma TrimsNothing(line: string)
    requires line != "" && !IsBlank(line[|line| - 1])
    ensures TrimRight(line) == line
  {
  }

  /** A marker is its first part, a tag and dashes. */
  lemma MarkerParts(first: string, tag: string)
    ensures HasPrefix(first + tag + DASHES, first) && (first + tag + DASHES)[|first|..] == tag + DASHES
  {
    var line := first + tag + DASHES;
    assert line == first + (tag + DASHES);
  }

  lemma TagParts(tag: string)
    ensures var rest := tag + DASHES;
            TrimRight(rest) == rest && HasSuffix(rest, DASHES) && rest[..|rest| - |DASHES|] == tag
  {
    var rest := tag + DASHES;
    assert rest[|rest| - 1] == '-';
    TrimsNothing(rest);
    assert rest[|rest| - |DASHES|..] == DASHES;
  }

  lemma ClassifyMarkers(tag: string)
    requires PlainTag(tag)
    ensures Classify(BEGIN + tag + DASHES) == BeginLine(tag)
    ensures Classify(END + tag + DASHES) == EndLine(Some(tag))
  {
    MarkerParts(BEGIN, tag);
    MarkerParts(END, tag);
    TagParts(tag);
    var b := BEGIN + tag + DASHES;
    assert !HasPrefix(b, END) by { assert b[5] == 'B' && END[5] == 'E'; }
    hide TrimRight, BeginsInside;
  }

  lemma {:induction false} StripNothing(text: string)
    requires Base64.IsText(text)
    ensures StripBlanks(text) == text
  {
    if text != "" {
      StripNothing(text[1..]);
    }
  }

  lemma NoMarkers(line: string)
    requires forall i :: 0 <= i < |line| ==> line[i] != '-'
    ensures Classify(line).Text?
  {
    NoMarkerAtStart(line);
    if BeginsInside(line) {
      var i := MarkerInside(line);
    }
  }

  lemma NoMarkerAtStart(line: string)
    ensures HasPrefix(line, BEGIN) || HasPrefix(line, END) ==> line[0] == '-'
  {
  }

  lemma BodyStep(scan: Scan, line: string)
    requires scan.Inside? && Base64.IsText(line)
    ensures Step(scan, line) == (scan.(inHeaders := false, body := scan.body + line), None)
    ensures '\n' !in line
  {
    StripNothing(line);
    assert forall i :: 0 <= i < |line| ==> line[i] != '-';
    NoMarkers(line);
  }

  lemma RunBodyLine(scan: Scan, line: string, rest: string)
    requires scan.Inside? && Base64.IsText(line)
    ensures Run(scan, line + NEWLINE + rest) == Run(scan.(inHeaders := false, body := scan.body + line), rest)
  {
    hide Step, Run;
    BodyStep(scan, line);
    RunLine(scan, line, rest);
  }

  lemma {:induction false} RunBody(scan: Scan, text: string, rest: string)
    requires scan.Inside? && Base64.IsText(text)
    ensures Run(scan, Wrap(text) + rest)
         == Run(scan.(inHeaders := scan.inHeaders && text == "", body := scan.body + text), rest)
    decreases |text|
  {
    hide Run, Base64.IsText;
    if text == "" {
      assert Wrap(text) + rest == rest && scan.body + text == scan.body;
    } else if |text| <= COLUMNS {
      RunBodyLine(scan, text, rest);
    } else {
      var line, tail := text[..COLUMNS], text[COLUMNS..];
      IsTextParts(text);
      RunBodyLine(scan, line, Wrap(tail) + rest);
      assert Wrap(text) + rest == line + NEWLINE + (Wrap(tail) + rest);
      RunBody(scan.(inHeaders := false, body := scan.body + line), tail, rest);
      assert scan.body + line + tail == scan.body + text;
    }
  }

  lemma IsTextParts(text: string)
    requires Base64.IsText(text) && |text| > COLUMNS
    ensures Base64.IsText(text[..COLUMNS]) && Base64.IsText(text[COLUMNS..])
  {
  }

  /** An encoded block decodes to itself, whatever text follows it. */
  lemma RunEncoded(tag: string, bytes: seq<Byte>, rest: string)
    requires PlainTag(tag)
    ensures Run(Outside, EncodeBlock(tag, bytes) + rest)
         == ([Block(tag, false, bytes)] + Run(Outside, rest).0, Run(Outside, rest).1)
  {
    hide Run;
    hide Classify;
    hide Base64.Decode;
    hide Base64.Encode;
    var text := Base64.Encode(bytes);
    var begin, end := BEGIN + tag + DASHES, END + tag + DASHES;
    ClassifyMarkers(tag);
    Base64.DecodeEncode(bytes);
    var open := Inside(tag, false, true, "");
    var tail := end + NEWLINE + rest;
    assert EncodeBlock(tag, bytes) + rest == begin + NEWLINE + (Wrap(text) + tail);
    RunLine(Outside, begin, Wrap(text) + tail);
    RunBody(open, text, tail);
    assert "" + text == text;
    var full := open.(inHeaders := text == "", body := text);
    RunLine(full, end, rest);
    assert ':' !in end;
  }

  /** The blocks with one tag, encoded one after the other. */
  function EncodeAll(tag: string, blobs: seq<seq<Byte>>): string {
    if blobs == [] then "" else EncodeBlock(tag, blobs[0]) + EncodeAll(tag, blobs[1..])
  }

  function BlocksOf(tag: string, blobs: seq<seq<Byte>>): seq<Block> {
    seq(|blobs|, i requires 0 <= i < |blobs| => Block(tag, false, blobs[i]))
  }

  /** Decoding undoes encoding for any number of blocks. */
  lemma {:induction false} DecodeEncodeAll(tag: string, blobs: seq<seq<Byte>>)
    requires PlainTag(tag)
    ensures Run(Outside, EncodeAll(tag, blobs)) == (BlocksOf(tag, blobs), Outside)
  {
    hide Run;
    if blobs == [] {
      RunNothing(Outside);
      assert BlocksOf(tag, blobs) == [];
    } else {
      RunEncoded(tag, blobs[0], EncodeAll(tag, blobs[1..]));
      DecodeEncodeAll(tag, blobs[1..]);
      assert BlocksOf(tag, blobs) == [Block(tag, false, blobs[0])] + BlocksOf(tag, blobs[1..]);
    }
  }

  // ---------- Texts that glue ----------

  /** A block cut before its END line. */
  function Unfinished(tag: string, bytes: seq<Byte>): string {
    BEGIN + tag + DASHES + NEWLINE + Wrap(Base64.Encode(bytes))
  }

  lemma UnfinishedHasNoBlock(tag: string, bytes: seq<Byte>)
    requires PlainTag(tag)
    ensures Blocks(Unfinished(tag, bytes)) == []
  {
    hide Run, Classify, Base64.Decode, Base64.Encode;
    var text := Base64.Encode(bytes);
    ClassifyMarkers(tag);
    Base64.DecodeEncode(bytes);
    RunLine(Outside, BEGIN + tag + DASHES, Wrap(text));
    var open := Inside(tag, false, true, "");
    RunBody(open, text, "");
    assert Wrap(text) + "" == Wrap(text);
    RunNothing(open.(inHeaders := text == "", body := "" + text));
  }

  lemma EndHasNoBlock(tag: string)
    requires PlainTag(tag)
    ensures Blocks(END + tag + DASHES) == []
  {
    hide LineLength, Classify;
    ClassifyMarkers(tag);
    OneLine(Outside, END + tag + DASHES);
  }

  lemma {:induction false} WrapEndsLine(text: string)
    ensures text != "" ==> Wrap(text) != "" && Wrap(text)[|Wrap(text)| - 1] == '\n'
    decreases |text|
  {
    if |text| > COLUMNS {
      WrapEndsLine(text[COLUMNS..]);
    }
  }

  lemma FoldOfTwo(a: string, b: string)
    requires a != "" && b != "" && a[|a| - 1] == '\n'
    ensures FoldTexts([a, b]) == a + b && BlocksOfAll([a, b]) == Blocks(a) + Blocks(b)
  {
    assert [a, b][..1] == [a] && [a][..0] == [];
    assert FoldTexts([a]) == a;
    assert a[|a| - 1..] == NEWLINE;
    assert TrimNewline(a) + NEWLINE == a;
    assert BlocksOfAll([a]) == [] + Blocks(a) == Blocks(a);
  }

  lemma CutInTwo(tag: string, bytes: seq<Byte>)
    ensures var open, close := Unfinished(tag, bytes), END + tag + DASHES;
            && open != "" && open[|open| - 1] == '\n' && close != "" && close[|close| - 1] == '-'
            && open + close + NEWLINE == EncodeBlock(tag, bytes) + ""
  {
    var text := Base64.Encode(bytes);
    assert text == "" ==> Wrap(text) == "";
    hide Wrap, Base64.Encode;
    WrapEndsLine(text);
    var open, first := Unfinished(tag, bytes), BEGIN + tag + DASHES + NEWLINE;
    assert open == first + Wrap(text) && first[|first| - 1] == '\n';
  }

  /** A block cut in two is no block in either text, and comes to life when the texts are folded. */
  lemma GluedTexts(tag: string, bytes: seq<Byte>)
    requires PlainTag(tag)
    ensures var open, close := Unfinished(tag, bytes), END + tag + DASHES;
            && Blocks(open) == [] && Blocks(close) == [] && Glues([open, close])
            && Blocks(FoldTexts([open, close])) == [Block(tag, false, bytes)] && FoldTexts([open, close]) != ""
  {
    UnfinishedHasNoBlock(tag, bytes);
    EndHasNoBlock(tag);
    CutInTwo(tag, bytes);
    GluedFold(Unfinished(tag, bytes), END + tag + DASHES, tag, bytes);
    hide *;
  }

  lemma GluedFold(open: string, close: string, tag: string, bytes: seq<Byte>)
    requires open != "" && open[|open| - 1] == '\n' && close != "" && close[|close| - 1] == '-'
    requires PlainTag(tag) && open + close + NEWLINE == EncodeBlock(tag, bytes) + ""
    requires Blocks(open) == [] && Blocks(close) == []
    ensures Glues([open, close])
    ensures Blocks(FoldTexts([open, close])) == [Block(tag, false, bytes)] && FoldTexts([open, close]) != ""
  {
    hide Run, Glues, EncodeBlock, PlainTag, FoldTexts, BlocksOfAll;
    FoldOfTwo(open, close);
    RunEncoded(tag, bytes, "");
    RunNothing(Outside);
    RunFinalNewline(Outside, open + close);
    FoldKeepsBlocks([open, close]);
  }
}
