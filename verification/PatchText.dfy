/** The text format of patches, after the unified diffs of GNU diff: a header with the two
    ranges, counted from one, and a line for each diff, marked by its operation. */
module PatchText {
  import opened Texts
  import opened Diffs
  import opened Options
  import opened Numerals
  import opened TextLists
  import opened PercentCoding
  import opened Patches

  const COMMA: QChar := 44
  const BLANK: QChar := 32
  const AT: QChar := 64

  /** "@@ -", " +" and " @@" */
  const HEAD: Text := [AT, AT, BLANK, MINUS]
  const MIDDLE: Text := [BLANK, PLUS]
  const TAIL: Text := [BLANK, AT, AT]

  // ----- one range -----

  function RangeText(start: int, length: int): Text {
    if length == 0 then Number(start) + [COMMA] + [48]
    else if length == 1 then Number(start + 1)
    else Number(start + 1) + [COMMA] + Number(length)
  }

  function LeadingDigits(s: Text): (n: nat)
    ensures n <= |s| && AllDigits(s[..n]) && (n < |s| ==> !IsDigit(s[n]))
  {
    if s == [] || !IsDigit(s[0]) then 0
    else
      var n := 1 + LeadingDigits(s[1..]);
      assert s[..n] == [s[0]] + s[1..][..n - 1];
      n
  }

  /** What the header pattern captures for one range, and what is left of the line. */
  datatype Captured = Captured(first: Text, second: Text, rest: Text)

  /** Digits, then perhaps a comma, then perhaps more digits, each as many as there are. */
  function Capture(s: Text): Option<Captured> {
    var n := LeadingDigits(s);
    var t := s[n..];
    if n == 0 then None
    else if t != [] && t[0] == COMMA then
      var m := 1 + LeadingDigits(t[1..]);
      Some(Captured(s[..n], t[1..m], t[m..]))
    else Some(Captured(s[..n], [], t))
  }

  function RangeStart(c: Captured): int {
    if c.second == [48] then ToInt(c.first) else ToInt(c.first) - 1
  }

  function RangeLength(c: Captured): int {
    if c.second == [] then 1 else if c.second == [48] then 0 else ToInt(c.second)
  }

  // ----- a header -----

  function Header(p: Patch): Text {
    HEAD + RangeText(p.start1, p.length1) + MIDDLE + RangeText(p.start2, p.length2) + TAIL
  }

  function After(s: Text, prefix: Text): Option<Text> {
    if StartsWith(s, prefix) then Some(s[|prefix|..]) else None
  }

  /** The patch a header line announces, still without diffs. */
  function ParsedHeader(line: Text): Option<Patch> {
    match After(line, HEAD)
    case None => None
    case Some(s1) =>
      match Capture(s1)
      case None => None
      case Some(c1) =>
        match After(c1.rest, MIDDLE)
        case None => None
        case Some(s2) =>
          match Capture(s2)
          case None => None
          case Some(c2) =>
            if c2.rest == TAIL then
              Some(Patch([], RangeStart(c1), RangeStart(c2), RangeLength(c1), RangeLength(c2)))
            else None
  }

  lemma {:induction false} DigitsLead(d: Text, rest: Text)
    requires AllDigits(d) && (rest == [] || !IsDigit(rest[0]))
    ensures LeadingDigits(d + rest) == |d|
  {
    if d == [] {
      assert d + rest == rest;
    } else {
      assert (d + rest)[1..] == d[1..] + rest;
      DigitsLead(d[1..], rest);
    }
  }

  lemma Halves(a: Text, b: Text)
    ensures (a + b)[..|a|] == a && (a + b)[|a|..] == b
  {
  }

  lemma CaptureOne(d: Text, rest: Text)
    requires d != [] && AllDigits(d) && rest != [] && !IsDigit(rest[0]) && rest[0] != COMMA
    ensures Capture(d + rest) == Some(Captured(d, [], rest))
  {
    DigitsLead(d, rest);
    Halves(d, rest);
  }

  lemma CaptureTwo(d: Text, e: Text, rest: Text)
    requires d != [] && AllDigits(d) && AllDigits(e) && rest != [] && !IsDigit(rest[0])
    ensures Capture(d + [COMMA] + e + rest) == Some(Captured(d, e, rest))
  {
    var s, t := d + [COMMA] + e + rest, [COMMA] + e + rest;
    Halves(d, t);
    Halves(e, rest);
    Halves([COMMA] + e, rest);
    assert s == d + t && t[1..] == e + rest;
    DigitsLead(d, t);
    DigitsLead(e, rest);
    assert t[1..1 + |e|] == (e + rest)[..|e|];
  }

  /** A range counted from zero and not negative, small enough to be read back. */
  predicate InRange(start: int, length: int) {
    0 <= start < INT_MAX && 0 <= length <= INT_MAX
  }

  lemma ZeroReads()
    ensures AllDigits([48]) && ToInt([48]) == 0
  {
    var zero: Text := [48];
    assert zero[..0] == [];
  }

  /** Two numerals with a comma between, the start counted from one and the length; a start
      before an empty range is counted from zero, and a length of one is left out. */
  predicate RangeForm(r: Text, start: int, length: int) {
    if length == 1 then IsNumeral(r, start + 1)
    else exists n :: 0 <= n < |r| && r[n] == 44 && IsNumeral(r[..n], if length == 0 then start else start + 1)
                     && if length == 0 then r[n + 1..] == [48] else IsNumeral(r[n + 1..], length)
  }

  lemma RangeTextForm(start: int, length: int)
    ensures RangeForm(RangeText(start, length), start, length)
  {
    hide IsNumeral, Number;
    NumberIsNumeral(start);
    NumberIsNumeral(start + 1);
    NumberIsNumeral(length);
    var a, b := Number(if length == 0 then start else start + 1), if length == 0 then [48] else Number(length);
    if length != 1 {
      var r := RangeText(start, length);
      assert r == a + [COMMA] + b;
      assert r[|a|] == 44 && r[..|a|] == a && r[|a| + 1..] == b;
    }
  }

  /** A range of this form is read as its start and length. */
  lemma RangeReads(r: Text, start: int, length: int, rest: Text)
    requires RangeForm(r, start, length) && InRange(start, length) && rest != [] && rest[0] == BLANK
    ensures var c := Capture(r + rest);
            c.Some? && c.value.rest == rest && RangeStart(c.value) == start && RangeLength(c.value) == length
  {
    hide Capture, ToInt;
    if length == 1 {
      NumeralReads(r, start + 1);
      CaptureOne(r, rest);
    } else {
      var n :| 0 <= n < |r| && r[n] == 44 && IsNumeral(r[..n], if length == 0 then start else start + 1)
               && if length == 0 then r[n + 1..] == [48] else IsNumeral(r[n + 1..], length);
      var a, b := r[..n], r[n + 1..];
      assert r == a + [COMMA] + b;
      PairReads(a, b, start, length, rest);
    }
  }

  lemma PairReads(a: Text, b: Text, start: int, length: int, rest: Text)
    requires InRange(start, length) && length != 1 && rest != [] && rest[0] == BLANK
    requires IsNumeral(a, if length == 0 then start else start + 1)
    requires if length == 0 then b == [48] else IsNumeral(b, length)
    ensures var c := Capture(a + [COMMA] + b + rest);
            c.Some? && c.value.rest == rest && RangeStart(c.value) == start && RangeLength(c.value) == length
  {
    ZeroReads();
    NumeralReads(a, if length == 0 then start else start + 1);
    if length != 0 { NumeralReads(b, length); }
    hide Capture, ToInt, Value;
    CaptureTwo(a, b, rest);
  }

  lemma AfterReads(prefix: Text, s: Text)
    ensures After(prefix + s, prefix) == Some(s)
  {
    Halves(prefix, s);
  }

  /** A header with these two ranges: two at signs, a blank, a minus, the range in the source,
      a blank, a plus, the range in the target, a blank, two at signs. */
  ghost predicate HeaderForm(line: Text, p: Patch) {
    exists r1, r2 ::
      && line == [64, 64, 32, 45] + r1 + [32, 43] + r2 + [32, 64, 64]
      && RangeForm(r1, p.start1, p.length1) && RangeForm(r2, p.start2, p.length2)
  }

  lemma HeaderFormed(p: Patch)
    ensures HeaderForm(Header(p), p)
  {
    hide RangeText, RangeForm;
    RangeTextForm(p.start1, p.length1);
    RangeTextForm(p.start2, p.length2);
  }

  /** A header of this form is read as its two ranges. */
  lemma FormReads(line: Text, p: Patch)
    requires HeaderForm(line, p) && InRange(p.start1, p.length1) && InRange(p.start2, p.length2)
    ensures ParsedHeader(line) == Some(p.(diffs := []))
  {
    hide Capture, RangeForm, After, RangeStart, RangeLength;
    var r1, r2 :| line == [64, 64, 32, 45] + r1 + [32, 43] + r2 + [32, 64, 64]
                  && RangeForm(r1, p.start1, p.length1) && RangeForm(r2, p.start2, p.length2);
    var t1 := MIDDLE + (r2 + TAIL);
    assert line == HEAD + (r1 + t1);
    AfterReads(HEAD, r1 + t1);
    RangeReads(r1, p.start1, p.length1, t1);
    AfterReads(MIDDLE, r2 + TAIL);
    RangeReads(r2, p.start2, p.length2, TAIL);
  }

  /** A header is read back as written. */
  lemma HeaderReads(p: Patch)
    requires InRange(p.start1, p.length1) && InRange(p.start2, p.length2)
    ensures ParsedHeader(Header(p)) == Some(p.(diffs := []))
  {
    hide Header, HeaderForm, ParsedHeader;
    HeaderFormed(p);
    FormReads(Header(p), p);
  }

  // ----- the lines of a patch -----

  function Sign(op: Operation): QChar {
    match op
    case INSERT => PLUS
    case DELETE => MINUS
    case EQUAL => BLANK
  }

  function Line(codec: Codec, d: Diff): Text {
    [Sign(d.operation)] + codec.encode(d.text)
  }

  /** A plus marks an insertion, a minus a deletion and a blank an equality. */
  predicate Marked(line: Text, op: Operation) {
    && line != []
    && (line[0] == 43 <==> op == INSERT) && (line[0] == 45 <==> op == DELETE) && (line[0] == 32 <==> op == EQUAL)
  }

  lemma LineMarked(codec: Codec, d: Diff)
    ensures Marked(Line(codec, d), d.operation) && Line(codec, d)[1..] == codec.encode(d.text)
  {
  }

  function BodyLines(codec: Codec, ds: seq<Diff>): (r: seq<Text>)
    ensures |r| == |ds| && forall i :: 0 <= i < |ds| ==> r[i] == Line(codec, ds[i])
  {
    if ds == [] then [] else [Line(codec, ds[0])] + BodyLines(codec, ds[1..])
  }

  function PatchLines(codec: Codec, p: Patch): seq<Text> {
    [Header(p)] + BodyLines(codec, p.diffs)
  }

  /** A header for the patch, and a marked line with the encoded text for each diff. */
  ghost predicate Formatted(codec: Codec, p: Patch, lines: seq<Text>) {
    && |lines| == |p.diffs| + 1 && HeaderForm(lines[0], p)
    && forall i :: 0 <= i < |p.diffs| ==>
         Marked(lines[i + 1], p.diffs[i].operation) && lines[i + 1][1..] == codec.encode(p.diffs[i].text)
  }

  /** The lines of a patch have the published format. */
  lemma LinesFormatted(codec: Codec, p: Patch)
    ensures Formatted(codec, p, PatchLines(codec, p))
  {
    hide HeaderForm, Header, Line;
    HeaderFormed(p);
    forall i | 0 <= i < |p.diffs|
      ensures var line := PatchLines(codec, p)[i + 1];
              Marked(line, p.diffs[i].operation) && line[1..] == codec.encode(p.diffs[i].text)
    {
      LineMarked(codec, p.diffs[i]);
    }
  }

  function AllLines(codec: Codec, ps: seq<Patch>): seq<Text> {
    if ps == [] then [] else PatchLines(codec, ps[0]) + AllLines(codec, ps[1..])
  }

  /** The header and the lines of the first `n` diffs. */
  ghost function LinesUpTo(codec: Codec, p: Patch, n: nat): seq<Text>
    requires n <= |p.diffs|
  {
    [Header(p)] + BodyLines(codec, p.diffs[..n])
  }

  lemma LinesFrom(codec: Codec, p: Patch)
    ensures LinesUpTo(codec, p, 0) == [Header(p)] && LinesUpTo(codec, p, |p.diffs|) == PatchLines(codec, p)
  {
    assert p.diffs[..0] == [] && p.diffs[..|p.diffs|] == p.diffs;
  }

  lemma OneMoreLine(codec: Codec, p: Patch, n: nat)
    requires n < |p.diffs|
    ensures LinesUpTo(codec, p, n + 1) == LinesUpTo(codec, p, n) + [Line(codec, p.diffs[n])]
  {
    assert BodyLines(codec, p.diffs[..n + 1]) == BodyLines(codec, p.diffs[..n]) + [Line(codec, p.diffs[n])];
  }

  /** Writes one patch, line by line. */
  method ToString(codec: Codec, p: Patch) returns (text: Text)
    ensures text == Terminated(PatchLines(codec, p), NEWLINE) && Formatted(codec, p, PatchLines(codec, p))
  {
    LinesFormatted(codec, p);
    hide Header, Line, Terminated, LinesUpTo, PatchLines, Formatted;
    text := Header(p) + [NEWLINE];
    OneLine(Header(p));
    LinesFrom(codec, p);
    for i := 0 to |p.diffs|
      invariant text == Terminated(LinesUpTo(codec, p, i), NEWLINE)
    {
      var d := p.diffs[i];
      OneMoreLine(codec, p, i);
      TerminatedSnoc(LinesUpTo(codec, p, i), Line(codec, d), NEWLINE);
      WrittenLine(text, codec, d);
      text := text + [Sign(d.operation)];
      text := text + (codec.encode(d.text) + [NEWLINE]);
    }
  }

  lemma OneLine(line: Text)
    ensures Terminated([line], NEWLINE) == line + [NEWLINE]
  {
    TerminatedSnoc([], line, NEWLINE);
    assert [] + [line] == [line] && [] + line == line;
  }

  lemma WrittenLine(text: Text, codec: Codec, d: Diff)
    ensures text + [Sign(d.operation)] + (codec.encode(d.text) + [NEWLINE]) == text + Line(codec, d) + [NEWLINE]
  {
  }

  /** Writes all patches, one after another. */
  method PatchToText(codec: Codec, ps: seq<Patch>) returns (text: Text)
    ensures text == Terminated(AllLines(codec, ps), NEWLINE)
  {
    hide PatchLines, Terminated;
    text := [];
    assert Terminated([], NEWLINE) == [] by { NoLines(); }
    for i := 0 to |ps|
      invariant text == Terminated(AllLines(codec, ps[..i]), NEWLINE)
    {
      var written := ToString(codec, ps[i]);
      AllLinesSnoc(codec, ps[..i], ps[i]);
      assert ps[..i + 1] == ps[..i] + [ps[i]];
      TerminatedConcat(AllLines(codec, ps[..i]), PatchLines(codec, ps[i]), NEWLINE);
      text := text + written;
    }
    assert ps[..|ps|] == ps;
  }

  lemma NoLines()
    ensures Terminated([], NEWLINE) == []
  {
  }

  lemma {:induction false} AllLinesSnoc(codec: Codec, ps: seq<Patch>, p: Patch)
    ensures AllLines(codec, ps + [p]) == AllLines(codec, ps) + PatchLines(codec, p)
  {
    if ps == [] {
      assert [p][1..] == [] && ps + [p] == [p];
    } else {
      assert (ps + [p])[1..] == ps[1..] + [p];
      AllLinesSnoc(codec, ps[1..], p);
    }
  }

  // ----- reading -----

  /** The diff a line stands for; an unknown sign is an error. */
  function ParsedLine(codec: Codec, line: Text): Option<Diff>
    requires line != []
  {
    var text := codec.decode(PlusEscaped(line[1..]));
    if line[0] == MINUS then Some(Diff(DELETE, text))
    else if line[0] == PLUS then Some(Diff(INSERT, text))
    else if line[0] == BLANK then Some(Diff(EQUAL, text))
    else None
  }

  /** The diffs of the lines up to the next header, and the lines from there on. */
  function ParsedBody(codec: Codec, lines: seq<Text>): (r: Result<(seq<Diff>, seq<Text>)>)
    ensures r.Ok? ==> |r.value.1| <= |lines|
    decreases |lines|
  {
    if lines == [] then Ok(([], []))
    else if lines[0] == [] then ParsedBody(codec, lines[1..])
    else if lines[0][0] == AT then Ok(([], lines))
    else match ParsedLine(codec, lines[0])
      case None => Throws
      case Some(d) => Diffed([d], ParsedBody(codec, lines[1..]))
  }

  function Diffed(ds: seq<Diff>, r: Result<(seq<Diff>, seq<Text>)>): Result<(seq<Diff>, seq<Text>)> {
    match r
    case Throws => Throws
    case Ok(body) => Ok((ds + body.0, body.1))
  }

  function Patched(ps: seq<Patch>, r: Result<seq<Patch>>): Result<seq<Patch>> {
    match r
    case Throws => Throws
    case Ok(qs) => Ok(ps + qs)
  }

  /** The patches the lines stand for. */
  function ParsedLines(codec: Codec, lines: seq<Text>): Result<seq<Patch>>
    decreases |lines|
  {
    if lines == [] then Ok([])
    else match ParsedHeader(lines[0])
      case None => Throws
      case Some(p) =>
        match ParsedBody(codec, lines[1..])
        case Throws => Throws
        case Ok(body) => Patched([p.(diffs := body.0)], ParsedLines(codec, body.1))
  }

  lemma DiffedTwice(ds: seq<Diff>, es: seq<Diff>, r: Result<(seq<Diff>, seq<Text>)>)
    ensures Diffed(ds, Diffed(es, r)) == Diffed(ds + es, r) && Diffed([], r) == r
  {
    if r.Ok? {
      assert ds + (es + r.value.0) == ds + es + r.value.0;
      assert [] + r.value.0 == r.value.0;
    }
  }

  lemma PatchedTwice(ps: seq<Patch>, qs: seq<Patch>, r: Result<seq<Patch>>)
    ensures Patched(ps, Patched(qs, r)) == Patched(ps + qs, r) && Patched([], r) == r
  {
    if r.Ok? {
      assert ps + (qs + r.value) == ps + qs + r.value;
      assert [] + r.value == r.value;
    }
  }

  /** Reads the lines of one patch after its header. */
  method ReadBody(codec: Codec, lines: seq<Text>) returns (r: Result<(seq<Diff>, seq<Text>)>)
    ensures r == ParsedBody(codec, lines)
  {
    hide ParsedLine, Diffed;
    var diffs: seq<Diff>, text := [], lines;
    DiffedTwice([], [], ParsedBody(codec, lines));
    while text != []
      invariant ParsedBody(codec, lines) == Diffed(diffs, ParsedBody(codec, text))
      decreases |text|
    {
      if text[0] == [] {
        text := text[1..];
        continue;
      }
      if text[0][0] == AT {
        break;
      }
      ThrownBody(diffs);
      match ParsedLine(codec, text[0]) {
        case None =>
          return Throws;
        case Some(d) =>
          DiffedTwice(diffs, [d], ParsedBody(codec, text[1..]));
          diffs, text := diffs + [d], text[1..];
      }
    }
    BodyDone(diffs, text);
    return Ok((diffs, text));
  }

  lemma ThrownBody(ds: seq<Diff>)
    ensures Diffed(ds, Throws) == Throws
  {
  }

  lemma BodyDone(ds: seq<Diff>, text: seq<Text>)
    ensures Diffed(ds, Ok(([], text))) == Ok((ds, text))
  {
    assert ds + [] == ds;
  }

  /** Reads patches: a header where one is due, then lines up to the next header. */
  method PatchFromText(codec: Codec, textline: Text) returns (r: Result<seq<Patch>>)
    ensures r == ParsedLines(codec, NonEmpty(Split(textline, NEWLINE)))
    ensures forall ps :: Denotes(codec, NonEmpty(Split(textline, NEWLINE)), ps) ==> r == Ok(ps)
  {
    AllRead(codec, NonEmpty(Split(textline, NEWLINE)));
    hide ParsedHeader, ParsedBody, Patched, Denotes;
    if textline == [] {
      NothingToRead();
      return Ok([]);
    }
    var text := NonEmpty(Split(textline, NEWLINE));
    ghost var lines := text;
    var patches: seq<Patch> := [];
    PatchedTwice([], [], ParsedLines(codec, lines));
    while text != []
      invariant ParsedLines(codec, lines) == Patched(patches, ParsedLines(codec, text))
      decreases |text|
    {
      ThrownPatches(patches);
      match ParsedHeader(text[0]) {
        case None =>
          return Throws;
        case Some(p) =>
          var body := ReadBody(codec, text[1..]);
          if body.Throws? {
            return Throws;
          }
          var patch := p.(diffs := body.value.0);
          PatchedTwice(patches, [patch], ParsedLines(codec, body.value.1));
          patches, text := patches + [patch], body.value.1;
      }
    }
    PatchesDone(patches);
    return Ok(patches);
  }

  lemma AllRead(codec: Codec, lines: seq<Text>)
    ensures forall ps :: Denotes(codec, lines, ps) ==> ParsedLines(codec, lines) == Ok(ps)
  {
    hide Denotes, ParsedLines;
    forall ps | Denotes(codec, lines, ps) ensures ParsedLines(codec, lines) == Ok(ps) {
      LinesRead(codec, lines, ps);
    }
  }

  lemma NothingToRead()
    ensures NonEmpty(Split([], NEWLINE)) == []
  {
    assert Split([], NEWLINE)[1..] == [];
  }

  lemma ThrownPatches(ps: seq<Patch>)
    ensures Patched(ps, Throws) == Throws
  {
  }

  lemma PatchesDone(ps: seq<Patch>)
    ensures Patched(ps, Ok([])) == Ok(ps)
  {
    assert ps + [] == ps;
  }

  // ----- reading what was written -----

  /** The codec carries every text, and the ranges can be written and read back. */
  ghost predicate Printable(codec: Codec, p: Patch) {
    && InRange(p.start1, p.length1) && InRange(p.start2, p.length2)
    && forall i :: 0 <= i < |p.diffs| ==> Carries(codec, p.diffs[i].text)
  }

  ghost predicate AllCarried(codec: Codec, ps: seq<Patch>) {
    forall i, k :: 0 <= i < |ps| && 0 <= k < |ps[i].diffs| ==> Carries(codec, ps[i].diffs[k].text)
  }

  /** Patches of texts that 32 bits can measure are printable if their texts are carried. */
  lemma MeasuredPrintable(codec: Codec, ps: seq<Patch>, size: int)
    requires AllCarried(codec, ps) && size < INT_MAX
    requires forall i :: 0 <= i < |ps| ==>
               Sized(ps[i]) && 0 <= ps[i].start2 && ps[i].start2 + Max(ps[i].length1, ps[i].length2) <= size
    ensures forall i :: 0 <= i < |ps| ==> Printable(codec, ps[i])
  {
    hide Carries, Text1, Text2;
  }

  lemma LineReads(codec: Codec, d: Diff)
    requires Carries(codec, d.text)
    ensures Line(codec, d) != [] && Line(codec, d)[0] != AT && NEWLINE !in Line(codec, d)
    ensures Stands(codec, Line(codec, d), d)
  {
    assert Line(codec, d)[1..] == codec.encode(d.text);
  }

  /** The line is marked as the diff, and the rest of it decodes to its text. */
  predicate Stands(codec: Codec, line: Text, d: Diff) {
    Marked(line, d.operation) && codec.decode(PlusEscaped(line[1..])) == d.text
  }

  /** A line is read as the diff it stands for, and one that stands for none is an error. */
  lemma LineStands(codec: Codec, line: Text)
    requires line != []
    ensures forall d :: ParsedLine(codec, line) == Some(d) <==> Stands(codec, line, d)
    ensures ParsedLine(codec, line) == None <==> line[0] !in {43, 45, 32}
  {
  }

  /** Lines up to the next header are read as the diffs they stand for. */
  lemma {:induction false} BodyReads(codec: Codec, lines: seq<Text>, ds: seq<Diff>, next: seq<Text>)
    requires |lines| == |ds| && forall i :: 0 <= i < |ds| ==> Stands(codec, lines[i], ds[i])
    requires next != [] ==> next[0] != [] && next[0][0] == AT
    ensures ParsedBody(codec, lines + next) == Ok((ds, next))
    decreases |ds|
  {
    hide ParsedLine;
    if ds == [] {
      assert lines + next == next;
    } else {
      assert (lines + next)[1..] == lines[1..] + next;
      LineStands(codec, lines[0]);
      BodyReads(codec, lines[1..], ds[1..], next);
      assert [ds[0]] + ds[1..] == ds;
    }
  }

  lemma LinesStand(codec: Codec, ds: seq<Diff>)
    requires forall i :: 0 <= i < |ds| ==> Carries(codec, ds[i].text)
    ensures forall i :: 0 <= i < |ds| ==> Stands(codec, BodyLines(codec, ds)[i], ds[i])
  {
    hide Line, Stands, Carries;
    forall i | 0 <= i < |ds| ensures Stands(codec, BodyLines(codec, ds)[i], ds[i]) {
      LineReads(codec, ds[i]);
    }
  }

  lemma {:induction false} WrittenDenote(codec: Codec, ps: seq<Patch>)
    requires forall i :: 0 <= i < |ps| ==> Printable(codec, ps[i])
    ensures Denotes(codec, AllLines(codec, ps), ps)
    decreases |ps|
  {
    hide Header, HeaderForm, Line, Stands, Carries;
    if ps != [] {
      var p, lines := ps[0], AllLines(codec, ps);
      HeaderFormed(p);
      LinesStand(codec, p.diffs);
      WrittenDenote(codec, ps[1..]);
      assert lines[1..|p.diffs| + 1] == BodyLines(codec, p.diffs);
      assert lines[|p.diffs| + 1..] == AllLines(codec, ps[1..]);
    }
  }

  /** The lines stand for the patches, in the published format: a header of its form for each,
      and a line for each diff. */
  ghost predicate Denotes(codec: Codec, lines: seq<Text>, ps: seq<Patch>)
    decreases |ps|
  {
    if ps == [] then lines == []
    else
      var p, n := ps[0], |ps[0].diffs|;
      && n < |lines| && HeaderForm(lines[0], p) && InRange(p.start1, p.length1) && InRange(p.start2, p.length2)
      && (forall i :: 0 <= i < n ==> Stands(codec, lines[1..n + 1][i], p.diffs[i]))
      && Denotes(codec, lines[n + 1..], ps[1..])
  }

  /** Lines are read as the patches they stand for, whoever wrote them. */
  lemma {:induction false} LinesRead(codec: Codec, lines: seq<Text>, ps: seq<Patch>)
    requires Denotes(codec, lines, ps)
    ensures ParsedLines(codec, lines) == Ok(ps)
    decreases |ps|
  {
    hide HeaderForm, ParsedHeader, ParsedBody, Stands;
    if ps != [] {
      var p, n := ps[0], |ps[0].diffs|;
      var rest := lines[n + 1..];
      assert lines[1..] == lines[1..n + 1] + rest;
      FormReads(lines[0], p);
      if rest != [] { HeaderMarked(rest[0], ps[1]); }
      BodyReads(codec, lines[1..n + 1], p.diffs, rest);
      LinesRead(codec, rest, ps[1..]);
      assert [p] + ps[1..] == ps;
    }
  }

  lemma HeaderMarked(line: Text, p: Patch)
    requires HeaderForm(line, p)
    ensures line != [] && line[0] == AT
  {
  }

  lemma PlainRange(start: int, length: int)
    requires InRange(start, length)
    ensures NEWLINE !in RangeText(start, length)
  {
    var a, b, c := Number(start), Number(start + 1), Number(length);
    assert forall i :: 0 <= i < |a| ==> IsDigit(a[i]);
    assert forall i :: 0 <= i < |b| ==> IsDigit(b[i]);
    assert forall i :: 0 <= i < |c| ==> IsDigit(c[i]);
  }

  /** Lines the splitter keeps as they are. */
  ghost predicate Plain(lines: seq<Text>) {
    Apart(lines, NEWLINE) && forall i :: 0 <= i < |lines| ==> lines[i] != []
  }

  lemma PlainConcat(a: seq<Text>, b: seq<Text>)
    requires Plain(a) && Plain(b)
    ensures Plain(a + b)
  {
  }

  lemma PatchPlain(codec: Codec, p: Patch)
    requires Printable(codec, p)
    ensures Plain(PatchLines(codec, p))
  {
    hide RangeText, Line, InRange, Carries;
    var lines := PatchLines(codec, p);
    HeaderFormed(p);
    HeaderMarked(Header(p), p);
    forall i | 0 <= i < |lines| ensures lines[i] != [] && NEWLINE !in lines[i] {
      if i == 0 {
        PlainRange(p.start1, p.length1);
        PlainRange(p.start2, p.length2);
      } else {
        LineReads(codec, p.diffs[i - 1]);
      }
    }
  }

  lemma {:induction false} LinesPlain(codec: Codec, ps: seq<Patch>)
    requires forall i :: 0 <= i < |ps| ==> Printable(codec, ps[i])
    ensures Plain(AllLines(codec, ps))
    decreases |ps|
  {
    hide Plain, Printable, PatchLines;
    if ps == [] {
      assert Plain([]) by { NoPlain(); }
    } else {
      PatchPlain(codec, ps[0]);
      LinesPlain(codec, ps[1..]);
      PlainConcat(PatchLines(codec, ps[0]), AllLines(codec, ps[1..]));
    }
  }

  lemma NoPlain()
    ensures Plain([])
  {
  }

  /** Reading gives back the patches that were written. */
  lemma PatchTextRoundTrip(codec: Codec, ps: seq<Patch>)
    requires forall i :: 0 <= i < |ps| ==> Printable(codec, ps[i])
    ensures ParsedLines(codec, NonEmpty(Split(Terminated(AllLines(codec, ps), NEWLINE), NEWLINE))) == Ok(ps)
  {
    hide Printable, AllLines;
    LinesPlain(codec, ps);
    SplitTerminated(AllLines(codec, ps), NEWLINE);
    NonEmptyKeeps(AllLines(codec, ps));
    WrittenDenote(codec, ps);
    LinesRead(codec, AllLines(codec, ps), ps);
  }
}
