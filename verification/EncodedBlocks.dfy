/** Which blocks of two texts the search encodes line by line, and whether their lines fit the
    codes. The texts decide it, and whether there is a time limit; the clock does not. */
module EncodedBlocks {
  import opened Texts
  import opened Options
  import opened HalfMatching
  import opened LineCoding

  /** Line mode is asked for and both texts are long enough for it. */
  predicate LineMode(text1: Text, text2: Text, checklines: bool) {
    checklines && |text1| > 100 && |text2| > 100
  }

  /** Something is left to diff, and no common prefix or suffix. */
  ghost predicate Trimmed(a: Text, b: Text) {
    a != b && (a != [] && b != [] ==> a[0] != b[0] && a[|a| - 1] != b[|b| - 1])
  }

  /** What trimming leaves of either text. */
  ghost function Middles(text1: Text, text2: Text): (r: (Text, Text))
    ensures |r.0| + |r.1| <= |text1| + |text2|
  {
    var n := PrefixLength(text1, text2);
    var a, b := text1[n..], text2[n..];
    var m := SuffixLength(a, b);
    (a[..|a| - m], b[..|b| - m])
  }

  /** In line mode every pair of blocks that is encoded has a code for each of its lines. */
  ghost predicate AllFit(text1: Text, text2: Text, timed: bool)
    decreases |text1| + |text2|, 1
  {
    var middles := Middles(text1, text2);
    text1 == text2 || BlocksFit(middles.0, middles.1, timed)
  }

  /** The same of two trimmed texts: nothing is encoded after a shortcut; a half match leaves
      two pairs of blocks. */
  ghost predicate BlocksFit(text1: Text, text2: Text, timed: bool)
    decreases |text1| + |text2|, 0
  {
    var longtext := if |text1| > |text2| then text1 else text2;
    var shorttext := if |text1| > |text2| then text2 else text1;
    || shorttext == [] || IndexOf(longtext, shorttext, 0) != -1 || |shorttext| == 1
    || match HalfOf(text1, text2, timed)
       case Some(h) => AllFit(h.text1a, h.text2a, timed) && AllFit(h.text1b, h.text2b, timed)
       case None => LineMode(text1, text2, true) ==> |DistinctLines(text1, text2)| < CODES
  }

  lemma MiddlesAre(text1: Text, text2: Text, n: nat, a: Text, b: Text, s: Text)
    requires n == PrefixLength(text1, text2) && text1[n..] == a + s && text2[n..] == b + s
    requires |s| == SuffixLength(text1[n..], text2[n..])
    ensures Middles(text1, text2) == (a, b)
  {
    hide SharePrefix, ShareSuffix, PrefixLength, SuffixLength;
    assert (a + s)[..|a|] == a && (b + s)[..|b|] == b;
  }

  lemma PrefixStops(a: Text, b: Text)
    ensures var n := PrefixLength(a, b); n < |a| && n < |b| ==> a[n] != b[n]
  {
    var n := PrefixLength(a, b);
    if n < |a| && n < |b| && a[n] == b[n] {
      assert a[..n + 1] == a[..n] + [a[n]] && b[..n + 1] == b[..n] + [b[n]];
      assert SharePrefix(a, b, n + 1);
    }
  }

  lemma SuffixStops(a: Text, b: Text)
    ensures var n := SuffixLength(a, b); n < |a| && n < |b| ==> a[|a| - 1 - n] != b[|b| - 1 - n]
  {
    var n := SuffixLength(a, b);
    if n < |a| && n < |b| && a[|a| - 1 - n] == b[|b| - 1 - n] {
      assert a[|a| - n - 1..] == [a[|a| - 1 - n]] + a[|a| - n..] && b[|b| - n - 1..] == [b[|b| - 1 - n]] + b[|b| - n..];
      assert ShareSuffix(a, b, n + 1);
    }
  }

  lemma MiddlesTrimmed(text1: Text, text2: Text)
    requires text1 != text2
    ensures var r := Middles(text1, text2); Trimmed(r.0, r.1)
  {
    var n := PrefixLength(text1, text2);
    ChoppedByPrefix(text1, text2);
    EndsCut(text1[n..], text2[n..]);
    hide PrefixLength, SuffixLength, SharePrefix, ShareSuffix, Trimmed;
  }

  lemma EndsCut(a: Text, b: Text)
    requires a != b && (a != [] && b != [] ==> a[0] != b[0])
    ensures var n := SuffixLength(a, b); Trimmed(a[..|a| - n], b[..|b| - n])
  {
    SuffixStops(a, b);
    hide SuffixLength, Trimmed;
    CutTrimmed(a, b, SuffixLength(a, b));
  }

  lemma ChoppedByPrefix(a: Text, b: Text)
    requires a != b
    ensures var n := PrefixLength(a, b);
            a[n..] != b[n..] && (a[n..] != [] && b[n..] != [] ==> a[n..][0] != b[n..][0])
  {
    PrefixStops(a, b);
    Chopped(a, b, PrefixLength(a, b));
  }

  lemma Chopped(a: Text, b: Text, n: nat)
    requires SharePrefix(a, b, n) && a != b && (n < |a| && n < |b| ==> a[n] != b[n])
    ensures a[n..] != b[n..] && (a[n..] != [] && b[n..] != [] ==> a[n..][0] != b[n..][0])
  {
    assert a == a[..n] + a[n..] && b == b[..n] + b[n..];
  }

  lemma CutTrimmed(a: Text, b: Text, n: nat)
    requires ShareSuffix(a, b, n) && a != b && (a != [] && b != [] ==> a[0] != b[0])
    requires n < |a| && n < |b| ==> a[|a| - 1 - n] != b[|b| - 1 - n]
    ensures Trimmed(a[..|a| - n], b[..|b| - n])
  {
    var a', b', s := a[..|a| - n], b[..|b| - n], a[|a| - n..];
    Pieces(a, n);
    Pieces(b, n);
    hide ShareSuffix;
    PiecesTrimmed(a', b', s);
  }

  lemma Pieces(t: Text, n: nat)
    requires n <= |t|
    ensures t == t[..|t| - n] + t[|t| - n..] && (n < |t| ==> t[..|t| - n][|t| - n - 1] == t[|t| - 1 - n])
  {
  }

  lemma PiecesTrimmed(a: Text, b: Text, s: Text)
    requires a + s != b + s && (a + s != [] && b + s != [] ==> (a + s)[0] != (b + s)[0])
    requires a != [] && b != [] ==> a[|a| - 1] != b[|b| - 1]
    ensures Trimmed(a, b)
  {
    assert a != [] ==> (a + s)[0] == a[0];
    assert b != [] ==> (b + s)[0] == b[0];
  }

  lemma SharedEnds(a: Text, b: Text)
    ensures forall n :: n > 0 && SharePrefix(a, b, n) ==> a != [] && b != [] && a[0] == b[0]
    ensures forall n :: n > 0 && ShareSuffix(a, b, n) ==> a != [] && b != [] && a[|a| - 1] == b[|b| - 1]
  {
    forall n | n > 0 && SharePrefix(a, b, n) ensures a != [] && b != [] && a[0] == b[0] {
      assert a[..n][0] == b[..n][0];
    }
    forall n | n > 0 && ShareSuffix(a, b, n) ensures a != [] && b != [] && a[|a| - 1] == b[|b| - 1] {
      assert a[|a| - n..][n - 1] == b[|b| - n..][n - 1];
    }
  }

  lemma TrimmedMiddles(a: Text, b: Text)
    requires Trimmed(a, b)
    ensures Middles(a, b) == (a, b)
  {
    SharedEnds(a, b);
    hide SharePrefix, ShareSuffix, PrefixLength, SuffixLength;
    assert a[0..] == a && b[0..] == b && a[..|a|] == a && b[..|b|] == b;
  }

  /** For trimmed texts the trimming makes no difference. */
  lemma TrimmedFit(a: Text, b: Text, timed: bool)
    requires Trimmed(a, b)
    ensures AllFit(a, b, timed) <==> BlocksFit(a, b, timed)
  {
    hide BlocksFit;
    TrimmedMiddles(a, b);
  }

  /** Trimming keeps what is encoded. */
  lemma MiddlesFit(text1: Text, text2: Text, a: Text, b: Text, timed: bool)
    requires text1 != text2 && (a, b) == Middles(text1, text2) && Trimmed(a, b)
    ensures AllFit(text1, text2, timed) <==> AllFit(a, b, timed)
  {
    hide BlocksFit;
    TrimmedFit(a, b, timed);
  }

  /** Nothing is encoded after a shortcut. */
  lemma ShortcutFits(text1: Text, text2: Text, timed: bool)
    requires Trimmed(text1, text2)
    requires var longtext := if |text1| > |text2| then text1 else text2;
             var shorttext := if |text1| > |text2| then text2 else text1;
             shorttext == [] || IndexOf(longtext, shorttext, 0) != -1 || |shorttext| == 1
    ensures AllFit(text1, text2, timed)
  {
    TrimmedFit(text1, text2, timed);
  }

  /** Trimmed texts that line mode encodes: long enough, neither inside the other, and without a
      half match. */
  ghost predicate Encoded(text1: Text, text2: Text, timed: bool) {
    var longtext := if |text1| > |text2| then text1 else text2;
    var shorttext := if |text1| > |text2| then text2 else text1;
    && LineMode(text1, text2, true) && IndexOf(longtext, shorttext, 0) == -1 && HalfOf(text1, text2, timed).None?
  }

  lemma EmptyFits(text1: Text, text2: Text, timed: bool)
    requires text1 != text2 && (text1 == [] || text2 == [])
    ensures AllFit(text1, text2, timed)
  {
    hide IndexOf, HalfOf, DistinctLines, AllFit;
    TrimmedFit(text1, text2, timed);
  }

  /** Past the shortcuts the half match decides, or the lines of the whole. */
  lemma ComputeFits(text1: Text, text2: Text, timed: bool)
    requires Trimmed(text1, text2)
    requires var longtext := if |text1| > |text2| then text1 else text2;
             var shorttext := if |text1| > |text2| then text2 else text1;
             !(shorttext == [] || IndexOf(longtext, shorttext, 0) != -1 || |shorttext| == 1)
    ensures match HalfOf(text1, text2, timed)
            case Some(h) =>
              AllFit(text1, text2, timed) <==>
                AllFit(h.text1a, h.text2a, timed) && AllFit(h.text1b, h.text2b, timed)
            case None =>
              AllFit(text1, text2, timed) <==>
                (LineMode(text1, text2, true) ==> |DistinctLines(text1, text2)| < CODES)
  {
    TrimmedFit(text1, text2, timed);
    hide HalfOf, Trimmed, DistinctLines;
  }

  // ----- conditions a caller can check -----

  lemma MiddleBlocks(text1: Text, text2: Text)
    ensures var r := Middles(text1, text2); Substring(r.0, text1) && Substring(r.1, text2)
  {
    var n := PrefixLength(text1, text2);
    var m := SuffixLength(text1[n..], text2[n..]);
    MiddlesAt(text1, text2, n, m);
    hide PrefixLength, SuffixLength, Middles, Substring;
    InnerBlock(text1, n, m);
    InnerBlock(text2, n, m);
  }

  lemma MiddlesAt(text1: Text, text2: Text, n: nat, m: nat)
    requires n == PrefixLength(text1, text2) && m == SuffixLength(text1[n..], text2[n..])
    ensures n + m <= |text1| && n + m <= |text2|
    ensures Middles(text1, text2) == (text1[n..][..|text1[n..]| - m], text2[n..][..|text2[n..]| - m])
  {
    hide PrefixLength, SuffixLength;
  }

  lemma InnerBlock(t: Text, n: nat, m: nat)
    requires n + m <= |t|
    ensures Substring(t[n..][..|t[n..]| - m], t)
  {
    assert t[n..][..|t[n..]| - m] == t[n..|t| - m];
    SliceIsSubstring(t, n, |t| - m);
  }

  lemma HalvesAreBlocks(h: Half, text1: Text, text2: Text)
    requires Reassembles(h, text1, text2)
    ensures Substring(h.text1a, text1) && Substring(h.text1b, text1)
    ensures Substring(h.text2a, text2) && Substring(h.text2b, text2)
  {
    assert OccursAt(text1, h.text1a, 0) && OccursAt(text1, h.text1b, |text1| - |h.text1b|);
    assert OccursAt(text2, h.text2a, 0) && OccursAt(text2, h.text2b, |text2| - |h.text2b|);
  }

  /** Line mode is not entered, or no two blocks have too many lines. */
  ghost predicate Modest(text1: Text, text2: Text) {
    LineMode(text1, text2, true) ==> FewLines(text1, text2)
  }

  lemma ModestBlocks(text1: Text, text2: Text, a: Text, b: Text)
    requires Modest(text1, text2) && Substring(a, text1) && Substring(b, text2)
    ensures Modest(a, b)
  {
    hide FewLines;
    if LineMode(text1, text2, true) { FewLinesOfBlocks(text1, text2, a, b); }
  }

  lemma {:induction false} ModestFit(text1: Text, text2: Text, timed: bool)
    requires Modest(text1, text2)
    ensures AllFit(text1, text2, timed)
    decreases |text1| + |text2|, 1
  {
    hide Modest, Middles;
    var middles := Middles(text1, text2);
    MiddleBlocks(text1, text2);
    ModestBlocks(text1, text2, middles.0, middles.1);
    ModestBlocksFit(middles.0, middles.1, timed);
  }

  lemma {:induction false} ModestBlocksFit(text1: Text, text2: Text, timed: bool)
    requires Modest(text1, text2)
    ensures BlocksFit(text1, text2, timed)
    decreases |text1| + |text2|, 0
  {
    hide Substring, DistinctLines, HalfOf, IndexOf, AllFit;
    match HalfOf(text1, text2, timed)
    case Some(h) =>
      HalvesAreBlocks(h, text1, text2);
      ModestBlocks(text1, text2, h.text1a, h.text2a);
      ModestBlocks(text1, text2, h.text1b, h.text2b);
      ModestFit(h.text1a, h.text2a, timed);
      ModestFit(h.text1b, h.text2b, timed);
    case None =>
      if LineMode(text1, text2, true) { FewLinesSelf(text1, text2); }
  }

  lemma FewLinesSelf(text1: Text, text2: Text)
    requires FewLines(text1, text2)
    ensures |DistinctLines(text1, text2)| < CODES
  {
    SliceIsSubstring(text1, 0, |text1|);
    SliceIsSubstring(text2, 0, |text2|);
    assert text1[0..|text1|] == text1 && text2[0..|text2|] == text2;
  }

  /** Line mode is not asked for, or every pair of blocks it encodes fits. */
  ghost predicate LinesFit(text1: Text, text2: Text, checklines: bool, timed: bool) {
    checklines ==> AllFit(text1, text2, timed)
  }

  /** What a caller can count beforehand: line mode is not entered, or the two texts have few
      enough distinct lines for every block of them. */
  ghost predicate Countable(text1: Text, text2: Text, checklines: bool) {
    LineMode(text1, text2, checklines) ==> |DistinctLines(text1, text2)| <= CODES - 5
  }

  lemma CountableFits(text1: Text, text2: Text, checklines: bool, timed: bool)
    requires Countable(text1, text2, checklines)
    ensures LinesFit(text1, text2, checklines, timed)
  {
    hide DistinctLines, FewLines, AllFit;
    if LineMode(text1, text2, checklines) { FewLinesEnough(text1, text2); }
    if checklines { ModestFit(text1, text2, timed); }
  }

  // ----- texts with a line too many -----

  function Row(c: nat): Text
    requires c < CODES
  {
    if c == NEWLINE as nat then [NEWLINE] else [c as QChar, NEWLINE]
  }

  /** Every unit in turn, each with a newline after it. */
  function Rows(): Text {
    seq(2 * CODES, i requires 0 <= i < 2 * CODES => if i % 2 == 0 then (i / 2) as QChar else NEWLINE)
  }

  /** A text without newlines, long enough for line mode. */
  function Plain(): Text {
    seq(101, _ => 5)
  }

  ghost function RowSet(n: nat): set<Text>
    requires n <= CODES
  {
    set c: nat | c < n :: Row(c)
  }

  lemma {:induction false} RowsDiffer(n: nat)
    requires n <= CODES
    ensures |RowSet(n)| == n
  {
    if n == 0 {
      assert RowSet(0) == {};
    } else {
      RowsDiffer(n - 1);
      assert Row(n - 1) !in RowSet(n - 1);
      assert RowSet(n) == RowSet(n - 1) + {Row(n - 1)};
    }
  }

  lemma RowIsLine(c: nat)
    requires c < CODES
    ensures Row(c) in LineSet(Rows())
  {
    var t, s := Rows(), 2 * c;
    var e := s + |Row(c)|;
    hide Lines, Rows;
    RowAt(c);
    RowSpan(t, c);
    SpanIsLine(t, 0, s, e);
  }

  lemma RowSpan(t: Text, c: nat)
    requires c < CODES && |t| == 2 * CODES && t[2 * c] == c as QChar && t[2 * c + 1] == NEWLINE
    requires c > 0 ==> t[2 * c - 1] == NEWLINE
    ensures LineSpan(t, 0, 2 * c, 2 * c + |Row(c)|) && t[2 * c..2 * c + |Row(c)|] == Row(c)
  {
  }

  lemma RowAt(c: nat)
    requires c < CODES
    ensures |Rows()| == 2 * CODES && Rows()[2 * c] == c as QChar && Rows()[2 * c + 1] == NEWLINE
    ensures c > 0 ==> Rows()[2 * c - 1] == NEWLINE
  {
  }

  lemma TooManyRows(text2: Text)
    ensures |DistinctLines(Rows(), text2)| >= CODES
  {
    hide Rows;
    forall l | l in RowSet(CODES) ensures l in LineSet(Rows()) {
      var c: nat :| c < CODES && l == Row(c);
      RowIsLine(c);
    }
    RowsDiffer(CODES);
    SubsetSize(RowSet(CODES), DistinctLines(Rows(), text2));
  }

  /** Two texts that line mode encodes as they are, with one line more than there are codes:
      their lines do not fit, whether or not there is a time limit. */
  lemma RowsDoNotFit(timed: bool)
    ensures LineMode(Rows(), Plain(), true) && !AllFit(Rows(), Plain(), timed)
  {
    var t, p := Rows(), Plain();
    RowAt(0);
    RowAt(CODES - 1);
    PlainNotInRows();
    TooManyRows(p);
    TooShortForHalf(t, p, timed);
    hide Rows, Plain, DistinctLines, IndexOf, OccursAt, HalfOf, AllFit;
    ComputeFits(t, p, timed);
  }

  lemma TooShortForHalf(text1: Text, text2: Text, timed: bool)
    requires 2 * |text2| < |text1|
    ensures HalfOf(text1, text2, timed) == None
  {
  }

  lemma PlainNotInRows()
    ensures forall i :: !OccursAt(Rows(), Plain(), i)
    ensures |Plain()| == 101 && Plain()[0] == Plain()[100] == 5
  {
    forall i ensures !OccursAt(Rows(), Plain(), i) {
      if 0 <= i && i + |Plain()| <= |Rows()| {
        var k := if i % 2 == 1 then 0 else 1;
        assert Rows()[i + k] == NEWLINE;
        assert Rows()[i..i + |Plain()|][k] == NEWLINE && Plain()[k] == 5;
      }
    }
  }
}
