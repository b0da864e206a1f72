/** Slides single edits between equalities to the best-scoring alignment. The score
    of a boundary is a parameter: nothing here depends on how it is computed. */
module Lossless {
  import opened Texts
  import opened Diffs
  import opened ListCursor
  import opened MergeCleanup
  import opened EngineSettings

  /** How good it is to cut `word` into an equality of `o` units, an edit of `m` and
      the rest. */
  ghost function Quality(score: Score, word: Text, m: nat, o: nat): int
    requires o + m <= |word|
  {
    score(word[..o], word[o..o + m]) + score(word[o..o + m], word[o + m..])
  }

  /** The edit can be moved one unit right from offset `o`. */
  ghost predicate Slides(word: Text, m: nat, o: nat)
    requires o + m <= |word|
  {
    m > 0 && o + m < |word| && word[o] == word[o + m]
  }

  /** Offset `o` scores best among lo..hi, and strictly better than what follows it. */
  ghost predicate BestOf(score: Score, word: Text, m: nat, o: nat, lo: nat, hi: nat) {
    && lo <= o <= hi && hi + m <= |word|
    && (forall i :: lo <= i <= hi ==> Quality(score, word, m, i) <= Quality(score, word, m, o))
    && (forall i :: o < i <= hi ==> Quality(score, word, m, i) < Quality(score, word, m, o))
  }

  /** (equality1, edit, equality2) is `word` cut at offset `o`, and without the edit it
      is still `frame`. */
  ghost predicate CutAt(equality1: Text, edit: Text, equality2: Text, word: Text, frame: Text, m: nat, o: nat) {
    && o + m <= |word|
    && equality1 == word[..o] && edit == word[o..o + m] && equality2 == word[o + m..]
    && equality1 + equality2 == frame
  }

  lemma SlideLeftCut(a: Text, x: Text, b: Text, n: nat)
    requires ShareSuffix(a, x, n)
    ensures CutAt(a[..|a| - n], x[|x| - n..] + x[..|x| - n], x[|x| - n..] + b, a + x + b, a + b, |x|, |a| - n)
  {
    var p, c, y := a[..|a| - n], x[|x| - n..], x[..|x| - n];
    assert a == p + c && x == y + c;
    SlideLeftWords(p, c, y, b);
  }

  lemma SlideLeftWords(p: Text, c: Text, y: Text, b: Text)
    ensures CutAt(p, c + y, c + b, p + c + (y + c) + b, p + c + b, |y + c|, |p|)
  {
    var word := p + c + (y + c) + b;
    assert word == p + (c + y) + (c + b);
    assert p + (c + b) == p + c + b;
  }

  lemma SlideRightCut(a: Text, x: Text, b: Text, word: Text, frame: Text, m: nat, o: nat)
    requires CutAt(a, x, b, word, frame, m, o) && Slides(word, m, o)
    ensures CutAt(a + [x[0]], x[1..] + [b[0]], b[1..], word, frame, m, o + 1)
  {
    assert a + [x[0]] == word[..o + 1];
    assert x[1..] + [b[0]] == word[o + 1..o + 1 + m];
    assert b == [x[0]] + b[1..];
    assert a + [x[0]] + b[1..] == a + b;
  }

  /** Steps right one unit at a time, keeping the last of the best cuts. */
  method ScanRight(score: Score, a: Text, x: Text, b: Text, ghost word: Text, ghost frame: Text, ghost m: nat,
                   ghost lo: nat)
    returns (equality1: Text, edit: Text, equality2: Text, ghost best: nat, ghost hi: nat)
    requires CutAt(a, x, b, word, frame, m, lo)
    ensures CutAt(equality1, edit, equality2, word, frame, m, best)
    ensures BestOf(score, word, m, best, lo, hi) && hi + m <= |word| && !Slides(word, m, hi)
    ensures forall i :: lo <= i < hi ==> Slides(word, m, i)
  {
    hide CutAt, BestOf, Quality, Slides;
    var e1, e, e2 := a, x, b;
    equality1, edit, equality2 := e1, e, e2;
    var bestScore := score(e1, e) + score(e, e2);
    best, hi := lo, lo;
    CutFacts(score, e1, e, e2, word, frame, m, hi);
    while e != [] && e2 != [] && e[0] == e2[0]
      invariant lo <= hi && CutAt(e1, e, e2, word, frame, m, hi)
      invariant CutAt(equality1, edit, equality2, word, frame, m, best)
      invariant hi + m <= |word| && best + m <= |word|
      invariant BestOf(score, word, m, best, lo, hi) && bestScore == Quality(score, word, m, best)
      invariant forall i :: lo <= i < hi ==> Slides(word, m, i)
      decreases |e2|
    {
      CutFacts(score, e1, e, e2, word, frame, m, hi);
      SlideRightCut(e1, e, e2, word, frame, m, hi);
      e1, e, e2 := e1 + [e[0]], e[1..] + [e2[0]], e2[1..];
      hi := hi + 1;
      CutFacts(score, e1, e, e2, word, frame, m, hi);
      BestStep(score, word, m, best, lo, hi);
      var s := score(e1, e) + score(e, e2);
      if s >= bestScore {
        bestScore := s;
        equality1, edit, equality2 := e1, e, e2;
        best := hi;
      }
    }
    CutFacts(score, e1, e, e2, word, frame, m, hi);
  }

  /** Offset `best` is the best cut of an edit between two equalities, over the positions
      scanned: from `lo`, as far left as the edit's own length allows, to `hi`, as far right
      as it slides. */
  ghost predicate BestCut(score: Score, a: Text, x: Text, b: Text, best: nat, lo: nat, hi: nat) {
    && BestOf(score, a + x + b, |x|, best, lo, hi)
    && lo <= |a| <= hi && hi + |x| <= |a + x + b| && !Slides(a + x + b, |x|, hi)
    && ShareSuffix(a, x, |a| - lo) && (forall n :: ShareSuffix(a, x, n) ==> n <= |a| - lo)
    && forall i :: lo <= i < hi ==> Slides(a + x + b, |x|, i)
  }

  /** The best alignment of an edit over the positions scanned: from as far left as its
      own length allows to as far right as it slides. */
  method BestAlignment(score: Score, a: Text, x: Text, b: Text)
    returns (equality1: Text, edit: Text, equality2: Text, ghost best: nat, ghost lo: nat, ghost hi: nat)
    ensures CutAt(equality1, edit, equality2, a + x + b, a + b, |x|, best)
    ensures BestCut(score, a, x, b, best, lo, hi)
    ensures equality1 + edit + equality2 == a + x + b && equality1 + equality2 == a + b && |edit| == |x|
  {
    hide CutAt, BestOf, Slides, BestCut, ShareSuffix;
    var n := CommonSuffix(a, x);
    SuffixFits(a, x, n);
    lo := |a| - n;
    SlideLeftCut(a, x, b, n);
    var c := x[|x| - n..];
    equality1, edit, equality2, best, hi :=
      ScanRight(score, a[..|a| - n], c + x[..|x| - n], c + b, a + x + b, a + b, |x|, lo);
    BestRange(score, a + x + b, |x|, best, lo, hi);
    CutJoins(equality1, edit, equality2, a + x + b, a + b, |x|, best);
    BestCutFound(score, a, x, b, best, lo, hi);
  }

  lemma SuffixFits(a: Text, x: Text, n: int)
    requires ShareSuffix(a, x, n)
    ensures 0 <= n <= |a| && n <= |x|
  {
  }

  lemma BestCutFound(score: Score, a: Text, x: Text, b: Text, best: nat, lo: nat, hi: nat)
    requires lo <= |a| && lo <= hi && hi + |x| <= |a + x + b| && BestOf(score, a + x + b, |x|, best, lo, hi)
    requires ShareSuffix(a, x, |a| - lo) && (forall n :: ShareSuffix(a, x, n) ==> n <= |a| - lo)
    requires !Slides(a + x + b, |x|, hi) && forall i :: lo <= i < hi ==> Slides(a + x + b, |x|, i)
    ensures BestCut(score, a, x, b, best, lo, hi)
  {
    hide BestOf, Slides, ShareSuffix;
    AsFarRight(a + x + b, a, x, b, lo, hi);
  }

  /** The three parts of a cut make up the word. */
  lemma CutJoins(e1: Text, e: Text, e2: Text, word: Text, frame: Text, m: nat, o: nat)
    requires CutAt(e1, e, e2, word, frame, m, o)
    ensures |e| == m && e1 + e + e2 == word && e1 + e2 == frame
  {
  }

  lemma BestRange(score: Score, word: Text, m: nat, o: nat, lo: nat, hi: nat)
    requires BestOf(score, word, m, o, lo, hi)
    ensures lo <= o <= hi && hi + m <= |word|
  {
  }

  lemma CutFacts(score: Score, e1: Text, e: Text, e2: Text, word: Text, frame: Text, m: nat, o: nat)
    requires CutAt(e1, e, e2, word, frame, m, o)
    ensures o + m <= |word| && |e1| == o && |e| == m
    ensures score(e1, e) + score(e, e2) == Quality(score, word, m, o)
    ensures BestOf(score, word, m, o, o, o)
    ensures Slides(word, m, o) <==> e != [] && e2 != [] && e[0] == e2[0]
  {
  }

  lemma BestStep(score: Score, word: Text, m: nat, best: nat, lo: nat, hi: nat)
    requires hi > 0 && hi + m <= |word| && BestOf(score, word, m, best, lo, hi - 1)
    ensures BestOf(score, word, m,
                   if Quality(score, word, m, hi) >= Quality(score, word, m, best) then hi else best, lo, hi)
  {
  }

  /** Sliding stops no earlier than where the edit stood at first. */
  lemma AsFarRight(word: Text, a: Text, x: Text, b: Text, lo: nat, hi: nat)
    requires word == a + x + b && hi + |x| <= |word| && lo <= |a|
    requires ShareSuffix(a, x, |a| - lo) && !Slides(word, |x|, hi) && lo <= hi
    ensures |a| <= hi
  {
  }

  // ----- the pass over the list -----

  /** Same texts, same number of edited units, no new blanks. */
  ghost predicate Realigns(es: seq<Diff>, ds: seq<Diff>) {
    SameTexts(es, ds) && EditCost(es) == EditCost(ds) && KeepsSolid(ds, es)
  }

  function EqualUnlessBlank(text: Text): seq<Diff> {
    if text != [] then [Diff(EQUAL, text)] else []
  }

  /** A triple with its edit moved; an equality that became blank is gone. */
  function Realigned(op: Operation, equality1: Text, edit: Text, equality2: Text): seq<Diff> {
    EqualUnlessBlank(equality1) + [Diff(op, edit)] + EqualUnlessBlank(equality2)
  }

  lemma EqualUnlessBlankTexts(text: Text)
    ensures Text1(EqualUnlessBlank(text)) == text == Text2(EqualUnlessBlank(text))
    ensures EditCost(EqualUnlessBlank(text)) == 0
  {
    Single(Diff(EQUAL, text));
  }

  lemma RealignedTexts(a: Diff, x: Diff, b: Diff, e1: Text, e: Text, e2: Text)
    requires a.operation == EQUAL && b.operation == EQUAL && |e| == |x.text|
    requires e1 + e + e2 == a.text + x.text + b.text && e1 + e2 == a.text + b.text
    ensures Realigns(Realigned(x.operation, e1, e, e2), [a, x, b])
  {
    RealignedSolid(a, x, b, e1, e, e2);
    EqualUnlessBlankTexts(e1);
    EqualUnlessBlankTexts(e2);
    hide Text1, Text2, EditCost, EqualUnlessBlank, KeepsSolid;
    var x' := Diff(x.operation, e);
    Concat3(EqualUnlessBlank(e1), [x'], EqualUnlessBlank(e2));
    Triple(a, x, b);
    Single(a);
    Single(x);
    Single(b);
    Single(x');
    assert e1 + [] + e2 == e1 + e2 && a.text + [] + b.text == a.text + b.text;
  }

  lemma RealignedSolid(a: Diff, x: Diff, b: Diff, e1: Text, e: Text, e2: Text)
    requires |e| == |x.text|
    ensures KeepsSolid([a, x, b], Realigned(x.operation, e1, e, e2))
  {
    forall edits | Solid([a, x, b], edits) ensures Solid(Realigned(x.operation, e1, e, e2), edits) {
      assert [a, x, b][1] == x;
    }
  }

  lemma RealignInPlace(before: seq<Diff>, a: seq<Diff>, b: seq<Diff>, after: seq<Diff>)
    requires Realigns(b, a)
    ensures Realigns(before + b + after, before + a + after)
  {
    Replace(before, a, b, after);
    forall edits | Solid(before + a + after, edits) ensures Solid(before + b + after, edits) {
      SolidInPlace(before, a, b, after, edits);
    }
  }

  lemma SolidInPlace(before: seq<Diff>, a: seq<Diff>, b: seq<Diff>, after: seq<Diff>, edits: bool)
    requires Solid(before + a + after, edits) && (Solid(a, edits) ==> Solid(b, edits))
    ensures Solid(before + b + after, edits)
  {
    var l := before + a + after;
    assert forall i :: 0 <= i < |before| ==> before[i] == l[i];
    assert forall i :: 0 <= i < |a| ==> a[i] == l[|before| + i];
    assert forall i :: 0 <= i < |after| ==> after[i] == l[|before| + |a| + i];
  }

  lemma RealignsTransitive(a: seq<Diff>, b: seq<Diff>, c: seq<Diff>)
    requires Realigns(b, a) && Realigns(c, b)
    ensures Realigns(c, a)
  {
  }

  /** Writes a better alignment of the triple at `i` back into the list. Only one of the
      two equalities can have become blank. */
  method WriteBack(c: Cursor<Diff>, i: nat, e1: Text, e: Text, e2: Text)
    requires c.Valid() && c.pos == i + 3 && c.last == i + 2
    requires c.items[i].operation == EQUAL && c.items[i + 2].operation == EQUAL
    requires c.items[i].text != e1 && e1 + e2 == c.items[i].text + c.items[i + 2].text
    modifies c
    ensures c.Valid()
    ensures c.items == old(c.items[..i] + Realigned(c.items[i + 1].operation, e1, e, e2) + c.items[i + 3..])
    ensures c.pos == i + |Realigned(old(c.items[i + 1].operation), e1, e, e2)|
    ensures e1 != [] || e2 != []
  {
    hide Realigned;
    var a, x, b := c.items[i], c.items[i + 1], c.items[i + 2];
    ghost var before, after, x' := c.items[..i], c.items[i + 3..], Diff(x.operation, e);
    assert c.items == before + [a, x, b] + after;
    var thisDiff, nextDiff := i + 1, i + 2;
    if e1 != [] {
      ThreeCells(before, a, x, b, after, Diff(EQUAL, e1));
      ThreeCells(before, Diff(EQUAL, e1), x, b, after, x');
      ThreeCells(before, Diff(EQUAL, e1), x', b, after, Diff(EQUAL, e2));
      c.SetAt(i, Diff(EQUAL, e1));
    } else {
      ThreeCells(before, a, x, b, after, x');
      TwoCells(before, x, b, after, x');
      TwoCells(before, x', b, after, Diff(EQUAL, e2));
      var _ := c.Previous();
      var _ := c.Previous();
      var _ := c.Previous();
      c.Remove();
      var _ := c.Next();
      var _ := c.Next();
      thisDiff, nextDiff := i, i + 1;
      assert |a.text + b.text| > 0;
    }
    c.SetAt(thisDiff, Diff(x.operation, e));
    if e2 != [] {
      c.SetAt(nextDiff, Diff(EQUAL, e2));
    } else {
      c.Remove();
    }
    RealignedCells(x.operation, e1, e, e2);
  }

  lemma RealignedCells(op: Operation, e1: Text, e: Text, e2: Text)
    ensures e1 != [] && e2 != [] ==> Realigned(op, e1, e, e2) == [Diff(EQUAL, e1), Diff(op, e), Diff(EQUAL, e2)]
    ensures e1 != [] && e2 == [] ==> Realigned(op, e1, e, e2) == [Diff(EQUAL, e1), Diff(op, e)]
    ensures e1 == [] && e2 != [] ==> Realigned(op, e1, e, e2) == [Diff(op, e), Diff(EQUAL, e2)]
  {
  }

  /** Writing and removing three elements inside a list. */
  lemma ThreeCells(before: seq<Diff>, a: Diff, x: Diff, b: Diff, after: seq<Diff>, d: Diff)
    ensures var l, i := before + [a, x, b] + after, |before|;
            && l[i := d] == before + [d, x, b] + after && l[i + 1 := d] == before + [a, d, b] + after
            && l[i + 2 := d] == before + [a, x, d] + after
            && l[..i] + l[i + 1..] == before + [x, b] + after && l[..i + 2] + l[i + 3..] == before + [a, x] + after
  {
  }

  lemma TwoCells(before: seq<Diff>, x: Diff, b: Diff, after: seq<Diff>, d: Diff)
    ensures var l, i := before + [x, b] + after, |before|;
            && l[i := d] == before + [d, b] + after && l[i + 1 := d] == before + [x, d] + after
            && l[..i + 1] + l[i + 2..] == before + [x] + after
  {
  }

  /** The triple cut at offset `best`; at its own offset it stays as it is. */
  function Moved(a: Diff, x: Diff, b: Diff, best: nat): (r: seq<Diff>)
    requires best <= |a.text| + |b.text|
    ensures 2 <= |r| <= 3
  {
    var word, n := a.text + x.text + b.text, |x.text|;
    if best == |a.text| then [a, x, b]
    else Realigned(x.operation, word[..best], word[best..best + n], word[best + n..])
  }

  /** Something stands at `i` between two equalities. */
  predicate Between(ds: seq<Diff>, i: nat) {
    i + 2 < |ds| && ds[i].operation == EQUAL && ds[i + 2].operation == EQUAL
  }

  ghost predicate BestAt(score: Score, ds: seq<Diff>, i: nat, best: nat, lo: nat, hi: nat)
    requires i + 2 < |ds|
  {
    BestCut(score, ds[i].text, ds[i + 1].text, ds[i + 2].text, best, lo, hi)
  }

  /** From the triple at `i` on, each edit between equalities in turn is moved to its best
      cut, and `es` is what results. */
  ghost predicate Aligns(score: Score, ds: seq<Diff>, i: nat, es: seq<Diff>)
    decreases |ds| - i
  {
    if i + 2 >= |ds| then es == ds
    else if Between(ds, i) then
      exists best, lo, hi ::
        && BestAt(score, ds, i, best, lo, hi)
        && var m := Moved(ds[i], ds[i + 1], ds[i + 2], best);
           Aligns(score, ds[..i] + m + ds[i + 3..], i + |m| - 2, es)
    else Aligns(score, ds, i + 1, es)
  }

  /** Whatever the pass makes of `es` from `k` on, it makes of `ds` from the start. */
  ghost predicate Continues(score: Score, ds: seq<Diff>, es: seq<Diff>, k: nat) {
    forall fs :: Aligns(score, es, k, fs) ==> Aligns(score, ds, 0, fs)
  }

  lemma ContinuesPast(score: Score, ds: seq<Diff>, es: seq<Diff>, k: nat)
    requires Continues(score, ds, es, k) && k + 2 < |es| && !Between(es, k)
    ensures Continues(score, ds, es, k + 1)
  {
  }

  lemma ContinuesMoved(score: Score, ds: seq<Diff>, es: seq<Diff>, k: nat, best: nat, lo: nat, hi: nat, fs: seq<Diff>)
    requires Continues(score, ds, es, k) && Between(es, k)
    requires BestAt(score, es, k, best, lo, hi)
    requires fs == es[..k] + Moved(es[k], es[k + 1], es[k + 2], best) + es[k + 3..]
    ensures Continues(score, ds, fs, k + |Moved(es[k], es[k + 1], es[k + 2], best)| - 2)
  {
    hide BestAt, Moved;
  }

  lemma ContinuesDone(score: Score, ds: seq<Diff>, es: seq<Diff>, k: nat)
    requires Continues(score, ds, es, k) && k + 2 >= |es|
    ensures Aligns(score, ds, 0, es)
  {
    assert Aligns(score, es, k, es);
  }

  lemma ContinuesSelf(score: Score, ds: seq<Diff>)
    ensures Continues(score, ds, ds, 0)
  {
  }

  /** Aligns every single edit between equalities, one after another, as well as `score`
      allows. Both texts and the amount edited stay. */
  method CleanupSemanticLossless(c: Cursor<Diff>, score: Score)
    requires c.Valid()
    modifies c
    ensures c.Valid() && Realigns(c.items, old(c.items))
    ensures Aligns(score, old(c.items), 0, c.items)
  {
    hide Realigns, Aligns, Continues;
    ghost var ds := c.items;
    RealignsSelf(ds);
    ContinuesSelf(score, ds);
    c.ToFront();
    var prevDiff := Step(c);
    var thisDiff := Step(c);
    var nextDiff := Step(c);
    ghost var k: nat := 0;
    while nextDiff != -1
      invariant c.Valid()
      invariant nextDiff != -1 ==> nextDiff == c.pos - 1 && thisDiff == nextDiff - 1 && prevDiff == nextDiff - 2 == k
      invariant nextDiff != -1 ==> c.last == nextDiff
      invariant nextDiff == -1 ==> k + 2 >= |c.items|
      invariant Realigns(c.items, ds) && Continues(score, ds, c.items, k)
      decreases |c.items| - c.pos, nextDiff + 1
    {
      if c.items[prevDiff].operation == EQUAL && c.items[nextDiff].operation == EQUAL {
        thisDiff, nextDiff := Align(c, prevDiff, score, ds);
        k := thisDiff;
      } else {
        ContinuesPast(score, ds, c.items, k);
        k := k + 1;
      }
      prevDiff := thisDiff;
      thisDiff := nextDiff;
      nextDiff := Step(c);
    }
    ContinuesDone(score, ds, c.items, k);
  }

  lemma RealignsSelf(ds: seq<Diff>)
    ensures Realigns(ds, ds)
  {
  }

  /** A cut of the triple is what moving it there gives. */
  lemma CutMoves(a: Diff, x: Diff, b: Diff, e1: Text, e: Text, e2: Text, best: nat)
    requires CutAt(e1, e, e2, a.text + x.text + b.text, a.text + b.text, |x.text|, best)
    ensures best <= |a.text| + |b.text| && |e| == |x.text|
    ensures e1 + e + e2 == a.text + x.text + b.text && e1 + e2 == a.text + b.text
    ensures e1 == a.text <==> best == |a.text|
    ensures Moved(a, x, b, best) == if e1 == a.text then [a, x, b] else Realigned(x.operation, e1, e, e2)
  {
    hide Realigned;
    assert (a.text + x.text + b.text)[..|a.text|] == a.text;
  }

  /** Aligns the edit of one triple; points at the last two elements before the cursor. */
  method Align(c: Cursor<Diff>, i: nat, score: Score, ghost ds: seq<Diff>) returns (thisDiff: int, nextDiff: int)
    requires c.Valid() && c.pos == i + 3 && c.last == i + 2
    requires c.items[i].operation == EQUAL && c.items[i + 2].operation == EQUAL
    requires Realigns(c.items, ds) && Continues(score, ds, c.items, i)
    modifies c
    ensures |c.items| - c.pos == old(|c.items| - c.pos) && i + 2 <= c.pos <= i + 3
    ensures c.Valid() && Realigns(c.items, ds) && Continues(score, ds, c.items, c.pos - 2)
    ensures nextDiff == c.pos - 1 && thisDiff == nextDiff - 1 >= 0
  {
    hide Realigns, BestOf, Quality, Slides, ShareSuffix, BestCut, CutAt, Moved, Continues, Realigned;
    ghost var items := c.items;
    var a, x, b := c.items[i], c.items[i + 1], c.items[i + 2];
    var e1, e, e2, best, lo, hi := BestAlignment(score, a.text, x.text, b.text);
    CutMoves(a, x, b, e1, e, e2, best);
    ghost var before, after := c.items[..i], c.items[i + 3..];
    assert c.items == before + [a, x, b] + after;
    ContinuesMoved(score, ds, items, i, best, lo, hi, before + Moved(a, x, b, best) + after);
    thisDiff, nextDiff := i + 1, i + 2;
    if a.text != e1 {
      RealignedTexts(a, x, b, e1, e, e2);
      RealignInPlace(before, [a, x, b], Realigned(x.operation, e1, e, e2), after);
      RealignsTransitive(ds, items, before + Realigned(x.operation, e1, e, e2) + after);
      WriteBack(c, i, e1, e, e2);
      nextDiff := c.pos - 1;
      thisDiff := nextDiff - 1;
    }
  }
}
