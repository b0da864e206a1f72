/** What a diff may edit at most, whatever the clock shows: a half match found is kept. */
module CostCeiling {
  import opened Texts
  import opened Options
  import opened EditDistance
  import opened Frontier
  import opened HalfMatching
  import opened LineCoding
  import opened EncodedBlocks

  /** Nothing of equal texts; otherwise what trimming leaves decides. */
  ghost function Ceiling(text1: Text, text2: Text, timed: bool): nat
    decreases |text1| + |text2|, 1
  {
    var middles := Middles(text1, text2);
    if text1 == text2 then 0 else BlocksCeiling(middles.0, middles.1, timed)
  }

  /** Of a text inside the other one what is around it; of a half match what the two sides
      may; otherwise everything. */
  ghost function BlocksCeiling(text1: Text, text2: Text, timed: bool): nat
    decreases |text1| + |text2|, 0
  {
    var longtext := if |text1| > |text2| then text1 else text2;
    var shorttext := if |text1| > |text2| then text2 else text1;
    if IndexOf(longtext, shorttext, 0) != -1 then |longtext| - |shorttext|
    else if |shorttext| == 1 then |text1| + |text2|
    else
      match HalfOf(text1, text2, timed)
      case Some(h) => Ceiling(h.text1a, h.text2a, timed) + Ceiling(h.text1b, h.text2b, timed)
      case None => |text1| + |text2|
  }

  lemma {:induction false} CeilingAtMost(text1: Text, text2: Text, timed: bool)
    ensures Ceiling(text1, text2, timed) <= |text1| + |text2|
    decreases |text1| + |text2|, 1
  {
    hide BlocksCeiling, Middles;
    var middles := Middles(text1, text2);
    BlocksCeilingAtMost(middles.0, middles.1, timed);
  }

  lemma {:induction false} BlocksCeilingAtMost(text1: Text, text2: Text, timed: bool)
    ensures BlocksCeiling(text1, text2, timed) <= |text1| + |text2|
    decreases |text1| + |text2|, 0
  {
    hide HalfOf, IndexOf, Ceiling;
    match HalfOf(text1, text2, timed)
    case Some(h) =>
      CeilingAtMost(h.text1a, h.text2a, timed);
      CeilingAtMost(h.text1b, h.text2b, timed);
    case None =>
  }

  lemma TrimmedCeiling(a: Text, b: Text, timed: bool)
    requires Trimmed(a, b)
    ensures Ceiling(a, b, timed) == BlocksCeiling(a, b, timed)
  {
    hide BlocksCeiling;
    TrimmedMiddles(a, b);
  }

  lemma MiddlesCeiling(text1: Text, text2: Text, a: Text, b: Text, timed: bool)
    requires text1 != text2 && (a, b) == Middles(text1, text2) && Trimmed(a, b)
    ensures Ceiling(text1, text2, timed) == Ceiling(a, b, timed)
  {
    hide BlocksCeiling;
    TrimmedCeiling(a, b, timed);
  }

  /** With a time limit, texts that are trimmed and take no shortcut, and have a stretch of half
      the longer one in common, keep at least the longest stretch they have in common. */
  lemma CeilingHalf(text1: Text, text2: Text, p: int, q: int, n: int)
    requires Trimmed(text1, text2) && CommonAt(text1, text2, p, q, n)
    requires Max(|text1|, |text2|) >= 4 && HasHalf(text1, text2)
    requires Min(|text1|, |text2|) > 1
    requires var longtext := if |text1| > |text2| then text1 else text2;
             var shorttext := if |text1| > |text2| then text2 else text1;
             IndexOf(longtext, shorttext, 0) == -1
    ensures Ceiling(text1, text2, true) <= |text1| + |text2| - 2 * n
  {
    TrimmedCeiling(text1, text2, true);
    HalfOfBest(text1, text2);
    var h := HalfOf(text1, text2, true).value;
    hide HalfOf, IndexOf, CommonAt, HasHalf;
    CeilingAtMost(h.text1a, h.text2a, true);
    CeilingAtMost(h.text1b, h.text2b, true);
  }

  /** The same of any two texts, by what trimming leaves of them. */
  lemma CeilingOfTexts(text1: Text, text2: Text, p: int, q: int, n: int)
    requires text1 != text2
    requires var r := Middles(text1, text2);
             && CommonAt(r.0, r.1, p, q, n) && Max(|r.0|, |r.1|) >= 4 && HasHalf(r.0, r.1) && Min(|r.0|, |r.1|) > 1
             && var longtext := if |r.0| > |r.1| then r.0 else r.1;
                var shorttext := if |r.0| > |r.1| then r.1 else r.0;
                IndexOf(longtext, shorttext, 0) == -1
    ensures var r := Middles(text1, text2); Ceiling(text1, text2, true) <= |r.0| + |r.1| - 2 * n
  {
    var r := Middles(text1, text2);
    MiddlesTrimmed(text1, text2);
    hide IndexOf, HasHalf, CommonAt, Middles;
    MiddlesCeiling(text1, text2, r.0, r.1, true);
    CeilingHalf(r.0, r.1, p, q, n);
  }

  /** Past the shortcuts the half match decides. */
  lemma ComputeCeiling(text1: Text, text2: Text, timed: bool)
    requires Trimmed(text1, text2)
    requires var longtext := if |text1| > |text2| then text1 else text2;
             var shorttext := if |text1| > |text2| then text2 else text1;
             IndexOf(longtext, shorttext, 0) == -1 && |shorttext| != 1
    ensures match HalfOf(text1, text2, timed)
            case Some(h) =>
              Ceiling(text1, text2, timed) == Ceiling(h.text1a, h.text2a, timed) + Ceiling(h.text1b, h.text2b, timed)
            case None => Ceiling(text1, text2, timed) == |text1| + |text2|
  {
    TrimmedCeiling(text1, text2, timed);
    hide HalfOf, Trimmed;
  }

  lemma InsideCeiling(text1: Text, text2: Text, timed: bool)
    requires Trimmed(text1, text2)
    ensures var longtext := if |text1| > |text2| then text1 else text2;
            var shorttext := if |text1| > |text2| then text2 else text1;
            && (IndexOf(longtext, shorttext, 0) != -1 ==> Ceiling(text1, text2, timed) == |longtext| - |shorttext|)
            && (IndexOf(longtext, shorttext, 0) == -1 && |shorttext| == 1 ==>
                Ceiling(text1, text2, timed) == |text1| + |text2|)
  {
    TrimmedCeiling(text1, text2, timed);
    hide HalfOf, Trimmed;
  }

  // ----- what a search that is never late may edit -----

  /** What a search that is never late may edit: nothing of equal texts, otherwise what trimming
      leaves decides. */
  ghost predicate Thrifty(text1: Text, text2: Text, timed: bool, cost: nat)
    decreases |text1| + |text2|, 2
  {
    var middles := Middles(text1, text2);
    if text1 == text2 then cost == 0 else ThriftyBlocks(middles.0, middles.1, timed, cost)
  }

  /** The shortcuts leave no choice; a half match is kept, and both its sides diffed thriftily;
      anything else is bisected. */
  ghost predicate ThriftyBlocks(text1: Text, text2: Text, timed: bool, cost: nat)
    decreases |text1| + |text2|, 1
  {
    var longtext := if |text1| > |text2| then text1 else text2;
    var shorttext := if |text1| > |text2| then text2 else text1;
    if IndexOf(longtext, shorttext, 0) != -1 then cost <= |longtext| - |shorttext|
    else if |shorttext| == 1 then cost <= |text1| + |text2|
    else
      match HalfOf(text1, text2, timed)
      case Some(h) =>
        exists m: nat, n: nat :: cost <= m + n && Thrifty(h.text1a, h.text2a, timed, m)
                                 && Thrifty(h.text1b, h.text2b, timed, n)
      case None => ThriftySplit(text1, text2, timed, cost)
  }

  /** The texts have nothing in common, or are cut where no edit is wasted and both sides diffed
      thriftily. */
  ghost predicate ThriftySplit(text1: Text, text2: Text, timed: bool, cost: nat)
    decreases |text1| + |text2|, 0
  {
    || cost <= |text1| + |text2| == Distance(text1, text2)
    || exists x, y, m: nat, n: nat ::
         OptimalSplit(text1, text2, x, y) && cost <= m + n
         && Thrifty(text1[..x], text2[..y], timed, m) && Thrifty(text1[x..], text2[y..], timed, n)
  }

  lemma ThriftyLess(text1: Text, text2: Text, timed: bool, cost: nat, cost': nat)
    requires Thrifty(text1, text2, timed, cost) && cost' <= cost
    ensures Thrifty(text1, text2, timed, cost')
  {
    hide Thrifty, Middles, HalfOf, IndexOf, Distance, OptimalSplit;
    ThriftyUnfolds(text1, text2, timed, cost);
    ThriftyUnfolds(text1, text2, timed, cost');
  }

  lemma ThriftyUnfolds(text1: Text, text2: Text, timed: bool, cost: nat)
    ensures var middles := Middles(text1, text2);
            Thrifty(text1, text2, timed, cost) <==>
              if text1 == text2 then cost == 0 else ThriftyBlocks(middles.0, middles.1, timed, cost)
  {
    hide ThriftyBlocks, Middles;
  }

  lemma TrimmedThrifty(a: Text, b: Text, timed: bool, cost: nat)
    requires Trimmed(a, b)
    ensures Thrifty(a, b, timed, cost) <==> ThriftyBlocks(a, b, timed, cost)
  {
    TrimmedMiddles(a, b);
    hide ThriftyBlocks, Middles;
  }

  lemma MiddlesThrifty(text1: Text, text2: Text, a: Text, b: Text, timed: bool, cost: nat)
    requires text1 != text2 && (a, b) == Middles(text1, text2) && Trimmed(a, b)
    ensures Thrifty(text1, text2, timed, cost) <==> Thrifty(a, b, timed, cost)
  {
    TrimmedThrifty(a, b, timed, cost);
    hide ThriftyBlocks, Middles;
  }

  /** Where no half match is looked for, thrift is to edit no more than the distance. */
  lemma {:induction false} ThriftyEndless(text1: Text, text2: Text, cost: nat)
    requires Thrifty(text1, text2, false, cost)
    ensures cost <= Distance(text1, text2)
    decreases |text1| + |text2|, 2
  {
    if text1 != text2 {
      var r := Middles(text1, text2);
      MiddlesTrimmed(text1, text2);
      MiddlesDistance(text1, text2);
      hide Middles, Distance, ThriftyBlocks, Trimmed;
      ThriftyBlocksEndless(r.0, r.1, cost);
    }
  }

  lemma {:induction false} ThriftyBlocksEndless(text1: Text, text2: Text, cost: nat)
    requires ThriftyBlocks(text1, text2, false, cost) && Trimmed(text1, text2)
    ensures cost <= Distance(text1, text2)
    decreases |text1| + |text2|, 1
  {
    LengthBound(text1, text2);
    NeverHalved(text1, text2);
    hide Middles, Trimmed, Thrifty, ThriftySplit, Distance, HalfOf;
    var longtext := if |text1| > |text2| then text1 else text2;
    var shorttext := if |text1| > |text2| then text2 else text1;
    if IndexOf(longtext, shorttext, 0) != -1 {
    } else if |shorttext| == 1 {
      OneUnit(longtext, shorttext);
      DistanceFlipped(text1, text2);
    } else {
      ThriftySplitEndless(text1, text2, cost);
    }
  }

  lemma {:induction false} ThriftySplitEndless(text1: Text, text2: Text, cost: nat)
    requires ThriftySplit(text1, text2, false, cost)
    ensures cost <= Distance(text1, text2)
    decreases |text1| + |text2|, 0
  {
    hide Thrifty, Distance, Prefix, Suffix;
    if !(cost <= |text1| + |text2| == Distance(text1, text2)) {
      var x, y, m: nat, n: nat :| OptimalSplit(text1, text2, x, y) && cost <= m + n
        && Thrifty(text1[..x], text2[..y], false, m) && Thrifty(text1[x..], text2[y..], false, n);
      ThriftyEndless(text1[..x], text2[..y], m);
      ThriftyEndless(text1[x..], text2[y..], n);
      SplitDistance(text1, text2, x, y);
    }
  }

  lemma OneUnit(a: Text, b: Text)
    requires |b| == 1 && forall i :: 0 <= i ==> !OccursAt(a, b, i)
    ensures Distance(a, b) == |a| + |b|
  {
    forall i, j | 0 <= i < |a| && 0 <= j < |b| ensures a[i] != b[j] {
      assert !OccursAt(a, b, i);
      assert a[i..i + 1] == [a[i]] && b == [b[j]];
    }
    NothingShared(a, b, |a|, |b|);
  }

  lemma TrimmedDistance(p: Text, a: Text, b: Text, s: Text)
    ensures Distance(p + a + s, p + b + s) == Distance(a, b)
  {
    CommonTail(p + a, p + b, s);
    CommonHead(p, a, b);
  }

  lemma MiddlesDistance(text1: Text, text2: Text)
    ensures var r := Middles(text1, text2); Distance(text1, text2) == Distance(r.0, r.1)
  {
    var n := PrefixLength(text1, text2);
    PrefixDistance(text1, text2, n);
    EndsDistance(text1[n..], text2[n..]);
    hide Distance, PrefixLength, SuffixLength, SharePrefix, ShareSuffix;
  }

  lemma PrefixDistance(a: Text, b: Text, n: nat)
    requires SharePrefix(a, b, n)
    ensures Distance(a, b) == Distance(a[n..], b[n..])
  {
    hide Distance;
    assert a == a[..n] + a[n..] && b == a[..n] + b[n..];
    CommonHead(a[..n], a[n..], b[n..]);
  }

  lemma EndsDistance(a: Text, b: Text)
    ensures var n := SuffixLength(a, b); Distance(a, b) == Distance(a[..|a| - n], b[..|b| - n])
  {
    CutDistance(a, b, SuffixLength(a, b));
    hide Distance, SuffixLength;
  }

  lemma CutDistance(a: Text, b: Text, n: nat)
    requires ShareSuffix(a, b, n)
    ensures Distance(a, b) == Distance(a[..|a| - n], b[..|b| - n])
  {
    hide Distance;
    assert a == a[..|a| - n] + a[|a| - n..] && b == b[..|b| - n] + a[|a| - n..];
    CommonTail(a[..|a| - n], b[..|b| - n], a[|a| - n..]);
  }

  lemma LengthBound(a: Text, b: Text)
    ensures |a| - |b| <= Distance(a, b) && |b| - |a| <= Distance(a, b)
  {
    DiagonalBound(a, b, |a|, |b|);
    hide Prefix;
  }

  lemma NeverHalved(a: Text, b: Text)
    ensures HalfOf(a, b, false) == None
  {
  }

  lemma DistanceFlipped(a: Text, b: Text)
    ensures Distance(a, b) == Distance(b, a)
  {
    Symmetric(a, b, |a|, |b|);
    hide Prefix;
  }

  lemma SplitDistance(text1: Text, text2: Text, x: int, y: int)
    requires OptimalSplit(text1, text2, x, y)
    ensures Distance(text1[..x], text2[..y]) + Distance(text1[x..], text2[y..]) == Distance(text1, text2)
  {
    hide Distance, Prefix, Suffix;
    DistanceOfPrefixes(text1, text2, x, y);
    DistanceOfSuffixes(text1, text2, x, y);
  }

  lemma AllMiddlesThrifty(text1: Text, text2: Text, a: Text, b: Text, timed: bool)
    requires text1 != text2 && (a, b) == Middles(text1, text2) && Trimmed(a, b)
    ensures forall cost :: Thrifty(a, b, timed, cost) ==> Thrifty(text1, text2, timed, cost)
  {
    hide Thrifty, Middles, Trimmed;
    forall cost | Thrifty(a, b, timed, cost) ensures Thrifty(text1, text2, timed, cost) {
      MiddlesThrifty(text1, text2, a, b, timed, cost);
    }
  }

  /** The shortcuts are thrifty. */
  lemma ShortcutThrifty(text1: Text, text2: Text, timed: bool)
    requires Trimmed(text1, text2)
    ensures var longtext := if |text1| > |text2| then text1 else text2;
            var shorttext := if |text1| > |text2| then text2 else text1;
            && (IndexOf(longtext, shorttext, 0) != -1 ==> Thrifty(text1, text2, timed, |longtext| - |shorttext|))
            && (IndexOf(longtext, shorttext, 0) == -1 && |shorttext| == 1 ==>
                Thrifty(text1, text2, timed, |text1| + |text2|))
  {
    hide Thrifty, IndexOf, HalfOf;
    var longtext := if |text1| > |text2| then text1 else text2;
    var shorttext := if |text1| > |text2| then text2 else text1;
    TrimmedThrifty(text1, text2, timed, |longtext| - |shorttext|);
    TrimmedThrifty(text1, text2, timed, |text1| + |text2|);
  }

  /** Past them thrift is what the two sides of a half match make it, or a bisection. */
  lemma ComputeThrifty(text1: Text, text2: Text, timed: bool)
    requires Trimmed(text1, text2)
    requires var longtext := if |text1| > |text2| then text1 else text2;
             var shorttext := if |text1| > |text2| then text2 else text1;
             IndexOf(longtext, shorttext, 0) == -1 && |shorttext| != 1
    ensures match HalfOf(text1, text2, timed)
            case Some(h) =>
              forall m: nat, n: nat ::
                Thrifty(h.text1a, h.text2a, timed, m) && Thrifty(h.text1b, h.text2b, timed, n) ==>
                  Thrifty(text1, text2, timed, m + n)
            case None =>
              forall cost :: ThriftySplit(text1, text2, timed, cost) ==> Thrifty(text1, text2, timed, cost)
  {
    hide Thrifty, IndexOf, HalfOf, ThriftySplit, Trimmed;
    match HalfOf(text1, text2, timed)
    case Some(h) =>
      forall m: nat, n: nat | Thrifty(h.text1a, h.text2a, timed, m) && Thrifty(h.text1b, h.text2b, timed, n)
        ensures Thrifty(text1, text2, timed, m + n)
      {
        TrimmedThrifty(text1, text2, timed, m + n);
      }
    case None =>
      forall cost | ThriftySplit(text1, text2, timed, cost) ensures Thrifty(text1, text2, timed, cost) {
        TrimmedThrifty(text1, text2, timed, cost);
      }
  }

  // ----- half matches on the way -----

  /** Somewhere in the texts two blocks have a half match, and it is looked for. */
  ghost predicate HalvesIn(text1: Text, text2: Text, timed: bool) {
    exists a, b :: Substring(a, text1) && Substring(b, text2) && HalfOf(a, b, timed).Some?
  }

  lemma HalvesInBlocks(text1: Text, text2: Text, timed: bool, a: Text, b: Text)
    requires Substring(a, text1) && Substring(b, text2) && HalvesIn(a, b, timed)
    ensures HalvesIn(text1, text2, timed)
  {
    hide HalfOf, Substring;
    var x, y :| Substring(x, a) && Substring(y, b) && HalfOf(x, y, timed).Some?;
    SubstringTransitive(x, a, text1);
    SubstringTransitive(y, b, text2);
  }

  lemma HalvesInSelf(text1: Text, text2: Text, timed: bool)
    requires HalfOf(text1, text2, timed).Some?
    ensures HalvesIn(text1, text2, timed)
  {
    hide HalfOf, Substring;
    SliceIsSubstring(text1, 0, |text1|);
    SliceIsSubstring(text2, 0, |text2|);
    assert text1[0..|text1|] == text1 && text2[0..|text2|] == text2;
  }

  lemma HalvesOnlyTimed(text1: Text, text2: Text)
    ensures !HalvesIn(text1, text2, false)
  {
    hide Substring;
  }
}
