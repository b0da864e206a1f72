/** The middle-snake search: two frontiers grown towards each other in arrays. */
module Bisect {
  import opened Texts
  import opened EditDistance
  import opened Frontier
  import opened Deadlines

  datatype Split = NoSplit | SplitAt(x: int, y: int)

  /** The total length is odd, so the forward frontier is the one to find the overlap. */
  ghost predicate Front(a: Text, b: Text) {
    (|a| - |b|) % 2 != 0
  }

  /** What the forward frontier meets on the diagonal facing `k`. */
  lemma FrontFound(a: Text, b: Text, v2: seq<int>, off: int, d: int, k: int, x: int)
    requires Apart(a, b) && Front(a, b) && d >= 0 && Distance(a, b) >= 2 * d - 1
    requires Cells(Reversed(a), Reversed(b), v2, off, d - 1) && SameParity(k, d)
    requires Reach(a, b, x, k, d) && OnGrid(a, b, x, k)
    requires var u := At(v2, off, |a| - |b| - k); u != -1 && x >= |a| - u
    ensures OptimalSplit(a, b, x, x - k)
  {
    hide Reversed, Distance;
    AtLeastTwo(a, b);
    var ra, rb := Reversed(a), Reversed(b);
    var u, f := At(v2, off, |a| - |b| - k), |a| - |b| - k;
    assert SameParity(f, d - 1);
    assert Reach(ra, rb, u, f, d - 1);
    DistanceReversed(a, b);
    ReversedTwice(a);
    ReversedTwice(b);
    FacingOnGrid(ra, rb, u, f, d - 1, x, d);
    Overlap(a, b, x, k, d, u, d - 1);
  }

  /** When the distance equals what both frontiers have spent, a useful point cannot
      go unnoticed: the facing cell overlaps it. */
  lemma Missed(a: Text, b: Text, v: seq<int>, off: int, i: int, j: int, k: int, x: int)
    requires Complete(Reversed(a), Reversed(b), v, off, j)
    requires Distance(a, b) == i + j && Reach(a, b, x, k, i)
    requires Covers(a, b, i, k, x) && SameParity(k, i) && AllFrom(a, b, i, k)
    requires OnGrid(a, b, x, k) ==> var u := At(v, off, |a| - |b| - k); u == -1 || x < |a| - u
    ensures AllFrom(a, b, i, k + 2)
  {
    forall p, q | Useful(a, b, p, q, i) ensures p - q != k {
      UsefulReversed(a, b, p, q, i);
      if p - q == k {
        if x > |a| { OffRight(a, b, x, k, i, p, q, i); }
        if x - k > |b| { OffBottom(a, b, x, k, i, p, q, i); }
      }
    }
    NextDiagonal(a, b, i, k);
  }

  /** What the reverse frontier meets on the diagonal facing `k`. */
  lemma BackFound(a: Text, b: Text, v1: seq<int>, off: int, d: int, k: int, u: int)
    requires Apart(a, b) && !Front(a, b) && d >= 0 && Distance(a, b) >= 2 * d
    requires Cells(a, b, v1, off, d) && SameParity(k, d)
    requires Reach(Reversed(a), Reversed(b), u, k, d) && OnGrid(Reversed(a), Reversed(b), u, k)
    requires var x := At(v1, off, |a| - |b| - k); x != -1 && x >= |a| - u
    ensures var f := |a| - |b| - k; OptimalSplit(a, b, At(v1, off, f), At(v1, off, f) - f)
  {
    AtLeastTwo(a, b);
    var f := |a| - |b| - k;
    var x := At(v1, off, f);
    assert SameParity(f, d);
    assert CellOk(a, b, x, f, Level(f, d));
    assert Reach(a, b, x, f, d);
    FacingOnGrid(a, b, x, f, d, u, d);
    Overlap(a, b, x, f, d, u, d);
  }

  lemma BackMissed(a: Text, b: Text, v1: seq<int>, off: int, d: int, k: int, u: int)
    requires Complete(a, b, v1, off, d)
    requires Distance(a, b) == 2 * d && Reach(Reversed(a), Reversed(b), u, k, d)
    requires Covers(Reversed(a), Reversed(b), d, k, u) && SameParity(k, d)
    requires AllFrom(Reversed(a), Reversed(b), d, k)
    requires OnGrid(Reversed(a), Reversed(b), u, k) ==>
               var x := At(v1, off, |a| - |b| - k); x == -1 || x < |a| - u
    ensures AllFrom(Reversed(a), Reversed(b), d, k + 2)
  {
    hide Reversed, Complete, Covers, AllFrom, Reach, Distance;
    DistanceReversed(a, b);
    ReversedTwice(a);
    ReversedTwice(b);
    Missed(Reversed(a), Reversed(b), v1, off, d, d, k, u);
  }

  // ----- how far an unsuccessful search pushes the distance -----

  /** After `d` steps without an overlap the distance is at least this. */
  ghost predicate Undetected(a: Text, b: Text, d: int) {
    Distance(a, b) >= 2 * d - 1 && (!Front(a, b) ==> Distance(a, b) >= 2 * d)
  }

  lemma UndetectedNext(a: Text, b: Text, d: int)
    requires Undetected(a, b, d)
    requires Front(a, b) ==> Distance(a, b) != 2 * d - 1
    requires !Front(a, b) ==> Distance(a, b) != 2 * d
    ensures Undetected(a, b, d + 1)
  {
    Parity(a, b, |a|, |b|);
  }

  lemma UndetectedEnd(a: Text, b: Text, d: int)
    requires Undetected(a, b, d) && d == (|a| + |b| + 1) / 2
    ensures Distance(a, b) == |a| + |b|
  {
    Parity(a, b, |a|, |b|);
    DiagonalBound(a, b, |a|, |b|);
  }

  /** The furthest point of level `d` on diagonal `k1`: one edit from the better
      neighbour, then along the matches. */
  method ForwardReach(a: Text, b: Text, v1: array<int>, off: nat, d: int, k1: int, ghost s: int, ghost e: int,
                      ghost u: seq<int>)
    returns (x1: int)
    requires v1.Length == 2 * off && 0 <= d < off
    requires Ready(a, b, u, off, d, s, e) && Partial(a, b, u, v1[..], off, d, s, k1)
    requires s - d <= k1 <= d - e && SameParity(k1, d)
    ensures x1 >= 0 && x1 - k1 >= 0 && Choice(u, off, d, k1) <= x1 && Reach(a, b, x1, k1, d)
    ensures x1 < |a| && x1 - k1 < |b| ==> a[x1] != b[x1 - k1]
  {
    hide Ready, Partial, Reach, Choice;
    var i := off + k1;
    StepReads(a, b, u, v1[..], off, d, s, e, k1);
    if k1 == -d || (k1 != d && v1[i - 1] < v1[i + 1]) {
      x1 := v1[i + 1];
    } else {
      x1 := v1[i - 1] + 1;
    }
    var y1 := x1 - k1;
    ReachOnDiagonal(a, b, x1, k1, d);
    while x1 < |a| && y1 < |b| && a[x1] == b[y1]
      invariant y1 == x1 - k1 && Choice(u, off, d, k1) <= x1
      invariant Reach(a, b, x1, k1, d) && x1 >= 0 && y1 >= 0
      decreases |a| - x1
    {
      ReachMatch(a, b, x1, k1, d);
      x1 := x1 + 1;
      y1 := y1 + 1;
    }
  }

  /** Walks the forward frontier one step: level `d` on every diagonal in range. */
  method ForwardStep(a: Text, b: Text, v1: array<int>, v2: array<int>, off: nat, d: int, k1start: nat, k1end: nat)
    returns (split: Split, s: nat, e: nat)
    requires v1 != v2 && v1.Length == v2.Length == 2 * off && 0 <= d < off
    requires Apart(a, b) && d <= Distance(a, b) && Distance(a, b) >= 2 * d - 1
    requires Ready(a, b, v1[..], off, d, k1start, k1end)
    requires Cells(Reversed(a), Reversed(b), v2[..], off, d - 1)
    requires d > 0 ==> Complete(Reversed(a), Reversed(b), v2[..], off, d - 1)
    modifies v1
    ensures split.SplitAt? ==> OptimalSplit(a, b, split.x, split.y)
    ensures split.NoSplit? ==> Ready(a, b, v1[..], off, d + 1, s, e)
    ensures split.NoSplit? && Front(a, b) ==> Distance(a, b) != 2 * d - 1
  {
    hide Partial, Pruned, Cells, Complete, Ready, AllFrom, Covers, Distance, Reach, OptimalSplit, Choice, Apart;
    var delta := |a| - |b|;
    s, e := k1start, k1end;
    ghost var u, w := v1[..], v2[..];
    PartialAtStart(a, b, u, off, d, s, e);
    var k1: int := -d + k1start;
    while k1 <= d - e
      invariant Partial(a, b, u, v1[..], off, d, k1start, k1)
      invariant Pruned(a, b, d, s, e) && SameParity(s, 0) && SameParity(e, 0)
      invariant SameParity(k1, d) && s - d <= k1 && k1start <= s && k1end <= e && k1 <= d + 2
      invariant Front(a, b) && Distance(a, b) == 2 * d - 1 ==> AllFrom(a, b, d, k1)
      invariant v2[..] == w
      decreases d - k1
    {
      ghost var v := v1[..];
      var x1 := ForwardReach(a, b, v1, off, d, k1, k1start, k1end, u);
      var y1 := x1 - k1;
      v1[off + k1] := x1;
      PartialStep(a, b, u, v, off, d, k1start, k1end, k1, x1);
      assert v1[..] == v[off + k1 := x1];
      if x1 > |a| {
        PruneRight(a, b, d, s, e, k1, x1);
        e := e + 2;
      } else if y1 > |b| {
        PruneLeft(a, b, d, s, e, k1, x1);
        s := s + 2;
      } else if delta % 2 != 0 {
        var k2 := off + delta - k1;
        if 0 <= k2 < v2.Length && v2[k2] != -1 {
          var x2 := |a| - v2[k2];
          if x1 >= x2 {
            FrontFound(a, b, w, off, d, k1, x1);
            return SplitAt(x1, y1), s, e;
          }
        }
      }
      if Front(a, b) && Distance(a, b) == 2 * d - 1 {
        Missed(a, b, w, off, d, d - 1, k1, x1);
      }
      k1 := k1 + 2;
    }
    StepDone(a, b, u, v1[..], off, d, k1start, s, e, k1);
    split := NoSplit;
  }

  /** The furthest point of level `d` on reverse diagonal `k2`, matching from the ends. */
  method ReverseReach(a: Text, b: Text, v2: array<int>, off: nat, d: int, k2: int, ghost s: int, ghost e: int,
                      ghost u: seq<int>)
    returns (x2: int)
    requires v2.Length == 2 * off && 0 <= d < off
    requires Ready(Reversed(a), Reversed(b), u, off, d, s, e)
    requires Partial(Reversed(a), Reversed(b), u, v2[..], off, d, s, k2)
    requires s - d <= k2 <= d - e && SameParity(k2, d)
    ensures x2 >= 0 && x2 - k2 >= 0 && Choice(u, off, d, k2) <= x2 && Reach(Reversed(a), Reversed(b), x2, k2, d)
    ensures x2 < |a| && x2 - k2 < |b| ==> Reversed(a)[x2] != Reversed(b)[x2 - k2]
  {
    hide Ready, Partial, Reach, Choice;
    var i := off + k2;
    StepReads(Reversed(a), Reversed(b), u, v2[..], off, d, s, e, k2);
    if k2 == -d || (k2 != d && v2[i - 1] < v2[i + 1]) {
      x2 := v2[i + 1];
    } else {
      x2 := v2[i - 1] + 1;
    }
    var y2 := x2 - k2;
    ReachOnDiagonal(Reversed(a), Reversed(b), x2, k2, d);
    while x2 < |a| && y2 < |b| && a[|a| - x2 - 1] == b[|b| - y2 - 1]
      invariant y2 == x2 - k2 && Choice(u, off, d, k2) <= x2
      invariant Reach(Reversed(a), Reversed(b), x2, k2, d) && x2 >= 0 && y2 >= 0
      decreases |a| - x2
    {
      ReachMatch(Reversed(a), Reversed(b), x2, k2, d);
      x2 := x2 + 1;
      y2 := y2 + 1;
    }
  }

  /** Walks the reverse frontier one step. An overlap is split at the forward point. */
  method ReverseStep(a: Text, b: Text, v1: array<int>, v2: array<int>, off: nat, d: int, k2start: nat, k2end: nat)
    returns (split: Split, s: nat, e: nat)
    requires v1 != v2 && v1.Length == v2.Length == 2 * off && 0 <= d < off
    requires Apart(a, b) && d <= Distance(a, b) && (!Front(a, b) ==> Distance(a, b) >= 2 * d)
    requires Ready(Reversed(a), Reversed(b), v2[..], off, d, k2start, k2end)
    requires Cells(a, b, v1[..], off, d) && Complete(a, b, v1[..], off, d)
    modifies v2
    ensures split.SplitAt? ==> OptimalSplit(a, b, split.x, split.y)
    ensures split.NoSplit? ==> Ready(Reversed(a), Reversed(b), v2[..], off, d + 1, s, e)
    ensures split.NoSplit? && !Front(a, b) ==> Distance(a, b) != 2 * d
  {
    ghost var ra, rb := Reversed(a), Reversed(b);
    hide Partial, Pruned, Cells, Complete, Ready, AllFrom, Covers, Distance, Reach, OptimalSplit, Choice, Apart,
      Reversed;
    ApartReversed(a, b);
    DistanceReversed(a, b);
    ReversedTwice(a);
    ReversedTwice(b);
    var delta := |a| - |b|;
    s, e := k2start, k2end;
    ghost var u, w := v2[..], v1[..];
    PartialAtStart(ra, rb, u, off, d, s, e);
    var k2: int := -d + k2start;
    while k2 <= d - e
      invariant Partial(ra, rb, u, v2[..], off, d, k2start, k2)
      invariant Pruned(ra, rb, d, s, e) && SameParity(s, 0) && SameParity(e, 0)
      invariant SameParity(k2, d) && s - d <= k2 && k2start <= s && k2end <= e && k2 <= d + 2
      invariant !Front(a, b) && Distance(a, b) == 2 * d ==> AllFrom(ra, rb, d, k2)
      invariant v1[..] == w
      decreases d - k2
    {
      ghost var v := v2[..];
      var x2 := ReverseReach(a, b, v2, off, d, k2, k2start, k2end, u);
      var y2 := x2 - k2;
      v2[off + k2] := x2;
      PartialStep(ra, rb, u, v, off, d, k2start, k2end, k2, x2);
      assert v2[..] == v[off + k2 := x2];
      if x2 > |a| {
        PruneRight(ra, rb, d, s, e, k2, x2);
        e := e + 2;
      } else if y2 > |b| {
        PruneLeft(ra, rb, d, s, e, k2, x2);
        s := s + 2;
      } else if delta % 2 == 0 {
        var k1 := off + delta - k2;
        if 0 <= k1 < v1.Length && v1[k1] != -1 {
          var x1 := v1[k1];
          var y1 := off + x1 - k1;
          if x1 >= |a| - x2 {
            BackFound(a, b, w, off, d, k2, x2);
            return SplitAt(x1, y1), s, e;
          }
        }
      }
      if !Front(a, b) && Distance(a, b) == 2 * d {
        BackMissed(a, b, w, off, d, k2, x2);
      }
      k2 := k2 + 2;
    }
    StepDone(ra, rb, u, v2[..], off, d, k2start, s, e, k2);
    split := NoSplit;
  }

  /** A frontier array with every cell unset but the seed. */
  method NewFrontier(off: nat) returns (v: array<int>)
    requires off >= 2
    ensures fresh(v) && v.Length == 2 * off && At(v[..], off, 1) == 0
    ensures forall k {:trigger At(v[..], off, k)} :: k != 1 ==> At(v[..], off, k) == -1
  {
    v := new int[2 * off];
    for x := 0 to v.Length
      invariant forall i :: 0 <= i < x ==> v[i] == -1
    {
      v[x] := -1;
    }
    v[off + 1] := 0;
  }

  /** Where to cut the problem in two, if the frontiers meet before the clock shows a time past
      the deadline. Unless it does they fail to meet only when the texts have nothing in
      common. */
  method MiddleSnake(a: Text, b: Text, deadline: Deadline, clock: Clock) returns (split: Split)
    requires Apart(a, b)
    modifies clock
    ensures old(clock.looks) <= clock.looks
    ensures split.SplitAt? ==> OptimalSplit(a, b, split.x, split.y)
    ensures split.NoSplit? && !WasLate(deadline, clock.readings, old(clock.looks), clock.looks) ==>
              Distance(a, b) == |a| + |b|
  {
    AtLeastTwo(a, b);
    DistanceReversed(a, b);
    var maxD := (|a| + |b| + 1) / 2;
    var v1 := NewFrontier(maxD);
    var v2 := NewFrontier(maxD);
    ReadyAtStart(a, b, v1[..], maxD);
    ReadyAtStart(Reversed(a), Reversed(b), v2[..], maxD);
    hide Cells, Complete, Pruned, Filled, Distance, OptimalSplit, Apart, Reversed;
    var k1start, k1end, k2start, k2end := 0, 0, 0, 0;
    for d := 0 to maxD
      invariant Ready(a, b, v1[..], maxD, d, k1start, k1end)
      invariant Ready(Reversed(a), Reversed(b), v2[..], maxD, d, k2start, k2end)
      invariant Undetected(a, b, d) && old(clock.looks) <= clock.looks
    {
      var now := clock.Look();
      if Past(deadline, now) {
        return NoSplit;
      }
      split, k1start, k1end := ForwardStep(a, b, v1, v2, maxD, d, k1start, k1end);
      if split.SplitAt? {
        return;
      }
      split, k2start, k2end := ReverseStep(a, b, v1, v2, maxD, d, k2start, k2end);
      if split.SplitAt? {
        return;
      }
      UndetectedNext(a, b, d);
    }
    UndetectedEnd(a, b, maxD);
    split := NoSplit;
  }
}
