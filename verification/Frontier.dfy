/** What the two frontier arrays of the middle-snake search mean, and why pruning
    diagonals and stopping at the first overlap lose no optimal path.

    The theory is stated for one direction over texts `a` and `b`; the reverse
    search is the same theory over the reversed texts. A cell of a frontier belongs
    to a diagonal `k`, the points with x - y == k. */
module Frontier {
  import opened Texts
  import opened EditDistance

  /** Texts with no common prefix and no common suffix. */
  ghost predicate Apart(a: Text, b: Text) {
    && |a| > 0 && |b| > 0 && |a| + |b| > 2
    && a[0] != b[0] && a[|a| - 1] != b[|b| - 1]
  }

  lemma ApartReversed(a: Text, b: Text)
    requires Apart(a, b)
    ensures Apart(Reversed(a), Reversed(b))
  {
  }

  /** A point at distance `e` from the start that lies on some cheapest path. */
  ghost predicate Useful(a: Text, b: Text, x: int, y: int, e: int) {
    && 0 <= x <= |a| && 0 <= y <= |b|
    && Prefix(a, b, x, y) == e
    && Suffix(a, b, x, y) == Distance(a, b) - e
  }

  lemma UsefulReversed(a: Text, b: Text, x: int, y: int, e: int)
    requires Useful(a, b, x, y, e)
    ensures Useful(Reversed(a), Reversed(b), |a| - x, |b| - y, Distance(a, b) - e)
  {
    var ra, rb := Reversed(a), Reversed(b);
    DistanceReversed(a, b);
    calc {
      Suffix(ra, rb, |a| - x, |b| - y);
      Prefix(Reversed(ra), Reversed(rb), x, y);
      { ReversedTwice(a); ReversedTwice(b); }
      Prefix(a, b, x, y);
    }
  }

  lemma UsefulDiagonal(a: Text, b: Text, x: int, y: int, e: int)
    requires Useful(a, b, x, y, e)
    ensures x - y <= e && y - x <= e && SameParity(x - y, e)
  {
    DiagonalBound(a, b, x, y);
    Parity(a, b, x, y);
  }

  /** A neighbour one level down that the distance allows is itself useful. */
  lemma UsefulNeighbour(a: Text, b: Text, x: int, y: int, e: int, x': int, y': int)
    requires Useful(a, b, x, y, e)
    requires 0 <= x' <= x && 0 <= y' <= y && x - x' + y - y' == 1
    requires Prefix(a, b, x', y') == e - 1
    ensures Useful(a, b, x', y', e - 1)
  {
    if x' < x {
      StepRight(Reversed(a), Reversed(b), |a| - x, |b| - y);
    } else {
      StepDown(Reversed(a), Reversed(b), |a| - x, |b| - y);
    }
    Through(a, b, x', y');
  }

  lemma UsefulMatch(a: Text, b: Text, x: int, y: int, e: int)
    requires Useful(a, b, x, y, e) && x > 0 && y > 0 && a[x - 1] == b[y - 1]
    ensures Useful(a, b, x - 1, y - 1, e)
  {
    StepDiagonal(Reversed(a), Reversed(b), |a| - x, |b| - y);
  }

  lemma UsefulEdit(a: Text, b: Text, x: int, y: int, e: int) returns (right: bool)
    requires Useful(a, b, x, y, e) && e > 0
    requires x == 0 || y == 0 || a[x - 1] != b[y - 1]
    ensures right ==> Useful(a, b, x - 1, y, e - 1)
    ensures !right ==> Useful(a, b, x, y - 1, e - 1)
  {
    right := x > 0 && (y == 0 || Prefix(a, b, x - 1, y) == e - 1);
    if right {
      UsefulNeighbour(a, b, x, y, e, x - 1, y);
    } else {
      UsefulNeighbour(a, b, x, y, e, x, y - 1);
    }
  }

  /** A useful point is the end of a run of `t` matches that starts one edit after
      a useful point of the level below. */
  lemma {:induction false} UsefulStart(a: Text, b: Text, x: int, y: int, e: int)
    returns (t: nat, right: bool)
    requires Useful(a, b, x, y, e) && e > 0
    ensures t <= x && t <= y
    ensures forall i :: x - t <= i < x ==> a[i] == b[i - (x - y)]
    ensures right ==> Useful(a, b, x - t - 1, y - t, e - 1)
    ensures !right ==> Useful(a, b, x - t, y - t - 1, e - 1)
    decreases x
  {
    if x > 0 && y > 0 && a[x - 1] == b[y - 1] {
      UsefulMatch(a, b, x, y, e);
      t, right := UsefulStart(a, b, x - 1, y - 1, e);
      t := t + 1;
    } else {
      t := 0;
      right := UsefulEdit(a, b, x, y, e);
    }
  }

  /** A cheapest path visits every level. */
  lemma {:induction false} LevelExists(a: Text, b: Text, e: int) returns (x: int, y: int)
    requires 0 <= e <= Distance(a, b)
    ensures Useful(a, b, x, y, e)
    decreases Distance(a, b) - e
  {
    if e == Distance(a, b) {
      x, y := |a|, |b|;
    } else {
      x, y := LevelExists(a, b, e + 1);
      var t, right := UsefulStart(a, b, x, y, e + 1);
      x, y := if right then x - t - 1 else x - t, if right then y - t else y - t - 1;
    }
  }

  // ----- points that may have run off the grid -----

  /** The distance, continued past the right and bottom edges at one edit a step. */
  ghost function Beyond(a: Text, b: Text, x: nat, y: nat): nat {
    Prefix(a, b, Min(x, |a|), Min(y, |b|)) + (x - Min(x, |a|)) + (y - Min(y, |b|))
  }

  /** Point `x` on diagonal `k` is reached with at most `e` edits. */
  ghost predicate Reach(a: Text, b: Text, x: int, k: int, e: int) {
    x >= 0 && x - k >= 0 && Beyond(a, b, x, x - k) <= e
  }

  ghost predicate OnGrid(a: Text, b: Text, x: int, k: int) {
    0 <= x <= |a| && 0 <= x - k <= |b|
  }

  lemma ReachRight(a: Text, b: Text, x: int, k: int, e: int)
    requires Reach(a, b, x, k, e)
    ensures Reach(a, b, x + 1, k + 1, e + 1)
  {
    if x < |a| { StepRight(a, b, x, Min(x - k, |b|)); }
  }

  lemma ReachDown(a: Text, b: Text, x: int, k: int, e: int)
    requires Reach(a, b, x, k, e)
    ensures Reach(a, b, x, k - 1, e + 1)
  {
    if x - k < |b| { StepDown(a, b, Min(x, |a|), x - k); }
  }

  lemma ReachMatch(a: Text, b: Text, x: int, k: int, e: int)
    requires Reach(a, b, x, k, e) && x < |a| && x - k < |b| && a[x] == b[x - k]
    ensures Reach(a, b, x + 1, k, e)
  {
    StepDiagonal(a, b, x, x - k);
  }

  /** Once a point is off the right edge, useful points keep well to its left. */
  lemma OffRight(a: Text, b: Text, x: int, k: int, d: int, p: int, q: int, l: int)
    requires Reach(a, b, x, k, d) && x > |a| && Useful(a, b, p, q, l)
    ensures p - q <= k - 2 - (l - d)
  {
    var y := Min(x - k, |b|);
    FarDown(a, b, |a|, y, |b| - y);
    DiagonalBound(Reversed(a), Reversed(b), |a| - p, |b| - q);
  }

  /** Once a point is off the bottom edge, useful points keep well to its right. */
  lemma OffBottom(a: Text, b: Text, x: int, k: int, d: int, p: int, q: int, l: int)
    requires Reach(a, b, x, k, d) && x - k > |b| && Useful(a, b, p, q, l)
    ensures p - q >= k + 2 + (l - d)
  {
    var x' := Min(x, |a|);
    FarRight(a, b, x', |b|, |a| - x');
    DiagonalBound(Reversed(a), Reversed(b), |a| - p, |b| - q);
  }

  // ----- overlap of the two frontiers -----

  /** Splitting at (x, y) is optimal and leaves two strictly smaller problems. */
  ghost predicate OptimalSplit(a: Text, b: Text, x: int, y: int) {
    && 0 <= x <= |a| && 0 <= y <= |b| && 0 < x + y < |a| + |b|
    && Prefix(a, b, x, y) + Suffix(a, b, x, y) == Distance(a, b)
  }

  /** If a grid point of one frontier faces a point of the other on its diagonal, and
      the distance is at least what both have spent, that other point is on the grid. */
  lemma FacingOnGrid(a: Text, b: Text, x: int, k: int, i: int, u: int, j: int)
    requires Reach(a, b, x, k, i)
    requires Reach(Reversed(a), Reversed(b), u, |a| - |b| - k, j)
    requires OnGrid(Reversed(a), Reversed(b), u, |a| - |b| - k)
    requires Distance(a, b) >= i + j
    ensures OnGrid(a, b, x, k)
  {
    DiagonalBound(Reversed(a), Reversed(b), u, u - (|a| - |b| - k));
    var x', y' := Min(x, |a|), Min(x - k, |b|);
    FarDown(a, b, |a|, y', |b| - y');
    FarRight(a, b, x', |b|, |a| - x');
  }

  lemma Overlap(a: Text, b: Text, x: int, k: int, i: int, u: int, j: int)
    requires Reach(a, b, x, k, i) && OnGrid(a, b, x, k)
    requires Reach(Reversed(a), Reversed(b), u, |a| - |b| - k, j)
    requires OnGrid(Reversed(a), Reversed(b), u, |a| - |b| - k)
    requires x + u >= |a|
    requires Distance(a, b) >= i + j && Distance(a, b) > i && Distance(a, b) > j
    ensures OptimalSplit(a, b, x, x - k)
  {
    var n := x + u - |a|;
    AlongDiagonal(Reversed(a), Reversed(b), |a| - x, |b| - (x - k), n);
    Through(a, b, x, x - k);
    DistanceReversed(a, b);
  }

  // ----- frontier arrays -----

  /** Cell of diagonal `k`, or -1 outside the array. */
  ghost function At(v: seq<int>, off: int, k: int): int {
    if 0 <= off + k < |v| then v[off + k] else -1
  }

  /** Unset, the seed below the start, or a reached point. */
  ghost predicate CellOk(a: Text, b: Text, x: int, k: int, e: int) {
    x == -1 || (k == 1 && x == 0) || Reach(a, b, x, k, e)
  }

  ghost function Level(k: int, d: int): int {
    if SameParity(k, d) then d else d - 1
  }

  ghost predicate Cells(a: Text, b: Text, v: seq<int>, off: int, d: int) {
    forall k {:trigger At(v, off, k)} :: CellOk(a, b, At(v, off, k), k, Level(k, d))
  }

  /** Every diagonal still in range holds a reached point of level `d`. */
  ghost predicate Filled(a: Text, b: Text, v: seq<int>, off: int, d: int, s: int, e: int) {
    forall k {:trigger At(v, off, k)} ::
      s - d <= k <= d - e && SameParity(k, d) ==> Reach(a, b, At(v, off, k), k, d)
  }

  /** The frontier has passed every useful point of level `d`. */
  ghost predicate Complete(a: Text, b: Text, v: seq<int>, off: int, d: int) {
    forall x, y :: Useful(a, b, x, y, d) ==> x <= At(v, off, x - y)
  }

  /** Pruned diagonals hold no useful point of level `d` or more. */
  ghost predicate Pruned(a: Text, b: Text, d: int, s: int, e: int) {
    forall x, y, l :: l >= d && Useful(a, b, x, y, l) ==> s - l <= x - y <= l - e
  }

  /** What a frontier satisfies between steps: `d` steps are done. */
  ghost predicate Ready(a: Text, b: Text, v: seq<int>, off: int, d: int, s: int, e: int) {
    && |v| == 2 * off && 0 <= s && 0 <= e && SameParity(s, 0) && SameParity(e, 0)
    && Cells(a, b, v, off, d - 1)
    && Pruned(a, b, d - 1, s, e)
    && (d == 0 ==> s == e == 0 && At(v, off, 1) == 0)
    && (d > 0 ==> s + e <= 2 * (d - 1) && Filled(a, b, v, off, d - 1, s, e)
                  && Complete(a, b, v, off, d - 1))
  }

  lemma ReadyAtStart(a: Text, b: Text, v: seq<int>, off: int)
    requires off >= 2 && |v| == 2 * off && At(v, off, 1) == 0
    requires forall k :: k != 1 ==> At(v, off, k) == -1
    ensures Ready(a, b, v, off, 0, 0, 0)
  {
    forall x, y, l | l >= -1 && Useful(a, b, x, y, l) ensures -l <= x - y <= l {
      DiagonalBound(a, b, x, y);
    }
  }

  /** The better of the two neighbours, as the search picks it. */
  ghost function Choice(v: seq<int>, off: int, d: int, k: int): int {
    if k == -d || (k != d && At(v, off, k - 1) < At(v, off, k + 1)) then At(v, off, k + 1)
    else At(v, off, k - 1) + 1
  }

  lemma ChoiceReached(a: Text, b: Text, v: seq<int>, off: int, d: int, s: int, e: int, k: int)
    requires Ready(a, b, v, off, d, s, e) && d >= 0
    requires s - d <= k <= d - e && SameParity(k, d)
    ensures Reach(a, b, Choice(v, off, d, k), k, d)
  {
    if d > 0 {
      var l, r := At(v, off, k - 1), At(v, off, k + 1);
      assert SameParity(k - 1, d - 1) && SameParity(k + 1, d - 1);
      assert k == s - d || Reach(a, b, l, k - 1, d - 1);
      assert k > s - d || Reach(a, b, r, k + 1, d - 1);
      if Choice(v, off, d, k) == r && (k == -d || (k != d && l < r)) {
        ReachDown(a, b, r, k + 1, d - 1);
      } else {
        ReachRight(a, b, l, k - 1, d - 1);
      }
    }
  }

  /** A run of matches from the chosen start covers every useful point of its diagonal. */
  lemma SnakeCovers(a: Text, b: Text, v: seq<int>, off: int, d: int, k: int, x: int, p: int, q: int)
    requires d > 0 ==> Complete(a, b, v, off, d - 1)
    requires Apart(a, b)
    requires d >= 0 && Useful(a, b, p, q, d) && p - q == k
    requires x >= 0 && x - k >= 0 && Choice(v, off, d, k) <= x
    requires x < |a| && x - k < |b| ==> a[x] != b[x - k]
    ensures p <= x
  {
    if d == 0 {
      ZeroMeansSameStart(a, b, p, q);
    } else {
      var t, right := UsefulStart(a, b, p, q, d);
      if right {
        UsefulDiagonal(a, b, p - t - 1, q - t, d - 1);
      } else {
        UsefulDiagonal(a, b, p - t, q - t - 1, d - 1);
      }
      assert p - t <= Choice(v, off, d, k);
    }
  }

  // ----- one step of a frontier, diagonal by diagonal -----

  /** Level `d` has been written on the diagonals below `k`; the rest is as in `u`. */
  ghost predicate Partial(a: Text, b: Text, u: seq<int>, v: seq<int>, off: int, d: int, s: int, k: int) {
    && |v| == |u|
    && (forall j {:trigger At(v, off, j)} :: !SameParity(j, d) ==> At(v, off, j) == At(u, off, j))
    && Cells(a, b, v, off, d)
    && (forall j {:trigger At(v, off, j)} ::
          s - d <= j < k && SameParity(j, d) ==> Reach(a, b, At(v, off, j), j, d))
    && (forall x, y :: Useful(a, b, x, y, d) && x - y < k ==> x <= At(v, off, x - y))
  }

  /** What a step reads for diagonal `k`: the neighbours as they were, inside the array, and
      the better of them. */
  lemma StepReads(a: Text, b: Text, u: seq<int>, v: seq<int>, off: int, d: int, s: int, e: int, k: int)
    requires Ready(a, b, u, off, d, s, e) && Partial(a, b, u, v, off, d, s, k) && 0 <= d < off
    requires s - d <= k <= d - e && SameParity(k, d)
    ensures |v| == 2 * off && -d <= k <= d && (k == -d || off + k - 1 >= 0) && (k == d > 0 || off + k + 1 < |v|)
    ensures Choice(u, off, d, k)
            == if k == -d || (k != d && v[off + k - 1] < v[off + k + 1]) then v[off + k + 1] else v[off + k - 1] + 1
    ensures Reach(a, b, Choice(u, off, d, k), k, d)
  {
    assert !SameParity(k - 1, d) && !SameParity(k + 1, d);
    assert At(v, off, k - 1) == At(u, off, k - 1) && At(v, off, k + 1) == At(u, off, k + 1);
    hide Cells, Filled, Complete, Pruned, Useful;
    ChoiceReached(a, b, u, off, d, s, e, k);
    assert d == 0 ==> At(u, off, 1) == 0;
  }

  lemma ReachOnDiagonal(a: Text, b: Text, x: int, k: int, d: int)
    requires Reach(a, b, x, k, d)
    ensures x >= 0 && x - k >= 0
  {
  }

  /** `x` is past every useful point of level `d` on diagonal `k`. */
  ghost predicate Covers(a: Text, b: Text, d: int, k: int, x: int) {
    forall p, q :: Useful(a, b, p, q, d) && p - q == k ==> p <= x
  }

  /** No diagonal below `k` holds a useful point of level `d`. */
  ghost predicate AllFrom(a: Text, b: Text, d: int, k: int) {
    forall p, q :: Useful(a, b, p, q, d) ==> p - q >= k
  }

  lemma NextDiagonal(a: Text, b: Text, d: int, k: int)
    requires SameParity(k, d) && AllFrom(a, b, d, k)
    requires forall p, q :: Useful(a, b, p, q, d) ==> p - q != k
    ensures AllFrom(a, b, d, k + 2)
  {
    forall p, q | Useful(a, b, p, q, d) ensures p - q >= k + 2 {
      UsefulDiagonal(a, b, p, q, d);
    }
  }

  lemma PartialAtStart(a: Text, b: Text, v: seq<int>, off: int, d: int, s: int, e: int)
    requires Ready(a, b, v, off, d, s, e) && d >= 0
    ensures Partial(a, b, v, v, off, d, s, s - d)
    ensures Pruned(a, b, d, s, e) && SameParity(s, 0) && SameParity(e, 0)
    ensures SameParity(s - d, d) && s - d <= d
    ensures AllFrom(a, b, d, s - d)
  {
    forall k ensures CellOk(a, b, At(v, off, k), k, Level(k, d)) {
      assert Level(k, d - 1) <= Level(k, d);
    }
    forall x, y | Useful(a, b, x, y, d) ensures x - y >= s - d { }
  }

  lemma PartialStep(a: Text, b: Text, u: seq<int>, v: seq<int>, off: int, d: int, s: int, e: int,
                    k: int, x: int)
    requires Ready(a, b, u, off, d, s, e) && d >= 0
    requires Apart(a, b)
    requires Partial(a, b, u, v, off, d, s, k) && SameParity(k, d) && 0 <= off + k < |v|
    requires Reach(a, b, x, k, d) && Choice(u, off, d, k) <= x
    requires x < |a| && x - k < |b| ==> a[x] != b[x - k]
    ensures Partial(a, b, u, v[off + k := x], off, d, s, k + 2)
    ensures Covers(a, b, d, k, x)
  {
    var w := v[off + k := x];
    assert forall j {:trigger At(w, off, j)} :: At(w, off, j) == if j == k then x else At(v, off, j);
    assert forall j :: k <= j < k + 2 && SameParity(j, d) ==> j == k;
    CoveredStep(a, b, u, v, off, d, k, x);
  }

  lemma CoveredStep(a: Text, b: Text, u: seq<int>, v: seq<int>, off: int, d: int, k: int, x: int)
    requires d >= 0 && (d > 0 ==> Complete(a, b, u, off, d - 1))
    requires Apart(a, b)
    requires forall p, q :: Useful(a, b, p, q, d) && p - q < k ==> p <= At(v, off, p - q)
    requires SameParity(k, d) && 0 <= off + k < |v|
    requires x >= 0 && x - k >= 0 && Choice(u, off, d, k) <= x
    requires x < |a| && x - k < |b| ==> a[x] != b[x - k]
    ensures forall p, q :: Useful(a, b, p, q, d) && p - q < k + 2 ==> p <= At(v[off + k := x], off, p - q)
    ensures Covers(a, b, d, k, x)
  {
    forall p, q | Useful(a, b, p, q, d) && p - q == k ensures p <= x {
      SnakeCovers(a, b, u, off, d, k, x, p, q);
    }
    forall p, q | Useful(a, b, p, q, d) && p - q < k + 2
      ensures p <= At(v[off + k := x], off, p - q)
    {
      UsefulDiagonal(a, b, p, q, d);
      if p - q >= k {
        assert p - q == k;
      }
    }
  }

  lemma PruneRight(a: Text, b: Text, d: int, s: int, e: int, k: int, x: int)
    requires Pruned(a, b, d, s, e) && Reach(a, b, x, k, d) && x > |a| && k <= d - e
    ensures Pruned(a, b, d, s, e + 2)
  {
    forall p, q, l | l >= d && Useful(a, b, p, q, l) ensures s - l <= p - q <= l - (e + 2) {
      OffRight(a, b, x, k, d, p, q, l);
    }
  }

  lemma PruneLeft(a: Text, b: Text, d: int, s: int, e: int, k: int, x: int)
    requires Pruned(a, b, d, s, e) && Reach(a, b, x, k, d) && x - k > |b| && k >= s - d
    ensures Pruned(a, b, d, s + 2, e)
  {
    forall p, q, l | l >= d && Useful(a, b, p, q, l) ensures s + 2 - l <= p - q <= l - e {
      OffBottom(a, b, x, k, d, p, q, l);
    }
  }

  lemma StepDone(a: Text, b: Text, u: seq<int>, v: seq<int>, off: int, d: int, s0: int, s: int, e: int, k: int)
    requires Partial(a, b, u, v, off, d, s0, k) && Pruned(a, b, d, s, e)
    requires |v| == 2 * off && 0 <= s0 <= s && 0 <= e && SameParity(s, 0) && SameParity(e, 0)
    requires k > d - e && 0 <= d <= Distance(a, b)
    ensures Ready(a, b, v, off, d + 1, s, e)
    ensures !AllFrom(a, b, d, k)
  {
    var x, y := LevelExists(a, b, d);
    assert s - d <= x - y <= d - e;
  }
}
