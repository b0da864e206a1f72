/** The insert/delete distance between two texts, and the facts about it that make
    a middle-snake search optimal. */
module EditDistance {
  import opened Texts
  import opened Diffs

  /** Distance between the first `x` units of `a` and the first `y` units of `b`
      when only insertions and deletions are allowed. */
  ghost function Prefix(a: Text, b: Text, x: nat, y: nat): nat
    requires x <= |a| && y <= |b|
    decreases x + y
  {
    if x == 0 then y
    else if y == 0 then x
    else if a[x - 1] == b[y - 1] then Prefix(a, b, x - 1, y - 1)
    else 1 + Min(Prefix(a, b, x - 1, y), Prefix(a, b, x, y - 1))
  }

  /** Distance between what is left of `a` after `x` units and of `b` after `y`. */
  ghost function Suffix(a: Text, b: Text, x: nat, y: nat): nat
    requires x <= |a| && y <= |b|
  {
    Prefix(Reversed(a), Reversed(b), |a| - x, |b| - y)
  }

  ghost function Distance(a: Text, b: Text): nat {
    Prefix(a, b, |a|, |b|)
  }

  // ----- how the distance moves from one grid point to the next -----

  lemma {:induction false} StepRight(a: Text, b: Text, x: nat, y: nat)
    requires x < |a| && y <= |b|
    ensures Prefix(a, b, x, y) - 1 <= Prefix(a, b, x + 1, y) <= Prefix(a, b, x, y) + 1
    decreases x + y
  {
    if y > 0 {
      StepDown(a, b, x, y - 1);
      StepRight(a, b, x, y - 1);
    }
  }

  lemma {:induction false} StepDown(a: Text, b: Text, x: nat, y: nat)
    requires x <= |a| && y < |b|
    ensures Prefix(a, b, x, y) - 1 <= Prefix(a, b, x, y + 1) <= Prefix(a, b, x, y) + 1
    decreases x + y
  {
    if x > 0 {
      StepRight(a, b, x - 1, y);
      StepDown(a, b, x - 1, y);
    }
  }

  lemma StepDiagonal(a: Text, b: Text, x: nat, y: nat)
    requires x < |a| && y < |b|
    ensures Prefix(a, b, x, y) <= Prefix(a, b, x + 1, y + 1)
    ensures a[x] == b[y] ==> Prefix(a, b, x + 1, y + 1) == Prefix(a, b, x, y)
  {
    StepRight(a, b, x, y);
    StepDown(a, b, x, y);
  }

  lemma {:induction false} AlongDiagonal(a: Text, b: Text, x: nat, y: nat, n: nat)
    requires x + n <= |a| && y + n <= |b|
    ensures Prefix(a, b, x, y) <= Prefix(a, b, x + n, y + n)
  {
    if n > 0 {
      AlongDiagonal(a, b, x, y, n - 1);
      StepDiagonal(a, b, x + n - 1, y + n - 1);
    }
  }

  lemma {:induction false} DiagonalBound(a: Text, b: Text, x: nat, y: nat)
    requires x <= |a| && y <= |b|
    ensures x - y <= Prefix(a, b, x, y) && y - x <= Prefix(a, b, x, y) <= x + y
    decreases x + y
  {
    if x > 0 && y > 0 {
      DiagonalBound(a, b, x - 1, y - 1);
      DiagonalBound(a, b, x - 1, y);
      DiagonalBound(a, b, x, y - 1);
    }
  }

  ghost predicate SameParity(m: int, n: int) {
    (m - n) % 2 == 0
  }

  lemma {:induction false} Parity(a: Text, b: Text, x: nat, y: nat)
    requires x <= |a| && y <= |b|
    ensures SameParity(Prefix(a, b, x, y), x - y)
    decreases x + y
  {
    if x > 0 && y > 0 {
      if a[x - 1] == b[y - 1] {
        Parity(a, b, x - 1, y - 1);
      } else {
        Parity(a, b, x - 1, y);
        Parity(a, b, x, y - 1);
      }
    }
  }

  // ----- the same distance read from either end -----

  /** Passing through any grid point never beats the distance. */
  lemma {:induction false} Through(a: Text, b: Text, x: nat, y: nat)
    requires x <= |a| && y <= |b|
    ensures Distance(a, b) <= Prefix(a, b, x, y) + Suffix(a, b, x, y)
    decreases |a| - x + |b| - y
  {
    if x == |a| {
      FarDown(a, b, x, y, |b| - y);
    } else if y == |b| {
      FarRight(a, b, x, y, |a| - x);
    } else if a[x] == b[y] {
      Through(a, b, x + 1, y + 1);
    } else {
      StepRight(a, b, x, y);
      StepDown(a, b, x, y);
      Through(a, b, x + 1, y);
      Through(a, b, x, y + 1);
    }
  }

  lemma {:induction false} FarRight(a: Text, b: Text, x: nat, y: nat, n: nat)
    requires x + n <= |a| && y <= |b|
    ensures Prefix(a, b, x, y) - n <= Prefix(a, b, x + n, y) <= Prefix(a, b, x, y) + n
  {
    if n > 0 {
      FarRight(a, b, x, y, n - 1);
      StepRight(a, b, x + n - 1, y);
    }
  }

  lemma {:induction false} FarDown(a: Text, b: Text, x: nat, y: nat, n: nat)
    requires x <= |a| && y + n <= |b|
    ensures Prefix(a, b, x, y) - n <= Prefix(a, b, x, y + n) <= Prefix(a, b, x, y) + n
  {
    if n > 0 {
      FarDown(a, b, x, y, n - 1);
      StepDown(a, b, x, y + n - 1);
    }
  }

  lemma DistanceReversed(a: Text, b: Text)
    ensures Distance(Reversed(a), Reversed(b)) == Distance(a, b)
  {
    Through(a, b, 0, 0);
    Through(Reversed(a), Reversed(b), 0, 0);
    ReversedTwice(a);
    ReversedTwice(b);
  }

  // ----- distances of pieces -----

  lemma {:induction false} PrefixOfExtension(a: Text, b: Text, a': Text, b': Text, x: nat, y: nat)
    requires x <= |a| && y <= |b| && x <= |a'| && y <= |b'|
    requires a[..x] == a'[..x] && b[..y] == b'[..y]
    ensures Prefix(a, b, x, y) == Prefix(a', b', x, y)
    decreases x + y
  {
    if x > 0 && y > 0 {
      assert a[x - 1] == a[..x][x - 1] == a'[x - 1];
      assert b[y - 1] == b[..y][y - 1] == b'[y - 1];
      assert a[..x - 1] == a[..x][..x - 1] == a'[..x - 1];
      assert b[..y - 1] == b[..y][..y - 1] == b'[..y - 1];
      PrefixOfExtension(a, b, a', b', x - 1, y - 1);
      PrefixOfExtension(a, b, a', b', x - 1, y);
      PrefixOfExtension(a, b, a', b', x, y - 1);
    }
  }

  lemma DistanceOfPrefixes(a: Text, b: Text, x: nat, y: nat)
    requires x <= |a| && y <= |b|
    ensures Distance(a[..x], b[..y]) == Prefix(a, b, x, y)
  {
    PrefixOfExtension(a, b, a[..x], b[..y], x, y);
  }

  lemma DistanceOfSuffixes(a: Text, b: Text, x: nat, y: nat)
    requires x <= |a| && y <= |b|
    ensures Distance(a[x..], b[y..]) == Suffix(a, b, x, y)
  {
    assert Reversed(a)[..|a| - x] == Reversed(a[x..]);
    assert Reversed(b)[..|b| - y] == Reversed(b[y..]);
    DistanceOfPrefixes(Reversed(a), Reversed(b), |a| - x, |b| - y);
    DistanceReversed(a[x..], b[y..]);
  }

  lemma {:induction false} CommonTail(a: Text, b: Text, t: Text)
    ensures Distance(a + t, b + t) == Distance(a, b)
  {
    if t == [] {
      assert a + t == a && b + t == b;
    } else {
      var i := t[..|t| - 1];
      assert (a + t)[..|a + t| - 1] == a + i;
      assert (b + t)[..|b + t| - 1] == b + i;
      DistanceOfPrefixes(a + t, b + t, |a + t| - 1, |b + t| - 1);
      CommonTail(a, b, i);
    }
  }

  lemma CommonHead(p: Text, a: Text, b: Text)
    ensures Distance(p + a, p + b) == Distance(a, b)
  {
    assert Reversed(p + a) == Reversed(a) + Reversed(p);
    assert Reversed(p + b) == Reversed(b) + Reversed(p);
    DistanceReversed(p + a, p + b);
    DistanceReversed(a, b);
    CommonTail(Reversed(a), Reversed(b), Reversed(p));
  }

  // ----- no diff list is cheaper than the distance, and one reaches it -----

  /** Every diff list edits at least as many units as the distance between its texts. */
  lemma {:induction false} CostAtLeastDistance(ds: seq<Diff>)
    ensures Distance(Text1(ds), Text2(ds)) <= EditCost(ds)
  {
    if ds != [] {
      var d, rest := ds[0], ds[1..];
      CostAtLeastDistance(rest);
      var a, b := Text1(rest), Text2(rest);
      assert [] + a == a && [] + b == b;
      match d.operation
      case EQUAL =>
        CommonHead(d.text, a, b);
      case DELETE =>
        LongerHead(d.text, a, b);
      case INSERT =>
        LongerHead(d.text, b, a);
        Symmetric(a, d.text + b, |a|, |d.text + b|);
        Symmetric(a, b, |a|, |b|);
    }
  }

  lemma LongerHead(p: Text, a: Text, b: Text)
    ensures Distance(p + a, b) <= |p| + Distance(a, b)
  {
    assert (p + a)[|p|..] == a;
    DistanceOfSuffixes(p + a, b, |p|, 0);
    assert b[0..] == b;
    Through(p + a, b, |p|, 0);
  }

  lemma {:induction false} Symmetric(a: Text, b: Text, x: nat, y: nat)
    requires x <= |a| && y <= |b|
    ensures Prefix(a, b, x, y) == Prefix(b, a, y, x)
    decreases x + y
  {
    if x > 0 && y > 0 {
      Symmetric(a, b, x - 1, y - 1);
      Symmetric(a, b, x - 1, y);
      Symmetric(a, b, x, y - 1);
    }
  }

  /** A list is minimal when no list with the same texts edits fewer units. */
  ghost predicate Minimal(ds: seq<Diff>) {
    forall es :: SameTexts(es, ds) ==> EditCost(ds) <= EditCost(es)
  }

  lemma MinimalAtDistance(ds: seq<Diff>)
    requires EditCost(ds) <= Distance(Text1(ds), Text2(ds))
    ensures Minimal(ds)
  {
    forall es | SameTexts(es, ds) ensures EditCost(ds) <= EditCost(es) {
      CostAtLeastDistance(es);
    }
  }

  // ----- special shapes -----

  lemma {:induction false} NothingShared(a: Text, b: Text, x: nat, y: nat)
    requires x <= |a| && y <= |b|
    requires forall i, j :: 0 <= i < x && 0 <= j < y ==> a[i] != b[j]
    ensures Prefix(a, b, x, y) == x + y
    decreases x + y
  {
    if x > 0 && y > 0 {
      NothingShared(a, b, x - 1, y);
      NothingShared(a, b, x, y - 1);
    }
  }

  lemma {:induction false} ZeroMeansSameStart(a: Text, b: Text, x: nat, y: nat)
    requires x <= |a| && y <= |b| && Prefix(a, b, x, y) == 0
    ensures x == y && (x > 0 ==> a[0] == b[0])
    decreases x + y
  {
    if x > 0 && y > 0 {
      ZeroMeansSameStart(a, b, x - 1, y - 1);
    }
  }

  /** Different first and different last units put two texts at distance 2 or more. */
  lemma AtLeastTwo(a: Text, b: Text)
    requires |a| > 0 && |b| > 0 && |a| + |b| > 2
    requires a[0] != b[0] && a[|a| - 1] != b[|b| - 1]
    ensures Distance(a, b) >= 2
  {
    if Prefix(a, b, |a| - 1, |b|) == 0 { ZeroMeansSameStart(a, b, |a| - 1, |b|); }
    if Prefix(a, b, |a|, |b| - 1) == 0 { ZeroMeansSameStart(a, b, |a|, |b| - 1); }
  }

  // ----- longest common subsequences -----

  ghost function Lcs(a: Text, b: Text, x: nat, y: nat): nat
    requires x <= |a| && y <= |b|
    decreases x + y
  {
    if x == 0 || y == 0 then 0
    else if a[x - 1] == b[y - 1] then 1 + Lcs(a, b, x - 1, y - 1)
    else Max(Lcs(a, b, x - 1, y), Lcs(a, b, x, y - 1))
  }

  /** The distance counts exactly what a longest common subsequence leaves over. */
  lemma {:induction false} DistanceByLcs(a: Text, b: Text, x: nat, y: nat)
    requires x <= |a| && y <= |b|
    ensures Prefix(a, b, x, y) == x + y - 2 * Lcs(a, b, x, y)
    decreases x + y
  {
    if x > 0 && y > 0 {
      DistanceByLcs(a, b, x - 1, y - 1);
      DistanceByLcs(a, b, x - 1, y);
      DistanceByLcs(a, b, x, y - 1);
    }
  }
}
