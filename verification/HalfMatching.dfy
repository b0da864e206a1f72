/** Looks for a common substring at least half as long as the longer text. */
module HalfMatching {
  import opened Texts
  import opened Options

  /** Both texts cut around a common middle. */
  datatype Half = Half(text1a: Text, text1b: Text, text2a: Text, text2b: Text, middle: Text)

  ghost predicate Reassembles(h: Half, text1: Text, text2: Text) {
    text1 == h.text1a + h.middle + h.text1b && text2 == h.text2a + h.middle + h.text2b
  }

  /** The `n` units of `a` at `p` are the `n` units of `b` at `q`. */
  ghost predicate CommonAt(a: Text, b: Text, p: int, q: int, n: int) {
    0 <= p && 0 <= q && 0 <= n && p + n <= |a| && q + n <= |b| && a[p..p + n] == b[q..q + n]
  }

  /** A common substring aligned on i and j extends no further than the longest common
      suffix before and the longest common prefix after. */
  lemma AlignedBound(a: Text, b: Text, i: nat, j: nat, before: nat, after: nat, p: int, q: int, n: int)
    requires i <= |a| && j <= |b|
    requires forall m :: ShareSuffix(a[..i], b[..j], m) ==> m <= before
    requires forall m :: SharePrefix(a[i..], b[j..], m) ==> m <= after
    requires CommonAt(a, b, p, q, n) && p <= i <= p + n && q - p == j - i
    ensures n <= before + after
  {
    var k := i - p;
    CutAt(a, p, i, n);
    CutAt(b, q, j, n);
    assert ShareSuffix(a[..i], b[..j], k);
    assert SharePrefix(a[i..], b[j..], n - k);
  }

  /** The `n` units at `p`, seen from a cut at `i` inside them. */
  lemma CutAt(a: Text, p: nat, i: nat, n: nat)
    requires p <= i <= p + n <= |a|
    ensures a[..i][p..] == a[p..p + n][..i - p] && a[i..][..p + n - i] == a[p..p + n][i - p..]
  {
    assert a[..i][p..] == a[p..i] == a[p..p + n][..i - p];
    assert a[i..][..p + n - i] == a[i..p + n] == a[p..p + n][i - p..];
  }

  /** A common substring around the seed contains an aligned copy of it. */
  lemma SeedCopied(a: Text, b: Text, i: nat, seed: Text, p: int, q: int, n: int)
    requires OccursAt(a, seed, i) && CommonAt(a, b, p, q, n)
    requires p <= i && i + |seed| <= p + n
    ensures OccursAt(b, seed, q + i - p)
  {
    var j := q + i - p;
    forall k | 0 <= k < |seed| ensures b[j + k] == seed[k] {
      assert b[j + k] == b[q..q + n][i - p + k] == a[p..p + n][i - p + k] == a[i..i + |seed|][k];
    }
    assert b[j..j + |seed|] == seed;
  }

  /** How far what stands before the cuts at `i` and `j` is common. */
  ghost function Behind(a: Text, b: Text, i: nat, j: nat): (n: nat)
    requires i <= |a| && j <= |b|
    ensures n <= i && n <= j
  {
    SuffixLength(a[..i], b[..j])
  }

  /** How far what stands after them is. */
  ghost function Ahead(a: Text, b: Text, i: nat, j: nat): (n: nat)
    requires i <= |a| && j <= |b|
    ensures i + n <= |a| && j + n <= |b|
  {
    PrefixLength(a[i..], b[j..])
  }

  /** The best extension of one copy of the seed. */
  method Extend(a: Text, b: Text, i: nat, j: nat) returns (before: nat, after: nat)
    requires i <= |a| && j <= |b|
    ensures before == Behind(a, b, i, j) && after == Ahead(a, b, i, j)
    ensures CommonAt(a, b, i - before, j - before, before + after)
  {
    after := CommonPrefix(a[i..], b[j..]);
    before := CommonSuffix(a[..i], b[..j]);
    Joined(a, b, i, j, before, after);
  }

  lemma Joined(a: Text, b: Text, i: nat, j: nat, before: nat, after: nat)
    requires i <= |a| && j <= |b|
    requires ShareSuffix(a[..i], b[..j], before) && SharePrefix(a[i..], b[j..], after)
    ensures CommonAt(a, b, i - before, j - before, before + after)
  {
    assert a[i - before..i + after] == a[..i][i - before..] + a[i..][..after];
    assert b[j - before..j + after] == b[..j][j - before..] + b[j..][..after];
  }

  /** Both texts cut around what a copy of the seed extends to. */
  function CutAround(a: Text, b: Text, i: nat, j: nat, before: nat, after: nat): (h: Half)
    requires before <= i && before <= j && i + after <= |a| && j + after <= |b|
    requires CommonAt(a, b, i - before, j - before, before + after)
    ensures Reassembles(h, a, b) && |h.middle| == before + after
  {
    assert b[j - before..j] + b[j..j + after] == b[j - before..j + after];
    Half(a[..i - before], a[i + after..], b[..j - before], b[j + after..], b[j - before..j] + b[j..j + after])
  }

  /** The better of `best` and what the copy of the seed at `j` extends to; the first of the
      longest is kept. */
  ghost function Better(a: Text, b: Text, i: nat, j: nat, best: Half): (h: Half)
    requires i <= |a| && j <= |b| && (best.middle == [] || Reassembles(best, a, b))
    ensures h.middle == [] || Reassembles(h, a, b)
  {
    var before, after := Behind(a, b, i, j), Ahead(a, b, i, j);
    Joined(a, b, i, j, before, after);
    if |best.middle| < before + after then CutAround(a, b, i, j, before, after) else best
  }

  /** The best over the copies of the seed from `j` on. */
  ghost function BestFrom(a: Text, b: Text, i: nat, seed: Text, j: int, best: Half): (h: Half)
    requires i <= |a| && (best.middle == [] || Reassembles(best, a, b))
    requires j == -1 || OccursAt(b, seed, j)
    ensures h.middle == [] || Reassembles(h, a, b)
    decreases if j == -1 then 0 else |b| - j + 1
  {
    if j == -1 then best else BestFrom(a, b, i, seed, IndexOf(b, seed, j + 1), Better(a, b, i, j, best))
  }

  const NO_HALF := Half([], [], [], [], [])

  /** A quarter of the text from `i` on. */
  function Seed(longtext: Text, i: nat): (seed: Text)
    requires i + |longtext| / 4 <= |longtext|
    ensures |seed| == |longtext| / 4 && OccursAt(longtext, seed, i)
  {
    longtext[i..i + |longtext| / 4]
  }

  /** What the search around the seed at `i` finds. */
  ghost function SeedHalf(longtext: Text, shorttext: Text, i: nat): (r: Option<Half>)
    requires |longtext| >= 4 && i + |longtext| / 4 <= |longtext|
    ensures r.Some? ==> Reassembles(r.value, longtext, shorttext) && r.value.middle != []
  {
    var seed := Seed(longtext, i);
    var best := BestFrom(longtext, shorttext, i, seed, IndexOf(shorttext, seed, 0), NO_HALF);
    if 2 * |best.middle| >= |longtext| then Some(best) else None
  }

  /** The longer of two finds, the second of equals. */
  ghost function Longer(hm1: Option<Half>, hm2: Option<Half>): Option<Half> {
    if hm2.None? then hm1
    else if hm1.None? then hm2
    else if |hm1.value.middle| > |hm2.value.middle| then hm1 else hm2
  }

  /** What the two seeds of the longer text find. */
  ghost function LongHalf(longtext: Text, shorttext: Text): (r: Option<Half>)
    ensures r.Some? ==> Reassembles(r.value, longtext, shorttext) && r.value.middle != []
  {
    if |longtext| < 4 || |shorttext| * 2 < |longtext| then None
    else
      Longer(SeedHalf(longtext, shorttext, (|longtext| + 3) / 4), SeedHalf(longtext, shorttext, (|longtext| + 1) / 2))
  }

  /** The half match of two texts; without a time limit none is looked for. */
  ghost function HalfOf(text1: Text, text2: Text, timed: bool): (r: Option<Half>)
    ensures r.Some? ==> Reassembles(r.value, text1, text2) && r.value.middle != []
  {
    if !timed then None
    else if |text1| > |text2| then LongHalf(text1, text2)
    else
      match LongHalf(text2, text1)
      case None => None
      case Some(h) => Some(Half(h.text2a, h.text2b, h.text1a, h.text1b, h.middle))
  }

  /** No common substring around the seed at `i` of `a`, aligned on a position of `b` up
      to `j`, is longer than `length`. */
  ghost predicate BestTo(a: Text, b: Text, i: nat, size: nat, j: int, length: nat) {
    forall p, q, n :: CommonAt(a, b, p, q, n) && p <= i && i + size <= p + n && q + i - p <= j ==> n <= length
  }

  lemma BestToStep(a: Text, b: Text, i: nat, seed: Text, j: int, j': int, length: nat, length': nat)
    requires OccursAt(a, seed, i) && BestTo(a, b, i, |seed|, j, length) && length <= length'
    requires forall k :: j < k && (j' == -1 || k < j') ==> !OccursAt(b, seed, k)
    requires j' != -1 ==> forall p, q, n ::
                            CommonAt(a, b, p, q, n) && p <= i <= p + n && q - p == j' - i ==> n <= length'
    ensures BestTo(a, b, i, |seed|, if j' == -1 then |b| else j', length')
  {
    forall p, q, n | CommonAt(a, b, p, q, n) && p <= i && i + |seed| <= p + n
                     && q + i - p <= if j' == -1 then |b| else j'
      ensures n <= length'
    {
      SeedCopied(a, b, i, seed, p, q, n);
    }
  }

  /** Takes what the copy of the seed at `j` extends to, if it is longer than the best. */
  method Improve(longtext: Text, shorttext: Text, i: nat, j: nat, best: Half) returns (h: Half)
    requires i <= |longtext| && j <= |shorttext| && (best.middle == [] || Reassembles(best, longtext, shorttext))
    ensures h == Better(longtext, shorttext, i, j, best)
  {
    hide CommonAt, Reassembles, CutAround, Behind, Ahead;
    var suffixLength, prefixLength := Extend(longtext, shorttext, i, j);
    h := best;
    if |best.middle| < suffixLength + prefixLength {
      h := CutAround(longtext, shorttext, i, j, suffixLength, prefixLength);
    }
  }

  /** The best over all copies of the seed that stands at `i` of the longer text. */
  method BestCopy(longtext: Text, shorttext: Text, i: nat, seed: Text) returns (best: Half)
    requires OccursAt(longtext, seed, i)
    ensures best == BestFrom(longtext, shorttext, i, seed, IndexOf(shorttext, seed, 0), NO_HALF)
  {
    hide CommonAt, Reassembles, Better, IndexOf;
    best := NO_HALF;
    var j := IndexOf(shorttext, seed, 0);
    while j != -1
      invariant j == -1 || OccursAt(shorttext, seed, j)
      invariant best.middle == [] || Reassembles(best, longtext, shorttext)
      invariant BestFrom(longtext, shorttext, i, seed, j, best)
                == BestFrom(longtext, shorttext, i, seed, IndexOf(shorttext, seed, 0), NO_HALF)
      decreases if j == -1 then 0 else |shorttext| - j + 1
    {
      best := Improve(longtext, shorttext, i, j, best);
      j := IndexOf(shorttext, seed, j + 1);
    }
  }

  /** The longest common substring around the quarter-length seed at `i`, if it is at
      least half of `longtext`. */
  method HalfMatchI(longtext: Text, shorttext: Text, i: nat) returns (r: Option<Half>)
    requires |longtext| >= 4 && i + |longtext| / 4 <= |longtext|
    ensures r.Some? ==> Reassembles(r.value, longtext, shorttext) && 2 * |r.value.middle| >= |longtext|
    ensures BestAround(longtext, shorttext, i, |longtext| / 4, r)
    ensures r == SeedHalf(longtext, shorttext, i)
  {
    SeedHalfBest(longtext, shorttext, i);
    hide CommonAt, Reassembles, BestFrom, IndexOf, BestAround, OccursAt, Seed;
    var seed := Seed(longtext, i);
    var best := BestCopy(longtext, shorttext, i, seed);
    r := if 2 * |best.middle| >= |longtext| then Some(best) else None;
  }

  /** No copy extends further around the seed than what is better of it and the best so far. */
  lemma BetterBound(a: Text, b: Text, i: nat, j: nat, best: Half)
    requires i <= |a| && j <= |b| && (best.middle == [] || Reassembles(best, a, b))
    ensures |best.middle| <= |Better(a, b, i, j, best).middle|
    ensures forall p, q, n :: CommonAt(a, b, p, q, n) && p <= i <= p + n && q - p == j - i ==>
                                n <= |Better(a, b, i, j, best).middle|
  {
    var before, after := Behind(a, b, i, j), Ahead(a, b, i, j);
    Joined(a, b, i, j, before, after);
    forall p, q, n | CommonAt(a, b, p, q, n) && p <= i <= p + n && q - p == j - i
      ensures n <= before + after
    {
      AlignedBound(a, b, i, j, before, after, p, q, n);
    }
    hide CommonAt, Reassembles, CutAround, Behind, Ahead;
  }

  /** What the search ends with is longest among all that is common around the seed. */
  lemma {:induction false} BestFromBound(a: Text, b: Text, i: nat, seed: Text, seen: int, j: int, best: Half)
    requires OccursAt(a, seed, i) && (best.middle == [] || Reassembles(best, a, b))
    requires j == -1 || (seen < j && OccursAt(b, seed, j))
    requires -1 <= seen && forall k :: seen < k && (j == -1 || k < j) ==> !OccursAt(b, seed, k)
    requires BestTo(a, b, i, |seed|, seen, |best.middle|)
    ensures BestTo(a, b, i, |seed|, |b|, |BestFrom(a, b, i, seed, j, best).middle|)
    decreases if j == -1 then 0 else |b| - j + 1
  {
    hide CommonAt, BestTo, Reassembles, Better, IndexOf;
    if j == -1 {
      BestToStep(a, b, i, seed, seen, -1, |best.middle|, |best.middle|);
    } else {
      var better := Better(a, b, i, j, best);
      BetterBound(a, b, i, j, best);
      BestToStep(a, b, i, seed, seen, j, |best.middle|, |better.middle|);
      BestFromBound(a, b, i, seed, j, IndexOf(b, seed, j + 1), better);
    }
  }

  lemma SeedBest(a: Text, b: Text, i: nat, seed: Text)
    requires OccursAt(a, seed, i)
    ensures var best := BestFrom(a, b, i, seed, IndexOf(b, seed, 0), NO_HALF);
            forall p, q, n :: CommonAt(a, b, p, q, n) && p <= i && i + |seed| <= p + n ==> n <= |best.middle|
  {
    hide CommonAt, BestFrom, BestTo, IndexOf;
    var j := IndexOf(b, seed, 0);
    BestToStart(a, b, i, |seed|);
    BestFromBound(a, b, i, seed, -1, j, NO_HALF);
    BestToEnd(a, b, i, |seed|, |BestFrom(a, b, i, seed, j, NO_HALF).middle|);
  }

  lemma SeedHalfBest(a: Text, b: Text, i: nat)
    requires |a| >= 4 && i + |a| / 4 <= |a|
    ensures BestAround(a, b, i, |a| / 4, SeedHalf(a, b, i))
  {
    var seed := Seed(a, i);
    hide Seed;
    SeedBest(a, b, i, seed);
    hide CommonAt, BestFrom, IndexOf, OccursAt;
  }

  lemma BestToEnd(a: Text, b: Text, i: nat, size: nat, length: nat)
    requires BestTo(a, b, i, size, |b|, length)
    ensures forall p, q, n :: CommonAt(a, b, p, q, n) && p <= i && i + size <= p + n ==> n <= length
  {
  }

  lemma BestToStart(a: Text, b: Text, i: nat, size: nat)
    ensures BestTo(a, b, i, size, -1, 0)
  {
  }

  /** One of the two quarter-length seeds lies inside any stretch of half the text. */
  lemma SeedInside(size: nat, p: int, n: int)
    requires size >= 4 && 0 <= p && p + n <= size <= 2 * n
    ensures (p <= (size + 3) / 4 && (size + 3) / 4 + size / 4 <= p + n)
         || (p <= (size + 1) / 2 && (size + 1) / 2 + size / 4 <= p + n)
  {
  }

  /** A common substring of at least half the longer text. */
  ghost predicate HasHalf(text1: Text, text2: Text) {
    exists p, q, n :: CommonAt(text1, text2, p, q, n) && 2 * n >= Max(|text1|, |text2|)
  }

  lemma CommonFlipped(a: Text, b: Text)
    ensures forall p, q, n :: CommonAt(a, b, p, q, n) <==> CommonAt(b, a, q, p, n)
  {
  }

  lemma MiddleCommon(h: Half, a: Text, b: Text)
    requires Reassembles(h, a, b)
    ensures CommonAt(a, b, |h.text1a|, |h.text2a|, |h.middle|)
  {
  }

  lemma Flipped(h: Half, a: Text, b: Text)
    requires Reassembles(h, a, b)
    ensures Reassembles(Half(h.text2a, h.text2b, h.text1a, h.text1b, h.middle), b, a)
  {
  }

  /** What a search around one seed promises. */
  ghost predicate BestAround(a: Text, b: Text, i: int, size: int, r: Option<Half>) {
    forall p, q, n :: CommonAt(a, b, p, q, n) && p <= i && i + size <= p + n ==>
      if r.Some? then n <= |r.value.middle| else 2 * n < |a|
  }

  /** Between them the two seeds see every common substring of half the length. */
  lemma SeedsCover(a: Text, b: Text, hm1: Option<Half>, hm2: Option<Half>)
    requires |a| >= 4
    requires BestAround(a, b, (|a| + 3) / 4, |a| / 4, hm1) && BestAround(a, b, (|a| + 1) / 2, |a| / 4, hm2)
    ensures forall p, q, n :: CommonAt(a, b, p, q, n) && 2 * n >= |a| ==>
              (hm1.Some? && n <= |hm1.value.middle|) || (hm2.Some? && n <= |hm2.value.middle|)
  {
    forall p, q, n | CommonAt(a, b, p, q, n) && 2 * n >= |a|
      ensures (hm1.Some? && n <= |hm1.value.middle|) || (hm2.Some? && n <= |hm2.value.middle|)
    {
      SeedInside(|a|, p, n);
    }
  }

  /** With a positive timeout and a longer text of at least 4 units, a match is found
      exactly when some common substring is at least half the longer text; its pieces
      reassemble both texts around a longest common substring. */
  method HalfMatch(text1: Text, text2: Text, timeout: real) returns (r: Option<Half>)
    ensures r.Some? <==> timeout > 0.0 && Max(|text1|, |text2|) >= 4 && HasHalf(text1, text2)
    ensures r.Some? ==> Reassembles(r.value, text1, text2) && r.value.middle != []
    ensures r.Some? ==> forall p, q, n :: CommonAt(text1, text2, p, q, n) ==> n <= |r.value.middle|
    ensures r == HalfOf(text1, text2, timeout > 0.0)
  {
    HalfOfMeans(text1, text2, timeout > 0.0);
    hide CommonAt, BestAround, Reassembles, SeedHalf, HasHalf;
    if timeout <= 0.0 {
      return None;
    }
    var longtext := if |text1| > |text2| then text1 else text2;
    var shorttext := if |text1| > |text2| then text2 else text1;
    if |longtext| < 4 || |shorttext| * 2 < |longtext| {
      return None;
    }
    var hm1 := HalfMatchI(longtext, shorttext, (|longtext| + 3) / 4);
    var hm2 := HalfMatchI(longtext, shorttext, (|longtext| + 1) / 2);
    var hm: Option<Half>;
    if hm1.None? && hm2.None? {
      hm := None;
    } else if hm2.None? {
      hm := hm1;
    } else if hm1.None? {
      hm := hm2;
    } else {
      hm := if |hm1.value.middle| > |hm2.value.middle| then hm1 else hm2;
    }
    if hm.None? {
      return None;
    }
    var h := hm.value;
    r := Some(if |text1| > |text2| then h else Half(h.text2a, h.text2b, h.text1a, h.text1b, h.middle));
  }

  lemma HalfOfMeans(text1: Text, text2: Text, timed: bool)
    ensures var r := HalfOf(text1, text2, timed);
            && (r.Some? <==> timed && Max(|text1|, |text2|) >= 4 && HasHalf(text1, text2))
            && (r.Some? ==> Reassembles(r.value, text1, text2) && r.value.middle != [])
            && (r.Some? ==> forall p, q, n :: CommonAt(text1, text2, p, q, n) ==> n <= |r.value.middle|)
  {
    if Max(|text1|, |text2|) >= 4 { HalfOfBest(text1, text2); }
    hide CommonAt, Reassembles, SeedHalf, HasHalf;
  }

  lemma LongHalfBest(a: Text, b: Text)
    requires |a| >= 4 && |a| >= |b|
    ensures BestHalf(a, b, LongHalf(a, b))
  {
    if |b| * 2 < |a| {
      NoHalf(a, b);
    } else {
      SeedHalfBest(a, b, (|a| + 3) / 4);
      SeedHalfBest(a, b, (|a| + 1) / 2);
      BestOfBoth(a, b, SeedHalf(a, b, (|a| + 3) / 4), SeedHalf(a, b, (|a| + 1) / 2), LongHalf(a, b));
    }
  }

  /** With a time limit the half match is found exactly when there is one, and is longest. */
  lemma HalfOfBest(text1: Text, text2: Text)
    requires Max(|text1|, |text2|) >= 4
    ensures BestHalf(text1, text2, HalfOf(text1, text2, true))
  {
    hide LongHalf, BestHalf;
    if |text1| > |text2| {
      LongHalfBest(text1, text2);
    } else {
      LongHalfBest(text2, text1);
      FlippedBest(text2, text1, LongHalf(text2, text1));
    }
  }

  /** What is found is a half, and none is longer. */
  ghost predicate BestHalf(text1: Text, text2: Text, r: Option<Half>) {
    && (r.Some? <==> HasHalf(text1, text2))
    && (r.Some? ==> Reassembles(r.value, text1, text2) && r.value.middle != [])
    && (r.Some? ==> forall p, q, n :: CommonAt(text1, text2, p, q, n) ==> n <= |r.value.middle|)
  }

  /** The shorter text is too short to hold half of the longer one. */
  lemma NoHalf(text1: Text, text2: Text)
    requires Min(|text1|, |text2|) * 2 < Max(|text1|, |text2|)
    ensures !HasHalf(text1, text2)
  {
  }

  lemma BestOfBoth(a: Text, b: Text, hm1: Option<Half>, hm2: Option<Half>, hm: Option<Half>)
    requires |a| >= 4 && |a| >= |b|
    requires BestAround(a, b, (|a| + 3) / 4, |a| / 4, hm1) && BestAround(a, b, (|a| + 1) / 2, |a| / 4, hm2)
    requires hm1.Some? ==> Reassembles(hm1.value, a, b) && 2 * |hm1.value.middle| >= |a|
    requires hm2.Some? ==> Reassembles(hm2.value, a, b) && 2 * |hm2.value.middle| >= |a|
    requires hm == Longer(hm1, hm2)
    ensures BestHalf(a, b, hm)
  {
    SeedsCover(a, b, hm1, hm2);
    hide CommonAt, BestAround, Reassembles;
    if hm.Some? { MiddleCommon(hm.value, a, b); }
  }

  lemma FlippedBest(a: Text, b: Text, hm: Option<Half>)
    requires BestHalf(a, b, hm)
    ensures BestHalf(b, a, if hm.None? then None
                           else Some(Half(hm.value.text2a, hm.value.text2b, hm.value.text1a, hm.value.text1b,
                                          hm.value.middle)))
  {
    CommonFlipped(a, b);
    hide CommonAt;
    if hm.Some? { Flipped(hm.value, a, b); }
  }
}
