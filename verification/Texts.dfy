/** Texts as the engine sees them: sequences of 16-bit code units, with the
    substring, search and common-affix operations that every other part uses. */
module Texts {

  /** One UTF-16 code unit. */
  newtype QChar = c: int | 0 <= c < 0x10000

  type Text = seq<QChar>

  const NEWLINE: QChar := 10

  function Min(a: int, b: int): int { if a < b then a else b }

  function Max(a: int, b: int): int { if a < b then b else a }

  // ----- substrings, total like the string class they stand for -----

  /** A count outside 0..|s| yields the whole text. */
  function Left(s: Text, n: int): Text {
    if 0 <= n < |s| then s[..n] else s
  }

  /** A count outside 0..|s| yields the whole text. */
  function Right(s: Text, n: int): Text {
    if 0 <= n < |s| then s[|s| - n..] else s
  }

  /** From `pos` to the end; a position before the start yields the whole text. */
  function MidFrom(s: Text, pos: int): Text {
    if pos > |s| then [] else if pos < 0 then s else s[pos..]
  }

  /** `n` units from `pos`; a negative `n` means "to the end", and a negative
      position eats into `n`. */
  function Mid(s: Text, pos: int, n: int): Text {
    if pos > |s| then []
    else if pos < 0 then
      if n < 0 || n + pos >= |s| then s
      else if n + pos <= 0 then []
      else s[..n + pos]
    else if n < 0 || n > |s| - pos then s[pos..]
    else s[pos..pos + n]
  }

  predicate StartsWith(s: Text, p: Text) {
    |p| <= |s| && s[..|p|] == p
  }

  predicate EndsWith(s: Text, p: Text) {
    |p| <= |s| && s[|s| - |p|..] == p
  }

  // ----- searching -----

  predicate OccursAt(s: Text, p: Text, i: int) {
    0 <= i && i + |p| <= |s| && s[i..i + |p|] == p
  }

  /** First occurrence of `p` at or after `from`, or -1. */
  function IndexOf(s: Text, p: Text, from: nat): (r: int)
    ensures r == -1 || (from <= r && OccursAt(s, p, r))
    ensures forall i :: from <= i && (r == -1 || i < r) ==> !OccursAt(s, p, i)
    decreases |s| - from
  {
    if from + |p| > |s| then -1
    else if s[from..from + |p|] == p then from
    else IndexOf(s, p, from + 1)
  }

  /** Last occurrence of `p` at or before `from`, or -1. */
  function LastIndexOf(s: Text, p: Text, from: int): (r: int)
    requires from <= |s|
    ensures r == -1 || (r <= from && OccursAt(s, p, r))
    ensures forall i :: i <= from && (r == -1 || i > r) ==> !OccursAt(s, p, i)
    decreases from
  {
    if from < 0 then -1
    else if from + |p| <= |s| && s[from..from + |p|] == p then from
    else LastIndexOf(s, p, from - 1)
  }

  // ----- common affixes -----

  predicate SharePrefix(a: Text, b: Text, n: int) {
    0 <= n <= |a| && n <= |b| && a[..n] == b[..n]
  }

  predicate ShareSuffix(a: Text, b: Text, n: int) {
    0 <= n <= |a| && n <= |b| && a[|a| - n..] == b[|b| - n..]
  }

  /** The longest common prefix, of up to `n` units. */
  ghost function PrefixUpTo(a: Text, b: Text, n: nat): (r: nat)
    ensures SharePrefix(a, b, r) && forall m :: SharePrefix(a, b, m) && m <= n ==> m <= r
  {
    if SharePrefix(a, b, n) || n == 0 then n else PrefixUpTo(a, b, n - 1)
  }

  ghost function PrefixLength(a: Text, b: Text): (r: nat)
    ensures SharePrefix(a, b, r) && forall m :: SharePrefix(a, b, m) ==> m <= r
  {
    PrefixUpTo(a, b, |a|)
  }

  /** The longest common suffix, of up to `n` units. */
  ghost function SuffixUpTo(a: Text, b: Text, n: nat): (r: nat)
    ensures ShareSuffix(a, b, r) && forall m :: ShareSuffix(a, b, m) && m <= n ==> m <= r
  {
    if ShareSuffix(a, b, n) || n == 0 then n else SuffixUpTo(a, b, n - 1)
  }

  ghost function SuffixLength(a: Text, b: Text): (r: nat)
    ensures ShareSuffix(a, b, r) && forall m :: ShareSuffix(a, b, m) ==> m <= r
  {
    SuffixUpTo(a, b, |a|)
  }

  /** The longest common prefix: shared, and not extensible by one more unit. */
  method CommonPrefix(a: Text, b: Text) returns (n: nat)
    ensures SharePrefix(a, b, n)
    ensures n < |a| && n < |b| ==> a[n] != b[n]
    ensures forall m :: SharePrefix(a, b, m) ==> m <= n
  {
    var limit := Min(|a|, |b|);
    n := 0;
    while n < limit
      invariant 0 <= n <= limit
      invariant SharePrefix(a, b, n)
    {
      if a[n] != b[n] {
        return;
      }
      n := n + 1;
    }
  }

  /** The longest common suffix: shared, and not extensible by one more unit. */
  method CommonSuffix(a: Text, b: Text) returns (n: nat)
    ensures ShareSuffix(a, b, n)
    ensures n < |a| && n < |b| ==> a[|a| - n - 1] != b[|b| - n - 1]
    ensures forall m :: ShareSuffix(a, b, m) ==> m <= n
  {
    var limit := Min(|a|, |b|);
    var i := 1;
    while i <= limit
      invariant 1 <= i <= limit + 1
      invariant ShareSuffix(a, b, i - 1)
    {
      if a[|a| - i] != b[|b| - i] {
        return i - 1;
      }
      i := i + 1;
    }
    return limit;
  }

  // ----- reversal -----

  /** The text read backwards. */
  ghost function Reversed(s: Text): Text {
    seq(|s|, i requires 0 <= i < |s| => s[|s| - 1 - i])
  }

  lemma ReversedTwice(s: Text)
    ensures Reversed(Reversed(s)) == s && |Reversed(s)| == |s|
  {
  }

  // ----- overlap -----

  /** The last `k` units of `a` are the first `k` of `b`. */
  predicate Overlaps(a: Text, b: Text, k: int) {
    0 <= k <= |a| && k <= |b| && a[|a| - k..] == b[..k]
  }

  lemma OverlapOccurs(a: Text, b: Text, k: int, length: int)
    requires Overlaps(a, b, k) && 0 <= length <= k
    ensures OccursAt(b, a[|a| - length..], k - length)
  {
    assert a[|a| - length..] == a[|a| - k..][k - length..];
    assert b[k - length..k] == b[..k][k - length..];
  }

  ghost predicate LongestOverlap(a: Text, b: Text, best: int) {
    Overlaps(a, b, best) && forall k :: Overlaps(a, b, k) ==> k <= best
  }

  lemma TruncatedOverlap(text1: Text, text2: Text, n: nat, best: int)
    requires n == Min(|text1|, |text2|)
    requires LongestOverlap(Right(text1, n), Left(text2, n), best)
    ensures LongestOverlap(text1, text2, best)
  {
    forall k | 0 <= k <= n
      ensures Overlaps(text1, text2, k) <==> Overlaps(Right(text1, n), Left(text2, n), k)
    {
      assert Right(text1, n)[n - k..] == text1[|text1| - k..];
      assert Left(text2, n)[..k] == text2[..k];
    }
  }

  /** The longest overlap of the end of `text1` with the start of `text2`. */
  method CommonOverlap(text1: Text, text2: Text) returns (best: nat)
    ensures LongestOverlap(text1, text2, best)
  {
    if |text1| == 0 || |text2| == 0 {
      return 0;
    }
    var n := Min(|text1|, |text2|);
    var a, b := Right(text1, n), Left(text2, n);
    if a == b {
      best := n;
    } else {
      best := GrowOverlap(a, b);
    }
    TruncatedOverlap(text1, text2, n, best);
  }

  /** Grows a suffix of `a`, skipping each time to its next occurrence in `b`. */
  method GrowOverlap(a: Text, b: Text) returns (best: nat)
    requires |a| == |b| > 0 && a != b
    ensures LongestOverlap(a, b, best)
  {
    best := 0;
    var length := 1;
    while true
      invariant best < length <= |a|
      invariant Overlaps(a, b, best)
      invariant forall k :: best < k < length ==> !Overlaps(a, b, k)
      decreases |a| - length
    {
      var pattern := Right(a, length);
      assert pattern == a[|a| - length..];
      var found := IndexOf(b, pattern, 0);
      forall k | length <= k && (found == -1 || k < length + found) ensures !Overlaps(a, b, k) {
        if Overlaps(a, b, k) { OverlapOccurs(a, b, k, length); }
      }
      if found == -1 {
        return;
      }
      length := length + found;
      if found == 0 || Right(a, length) == Left(b, length) {
        assert found == 0 ==> Overlaps(a, b, length);
        best := length;
        length := length + 1;
      }
    }
  }
}
