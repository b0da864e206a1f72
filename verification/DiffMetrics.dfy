/** Measures on a finished diff: its Levenshtein distance and equivalent locations. */
module DiffMetrics {
  import opened Texts
  import opened Diffs
  import opened MergeCleanup
  import opened EqualityStack

  // ----- Levenshtein distance -----

  /** The usual recursion: delete, insert or substitute one unit at a time. */
  ghost function Levenshtein(a: Text, b: Text): nat
    decreases |a| + |b|
  {
    if a == [] then |b|
    else if b == [] then |a|
    else Min(1 + Min(Levenshtein(a[1..], b), Levenshtein(a, b[1..])),
             Levenshtein(a[1..], b[1..]) + if a[0] == b[0] then 0 else 1)
  }

  lemma {:induction false} LevenshteinZero(a: Text, b: Text)
    requires Levenshtein(a, b) == 0
    ensures a == b
    decreases |a|
  {
    if a != [] && b != [] {
      LevenshteinZero(a[1..], b[1..]);
      assert a == [a[0]] + a[1..] && b == [b[0]] + b[1..];
    }
  }

  lemma {:induction false} LevenshteinOfAppend(a: Text, b: Text, c: Text, d: Text)
    ensures Levenshtein(a + c, b + d) <= Levenshtein(a, b) + Levenshtein(c, d)
    decreases |a| + |b|
  {
    if a == [] {
      assert a + c == c;
      InsertMany(b, c, d);
    } else if b == [] {
      assert b + d == d;
      DeleteMany(a, c, d);
    } else {
      assert (a + c)[1..] == a[1..] + c && (b + d)[1..] == b[1..] + d;
      LevenshteinOfAppend(a[1..], b, c, d);
      LevenshteinOfAppend(a, b[1..], c, d);
      LevenshteinOfAppend(a[1..], b[1..], c, d);
    }
  }

  lemma {:induction false} InsertMany(b: Text, c: Text, d: Text)
    ensures Levenshtein(c, b + d) <= |b| + Levenshtein(c, d)
  {
    if b == [] {
      assert b + d == d;
    } else {
      assert (b + d)[1..] == b[1..] + d;
      InsertMany(b[1..], c, d);
    }
  }

  lemma {:induction false} DeleteMany(a: Text, c: Text, d: Text)
    ensures Levenshtein(a + c, d) <= |a| + Levenshtein(c, d)
  {
    if a == [] {
      assert a + c == c;
    } else {
      assert (a + c)[1..] == a[1..] + c;
      DeleteMany(a[1..], c, d);
    }
  }

  lemma {:induction false} LevenshteinAtMost(a: Text, b: Text)
    ensures Levenshtein(a, b) <= Max(|a|, |b|)
    ensures a == b ==> Levenshtein(a, b) == 0
  {
    if a != [] && b != [] {
      LevenshteinAtMost(a[1..], b[1..]);
    }
  }

  /** The running counts after the diffs `ds`: `a` and `b` are the texts up to the last
      equality, `p` and `q` what was deleted and inserted since. */
  ghost predicate Counted(ds: seq<Diff>, a: Text, b: Text, p: Text, q: Text, levenshtein: int, insertions: int,
                          deletions: int)
  {
    && Text1(ds) == a + p && Text2(ds) == b + q && |p| == deletions && |q| == insertions
    && Levenshtein(a, b) <= levenshtein && levenshtein + insertions + deletions <= EditCost(ds)
  }

  lemma CountEdit(ds: seq<Diff>, d: Diff, a: Text, b: Text, p: Text, q: Text, levenshtein: int, insertions: int,
                  deletions: int)
    requires Counted(ds, a, b, p, q, levenshtein, insertions, deletions)
    ensures d.operation == INSERT ==>
              Counted(ds + [d], a, b, p, q + d.text, levenshtein, insertions + |d.text|, deletions)
    ensures d.operation == DELETE ==>
              Counted(ds + [d], a, b, p + d.text, q, levenshtein, insertions, deletions + |d.text|)
  {
    hide Text1, Text2, EditCost, Levenshtein;
    Concat(ds, [d]);
    Single(d);
    assert b + q + d.text == b + (q + d.text) && a + p + [] == a + p;
    assert a + p + d.text == a + (p + d.text) && b + q + [] == b + q;
  }

  lemma CountEqual(ds: seq<Diff>, d: Diff, a: Text, b: Text, p: Text, q: Text, levenshtein: int, insertions: int,
                   deletions: int)
    requires Counted(ds, a, b, p, q, levenshtein, insertions, deletions) && d.operation == EQUAL
    ensures Counted(ds + [d], a + p + d.text, b + q + d.text, [], [], levenshtein + Max(insertions, deletions), 0, 0)
  {
    hide Text1, Text2, EditCost, Levenshtein;
    Concat(ds, [d]);
    Single(d);
    CloseRun(a, b, p, q, d.text);
    assert a + p + d.text + [] == a + p + d.text && b + q + d.text + [] == b + q + d.text;
  }

  /** The larger of what is deleted and inserted, run by run of edits. */
  ghost function RunCount(ds: seq<Diff>): nat
    decreases |ds|
  {
    if ds == [] then 0
    else
      var run := EditsFrom(ds, 0);
      Max(|Text1(run)|, |Text2(run)|) + if |run| < |ds| then RunCount(ds[|run| + 1..]) else 0
  }

  /** Edits with no equality among them count as much as the larger of their two texts. */
  lemma CountOfEdits(run: seq<Diff>)
    requires AllEdits(run)
    ensures RunCount(run) == Max(|Text1(run)|, |Text2(run)|)
  {
    EditsInFront(run, []);
    assert run + [] == run;
  }

  /** An equality ends a count: what is before it and what is after it count apart. */
  lemma {:induction false} CountAtEqual(a: seq<Diff>, d: Diff, b: seq<Diff>)
    requires d.operation == EQUAL
    ensures RunCount(a + [d] + b) == RunCount(a) + RunCount(b)
    decreases |a|
  {
    hide Text1, Text2;
    var run := EditsFrom(a, 0);
    var ds, rest := a + [d] + b, a[|run|..];
    RunInFront(a);
    assert ds == run + (rest + [d] + b);
    EditsInFront(run, rest + [d] + b);
    if rest == [] {
      assert ds[|run| + 1..] == b;
      CountOfEdits(run);
      assert a == run;
    } else {
      assert ds[|run| + 1..] == rest[1..] + [d] + b && a[|run| + 1..] == rest[1..];
      CountAtEqual(rest[1..], d, b);
    }
  }

  /** What was counted: the runs that an equality closed, and the sums of the open one. */
  ghost predicate Summed(ds: seq<Diff>, done: seq<Diff>, run: seq<Diff>, levenshtein: int, insertions: int,
                         deletions: int) {
    && ds == done + run && AllEdits(run) && (done == [] || done[|done| - 1].operation == EQUAL)
    && levenshtein == RunCount(done) && deletions == |Text1(run)| && insertions == |Text2(run)|
  }

  lemma SumEdit(ds: seq<Diff>, d: Diff, done: seq<Diff>, run: seq<Diff>, levenshtein: int, insertions: int,
                deletions: int)
    requires Summed(ds, done, run, levenshtein, insertions, deletions) && d.operation != EQUAL
    ensures Summed(ds + [d], done, run + [d], levenshtein,
                   insertions + (if d.operation == INSERT then |d.text| else 0),
                   deletions + (if d.operation == DELETE then |d.text| else 0))
  {
    WithLast(run, d);
    hide RunCount, Text1, Text2;
  }

  lemma SumClosed(ds: seq<Diff>, done: seq<Diff>, run: seq<Diff>, levenshtein: int, insertions: int, deletions: int)
    requires Summed(ds, done, run, levenshtein, insertions, deletions)
    ensures RunCount(ds) == levenshtein + Max(insertions, deletions)
  {
    hide Text1, Text2, RunCount;
    CountOfEdits(run);
    if done == [] {
      assert ds == run;
      NothingCounted();
    } else {
      var init, d := done[..|done| - 1], done[|done| - 1];
      CountAtEqual(init, d, run);
      CountAtEqual(init, d, []);
      NothingCounted();
      assert done == init + [d] + [] && ds == init + [d] + run;
    }
  }

  lemma NothingCounted()
    ensures RunCount([]) == 0 && Text1([]) == Text2([]) == []
  {
  }

  lemma SumEqual(ds: seq<Diff>, d: Diff, done: seq<Diff>, run: seq<Diff>, levenshtein: int, insertions: int,
                 deletions: int)
    requires Summed(ds, done, run, levenshtein, insertions, deletions) && d.operation == EQUAL
    ensures Summed(ds + [d], ds + [d], [], levenshtein + Max(insertions, deletions), 0, 0)
  {
    SumClosed(ds, done, run, levenshtein, insertions, deletions);
    CountAtEqual(ds, d, []);
    NothingCounted();
    hide Text1, Text2, RunCount;
    assert ds + [d] + [] == ds + [d];
  }

  /** Counts substitutions, insertions and deletions: the larger of what is deleted and inserted,
      run by run. The count is never below the true distance of the two texts and never above
      the units edited. */
  method DiffLevenshtein(ds: seq<Diff>) returns (levenshtein: int)
    ensures Levenshtein(Text1(ds), Text2(ds)) <= levenshtein <= EditCost(ds)
    ensures levenshtein == RunCount(ds)
  {
    levenshtein := 0;
    var insertions, deletions := 0, 0;
    ghost var done: seq<Diff>, run: seq<Diff> := [], [];
    NothingCounted();
    ghost var a: Text, b: Text, p: Text, q: Text := [], [], [], [];
    for i := 0 to |ds|
      invariant Counted(ds[..i], a, b, p, q, levenshtein, insertions, deletions)
      invariant Summed(ds[..i], done, run, levenshtein, insertions, deletions)
    {
      hide Counted, Summed;
      var d := ds[i];
      assert ds[..i + 1] == ds[..i] + [d];
      match d.operation {
        case INSERT =>
          CountEdit(ds[..i], d, a, b, p, q, levenshtein, insertions, deletions);
          SumEdit(ds[..i], d, done, run, levenshtein, insertions, deletions);
          run := run + [d];
          insertions, q := insertions + |d.text|, q + d.text;
        case DELETE =>
          CountEdit(ds[..i], d, a, b, p, q, levenshtein, insertions, deletions);
          SumEdit(ds[..i], d, done, run, levenshtein, insertions, deletions);
          run := run + [d];
          deletions, p := deletions + |d.text|, p + d.text;
        case EQUAL =>
          CountEqual(ds[..i], d, a, b, p, q, levenshtein, insertions, deletions);
          SumEqual(ds[..i], d, done, run, levenshtein, insertions, deletions);
          done, run := ds[..i] + [d], [];
          levenshtein := levenshtein + Max(insertions, deletions);
          insertions, deletions := 0, 0;
          a, b, p, q := a + p + d.text, b + q + d.text, [], [];
      }
    }
    assert ds[..|ds|] == ds;
    SumClosed(ds, done, run, levenshtein, insertions, deletions);
    CloseRun(a, b, p, q, []);
    assert a + p + [] == a + p && b + q + [] == b + q;
    levenshtein := levenshtein + Max(insertions, deletions);
  }

  lemma CloseRun(a: Text, b: Text, p: Text, q: Text, t: Text)
    ensures Levenshtein(a + p + t, b + q + t) <= Levenshtein(a, b) + Max(|p|, |q|)
  {
    LevenshteinOfAppend(a + p, b + q, t, t);
    LevenshteinOfAppend(a, b, p, q);
    LevenshteinAtMost(p, q);
    LevenshteinAtMost(t, t);
  }

  // ----- equivalent locations -----

  /** Where location `loc` of the source ends up in the target. */
  function XIndex(ds: seq<Diff>, loc: nat): nat {
    if ds == [] then loc
    else match ds[0].operation
      case INSERT => |ds[0].text| + XIndex(ds[1..], loc)
      case DELETE => if |ds[0].text| <= loc then XIndex(ds[1..], loc - |ds[0].text|) else 0
      case EQUAL => if |ds[0].text| <= loc then |ds[0].text| + XIndex(ds[1..], loc - |ds[0].text|) else loc
  }

  /** One pass with running counts. Past the source text the operation it ends on is not
      defined, so only locations up to its length are specified. */
  method DiffXIndex(ds: seq<Diff>, loc: nat) returns (r: int)
    ensures loc <= |Text1(ds)| ==> r == XIndex(ds, loc)
    ensures r >= 0
  {
    hide XIndex, Text1, Text2;
    var chars1, chars2, lastChars1, lastChars2 := 0, 0, 0, 0;
    var lastOperation: Operation := *;
    var i := 0;
    assert ds[0..] == ds;
    while i < |ds|
      invariant 0 <= i <= |ds|
      invariant 0 <= chars1 == lastChars1 <= loc && 0 <= chars2 == lastChars2
      invariant |Text1(ds)| == chars1 + |Text1(ds[i..])|
      invariant XIndex(ds, loc) == chars2 + XIndex(ds[i..], loc - chars1)
    {
      var d := ds[i];
      Unfold(ds, i, loc - chars1);
      if d.operation != INSERT {
        chars1 := chars1 + |d.text|;
      }
      if d.operation != DELETE {
        chars2 := chars2 + |d.text|;
      }
      if chars1 > loc {
        lastOperation := d.operation;
        break;
      }
      lastChars1, lastChars2 := chars1, chars2;
      i := i + 1;
    }
    if i == |ds| {
      assert ds[i..] == [];
      AtEnd(loc - lastChars1);
    }
    if lastOperation == DELETE {
      return lastChars2;
    }
    r := lastChars2 + (loc - lastChars1);
  }

  lemma AtEnd(loc: nat)
    ensures XIndex([], loc) == loc && Text1([]) == []
  {
  }

  lemma Unfold(ds: seq<Diff>, i: nat, loc: nat)
    requires i < |ds|
    ensures |Text1(ds[i..])| == (if ds[i].operation == INSERT then 0 else |ds[i].text|) + |Text1(ds[i + 1..])|
    ensures ds[i].operation == INSERT ==> XIndex(ds[i..], loc) == |ds[i].text| + XIndex(ds[i + 1..], loc)
    ensures ds[i].operation == DELETE ==>
              XIndex(ds[i..], loc) == if |ds[i].text| <= loc then XIndex(ds[i + 1..], loc - |ds[i].text|) else 0
    ensures ds[i].operation == EQUAL ==>
              XIndex(ds[i..], loc)
              == if |ds[i].text| <= loc then |ds[i].text| + XIndex(ds[i + 1..], loc - |ds[i].text|) else loc
  {
    assert ds[i..][1..] == ds[i + 1..];
  }

  /** Locations never pass each other. */
  lemma {:induction false} XIndexMonotone(ds: seq<Diff>, loc1: nat, loc2: nat)
    requires loc1 <= loc2
    ensures XIndex(ds, loc1) <= XIndex(ds, loc2)
  {
    if ds != [] {
      var n := |ds[0].text|;
      if ds[0].operation == INSERT {
        XIndexMonotone(ds[1..], loc1, loc2);
      } else if n <= loc1 {
        XIndexMonotone(ds[1..], loc1 - n, loc2 - n);
      }
    }
  }

  /** Locations of the source stay within the target, and the end goes to the end. */
  lemma {:induction false} XIndexRange(ds: seq<Diff>, loc: nat)
    requires loc <= |Text1(ds)|
    ensures XIndex(ds, loc) <= |Text2(ds)|
    ensures loc == |Text1(ds)| ==> XIndex(ds, loc) == |Text2(ds)|
  {
    if ds != [] {
      var n := |ds[0].text|;
      if ds[0].operation == INSERT {
        XIndexRange(ds[1..], loc);
      } else if n <= loc {
        XIndexRange(ds[1..], loc - n);
      }
    }
  }

  lemma {:induction false} XIndexInside(a: seq<Diff>, t: Text, b: seq<Diff>, k: nat)
    requires k < |t|
    ensures XIndex(a + [Diff(EQUAL, t)] + b, |Text1(a)| + k) == |Text2(a)| + k
  {
    var ds := a + [Diff(EQUAL, t)] + b;
    if a != [] {
      XIndexInside(a[1..], t, b, k);
      assert ds[1..] == a[1..] + [Diff(EQUAL, t)] + b;
    }
  }

  /** A unit inside an equality is found again at its equivalent location. */
  lemma XIndexSameUnit(a: seq<Diff>, t: Text, b: seq<Diff>, k: nat)
    requires k < |t|
    ensures var ds, loc := a + [Diff(EQUAL, t)] + b, |Text1(a)| + k;
            && loc < |Text1(ds)| && XIndex(ds, loc) < |Text2(ds)|
            && Text1(ds)[loc] == t[k] == Text2(ds)[XIndex(ds, loc)]
  {
    XIndexInside(a, t, b, k);
    Concat3(a, [Diff(EQUAL, t)], b);
    Single(Diff(EQUAL, t));
    MiddleUnit(Text1(a), t, Text1(b), k);
    MiddleUnit(Text2(a), t, Text2(b), k);
  }

  lemma MiddleUnit(a: Text, t: Text, b: Text, k: nat)
    requires k < |t|
    ensures |a| + k < |a + t + b| && (a + t + b)[|a| + k] == t[k]
  {
  }
}
