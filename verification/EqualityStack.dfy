/** The stack of equalities that the semantic and efficiency cleanups keep while they
    walk a list, the backward walks by value, and the splitting of an equality. */
module EqualityStack {
  import opened Texts
  import opened Diffs
  import opened ListCursor
  import opened MergeCleanup

  /** `stack` holds copies of the elements of `items` at the positions `at`, in order. */
  ghost predicate Stacked(items: seq<Diff>, stack: seq<Diff>, at: seq<int>) {
    && |at| == |stack|
    && (forall m :: 0 <= m < |stack| ==>
          0 <= at[m] < |items| && items[at[m]] == stack[m] && stack[m].operation == EQUAL)
    && (forall m, n :: 0 <= m < n < |at| ==> at[m] <= at[n])
  }

  ghost function Top(at: seq<int>): int {
    if at == [] then -1 else at[|at| - 1]
  }

  lemma StackedPush(items: seq<Diff>, stack: seq<Diff>, at: seq<int>, i: int)
    requires Stacked(items, stack, at) && Top(at) <= i < |items| && 0 <= i && items[i].operation == EQUAL
    ensures Stacked(items, stack + [items[i]], at + [i])
  {
  }

  /** What is left of the stack after two pops when the equality at `g` was split. */
  lemma StackedAfterSplit(items: seq<Diff>, items': seq<Diff>, stack: seq<Diff>, at: seq<int>, g: int, n: int)
    requires Stacked(items, stack, at) && 0 <= n <= |stack| && (n > 0 ==> at[n - 1] < g)
    requires 0 <= g <= |items| && |items'| >= |items| && items'[..g] == items[..g]
    ensures Stacked(items', stack[..n], at[..n])
  {
    forall m | 0 <= m < n ensures items'[at[m]] == stack[m] {
      assert at[m] <= at[n - 1];
      assert items'[at[m]] == items'[..g][at[m]] == items[..g][at[m]];
    }
  }

  /** From just past an edit back to the last element equal to `target`, which the
      cursor then stands just past. */
  method WalkBack(c: Cursor<Diff>, thisDiff: Diff, target: Diff, ghost p: nat)
    requires c.Valid() && thisDiff != target && p < c.pos && c.items[p] == target
    modifies c`pos, c`last
    ensures c.Valid() && p < c.pos <= old(c.pos) && c.last == c.pos - 1 && c.items[c.last] == target
  {
    var d := thisDiff;
    while d != target
      invariant c.Valid() && p <= c.pos <= old(c.pos)
      invariant if d == target then c.pos < old(c.pos) && c.items[c.pos] == target else p < c.pos
      decreases c.pos
    {
      d := c.Previous();
    }
    var _ := c.Next();
  }

  /** Back to just before the last element equal to `target`. */
  method BackUpTo(c: Cursor<Diff>, target: Diff, ghost p: nat)
    requires c.Valid() && p < c.pos && c.items[p] == target
    modifies c`pos, c`last
    ensures c.Valid() && p <= c.pos < old(c.pos) && c.items[c.pos] == target
    ensures forall i :: c.pos < i < old(c.pos) ==> c.items[i] != target
  {
    var d := c.Previous();
    while d != target
      invariant c.Valid() && p <= c.pos < old(c.pos) && d == c.items[c.pos]
      invariant forall i :: c.pos < i < old(c.pos) ==> c.items[i] != target
      decreases c.pos
    {
      d := c.Previous();
    }
  }

  /** Back to the start of the list. */
  method BackToStart(c: Cursor<Diff>)
    requires c.Valid()
    modifies c`pos, c`last
    ensures c.Valid() && c.pos == 0
  {
    while c.HasPrevious()
      invariant c.Valid()
      decreases c.pos
    {
      var _ := c.Previous();
    }
  }

  /** Splitting an equality leaves both texts alone and one equality fewer. */
  ghost predicate Splits(es: seq<Diff>, ds: seq<Diff>) {
    SameTexts(es, ds) && EqualCount(es) == EqualCount(ds) - 1 && KeepsSolid(ds, es)
  }

  lemma SplitTexts(before: seq<Diff>, text: Text, after: seq<Diff>)
    ensures Splits(before + [Diff(DELETE, text), Diff(INSERT, text)] + after, before + [Diff(EQUAL, text)] + after)
  {
    var a, b := [Diff(EQUAL, text)], [Diff(DELETE, text), Diff(INSERT, text)];
    Pair(Diff(DELETE, text), Diff(INSERT, text));
    Single(Diff(DELETE, text));
    Single(Diff(INSERT, text));
    Single(Diff(EQUAL, text));
    assert text + [] == text && [] + text == text;
    Replace(before, a, b, after);
    forall edits | Solid(before + a + after, edits) ensures Solid(before + b + after, edits) {
      assert (before + a + after)[|before|] == a[0];
      SolidPieces(before, a, b, after, edits);
    }
  }

  lemma SolidPieces(before: seq<Diff>, a: seq<Diff>, b: seq<Diff>, after: seq<Diff>, edits: bool)
    requires Solid(before + a + after, edits) && Solid(b, edits)
    ensures Solid(before + b + after, edits)
  {
    var l := before + a + after;
    assert forall i :: 0 <= i < |before| ==> before[i] == l[i];
    assert forall i :: 0 <= i < |after| ==> after[i] == l[|before| + |a| + i];
  }

  /** The list with the equality at `g` split into its deletion and its insertion. */
  function Divide(ds: seq<Diff>, g: nat): seq<Diff>
    requires g < |ds|
  {
    ds[..g] + [Diff(DELETE, ds[g].text), Diff(INSERT, ds[g].text)] + ds[g + 1..]
  }

  /** Replaces the equality just stepped over by its deletion and its insertion. */
  method SplitEqual(c: Cursor<Diff>, text: Text)
    requires c.Valid() && c.last == c.pos - 1 >= 0 && c.items[c.last] == Diff(EQUAL, text)
    modifies c
    ensures c.Valid() && c.pos == old(c.pos) + 1 && Splits(c.items, old(c.items))
    ensures c.items == Divide(old(c.items), old(c.last))
  {
    ghost var before, after := c.items[..c.last], c.items[c.pos..];
    assert c.items == before + [Diff(EQUAL, text)] + after;
    SplitTexts(before, text, after);
    c.SetValue(Diff(DELETE, text));
    c.Insert(Diff(INSERT, text));
    assert c.items == before + [Diff(DELETE, text), Diff(INSERT, text)] + after;
  }

  // ----- the edits around an equality -----

  /** The run of edits that ends just before `i`. */
  function EditsBefore(ds: seq<Diff>, i: nat): seq<Diff>
    requires i <= |ds|
  {
    if i == 0 || ds[i - 1].operation == EQUAL then [] else EditsBefore(ds, i - 1) + [ds[i - 1]]
  }

  /** The run of edits that starts at `i`. */
  function EditsFrom(ds: seq<Diff>, i: nat): (run: seq<Diff>)
    ensures i <= |ds| ==> |run| <= |ds| - i
    decreases |ds| - i
  {
    if i >= |ds| || ds[i].operation == EQUAL then [] else [ds[i]] + EditsFrom(ds, i + 1)
  }

  lemma {:induction false} EditsInFront(run: seq<Diff>, rest: seq<Diff>)
    requires AllEdits(run) && (rest == [] || rest[0].operation == EQUAL)
    ensures EditsFrom(run + rest, 0) == run
  {
    if run == [] {
      assert run + rest == rest;
    } else {
      var ds := run + rest;
      assert ds[0] == run[0] && ds[1..] == run[1..] + rest;
      EditsInFront(run[1..], rest);
      EditsShifted(ds, 1);
      assert [run[0]] + run[1..] == run;
    }
  }

  lemma {:induction false} EditsShifted(ds: seq<Diff>, i: nat)
    requires i <= |ds|
    ensures EditsFrom(ds, i) == EditsFrom(ds[i..], 0)
    decreases |ds| - i
  {
    if i < |ds| && ds[i].operation != EQUAL {
      EditsShifted(ds, i + 1);
      EditsShifted(ds[i..], 1);
      assert ds[i..][1..] == ds[i + 1..];
    }
  }

  /** A list is its first run and what comes after, starting with an equality if anything. */
  lemma RunInFront(ds: seq<Diff>)
    ensures var run := EditsFrom(ds, 0);
            ds == run + ds[|run|..] && AllEdits(run) && (|run| < |ds| ==> ds[|run|].operation == EQUAL)
  {
    RunThere(ds, 0);
  }

  lemma {:induction false} RunThere(ds: seq<Diff>, i: nat)
    requires i <= |ds|
    ensures var run := EditsFrom(ds, i);
            && ds[i..i + |run|] == run && AllEdits(run)
            && (i + |run| < |ds| ==> ds[i + |run|].operation == EQUAL)
    decreases |ds| - i
  {
    if i < |ds| && ds[i].operation != EQUAL {
      RunThere(ds, i + 1);
      var run := EditsFrom(ds, i + 1);
      assert ds[i..i + 1 + |run|] == [ds[i]] + ds[i + 1..i + 1 + |run|];
    }
  }

  /** `k` is the last equality before `i`, or -1. */
  ghost predicate LastEqual(ds: seq<Diff>, i: nat, k: int) {
    && -1 <= k < i <= |ds| && (k >= 0 ==> ds[k].operation == EQUAL)
    && forall j :: k < j < i ==> ds[j].operation != EQUAL
  }

  /** The run after an equality, seen as far as `i`. */
  lemma {:induction false} RunSeen(ds: seq<Diff>, i: nat, k: int)
    requires LastEqual(ds, i, k)
    ensures EditsFrom(ds, k + 1) == EditsBefore(ds, i) + EditsFrom(ds, i)
    decreases i
  {
    if i == k + 1 {
      assert [] + EditsFrom(ds, i) == EditsFrom(ds, i);
    } else {
      RunSeen(ds, i - 1, k);
      assert EditsBefore(ds, i) + EditsFrom(ds, i) == EditsBefore(ds, i - 1) + ([ds[i - 1]] + EditsFrom(ds, i));
    }
  }

  // ----- how far a walk that falls back has got -----

  /** The first `m` diffs of `ds` were met, of which `items` may have split some; the run of
      edits met last still stands before the rest. */
  ghost predicate Reached(ds: seq<Diff>, items: seq<Diff>, m: nat, front: nat) {
    && m <= |ds| && front <= |items| && items[front..] == ds[m..]
    && var r := |EditsBefore(ds, m)|; r <= front && items[front - r..front] == EditsBefore(ds, m)
  }

  lemma ReachedStart(ds: seq<Diff>)
    ensures Reached(ds, ds, 0, 0)
  {
  }

  lemma ReachedNext(ds: seq<Diff>, items: seq<Diff>, m: nat, front: nat)
    requires Reached(ds, items, m, front) && front < |items|
    ensures m < |ds| && items[front] == ds[m] && Reached(ds, items, m + 1, front + 1)
  {
    assert items[front] == items[front..][0] && ds[m] == ds[m..][0];
    assert items[front + 1..] == items[front..][1..] && ds[m + 1..] == ds[m..][1..];
    var r := |EditsBefore(ds, m)|;
    if ds[m].operation != EQUAL {
      assert items[front - r..front + 1] == items[front - r..front] + [items[front]];
    }
  }

  lemma {:induction false} EditsBeforeEdits(ds: seq<Diff>, i: nat)
    requires i <= |ds|
    ensures |EditsBefore(ds, i)| <= i && AllEdits(EditsBefore(ds, i))
  {
    if i > 0 && ds[i - 1].operation != EQUAL { EditsBeforeEdits(ds, i - 1); }
  }

  lemma RunAtFront(items: seq<Diff>, i: nat, run: seq<Diff>)
    requires |run| <= i <= |items| && items[i - |run|..i] == run && AllEdits(run)
    ensures forall j :: i - |run| <= j < i ==> items[j].operation != EQUAL
  {
    forall j | i - |run| <= j < i ensures items[j].operation != EQUAL {
      assert items[j] == run[j - (i - |run|)];
    }
  }

  lemma ReachedDivided(ds: seq<Diff>, items: seq<Diff>, m: nat, front: nat, g: nat)
    requires Reached(ds, items, m, front) && g < front && items[g].operation == EQUAL
    ensures Reached(ds, Divide(items, g), m, front + 1)
  {
    var r, es := |EditsBefore(ds, m)|, Divide(items, g);
    EditsBeforeEdits(ds, m);
    RunAtFront(items, front, EditsBefore(ds, m));
    assert forall i :: g < i < |items| ==> es[i + 1] == items[i];
    assert es[front + 1..] == items[front..];
    assert es[front + 1 - r..front + 1] == items[front - r..front];
  }

  /** The run before the front ends with the run in the original list. */
  lemma ReachedRun(ds: seq<Diff>, items: seq<Diff>, m: nat, front: nat)
    requires Reached(ds, items, m, front)
    ensures EndsWithRun(EditsBefore(items, front), EditsBefore(ds, m))
    ensures |Text1(EditsBefore(items, front))| >= |Text1(EditsBefore(ds, m))|
    ensures |Text2(EditsBefore(items, front))| >= |Text2(EditsBefore(ds, m))|
  {
    EditsBeforeEdits(ds, m);
    RunCovers(items, front, EditsBefore(ds, m));
    var all, run := EditsBefore(items, front), EditsBefore(ds, m);
    hide EditsBefore;
    Concat(all[..|all| - |run|], run);
    assert all == all[..|all| - |run|] + run;
  }

  ghost predicate EndsWithRun(all: seq<Diff>, run: seq<Diff>) {
    |run| <= |all| && all[|all| - |run|..] == run
  }

  lemma {:induction false} RunCovers(items: seq<Diff>, i: nat, run: seq<Diff>)
    requires |run| <= i <= |items| && items[i - |run|..i] == run && AllEdits(run)
    ensures EndsWithRun(EditsBefore(items, i), run)
    decreases i
  {
    if run != [] {
      var init, d := run[..|run| - 1], run[|run| - 1];
      assert run == init + [d] && items[i - 1] == items[i - |run|..i][|run| - 1] == d;
      assert items[i - 1 - |init|..i - 1] == items[i - |run|..i][..|run| - 1];
      RunCovers(items, i - 1, init);
      var all := EditsBefore(items, i - 1);
      assert EditsBefore(items, i) == all[..|all| - |init|] + init + [d];
    }
  }

  /** A run ends where the next equality stands. */
  lemma RunPassed(ds: seq<Diff>, m: nat, k: int)
    requires LastEqual(ds, m, k) && (m == |ds| || ds[m].operation == EQUAL)
    ensures EditsFrom(ds, k + 1) == EditsBefore(ds, m)
  {
    RunSeen(ds, m, k);
    assert EditsBefore(ds, m) + [] == EditsBefore(ds, m);
  }
}
