/** Reduces the number of edits by eliminating operationally trivial equalities. */
module EfficiencyCleanup {
  import opened Texts
  import opened Diffs
  import opened ListCursor
  import opened MergeCleanup
  import opened EqualityStack
  import opened Options

  /** Which edits were seen before and after the last equality. */
  datatype Flags = Flags(preIns: bool, preDel: bool, postIns: bool, postDel: bool) {
    function Count(): nat {
      (if preIns then 1 else 0) + (if preDel then 1 else 0) + (if postIns then 1 else 0) + (if postDel then 1 else 0)
    }

    predicate NothingSince() {
      !postIns && !postDel
    }
  }

  const CLEAR := Flags(false, false, false, false)

  /** The stack lies strictly after the safe element, which the cursor has passed unless
      it has just walked back to it. */
  ghost predicate Walking(items: seq<Diff>, pos: int, stack: seq<Diff>, at: seq<int>, last: Option<Text>, safe: int,
                          f: Flags)
  {
    && Stacked(items, stack, at)
    && (last.Some? ==> stack != [] && stack[|stack| - 1].text == last.value && Top(at) < pos)
    && (forall m :: 0 <= m < |at| ==> safe < at[m])
    && (forall m, n :: 0 <= m < n < |at| ==> at[m] < at[n])
    && 0 <= safe <= pos && Top(at) <= pos
    && (pos == safe || pos == Top(at) ==> f.NothingSince())
  }

  /** An equality to be split: cheaper to redo than to keep. `cost` is the edit cost. */
  predicate Worthless(last: Option<Text>, f: Flags, cost: int) {
    last.Some? && (f.Count() == 4 || (|last.value| < cost / 2 && f.Count() == 3))
  }

  lemma WalkingEqual(items: seq<Diff>, pos: int, stack: seq<Diff>, at: seq<int>, last: Option<Text>, safe: int,
                     f: Flags)
    requires Walking(items, pos, stack, at, last, safe, f) && 0 <= pos < |items| && items[pos].operation == EQUAL
    ensures !f.NothingSince() ==>
              Walking(items, pos + 1, stack + [items[pos]], at + [pos], Some(items[pos].text), safe,
                      Flags(f.postIns, f.postDel, false, false))
    ensures Walking(items, pos + 1, [], [], None, pos, f.(postIns := false, postDel := false))
  {
    if !f.NothingSince() {
      StackedPush(items, stack, at, pos);
    }
  }

  lemma WalkingEdit(items: seq<Diff>, pos: int, stack: seq<Diff>, at: seq<int>, last: Option<Text>, safe: int, f: Flags,
                    f': Flags)
    requires Walking(items, pos, stack, at, last, safe, f) && 0 <= pos < |items| && items[pos].operation != EQUAL
    ensures Walking(items, pos + 1, stack, at, last, safe, f')
  {
    assert Top(at) != pos;
  }

  /** Splits the equality on top of the stack, then keeps going or walks back to an
      earlier questionable equality or to the last safe element. */
  method SplitWorthless(c: Cursor<Diff>, thisDiff: Diff, equalities: seq<Diff>, last: Text, safeDiff: int, f: Flags,
                        ghost at: seq<int>)
    returns (equalities': seq<Diff>, safeDiff': int, f': Flags, ghost at': seq<int>)
    requires c.Valid() && Walking(c.items, c.pos, equalities, at, Some(last), safeDiff, f)
    requires thisDiff.operation != EQUAL && LastEqual(c.items, c.pos, Top(at))
    modifies c
    ensures c.Valid() && Splits(c.items, old(c.items))
    ensures Walking(c.items, c.pos, equalities', at', None, safeDiff', f')
    ensures 0 <= Top(at) < old(c.pos) && old(c.items)[Top(at)] == Diff(EQUAL, last)
    ensures c.items == Divide(old(c.items), Top(at))
    ensures if f.preIns && f.preDel then c.pos == Top(at) + 2 && f'.postIns && f'.postDel
            else c.pos <= Top(at) + 1 && f'.NothingSince()
  {
    hide Splits, Walking, Stacked;
    ghost var items := c.items;
    TopOfStack(items, c.pos, equalities, at, last, safeDiff, f);
    var top := equalities[|equalities| - 1];
    WalkBack(c, thisDiff, top, Top(at));
    ghost var g := c.last;
    assert g == Top(at);
    SplitEqual(c, last);
    assert c.items[..g] == items[..g];
    equalities' := equalities[..|equalities| - 1];
    if f.preIns && f.preDel {
      f' := f.(postIns := true, postDel := true);
      equalities', at' := [], [];
      safeDiff' := c.pos - 1;
      WalkingOn(c.items, c.pos, f');
    } else {
      if equalities' != [] {
        equalities' := equalities'[..|equalities'| - 1];
      }
      ghost var n := |equalities'|;
      assert equalities' == equalities[..n];
      at' := at[..n];
      safeDiff' := safeDiff;
      f' := f.(postIns := false, postDel := false);
      Fallback(items, c.items, equalities, at, last, safeDiff, f, g, n);
      if equalities' == [] {
        BackUpTo(c, c.items[safeDiff], safeDiff);
      } else {
        BackUpTo(c, equalities'[|equalities'| - 1], Top(at'));
      }
      WalkingBack(items, c.items, c.pos, equalities, at, last, safeDiff, f, g, n);
    }
  }

  lemma TopOfStack(items: seq<Diff>, pos: int, stack: seq<Diff>, at: seq<int>, last: Text, safe: int, f: Flags)
    requires Walking(items, pos, stack, at, Some(last), safe, f)
    ensures stack != [] && |at| == |stack| && 0 <= Top(at) < pos && Top(at) < |items|
    ensures stack[|stack| - 1] == Diff(EQUAL, last) == items[Top(at)]
  {
  }

  lemma WalkingStart(items: seq<Diff>)
    ensures Walking(items, 0, [], [], None, 0, CLEAR)
  {
  }

  lemma WalkingOn(items: seq<Diff>, pos: int, f: Flags)
    requires 0 < pos
    ensures Walking(items, pos, [], [], None, pos - 1, f)
  {
  }

  /** Everything a backward walk can aim at lies before the equality that was split. */
  lemma Fallback(items: seq<Diff>, items': seq<Diff>, stack: seq<Diff>, at: seq<int>, last: Text, safe: int, f: Flags,
                 g: int, n: int)
    requires exists pos :: Walking(items, pos, stack, at, Some(last), safe, f)
    requires Top(at) <= g < |items| && |items'| >= |items| && items'[..g] == items[..g] && 0 <= n < |stack|
    ensures |at| == |stack| && 0 <= safe < g
    ensures n > 0 ==> safe < at[n - 1] < g && items'[at[n - 1]] == stack[n - 1]
    ensures Stacked(items', stack[..n], at[..n])
  {
    StackedAfterSplit(items, items', stack, at, g, n);
    if n > 0 {
      assert items'[..g][at[n - 1]] == items[..g][at[n - 1]];
    }
  }

  lemma WalkingBack(items: seq<Diff>, items': seq<Diff>, pos': int, stack: seq<Diff>, at: seq<int>, last: Text,
                    safe: int, f: Flags, g: int, n: int)
    requires exists pos :: Walking(items, pos, stack, at, Some(last), safe, f)
    requires Top(at) <= g < |items| && |items'| >= |items| && items'[..g] == items[..g] && 0 <= n < |stack| == |at|
    requires pos' >= if n > 0 then at[n - 1] else safe
    ensures Walking(items', pos', stack[..n], at[..n], None, safe, f.(postIns := false, postDel := false))
  {
    Fallback(items, items', stack, at, last, safe, f, g, n);
  }

  // ----- when there is something to eliminate -----

  predicate Has(ds: seq<Diff>, op: Operation) {
    exists i :: 0 <= i < |ds| && ds[i].operation == op
  }

  lemma HasSnoc(ds: seq<Diff>, d: Diff, op: Operation)
    ensures Has(ds + [d], op) <==> Has(ds, op) || d.operation == op
  {
    if Has(ds, op) {
      var i :| 0 <= i < |ds| && ds[i].operation == op;
      assert (ds + [d])[i] == ds[i];
    }
    assert (ds + [d])[|ds|] == d;
  }

  lemma HasMore(a: seq<Diff>, b: seq<Diff>, op: Operation)
    requires Has(a, op)
    ensures Has(a + b, op)
  {
    var i :| 0 <= i < |a| && a[i].operation == op;
    assert (a + b)[i] == a[i];
  }

  /** Which edits the runs before and after an equality hold. */
  function FlagsOf(before: seq<Diff>, after: seq<Diff>): Flags {
    Flags(Has(before, INSERT), Has(before, DELETE), Has(after, INSERT), Has(after, DELETE))
  }

  /** The equality at `i` is short, with edits on both sides, and cheaper to redo than to
      keep. */
  ghost predicate WorthlessAt(ds: seq<Diff>, i: nat, cost: int) {
    && i < |ds| && ds[i].operation == EQUAL && |ds[i].text| < cost
    && Worthless(Some(ds[i].text), FlagsOf(EditsBefore(ds, i), EditsFrom(ds, i + 1)), cost)
  }

  lemma {:induction false} RunHas(ds: seq<Diff>, i: nat)
    requires i <= |ds|
    ensures var run := EditsBefore(ds, i); run != [] <==> Has(run, INSERT) || Has(run, DELETE)
  {
    if i > 0 && ds[i - 1].operation != EQUAL {
      HasSnoc(EditsBefore(ds, i - 1), ds[i - 1], INSERT);
      HasSnoc(EditsBefore(ds, i - 1), ds[i - 1], DELETE);
    }
  }

  /** Without edits before it an equality is not worthless. */
  lemma NeverWorthless(ds: seq<Diff>, k: nat, cost: int)
    requires k < |ds| && EditsBefore(ds, k) == []
    ensures !WorthlessAt(ds, k, cost)
  {
    RunHas(ds, k);
    hide Has;
  }

  lemma NoneHas()
    ensures !Has([], INSERT) && !Has([], DELETE)
  {
  }

  /** How many of the first `k` diffs are worthless equalities. */
  ghost function WorthlessCount(ds: seq<Diff>, k: nat, cost: int): nat
    requires k <= |ds|
  {
    if k == 0 then 0 else WorthlessCount(ds, k - 1, cost) + if WorthlessAt(ds, k - 1, cost) then 1 else 0
  }

  lemma {:induction false} WorthlessCounted(ds: seq<Diff>, i: nat, k: nat, cost: int)
    requires i < k <= |ds| && WorthlessAt(ds, i, cost)
    ensures WorthlessCount(ds, k, cost) > 0
    decreases k
  {
    if i < k - 1 { WorthlessCounted(ds, i, k - 1, cost); }
  }

  /** Edits are not worthless equalities. */
  lemma {:induction false} CountPast(ds: seq<Diff>, k: nat, m: nat, cost: int)
    requires k < m <= |ds| && forall j :: k < j < m ==> ds[j].operation != EQUAL
    ensures WorthlessCount(ds, m, cost) == WorthlessCount(ds, k, cost) + if WorthlessAt(ds, k, cost) then 1 else 0
    decreases m
  {
    if k < m - 1 { CountPast(ds, k, m - 1, cost); }
  }

  /** `es` is `ds` with `n` equalities split one after another, each worthless in the list as it
      then was. */
  ghost predicate Eliminates(ds: seq<Diff>, es: seq<Diff>, n: nat, cost: int)
    decreases n
  {
    if n == 0 then es == ds
    else
      exists mid, g: nat ::
        Eliminates(ds, mid, n - 1, cost) && g < |mid| && WorthlessAt(mid, g, cost) && es == Divide(mid, g)
  }

  lemma {:induction false} EliminatesFirst(ds: seq<Diff>, es: seq<Diff>, n: nat, cost: int)
    requires Eliminates(ds, es, n, cost) && n > 0
    ensures exists i :: WorthlessAt(ds, i, cost)
    decreases n
  {
    hide WorthlessAt;
    var mid, g: nat :|
      Eliminates(ds, mid, n - 1, cost) && g < |mid| && WorthlessAt(mid, g, cost) && es == Divide(mid, g);
    if n > 1 { EliminatesFirst(ds, mid, n - 1, cost); }
  }

  /** The elimination's whole effect: each equality split was worthless in the list as it was
      then, and all that were worthless from the start are gone. */
  ghost predicate Reduces(ds: seq<Diff>, es: seq<Diff>, cost: int) {
    && EqualCount(es) + WorthlessCount(ds, |ds|, cost) <= EqualCount(ds)
    && Eliminates(ds, es, EqualCount(ds) - EqualCount(es), cost)
  }

  /** No flag that the run does not account for. */
  predicate Covered(ins: bool, del: bool, run: seq<Diff>) {
    (ins ==> Has(run, INSERT)) && (del ==> Has(run, DELETE))
  }

  /** A flag for whatever the run holds. */
  predicate Covers(ins: bool, del: bool, run: seq<Diff>) {
    (Has(run, INSERT) ==> ins) && (Has(run, DELETE) ==> del)
  }

  /** The flags say no more than the runs around the last equality, after which only edits were
      met. */
  ghost predicate Within(items: seq<Diff>, pos: nat, at: seq<int>, last: Option<Text>, f: Flags, cost: int) {
    && pos <= |items| && Covered(f.postIns, f.postDel, EditsBefore(items, pos))
    && (last.Some? ==>
          && LastEqual(items, pos, Top(at)) && Top(at) >= 0 && |last.value| < cost && items[Top(at)].text == last.value
          && Covered(f.preIns, f.preDel, EditsBefore(items, Top(at))))
  }

  /** The flags after one more edit. */
  function Flagged(d: Diff, f: Flags): Flags {
    if d.operation == DELETE then f.(postDel := true) else f.(postIns := true)
  }

  lemma WithinEqual(items: seq<Diff>, pos: nat, at: seq<int>, last: Option<Text>, f: Flags, cost: int)
    requires Within(items, pos, at, last, f, cost) && pos < |items| && items[pos].operation == EQUAL
    ensures |items[pos].text| < cost ==>
              Within(items, pos + 1, at + [pos], Some(items[pos].text), Flags(f.postIns, f.postDel, false, false), cost)
    ensures Within(items, pos + 1, [], None, f.(postIns := false, postDel := false), cost)
  {
    hide Has;
  }

  lemma WithinEdit(items: seq<Diff>, pos: nat, at: seq<int>, last: Option<Text>, f: Flags, cost: int)
    requires Within(items, pos, at, last, f, cost) && pos < |items| && items[pos].operation != EQUAL
    ensures Within(items, pos + 1, at, last, Flagged(items[pos], f), cost)
  {
    hide Has;
    HasSnoc(EditsBefore(items, pos), items[pos], INSERT);
    HasSnoc(EditsBefore(items, pos), items[pos], DELETE);
  }

  /** What the flags call worthless is worthless in the list. */
  lemma WithinWorthless(items: seq<Diff>, pos: nat, at: seq<int>, last: Text, f: Flags, cost: int)
    requires Within(items, pos, at, Some(last), f, cost) && Worthless(Some(last), f, cost)
    ensures WorthlessAt(items, Top(at), cost)
  {
    var run, rest := EditsBefore(items, pos), EditsFrom(items, pos);
    RunSeen(items, pos, Top(at));
    hide Has;
    if Has(run, INSERT) { HasMore(run, rest, INSERT); }
    if Has(run, DELETE) { HasMore(run, rest, DELETE); }
  }

  /** From `pos` on such an edit was met before. */
  ghost predicate OpAhead(items: seq<Diff>, pos: nat, front: nat, op: Operation) {
    exists q :: pos <= q < front <= |items| && items[q].operation == op
  }

  /** The flags say all of the run before the cursor; or the walk fell back, and they will have
      been set by the time it is back where it was. */
  ghost predicate Telling(items: seq<Diff>, pos: nat, front: nat, f: Flags) {
    && pos <= front <= |items|
    && (|| Covers(f.postIns, f.postDel, EditsBefore(items, pos))
        || ((f.postIns || OpAhead(items, pos, front, INSERT)) && (f.postDel || OpAhead(items, pos, front, DELETE))))
  }

  lemma TellingEdit(items: seq<Diff>, pos: nat, front: nat, f: Flags, front': nat)
    requires Telling(items, pos, front, f) && pos < |items| && items[pos].operation != EQUAL
    requires front' == if pos < front then front else front + 1
    ensures Telling(items, pos + 1, front', Flagged(items[pos], f))
  {
    hide Has;
    HasSnoc(EditsBefore(items, pos), items[pos], INSERT);
    HasSnoc(EditsBefore(items, pos), items[pos], DELETE);
    AheadNext(items, pos, front, front', INSERT);
    AheadNext(items, pos, front, front', DELETE);
    hide OpAhead;
  }

  lemma AheadNext(items: seq<Diff>, pos: nat, front: nat, front': nat, op: Operation)
    requires pos < |items| && front <= front' <= |items|
    ensures OpAhead(items, pos, front, op) ==> items[pos].operation == op || OpAhead(items, pos + 1, front', op)
  {
    if OpAhead(items, pos, front, op) {
      var q :| pos <= q < front <= |items| && items[q].operation == op;
      if q > pos { assert OpAhead(items, pos + 1, front', op); }
    }
  }

  lemma TellingEqual(items: seq<Diff>, pos: nat, front: nat, f: Flags)
    requires pos < |items| && items[pos].operation == EQUAL && pos + 1 <= front <= |items|
    ensures Telling(items, pos + 1, front, f)
  {
    NoneHas();
    hide Has;
  }

  /** The first `m` diffs of `ds` were met, and every worthless equality among them was split; the
      equality at `k` is met for the first time, its run not yet passed. */
  ghost predicate Seen(ds: seq<Diff>, items: seq<Diff>, pos: nat, m: nat, k: int, last: Option<Text>, f: Flags,
                       cost: int) {
    var front := |items| - (|ds| - m);
    && m <= |ds| && front >= 0 && Reached(ds, items, m, front) && Telling(items, pos, front, f)
    && (if k < 0 then EqualCount(items) + WorthlessCount(ds, m, cost) <= EqualCount(ds)
        else
          && pos == front && LastEqual(ds, m, k) && EqualCount(items) + WorthlessCount(ds, k, cost) <= EqualCount(ds)
          && (|ds[k].text| < cost && EditsBefore(ds, k) != [] ==>
                last == Some(ds[k].text) && Covers(f.preIns, f.preDel, EditsBefore(ds, k))))
  }

  lemma SeenStart(ds: seq<Diff>, cost: int)
    ensures Seen(ds, ds, 0, 0, -1, None, CLEAR, cost)
  {
    ReachedStart(ds);
    NoneHas();
    hide Has;
  }

  /** At the front the flags say all of the run there. */
  lemma FrontCovers(ds: seq<Diff>, items: seq<Diff>, m: nat, front: nat, f: Flags)
    requires Reached(ds, items, m, front) && Telling(items, front, front, f)
    ensures Covers(f.postIns, f.postDel, EditsBefore(ds, m))
  {
    ReachedRun(ds, items, m, front);
    var all, run := EditsBefore(items, front), EditsBefore(ds, m);
    hide EditsBefore, Reached;
    if Has(run, INSERT) { HasEnd(all, run, INSERT); }
    if Has(run, DELETE) { HasEnd(all, run, DELETE); }
  }

  lemma HasEnd(all: seq<Diff>, run: seq<Diff>, op: Operation)
    requires EndsWithRun(all, run) && Has(run, op)
    ensures Has(all, op)
  {
    var i :| 0 <= i < |run| && run[i].operation == op;
    assert all[|all| - |run| + i] == run[i];
  }

  /** Once its run is passed, an equality still there is not worthless. */
  lemma SeenPassed(ds: seq<Diff>, items: seq<Diff>, pos: nat, m: nat, k: int, last: Option<Text>, f: Flags, cost: int)
    requires Seen(ds, items, pos, m, k, last, f, cost) && !Worthless(last, f, cost)
    requires m == |ds| || ds[m].operation == EQUAL
    ensures EqualCount(items) + WorthlessCount(ds, m, cost) <= EqualCount(ds)
  {
    hide Has, EqualCount;
    if k >= 0 {
      FrontCovers(ds, items, m, pos, f);
      RunPassed(ds, m, k);
      if EditsBefore(ds, k) == [] { NeverWorthless(ds, k, cost); }
      CountPast(ds, k, m, cost);
    }
  }

  lemma SeenEqual(ds: seq<Diff>, items: seq<Diff>, pos: nat, m: nat, k: int, last: Option<Text>, f: Flags, cost: int)
    returns (m': nat, k': int)
    requires Seen(ds, items, pos, m, k, last, f, cost) && !Worthless(last, f, cost)
    requires pos < |items| && items[pos].operation == EQUAL
    ensures m' <= |ds|
    ensures if |items[pos].text| < cost && (f.postIns || f.postDel)
            then Seen(ds, items, pos + 1, m', k', Some(items[pos].text), Flags(f.postIns, f.postDel, false, false),
                      cost)
            else Seen(ds, items, pos + 1, m', k', None, f.(postIns := false, postDel := false), cost)
  {
    hide Has, EqualCount;
    var front := |items| - (|ds| - m);
    if pos < front {
      m', k' := m, -1;
      TellingEqual(items, pos, front, Flags(f.postIns, f.postDel, false, false));
      TellingEqual(items, pos, front, f.(postIns := false, postDel := false));
    } else {
      m', k' := m + 1, m;
      ReachedNext(ds, items, m, front);
      FrontCovers(ds, items, m, front, f);
      SeenPassed(ds, items, pos, m, k, last, f, cost);
      TellingEqual(items, pos, front + 1, Flags(f.postIns, f.postDel, false, false));
      TellingEqual(items, pos, front + 1, f.(postIns := false, postDel := false));
      RunHas(ds, m);
    }
    hide Reached, WorthlessCount, WorthlessAt, Telling;
  }

  lemma SeenEdit(ds: seq<Diff>, items: seq<Diff>, pos: nat, m: nat, k: int, last: Option<Text>, f: Flags, cost: int)
    returns (m': nat)
    requires Seen(ds, items, pos, m, k, last, f, cost) && pos < |items| && items[pos].operation != EQUAL
    ensures m' <= |ds| && Seen(ds, items, pos + 1, m', k, last, Flagged(items[pos], f), cost)
  {
    hide Has, EqualCount, Reached, OpAhead, Covers, EditsBefore, WorthlessCount, Flagged;
    var front := |items| - (|ds| - m);
    if pos < front {
      m' := m;
      TellingEdit(items, pos, front, f, front);
    } else {
      m' := m + 1;
      ReachedNext(ds, items, m, front);
      TellingEdit(items, pos, front, f, front + 1);
      EditNotCounted(ds, m, cost);
    }
    FlagsKept(items[pos], f);
  }

  lemma EditNotCounted(ds: seq<Diff>, m: nat, cost: int)
    requires m < |ds| && ds[m].operation != EQUAL
    ensures WorthlessCount(ds, m + 1, cost) == WorthlessCount(ds, m, cost)
  {
  }

  /** An edit leaves the flags before the last equality alone. */
  lemma FlagsKept(d: Diff, f: Flags)
    ensures Flagged(d, f).preIns == f.preIns && Flagged(d, f).preDel == f.preDel
  {
  }

  lemma SeenSplit(ds: seq<Diff>, items: seq<Diff>, pos: nat, m: nat, k: int, last: Option<Text>, f: Flags, cost: int,
                  g: nat, pos': nat, f': Flags)
    requires Seen(ds, items, pos, m, k, last, f, cost) && LastEqual(items, pos, g) && g + 1 < pos
    requires EqualCount(Divide(items, g)) == EqualCount(items) - 1
    requires pos' <= g + 2
    requires || (f'.postIns && f'.postDel)
             || (pos' <= g + 1 && Has(EditsBefore(items, pos), INSERT) && Has(EditsBefore(items, pos), DELETE))
    ensures Seen(ds, Divide(items, g), pos', m, -1, None, f', cost)
  {
    hide Has, EqualCount, Reached, WorthlessCount, OpAhead, Covers, EditsBefore;
    var front := |items| - (|ds| - m);
    ReachedDivided(ds, items, m, front, g);
    if k >= 0 { CountPast(ds, k, m, cost); }
    if !(f'.postIns && f'.postDel) {
      DividedAhead(items, pos, front, g, pos', INSERT);
      DividedAhead(items, pos, front, g, pos', DELETE);
    }
    hide Divide;
  }

  /** What the run after a split equality holds is ahead of where the walk falls back to. */
  lemma DividedAhead(items: seq<Diff>, pos: nat, front: nat, g: nat, pos': nat, op: Operation)
    requires LastEqual(items, pos, g) && pos <= front <= |items| && pos' <= g + 1 && Has(EditsBefore(items, pos), op)
    ensures OpAhead(Divide(items, g), pos', front + 1, op)
  {
    var q := RunHolds(items, pos, op);
    assert q > g;
    assert Divide(items, g)[q + 1] == items[q];
  }

  lemma {:induction false} RunHolds(items: seq<Diff>, i: nat, op: Operation) returns (q: nat)
    requires i <= |items| && Has(EditsBefore(items, i), op)
    ensures q < i && items[q].operation == op && forall j :: q <= j < i ==> items[j].operation != EQUAL
    decreases i
  {
    if items[i - 1].operation == op {
      q := i - 1;
    } else {
      HasSnoc(EditsBefore(items, i - 1), items[i - 1], op);
      q := RunHolds(items, i - 1, op);
    }
  }

  /** Eliminates short equalities between edits. Each was worthless in the list as it was when it
      was split, and every equality worthless in the list as it was given is among them. */
  method EliminateWorthless(c: Cursor<Diff>, cost: int) returns (changes: bool)
    requires c.Valid() && c.pos == 0 && c.items != []
    modifies c
    ensures c.Valid() && SameTexts(c.items, old(c.items)) && KeepsSolid(old(c.items), c.items)
    ensures changes <==> exists i :: WorthlessAt(old(c.items), i, cost)
    ensures if changes then EqualCount(c.items) < EqualCount(old(c.items)) else c.items == old(c.items)
    ensures Reduces(old(c.items), c.items, cost)
  {
    hide Walking, Solid, Seen, Within, WorthlessAt, WorthlessCount, Eliminates, EqualCount, Divide, Has;
    ghost var ds, k, m: nat := c.items, -1, 0;
    WalkingStart(ds);
    SeenStart(ds, cost);
    WithinStart(ds, cost);
    EliminatesStart(ds, cost);
    changes := false;
    var equalities: seq<Diff> := [];
    ghost var at: seq<int> := [];
    var last: Option<Text> := None;
    var f := CLEAR;
    var safeDiff := 0;
    while c.HasNext()
      invariant c.Valid() && Walking(c.items, c.pos, equalities, at, last, safeDiff, f) && m <= |ds|
      invariant SameTexts(c.items, ds) && KeepsSolid(ds, c.items)
      invariant EqualCount(c.items) <= EqualCount(ds)
      invariant if changes then EqualCount(c.items) < EqualCount(ds) else c.items == ds
      invariant Eliminates(ds, c.items, EqualCount(ds) - EqualCount(c.items), cost)
      invariant Seen(ds, c.items, c.pos, m, k, last, f, cost) && !Worthless(last, f, cost)
      invariant Within(c.items, c.pos, at, last, f, cost)
      decreases EqualCount(c.items), |c.items| - c.pos
    {
      ghost var items, pos := c.items, c.pos;
      var d := c.Next();
      if d.operation == EQUAL {
        WalkingEqual(items, pos, equalities, at, last, safeDiff, f);
        WithinEqual(items, pos, at, last, f, cost);
        m, k := SeenEqual(ds, items, pos, m, k, last, f, cost);
        if |d.text| < cost && (f.postIns || f.postDel) {
          equalities := equalities + [d];
          at := at + [pos];
          f := Flags(f.postIns, f.postDel, false, false);
          last := Some(d.text);
        } else {
          equalities, at := [], [];
          last := None;
          safeDiff := c.pos - 1;
          f := f.(postIns := false, postDel := false);
        }
      } else {
        var f' := if d.operation == DELETE then f.(postDel := true) else f.(postIns := true);
        WalkingEdit(items, pos, equalities, at, last, safeDiff, f, f');
        WithinEdit(items, pos, at, last, f, cost);
        m := SeenEdit(ds, items, pos, m, k, last, f, cost);
        f := f';
        if Worthless(last, f, cost) {
          WithinWorthless(items, pos + 1, at, last.value, f, cost);
          WithinLast(items, pos + 1, at, last.value, f, cost);
          ghost var g, flags := Top(at), f;
          BothSince(items, pos + 1, at, last, f, cost);
          equalities, safeDiff, f, at := SplitWorthless(c, d, equalities, last.value, safeDiff, f, at);
          SeenSplit(ds, items, pos + 1, m, k, last, flags, cost, g, c.pos, f);
          EliminatesNext(ds, items, EqualCount(ds) - EqualCount(items), g, cost);
          WithinAnew(items, g, c.pos, at, f, cost);
          last := None;
          changes := true;
          k := -1;
        }
      }
    }
    SeenEnd(ds, c.items, m, k, last, f, cost);
    if changes {
      EliminatesFirst(ds, c.items, EqualCount(ds) - EqualCount(c.items), cost);
    } else {
      NoneWorthless(ds, cost);
    }
  }

  lemma WithinStart(ds: seq<Diff>, cost: int)
    ensures Within(ds, 0, [], None, CLEAR, cost)
  {
  }

  lemma WithinLast(items: seq<Diff>, pos: nat, at: seq<int>, last: Text, f: Flags, cost: int)
    requires Within(items, pos, at, Some(last), f, cost) && 0 < pos && items[pos - 1].operation != EQUAL
    ensures LastEqual(items, pos, Top(at)) && 0 <= Top(at) && Top(at) + 1 < pos
  {
    hide Has;
  }

  /** After a split the flags are clear, or the pieces account for them. */
  lemma WithinAnew(items: seq<Diff>, g: nat, pos': nat, at: seq<int>, f: Flags, cost: int)
    requires g < |items|
    requires (pos' <= g + 1 && f.NothingSince()) || pos' == g + 2
    ensures Within(Divide(items, g), pos', at, None, f, cost)
  {
    var es := Divide(items, g);
    if pos' == g + 2 {
      var run := EditsBefore(es, g);
      assert EditsBefore(es, g + 1) == run + [es[g]] && EditsBefore(es, g + 2) == run + [es[g]] + [es[g + 1]];
      HasSnoc(run, es[g], DELETE);
      HasSnoc(run + [es[g]], es[g + 1], DELETE);
      HasSnoc(run + [es[g]], es[g + 1], INSERT);
    }
    hide Has;
  }

  /** Where only one kind of edit came before a worthless equality both kinds came after. */
  lemma BothSince(items: seq<Diff>, pos: nat, at: seq<int>, last: Option<Text>, f: Flags, cost: int)
    requires Within(items, pos, at, last, f, cost) && Worthless(last, f, cost)
    ensures || (f.preIns && f.preDel)
            || (Has(EditsBefore(items, pos), INSERT) && Has(EditsBefore(items, pos), DELETE))
  {
    hide Has;
  }

  lemma EliminatesStart(ds: seq<Diff>, cost: int)
    ensures Eliminates(ds, ds, 0, cost)
  {
  }

  lemma EliminatesNext(ds: seq<Diff>, items: seq<Diff>, n: nat, g: nat, cost: int)
    requires Eliminates(ds, items, n, cost) && WorthlessAt(items, g, cost)
    ensures Eliminates(ds, Divide(items, g), n + 1, cost)
  {
  }

  lemma SeenEnd(ds: seq<Diff>, items: seq<Diff>, m: nat, k: int, last: Option<Text>, f: Flags, cost: int)
    requires Seen(ds, items, |items|, m, k, last, f, cost) && !Worthless(last, f, cost)
    ensures EqualCount(items) + WorthlessCount(ds, |ds|, cost) <= EqualCount(ds)
  {
    assert m == |ds|;
    SeenPassed(ds, items, |items|, m, k, last, f, cost);
  }

  lemma NoneWorthless(ds: seq<Diff>, cost: int)
    requires EqualCount(ds) + WorthlessCount(ds, |ds|, cost) <= EqualCount(ds)
    ensures forall i :: !WorthlessAt(ds, i, cost)
  {
    forall i ensures !WorthlessAt(ds, i, cost) {
      if WorthlessAt(ds, i, cost) { WorthlessCounted(ds, i, |ds|, cost); }
    }
  }

  /** The stages of the efficiency cleanup of `ds`, which ends with `es`. */
  ghost predicate Trims(cost: int, ds: seq<Diff>, reduced: seq<Diff>, es: seq<Diff>) {
    && Reduces(ds, reduced, cost)
    && if exists i :: WorthlessAt(ds, i, cost)
       then SameTexts(es, reduced) && NoWorse(es, reduced) && Tidy(es) && Settled(es)
       else es == reduced == ds
  }

  /** The whole efficiency cleanup keeps both texts. Without a worthless equality it does
      nothing; otherwise all that are worthless are gone before the merge, `reduced` being what
      is left then, and the result is in merge-normal form. */
  method CleanupEfficiency(c: Cursor<Diff>, cost: int) returns (ghost reduced: seq<Diff>)
    requires c.Valid()
    modifies c
    ensures c.Valid() && SameTexts(c.items, old(c.items)) && KeepsSolid(old(c.items), c.items)
    ensures Trims(cost, old(c.items), reduced, c.items)
  {
    hide Tidy, Settled, WorthlessAt, Reduces;
    reduced := c.items;
    if c.items == [] {
      NothingWorthless(cost);
      return;
    }
    c.ToFront();
    var changes := EliminateWorthless(c, cost);
    reduced := c.items;
    if changes {
      CleanupMerge(c);
    }
  }

  lemma NothingWorthless(cost: int)
    ensures Reduces([], [], cost) && forall i :: !WorthlessAt([], i, cost)
  {
  }
}
