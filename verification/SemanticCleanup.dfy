/** Reduces the number of edits by eliminating semantically trivial equalities. */
module SemanticCleanup {
  import opened Texts
  import opened Diffs
  import opened ListCursor
  import opened MergeCleanup
  import opened Lossless
  import opened EqualityStack
  import opened Options
  import opened EngineSettings

  /** Units inserted and deleted before and after the last equality. */
  datatype Counts = Counts(insertions1: nat, deletions1: nat, insertions2: nat, deletions2: nat)

  const ZERO := Counts(0, 0, 0, 0)

  /** The equality is no longer than the edits on both sides of it. */
  predicate Trivial(last: Option<Text>, n: Counts) {
    last.Some? && |last.value| <= Max(n.insertions1, n.deletions1) && |last.value| <= Max(n.insertions2, n.deletions2)
  }

  const BLANK := Diff(EQUAL, [])

  ghost predicate BeforeEqual(items: seq<Diff>, i: int) {
    -1 <= i && i + 1 < |items| && items[i + 1].operation == EQUAL
  }

  ghost predicate BeforeLonger(items: seq<Diff>, i: int) {
    BeforeEqual(items, i) && items[i + 1] != BLANK
  }

  /** Stack entry `m` stands at the cursor, or the next entry is the same equality again. */
  ghost predicate Held(at: seq<int>, pos: int, m: int)
    requires 0 <= m < |at|
  {
    at[m] == pos || (m + 1 < |at| && at[m + 1] == at[m])
  }

  /** A blank equality held twice, or standing at the cursor, has a longer equality behind it. */
  ghost predicate BlanksHeld(items: seq<Diff>, pos: int, at: seq<int>) {
    forall m :: 0 <= m < |at| && 0 <= at[m] < |items| && items[at[m]] == BLANK && Held(at, pos, m) ==>
      BeforeLonger(items, at[m])
  }

  /** What the stack and the counts keep: the top is the last equality met, and an equality
      next to another has no edits between. */
  ghost predicate Grounded(items: seq<Diff>, pos: int, stack: seq<Diff>, at: seq<int>, last: Option<Text>, n: Counts) {
    && Stacked(items, stack, at) && BlanksHeld(items, pos, at) && Top(at) <= pos <= |items|
    && (last.Some? ==> stack != [] && stack[|stack| - 1].text == last.value && Top(at) < pos
                       && forall i :: Top(at) < i < pos ==> items[i].operation != EQUAL)
    && (Top(at) == pos ==> n == ZERO)
    && (last.Some? && |at| >= 2 && at[|at| - 2] == at[|at| - 1] ==> n.insertions1 == n.deletions1 == 0)
    && (pos > 0 && items[pos - 1].operation == EQUAL ==> n.insertions2 == n.deletions2 == 0)
    && (last.Some? && Top(at) > 0 && items[Top(at) - 1].operation == EQUAL ==> n.insertions1 == n.deletions1 == 0)
  }

  /** A blank equality already met has an equality behind it: with an edit there it would
      have been split. Only the top may still wait for what follows. */
  ghost predicate BlanksMet(items: seq<Diff>, pos: int, at: seq<int>, last: Option<Text>) {
    forall i :: 0 <= i < pos <= |items| && items[i] == BLANK ==>
      BeforeEqual(items, i) || (i == Top(at) && last == Some([]))
  }

  /** What keeps the backward walks inside the list: only an equality met for the first
      time since the last walk can be split, so the one below it on the stack lies
      strictly before it. */
  ghost predicate Walking(items: seq<Diff>, pos: int, stack: seq<Diff>, at: seq<int>, last: Option<Text>, n: Counts) {
    && Grounded(items, pos, stack, at, last, n) && BlanksMet(items, pos, at, last)
    && (last == Some([]) ==> Top(at) == pos - 1)
  }

  lemma WalkingEqual(items: seq<Diff>, pos: int, stack: seq<Diff>, at: seq<int>, last: Option<Text>, n: Counts)
    requires Walking(items, pos, stack, at, last, n) && 0 <= pos < |items| && items[pos].operation == EQUAL
    ensures Walking(items, pos + 1, stack + [items[pos]], at + [pos], Some(items[pos].text),
                    Counts(n.insertions2, n.deletions2, 0, 0))
  {
    StackedPush(items, stack, at, pos);
    HeldEqual(items, pos, stack, at, last, n);
    hide BlanksHeld, Stacked;
    forall i | 0 <= i < pos && items[i] == BLANK ensures BeforeEqual(items, i) {
      assert i == pos - 1 ==> BeforeEqual(items, i);
    }
  }

  lemma HeldEqual(items: seq<Diff>, pos: int, stack: seq<Diff>, at: seq<int>, last: Option<Text>, n: Counts)
    requires Grounded(items, pos, stack, at, last, n) && 0 <= pos < |items|
    ensures BlanksHeld(items, pos + 1, at + [pos])
  {
    var at' := at + [pos];
    forall m | 0 <= m < |at'| && 0 <= at'[m] < |items| && items[at'[m]] == BLANK && Held(at', pos + 1, m)
      ensures BeforeLonger(items, at'[m])
    {
      assert m < |at| && at'[m] == at[m] && Held(at, pos, m);
    }
  }

  /** An edit leaves the walk under way, unless the last equality has become trivial. */
  lemma WalkingEdit(items: seq<Diff>, pos: int, stack: seq<Diff>, at: seq<int>, last: Option<Text>, n: Counts,
                    n': Counts)
    requires Walking(items, pos, stack, at, last, n) && 0 <= pos < |items| && items[pos].operation != EQUAL
    requires n'.insertions1 == n.insertions1 && n'.deletions1 == n.deletions1
    ensures Grounded(items, pos + 1, stack, at, last, n') && BlanksMet(items, pos + 1, at, last)
    ensures !Trivial(last, n') ==> Walking(items, pos + 1, stack, at, last, n')
  {
    assert Top(at) != pos;
    assert BlanksHeld(items, pos + 1, at) by {
      assert forall m :: 0 <= m < |at| && Held(at, pos + 1, m) ==> Held(at, pos, m);
    }
    hide BlanksHeld, Stacked;
  }

  /** A trivial equality is not one the walk fell back to: the second below it on the
      stack lies strictly before it. */
  lemma TopSplits(items: seq<Diff>, pos: int, stack: seq<Diff>, at: seq<int>, last: Text, n: Counts)
    requires Grounded(items, pos, stack, at, Some(last), n) && Trivial(Some(last), n)
    requires 0 < pos && items[pos - 1].operation != EQUAL
    ensures stack[|stack| - 1] == Diff(EQUAL, last) && |at| == |stack| && 0 <= Top(at) < pos - 1
    ensures |at| >= 2 ==> at[|at| - 2] < Top(at)
    ensures Top(at) > 0 && items[Top(at) - 1].operation == EQUAL ==> last == []
    ensures forall i :: Top(at) < i < pos ==> items[i] != Diff(EQUAL, last)
  {
    assert Top(at) != pos - 1;
    assert items[Top(at) + 1].operation != EQUAL;
  }

  /** The walk goes on from where it fell back to, whatever stands there. */
  lemma WalkingBack(items: seq<Diff>, items': seq<Diff>, pos: int, pos': int, stack: seq<Diff>, at: seq<int>,
                    last: Text, n: Counts, m: int)
    requires Grounded(items, pos, stack, at, Some(last), n) && BlanksMet(items, pos, at, Some(last))
    requires Trivial(Some(last), n) && 0 < pos && items[pos - 1].operation != EQUAL
    requires 0 < m <= |stack| - 2 && Stacked(items', stack[..m], at[..m])
    requires at[m - 1] <= pos' < Top(at) < |items'| && items'[pos'] == stack[m - 1]
    requires forall i :: 0 <= i < Top(at) ==> items'[i] == items[i]
    requires forall i :: pos' < i < Top(at) ==> items'[i] != stack[m - 1]
    ensures Walking(items', pos', stack[..m], at[..m], None, ZERO)
  {
    TopSplits(items, pos, stack, at, last, n);
    HeldBack(items, items', pos, pos', stack, at, last, n, m);
    hide BlanksHeld, Stacked;
    forall i | 0 <= i < pos' && items'[i] == BLANK ensures BeforeEqual(items', i) {
      assert items[i] == BLANK && BeforeEqual(items, i);
    }
  }

  lemma HeldBack(items: seq<Diff>, items': seq<Diff>, pos: int, pos': int, stack: seq<Diff>, at: seq<int>, last: Text,
                 n: Counts, m: int)
    requires Grounded(items, pos, stack, at, Some(last), n) && BlanksMet(items, pos, at, Some(last))
    requires Trivial(Some(last), n) && 0 < pos && items[pos - 1].operation != EQUAL
    requires 0 < m <= |stack| - 2 && |at| == |stack| && at[m - 1] <= pos' < Top(at) < |items'|
    requires items'[pos'] == stack[m - 1]
    requires forall i :: 0 <= i < Top(at) ==> items'[i] == items[i]
    requires forall i :: pos' < i < Top(at) ==> items'[i] != stack[m - 1]
    ensures BlanksHeld(items', pos', at[..m])
  {
    var at' := at[..m];
    forall k | 0 <= k < m && 0 <= at'[k] < |items'| && items'[at'[k]] == BLANK && Held(at', pos', k)
      ensures BeforeLonger(items', at'[k])
    {
      assert at'[k] == at[k] && at[k] <= at[m - 1];
      BlankHeld(items, items', pos, pos', stack, at, last, n, m, k);
    }
  }

  /** What follows a blank equality that stays on the stack was not the one split. */
  lemma BlankHeld(items: seq<Diff>, items': seq<Diff>, pos: int, pos': int, stack: seq<Diff>, at: seq<int>, last: Text,
                  n: Counts, m: int, k: int)
    requires Grounded(items, pos, stack, at, Some(last), n) && BlanksMet(items, pos, at, Some(last))
    requires Trivial(Some(last), n) && 0 < pos && items[pos - 1].operation != EQUAL
    requires 0 <= k < m <= |stack| - 2 && at[m - 1] <= pos' < Top(at) < |items'|
    requires forall i :: 0 <= i < Top(at) ==> items'[i] == items[i]
    requires forall i :: pos' < i < Top(at) ==> items'[i] != items'[pos']
    requires items[at[k]] == BLANK && (at[k] == pos' || (k + 1 < m && at[k + 1] == at[k]))
    ensures BeforeLonger(items', at[k])
  {
    var g, q := Top(at), at[k];
    TopSplits(items, pos, stack, at, last, n);
    assert q <= at[m - 1];
    assert BeforeEqual(items, q);
    if k + 1 < m && at[k + 1] == q {
      assert Held(at, pos, k) && BeforeLonger(items, q);
    }
    assert q <= at[k + 1] <= at[|at| - 2];
  }

  /** Splits the equality on top of the stack and walks back to the one two below it, or
      to the start, from where the list has to be evaluated again. */
  method SplitTrivial(c: Cursor<Diff>, thisDiff: Diff, equalities: seq<Diff>, last: Text, ghost at: seq<int>,
                      ghost n: Counts)
    returns (equalities': seq<Diff>, ghost at': seq<int>)
    requires c.Valid() && Grounded(c.items, c.pos, equalities, at, Some(last), n)
    requires BlanksMet(c.items, c.pos, at, Some(last)) && Trivial(Some(last), n)
    requires thisDiff.operation != EQUAL && 0 < c.pos && c.items[c.pos - 1] == thisDiff
    modifies c
    ensures c.Valid() && Splits(c.items, old(c.items))
    ensures Walking(c.items, c.pos, equalities', at', None, ZERO)
    ensures 0 <= Top(at) < old(c.pos) && old(c.items)[Top(at)] == Diff(EQUAL, last)
    ensures c.items == Divide(old(c.items), Top(at))
    ensures c.pos <= Top(at) && (c.pos == 0 || c.items[c.pos].operation == EQUAL)
  {
    hide Splits, Grounded, BlanksMet, Walking, Trivial, Stacked;
    ghost var items, pos := c.items, c.pos;
    GroundedStack(items, pos, equalities, at, last, n);
    TopSplits(items, pos, equalities, at, last, n);
    var top := equalities[|equalities| - 1];
    WalkBack(c, thisDiff, top, Top(at));
    ghost var g := c.last;
    assert g == Top(at);
    SplitEqual(c, last);
    AfterSplit(items, c.items, last, g);
    equalities' := equalities[..|equalities| - 1];
    if equalities' != [] {
      equalities' := equalities'[..|equalities'| - 1];
    }
    var m := |equalities'|;
    at' := at[..m];
    assert equalities' == equalities[..m];
    if equalities' == [] {
      BackToStart(c);
      WalkingStart(c.items);
    } else {
      StackedBelow(items, c.items, equalities, at, g, m);
      BackUpTo(c, equalities'[m - 1], Top(at'));
      WalkingBack(items, c.items, pos, c.pos, equalities, at, last, n, m);
    }
  }

  lemma AfterSplit(items: seq<Diff>, items': seq<Diff>, last: Text, g: nat)
    requires g < |items| && items[g] == Diff(EQUAL, last) && items' == Divide(items, g)
    ensures |items'| == |items| + 1 && items'[g].operation != EQUAL && items'[g + 1].operation != EQUAL
    ensures forall i :: 0 <= i < g ==> items'[i] == items[i]
  {
  }

  lemma StackedBelow(items: seq<Diff>, items': seq<Diff>, stack: seq<Diff>, at: seq<int>, g: int, m: int)
    requires Stacked(items, stack, at) && 0 < m <= |stack| - 2 && at[|at| - 2] < g
    requires 0 <= g <= |items| <= |items'| && forall i :: 0 <= i < g ==> items'[i] == items[i]
    ensures |at| == |stack| && Stacked(items', stack[..m], at[..m])
    ensures 0 <= at[m - 1] < g && Top(at[..m]) == at[m - 1] && items'[at[m - 1]] == stack[m - 1]
    ensures stack[m - 1].operation == EQUAL
  {
    assert at[m - 1] <= at[|at| - 2];
    assert items'[..g] == items[..g];
    StackedAfterSplit(items, items', stack, at, g, m);
  }

  lemma GroundedStack(items: seq<Diff>, pos: int, stack: seq<Diff>, at: seq<int>, last: Text, n: Counts)
    requires Grounded(items, pos, stack, at, Some(last), n)
    ensures Stacked(items, stack, at) && stack != [] && pos <= |items|
  {
  }

  lemma WalkingStart(items: seq<Diff>)
    ensures Walking(items, 0, [], [], None, ZERO)
  {
  }

  // ----- when there is something to eliminate -----

  /** The equality at `i` is no longer than the edits on either side of it. */
  ghost predicate TrivialAt(ds: seq<Diff>, i: nat) {
    && i < |ds| && ds[i].operation == EQUAL
    && var before, after := EditsBefore(ds, i), EditsFrom(ds, i + 1);
       && after != [] && |ds[i].text| <= Max(|Text2(before)|, |Text1(before)|)
       && |ds[i].text| <= Max(|Text2(after)|, |Text1(after)|)
  }

  /** How many of the first `k` diffs are trivial equalities. */
  ghost function TrivialCount(ds: seq<Diff>, k: nat): nat
    requires k <= |ds|
  {
    if k == 0 then 0 else TrivialCount(ds, k - 1) + if TrivialAt(ds, k - 1) then 1 else 0
  }

  lemma {:induction false} TrivialCounted(ds: seq<Diff>, i: nat, k: nat)
    requires i < k <= |ds| && TrivialAt(ds, i)
    ensures TrivialCount(ds, k) > 0
    decreases k
  {
    if i < k - 1 { TrivialCounted(ds, i, k - 1); }
  }

  /** Edits are not trivial equalities. */
  lemma {:induction false} CountPast(ds: seq<Diff>, k: nat, m: nat)
    requires k < m <= |ds| && forall j :: k < j < m ==> ds[j].operation != EQUAL
    ensures TrivialCount(ds, m) == TrivialCount(ds, k) + if TrivialAt(ds, k) then 1 else 0
    decreases m
  {
    if k < m - 1 { CountPast(ds, k, m - 1); }
  }

  /** `es` is `ds` with `n` equalities split one after another, each trivial in the list as it
      then was. */
  ghost predicate Eliminates(ds: seq<Diff>, es: seq<Diff>, n: nat)
    decreases n
  {
    if n == 0 then es == ds
    else
      exists mid, g: nat :: Eliminates(ds, mid, n - 1) && g < |mid| && TrivialAt(mid, g) && es == Divide(mid, g)
  }

  lemma {:induction false} EliminatesFirst(ds: seq<Diff>, es: seq<Diff>, n: nat)
    requires Eliminates(ds, es, n) && n > 0
    ensures exists i :: TrivialAt(ds, i)
    decreases n
  {
    hide TrivialAt;
    var mid, g: nat :| Eliminates(ds, mid, n - 1) && g < |mid| && TrivialAt(mid, g) && es == Divide(mid, g);
    if n > 1 { EliminatesFirst(ds, mid, n - 1); }
  }

  /** The counts are no more than what the runs on both sides of the last equality hold. */
  ghost predicate Within(items: seq<Diff>, pos: nat, at: seq<int>, last: Option<Text>, n: Counts) {
    && pos <= |items| && (last.Some? ==> 0 <= Top(at) < pos)
    && n.insertions2 <= |Text2(EditsBefore(items, pos))| && n.deletions2 <= |Text1(EditsBefore(items, pos))|
    && (last.Some? ==> n.insertions1 <= |Text2(EditsBefore(items, Top(at)))|
                       && n.deletions1 <= |Text1(EditsBefore(items, Top(at)))|)
  }

  lemma WithinEdit(items: seq<Diff>, pos: nat, at: seq<int>, last: Option<Text>, n: Counts, n': Counts)
    requires Within(items, pos, at, last, n) && pos < |items| && items[pos].operation != EQUAL
    requires n' == Counted(items[pos], n)
    ensures Within(items, pos + 1, at, last, n')
  {
    WithLast(EditsBefore(items, pos), items[pos]);
  }

  /** What the counts call trivial is trivial in the list. */
  lemma WithinTrivial(items: seq<Diff>, pos: nat, at: seq<int>, last: Text, n: Counts)
    requires Within(items, pos, at, Some(last), n) && Trivial(Some(last), n)
    requires LastEqual(items, pos, Top(at)) && items[Top(at)].text == last && items[pos - 1].operation != EQUAL
    ensures TrivialAt(items, Top(at))
  {
    RunSeen(items, pos, Top(at));
    Concat(EditsBefore(items, pos), EditsFrom(items, pos));
    assert EditsBefore(items, pos) != [];
  }

  /** The counts after one more edit. */
  function Counted(d: Diff, n: Counts): Counts {
    if d.operation == INSERT then n.(insertions2 := n.insertions2 + |d.text|)
    else n.(deletions2 := n.deletions2 + |d.text|)
  }

  /** The counts hold what the run before the cursor holds; or the walk fell back to before an
      equality, which starts them anew. */
  ghost predicate Full(items: seq<Diff>, pos: nat, front: nat, n: Counts) {
    && pos <= front <= |items|
    && ((n.insertions2 == |Text2(EditsBefore(items, pos))| && n.deletions2 == |Text1(EditsBefore(items, pos))|)
        || (pos < front && items[pos].operation == EQUAL))
  }

  /** The first `m` diffs of `ds` were met, and every trivial equality among them was split;
      the equality at `k` is met for the first time, its run not yet passed. */
  ghost predicate Seen(ds: seq<Diff>, items: seq<Diff>, pos: nat, m: nat, k: int, last: Option<Text>, n: Counts) {
    var front := |items| - (|ds| - m);
    && m <= |ds| && front >= 0 && Reached(ds, items, m, front) && Full(items, pos, front, n)
    && (if k < 0 then EqualCount(items) + TrivialCount(ds, m) <= EqualCount(ds)
        else pos == front && LastEqual(ds, m, k) && last == Some(ds[k].text)
             && n.insertions1 >= |Text2(EditsBefore(ds, k))| && n.deletions1 >= |Text1(EditsBefore(ds, k))|
             && EqualCount(items) + TrivialCount(ds, k) <= EqualCount(ds))
  }

  /** The equality at `k` is not trivial as far as its run was passed. */
  ghost predicate Undecided(ds: seq<Diff>, m: nat, k: int, last: Option<Text>, n: Counts)
    requires m <= |ds|
  {
    k < 0 || EditsBefore(ds, m) == [] || !Trivial(last, n)
  }

  /** The elimination's whole effect: each equality split was trivial in the list as it was
      then, and all that were trivial from the start are gone. */
  ghost predicate Reduces(ds: seq<Diff>, es: seq<Diff>) {
    EqualCount(es) + TrivialCount(ds, |ds|) <= EqualCount(ds) && Eliminates(ds, es, EqualCount(ds) - EqualCount(es))
  }

  /** What stands before `i` and after it in a list was made of what did, and the diff at `i`
      is still between. */
  ghost predicate Stays(ds: seq<Diff>, i: nat, es: seq<Diff>)
    requires i < |ds|
  {
    exists j: nat :: j < |es| && es[j] == ds[i] && SameTexts(es[..j], ds[..i]) && SameTexts(es[j + 1..], ds[i + 1..])
  }

  /** Three units inserted, three equal, two inserted, one equal, two inserted. */
  function Neighbours(): seq<Diff> {
    [Diff(INSERT, [1, 1, 1]), Diff(EQUAL, [2, 2, 2]), Diff(INSERT, [3, 3]), Diff(EQUAL, [4]), Diff(INSERT, [5, 5])]
  }

  lemma NeighboursRuns()
    ensures var ds := Neighbours();
            && EditsBefore(ds, 1) == [ds[0]] && EditsFrom(ds, 2) == [ds[2]]
            && EditsBefore(ds, 3) == [ds[2]] && EditsFrom(ds, 4) == [ds[4]]
  {
    var ds := Neighbours();
    assert EditsBefore(ds, 0) == EditsBefore(ds, 2) == EditsFrom(ds, 3) == EditsFrom(ds, 5) == [];
  }

  lemma DividedRuns()
    ensures var ds, es := Neighbours(), Divide(Neighbours(), 3);
            && |es| == 6 && es[1] == ds[1] && EditsBefore(es, 1) == [ds[0]]
            && EditsFrom(es, 2) == [ds[2], Diff(DELETE, [4])] + [Diff(INSERT, [4]), ds[4]]
  {
    var es := Divide(Neighbours(), 3);
    assert EditsBefore(es, 0) == EditsFrom(es, 6) == [];
    assert EditsFrom(es, 5) == [es[5]];
    assert EditsFrom(es, 4) == [es[4], es[5]];
    assert EditsFrom(es, 3) == [es[3], es[4], es[5]];
  }

  /** An equality longer than the edits on one side need not stay: its neighbour divided, there
      are more of them. */
  lemma Overtaken()
    ensures var ds := Neighbours(); !TrivialAt(ds, 1) && TrivialAt(ds, 3) && TrivialAt(Divide(ds, 3), 1)
  {
    var ds := Neighbours();
    NeighboursRuns();
    DividedRuns();
    hide EditsBefore, EditsFrom, Divide, Text1, Text2;
    Single(ds[0]);
    Single(ds[2]);
    Single(ds[4]);
    Concat([ds[2], Diff(DELETE, [4])], [Diff(INSERT, [4]), ds[4]]);
    Pair(ds[2], Diff(DELETE, [4]));
    Pair(Diff(INSERT, [4]), ds[4]);
  }

  /** An equality longer than both texts on one side of it stays, whatever is eliminated. */
  lemma {:induction false} LongStays(ds: seq<Diff>, i: nat, es: seq<Diff>, n: nat)
    requires Eliminates(ds, es, n) && i < |ds| && ds[i].operation == EQUAL
    requires || |ds[i].text| > Max(|Text1(ds[..i])|, |Text2(ds[..i])|)
             || |ds[i].text| > Max(|Text1(ds[i + 1..])|, |Text2(ds[i + 1..])|)
    ensures Stays(ds, i, es)
    decreases n
  {
    hide TrivialAt, Text1, Text2;
    if n == 0 {
      assert es[i] == ds[i];
    } else {
      var mid, g: nat :| Eliminates(ds, mid, n - 1) && g < |mid| && TrivialAt(mid, g) && es == Divide(mid, g);
      LongStays(ds, i, mid, n - 1);
      var j: nat :| j < |mid| && mid[j] == ds[i] && SameTexts(mid[..j], ds[..i])
                    && SameTexts(mid[j + 1..], ds[i + 1..]);
      LongSplit(mid, j, g);
      TrivialEqual(mid, g);
      DividedAround(mid, g, j);
    }
  }

  lemma TrivialEqual(ds: seq<Diff>, g: nat)
    requires TrivialAt(ds, g)
    ensures g < |ds| && ds[g].operation == EQUAL
  {
  }

  /** What is trivial is no longer than the texts on either side. */
  lemma LongSplit(ds: seq<Diff>, j: nat, g: nat)
    requires j < |ds| && TrivialAt(ds, g)
    requires || |ds[j].text| > Max(|Text1(ds[..j])|, |Text2(ds[..j])|)
             || |ds[j].text| > Max(|Text1(ds[j + 1..])|, |Text2(ds[j + 1..])|)
    ensures g != j
  {
    hide Text1, Text2, EditsBefore, EditsFrom;
    RunsWithin(ds, g);
  }

  lemma RunsWithin(ds: seq<Diff>, i: nat)
    requires i < |ds|
    ensures |Text1(EditsBefore(ds, i))| <= |Text1(ds[..i])| && |Text2(EditsBefore(ds, i))| <= |Text2(ds[..i])|
    ensures |Text1(EditsFrom(ds, i + 1))| <= |Text1(ds[i + 1..])|
    ensures |Text2(EditsFrom(ds, i + 1))| <= |Text2(ds[i + 1..])|
  {
    RunBeforeWithin(ds, i);
    RunFromWithin(ds, i + 1);
  }

  lemma {:induction false} RunBeforeWithin(ds: seq<Diff>, i: nat)
    requires i <= |ds|
    ensures |Text1(EditsBefore(ds, i))| <= |Text1(ds[..i])| && |Text2(EditsBefore(ds, i))| <= |Text2(ds[..i])|
  {
    if i > 0 && ds[i - 1].operation != EQUAL {
      RunBeforeWithin(ds, i - 1);
      assert ds[..i] == ds[..i - 1] + [ds[i - 1]];
      WithLast(ds[..i - 1], ds[i - 1]);
      WithLast(EditsBefore(ds, i - 1), ds[i - 1]);
    }
  }

  lemma {:induction false} RunFromWithin(ds: seq<Diff>, i: nat)
    requires i <= |ds|
    ensures |Text1(EditsFrom(ds, i))| <= |Text1(ds[i..])| && |Text2(EditsFrom(ds, i))| <= |Text2(ds[i..])|
    decreases |ds| - i
  {
    if i < |ds| && ds[i].operation != EQUAL {
      RunFromWithin(ds, i + 1);
      assert ds[i..] == [ds[i]] + ds[i + 1..];
      WithFirst(ds[i], ds[i + 1..]);
      WithFirst(ds[i], EditsFrom(ds, i + 1));
    }
  }

  /** A split on one side of `j` keeps the texts on both sides. */
  lemma DividedAround(ds: seq<Diff>, g: nat, j: nat)
    requires g < |ds| && j < |ds| && g != j && ds[g].operation == EQUAL
    ensures var es, k := Divide(ds, g), if g < j then j + 1 else j;
            es[k] == ds[j] && SameTexts(es[..k], ds[..j]) && SameTexts(es[k + 1..], ds[j + 1..])
  {
    hide Text1, Text2;
    var es := Divide(ds, g);
    if g < j {
      assert es[..j + 1] == Divide(ds[..j], g) && es[j + 2..] == ds[j + 1..];
      DivideTexts(ds[..j], g);
    } else {
      assert es[..j] == ds[..j] && es[j + 1..] == Divide(ds[j + 1..], g - j - 1);
      DivideTexts(ds[j + 1..], g - j - 1);
    }
  }

  lemma DivideTexts(ds: seq<Diff>, g: nat)
    requires g < |ds| && ds[g].operation == EQUAL
    ensures SameTexts(Divide(ds, g), ds)
  {
    SplitTexts(ds[..g], ds[g].text, ds[g + 1..]);
    assert ds == ds[..g] + [Diff(EQUAL, ds[g].text)] + ds[g + 1..];
  }

  lemma SeenStart(ds: seq<Diff>)
    ensures Seen(ds, ds, 0, 0, -1, None, ZERO)
  {
    ReachedStart(ds);
  }

  /** Once its run is passed, an equality still there is not trivial. */
  lemma SeenPassed(ds: seq<Diff>, items: seq<Diff>, pos: nat, m: nat, k: int, last: Option<Text>, n: Counts)
    requires Seen(ds, items, pos, m, k, last, n) && Undecided(ds, m, k, last, n)
    requires m == |ds| || ds[m].operation == EQUAL
    ensures EqualCount(items) + TrivialCount(ds, m) <= EqualCount(ds)
  {
    hide Reached, Full, TrivialCount, TrivialAt, Text1, Text2, EqualCount, EditsBefore;
    if k >= 0 {
      SeenCounts(ds, items, pos, m, k, last, n);
      hide Seen;
      NotTrivial(ds, m, k, n);
      CountPast(ds, k, m);
    }
  }

  /** The counts around an equality met for the first time are no less than in the list as it
      was given. */
  lemma SeenCounts(ds: seq<Diff>, items: seq<Diff>, pos: nat, m: nat, k: int, last: Option<Text>, n: Counts)
    requires Seen(ds, items, pos, m, k, last, n) && k >= 0
    ensures LastEqual(ds, m, k) && last == Some(ds[k].text)
    ensures n.insertions1 >= |Text2(EditsBefore(ds, k))| && n.deletions1 >= |Text1(EditsBefore(ds, k))|
    ensures n.insertions2 >= |Text2(EditsBefore(ds, m))| && n.deletions2 >= |Text1(EditsBefore(ds, m))|
    ensures EqualCount(items) + TrivialCount(ds, k) <= EqualCount(ds)
  {
    ReachedRun(ds, items, m, |items| - (|ds| - m));
    hide Reached, TrivialCount, Text1, Text2, EqualCount, EditsBefore;
  }

  lemma NotTrivial(ds: seq<Diff>, m: nat, k: int, n: Counts)
    requires LastEqual(ds, m, k) && k >= 0 && (m == |ds| || ds[m].operation == EQUAL)
    requires EditsBefore(ds, m) == [] || !Trivial(Some(ds[k].text), n)
    requires n.insertions1 >= |Text2(EditsBefore(ds, k))| && n.deletions1 >= |Text1(EditsBefore(ds, k))|
    requires n.insertions2 >= |Text2(EditsBefore(ds, m))| && n.deletions2 >= |Text1(EditsBefore(ds, m))|
    ensures !TrivialAt(ds, k)
  {
    RunPassed(ds, m, k);
    hide Text1, Text2, EditsBefore, EditsFrom;
  }

  lemma SeenEqual(ds: seq<Diff>, items: seq<Diff>, pos: nat, m: nat, k: int, last: Option<Text>, n: Counts)
    returns (m': nat, k': int)
    requires Seen(ds, items, pos, m, k, last, n) && Undecided(ds, m, k, last, n)
    requires pos < |items| && items[pos].operation == EQUAL
    ensures m' <= |ds|
    ensures var n', last' := Counts(n.insertions2, n.deletions2, 0, 0), Some(items[pos].text);
            Seen(ds, items, pos + 1, m', k', last', n') && Undecided(ds, m', k', last', n')
  {
    hide Text1, Text2, EditsBefore, Reached, TrivialCount, TrivialAt, EqualCount, Trivial;
    var front := |items| - (|ds| - m);
    NothingBefore(items, pos);
    if pos < front {
      m', k' := m, -1;
    } else {
      m', k' := m + 1, m;
      ReachedNext(ds, items, m, front);
      ReachedRun(ds, items, m, front);
      SeenPassed(ds, items, pos, m, k, last, n);
      NothingBefore(ds, m);
    }
  }

  /** After an equality no run is open. */
  lemma NothingBefore(ds: seq<Diff>, i: nat)
    requires i < |ds| && ds[i].operation == EQUAL
    ensures EditsBefore(ds, i + 1) == [] && Text1(EditsBefore(ds, i + 1)) == Text2(EditsBefore(ds, i + 1)) == []
    ensures LastEqual(ds, i + 1, i)
  {
  }

  lemma SeenEdit(ds: seq<Diff>, items: seq<Diff>, pos: nat, m: nat, k: int, last: Option<Text>, n: Counts)
    returns (m': nat)
    requires Seen(ds, items, pos, m, k, last, n) && pos < |items| && items[pos].operation != EQUAL
    ensures m' <= |ds| && Seen(ds, items, pos + 1, m', k, last, Counted(items[pos], n))
  {
    hide Text1, Text2, Reached, TrivialCount, TrivialAt, EqualCount;
    var front := |items| - (|ds| - m);
    RunGrows(items, pos);
    if pos < front {
      m' := m;
    } else {
      m' := m + 1;
      ReachedNext(ds, items, m, front);
      EditNotCounted(ds, m);
    }
    hide EditsBefore;
  }

  lemma RunGrows(ds: seq<Diff>, i: nat)
    requires i < |ds| && ds[i].operation != EQUAL
    ensures var run, d := EditsBefore(ds, i), ds[i];
            && |Text1(EditsBefore(ds, i + 1))| == |Text1(run)| + (if d.operation == INSERT then 0 else |d.text|)
            && |Text2(EditsBefore(ds, i + 1))| == |Text2(run)| + (if d.operation == DELETE then 0 else |d.text|)
  {
    WithLast(EditsBefore(ds, i), ds[i]);
    hide Text1, Text2;
  }

  lemma EditNotCounted(ds: seq<Diff>, m: nat)
    requires m < |ds| && ds[m].operation != EQUAL
    ensures TrivialCount(ds, m + 1) == TrivialCount(ds, m)
  {
  }

  lemma SeenSplit(ds: seq<Diff>, items: seq<Diff>, pos: nat, m: nat, k: int, last: Option<Text>, n: Counts, g: nat,
                  pos': nat)
    requires Seen(ds, items, pos, m, k, last, n) && g < pos && items[g].operation == EQUAL
    requires EqualCount(Divide(items, g)) < EqualCount(items)
    requires pos' <= g && (pos' == 0 || Divide(items, g)[pos'].operation == EQUAL)
    ensures Seen(ds, Divide(items, g), pos', m, -1, None, ZERO)
  {
    hide Text1, Text2, Reached, TrivialCount, TrivialAt, EqualCount;
    var front := |items| - (|ds| - m);
    ReachedDivided(ds, items, m, front, g);
    if k >= 0 { CountPast(ds, k, m); }
    StartsAnew(Divide(items, g), pos');
    hide EditsBefore, Divide;
  }

  lemma StartsAnew(ds: seq<Diff>, pos: nat)
    requires pos <= |ds|
    ensures pos == 0 ==> Text1(EditsBefore(ds, pos)) == Text2(EditsBefore(ds, pos)) == []
  {
  }

  /** Eliminates equalities no longer than the edits around them, walking back after each.
      Each was trivial in the list as it was when it was split, and every equality trivial in
      the list as it was given is among them. */
  method EliminateTrivial(c: Cursor<Diff>) returns (changes: bool)
    requires c.Valid() && c.pos == 0
    modifies c
    ensures c.Valid() && SameTexts(c.items, old(c.items)) && KeepsSolid(old(c.items), c.items)
    ensures changes <==> exists i :: TrivialAt(old(c.items), i)
    ensures if changes then EqualCount(c.items) < EqualCount(old(c.items)) else c.items == old(c.items)
    ensures Reduces(old(c.items), c.items)
  {
    hide Seen, Undecided, Within, TrivialAt, TrivialCount, Eliminates, Walking, Grounded, BlanksMet, EqualCount, Divide;
    ghost var ds, k, m: nat := c.items, -1, 0;
    SeenStart(ds);
    WalkingStart(ds);
    EliminatesStart(ds);
    changes := false;
    var equalities: seq<Diff> := [];
    ghost var at: seq<int> := [];
    var last: Option<Text> := None;
    var n := ZERO;
    UndecidedNow(ds, m, k, last, n);
    WithinStart(ds, 0, at);
    while c.HasNext()
      invariant c.Valid() && Walking(c.items, c.pos, equalities, at, last, n) && m <= |ds|
      invariant SameTexts(c.items, ds) && KeepsSolid(ds, c.items)
      invariant EqualCount(c.items) <= EqualCount(ds)
      invariant if changes then EqualCount(c.items) < EqualCount(ds) else c.items == ds
      invariant Eliminates(ds, c.items, EqualCount(ds) - EqualCount(c.items))
      invariant Seen(ds, c.items, c.pos, m, k, last, n) && Undecided(ds, m, k, last, n)
      invariant Within(c.items, c.pos, at, last, n)
      decreases EqualCount(c.items), |c.items| - c.pos
    {
      ghost var items, pos := c.items, c.pos;
      var d := c.Next();
      if d.operation == EQUAL {
        WalkingEqual(items, pos, equalities, at, last, n);
        WithinEqual(items, pos, at, last, n);
        m, k := SeenEqual(ds, items, pos, m, k, last, n);
        equalities := equalities + [d];
        at := at + [pos];
        n := Counts(n.insertions2, n.deletions2, 0, 0);
        last := Some(d.text);
      } else {
        var n' := if d.operation == INSERT then n.(insertions2 := n.insertions2 + |d.text|)
                  else n.(deletions2 := n.deletions2 + |d.text|);
        WalkingEdit(items, pos, equalities, at, last, n, n');
        WithinEdit(items, pos, at, last, n, n');
        m := SeenEdit(ds, items, pos, m, k, last, n);
        n := n';
        if Trivial(last, n) {
          GroundedTop(items, pos + 1, equalities, at, last.value, n);
          WithinTrivial(items, pos + 1, at, last.value, n);
          ghost var g := Top(at);
          equalities, at := SplitTrivial(c, d, equalities, last.value, at, n);
          SeenSplit(ds, items, pos + 1, m, k, last, n, g, c.pos);
          EliminatesNext(ds, items, EqualCount(ds) - EqualCount(items), g);
          WithinStart(c.items, c.pos, at);
          n := ZERO;
          last := None;
          changes := true;
          k := -1;
        }
        UndecidedNow(ds, m, k, last, n);
      }
    }
    SeenEnd(ds, c.items, m, k, last, n);
    if changes { EliminatesFirst(ds, c.items, EqualCount(ds) - EqualCount(c.items)); } else { NoneTrivial(ds); }
  }

  lemma UndecidedNow(ds: seq<Diff>, m: nat, k: int, last: Option<Text>, n: Counts)
    requires m <= |ds| && !Trivial(last, n)
    ensures Undecided(ds, m, k, last, n)
  {
  }

  lemma GroundedTop(items: seq<Diff>, pos: int, stack: seq<Diff>, at: seq<int>, last: Text, n: Counts)
    requires Grounded(items, pos, stack, at, Some(last), n) && 0 < pos && items[pos - 1].operation != EQUAL
    ensures LastEqual(items, pos, Top(at)) && 0 <= Top(at) && items[Top(at)].text == last
  {
  }

  lemma WithinEqual(items: seq<Diff>, pos: nat, at: seq<int>, last: Option<Text>, n: Counts)
    requires Within(items, pos, at, last, n) && pos < |items| && items[pos].operation == EQUAL
    ensures Within(items, pos + 1, at + [pos], Some(items[pos].text), Counts(n.insertions2, n.deletions2, 0, 0))
  {
  }

  lemma WithinStart(items: seq<Diff>, pos: nat, at: seq<int>)
    requires pos <= |items|
    ensures Within(items, pos, at, None, ZERO)
  {
  }

  lemma EliminatesStart(ds: seq<Diff>)
    ensures Eliminates(ds, ds, 0)
  {
  }

  lemma EliminatesNext(ds: seq<Diff>, items: seq<Diff>, n: nat, g: nat)
    requires Eliminates(ds, items, n) && TrivialAt(items, g)
    ensures Eliminates(ds, Divide(items, g), n + 1)
  {
  }

  lemma SeenEnd(ds: seq<Diff>, items: seq<Diff>, m: nat, k: int, last: Option<Text>, n: Counts)
    requires Seen(ds, items, |items|, m, k, last, n) && Undecided(ds, m, k, last, n)
    ensures EqualCount(items) + TrivialCount(ds, |ds|) <= EqualCount(ds)
  {
    assert m == |ds|;
    SeenPassed(ds, items, |items|, m, k, last, n);
  }

  lemma NoneTrivial(ds: seq<Diff>)
    requires EqualCount(ds) + TrivialCount(ds, |ds|) <= EqualCount(ds)
    ensures forall i :: !TrivialAt(ds, i)
  {
    forall i ensures !TrivialAt(ds, i) {
      if TrivialAt(ds, i) { TrivialCounted(ds, i, |ds|); }
    }
  }

  // ----- overlaps between deletions and insertions -----

  /** A deletion and an insertion with their shared stretch made an equality. */
  function Forward(deletion: Text, insertion: Text, n: nat): seq<Diff>
    requires n <= |deletion| && n <= |insertion|
  {
    [Diff(DELETE, deletion[..|deletion| - n]), Diff(EQUAL, insertion[..n]), Diff(INSERT, insertion[n..])]
  }

  /** The reverse overlap also swaps the two edits. */
  function Backward(deletion: Text, insertion: Text, n: nat): seq<Diff>
    requires n <= |deletion| && n <= |insertion|
  {
    [Diff(INSERT, insertion[..|insertion| - n]), Diff(EQUAL, deletion[..n]), Diff(DELETE, deletion[n..])]
  }

  lemma TripleTexts(d: Diff, e: Diff, f: Diff)
    ensures Text1([d, e, f]) == (if d.operation == INSERT then [] else d.text)
      + (if e.operation == INSERT then [] else e.text) + (if f.operation == INSERT then [] else f.text)
    ensures Text2([d, e, f]) == (if d.operation == DELETE then [] else d.text)
      + (if e.operation == DELETE then [] else e.text) + (if f.operation == DELETE then [] else f.text)
    ensures EditCost([d, e, f]) == (if d.operation == EQUAL then 0 else |d.text|)
      + (if e.operation == EQUAL then 0 else |e.text|) + (if f.operation == EQUAL then 0 else |f.text|)
  {
    Triple(d, e, f);
    Single(d);
    Single(e);
    Single(f);
  }

  lemma ForwardTexts(deletion: Text, insertion: Text, n: nat)
    requires Overlaps(deletion, insertion, n)
    ensures SameTexts(Forward(deletion, insertion, n), Pending(deletion, insertion))
    ensures EditCost(Forward(deletion, insertion, n)) == EditCost(Pending(deletion, insertion)) - 2 * n
  {
    var p, o, q := deletion[..|deletion| - n], insertion[..n], insertion[n..];
    assert deletion == p + o && insertion == o + q;
    PendingTexts(deletion, insertion);
    TripleTexts(Diff(DELETE, p), Diff(EQUAL, o), Diff(INSERT, q));
    assert p + o + [] == p + o && [] + o + q == o + q;
  }

  lemma BackwardTexts(deletion: Text, insertion: Text, n: nat)
    requires Overlaps(insertion, deletion, n)
    ensures SameTexts(Backward(deletion, insertion, n), Pending(deletion, insertion))
    ensures EditCost(Backward(deletion, insertion, n)) == EditCost(Pending(deletion, insertion)) - 2 * n
  {
    var p, o, q := insertion[..|insertion| - n], deletion[..n], deletion[n..];
    assert insertion == p + o && deletion == o + q;
    PendingTexts(deletion, insertion);
    TripleTexts(Diff(INSERT, p), Diff(EQUAL, o), Diff(DELETE, q));
    assert p + o + [] == p + o && [] + o + q == o + q;
  }

  /** Writes `first`, a new equality and `second` over a deletion and an insertion just
      stepped over; the cursor ends after the equality. */
  method Interpose(c: Cursor<Diff>, i: nat, first: Diff, equality: Diff, second: Diff)
    requires c.Valid() && c.pos == i + 2
    modifies c
    ensures c.Valid() && c.pos == i + 2
    ensures c.items == old(c.items[..i]) + [first, equality, second] + old(c.items[i + 2..])
  {
    var _ := c.Previous();
    c.Insert(equality);
    c.SetAt(i, first);
    c.SetAt(i + 2, second);
  }

  /** A deletion and an insertion with overlaps of `n1` and, reversed, `n2` units: the longer
      one is made an equality when it is at least half as long as one of them. */
  function Parted(deletion: Text, insertion: Text, n1: nat, n2: nat): (r: seq<Diff>)
    requires n1 <= |deletion| && n1 <= |insertion| && n2 <= |deletion| && n2 <= |insertion|
    ensures 2 <= |r| <= 3
  {
    var n := Max(n1, n2);
    if 2 * n < |deletion| && 2 * n < |insertion| then [Diff(DELETE, deletion), Diff(INSERT, insertion)]
    else if n1 >= n2 then Forward(deletion, insertion, n1)
    else Backward(deletion, insertion, n2)
  }

  /** A deletion and then an insertion stand at `i`. */
  predicate Replacing(ds: seq<Diff>, i: nat) {
    i + 1 < |ds| && ds[i].operation == DELETE && ds[i + 1].operation == INSERT
  }

  /** The longest overlaps of the deletion and the insertion at `i`. */
  ghost predicate OverlapsAt(ds: seq<Diff>, i: nat, n1: nat, n2: nat)
    requires i + 1 < |ds|
  {
    LongestOverlap(ds[i].text, ds[i + 1].text, n1) && LongestOverlap(ds[i + 1].text, ds[i].text, n2)
  }

  /** From the pair at `i` on, each deletion followed by an insertion is parted by its longer
      overlap, and `es` is what results. */
  ghost predicate Extracts(ds: seq<Diff>, i: nat, es: seq<Diff>)
    decreases |ds| - i
  {
    if i + 1 >= |ds| then es == ds
    else if Replacing(ds, i) then
      exists n1, n2 :: OverlapsAt(ds, i, n1, n2)
        && Extracts(ds[..i] + Parted(ds[i].text, ds[i + 1].text, n1, n2) + ds[i + 2..], i + 2, es)
    else Extracts(ds, i + 1, es)
  }

  /** Whatever the extraction makes of `es` from `k` on, it makes of `ds` from the start. */
  ghost predicate Resumes(ds: seq<Diff>, es: seq<Diff>, k: nat) {
    forall fs :: Extracts(es, k, fs) ==> Extracts(ds, 0, fs)
  }

  lemma ResumesSelf(ds: seq<Diff>)
    ensures Resumes(ds, ds, 0)
  {
  }

  lemma ResumesPast(ds: seq<Diff>, es: seq<Diff>, k: nat)
    requires Resumes(ds, es, k) && k + 1 < |es| && !Replacing(es, k)
    ensures Resumes(ds, es, k + 1)
  {
  }

  lemma ResumesParted(ds: seq<Diff>, es: seq<Diff>, k: nat, n1: nat, n2: nat, fs: seq<Diff>)
    requires Resumes(ds, es, k) && Replacing(es, k) && OverlapsAt(es, k, n1, n2)
    requires fs == es[..k] + Parted(es[k].text, es[k + 1].text, n1, n2) + es[k + 2..]
    ensures Resumes(ds, fs, k + 2)
  {
    hide OverlapsAt, Parted;
  }

  lemma ResumesDone(ds: seq<Diff>, es: seq<Diff>, k: nat)
    requires Resumes(ds, es, k) && k + 1 >= |es|
    ensures Extracts(ds, 0, es)
  {
    assert Extracts(es, k, es);
  }

  /** Extracts the longer overlap of a deletion and the insertion after it when it is at
      least half as long as one of them. */
  method ExtractOverlap(c: Cursor<Diff>, i: nat) returns (ghost n1: nat, ghost n2: nat)
    requires c.Valid() && c.pos == i + 2 && Replacing(c.items, i)
    modifies c
    ensures c.Valid() && c.pos == i + 2 && SameTexts(c.items, old(c.items))
    ensures EditCost(c.items) <= EditCost(old(c.items))
    ensures |c.items| - c.pos <= old(|c.items| - c.pos) + 1
    ensures OverlapsAt(old(c.items), i, n1, n2)
    ensures var ds := old(c.items);
            c.items == ds[..i] + Parted(ds[i].text, ds[i + 1].text, n1, n2) + ds[i + 2..]
  {
    hide Text1, Text2, EditCost, Parted, Forward, Backward, LongestOverlap;
    var deletion, insertion := c.items[i].text, c.items[i + 1].text;
    ghost var before, after := c.items[..i], c.items[i + 2..];
    assert c.items == before + [Diff(DELETE, deletion), Diff(INSERT, insertion)] + after;
    var overlap1 := CommonOverlap(deletion, insertion);
    var overlap2 := CommonOverlap(insertion, deletion);
    n1, n2 := overlap1, overlap2;
    PartedTexts(deletion, insertion, n1, n2);
    Replace(before, [Diff(DELETE, deletion), Diff(INSERT, insertion)], Parted(deletion, insertion, n1, n2), after);
    if overlap1 >= overlap2 {
      if 2 * overlap1 >= |deletion| || 2 * overlap1 >= |insertion| {
        Interpose(c, i, Diff(DELETE, deletion[..|deletion| - overlap1]), Diff(EQUAL, insertion[..overlap1]),
                  Diff(INSERT, insertion[overlap1..]));
      }
    } else {
      if 2 * overlap2 >= |deletion| || 2 * overlap2 >= |insertion| {
        Interpose(c, i, Diff(INSERT, insertion[..|insertion| - overlap2]), Diff(EQUAL, deletion[..overlap2]),
                  Diff(DELETE, deletion[overlap2..]));
      }
    }
  }

  /** What parting a deletion and an insertion comes to. */
  lemma PartedTexts(deletion: Text, insertion: Text, n1: nat, n2: nat)
    requires LongestOverlap(deletion, insertion, n1) && LongestOverlap(insertion, deletion, n2)
    ensures n1 <= |deletion| && n1 <= |insertion| && n2 <= |deletion| && n2 <= |insertion|
    ensures var pair, r := [Diff(DELETE, deletion), Diff(INSERT, insertion)], Parted(deletion, insertion, n1, n2);
            && SameTexts(pair, r) && EditCost(r) <= EditCost(pair)
            && r == if 2 * Max(n1, n2) < |deletion| && 2 * Max(n1, n2) < |insertion| then pair
                    else if n1 >= n2 then [Diff(DELETE, deletion[..|deletion| - n1]), Diff(EQUAL, insertion[..n1]),
                                           Diff(INSERT, insertion[n1..])]
                    else [Diff(INSERT, insertion[..|insertion| - n2]), Diff(EQUAL, deletion[..n2]),
                          Diff(DELETE, deletion[n2..])]
  {
    hide Text1, Text2, EditCost;
    assert Pending(deletion, insertion) == [Diff(DELETE, deletion), Diff(INSERT, insertion)];
    if n1 >= n2 { ForwardTexts(deletion, insertion, n1); } else { BackwardTexts(deletion, insertion, n2); }
  }

  /** Turns overlaps between a deletion and the insertion after it into equalities. */
  method ExtractOverlaps(c: Cursor<Diff>)
    requires c.Valid()
    modifies c
    ensures c.Valid() && SameTexts(c.items, old(c.items)) && EditCost(c.items) <= EditCost(old(c.items))
    ensures Extracts(old(c.items), 0, c.items)
  {
    hide SameTexts, EditCost, Resumes, Extracts, OverlapsAt, Parted;
    ghost var ds, k: nat := c.items, 0;
    SameTextsReflexive(ds);
    ResumesSelf(ds);
    c.ToFront();
    var prevDiff := Step(c);
    var thisDiff := Step(c);
    while thisDiff != -1
      invariant c.Valid()
      invariant thisDiff != -1 ==> thisDiff == c.pos - 1 && prevDiff == thisDiff - 1 == k
      invariant thisDiff == -1 ==> k + 1 >= |c.items|
      invariant SameTexts(c.items, ds) && EditCost(c.items) <= EditCost(ds) && Resumes(ds, c.items, k)
      decreases |c.items| - c.pos, thisDiff + 1
    {
      ghost var items := c.items;
      if c.items[prevDiff].operation == DELETE && c.items[thisDiff].operation == INSERT {
        ghost var n1, n2 := ExtractOverlap(c, prevDiff);
        SameTextsTransitive(c.items, items, ds);
        ResumesParted(ds, items, k, n1, n2, c.items);
        thisDiff := Step(c);
        k := k + 2;
      } else {
        ResumesPast(ds, items, k);
        k := k + 1;
      }
      prevDiff := thisDiff;
      thisDiff := Step(c);
    }
    ResumesDone(ds, c.items, k);
  }

  lemma SameTextsReflexive(ds: seq<Diff>)
    ensures SameTexts(ds, ds)
  {
  }

  lemma SameTextsTransitive(a: seq<Diff>, b: seq<Diff>, c: seq<Diff>)
    requires SameTexts(a, b) && SameTexts(b, c)
    ensures SameTexts(a, c)
  {
  }

  /** The stages of the semantic cleanup of `ds`, which ends with `es`. */
  ghost predicate Cleans(score: Score, ds: seq<Diff>, reduced: seq<Diff>, merged: seq<Diff>, aligned: seq<Diff>,
                         es: seq<Diff>) {
    && Reduces(ds, reduced)
    && (if exists i :: TrivialAt(ds, i)
        then SameTexts(merged, reduced) && NoWorse(merged, reduced) && Tidy(merged) && Settled(merged)
        else merged == reduced == ds)
    && Aligns(score, merged, 0, aligned) && Extracts(aligned, 0, es)
    && EditCost(es) <= EditCost(reduced)
  }

  /** The whole semantic cleanup keeps both texts. Where nothing is trivial the elimination
      does nothing; otherwise its result, `merged`, is in merge-normal form. Then the edits are
      aligned, and last the overlaps extracted. */
  method CleanupSemantic(c: Cursor<Diff>, score: Score)
    returns (ghost reduced: seq<Diff>, ghost merged: seq<Diff>, ghost aligned: seq<Diff>)
    requires c.Valid()
    modifies c
    ensures c.Valid() && SameTexts(c.items, old(c.items))
    ensures Cleans(score, old(c.items), reduced, merged, aligned, c.items)
  {
    hide Tidy, Settled, Aligns, Extracts, TrivialAt, KeepsSolid, Text1, Text2, Reduces;
    reduced, merged, aligned := c.items, c.items, c.items;
    if c.items == [] {
      NothingClean(score);
      return;
    }
    c.ToFront();
    var changes := EliminateTrivial(c);
    reduced := c.items;
    if changes {
      CleanupMerge(c);
    }
    merged := c.items;
    CleanupSemanticLossless(c, score);
    aligned := c.items;
    ExtractOverlaps(c);
  }

  lemma NothingClean(score: Score)
    ensures Aligns(score, [], 0, []) && Extracts([], 0, []) && Reduces([], []) && forall i :: !TrivialAt([], i)
  {
  }
}
