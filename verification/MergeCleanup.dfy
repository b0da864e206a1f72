/** Reorders and merges like edit sections and merges equalities. The first pass
    gathers each run of edits; the second shifts single edits over an equality they
    end or start with; shifts ask for another round. */
module MergeCleanup {
  import opened Texts
  import opened Diffs
  import opened ListCursor

  // ----- the normal form -----

  /** Both texts are non-empty and share neither their first nor their last unit. */
  predicate NothingCommon(a: Text, b: Text) {
    a != [] && b != [] && a[0] != b[0] && a[|a| - 1] != b[|b| - 1]
  }

  /** Two neighbouring edits can only be a deletion then an insertion with nothing to
      factor out. */
  predicate TidyPair(d: Diff, e: Diff) {
    d.operation == EQUAL || e.operation == EQUAL
    || (d.operation == DELETE && e.operation == INSERT && NothingCommon(d.text, e.text))
  }

  /** Every run of edits is one edit, or a deletion then an insertion. */
  ghost predicate Tidy(ds: seq<Diff>) {
    forall i :: 0 <= i < |ds| - 1 ==> TidyPair(ds[i], ds[i + 1])
  }

  /** Something between two equalities that could be slid over one of them. */
  predicate Shiftable(a: Diff, x: Diff, b: Diff) {
    a.operation == EQUAL && b.operation == EQUAL
    && (EndsWith(x.text, a.text) || StartsWith(x.text, b.text))
  }

  ghost predicate Settled(ds: seq<Diff>) {
    forall i :: 0 <= i < |ds| - 2 ==> !Shiftable(ds[i], ds[i + 1], ds[i + 2])
  }

  /** No blank text among the equalities and, if `edits`, among the edits too. */
  ghost predicate Solid(ds: seq<Diff>, edits: bool) {
    forall i :: 0 <= i < |ds| && (edits || ds[i].operation == EQUAL) ==> ds[i].text != []
  }

  ghost predicate KeepsSolid(ds: seq<Diff>, es: seq<Diff>) {
    forall edits :: Solid(ds, edits) ==> Solid(es, edits)
  }

  ghost predicate EndsEqual(ds: seq<Diff>) {
    ds == [] || ds[|ds| - 1].operation == EQUAL
  }

  // ----- one run of edits -----

  /** The edits a gathered run stands for while it is out of the list. */
  ghost function Pending(textDelete: Text, textInsert: Text): seq<Diff> {
    [Diff(DELETE, textDelete), Diff(INSERT, textInsert)]
  }

  function Merged(textDelete: Text, textInsert: Text): seq<Diff> {
    (if textDelete != [] then [Diff(DELETE, textDelete)] else [])
    + (if textInsert != [] then [Diff(INSERT, textInsert)] else [])
  }

  lemma PendingTexts(td: Text, ti: Text)
    ensures Text1(Pending(td, ti)) == td && Text2(Pending(td, ti)) == ti
    ensures EditCost(Pending(td, ti)) == |td| + |ti|
  {
    Pair(Diff(DELETE, td), Diff(INSERT, ti));
    Single(Diff(DELETE, td));
    Single(Diff(INSERT, ti));
  }

  lemma MergedTexts(td: Text, ti: Text)
    ensures SameTexts(Merged(td, ti), Pending(td, ti))
    ensures EditCost(Merged(td, ti)) == |td| + |ti|
    ensures AllEdits(Merged(td, ti)) && Solid(Merged(td, ti), true)
  {
    PendingTexts(td, ti);
    Single(Diff(DELETE, td));
    Single(Diff(INSERT, ti));
    if td != [] && ti != [] {
      assert Merged(td, ti) == Pending(td, ti);
    }
  }

  lemma WithLast(ds: seq<Diff>, d: Diff)
    ensures Text1(ds + [d]) == Text1(ds) + (if d.operation == INSERT then [] else d.text)
    ensures Text2(ds + [d]) == Text2(ds) + (if d.operation == DELETE then [] else d.text)
    ensures EditCost(ds + [d]) == EditCost(ds) + (if d.operation == EQUAL then 0 else |d.text|)
  {
    Concat(ds, [d]);
    Single(d);
  }

  lemma WithFirst(d: Diff, ds: seq<Diff>)
    ensures Text1([d] + ds) == (if d.operation == INSERT then [] else d.text) + Text1(ds)
    ensures Text2([d] + ds) == (if d.operation == DELETE then [] else d.text) + Text2(ds)
    ensures EditCost([d] + ds) == (if d.operation == EQUAL then 0 else |d.text|) + EditCost(ds)
  {
    Concat([d], ds);
    Single(d);
  }

  /** The list with `p` moved to the equality at its end, or to a new one. */
  ghost function Absorb(done: seq<Diff>, p: Text): seq<Diff>
    requires EndsEqual(done)
  {
    if p == [] then done
    else if done == [] then [Diff(EQUAL, p)]
    else done[..|done| - 1] + [Diff(EQUAL, done[|done| - 1].text + p)]
  }

  lemma Regroup(a: Text, b: Text, c: Text)
    ensures a + (b + c) == a + b + c
  {
  }

  lemma Empty()
    ensures Text1([]) == [] && Text2([]) == [] && EditCost([]) == 0
  {
  }

  lemma AbsorbTexts(done: seq<Diff>, p: Text)
    requires EndsEqual(done)
    ensures Text1(Absorb(done, p)) == Text1(done) + p
    ensures Text2(Absorb(done, p)) == Text2(done) + p
    ensures EditCost(Absorb(done, p)) == EditCost(done)
  {
    hide Text1, Text2, EditCost;
    if p != [] && done != [] {
      var init, d := done[..|done| - 1], done[|done| - 1];
      assert done == init + [d];
      WithLast(init, d);
      WithLast(init, Diff(EQUAL, d.text + p));
      Regroup(Text1(init), d.text, p);
      Regroup(Text2(init), d.text, p);
    } else if p != [] {
      Single(Diff(EQUAL, p));
      Empty();
      assert [] + p == p;
    } else {
      assert Text1(done) + p == Text1(done) && Text2(done) + p == Text2(done);
    }
  }

  lemma AbsorbShape(done: seq<Diff>, p: Text)
    requires EndsEqual(done)
    ensures var done' := Absorb(done, p);
            EndsEqual(done') && KeepsSolid(done, done') && (Tidy(done) ==> Tidy(done'))
  {
    var done' := Absorb(done, p);
    assert forall i :: 0 <= i < |done'| - 1 ==> done'[i] == done[i];
  }

  /** Moves the common prefix of the pending edits to the equality before them. */
  method FactorPrefix(c: Cursor<Diff>, td: Text, ti: Text, ghost done: seq<Diff>, ghost tail: seq<Diff>)
    returns (td': Text, ti': Text, ghost p: Text)
    requires c.Valid() && c.items == done + tail && c.pos == |done| && EndsEqual(done)
    modifies c
    ensures c.Valid() && c.items == Absorb(done, p) + tail && c.pos == |Absorb(done, p)|
    ensures td == p + td' && ti == p + ti'
    ensures td' != [] && ti' != [] ==> td'[0] != ti'[0]
  {
    var n := CommonPrefix(ti, td);
    td', ti', p := td[n..], ti[n..], ti[..n];
    if n != 0 {
      if c.HasPrevious() {
        var d := c.Previous();
        assert d.operation == EQUAL;  // anything else would raise an exception here
        c.SetValue(Diff(EQUAL, d.text + ti[..n]));
        assert c.items == Absorb(done, p) + tail;
        var _ := c.Next();
      } else {
        c.Insert(Diff(EQUAL, ti[..n]));
        assert c.items == Absorb(done, p) + tail;
      }
    }
  }

  /** No common suffix is left. */
  predicate EndsDiffer(a: Text, b: Text) {
    a != [] && b != [] ==> a[|a| - 1] != b[|b| - 1]
  }

  lemma SuffixFlipped(a: Text, b: Text)
    ensures SuffixLength(a, b) == SuffixLength(b, a)
  {
    assert ShareSuffix(a, b, SuffixLength(b, a)) && ShareSuffix(b, a, SuffixLength(a, b));
  }

  /** Cuts two texts before their longest common suffix. */
  method CutSuffix(a: Text, b: Text) returns (a': Text, b': Text, s: Text)
    ensures EndsDiffer(a', b')
    ensures a == a' + s && b == b' + s && |s| == SuffixLength(a, b)
  {
    var n := CommonSuffix(b, a);
    assert n == SuffixLength(b, a);
    SuffixFlipped(a, b);
    CutTexts(a, b, n);
    hide ShareSuffix, SuffixLength, EndsDiffer;
    a', b', s := a[..|a| - n], b[..|b| - n], b[|b| - n..];
  }

  lemma CutTexts(a: Text, b: Text, n: nat)
    requires ShareSuffix(a, b, n) && (n < |a| && n < |b| ==> a[|a| - n - 1] != b[|b| - n - 1])
    ensures var a', b', s := a[..|a| - n], b[..|b| - n], b[|b| - n..];
            EndsDiffer(a', b') && a == a' + s && b == b' + s
  {
    assert a[|a| - n..] == b[|b| - n..];
    hide ShareSuffix;
  }

  /** Prepends `s` to the equality after the cursor, which stays where it is. */
  method PushSuffix(c: Cursor<Diff>, s: Text, ghost done: seq<Diff>, ghost eq: Diff, ghost rest: seq<Diff>)
    requires c.Valid() && c.items == done + [eq] + rest && c.pos == |done| && eq.operation == EQUAL
    modifies c
    ensures c.Valid() && c.items == done + [Diff(EQUAL, s + eq.text)] + rest && c.pos == |done|
  {
    var d := c.Next();
    c.SetValue(Diff(EQUAL, s + d.text));
    var _ := c.Previous();
  }

  /** Moves the common suffix of the pending edits to the equality after them. */
  method FactorSuffix(c: Cursor<Diff>, td: Text, ti: Text, ghost done: seq<Diff>, ghost eq: Diff,
                      ghost rest: seq<Diff>)
    returns (td': Text, ti': Text, s: Text)
    requires c.Valid() && c.items == done + [eq] + rest && c.pos == |done| && eq.operation == EQUAL
    modifies c
    ensures c.Valid() && c.items == done + [Diff(EQUAL, s + eq.text)] + rest && c.pos == |done|
    ensures td == td' + s && ti == ti' + s
    ensures EndsDiffer(td', ti')
  {
    hide EndsDiffer;
    td', ti', s := CutSuffix(td, ti);
    if s != [] {
      PushSuffix(c, s, done, eq, rest);
    } else {
      assert Diff(EQUAL, s + eq.text) == eq;
    }
  }

  /** Takes a gathered run out of the list, one element at a time. */
  method RemoveRun(c: Cursor<Diff>, countDelete: nat, countInsert: nat, ghost done: seq<Diff>,
                   ghost run: seq<Diff>, ghost tail: seq<Diff>)
    requires c.Valid() && c.items == done + run + tail && c.pos == |done| + |run|
    requires countDelete + countInsert == |run|
    modifies c
    ensures c.Valid() && c.items == done + tail && c.pos == |done|
  {
    var n := countDelete;
    while n > 0
      invariant 0 <= n <= countDelete && c.Valid()
      invariant c.pos == |done| + n + countInsert && c.items == done + run[..n + countInsert] + tail
    {
      var _ := c.Previous();
      c.Remove();
      n := n - 1;
      assert c.items == done + run[..n + countInsert] + tail;
    }
    n := countInsert;
    while n > 0
      invariant 0 <= n <= countInsert && c.Valid()
      invariant c.pos == |done| + n && c.items == done + run[..n] + tail
    {
      var _ := c.Previous();
      c.Remove();
      n := n - 1;
      assert c.items == done + run[..n] + tail;
    }
    assert done + run[..0] + tail == done + tail;
  }

  /** Puts the pending edits back, deletion first, leaving out blank ones. */
  method InsertMerged(c: Cursor<Diff>, td: Text, ti: Text, ghost done: seq<Diff>, ghost tail: seq<Diff>)
    requires c.Valid() && c.items == done + tail && c.pos == |done|
    modifies c
    ensures c.Valid() && c.items == done + Merged(td, ti) + tail && c.pos == |done| + |Merged(td, ti)|
  {
    if td != [] {
      c.Insert(Diff(DELETE, td));
    }
    if ti != [] {
      c.Insert(Diff(INSERT, ti));
    }
    assert c.items == done + Merged(td, ti) + tail;
  }

  /** What became of done + run + [eq]: prefix `p` went left, suffix `s` went right. */
  ghost function Remade(done: seq<Diff>, p: Text, td: Text, ti: Text, s: Text, eq: Diff): seq<Diff>
    requires EndsEqual(done)
  {
    Absorb(done, p) + Merged(td, ti) + [Diff(EQUAL, s + eq.text)]
  }

  ghost predicate Remakes(run: seq<Diff>, p: Text, td: Text, ti: Text, s: Text) {
    && Text1(run) == p + td + s && Text2(run) == p + ti + s
    && (td != [] && ti != [] ==> NothingCommon(td, ti))
  }

  lemma RemadeTexts(done: seq<Diff>, run: seq<Diff>, eq: Diff, p: Text, td: Text, ti: Text, s: Text)
    requires EndsEqual(done) && AllEdits(run) && eq.operation == EQUAL && Remakes(run, p, td, ti, s)
    ensures SameTexts(Remade(done, p, td, ti, s, eq), done + run + [eq])
    ensures EditCost(Remade(done, p, td, ti, s, eq)) == EditCost(done + run + [eq]) - 2 * |p| - 2 * |s|
  {
    AbsorbTexts(done, p);
    MergedTexts(td, ti);
    PendingTexts(td, ti);
    AllEditsCost(run);
    var eq' := Diff(EQUAL, s + eq.text);
    Concat3(done, run, [eq]);
    Concat3(Absorb(done, p), Merged(td, ti), [eq']);
    Single(eq);
    Single(eq');
    Associate(Text1(done), p, td, s, eq.text);
    Associate(Text2(done), p, ti, s, eq.text);
  }

  lemma Associate(a: Text, b: Text, c: Text, d: Text, e: Text)
    ensures a + b + c + (d + e) == a + (b + c + d) + e
  {
  }

  lemma RemadeShape(done: seq<Diff>, run: seq<Diff>, eq: Diff, p: Text, td: Text, ti: Text, s: Text)
    requires EndsEqual(done) && AllEdits(run) && eq.operation == EQUAL && Remakes(run, p, td, ti, s)
    ensures Tidy(done) ==> Tidy(Remade(done, p, td, ti, s, eq))
    ensures KeepsSolid(done, Remade(done, p, td, ti, s, eq)[..|Remade(done, p, td, ti, s, eq)| - 1])
    ensures p == [] && s == [] && |run| >= 2 ==> |Remade(done, p, td, ti, s, eq)| <= |done + run + [eq]|
  {
    AbsorbShape(done, p);
    MergedTexts(td, ti);
    var r := Remade(done, p, td, ti, s, eq);
    assert r[..|r| - 1] == Absorb(done, p) + Merged(td, ti);
  }

  // ----- the first pass -----

  /** The counts and texts kept while a run of edits is gathered. */
  ghost predicate Gathered(run: seq<Diff>, countDelete: int, countInsert: int, textDelete: Text, textInsert: Text) {
    && AllEdits(run)
    && countDelete >= 0 && countInsert >= 0 && countDelete + countInsert == |run|
    && textDelete == Text1(run) && textInsert == Text2(run)
    && (countDelete == 0 ==> textDelete == []) && (countInsert == 0 ==> textInsert == [])
  }

  lemma GatherEdit(run: seq<Diff>, d: Diff, countDelete: int, countInsert: int, textDelete: Text, textInsert: Text)
    requires Gathered(run, countDelete, countInsert, textDelete, textInsert) && d.operation != EQUAL
    ensures d.operation == INSERT ==>
              Gathered(run + [d], countDelete, countInsert + 1, textDelete, textInsert + d.text)
    ensures d.operation == DELETE ==>
              Gathered(run + [d], countDelete + 1, countInsert, textDelete + d.text, textInsert)
  {
    WithLast(run, d);
    assert textDelete + [] == textDelete && textInsert + [] == textInsert;
  }

  /** `es` edits less than `ds`, or as much in no more diffs. */
  ghost predicate NoWorse(es: seq<Diff>, ds: seq<Diff>) {
    EditCost(es) < EditCost(ds) || (EditCost(es) == EditCost(ds) && |es| <= |ds|)
  }

  /** A stretch ending in an equality may replace another during the first pass. */
  ghost predicate Reworks(a: seq<Diff>, b: seq<Diff>) {
    && a != [] && b != []
    && a[|a| - 1].operation == EQUAL && b[|b| - 1].operation == EQUAL
    && SameTexts(b, a) && NoWorse(b, a)
    && (EditCost(b) == EditCost(a) && |b| == |a| ==> b[|b| - 1] == a[|a| - 1])
    && KeepsSolid(a[..|a| - 1], b[..|b| - 1])
    && (a[|a| - 1].text != [] ==> b[|b| - 1].text != [])
  }

  const DUMMY := Diff(EQUAL, [])

  /** How the list under rework compares with the input `ds` that a dummy equality was
      appended to. */
  ghost predicate Progress(ds: seq<Diff>, items: seq<Diff>) {
    && items != [] && items[|items| - 1].operation == EQUAL
    && SameTexts(items, ds)
    && (EditCost(items) < EditCost(ds)
        || (EditCost(items) == EditCost(ds)
            && (|items| <= |ds| || (|items| == |ds| + 1 && items[|items| - 1] == DUMMY))))
    && KeepsSolid(ds, items[..|items| - 1])
  }

  lemma ProgressStart(ds: seq<Diff>)
    ensures Progress(ds, ds + [DUMMY])
  {
    WithLast(ds, DUMMY);
    assert Text1(ds) + [] == Text1(ds) && Text2(ds) + [] == Text2(ds);
  }

  lemma ProgressStep(ds: seq<Diff>, a: seq<Diff>, b: seq<Diff>, rest: seq<Diff>)
    requires Progress(ds, a + rest) && Reworks(a, b)
    ensures Progress(ds, b + rest)
  {
    hide Text1, Text2, EditCost, Solid;
    var items, items' := a + rest, b + rest;
    Concat(a, rest);
    Concat(b, rest);
    forall edits | Solid(ds, edits) ensures Solid(items'[..|items'| - 1], edits) {
      assert Solid(items[..|items| - 1], edits);
      SolidStep(a, b, rest, edits);
    }
  }

  lemma SolidStep(a: seq<Diff>, b: seq<Diff>, rest: seq<Diff>, edits: bool)
    requires Reworks(a, b) && Solid((a + rest)[..|a + rest| - 1], edits)
    ensures Solid((b + rest)[..|b + rest| - 1], edits)
  {
    var s, t := (a + rest)[..|a + rest| - 1], (b + rest)[..|b + rest| - 1];
    assert forall i :: 0 <= i < |a| - 1 ==> a[i] == s[i];
    assert Solid(a[..|a| - 1], edits);
    assert Solid(b[..|b| - 1], edits);
    forall i | 0 <= i < |t| && (edits || t[i].operation == EQUAL) ensures t[i].text != [] {
      if i < |b| - 1 {
        assert t[i] == b[..|b| - 1][i];
      } else if i == |b| - 1 {
        assert s[|a| - 1] == a[|a| - 1];
      } else {
        assert t[i] == rest[i - |b|] == s[i - |b| + |a|];
      }
    }
  }

  lemma ProgressEnd(ds: seq<Diff>, items: seq<Diff>)
    requires Progress(ds, items) && Tidy(items)
    ensures var es := if items[|items| - 1].text == [] then items[..|items| - 1] else items;
            SameTexts(es, ds) && NoWorse(es, ds) && KeepsSolid(ds, es) && Tidy(es)
  {
    var init, e := items[..|items| - 1], items[|items| - 1];
    assert items == init + [e];
    WithLast(init, e);
    if e.text == [] {
      assert Text1(init) + [] == Text1(init) && Text2(init) + [] == Text2(init);
      assert forall i :: 0 <= i < |init| ==> init[i] == items[i];
    }
  }

  lemma MergeReworks(done: seq<Diff>, run: seq<Diff>, eq: Diff, p: Text, td: Text, ti: Text, s: Text)
    requires EndsEqual(done) && AllEdits(run) && eq.operation == EQUAL && Remakes(run, p, td, ti, s)
    requires |run| >= 2
    ensures Reworks(done + run + [eq], Remade(done, p, td, ti, s, eq))
  {
    RemadeTexts(done, run, eq, p, td, ti, s);
    RemadeShape(done, run, eq, p, td, ti, s);
    var a, b := done + run + [eq], Remade(done, p, td, ti, s, eq);
    assert a[..|a| - 1] == done + run;
    forall edits | Solid(done + run, edits) ensures Solid(b[..|b| - 1], edits) {
      assert forall i :: 0 <= i < |done| ==> done[i] == (done + run)[i];
      assert Solid(done, edits);
    }
    if p == [] && s == [] {
      assert s + eq.text == eq.text;
    }
  }

  /** Merging an equality into the one before it. */
  lemma JoinReworks(init: seq<Diff>, d: Diff, e: Diff)
    requires d.operation == EQUAL && e.operation == EQUAL
    ensures Reworks(init + [d] + [e], init + [Diff(EQUAL, d.text + e.text)])
    ensures Tidy(init + [d]) ==> Tidy(init + [Diff(EQUAL, d.text + e.text)])
  {
    var a, b := init + [d] + [e], init + [Diff(EQUAL, d.text + e.text)];
    WithLast(init + [d], e);
    WithLast(init, d);
    WithLast(init, Diff(EQUAL, d.text + e.text));
    Regroup(Text1(init), d.text, e.text);
    Regroup(Text2(init), d.text, e.text);
    assert a[..|a| - 1] == init + [d] && b[..|b| - 1] == init;
    forall edits | Solid(init + [d], edits) ensures Solid(init, edits) {
      assert forall i :: 0 <= i < |init| ==> init[i] == (init + [d])[i];
    }
    if Tidy(init + [d]) {
      assert forall i :: 0 <= i < |init| ==> b[i] == (init + [d])[i];
    }
  }

  lemma CutKeepsHeads(a: Text, b: Text, a': Text, b': Text, s: Text)
    requires a == a' + s && b == b' + s && EndsDiffer(a', b')
    requires a != [] && b != [] ==> a[0] != b[0]
    ensures a' != [] && b' != [] ==> NothingCommon(a', b')
  {
    if a' != [] && b' != [] {
      assert a[0] == a'[0] && b[0] == b'[0];
    }
  }

  /** Factors what the pending deletion and insertion share into the equalities around. */
  method FactorCommon(c: Cursor<Diff>, textDelete: Text, textInsert: Text, ghost done: seq<Diff>,
                      ghost eq: Diff, ghost rest: seq<Diff>)
    returns (td: Text, ti: Text, ghost p: Text, ghost s: Text)
    requires c.Valid() && c.items == done + ([eq] + rest) && c.pos == |done|
    requires EndsEqual(done) && eq.operation == EQUAL
    modifies c
    ensures c.Valid() && c.items == Absorb(done, p) + ([Diff(EQUAL, s + eq.text)] + rest)
    ensures c.pos == |Absorb(done, p)|
    ensures textDelete == p + td + s && textInsert == p + ti + s
    ensures td != [] && ti != [] ==> NothingCommon(td, ti)
  {
    hide Absorb, EndsDiffer;
    var td1, ti1;
    td1, ti1, p := FactorPrefix(c, textDelete, textInsert, done, [eq] + rest);
    assert c.items == Absorb(done, p) + [eq] + rest;
    td, ti, s := FactorSuffix(c, td1, ti1, Absorb(done, p), eq, rest);
    assert c.items == Absorb(done, p) + ([Diff(EQUAL, s + eq.text)] + rest);
    CutKeepsHeads(td1, ti1, td, ti, s);
    Regroup(p, td, s);
    Regroup(p, ti, s);
  }

  /** Replaces a gathered run of two or more edits, stepping past the equality after it. */
  method MergeRun(c: Cursor<Diff>, countDelete: nat, countInsert: nat, textDelete: Text, textInsert: Text,
                  ghost done: seq<Diff>, ghost run: seq<Diff>, ghost eq: Diff, ghost rest: seq<Diff>)
    returns (ghost done': seq<Diff>)
    requires c.Valid() && c.items == done + run + [eq] + rest && c.pos == |done| + |run| + 1
    requires EndsEqual(done) && Tidy(done) && eq.operation == EQUAL
    requires Gathered(run, countDelete, countInsert, textDelete, textInsert) && |run| >= 2
    modifies c
    ensures c.Valid() && c.items == done' + rest && c.pos == |done'|
    ensures Reworks(done + run + [eq], done') && Tidy(done') && EndsEqual(done')
  {
    hide Tidy, Absorb, Merged, NothingCommon, AllEdits, Text1, Text2, Reworks;
    var td, ti := textDelete, textInsert;
    ghost var p: Text, s: Text := [], [];
    var _ := c.Previous();
    assert c.items == done + run + ([eq] + rest);
    RemoveRun(c, countDelete, countInsert, done, run, [eq] + rest);
    if countDelete != 0 && countInsert != 0 {
      td, ti, p, s := FactorCommon(c, td, ti, done, eq, rest);
    } else {
      AbsorbNothing(done);
      assert [] + td + [] == td && [] + ti + [] == ti && [] + eq.text == eq.text;
      assert Diff(EQUAL, [] + eq.text) == eq;
    }
    assert Remakes(run, p, td, ti, s);
    InsertMerged(c, td, ti, Absorb(done, p), [Diff(EQUAL, s + eq.text)] + rest);
    MergeReworks(done, run, eq, p, td, ti, s);
    RemadeShape(done, run, eq, p, td, ti, s);
    done' := Remade(done, p, td, ti, s, eq);
    assert c.items == done' + rest;
    var _ := c.Next();
  }

  lemma AbsorbNothing(done: seq<Diff>)
    requires EndsEqual(done)
    ensures Absorb(done, []) == done
  {
  }

  /** Joins the equality just stepped over to the one before it. */
  method JoinEqual(c: Cursor<Diff>, prevEqual: nat, d: Diff, ghost done: seq<Diff>, ghost rest: seq<Diff>)
    returns (ghost done': seq<Diff>)
    requires c.Valid() && c.items == done + [d] + rest && c.pos == |done| + 1 && c.last == |done|
    requires done != [] && prevEqual == |done| - 1 && d.operation == EQUAL
    requires EndsEqual(done) && Tidy(done)
    modifies c
    ensures c.Valid() && c.items == done' + rest && c.pos == |done'|
    ensures Reworks(done + [d], done') && Tidy(done') && EndsEqual(done')
  {
    hide Tidy, Reworks;
    ghost var init, e := done[..|done| - 1], done[|done| - 1];
    assert done == init + [e];
    JoinReworks(init, e, d);
    done' := init + [Diff(EQUAL, e.text + d.text)];
    c.SetAt(prevEqual, Diff(EQUAL, c.items[prevEqual].text + d.text));
    assert c.items == done' + [d] + rest;
    c.Remove();
    assert c.items == done' + rest;
    var _ := c.Previous();
    var _ := c.Next();
  }

  /** What an equality does to the run gathered before it. */
  method MeetEqual(c: Cursor<Diff>, countDelete: nat, countInsert: nat, textDelete: Text, textInsert: Text,
                   prevEqual: int, d: Diff, ghost ds: seq<Diff>, ghost done: seq<Diff>, ghost run: seq<Diff>,
                   ghost rest: seq<Diff>)
    returns (ghost done': seq<Diff>)
    requires c.Valid() && c.items == done + run + [d] + rest && c.last == |done| + |run| == c.pos - 1
    requires EndsEqual(done) && Tidy(done) && d.operation == EQUAL && Progress(ds, c.items)
    requires Gathered(run, countDelete, countInsert, textDelete, textInsert)
    requires prevEqual == if run == [] then |done| - 1 else -1
    modifies c
    ensures c.Valid() && c.items == done' + rest && c.pos == |done'|
    ensures EndsEqual(done') && Tidy(done') && Progress(ds, c.items)
  {
    hide Tidy, Progress, Reworks, Text1, Text2, AllEdits;
    if countDelete + countInsert > 1 {
      done' := MergeRun(c, countDelete, countInsert, textDelete, textInsert, done, run, d, rest);
      ProgressStep(ds, done + run + [d], done', rest);
    } else if prevEqual != -1 {
      assert done + run + [d] == done + [d];
      done' := JoinEqual(c, prevEqual, d, done, rest);
      ProgressStep(ds, done + [d], done', rest);
    } else {
      TidyExtend(done, run, d);
      done' := done + run + [d];
    }
  }

  /** The list as a pass sees it: done, the run being gathered, and the rest from the cursor
      on. */
  ghost predicate Divided(items: seq<Diff>, pos: int, done: seq<Diff>, run: seq<Diff>, rest: seq<Diff>) {
    items == done + run + rest && pos == |done| + |run|
  }

  lemma DividedNext(items: seq<Diff>, pos: int, done: seq<Diff>, run: seq<Diff>, rest: seq<Diff>)
    requires Divided(items, pos, done, run, rest) && pos < |items|
    ensures rest != [] && pos == |done| + |run| && items[pos] == rest[0]
    ensures items == done + run + [rest[0]] + rest[1..] && items == done + run + ([rest[0]] + rest[1..])
    ensures items == done + run + rest && rest == [rest[0]] + rest[1..]
    ensures Divided(items, pos + 1, done, run + [rest[0]], rest[1..])
    ensures Divided(items, pos + 1, done + run + [rest[0]], [], rest[1..])
  {
    ShiftRun(done, run, rest[0], rest[1..]);
  }

  lemma DividedJoin(items: seq<Diff>, pos: int, done: seq<Diff>, rest: seq<Diff>)
    requires items == done + rest && pos == |done|
    ensures Divided(items, pos, done, [], rest)
  {
  }

  lemma DividedEnd(items: seq<Diff>, pos: int, done: seq<Diff>, rest: seq<Diff>, run: seq<Diff>)
    requires Divided(items, pos, done, run, rest) && pos >= |items|
    ensures rest == [] && items == done + run && (run == [] ==> items == done)
  {
  }

  /** The first pass under way: a tidy list is done, and a run of edits gathered. */
  ghost predicate Gathering(ds: seq<Diff>, items: seq<Diff>, pos: int, done: seq<Diff>, run: seq<Diff>, rest: seq<Diff>,
                            countDelete: int, countInsert: int, textDelete: Text, textInsert: Text, prevEqual: int) {
    && Divided(items, pos, done, run, rest) && EndsEqual(done) && Tidy(done) && (rest == [] ==> run == [])
    && Progress(ds, items) && Gathered(run, countDelete, countInsert, textDelete, textInsert)
    && prevEqual == (if run == [] then |done| - 1 else -1)
  }

  lemma GatheringEdit(ds: seq<Diff>, items: seq<Diff>, pos: int, done: seq<Diff>, run: seq<Diff>, rest: seq<Diff>,
                      countDelete: int, countInsert: int, textDelete: Text, textInsert: Text, prevEqual: int)
    requires Gathering(ds, items, pos, done, run, rest, countDelete, countInsert, textDelete, textInsert, prevEqual)
    requires 0 <= pos < |items| && items[pos].operation != EQUAL
    ensures var d := items[pos];
            && rest != [] && run + [d] != []
            && (d.operation == INSERT ==>
                Gathering(ds, items, pos + 1, done, run + [d], rest[1..], countDelete, countInsert + 1, textDelete,
                          textInsert + d.text, -1))
            && (d.operation == DELETE ==>
                Gathering(ds, items, pos + 1, done, run + [d], rest[1..], countDelete + 1, countInsert,
                          textDelete + d.text, textInsert, -1))
  {
    hide Divided, EndsEqual, Tidy, Progress, Gathered;
    DividedNext(items, pos, done, run, rest);
    GatherEdit(run, items[pos], countDelete, countInsert, textDelete, textInsert);
    LastIsEqual(ds, done + run, items[pos], rest[1..]);
  }

  lemma GatheringMeet(ds: seq<Diff>, items: seq<Diff>, pos: int, done: seq<Diff>, run: seq<Diff>, rest: seq<Diff>,
                      countDelete: int, countInsert: int, textDelete: Text, textInsert: Text, prevEqual: int)
    requires Gathering(ds, items, pos, done, run, rest, countDelete, countInsert, textDelete, textInsert, prevEqual)
    requires 0 <= pos < |items|
    ensures rest != [] && items == done + run + [items[pos]] + rest[1..] && pos == |done| + |run|
    ensures EndsEqual(done) && Tidy(done) && Progress(ds, items)
    ensures countDelete >= 0 && countInsert >= 0 && Gathered(run, countDelete, countInsert, textDelete, textInsert)
    ensures prevEqual == if run == [] then |done| - 1 else -1
  {
    hide Divided, EndsEqual, Tidy, Progress;
    DividedNext(items, pos, done, run, rest);
  }

  lemma GatheringJoined(ds: seq<Diff>, items: seq<Diff>, pos: int, done: seq<Diff>, rest: seq<Diff>)
    requires items == done + rest && pos == |done| && EndsEqual(done) && Tidy(done) && Progress(ds, items)
    ensures Gathering(ds, items, pos, done, [], rest, 0, 0, [], [], pos - 1)
  {
    hide Divided, EndsEqual, Tidy, Progress;
    DividedJoin(items, pos, done, rest);
    Start();
  }

  lemma GatheringEnd(ds: seq<Diff>, items: seq<Diff>, pos: int, done: seq<Diff>, run: seq<Diff>, rest: seq<Diff>,
                     countDelete: int, countInsert: int, textDelete: Text, textInsert: Text, prevEqual: int)
    requires Gathering(ds, items, pos, done, run, rest, countDelete, countInsert, textDelete, textInsert, prevEqual)
    requires pos >= |items|
    ensures Tidy(items) && Progress(ds, items) && items != []
  {
    hide EndsEqual, Tidy, Progress;
    DividedEnd(items, pos, done, rest, run);
    NotEmpty(ds, items);
  }

  /** Gathers every run of edits between equalities, and joins neighbouring equalities
      that the gathering meets. */
  method FirstPass(c: Cursor<Diff>)
    requires c.Valid()
    modifies c
    ensures c.Valid() && SameTexts(c.items, old(c.items)) && Tidy(c.items)
    ensures NoWorse(c.items, old(c.items)) && KeepsSolid(old(c.items), c.items)
  {
    hide Gathering, EndsEqual, Tidy, Progress, Gathered, NoWorse, SameTexts, KeepsSolid;
    ghost var ds := c.items;
    c.Append(DUMMY);
    ProgressStart(ds);
    c.ToFront();
    Start();
    var countDelete, countInsert := 0, 0;
    var textDelete: Text, textInsert: Text := [], [];
    var prevEqual := -1;
    ghost var done: seq<Diff>, run: seq<Diff>, rest := [], [], c.items;
    GatheringJoined(ds, c.items, 0, done, rest);
    while c.HasNext()
      invariant c.Valid()
      invariant Gathering(ds, c.items, c.pos, done, run, rest, countDelete, countInsert, textDelete, textInsert,
                          prevEqual)
      decreases |rest|
    {
      var d := c.Next();
      if d.operation != EQUAL {
        GatheringEdit(ds, c.items, c.pos - 1, done, run, rest, countDelete, countInsert, textDelete, textInsert,
                      prevEqual);
        if d.operation == INSERT {
          countInsert, textInsert := countInsert + 1, textInsert + d.text;
        } else {
          countDelete, textDelete := countDelete + 1, textDelete + d.text;
        }
        prevEqual := -1;
        run := run + [d];
      } else {
        GatheringMeet(ds, c.items, c.pos - 1, done, run, rest, countDelete, countInsert, textDelete, textInsert,
                      prevEqual);
        done := MeetEqual(c, countDelete, countInsert, textDelete, textInsert, prevEqual, d, ds, done, run, rest[1..]);
        GatheringJoined(ds, c.items, c.pos, done, rest[1..]);
        countDelete, countInsert, textDelete, textInsert := 0, 0, [], [];
        prevEqual := c.pos - 1;
        run := [];
      }
      rest := rest[1..];
    }
    GatheringEnd(ds, c.items, c.pos, done, run, rest, countDelete, countInsert, textDelete, textInsert, prevEqual);
    ProgressEnd(ds, c.items);
    if c.items[|c.items| - 1].text == [] {
      c.RemoveLast();
    }
  }

  lemma ShiftRun(done: seq<Diff>, run: seq<Diff>, d: Diff, rest: seq<Diff>)
    ensures done + run + ([d] + rest) == done + run + [d] + rest == done + (run + [d]) + rest
  {
  }

  lemma Start()
    ensures Tidy([]) && EndsEqual([]) && Gathered([], 0, 0, [], [])
  {
  }

  lemma NotEmpty(ds: seq<Diff>, items: seq<Diff>)
    requires Progress(ds, items)
    ensures items != []
  {
  }

  lemma LastIsEqual(ds: seq<Diff>, before: seq<Diff>, d: Diff, after: seq<Diff>)
    requires Progress(ds, before + ([d] + after)) && d.operation != EQUAL
    ensures after != []
  {
    assert ([d] + after)[0] == d;
  }

  lemma TidyExtend(done: seq<Diff>, run: seq<Diff>, d: Diff)
    requires EndsEqual(done) && Tidy(done) && |run| <= 1 && d.operation == EQUAL
    ensures Tidy(done + run + [d])
  {
    var r := done + run + [d];
    forall i | 0 <= i < |r| - 1 ensures TidyPair(r[i], r[i + 1]) {
      if i < |done| - 1 {
        assert TidyPair(done[i], done[i + 1]);
      }
    }
  }

  // ----- the second pass -----

  /** Steps over the next element and points at it, or at nothing. */
  method Step(c: Cursor<Diff>) returns (i: int)
    requires c.Valid()
    modifies c`pos, c`last
    ensures c.Valid()
    ensures if old(c.HasNext()) then i == old(c.pos) == c.last && c.pos == i + 1 else i == -1 && c.pos == old(c.pos)
  {
    if c.HasNext() {
      var _ := c.Next();
      i := c.last;
    } else {
      i := -1;
    }
  }

  /** Sliding `x` left over the equality `a` it ends with. */
  function SlidLeft(a: Diff, x: Diff, b: Diff): seq<Diff>
    requires Shiftable(a, x, b)
    requires EndsWith(x.text, a.text)
  {
    [Diff(x.operation, a.text + x.text[..|x.text| - |a.text|]), Diff(EQUAL, a.text + b.text)]
  }

  /** Sliding `x` right over the equality `b` it starts with. */
  function SlidRight(a: Diff, x: Diff, b: Diff): seq<Diff>
    requires Shiftable(a, x, b)
    requires StartsWith(x.text, b.text)
  {
    [Diff(EQUAL, a.text + b.text), Diff(x.operation, x.text[|b.text|..] + b.text)]
  }

  /** One shift leaves the texts and the edited units alone and drops one diff. */
  ghost predicate Shifts(es: seq<Diff>, ds: seq<Diff>) {
    SameTexts(es, ds) && EditCost(es) == EditCost(ds) && |es| < |ds| && KeepsSolid(ds, es)
  }

  lemma SlidSolid(a: Diff, x: Diff, b: Diff)
    requires Shiftable(a, x, b)
    ensures EndsWith(x.text, a.text) ==> KeepsSolid([a, x, b], SlidLeft(a, x, b))
    ensures StartsWith(x.text, b.text) ==> KeepsSolid([a, x, b], SlidRight(a, x, b))
  {
    forall edits | Solid([a, x, b], edits)
      ensures b.text != [] && (edits || x.operation == EQUAL ==> x.text != [])
    {
      assert [a, x, b][2] == b && [a, x, b][1] == x;
    }
  }

  lemma SlideTexts(op: Operation, p: Text, y: Text, n: Text)
    ensures SameTexts([Diff(op, p + y), Diff(EQUAL, p + n)], [Diff(EQUAL, p), Diff(op, y + p), Diff(EQUAL, n)])
    ensures SameTexts([Diff(EQUAL, p + n), Diff(op, y + n)], [Diff(EQUAL, p), Diff(op, n + y), Diff(EQUAL, n)])
    ensures EditCost([Diff(op, p + y), Diff(EQUAL, p + n)])
            == EditCost([Diff(EQUAL, p), Diff(op, y + p), Diff(EQUAL, n)])
    ensures EditCost([Diff(EQUAL, p + n), Diff(op, y + n)])
            == EditCost([Diff(EQUAL, p), Diff(op, n + y), Diff(EQUAL, n)])
  {
    hide Text1, Text2, EditCost;
    var a, x, b := Diff(EQUAL, p), Diff(op, y + p), Diff(EQUAL, n);
    var u, v, w, z := Diff(op, n + y), Diff(op, p + y), Diff(op, y + n), Diff(EQUAL, p + n);
    SlideWords(p, y, n);
    Triple(a, x, b);
    Triple(a, u, b);
    Pair(v, z);
    Pair(z, w);
    Single(a);
    Single(x);
    Single(b);
    Single(u);
    Single(v);
    Single(w);
    Single(z);
    match op {
      case EQUAL =>
      case DELETE =>
      case INSERT =>
    }
  }

  lemma SlideWords(p: Text, y: Text, n: Text)
    ensures p + (y + p) + n == (p + y) + (p + n)
    ensures p + (n + y) + n == (p + n) + (y + n)
    ensures p + [] + n == [] + (p + n) == (p + n) + []
  {
  }

  lemma SlidLeftTexts(a: Diff, x: Diff, b: Diff)
    requires Shiftable(a, x, b) && EndsWith(x.text, a.text)
    ensures Shifts(SlidLeft(a, x, b), [a, x, b])
  {
    var y := x.text[..|x.text| - |a.text|];
    assert x == Diff(x.operation, y + a.text);
    SlideTexts(x.operation, a.text, y, b.text);
    SlidSolid(a, x, b);
  }

  lemma SlidRightTexts(a: Diff, x: Diff, b: Diff)
    requires Shiftable(a, x, b) && StartsWith(x.text, b.text)
    ensures Shifts(SlidRight(a, x, b), [a, x, b])
  {
    var y := x.text[|b.text|..];
    assert x == Diff(x.operation, b.text + y);
    SlideTexts(x.operation, a.text, y, b.text);
    SlidSolid(a, x, b);
  }

  lemma ShiftInPlace(before: seq<Diff>, a: seq<Diff>, b: seq<Diff>, after: seq<Diff>)
    requires Shifts(b, a)
    ensures Shifts(before + b + after, before + a + after)
  {
    Replace(before, a, b, after);
    forall edits | Solid(before + a + after, edits) ensures Solid(before + b + after, edits) {
      var l := before + a + after;
      assert forall i :: 0 <= i < |before| ==> before[i] == l[i];
      assert forall i :: 0 <= i < |a| ==> a[i] == l[|before| + i];
      assert forall i :: 0 <= i < |after| ==> after[i] == l[|before| + |a| + i];
      assert Solid(a, edits);
    }
  }

  lemma ShiftsTransitive(a: seq<Diff>, b: seq<Diff>, c: seq<Diff>)
    requires Shifts(b, a) && (c == b || Shifts(c, b))
    ensures Shifts(c, a)
  {
  }

  /** Slides the middle of a triple left, leaving the cursor past the third element. */
  method SlideLeft(c: Cursor<Diff>, i: nat)
    requires c.Valid() && c.pos == i + 3
    requires Shiftable(c.items[i], c.items[i + 1], c.items[i + 2])
    requires EndsWith(c.items[i + 1].text, c.items[i].text)
    modifies c
    ensures c.Valid() && c.pos == i + 2 && Shifts(c.items, old(c.items)) && |c.items| == |old(c.items)| - 1
  {
    var a, x, b := c.items[i], c.items[i + 1], c.items[i + 2];
    ghost var before, after := c.items[..i], c.items[i + 3..];
    assert c.items == before + [a, x, b] + after;
    SlidLeftTexts(a, x, b);
    ShiftInPlace(before, [a, x, b], SlidLeft(a, x, b), after);
    hide Shifts;
    c.SetAt(i + 1, Diff(x.operation, a.text + x.text[..|x.text| - |a.text|]));
    c.SetAt(i + 2, Diff(EQUAL, a.text + b.text));
    assert c.items == before + [a] + SlidLeft(a, x, b) + after;
    var _ := c.Previous();
    var _ := c.Previous();
    var _ := c.Previous();
    c.Remove();
    assert c.items == before + SlidLeft(a, x, b) + after;
    var _ := c.Next();
    var _ := c.Next();
  }

  /** Slides the middle of a triple right, leaving the cursor past what is left of it. */
  method SlideRight(c: Cursor<Diff>, i: nat)
    requires c.Valid() && c.pos == i + 3 && c.last == i + 2
    requires Shiftable(c.items[i], c.items[i + 1], c.items[i + 2])
    requires StartsWith(c.items[i + 1].text, c.items[i + 2].text)
    modifies c
    ensures c.Valid() && c.pos == i + 2 && Shifts(c.items, old(c.items)) && |c.items| == |old(c.items)| - 1
  {
    var a, x, b := c.items[i], c.items[i + 1], c.items[i + 2];
    ghost var before, after := c.items[..i], c.items[i + 3..];
    assert c.items == before + [a, x, b] + after;
    SlidRightTexts(a, x, b);
    ShiftInPlace(before, [a, x, b], SlidRight(a, x, b), after);
    hide Shifts;
    c.SetAt(i, Diff(EQUAL, a.text + b.text));
    c.SetAt(i + 1, Diff(x.operation, x.text[|b.text|..] + b.text));
    assert c.items == before + SlidRight(a, x, b) + [b] + after;
    c.Remove();
    assert c.items == before + SlidRight(a, x, b) + after;
  }

  /** No triple before `n` can be shifted. */
  ghost predicate SettledTo(ds: seq<Diff>, n: int) {
    forall i :: 0 <= i < |ds| - 2 && i < n ==> !Shiftable(ds[i], ds[i + 1], ds[i + 2])
  }

  /** Looks for single edits between equalities that slide over one of them. */
  method SecondPass(c: Cursor<Diff>) returns (changes: bool)
    requires c.Valid()
    modifies c
    ensures c.Valid()
    ensures changes ==> Shifts(c.items, old(c.items))
    ensures !changes ==> c.items == old(c.items) && Settled(c.items)
  {
    hide Shifts, Shiftable, SettledTo, Settled, EndsWith, StartsWith;
    ghost var ds := c.items;
    changes := false;
    c.ToFront();
    var prevDiff := Step(c);
    var thisDiff := Step(c);
    var nextDiff := Step(c);
    ghost var k := 0;
    SettledStart(ds);
    while nextDiff != -1
      invariant c.Valid()
      invariant nextDiff != -1 ==> nextDiff == c.pos - 1 && thisDiff == nextDiff - 1 && prevDiff == nextDiff - 2 >= 0
      invariant nextDiff != -1 ==> c.last == nextDiff
      invariant if changes then Shifts(c.items, ds) else c.items == ds && SettledTo(ds, k)
      invariant !changes ==> if nextDiff == -1 then k >= |ds| - 2 else k == prevDiff
      decreases |c.items| - c.pos, nextDiff + 1
    {
      var a, x, b := c.items[prevDiff], c.items[thisDiff], c.items[nextDiff];
      ghost var items := c.items;
      ShiftableNow(a, x, b);
      if a.operation == EQUAL && b.operation == EQUAL && EndsWith(x.text, a.text) {
        SlideLeft(c, prevDiff);
        if changes { ShiftsTransitive(ds, items, c.items); }
        changes := true;
        thisDiff := c.pos - 1;
        nextDiff := Step(c);
      } else if a.operation == EQUAL && b.operation == EQUAL && StartsWith(x.text, b.text) {
        SlideRight(c, prevDiff);
        if changes { ShiftsTransitive(ds, items, c.items); }
        changes := true;
        nextDiff := Step(c);
      } else if !changes {
        SettledNext(ds, k);
      }
      k := k + 1;
      prevDiff := thisDiff;
      thisDiff := nextDiff;
      nextDiff := Step(c);
    }
    if !changes { SettledEnd(ds, k); }
  }

  lemma SettledStart(ds: seq<Diff>)
    ensures SettledTo(ds, 0)
  {
  }

  lemma SettledEnd(ds: seq<Diff>, n: int)
    requires SettledTo(ds, n) && n >= |ds| - 2
    ensures Settled(ds)
  {
  }

  lemma SettledNext(ds: seq<Diff>, n: nat)
    requires n + 2 < |ds| && SettledTo(ds, n) && !Shiftable(ds[n], ds[n + 1], ds[n + 2])
    ensures SettledTo(ds, n + 1)
  {
  }

  lemma ShiftableNow(a: Diff, x: Diff, b: Diff)
    ensures Shiftable(a, x, b) <==>
              a.operation == EQUAL && b.operation == EQUAL && (EndsWith(x.text, a.text) || StartsWith(x.text, b.text))
  {
  }

  // ----- the whole cleanup -----

  /** Merges until nothing shifts. Both texts stay; the edits never grow; what comes out
      is in normal form. */
  method CleanupMerge(c: Cursor<Diff>)
    requires c.Valid()
    modifies c
    ensures c.Valid() && SameTexts(c.items, old(c.items)) && NoWorse(c.items, old(c.items))
    ensures Tidy(c.items) && Settled(c.items)
    ensures KeepsSolid(old(c.items), c.items)
    decreases EditCost(c.items), |c.items|
  {
    FirstPass(c);
    var changes := SecondPass(c);
    if changes {
      CleanupMerge(c);
    }
  }
}
