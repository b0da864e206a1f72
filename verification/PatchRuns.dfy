/** How the patch maker groups diffs into patches. A patch holds a run of diffs from an edit
    up to the next large equality, but a small equality with the same text as the last diff
    of the list is taken for that last diff and left out: an echo. */
module PatchRuns {
  import opened Texts
  import opened Diffs
  import opened MergeCleanup

  /** The diffs since the open patch began, and those of them the patch holds. */
  datatype Run = Run(full: seq<Diff>, kept: seq<Diff>)

  const CLOSED := Run([], [])

  /** The run after one more diff; an equality of `big` units or more ends it. */
  function Next(run: Run, d: Diff, final: Diff, big: int): Run {
    if d.operation != EQUAL then Run(run.full + [d], run.kept + [d])
    else if run.kept == [] || |d.text| >= big then CLOSED
    else Run(run.full + [d], if d == final then run.kept else run.kept + [d])
  }

  function RunAfter(ds: seq<Diff>, final: Diff, big: int): Run
    decreases |ds|
  {
    if ds == [] then CLOSED else Next(RunAfter(ds[..|ds| - 1], final, big), ds[|ds| - 1], final, big)
  }

  /** The run as a large equality closes it; one of exactly `big` units still joins. */
  function ClosedBy(run: Run, d: Diff, final: Diff, big: int): Run {
    if run.kept != [] && |d.text| <= big && d != final then Run(run.full + [d], run.kept + [d]) else run
  }

  /** Leaving the echoes out of the run makes no difference: it only moves equal text from
      inside the run to behind it. */
  ghost predicate Stands(run: Run) {
    exists x: Text :: Text1(run.full) == Text1(run.kept) + x && Text2(run.full) == Text2(run.kept) + x
  }

  ghost predicate HarmlessUpTo(ds: seq<Diff>, n: nat, final: Diff, big: int)
    requires n <= |ds|
  {
    forall i :: 0 <= i < n && ds[i].operation == EQUAL && |ds[i].text| >= big ==>
      Stands(ClosedBy(RunAfter(ds[..i], final, big), ds[i], final, big))
  }

  /** Every run of the list stands without its echoes. */
  ghost predicate EchoesHarmless(ds: seq<Diff>, big: int) {
    ds != [] ==>
      var final := ds[|ds| - 1];
      HarmlessUpTo(ds, |ds|, final, big) && Stands(RunAfter(ds, final, big))
  }

  lemma RunSnoc(ds: seq<Diff>, d: Diff, final: Diff, big: int)
    ensures RunAfter(ds + [d], final, big) == Next(RunAfter(ds, final, big), d, final, big)
  {
    assert (ds + [d])[..|ds + [d]| - 1] == ds;
  }

  /** Only equal text is left out, never the first diff. */
  ghost predicate Sound(run: Run) {
    && (run.full == [] <==> run.kept == [])
    && (run.kept != [] ==> run.kept[0].operation != EQUAL)
    && |Text1(run.full)| - |Text1(run.kept)| == |Text2(run.full)| - |Text2(run.kept)| >= 0
  }

  lemma JoinSound(run: Run, d: Diff)
    requires Sound(run) && (run.kept != [] || d.operation != EQUAL)
    ensures Sound(Run(run.full + [d], run.kept + [d]))
    ensures d.operation == EQUAL ==> Sound(Run(run.full + [d], run.kept))
  {
    WithLast(run.full, d);
    WithLast(run.kept, d);
  }

  lemma {:induction false} RunSound(ds: seq<Diff>, final: Diff, big: int)
    ensures Sound(RunAfter(ds, final, big))
    decreases |ds|
  {
    if ds != [] {
      RunSound(ds[..|ds| - 1], final, big);
      var run, d := RunAfter(ds[..|ds| - 1], final, big), ds[|ds| - 1];
      if run.kept != [] || d.operation != EQUAL { JoinSound(run, d); }
    }
  }

  // ----- when echoes are harmless -----

  /** Whether a patch is open after these diffs: an edit was met, and since then no
      equality of `big` units or more. */
  predicate OpenAfter(ds: seq<Diff>, big: int)
    decreases |ds|
  {
    ds != []
    && var d := ds[|ds| - 1];
       d.operation != EQUAL || (|d.text| < big && OpenAfter(ds[..|ds| - 1], big))
  }

  /** No small equality inside an open patch has the same text as the final equality. */
  predicate NoEcho(ds: seq<Diff>, big: int) {
    forall i :: 0 <= i < |ds| - 1 && ds[i].operation == EQUAL && |ds[i].text| < big && ds[i] == ds[|ds| - 1] ==>
      !OpenAfter(ds[..i], big)
  }

  lemma {:induction false} NothingDropped(ds: seq<Diff>, n: nat, big: int)
    requires NoEcho(ds, big) && n < |ds|
    ensures var run := RunAfter(ds[..n], ds[|ds| - 1], big);
            run.full == run.kept && (run.kept != [] <==> OpenAfter(ds[..n], big))
    decreases n
  {
    if n > 0 {
      NothingDropped(ds, n - 1, big);
      assert ds[..n][..n - 1] == ds[..n - 1];
    }
  }

  lemma StandsSelf(run: Run)
    requires run.full == run.kept
    ensures Stands(run)
  {
    assert Text1(run.full) == Text1(run.kept) + [] && Text2(run.full) == Text2(run.kept) + [];
  }

  /** Without echoes every run stands. */
  lemma NoEchoHarmless(ds: seq<Diff>, big: int)
    requires NoEcho(ds, big)
    ensures EchoesHarmless(ds, big)
  {
    if ds != [] {
      var n := |ds| - 1;
      var final := ds[n];
      forall i | 0 <= i < |ds| && ds[i].operation == EQUAL && |ds[i].text| >= big
        ensures Stands(ClosedBy(RunAfter(ds[..i], final, big), ds[i], final, big))
      {
        NothingDropped(ds, i, big);
        StandsSelf(ClosedBy(RunAfter(ds[..i], final, big), ds[i], final, big));
      }
      NothingDropped(ds, n, big);
      var run := RunAfter(ds[..n], final, big);
      if final.operation == EQUAL && run.kept != [] && |final.text| < big {
        WithLast(run.full, final);
        assert Text1(run.full + [final]) == Text1(run.kept) + final.text;
      } else {
        StandsSelf(RunAfter(ds, final, big));
      }
    }
  }

  /** A blank equality adds nothing to a run, so leaving it out takes nothing from it. */
  lemma {:induction false} BlankDropped(ds: seq<Diff>, big: int)
    ensures var run := RunAfter(ds, Diff(EQUAL, []), big); SameTexts(run.full, run.kept)
    decreases |ds|
  {
    if ds != [] {
      var run, d := RunAfter(ds[..|ds| - 1], Diff(EQUAL, []), big), ds[|ds| - 1];
      BlankDropped(ds[..|ds| - 1], big);
      BlankJoins(run, d);
    }
  }

  lemma BlankJoins(run: Run, d: Diff)
    requires SameTexts(run.full, run.kept)
    ensures SameTexts(run.full + [d], run.kept + [d])
    ensures d == Diff(EQUAL, []) ==> SameTexts(run.full + [d], run.kept)
  {
    WithLast(run.full, d);
    WithLast(run.kept, d);
  }

  lemma BlankHarmless(ds: seq<Diff>, big: int)
    requires ds != [] && ds[|ds| - 1] == Diff(EQUAL, [])
    ensures EchoesHarmless(ds, big)
  {
    hide Text1, Text2;
    var final := ds[|ds| - 1];
    forall i | 0 <= i < |ds| && ds[i].operation == EQUAL && |ds[i].text| >= big
      ensures Stands(ClosedBy(RunAfter(ds[..i], final, big), ds[i], final, big))
    {
      BlankDropped(ds[..i], big);
      BlankJoins(RunAfter(ds[..i], final, big), ds[i]);
      SameStands(ClosedBy(RunAfter(ds[..i], final, big), ds[i], final, big));
    }
    BlankDropped(ds, big);
    SameStands(RunAfter(ds, final, big));
  }

  lemma SameStands(run: Run)
    requires SameTexts(run.full, run.kept)
    ensures Stands(run)
  {
    assert Text1(run.full) == Text1(run.kept) + [] && Text2(run.full) == Text2(run.kept) + [];
  }

  /** Between texts that do not end alike no echo does harm: the last diff is an edit, or
      blank. */
  lemma EndsDifferHarmless(ds: seq<Diff>, text1: Text, text2: Text, big: int)
    requires Transforms(ds, text1, text2) && EndsDiffer(text1, text2)
    ensures EchoesHarmless(ds, big)
  {
    hide EchoesHarmless, Text1, Text2;
    if ds == [] || ds[|ds| - 1].operation != EQUAL {
      NoEchoHarmless(ds, big);
    } else {
      var init, final := ds[..|ds| - 1], ds[|ds| - 1];
      assert ds == init + [final];
      WithLast(init, final);
      EndsAlike(Text1(init), Text2(init), final.text);
      BlankHarmless(ds, big);
    }
  }

  lemma EndsAlike(a: Text, b: Text, s: Text)
    requires EndsDiffer(a + s, b + s)
    ensures s == []
  {
  }

  /** Deleting two different units around an equality that the list also ends with. */
  function Echoing(a: QChar, b: QChar, x: QChar): seq<Diff> {
    [Diff(DELETE, [a]), Diff(EQUAL, [x]), Diff(DELETE, [b]), Diff(EQUAL, [x])]
  }

  lemma EchoingRun(a: QChar, b: QChar, x: QChar, big: int)
    requires big >= 2
    ensures RunAfter(Echoing(a, b, x), Diff(EQUAL, [x]), big)
            == Run(Echoing(a, b, x), [Diff(DELETE, [a]), Diff(DELETE, [b])])
  {
    var final := Diff(EQUAL, [x]);
    var d, e := Diff(DELETE, [a]), Diff(DELETE, [b]);
    RunSnoc([], d, final, big);
    RunSnoc([d], final, final, big);
    RunSnoc([d, final], e, final, big);
    RunSnoc([d, final, e], final, final, big);
    assert [] + [d] == [d] && [d] + [final] == [d, final] && [d, final] + [e] == [d, final, e];
    assert [d, final, e] + [final] == Echoing(a, b, x) && [d] + [e] == [d, e];
  }

  lemma EchoingSmall(a: QChar, b: QChar, x: QChar, big: int)
    requires big >= 2
    ensures EchoesHarmless(Echoing(a, b, x), big) <==> Stands(RunAfter(Echoing(a, b, x), Diff(EQUAL, [x]), big))
  {
    hide RunAfter, Stands;
  }

  lemma EchoingTexts(a: QChar, b: QChar, x: QChar)
    ensures Text1(Echoing(a, b, x)) == [a, x, b, x] && Text2(Echoing(a, b, x)) == [x, x]
    ensures var kept := [Diff(DELETE, [a]), Diff(DELETE, [b])]; Text1(kept) == [a, b] && Text2(kept) == []
  {
    hide Text1, Text2;
    var final := Diff(EQUAL, [x]);
    var d, e := Diff(DELETE, [a]), Diff(DELETE, [b]);
    Pair(d, final);
    Pair(e, final);
    Pair(d, e);
    Single(d);
    Single(e);
    Single(final);
    assert Echoing(a, b, x) == [d, final] + [e, final];
    Concat([d, final], [e, final]);
  }

  /** The echo is harmless here exactly when what is deleted after it is the same unit. */
  lemma EchoingHarm(a: QChar, b: QChar, x: QChar, big: int)
    requires big >= 2
    ensures EchoesHarmless(Echoing(a, b, x), big) <==> b == x
  {
    hide Text1, Text2;
    EchoingRun(a, b, x, big);
    EchoingTexts(a, b, x);
    EchoingSmall(a, b, x, big);
    var run := RunAfter(Echoing(a, b, x), Diff(EQUAL, [x]), big);
    if Stands(run) {
      var t: Text :| Text1(run.full) == Text1(run.kept) + t && Text2(run.full) == Text2(run.kept) + t;
      assert [a, x, b, x][1] == ([a, b] + t)[1];
    }
    if b == x {
      assert Text1(run.full) == Text1(run.kept) + [x, x] && Text2(run.full) == Text2(run.kept) + [x, x];
    }
  }

  /** Inserting two units before the equal units of a text. */
  function Inserting(a: QChar, b: QChar, x: QChar): seq<Diff> {
    [Diff(INSERT, [a]), Diff(EQUAL, [x]), Diff(INSERT, [b]), Diff(EQUAL, [x])]
  }

  lemma InsertingRun(a: QChar, b: QChar, x: QChar, big: int)
    requires big >= 2
    ensures RunAfter(Inserting(a, b, x), Diff(EQUAL, [x]), big)
            == Run(Inserting(a, b, x), [Diff(INSERT, [a]), Diff(INSERT, [b])])
    ensures EchoesHarmless(Inserting(a, b, x), big) <==> Stands(RunAfter(Inserting(a, b, x), Diff(EQUAL, [x]), big))
  {
    var final := Diff(EQUAL, [x]);
    var d, e := Diff(INSERT, [a]), Diff(INSERT, [b]);
    RunSnoc([], d, final, big);
    RunSnoc([d], final, final, big);
    RunSnoc([d, final], e, final, big);
    RunSnoc([d, final, e], final, final, big);
    assert [] + [d] == [d] && [d] + [final] == [d, final] && [d, final] + [e] == [d, final, e];
    assert [d, final, e] + [final] == Inserting(a, b, x) && [d] + [e] == [d, e];
    hide RunAfter, Stands;
  }

  lemma InsertingTexts(a: QChar, b: QChar, x: QChar)
    ensures Text1(Inserting(a, b, x)) == [x, x] && Text2(Inserting(a, b, x)) == [a, x, b, x]
    ensures var kept := [Diff(INSERT, [a]), Diff(INSERT, [b])]; Text1(kept) == [] && Text2(kept) == [a, b]
  {
    hide Text1, Text2;
    var final := Diff(EQUAL, [x]);
    var d, e := Diff(INSERT, [a]), Diff(INSERT, [b]);
    Pair(d, final);
    Pair(e, final);
    Pair(d, e);
    Single(d);
    Single(e);
    Single(final);
    assert Inserting(a, b, x) == [d, final] + [e, final];
    Concat([d, final], [e, final]);
  }

  /** Here too the echo is harmless exactly when what is inserted after it is the same unit. */
  lemma InsertingHarm(a: QChar, b: QChar, x: QChar, big: int)
    requires big >= 2
    ensures EchoesHarmless(Inserting(a, b, x), big) <==> b == x
  {
    hide Text1, Text2;
    InsertingRun(a, b, x, big);
    InsertingTexts(a, b, x);
    var run := RunAfter(Inserting(a, b, x), Diff(EQUAL, [x]), big);
    if Stands(run) {
      var t: Text :| Text1(run.full) == Text1(run.kept) + t && Text2(run.full) == Text2(run.kept) + t;
      assert [a, x, b, x][1] == ([a, b] + t)[1];
    }
    if b == x {
      assert Text1(run.full) == Text1(run.kept) + [x, x] && Text2(run.full) == Text2(run.kept) + [x, x];
    }
  }
}
