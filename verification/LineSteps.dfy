/** The steps of a diff in line mode: the line-level diff, what the semantic cleanup makes of it,
    and the blocks diffed afresh. */
module LineSteps {
  import opened Texts
  import opened Diffs
  import opened EngineSettings
  import opened MergeCleanup
  import opened Lossless
  import opened EqualityStack
  import opened SemanticCleanup
  import opened EditDistance
  import opened LineCoding
  import opened CostCeiling

  ghost predicate HasOp(run: seq<Diff>, op: Operation) {
    exists i :: 0 <= i < |run| && run[i].operation == op
  }

  lemma HasOpSnoc(run: seq<Diff>, d: Diff, op: Operation)
    ensures HasOp(run + [d], op) <==> HasOp(run, op) || d.operation == op
  {
    if HasOp(run, op) {
      var i :| 0 <= i < |run| && run[i].operation == op;
      assert (run + [d])[i].operation == op;
    }
    assert (run + [d])[|run|] == d;
  }

  /** What a block of edits becomes: with deletions and insertions in it a diff of its two texts,
      in merge-normal form, that keeps the half matches it finds; without a time limit it edits
      no more than the distance. Any other block stays. */
  ghost predicate Redone(timed: bool, endless: bool, run: seq<Diff>, fs: seq<Diff>) {
    if HasOp(run, DELETE) && HasOp(run, INSERT) then
      && Transforms(fs, Text1(run), Text2(run)) && Tidy(fs) && Settled(fs)
      && EditCost(fs) <= Ceiling(Text1(run), Text2(run), timed)
      && (endless ==> EditCost(fs) <= Distance(Text1(run), Text2(run)))
    else fs == run
  }

  /** `es` is `ds` with each block between equalities redone. */
  ghost predicate Rediffs(timed: bool, endless: bool, ds: seq<Diff>, es: seq<Diff>)
    decreases |ds|
  {
    if ds == [] then es == []
    else if ds[0].operation == EQUAL then
      es != [] && es[0] == ds[0] && Rediffs(timed, endless, ds[1..], es[1..])
    else
      var run := EditsFrom(ds, 0);
      exists fs, rest ::
        es == fs + rest && Redone(timed, endless, run, fs) && Rediffs(timed, endless, ds[|run|..], rest)
  }

  lemma RediffsBlock(timed: bool, endless: bool, run: seq<Diff>, fs: seq<Diff>, rest: seq<Diff>, gs: seq<Diff>)
    requires AllEdits(run) && (rest == [] || rest[0].operation == EQUAL)
    requires Redone(timed, endless, run, fs) && Rediffs(timed, endless, rest, gs)
    ensures Rediffs(timed, endless, run + rest, fs + gs)
  {
    hide Redone;
    if run == [] {
      assert run + rest == rest && fs + gs == gs by { NothingRedone(timed, endless, fs); }
    } else {
      EditsInFront(run, rest);
      assert (run + rest)[0] == run[0] && (run + rest)[|run|..] == rest;
    }
  }

  lemma NothingRedone(timed: bool, endless: bool, fs: seq<Diff>)
    requires Redone(timed, endless, [], fs)
    ensures fs == []
  {
  }

  lemma RediffsEqual(timed: bool, endless: bool, d: Diff, rest: seq<Diff>, gs: seq<Diff>)
    requires d.operation == EQUAL && Rediffs(timed, endless, rest, gs)
    ensures Rediffs(timed, endless, [d] + rest, [d] + gs)
  {
    assert ([d] + rest)[1..] == rest && ([d] + gs)[1..] == gs;
  }

  /** Whatever `todo` is redone to, after `done` it is what `ds` is redone to. */
  ghost predicate Goes(timed: bool, endless: bool, ds: seq<Diff>, done: seq<Diff>, todo: seq<Diff>) {
    forall fs :: Rediffs(timed, endless, todo, fs) ==> Rediffs(timed, endless, ds, done + fs)
  }

  lemma GoesStart(timed: bool, endless: bool, ds: seq<Diff>)
    ensures Goes(timed, endless, ds, [], ds)
  {
    hide Rediffs;
    forall fs | Rediffs(timed, endless, ds, fs) ensures Rediffs(timed, endless, ds, [] + fs) {
      assert [] + fs == fs;
    }
  }

  lemma GoesBlock(timed: bool, endless: bool, ds: seq<Diff>, done: seq<Diff>, run: seq<Diff>, fs: seq<Diff>,
                  rest: seq<Diff>)
    requires Goes(timed, endless, ds, done, run + rest) && Redone(timed, endless, run, fs)
    requires AllEdits(run) && (rest == [] || rest[0].operation == EQUAL)
    ensures Goes(timed, endless, ds, done + fs, rest)
  {
    hide Rediffs, Redone;
    forall gs | Rediffs(timed, endless, rest, gs) ensures Rediffs(timed, endless, ds, done + fs + gs) {
      RediffsBlock(timed, endless, run, fs, rest, gs);
      assert done + fs + gs == done + (fs + gs);
    }
  }

  lemma GoesEqual(timed: bool, endless: bool, ds: seq<Diff>, done: seq<Diff>, d: Diff, rest: seq<Diff>)
    requires Goes(timed, endless, ds, done, [d] + rest) && d.operation == EQUAL
    ensures Goes(timed, endless, ds, done + [d], rest)
  {
    hide Rediffs;
    forall gs | Rediffs(timed, endless, rest, gs) ensures Rediffs(timed, endless, ds, done + [d] + gs) {
      RediffsEqual(timed, endless, d, rest, gs);
      assert done + [d] + gs == done + ([d] + gs);
    }
  }

  lemma GoesEnd(timed: bool, endless: bool, ds: seq<Diff>, done: seq<Diff>)
    requires Goes(timed, endless, ds, done, [])
    ensures Rediffs(timed, endless, ds, done)
  {
    assert Rediffs(timed, endless, [], []);
    assert done + [] == done;
  }

  /** Without a time limit redoing the blocks never edits more. */
  lemma {:induction false} RediffsCost(timed: bool, ds: seq<Diff>, es: seq<Diff>)
    requires Rediffs(timed, true, ds, es)
    ensures EditCost(es) <= EditCost(ds)
    decreases |ds|
  {
    hide Redone;
    if ds != [] && ds[0].operation == EQUAL {
      RediffsCost(timed, ds[1..], es[1..]);
    } else if ds != [] {
      var run := EditsFrom(ds, 0);
      var fs, rest :| es == fs + rest && Redone(timed, true, run, fs) && Rediffs(timed, true, ds[|run|..], rest);
      RediffsCost(timed, ds[|run|..], rest);
      RedoneCost(timed, run, fs);
      RunInFront(ds);
      Concat(run, ds[|run|..]);
      Concat(fs, rest);
    }
  }

  lemma RedoneCost(timed: bool, run: seq<Diff>, fs: seq<Diff>)
    requires Redone(timed, true, run, fs)
    ensures EditCost(fs) <= EditCost(run)
  {
    CostAtLeastDistance(run);
    hide Distance;
  }

  // ----- the whole of line mode -----

  /** What line mode goes through: the encoded texts and their diff, the stages of the cleanup of
      the decoded diff, and what the cleanup ends with. */
  datatype LineWork = LineWork(chars1: Text, chars2: Text, lineArray: seq<Text>, coarse: seq<Diff>,
                               reduced: seq<Diff>, merged: seq<Diff>, aligned: seq<Diff>, cleaned: seq<Diff>)

  /** The line-level diff turns one list of lines into the other, in merge-normal form, and
      without a time limit edits no more lines than the distance. */
  ghost predicate Coarse(timed: bool, endless: bool, w: LineWork) {
    && Transforms(w.coarse, w.chars1, w.chars2) && Tidy(w.coarse) && Settled(w.coarse)
    && EditCost(w.coarse) <= Ceiling(w.chars1, w.chars2, timed)
    && (endless ==> EditCost(w.coarse) <= Distance(w.chars1, w.chars2))
  }

  ghost predicate Encodes(text1: Text, text2: Text, w: LineWork) {
    exists hash :: Encoding(text1, text2, w.chars1, w.chars2, w.lineArray, hash)
  }

  /** The texts encoded, diffed line by line, decoded, cleaned up, and the blocks redone; a blank
      equality at the end closes the last block. */
  ghost predicate LineStepsTaken(score: Score, timed: bool, endless: bool, text1: Text, text2: Text, w: LineWork,
                                 diffs: seq<Diff>) {
    && Encodes(text1, text2, w) && Coarse(timed, endless, w)
    && Cleans(score, Decoded(w.coarse, w.lineArray), w.reduced, w.merged, w.aligned, w.cleaned)
    && Rediffs(timed, endless, w.cleaned + [DUMMY], diffs + [DUMMY])
  }

  /** The diff is what line mode makes of the two texts. */
  ghost predicate ByLines(score: Score, timed: bool, endless: bool, text1: Text, text2: Text, diffs: seq<Diff>) {
    exists w :: LineStepsTaken(score, timed, endless, text1, text2, w, diffs)
  }

  /** Without a time limit, and with no trivial equality among the decoded diffs, line mode edits
      no more than the diff of whole lines does. */
  lemma NoMoreThanLines(score: Score, timed: bool, text1: Text, text2: Text, w: LineWork, diffs: seq<Diff>)
    requires LineStepsTaken(score, timed, true, text1, text2, w, diffs)
    requires forall i :: !TrivialAt(Decoded(w.coarse, w.lineArray), i)
    ensures EditCost(diffs) <= EditCost(Decoded(w.coarse, w.lineArray))
  {
    RediffsCost(timed, w.cleaned + [DUMMY], diffs + [DUMMY]);
    WithLast(w.cleaned, DUMMY);
    WithLast(diffs, DUMMY);
    hide EditCost, TrivialAt, Rediffs, Coarse, Encodes, Reduces, Aligns, Extracts;
  }
}
