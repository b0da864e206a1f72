/** The whole of what the engine is for: patches made from the differences of two texts,
    written out, read back elsewhere, and applied. */
module PatchExchange {
  import opened Texts
  import opened Diffs
  import opened Options
  import opened EngineSettings
  import opened ListCursor
  import opened MergeCleanup
  import opened SemanticCleanup
  import opened EfficiencyCleanup
  import opened EditDistance
  import opened EncodedBlocks
  import opened Deadlines
  import opened CostCeiling
  import opened DiffSearch
  import opened Numerals
  import opened TextLists
  import opened PercentCoding
  import opened Patches
  import opened PatchContext
  import opened PatchRuns
  import opened PatchMaking
  import opened PatchText
  import opened PatchApplying

  /** Makes patches and applies them to the text they were made for. If the echoes among the
      diffs are harmless this gives the target, with every patch applied. Wherever the patches
      apply exactly every flag says so, and the text is the target exactly when the echoes are
      harmless. */
  method RoundTrip(dmp: Settings, text1: Text, diffs: seq<Diff>)
    returns (patches: seq<Patch>, text: Text, results: seq<bool>)
    requires Workable(dmp)
    ensures text1 == Text1(diffs) && EchoesHarmless(diffs, 2 * dmp.patchMargin) ==>
              Applicable(patches, text1, dmp.patchMargin) && text == Text2(diffs) && AllTrue(results)
    ensures text1 == Text1(diffs) && Applicable(patches, text1, dmp.patchMargin) ==>
              && Chain(patches, text1, text) && AllTrue(results)
              && (text == Text2(diffs) <==> EchoesHarmless(diffs, 2 * dmp.patchMargin))
    ensures text1 == Text1(diffs) && NoneCloses(diffs, |diffs|, 2 * dmp.patchMargin) ==>
              Lone(dmp, patches, diffs) && AllSized(patches)
  {
    hide Text1, Text2, EchoesHarmless, Chain, AllSized, AllWithin, EdgeReady, AllTrue;
    patches := PatchMake(dmp, text1, diffs);
    text, results := PatchApply(dmp, patches, text1);
    if text1 == Text1(diffs) && EchoesHarmless(diffs, 2 * dmp.patchMargin) {
      ChainOnce(patches, text1, text, Text2(diffs));
    }
  }

  /** Two insertions go wrong unnoticed: the patches made of `Inserting` apply exactly, and
      give another text than the target. */
  lemma InsertingAstray(dmp: Settings, a: QChar, b: QChar, x: QChar, patches: seq<Patch>)
    requires dmp.patchMargin > 0 && Lone(dmp, patches, Inserting(a, b, x)) && AllSized(patches)
    ensures Text1(Inserting(a, b, x)) == [x, x] && Text2(Inserting(a, b, x)) == [a, x, b, x]
    ensures Chain(patches, [x, x], [a, b, x, x]) && Applicable(patches, [x, x], dmp.patchMargin)
    ensures NoneCloses(Inserting(a, b, x), |Inserting(a, b, x)|, 2 * dmp.patchMargin)
  {
    InsertingWhole(dmp.patchMargin, a, b, x);
    InsertingTexts(a, b, x);
    hide *;
    InsertedInFront(dmp, patches, Inserting(a, b, x));
    assert [a, b] + [x, x] == [a, b, x, x];
    StillApplicable(patches, [x, x], [a, b, x, x], dmp.patchMargin);
  }

  lemma StillApplicable(ps: seq<Patch>, t: Text, u: Text, margin: int)
    requires Chain(ps, t, u) && AllSized(ps) && ps != [] && EdgeReady(ps[0], t, margin)
    ensures Applicable(ps, t, margin)
  {
    hide Chain, AllSized, EdgeReady;
  }

  lemma InsertingWhole(margin: int, a: QChar, b: QChar, x: QChar)
    requires margin > 0
    ensures WholeRun(Inserting(a, b, x), margin) == Run(Inserting(a, b, x), [Diff(INSERT, [a]), Diff(INSERT, [b])])
    ensures NoneCloses(Inserting(a, b, x), |Inserting(a, b, x)|, 2 * margin)
  {
    InsertingRun(a, b, x, 2 * margin);
    hide RunAfter;
  }

  /** A patch of the whole list that keeps only insertions puts them in front. */
  lemma InsertedInFront(dmp: Settings, ps: seq<Patch>, diffs: seq<Diff>)
    requires dmp.patchMargin > 0 && Lone(dmp, ps, diffs)
    requires var run := WholeRun(diffs, dmp.patchMargin); run.full == diffs && run.kept != [] && Text1(run.kept) == []
    ensures Chain(ps, Text1(diffs), Text2(WholeRun(diffs, dmp.patchMargin).kept) + Text1(diffs))
    ensures ps != [] && EdgeReady(ps[0], Text1(diffs), dmp.patchMargin)
  {
    hide Text1, Text2, WholeRun, Lone, EdgeReady, Chain;
    var t, s := Text1(diffs), Text2(WholeRun(diffs, dmp.patchMargin).kept);
    assert OccursAt(t, [], 0);
    hide OccursAt;
    LoneApplies(dmp, ps, diffs);
    assert t[..0] + s + t[0..] == s + t;
  }

  /** The diffs are those of a search, `raw`, after the semantic and the efficiency cleanup; no
      more than two are left as they are. */
  ghost predicate CleanedUp(dmp: Settings, raw: seq<Diff>, diffs: seq<Diff>) {
    if |raw| > 2 then
      exists reduced, merged, aligned, cleaned, trimmed ::
        && Cleans(dmp.boundaryScore, raw, reduced, merged, aligned, cleaned)
        && Trims(dmp.diffEditCost, cleaned, trimmed, diffs)
    else diffs == raw
  }

  /** What the search itself may find: in merge-normal form, under the ceiling if it is right,
      and minimal without line mode and without a time limit. */
  ghost predicate Searched(dmp: Settings, text1: Text, text2: Text, raw: seq<Diff>) {
    && Tidy(raw) && Settled(raw)
    && (Transforms(raw, text1, text2) ==> EditCost(raw) <= Ceiling(text1, text2, dmp.diffTimeout > 0.0))
    && (!LineMode(text1, text2, true) && dmp.diffTimeout <= 0.0 ==> Minimal(raw))
  }

  /** What a search between the two texts found, cleaned up. */
  ghost predicate FromTexts(dmp: Settings, text1: Text, text2: Text, diffs: seq<Diff>) {
    exists raw :: SameTexts(raw, diffs) && Searched(dmp, text1, text2, raw) && CleanedUp(dmp, raw, diffs)
  }

  /** Computes the differences of two texts and cleans them up for patches. They turn one text
      into the other exactly when what line mode encodes fits. */
  method PatchDiffs(dmp: Settings, text1: Text, text2: Text) returns (diffs: seq<Diff>)
    ensures Transforms(diffs, text1, text2) <==> LinesFit(text1, text2, true, dmp.diffTimeout > 0.0)
    ensures Countable(text1, text2, true) ==> Transforms(diffs, text1, text2)
    ensures FromTexts(dmp, text1, text2, diffs)
  {
    hide Text1, Text2, EditCost, Countable, LinesFit, Ceiling, Tidy, Settled, Cleans, Trims, LineMode, Minimal, WasLate,
      HalvesIn, Thrifty, MiddleByLines, Transforms;
    var readings: nat -> int := *;
    ghost var looks, halved;
    diffs, looks, halved := DiffTexts(dmp, text1, text2, true, readings);
    ghost var raw := diffs;
    assert Searched(dmp, text1, text2, raw);
    hide Searched;
    if |diffs| > 2 {
      var c := new Cursor(diffs);
      ghost var reduced, merged, aligned := CleanupSemantic(c, dmp.boundaryScore);
      ghost var cleaned := c.items;
      ghost var trimmed := CleanupEfficiency(c, dmp.diffEditCost);
      diffs := c.items;
      assert Trims(dmp.diffEditCost, cleaned, trimmed, diffs);
    }
    SameAccounts(diffs, raw, text1, text2);
    assert CleanedUp(dmp, raw, diffs);
  }

  /** Makes patches from two texts; `diffs` are the differences they were made of. The patches
      chain from one text to the other exactly when the echoes are harmless, which two texts
      that do not end alike make sure of. */
  method PatchMakeTexts(dmp: Settings, text1: Text, text2: Text) returns (patches: seq<Patch>, diffs: seq<Diff>)
    requires dmp.patchMargin > 0
    ensures Transforms(diffs, text1, text2) <==> LinesFit(text1, text2, true, dmp.diffTimeout > 0.0)
    ensures Countable(text1, text2, true) ==> Transforms(diffs, text1, text2)
    ensures FromTexts(dmp, text1, text2, diffs)
    ensures Transforms(diffs, text1, text2) ==>
              && AllSized(patches) && AllWithin(patches, |text1| + |text2|)
              && (Chain(patches, text1, text2) <==> EchoesHarmless(diffs, 2 * dmp.patchMargin))
              && (EchoesHarmless(diffs, 2 * dmp.patchMargin) ==> Makes(patches, diffs, dmp.patchMargin))
              && (EndsDiffer(text1, text2) ==> EchoesHarmless(diffs, 2 * dmp.patchMargin))
  {
    hide EchoesHarmless, Chain, AllSized, AllWithin, Makes, Countable, LinesFit, Text1, Text2, EndsDiffer, FromTexts;
    diffs := PatchDiffs(dmp, text1, text2);
    patches := PatchMake(dmp, text1, diffs);
    if Transforms(diffs, text1, text2) && EndsDiffer(text1, text2) {
      EndsDifferHarmless(diffs, text1, text2, 2 * dmp.patchMargin);
    }
  }

  /** The texts fit what carries the patches: 32 bits measure them, and percent-encoding
      carries the texts in the patches. */
  ghost predicate Sendable(codec: Codec, patches: seq<Patch>, text1: Text, text2: Text) {
    |text1| + |text2| < INT_MAX && (AllCarried(codec, patches) || forall s :: Carries(codec, s))
  }

  /** The sample program: patches made from two texts, written, read back and applied to the
      first. What is read is what was written, and the second text comes out when the echoes
      are harmless; so it does whenever the two texts do not end alike. */
  method SendPatches(dmp: Settings, codec: Codec, text1: Text, text2: Text)
    returns (diffs: seq<Diff>, patches: seq<Patch>, message: Text, received: Result<seq<Patch>>, text: Text,
             results: seq<bool>)
    requires Workable(dmp)
    ensures message == Terminated(AllLines(codec, patches), NEWLINE)
    ensures Transforms(diffs, text1, text2) <==> LinesFit(text1, text2, true, dmp.diffTimeout > 0.0)
    ensures Countable(text1, text2, true) ==> Transforms(diffs, text1, text2)
    ensures FromTexts(dmp, text1, text2, diffs)
    ensures Transforms(diffs, text1, text2) && Sendable(codec, patches, text1, text2) ==> received == Ok(patches)
    ensures Transforms(diffs, text1, text2) && EchoesHarmless(diffs, 2 * dmp.patchMargin) && received == Ok(patches) ==>
              text == text2 && AllTrue(results)
    ensures LinesFit(text1, text2, true, dmp.diffTimeout > 0.0) && EndsDiffer(text1, text2)
            && |text1| + |text2| < INT_MAX && (forall s :: Carries(codec, s)) ==>
              text == text2 && AllTrue(results)
  {
    hide Text1, Text2, EchoesHarmless, Chain, AllSized, AllWithin, EdgeReady, AllTrue, Printable, ParsedLines, AllLines,
      Countable, LinesFit, Carries, EndsDiffer, FromTexts;
    patches, diffs := PatchMakeTexts(dmp, text1, text2);
    message := PatchToText(codec, patches);
    received := PatchFromText(codec, message);
    if Transforms(diffs, text1, text2) && |text1| + |text2| < INT_MAX && AllCarried(codec, patches) {
      MadePrintable(codec, patches, |text1| + |text2|);
      PatchTextRoundTrip(codec, patches);
    }
    match received {
      case Throws =>
        text, results := text1, [];
      case Ok(ps) =>
        text, results := PatchApply(dmp, ps, text1);
        if Transforms(diffs, text1, text2) && EchoesHarmless(diffs, 2 * dmp.patchMargin) && ps == patches {
          ChainOnce(patches, text1, text, text2);
        }
    }
  }

  lemma MadePrintable(codec: Codec, ps: seq<Patch>, size: int)
    requires AllSized(ps) && AllWithin(ps, size) && AllCarried(codec, ps) && size < INT_MAX
    ensures forall i :: 0 <= i < |ps| ==> Printable(codec, ps[i])
  {
    hide Sized, Printable;
    MeasuredPrintable(codec, ps, size);
  }
}
