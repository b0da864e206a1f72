/** Applies patches to a text: each is looked for near the place it expects, moved by where
    the one before it was found. */
module PatchApplying {
  import opened Texts
  import opened Diffs
  import opened EngineSettings
  import opened ListCursor
  import opened MergeCleanup
  import opened Lossless
  import opened EditDistance
  import opened DiffSearch
  import opened DiffMetrics
  import opened Bitap
  import opened Patches
  import opened PatchContext
  import opened PatchMaking
  import opened PatchPadding
  import opened PatchSplitting

  /** Looks for the source text of a patch; a text too long for the matcher is found by its
      two ends. Where it stands as expected it is found there. */
  method Locate(dmp: Settings, text: Text, text1: Text, expectedLoc: int) returns (startLoc: int, endLoc: int)
    requires Matchable(dmp)
    ensures OccursAt(text, text1, expectedLoc) ==>
              startLoc == expectedLoc
              && endLoc == if |text1| > dmp.matchMaxBits then expectedLoc + |text1| - dmp.matchMaxBits else -1
    ensures |text1| <= dmp.matchMaxBits ==> endLoc == -1
    ensures -1 <= startLoc <= |text|
  {
    var n := dmp.matchMaxBits;
    endLoc := -1;
    if |text1| > n {
      if OccursAt(text, text1, expectedLoc) { EndsOccur(text, text1, expectedLoc, n); }
      var found := MatchMain(dmp, text, Left(text1, n), expectedLoc);
      startLoc := found.value;
      if startLoc != -1 {
        found := MatchMain(dmp, text, Right(text1, n), expectedLoc + |text1| - n);
        endLoc := found.value;
        if endLoc == -1 || startLoc >= endLoc {
          startLoc := -1;
        }
      }
    } else {
      var found := MatchMain(dmp, text, text1, expectedLoc);
      startLoc := found.value;
    }
  }

  lemma EndsOccur(text: Text, s: Text, i: int, n: nat)
    requires OccursAt(text, s, i) && n < |s|
    ensures OccursAt(text, Left(s, n), i) && OccursAt(text, Right(s, n), i + |s| - n)
  {
    assert text[i..i + n] == text[i..i + |s|][..n];
    assert text[i + |s| - n..i + |s|] == text[i..i + |s|][|s| - n..];
  }

  /** The text with `n` units at `i` replaced by `s`. */
  function Replaced(text: Text, i: int, n: int, s: Text): Text {
    Left(text, i) + s + MidFrom(text, i + n)
  }

  /** The text with one edit of a patch, at `index1` of the patch, where the diffs put it. */
  ghost function ShoveOne(d: Diff, diffs: seq<Diff>, text: Text, startLoc: int, index1: nat): Text {
    match d.operation
    case EQUAL => text
    case INSERT =>
      Left(text, startLoc + XIndex(diffs, index1)) + d.text + MidFrom(text, startLoc + XIndex(diffs, index1))
    case DELETE =>
      Left(text, startLoc + XIndex(diffs, index1)) + MidFrom(text, startLoc + XIndex(diffs, index1 + |d.text|))
  }

  /** The text with all of them, one after another. */
  ghost function Shoved(es: seq<Diff>, diffs: seq<Diff>, text: Text, startLoc: int, index1: nat): Text
    decreases |es|
  {
    if es == [] then text
    else Shoved(es[1..], diffs, ShoveOne(es[0], diffs, text, startLoc, index1), startLoc, Further(es[0], index1))
  }

  function Further(d: Diff, index1: nat): nat {
    if d.operation != DELETE then index1 + |d.text| else index1
  }

  /** The edits ask for no place past the first `n` units. */
  predicate InReach(es: seq<Diff>, index1: nat, n: nat)
    decreases |es|
  {
    es == []
    || (InReach(es[1..], Further(es[0], index1), n)
        && match es[0].operation
           case EQUAL => true
           case INSERT => index1 <= n
           case DELETE => index1 + |es[0].text| <= n)
  }

  /** One edit between two equalities. */
  function Framed(a: Text, e: Diff, b: Text): seq<Diff> {
    [Diff(EQUAL, a), e, Diff(EQUAL, b)]
  }

  /** An insertion arrives where the diffs put its place, and all else stays. */
  lemma InsertionArrives(l: Text, diffs: seq<Diff>, m: Text, a: Text, t: Text, b: Text)
    requires |a| <= |Text1(diffs)|
    ensures var text2, x := Text2(diffs), XIndex(diffs, |a|);
            && x <= |text2|
            && Shoved(Framed(a, Diff(INSERT, t), b), diffs, l + text2 + m, |l|, 0)
               == l + text2[..x] + t + text2[x..] + m
  {
    hide Shoved, XIndex, Text1, Text2, Left, MidFrom, Framed;
    var text2, x := Text2(diffs), XIndex(diffs, |a|);
    XIndexRange(diffs, |a|);
    ShovedOnce(a, Diff(INSERT, t), b, diffs, l + text2 + m, |l|);
    CutInside(l, text2, m, x);
    Associate(l + text2[..x] + t, text2[x..], m);
  }

  lemma Associate(a: Text, b: Text, c: Text)
    ensures a + (b + c) == a + b + c
  {
  }

  /** A deletion takes out what lies between where the diffs put its ends, and no more. */
  lemma DeletionArrives(l: Text, diffs: seq<Diff>, m: Text, a: Text, t: Text, b: Text)
    requires |a| + |t| <= |Text1(diffs)|
    ensures var text2, x, y := Text2(diffs), XIndex(diffs, |a|), XIndex(diffs, |a| + |t|);
            && x <= y <= |text2|
            && Shoved(Framed(a, Diff(DELETE, t), b), diffs, l + text2 + m, |l|, 0)
               == l + text2[..x] + text2[y..] + m
  {
    hide Shoved, XIndex, Text1, Text2, Left, MidFrom, Framed;
    var text2, x, y := Text2(diffs), XIndex(diffs, |a|), XIndex(diffs, |a| + |t|);
    XIndexRange(diffs, |a|);
    XIndexRange(diffs, |a| + |t|);
    XIndexMonotone(diffs, |a|, |a| + |t|);
    ShovedOnce(a, Diff(DELETE, t), b, diffs, l + text2 + m, |l|);
    CutInside(l, text2, m, x);
    CutInside(l, text2, m, y);
    Associate(l + text2[..x], text2[y..], m);
  }

  lemma ShovedOnce(a: Text, e: Diff, b: Text, diffs: seq<Diff>, text: Text, startLoc: int)
    ensures Shoved(Framed(a, e, b), diffs, text, startLoc, 0) == ShoveOne(e, diffs, text, startLoc, |a|)
  {
    hide XIndex;
    var d, f := Diff(EQUAL, a), Diff(EQUAL, b);
    assert [d, e, f][1..] == [e, f] && [e, f][1..] == [f] && [f][1..] == [];
    var text' := ShoveOne(e, diffs, text, startLoc, |a|);
    assert Shoved([f], diffs, text', startLoc, Further(e, |a|)) == text';
    assert Shoved([e, f], diffs, text, startLoc, |a|) == text';
  }

  lemma CutInside(l: Text, t: Text, m: Text, x: nat)
    requires x <= |t|
    ensures Left(l + t + m, |l| + x) == l + t[..x] && MidFrom(l + t + m, |l| + x) == t[x..] + m
  {
  }

  /** Moves the edits of a patch to where the diffs say their places are in what was found. The
      text before that stays. */
  method ShoveEdits(p: Patch, diffs: seq<Diff>, text: Text, startLoc: int) returns (r: Text)
    ensures InReach(p.diffs, 0, |Text1(diffs)|) ==> r == Shoved(p.diffs, diffs, text, startLoc, 0)
    ensures FrontKept(r, text, startLoc)
  {
    hide XIndex, Text1, ShoveOne, Left, MidFrom, FrontKept;
    FrontSelf(text, startLoc);
    r := text;
    var index1: nat := 0;
    ghost var reach := InReach(p.diffs, 0, |Text1(diffs)|);
    assert p.diffs[0..] == p.diffs;
    for i := 0 to |p.diffs|
      invariant FrontKept(r, text, startLoc)
      invariant reach ==>
                  && InReach(p.diffs[i..], index1, |Text1(diffs)|)
                  && Shoved(p.diffs[i..], diffs, r, startLoc, index1) == Shoved(p.diffs, diffs, text, startLoc, 0)
    {
      var d := p.diffs[i];
      assert p.diffs[i..][0] == d && p.diffs[i..][1..] == p.diffs[i + 1..];
      ghost var r0, index0 := r, index1;
      if d.operation != EQUAL {
        var index2 := DiffXIndex(diffs, index1);
        if d.operation == INSERT {
          FrontStays(r, startLoc, index2, index2, d.text);
          r := Left(r, startLoc + index2) + d.text + MidFrom(r, startLoc + index2);
        } else {
          var end := DiffXIndex(diffs, index1 + |d.text|);
          FrontStays(r, startLoc, index2, end, []);
          r := Left(r, startLoc + index2) + MidFrom(r, startLoc + end);
        }
      }
      FrontSelf(r0, startLoc);
      FrontKeptTwice(r, r0, text, startLoc);
      if reach { ShovedOne(d, diffs, r0, startLoc, index0, r); }
      if d.operation != DELETE {
        index1 := index1 + |d.text|;
      }
    }
    assert p.diffs[|p.diffs|..] == [];
  }

  lemma FrontStays(r: Text, startLoc: int, i: nat, j: nat, t: Text)
    ensures FrontKept(Left(r, startLoc + i) + t + MidFrom(r, startLoc + j), r, startLoc)
    ensures FrontKept(Left(r, startLoc + i) + MidFrom(r, startLoc + j), r, startLoc)
  {
  }

  /** If there is a text before `n` it is the same in both. */
  predicate FrontKept(r: Text, text: Text, n: int) {
    0 <= n <= |text| ==> n <= |r| && r[..n] == text[..n]
  }

  lemma FrontSelf(text: Text, n: int)
    ensures FrontKept(text, text, n)
  {
  }

  lemma FrontKeptTwice(r: Text, s: Text, text: Text, n: int)
    requires FrontKept(r, s, n) && FrontKept(s, text, n)
    ensures FrontKept(r, text, n)
  {
  }

  lemma ShovedOne(d: Diff, diffs: seq<Diff>, r: Text, startLoc: int, index1: nat, r': Text)
    requires d.operation == EQUAL ==> r' == r
    requires d.operation == INSERT ==>
               r' == Left(r, startLoc + XIndex(diffs, index1)) + d.text + MidFrom(r, startLoc + XIndex(diffs, index1))
    requires d.operation == DELETE ==>
               r' == Left(r, startLoc + XIndex(diffs, index1))
                     + MidFrom(r, startLoc + XIndex(diffs, index1 + |d.text|))
    ensures r' == ShoveOne(d, diffs, r, startLoc, index1)
  {
  }

  /** The texts are within the delete threshold of each other. */
  ghost predicate CloseEnough(dmp: Settings, text1: Text, text2: Text) {
    Levenshtein(text1, text2) as real <= dmp.patchDeleteThreshold * |text1| as real
  }

  predicate WithinShare(m: int, n: int, bound: real)
    requires n > 0
  {
    m as real / n as real <= bound
  }

  lemma CountCloseEnough(dmp: Settings, text1: Text, text2: Text, count: int)
    requires text1 != [] && Levenshtein(text1, text2) <= count
    requires WithinShare(count, |text1|, dmp.patchDeleteThreshold)
    ensures CloseEnough(dmp, text1, text2)
  {
    hide Levenshtein;
    ShareScales(count, |text1|, dmp.patchDeleteThreshold);
  }

  lemma ShareScales(m: int, n: int, bound: real)
    requires n > 0 && WithinShare(m, n, bound)
    ensures m as real <= bound * n as real
  {
    assert m as real == (m as real / n as real) * n as real;
  }

  /** An imperfect match: the edits are carried over, except where a long source was found by
      its ends and what lies between them is too far, in true Levenshtein distance, from it. */
  method ApplyImperfect(dmp: Settings, p: Patch, text: Text, startLoc: int, text1: Text, text2: Text)
    returns (r: Text, applied: bool, ghost framework: seq<Diff>)
    requires Matchable(dmp)
    ensures !applied ==> r == text
    ensures applied ==> Transforms(framework, text1, text2)
                        && (InReach(p.diffs, 0, |text1|) ==> r == Shoved(p.diffs, framework, text, startLoc, 0))
    ensures FrontKept(r, text, startLoc)
    ensures |text1| <= dmp.matchMaxBits ==> applied
    ensures applied && |text1| > dmp.matchMaxBits ==> CloseEnough(dmp, text1, text2)
  {
    hide CloseEnough, WithinShare, Levenshtein, Aligns, Realigns, Tidy, Settled, Minimal, NoBlank, Text1, Text2, Shoved,
      InReach, FrontKept, EditCost, MiddleByLines, RunCount;
    FrontSelf(text, startLoc);
    r, applied, framework := text, true, [];
    var readings: nat -> int := *;
    var diffs;
    ghost var looks, halved;
    diffs, looks, halved := DiffTexts(dmp, text1, text2, false, readings);
    if |text1| > dmp.matchMaxBits {
      var levenshtein := DiffLevenshtein(diffs);
      applied := WithinShare(levenshtein, |text1|, dmp.patchDeleteThreshold);
      if applied { CountCloseEnough(dmp, text1, text2, levenshtein); }
    }
    if applied {
      var c := new Cursor(diffs);
      CleanupSemanticLossless(c, dmp.boundaryScore);
      AlignedTransforms(c.items, diffs, text1, text2);
      framework := c.items;
      r := ShoveEdits(p, c.items, text, startLoc);
    }
  }

  lemma AlignedTransforms(es: seq<Diff>, ds: seq<Diff>, a: Text, b: Text)
    requires Realigns(es, ds) && Transforms(ds, a, b)
    ensures Transforms(es, a, b)
  {
  }

  /** Each edit of the patch went where some diff of its source and what stands at `at` puts its
      place, if they all have one. */
  ghost predicate ShovedInto(p: Patch, text: Text, at: int, r: Text) {
    InReach(p.diffs, 0, |Text1(p.diffs)|) ==>
      exists framework :: Transforms(framework, Text1(p.diffs), Mid(text, at, |Text1(p.diffs)|))
                          && r == Shoved(p.diffs, framework, text, at, 0)
  }

  lemma FrameworkShoves(p: Patch, text: Text, at: int, r: Text, framework: seq<Diff>)
    requires Transforms(framework, Text1(p.diffs), Mid(text, at, |Text1(p.diffs)|))
    requires InReach(p.diffs, 0, |Text1(p.diffs)|) ==> r == Shoved(p.diffs, framework, text, at, 0)
    ensures ShovedInto(p, text, at, r)
  {
    hide Transforms, InReach, Shoved, Text1, Text2, Mid;
  }

  lemma ReplacedFront(text: Text, at: int, s: Text, t: Text)
    requires 0 <= at <= |text|
    ensures FrontKept(Replaced(text, at, |s|, t), text, at)
    ensures OccursAt(text, s, at) ==> Replaced(text, at, |s|, t) == text[..at] + t + text[at + |s|..]
  {
  }

  lemma FitsInside(p: Patch, text: Text)
    ensures Fits(p, text) ==> 0 <= p.start2 && p.start2 + |Text1(p.diffs)| <= |text|
  {
  }

  lemma StandsThere(text: Text, s: Text, at: int)
    requires 0 <= at <= |text|
    ensures Mid(text, at, |s|) == s <==> OccursAt(text, s, at)
  {
  }

  /** Applies one patch. Where its source text stands as expected it is replaced by the target
      text and the offset is none; a short source found anywhere is replaced there, and where it
      was found with errors each edit goes where a diff of the two puts its place. The text
      before that stays, and a patch that is not applied leaves the text alone. */
  method ApplyPatch(dmp: Settings, p: Patch, text: Text, delta: int)
    returns (r: Text, applied: bool, delta': int, ghost at: int)
    requires Matchable(dmp)
    ensures delta == 0 && Fits(p, text) ==> r == Splice(text, p) && applied && delta' == 0
    ensures applied && |Text1(p.diffs)| <= dmp.matchMaxBits && OccursAt(text, Text1(p.diffs), at) ==>
              r == text[..at] + Text2(p.diffs) + text[at + |Text1(p.diffs)|..]
    ensures !applied ==> r == text
    ensures FrontKept(r, text, at)
    ensures applied && |Text1(p.diffs)| <= dmp.matchMaxBits && !OccursAt(text, Text1(p.diffs), at) ==>
              ShovedInto(p, text, at, r)
    ensures delta' == if at == -1 then delta - (p.length2 - p.length1) else at - (p.start2 + delta)
  {
    hide Matchable, Text1, Text2, InReach, Shoved, ShovedInto, FrontKept, Transforms, OccursAt, Mid, Replaced,
      CloseEnough;
    FrontSelf(text, -1);
    FitsInside(p, text);
    var expectedLoc := p.start2 + delta;
    var text1 := DiffText1(p.diffs);
    var startLoc, endLoc := Locate(dmp, text, text1, expectedLoc);
    at := startLoc;
    if startLoc == -1 {
      return text, false, delta - (p.length2 - p.length1), at;
    }
    delta' := startLoc - expectedLoc;
    StandsThere(text, text1, startLoc);
    var text2 := if endLoc == -1 then Mid(text, startLoc, |text1|)
                 else Mid(text, startLoc, endLoc + dmp.matchMaxBits - startLoc);
    if text1 == text2 {
      var replacement := DiffText2(p.diffs);
      ReplacedFront(text, startLoc, text1, replacement);
      r, applied := Replaced(text, startLoc, |text1|, replacement), true;
    } else {
      ghost var framework;
      r, applied, framework := ApplyImperfect(dmp, p, text, startLoc, text1, text2);
      if applied && endLoc == -1 { FrameworkShoves(p, text, at, r, framework); }
    }
  }

  // ----- the whole list -----

  ghost predicate AllTrue(flags: seq<bool>) {
    forall i :: 0 <= i < |flags| ==> flags[i]
  }

  ghost predicate AllFalse(flags: seq<bool>) {
    forall i :: 0 <= i < |flags| ==> !flags[i]
  }

  /** Patches that apply exactly, as the patch maker leaves them. */
  ghost predicate Applicable(ps: seq<Patch>, text: Text, margin: int) {
    && (exists u :: Chain(ps, text, u)) && AllSized(ps)
    && (ps != [] ==> EdgeReady(ps[0], text, margin))
  }

  lemma ChainNext(ps: seq<Patch>, i: nat, t: Text, u: Text)
    requires i < |ps| && Chain(ps[i..], t, u)
    ensures Fits(ps[i], t) && Chain(ps[i + 1..], Splice(t, ps[i]), u)
  {
    assert ps[i..][0] == ps[i] && ps[i..][1..] == ps[i + 1..];
  }

  lemma ChainDone(ps: seq<Patch>, t: Text, u: Text)
    requires Chain(ps[|ps|..], t, u)
    ensures t == u
  {
  }

  /** Looks for each patch in turn. Patches that apply exactly in order are all applied, with
      no offset between them; and where no patch is applied the text stays. */
  method ApplyAll(dmp: Settings, ps: seq<Patch>, text: Text, ghost u: Text) returns (r: Text, results: seq<bool>)
    requires Matchable(dmp)
    ensures |results| == |ps|
    ensures Chain(ps, text, u) ==> r == u && AllTrue(results)
    ensures AllFalse(results) ==> r == text
  {
    hide Chain, Fits, Splice, Matchable, OccursAt, Text1, Text2;
    ghost var ok := Chain(ps, text, u);
    r, results := text, [];
    var delta := 0;
    assert ps[0..] == ps;
    for i := 0 to |ps|
      invariant |results| == i
      invariant ok ==> Chain(ps[i..], r, u) && delta == 0 && AllTrue(results)
      invariant AllFalse(results) ==> r == text
    {
      if ok { ChainNext(ps, i, r, u); }
      ghost var before := results;
      var applied;
      ghost var at;
      r, applied, delta, at := ApplyPatch(dmp, ps[i], r, delta);
      results := results + [applied];
      FlagsSnoc(before, applied);
    }
    if ok { ChainDone(ps, r, u); }
  }

  lemma FlagsSnoc(flags: seq<bool>, b: bool)
    ensures AllTrue(flags + [b]) <==> AllTrue(flags) && b
    ensures AllFalse(flags + [b]) <==> AllFalse(flags) && !b
  {
    if AllTrue(flags + [b]) {
      assert (flags + [b])[|flags|] == b;
      assert forall i :: 0 <= i < |flags| ==> (flags + [b])[i] == flags[i];
    }
    if AllFalse(flags + [b]) {
      assert (flags + [b])[|flags|] == b;
      assert forall i :: 0 <= i < |flags| ==> (flags + [b])[i] == flags[i];
    }
  }

  lemma Stripped(pad: Text, t: Text)
    ensures var text := pad + t + pad; Mid(text, |pad|, |text| - 2 * |pad|) == t
  {
  }

  /** Applies the patches: pads text and patches, splits long patches, looks for each patch
      in turn and strips the padding. Patches that apply exactly give exactly the text they
      chain to, and every flag says so. */
  method PatchApply(dmp: Settings, patches: seq<Patch>, sourceText: Text) returns (text: Text, results: seq<bool>)
    requires Workable(dmp)
    ensures Applicable(patches, sourceText, dmp.patchMargin) ==> Chain(patches, sourceText, text) && AllTrue(results)
    ensures AllFalse(results) ==> text == sourceText
  {
    hide Chain, AllSized, EdgeReady, AllMeasured, AllFindable, AllTrue, AllFalse, Padded, AllBumped, NullPadding, Mid;
    if patches == [] {
      NothingApplied(sourceText);
      return sourceText, [];
    }
    ghost var ok := Applicable(patches, sourceText, dmp.patchMargin);
    ghost var u: Text :| ok ==> Chain(patches, sourceText, u);
    var patchesCopy := new Cursor(patches);
    var nullPadding := AddPadding(dmp, patchesCopy);
    ghost var padded, goal := nullPadding + sourceText + nullPadding, nullPadding + u + nullPadding;
    if ok { PaddedChain(patches, nullPadding, sourceText, u); }
    SplitMax(dmp, patchesCopy, padded, goal);
    text, results := ApplyAll(dmp, patchesCopy.items, nullPadding + sourceText + nullPadding, goal);
    Stripped(nullPadding, u);
    Stripped(nullPadding, sourceText);
    text := Mid(text, |nullPadding|, |text| - 2 * |nullPadding|);
  }

  lemma NothingApplied(t: Text)
    ensures Chain([], t, t) && AllTrue([])
  {
  }
}
