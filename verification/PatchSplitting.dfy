/** Breaks patches longer than the matcher's words into pieces that overlap by a margin of
    context. Applied exactly in order the pieces do what the patch did. */
module PatchSplitting {
  import opened Texts
  import opened Diffs
  import opened MergeCleanup
  import opened EngineSettings
  import opened ListCursor
  import opened Patches
  import opened DiffSearch

  /** A long deletion let through whole: an equality, the deletion, perhaps an equality. */
  predicate Monster(diffs: seq<Diff>, big: int) {
    && 2 <= |diffs| <= 3 && diffs[0].operation == EQUAL && diffs[1].operation == DELETE
    && |diffs[1].text| > 2 * big && (|diffs| == 3 ==> diffs[2].operation == EQUAL)
  }

  /** A piece the matcher can look for: short, or a long deletion it finds by its ends. */
  ghost predicate Findable(p: Patch, big: int) {
    Measured(p) && p.diffs != [] && (p.length1 <= big || Monster(p.diffs, big))
  }

  ghost predicate AllFindable(ps: seq<Patch>, big: int) {
    forall i :: 0 <= i < |ps| ==> Findable(ps[i], big)
  }

  /** Units removed net of units added. */
  ghost function Shrinkage(ps: seq<Patch>): int {
    if ps == [] then 0 else ps[0].length1 - ps[0].length2 + Shrinkage(ps[1..])
  }

  /** Each patch starts in the source text where it starts in the target text, but for what
      the patches before it removed, and `n`. */
  ghost predicate Drifts(ps: seq<Patch>, n: int) {
    ps == []
    || (ps[0].start1 - ps[0].start2 == n && Drifts(ps[1..], n + ps[0].length1 - ps[0].length2))
  }

  lemma {:induction false} DriftsSnoc(ps: seq<Patch>, p: Patch, n: int)
    requires Drifts(ps, n) && p.start1 - p.start2 == n + Shrinkage(ps)
    ensures Drifts(ps + [p], n) && Shrinkage(ps + [p]) == Shrinkage(ps) + p.length1 - p.length2
  {
    if ps == [] {
      assert ps + [p] == [p] && [p][1..] == [];
    } else {
      assert (ps + [p])[1..] == ps[1..] + [p];
      DriftsSnoc(ps[1..], p, n + ps[0].length1 - ps[0].length2);
    }
  }

  // ----- filling one piece -----

  /** The chunk and the rest have the texts of the whole. */
  ghost predicate Cuts(all: seq<Diff>, chunk: seq<Diff>, rest: seq<Diff>) {
    Text1(all) == Text1(chunk) + Text1(rest) && Text2(all) == Text2(chunk) + Text2(rest)
  }

  /** The piece holds the context before it and the chunk, within its room. */
  ghost predicate Filling(dmp: Settings, pre: Text, chunk: seq<Diff>, p: Patch) {
    && p.diffs == Affix(pre) + chunk
    && p.length1 == |pre| + |Text1(chunk)| && p.length2 == |pre| + |Text2(chunk)|
    && (p.length1 <= dmp.matchMaxBits - dmp.patchMargin
        || (Monster(p.diffs, dmp.matchMaxBits) && |p.diffs| == 2))
  }

  function Total(ds: seq<Diff>): nat {
    |ds| + |Text1(ds)|
  }

  /** The list with the first `n` units of its first diff taken off. */
  function Taken(ds: seq<Diff>, n: nat): seq<Diff>
    requires ds != [] && n <= |ds[0].text|
  {
    if n == |ds[0].text| then ds[1..] else [Diff(ds[0].operation, ds[0].text[n..])] + ds[1..]
  }

  lemma TakenCuts(ds: seq<Diff>, n: nat)
    requires ds != [] && n <= |ds[0].text|
    ensures Cuts(ds, [Diff(ds[0].operation, ds[0].text[..n])], Taken(ds, n))
    ensures n == |ds[0].text| || (0 < n && ds[0].operation != INSERT) ==> Total(Taken(ds, n)) < Total(ds)
  {
    var d, rest := ds[0], ds[1..];
    assert ds == [d] + rest;
    if n == |d.text| {
      assert d.text[..n] == d.text;
      WithFirst(d, rest);
      Single(d);
    } else {
      SplitFirst(d.operation, d.text[..n], d.text[n..], rest);
      assert d == Diff(d.operation, d.text[..n] + d.text[n..]);
    }
  }

  /** A first diff cut in two. */
  lemma SplitFirst(op: Operation, l: Text, r: Text, rest: seq<Diff>)
    ensures Cuts([Diff(op, l + r)] + rest, [Diff(op, l)], [Diff(op, r)] + rest)
    ensures op != INSERT ==> |Text1([Diff(op, r)] + rest)| + |l| == |Text1([Diff(op, l + r)] + rest)|
  {
    WithFirst(Diff(op, l + r), rest);
    WithFirst(Diff(op, r), rest);
    Single(Diff(op, l));
    hide Text1, Text2;
    Regroup(l, r, Text1(rest));
    Regroup(l, r, Text2(rest));
  }

  lemma CutsOn(all: seq<Diff>, chunk: seq<Diff>, rest: seq<Diff>, d: Diff, rest': seq<Diff>)
    requires Cuts(all, chunk, rest) && Cuts(rest, [d], rest')
    ensures Cuts(all, chunk + [d], rest')
  {
    WithLast(chunk, d);
    Single(d);
    hide Text1, Text2;
    Regroup(Text1(chunk), Text1([d]), Text1(rest'));
    Regroup(Text2(chunk), Text2([d]), Text2(rest'));
  }

  lemma FillOn(dmp: Settings, pre: Text, chunk: seq<Diff>, p: Patch, d: Diff, p': Patch)
    requires Filling(dmp, pre, chunk, p)
    requires p'.diffs == p.diffs + [d]
    requires p'.length1 == p.length1 + (if d.operation == INSERT then 0 else |d.text|)
    requires p'.length2 == p.length2 + (if d.operation == DELETE then 0 else |d.text|)
    requires p'.length1 <= dmp.matchMaxBits - dmp.patchMargin
             || (Monster(p'.diffs, dmp.matchMaxBits) && |p'.diffs| == 2)
    ensures Filling(dmp, pre, chunk + [d], p')
  {
    WithLast(chunk, d);
    assert Affix(pre) + (chunk + [d]) == Affix(pre) + chunk + [d];
  }

  lemma AllEqualSnoc(ds: seq<Diff>, d: Diff)
    ensures AllEqual(ds + [d]) <==> AllEqual(ds) && d.operation == EQUAL
  {
    if AllEqual(ds + [d]) {
      assert (ds + [d])[|ds|] == d;
      assert forall i :: 0 <= i < |ds| ==> (ds + [d])[i] == ds[i];
    }
  }

  /** How many units of the first diff the piece takes: an insertion whole, a long deletion
      after an equality whole, anything else as much as fits. */
  function Bite(dmp: Settings, p: Patch, d: Diff): int {
    if d.operation == INSERT then |d.text|
    else if d.operation == DELETE && |p.diffs| == 1 && p.diffs[0].operation == EQUAL
            && |d.text| > 2 * dmp.matchMaxBits then |d.text|
    else Min(|d.text|, dmp.matchMaxBits - p.length1 - dmp.patchMargin)
  }

  /** Starts a piece with the context before it and fills it from the front of the diffs. */
  method FillPiece(dmp: Settings, start1: int, start2: int, pre: Text, all: seq<Diff>)
    returns (p: Patch, rest: seq<Diff>, end1: int, end2: int, empty: bool, ghost chunk: seq<Diff>)
    requires 0 <= dmp.patchMargin && 2 * dmp.patchMargin < dmp.matchMaxBits
    requires |pre| <= dmp.patchMargin && all != []
    ensures Cuts(all, chunk, rest) && Filling(dmp, pre, chunk, p)
    ensures p.start1 == start1 - |pre| && p.start2 == start2 - |pre|
    ensures end1 == start1 + |Text1(chunk)| && end2 == start2 + |Text2(chunk)|
    ensures empty <==> AllEqual(chunk)
    ensures rest == [] || p.length1 >= dmp.matchMaxBits - dmp.patchMargin
    ensures Total(rest) < Total(all)
  {
    hide Cuts, Filling, Taken, Total, AllEqual, Text1, Text2;
    p := Patch(Affix(pre), start1 - |pre|, start2 - |pre|, |pre|, |pre|);
    rest, end1, end2, empty, chunk := all, start1, start2, true, [];
    NothingFilled(dmp, pre, all, p);
    var limit := dmp.matchMaxBits - dmp.patchMargin;
    while rest != [] && p.length1 < limit
      invariant Cuts(all, chunk, rest) && Filling(dmp, pre, chunk, p)
      invariant p.start1 == start1 - |pre| && p.start2 == start2 - |pre|
      invariant end1 == start1 + |Text1(chunk)| && end2 == start2 + |Text2(chunk)|
      invariant empty <==> AllEqual(chunk)
      invariant (rest == all && p.length1 == |pre|) || Total(rest) < Total(all)
      decreases Total(rest)
    {
      var d := rest[0];
      var n := Bite(dmp, p, d);
      var piece := Diff(d.operation, Left(d.text, n));
      assert piece.text == d.text[..n];
      var p' := p.(diffs := p.diffs + [piece]);
      if d.operation != INSERT {
        p' := p'.(length1 := p'.length1 + n);
        end1 := end1 + n;
      }
      if d.operation != DELETE {
        p' := p'.(length2 := p'.length2 + n);
        end2 := end2 + n;
      }
      if d.operation != EQUAL {
        empty := false;
      }
      TakenCuts(rest, n);
      CutsOn(all, chunk, rest, piece, Taken(rest, n));
      BiteRoom(dmp, pre, chunk, p, d, p');
      FillOn(dmp, pre, chunk, p, piece, p');
      AllEqualSnoc(chunk, piece);
      ChunkLengths(chunk, piece);
      p, rest, chunk := p', Taken(rest, n), chunk + [piece];
    }
  }

  lemma ChunkLengths(chunk: seq<Diff>, d: Diff)
    ensures |Text1(chunk + [d])| == |Text1(chunk)| + (if d.operation == INSERT then 0 else |d.text|)
    ensures |Text2(chunk + [d])| == |Text2(chunk)| + (if d.operation == DELETE then 0 else |d.text|)
  {
    WithLast(chunk, d);
  }

  lemma NothingFilled(dmp: Settings, pre: Text, all: seq<Diff>, p: Patch)
    requires p.diffs == Affix(pre) && p.length1 == p.length2 == |pre|
    requires |pre| <= dmp.patchMargin && 2 * dmp.patchMargin < dmp.matchMaxBits
    ensures Cuts(all, [], all) && Filling(dmp, pre, [], p) && AllEqual([]) && Text1([]) == Text2([]) == []
  {
    assert Affix(pre) + [] == Affix(pre);
  }

  lemma BiteRoom(dmp: Settings, pre: Text, chunk: seq<Diff>, p: Patch, d: Diff, p': Patch)
    requires Filling(dmp, pre, chunk, p) && p.length1 < dmp.matchMaxBits - dmp.patchMargin
    requires 0 <= dmp.patchMargin && dmp.matchMaxBits > 0
    requires var n := Bite(dmp, p, d); p'.diffs == p.diffs + [Diff(d.operation, Left(d.text, n))]
    requires p'.length1 == p.length1 + if d.operation == INSERT then 0 else Bite(dmp, p, d)
    ensures p'.length1 <= dmp.matchMaxBits - dmp.patchMargin || (Monster(p'.diffs, dmp.matchMaxBits) && |p'.diffs| == 2)
  {
  }

  // ----- finishing one piece -----

  /** The patch with a little of what follows it as context. */
  function WithPostcontext(p: Patch, post: Text): Patch {
    var n := |post|;
    if post == [] then p
    else
      var diffs := if p.diffs != [] && p.diffs[|p.diffs| - 1].operation == EQUAL then
                     p.diffs[..|p.diffs| - 1] + [Diff(EQUAL, p.diffs[|p.diffs| - 1].text + post)]
                   else p.diffs + [Diff(EQUAL, post)];
      p.(diffs := diffs, length1 := p.length1 + n, length2 := p.length2 + n)
  }

  lemma PostcontextTexts(p: Patch, post: Text)
    ensures Text1(WithPostcontext(p, post).diffs) == Text1(p.diffs) + post
    ensures Text2(WithPostcontext(p, post).diffs) == Text2(p.diffs) + post
  {
    var diffs := p.diffs;
    if post != [] && diffs != [] && diffs[|diffs| - 1].operation == EQUAL {
      var init, d := diffs[..|diffs| - 1], diffs[|diffs| - 1];
      assert diffs == init + [d];
      WithLast(init, d);
      WithLast(init, Diff(EQUAL, d.text + post));
      Regroup(Text1(init), d.text, post);
      Regroup(Text2(init), d.text, post);
    } else {
      WithLast(diffs, Diff(EQUAL, post));
    }
  }

  /** The texts of a filled piece with context after it. */
  lemma PieceTexts(dmp: Settings, pre: Text, chunk: seq<Diff>, p: Patch, post: Text)
    requires Filling(dmp, pre, chunk, p)
    ensures var r := WithPostcontext(p, post);
            Text1(r.diffs) == pre + Text1(chunk) + post && Text2(r.diffs) == pre + Text2(chunk) + post && Measured(r)
  {
    ContextFirst(pre, chunk);
    PostcontextTexts(p, post);
    hide Text1, Text2;
  }

  lemma ContextFirst(pre: Text, chunk: seq<Diff>)
    ensures Text1(Affix(pre) + chunk) == pre + Text1(chunk) && Text2(Affix(pre) + chunk) == pre + Text2(chunk)
  {
    Concat(Affix(pre), chunk);
    Single(Diff(EQUAL, pre));
  }

  lemma PieceFindable(dmp: Settings, pre: Text, chunk: seq<Diff>, p: Patch, post: Text)
    requires Filling(dmp, pre, chunk, p) && chunk != [] && |post| <= dmp.patchMargin
    ensures Findable(WithPostcontext(p, post), dmp.matchMaxBits)
  {
    PieceTexts(dmp, pre, chunk, p, post);
  }

  /** Where the split stands in the text: `a` and `b` lie outside the patch, `done` is the
      target text of what went into pieces, `rest` is still to be cut. */
  ghost function Standing(a: Text, done: Text, rest: Text, b: Text): Text {
    a + done + rest + b
  }

  /** A finished piece fits where the split stands and moves it past its chunk. */
  lemma PieceApplies(r: Patch, a: Text, early: Text, pre: Text, s: Text, s': Text, post: Text, later: Text, b: Text)
    requires r.start2 == |a + early|
    requires Text1(r.diffs) == pre + s + post && Text2(r.diffs) == pre + s' + post
    ensures var text := Standing(a, early + pre, s + (post + later), b);
            Fits(r, text) && Splice(text, r) == Standing(a, early + pre + s', post + later, b)
  {
    SpliceParts(r, a + early, later + b);
    hide Text1, Text2, Fits, Splice;
    StandingWords(a, early, pre, s, post, later, b);
    StandingWords(a, early, pre, s', post, later, b);
  }

  lemma StandingWords(a: Text, early: Text, pre: Text, s: Text, post: Text, later: Text, b: Text)
    ensures a + (early + pre) + (s + (post + later)) + b == a + early + (pre + s + post) + (later + b)
    ensures a + (early + pre + s) + (post + later) + b == a + early + (pre + s + post) + (later + b)
  {
  }

  /** A piece without edits is not needed: the text it would put in is there. */
  lemma PieceSkipped(a: Text, done: Text, s: Text, rest: Text, b: Text)
    ensures Standing(a, done, s + rest, b) == Standing(a, done + s, rest, b)
  {
  }

  // ----- splitting one patch -----

  /** After some pieces: where the split of `big` stands in `text`. */
  ghost predicate Splitting(dmp: Settings, big: Patch, a: Text, b: Text, pieces: seq<Patch>, done: Text, pre: Text,
                            rest: seq<Diff>, start1: int, start2: int) {
    && Text2(big.diffs) == done + Text2(rest) && EndsWith(done, pre) && start2 == |a| + |done|
    && start1 - start2 == big.start1 - big.start2 + Shrinkage(pieces) && Drifts(pieces, big.start1 - big.start2)
    && Chain(pieces, Standing(a, [], Text1(big.diffs), b), Standing(a, done, Text1(rest), b))
  }

  lemma SplitStart(dmp: Settings, big: Patch, a: Text, b: Text)
    requires big.start2 == |a|
    ensures Splitting(dmp, big, a, b, [], [], [], big.diffs, big.start1, big.start2)
  {
  }

  lemma SplitEnd(dmp: Settings, big: Patch, a: Text, b: Text, pieces: seq<Patch>, done: Text, pre: Text, start1: int,
                 start2: int)
    requires Splitting(dmp, big, a, b, pieces, done, pre, [], start1, start2) && big.start2 == |a|
    ensures var text := a + Text1(big.diffs) + b;
            Fits(big, text) && Chain(pieces, text, Splice(text, big))
    ensures Drifts(pieces, big.start1 - big.start2)
  {
    SpliceParts(big, a, b);
    Empty();
    hide Text1, Text2, Splice, Fits, Chain, Drifts;
    EndWords(a, Text1(big.diffs), b);
    EndWords(a, done, b);
  }

  lemma EndWords(a: Text, s: Text, b: Text)
    ensures Standing(a, [], s, b) == Standing(a, s, [], b) == a + s + b && s + [] == s
  {
    assert a + [] == a && a + s + [] == a + s;
  }

  /** The splitting texts after one more chunk. */
  lemma StepTexts(big: Patch, done: Text, rest: seq<Diff>, chunk: seq<Diff>, rest': seq<Diff>)
    requires Text2(big.diffs) == done + Text2(rest) && Cuts(rest, chunk, rest')
    ensures Text2(big.diffs) == done + Text2(chunk) + Text2(rest')
  {
    hide Text1, Text2;
    Regroup(done, Text2(chunk), Text2(rest'));
  }

  /** A piece with an edit extends the chain. */
  lemma StepPiece(dmp: Settings, a: Text, b: Text, pieces: seq<Patch>, from: Text, done: Text, pre: Text,
                  rest: seq<Diff>, chunk: seq<Diff>, rest': seq<Diff>, p: Patch, post: Text)
    requires Chain(pieces, from, Standing(a, done, Text1(rest), b)) && EndsWith(done, pre)
    requires Cuts(rest, chunk, rest') && Filling(dmp, pre, chunk, p) && p.start2 == |a| + |done| - |pre|
    requires StartsWith(Text1(rest'), post)
    ensures Chain(pieces + [WithPostcontext(p, post)], from, Standing(a, done + Text2(chunk), Text1(rest'), b))
  {
    var r, early, later := WithPostcontext(p, post), done[..|done| - |pre|], Text1(rest')[|post|..];
    assert done == early + pre && Text1(rest') == post + later;
    PieceTexts(dmp, pre, chunk, p, post);
    hide Text1, Text2, Standing, Chain, Fits, Splice, Filling;
    PieceApplies(r, a, early, pre, Text1(chunk), Text2(chunk), post, later, b);
    ChainSnoc(pieces, r, from, Standing(a, done, Text1(rest), b));
  }

  /** A piece without edits changes nothing. */
  lemma StepSkip(a: Text, b: Text, pieces: seq<Patch>, from: Text, done: Text, rest: seq<Diff>, chunk: seq<Diff>,
                 rest': seq<Diff>)
    requires Chain(pieces, from, Standing(a, done, Text1(rest), b)) && Cuts(rest, chunk, rest') && AllEqual(chunk)
    ensures Chain(pieces, from, Standing(a, done + Text2(chunk), Text1(rest'), b))
    ensures |Text1(chunk)| == |Text2(chunk)|
  {
    AllEqualTexts(chunk);
    hide Text1, Text2;
    PieceSkipped(a, done, Text2(chunk), Text1(rest'), b);
  }

  lemma AllFindableSnoc(ps: seq<Patch>, p: Patch, big: int)
    requires AllFindable(ps, big) && Findable(p, big)
    ensures AllFindable(ps + [p], big)
  {
  }

  lemma NothingFindable(big: int)
    ensures AllFindable([], big)
  {
  }

  /** A piece with an edit can be looked for. */
  lemma FoundPiece(dmp: Settings, pre: Text, chunk: seq<Diff>, p: Patch, post: Text, pieces: seq<Patch>)
    requires Filling(dmp, pre, chunk, p) && !AllEqual(chunk) && |post| <= dmp.patchMargin
    requires AllFindable(pieces, dmp.matchMaxBits)
    ensures AllFindable(pieces + [WithPostcontext(p, post)], dmp.matchMaxBits)
  {
    hide Filling, Findable;
    assert chunk != [];
    PieceFindable(dmp, pre, chunk, p, post);
    AllFindableSnoc(pieces, WithPostcontext(p, post), dmp.matchMaxBits);
  }

  lemma SplitStep(dmp: Settings, big: Patch, a: Text, b: Text, pieces: seq<Patch>, done: Text, pre: Text,
                  rest: seq<Diff>, start1: int, start2: int, chunk: seq<Diff>, rest': seq<Diff>, p: Patch, post: Text,
                  pieces': seq<Patch>, pre': Text)
    requires Splitting(dmp, big, a, b, pieces, done, pre, rest, start1, start2)
    requires Cuts(rest, chunk, rest') && Filling(dmp, pre, chunk, p) && |post| <= dmp.patchMargin
    requires p.start1 == start1 - |pre| && p.start2 == start2 - |pre|
    requires StartsWith(Text1(rest'), post) && EndsWith(done + Text2(chunk), pre')
    requires pieces' == if AllEqual(chunk) then pieces else pieces + [WithPostcontext(p, post)]
    ensures Splitting(dmp, big, a, b, pieces', done + Text2(chunk), pre', rest', start1 + |Text1(chunk)|,
                      start2 + |Text2(chunk)|)
  {
    hide Text1, Text2, Standing, Chain, EndsWith, StartsWith, Cuts, Drifts;
    StepTexts(big, done, rest, chunk, rest');
    var from := Standing(a, [], Text1(big.diffs), b);
    if AllEqual(chunk) {
      StepSkip(a, b, pieces, from, done, rest, chunk, rest');
    } else {
      var r := WithPostcontext(p, post);
      StepPiece(dmp, a, b, pieces, from, done, pre, rest, chunk, rest', p, post);
      DriftsSnoc(pieces, r, big.start1 - big.start2);
    }
  }

  /** Cuts one piece off the front of the diffs: context before it, as much as fits, and
      context after it; and gives the context for the next piece. */
  method CutPiece(dmp: Settings, start1: int, start2: int, pre: Text, rest: seq<Diff>)
    returns (r: Patch, rest': seq<Diff>, end1: int, end2: int, empty: bool, pre': Text,
             ghost p: Patch, ghost chunk: seq<Diff>, ghost post: Text)
    requires 0 <= dmp.patchMargin && 2 * dmp.patchMargin < dmp.matchMaxBits
    requires |pre| <= dmp.patchMargin && rest != []
    ensures Cuts(rest, chunk, rest') && Filling(dmp, pre, chunk, p) && r == WithPostcontext(p, post)
    ensures p.start1 == start1 - |pre| && p.start2 == start2 - |pre|
    ensures end1 == start1 + |Text1(chunk)| && end2 == start2 + |Text2(chunk)|
    ensures empty <==> AllEqual(chunk)
    ensures rest' == [] || p.length1 >= dmp.matchMaxBits - dmp.patchMargin
    ensures Total(rest') < Total(rest)
    ensures |post| == Min(dmp.patchMargin, |Text1(rest')|) && StartsWith(Text1(rest'), post)
    ensures var t := pre + Text2(chunk); |pre'| == Min(dmp.patchMargin, |t|) && EndsWith(t, pre')
  {
    hide Cuts, Filling, Total, AllEqual, Text1, Text2, WithPostcontext;
    r, rest', end1, end2, empty, chunk := FillPiece(dmp, start1, start2, pre, rest);
    p := r;
    var text2 := DiffText2(r.diffs);
    FilledText(dmp, pre, chunk, p);
    pre' := MidFrom(text2, |text2| - dmp.patchMargin);
    var text1 := DiffText1(rest');
    var postcontext := if |text1| > dmp.patchMargin then Left(text1, dmp.patchMargin) else text1;
    post := postcontext;
    r := WithPostcontext(r, postcontext);
  }

  lemma FilledText(dmp: Settings, pre: Text, chunk: seq<Diff>, p: Patch)
    requires Filling(dmp, pre, chunk, p)
    ensures Text2(p.diffs) == pre + Text2(chunk)
  {
    ContextFirst(pre, chunk);
  }

  lemma EndsFarther(done: Text, pre: Text, s: Text, pre': Text)
    requires EndsWith(done, pre) && EndsWith(pre + s, pre')
    ensures EndsWith(done + s, pre')
  {
    assert done + s == done[..|done| - |pre|] + (pre + s);
  }

  /** Puts the pieces of a patch in at the cursor. */
  method SplitPatch(dmp: Settings, patches: Cursor<Patch>, big: Patch, ghost a: Text, ghost b: Text)
    returns (ghost pieces: seq<Patch>)
    requires patches.Valid() && 0 <= dmp.patchMargin && 2 * dmp.patchMargin < dmp.matchMaxBits
    modifies patches
    ensures patches.Valid() && patches.pos == old(patches.pos) + |pieces|
    ensures patches.items == old(patches.items[..patches.pos]) + pieces + old(patches.items[patches.pos..])
    ensures AllFindable(pieces, dmp.matchMaxBits)
    ensures big.start2 == |a| ==>
              && Fits(big, a + Text1(big.diffs) + b)
              && Chain(pieces, a + Text1(big.diffs) + b, Splice(a + Text1(big.diffs) + b, big))
              && Drifts(pieces, big.start1 - big.start2)
  {
    hide Text1, Text2, Splitting, Cuts, Filling, Total, AllEqual, WithPostcontext, EndsWith, StartsWith, Fits, Splice,
      Chain, AllFindable, Drifts;
    ghost var head, tail := patches.items[..patches.pos], patches.items[patches.pos..];
    ghost var ok := big.start2 == |a|;
    ghost var done: Text := [];
    var start1, start2, rest, precontext := big.start1, big.start2, big.diffs, [];
    pieces := [];
    NothingFindable(dmp.matchMaxBits);
    if ok { SplitStart(dmp, big, a, b); }
    assert patches.items == head + [] + tail;
    while rest != []
      invariant patches.Valid() && patches.pos == |head| + |pieces| && patches.items == head + pieces + tail
      invariant |precontext| <= dmp.patchMargin && AllFindable(pieces, dmp.matchMaxBits)
      invariant ok ==> Splitting(dmp, big, a, b, pieces, done, precontext, rest, start1, start2)
      decreases Total(rest)
    {
      var r, rest', end1, end2, empty, precontext', p, chunk, post :=
        CutPiece(dmp, start1, start2, precontext, rest);
      ghost var pieces' := if empty then pieces else pieces + [r];
      if ok {
        SplittingEnds(dmp, big, a, b, pieces, done, precontext, rest, start1, start2);
        EndsFarther(done, precontext, Text2(chunk), precontext');
        SplitStep(dmp, big, a, b, pieces, done, precontext, rest, start1, start2, chunk, rest', p, post, pieces',
                  precontext');
      }
      if !empty {
        FoundPiece(dmp, precontext, chunk, p, post, pieces);
        InsertedAt(head, pieces, tail, r);
        patches.Insert(r);
      }
      pieces, done := pieces', done + Text2(chunk);
      start1, start2, rest, precontext := end1, end2, rest', precontext';
    }
    if ok { SplitEnd(dmp, big, a, b, pieces, done, precontext, start1, start2); }
  }

  lemma InsertedAt(head: seq<Patch>, pieces: seq<Patch>, tail: seq<Patch>, r: Patch)
    ensures var items, n := head + pieces + tail, |head| + |pieces|;
            items[..n] + [r] + items[n..] == head + (pieces + [r]) + tail
  {
    var items, n := head + pieces + tail, |head| + |pieces|;
    assert items[..n] == head + pieces && items[n..] == tail;
  }

  lemma SplittingEnds(dmp: Settings, big: Patch, a: Text, b: Text, pieces: seq<Patch>, done: Text, pre: Text,
                      rest: seq<Diff>, start1: int, start2: int)
    requires Splitting(dmp, big, a, b, pieces, done, pre, rest, start1, start2)
    ensures EndsWith(done, pre)
  {
  }

  // ----- splitting the list -----

  /** What exact application turns into what, for lists that are meant to be so applied. */
  datatype Course = Course(chained: bool, from: Text, to: Text)

  /** The patches before the cursor are fit to be looked for; if the list chains, they turn
      its first text into `mid`, and those still to come turn `mid` into its last. */
  ghost predicate Halfway(dmp: Settings, done: seq<Patch>, todo: seq<Patch>, c: Course, mid: Text) {
    && AllFindable(done, dmp.matchMaxBits) && AllMeasured(todo)
    && (c.chained ==> Chain(done, c.from, mid) && Chain(todo, mid, c.to))
  }

  /** The text after the patch, where it fits. */
  ghost function Onward(mid: Text, p: Patch): Text {
    if Fits(p, mid) then Splice(mid, p) else mid
  }

  lemma HalfwayKeeps(dmp: Settings, done: seq<Patch>, p: Patch, todo: seq<Patch>, c: Course, mid: Text)
    requires Halfway(dmp, done, [p] + todo, c, mid) && p.length1 <= dmp.matchMaxBits
    ensures Halfway(dmp, done + [p], todo, c, Onward(mid, p))
  {
    HalfwayTail(dmp, done, p, todo, c, mid);
    if c.chained { ChainSnoc(done, p, c.from, mid); }
    AllFindableSnoc(done, p, dmp.matchMaxBits);
  }

  lemma HalfwayTail(dmp: Settings, done: seq<Patch>, p: Patch, todo: seq<Patch>, c: Course, mid: Text)
    requires Halfway(dmp, done, [p] + todo, c, mid)
    ensures AllMeasured(todo) && Measured(p) && p.diffs != []
    ensures c.chained ==> Fits(p, mid) && Chain(todo, Onward(mid, p), c.to)
  {
    var ps := [p] + todo;
    hide Measured, Fits, Splice;
    assert ps[0] == p && ps[1..] == todo;
    assert forall i :: 0 <= i < |todo| ==> todo[i] == ps[i + 1];
  }

  lemma HalfwaySplits(dmp: Settings, done: seq<Patch>, p: Patch, todo: seq<Patch>, c: Course, mid: Text,
                      pieces: seq<Patch>)
    requires Halfway(dmp, done, [p] + todo, c, mid) && AllFindable(pieces, dmp.matchMaxBits)
    requires c.chained ==> Chain(pieces, mid, Onward(mid, p))
    ensures Halfway(dmp, done + pieces, todo, c, Onward(mid, p))
  {
    HalfwayTail(dmp, done, p, todo, c, mid);
    if c.chained { ChainConcat(done, pieces, c.from, mid, Onward(mid, p)); }
  }

  lemma OnwardSplices(mid: Text, p: Patch)
    ensures Fits(p, mid) ==> Onward(mid, p) == Splice(mid, p)
  {
  }

  /** The next patch from the cursor, or the null patch at the end. */
  method NextPatch(patches: Cursor<Patch>) returns (p: Patch)
    requires patches.Valid()
    modifies patches
    ensures patches.Valid() && patches.items == old(patches.items)
    ensures old(patches.pos) < |patches.items| ==>
              p == patches.items[old(patches.pos)] && patches.pos == old(patches.pos) + 1
              && patches.last == old(patches.pos)
    ensures old(patches.pos) == |patches.items| ==> p == NULL_PATCH && patches.pos == old(patches.pos)
  {
    if patches.HasNext() {
      p := patches.Next();
    } else {
      p := NULL_PATCH;
    }
  }

  /** The list around the cursor while `big` is the current patch. */
  ghost predicate At(items: seq<Patch>, pos: nat, done: seq<Patch>, big: Patch, todo: seq<Patch>) {
    if big == NULL_PATCH then items == done + todo && todo == [] else items == done + [big] + todo && pos == |done| + 1
  }

  ghost function Current(big: Patch, todo: seq<Patch>): seq<Patch> {
    if big == NULL_PATCH then todo else [big] + todo
  }

  lemma NextAt(items: seq<Patch>, pos: nat, done: seq<Patch>, todo: seq<Patch>, p: Patch)
    requires items == done + todo && pos == |done| && AllMeasured(todo)
    requires if pos < |items| then p == items[pos] else p == NULL_PATCH
    ensures var todo' := if todo == [] then [] else todo[1..];
            At(items, if todo == [] then pos else pos + 1, done, p, todo') && Current(p, todo') == todo
    ensures p == NULL_PATCH <==> todo == []
  {
    if todo != [] {
      assert p == todo[0] && todo == [p] + todo[1..];
    }
  }

  ghost predicate AllShort(ps: seq<Patch>, big: int) {
    forall i :: 0 <= i < |ps| ==> ps[i].length1 <= big
  }

  /** Splits the current patch if it is too long; the cursor ends behind its pieces. */
  method SplitOne(dmp: Settings, patches: Cursor<Patch>, bigpatch: Patch, ghost done: seq<Patch>,
                  ghost todo: seq<Patch>, ghost c: Course, ghost mid: Text)
    returns (ghost pieces: seq<Patch>)
    requires patches.Valid() && 0 <= dmp.patchMargin && 2 * dmp.patchMargin < dmp.matchMaxBits
    requires bigpatch != NULL_PATCH && 0 <= patches.last == patches.pos - 1
    modifies patches
    ensures patches.Valid() && |patches.items| - patches.pos == old(|patches.items| - patches.pos)
    ensures bigpatch.length1 <= dmp.matchMaxBits ==> patches.items == old(patches.items)
    ensures Halfway(dmp, done, Current(bigpatch, todo), c, mid)
            && At(old(patches.items), old(patches.pos), done, bigpatch, todo) ==>
              && Halfway(dmp, done + pieces, todo, c, Onward(mid, bigpatch))
              && patches.items == (done + pieces) + todo && patches.pos == |done + pieces|
  {
    hide Chain, AllMeasured, AllFindable, Halfway, At, Current, Fits, Splice, Onward, Text1, Text2;
    ghost var ok := Halfway(dmp, done, Current(bigpatch, todo), c, mid)
      && At(patches.items, patches.pos, done, bigpatch, todo);
    pieces := [bigpatch];
    if bigpatch.length1 > dmp.matchMaxBits {
      ghost var items, n := patches.items, bigpatch.start2;
      patches.Remove();
      if ok { CutAround(dmp, items, patches.pos, done, bigpatch, todo, c, mid); }
      pieces := SplitPatch(dmp, patches, bigpatch, Left(mid, n), MidFrom(mid, n + |Text1(bigpatch.diffs)|));
      if ok {
        OnwardSplices(mid, bigpatch);
        HalfwaySplits(dmp, done, bigpatch, todo, c, mid, pieces);
      }
    } else if ok {
      HalfwayKeepsAt(dmp, patches.items, patches.pos, done, bigpatch, todo, c, mid);
    }
  }

  /** Splits every patch longer than the matcher's words. Applied exactly in order the
      resulting patches do what the given ones did, and each can be looked for; a list of
      short patches is left alone. */
  method SplitMax(dmp: Settings, patches: Cursor<Patch>, ghost t: Text, ghost u: Text)
    requires patches.Valid() && 0 <= dmp.patchMargin && 2 * dmp.patchMargin < dmp.matchMaxBits
    modifies patches
    ensures patches.Valid()
    ensures AllMeasured(old(patches.items)) ==> AllFindable(patches.items, dmp.matchMaxBits)
    ensures Chain(old(patches.items), t, u) && AllMeasured(old(patches.items)) ==> Chain(patches.items, t, u)
    ensures AllShort(old(patches.items), dmp.matchMaxBits) ==> patches.items == old(patches.items)
  {
    hide Chain, AllMeasured, AllFindable, Halfway, At, Current, Fits, Splice, Onward, Text1, Text2;
    ghost var ps := patches.items;
    ghost var ok, c := AllMeasured(ps), Course(Chain(ps, t, u), t, u);
    ghost var done: seq<Patch>, todo: seq<Patch>, mid := [], [], t;
    patches.ToFront();
    var bigpatch := NextPatch(patches);
    if ok {
      HalfwayStart(dmp, ps, c);
      NextAt(ps, 0, [], ps, bigpatch);
      todo := if ps == [] then [] else ps[1..];
    }
    while bigpatch != NULL_PATCH
      invariant patches.Valid()
      invariant bigpatch != NULL_PATCH ==>
                  0 <= patches.last == patches.pos - 1 && patches.items[patches.last] == bigpatch
      invariant ok ==> Halfway(dmp, done, Current(bigpatch, todo), c, mid)
                       && At(patches.items, patches.pos, done, bigpatch, todo)
      invariant AllShort(ps, dmp.matchMaxBits) ==> patches.items == ps
      decreases |patches.items| - patches.pos + if bigpatch == NULL_PATCH then 0 else 1
    {
      ghost var pieces := SplitOne(dmp, patches, bigpatch, done, todo, c, mid);
      ghost var pos := patches.pos;
      if ok { done, mid := done + pieces, Onward(mid, bigpatch); }
      bigpatch := NextPatch(patches);
      if ok {
        HalfwayMeasured(dmp, done, todo, c, mid);
        NextAt(patches.items, pos, done, todo, bigpatch);
        todo := if todo == [] then [] else todo[1..];
      }
    }
    if ok { HalfwayEnd(dmp, patches.items, patches.pos, done, todo, c, mid); }
  }

  lemma HalfwayStart(dmp: Settings, ps: seq<Patch>, c: Course)
    requires (c.chained ==> Chain(ps, c.from, c.to)) && AllMeasured(ps)
    ensures Halfway(dmp, [], ps, c, c.from) && [] + ps == ps
  {
  }

  lemma HalfwayMeasured(dmp: Settings, done: seq<Patch>, todo: seq<Patch>, c: Course, mid: Text)
    requires Halfway(dmp, done, todo, c, mid)
    ensures AllMeasured(todo)
  {
  }

  lemma HalfwayKeepsAt(dmp: Settings, items: seq<Patch>, pos: nat, done: seq<Patch>, big: Patch, todo: seq<Patch>,
                       c: Course, mid: Text)
    requires Halfway(dmp, done, Current(big, todo), c, mid) && big != NULL_PATCH
    requires At(items, pos, done, big, todo) && big.length1 <= dmp.matchMaxBits
    ensures Halfway(dmp, done + [big], todo, c, Onward(mid, big))
    ensures items == (done + [big]) + todo && pos == |done + [big]|
  {
    HalfwayKeeps(dmp, done, big, todo, c, mid);
  }

  /** The list and the text around the current patch. */
  lemma CutAround(dmp: Settings, items: seq<Patch>, pos: nat, done: seq<Patch>, big: Patch, todo: seq<Patch>, c: Course,
                  mid: Text)
    requires Halfway(dmp, done, Current(big, todo), c, mid) && big != NULL_PATCH
    requires At(items, pos + 1, done, big, todo)
    ensures Halfway(dmp, done, [big] + todo, c, mid)
    ensures pos == |done| && items[..pos] == done && items[pos + 1..] == todo
    ensures var rest := done + todo; rest[..pos] == done && rest[pos..] == todo
    ensures c.chained ==> var n := big.start2; var a, b := Left(mid, n), MidFrom(mid, n + |Text1(big.diffs)|);
                          Fits(big, mid) && |a| == n && a + Text1(big.diffs) + b == mid
  {
    hide Halfway, Text1, Fits, Onward, Chain, AllMeasured, Left, MidFrom;
    HalfwayTail(dmp, done, big, todo, c, mid);
    if c.chained { TextAround(mid, big); }
    assert items[..pos] == done && items[pos + 1..] == todo;
  }

  lemma TextAround(mid: Text, p: Patch)
    requires Fits(p, mid)
    ensures var n := p.start2; var a, b := Left(mid, n), MidFrom(mid, n + |Text1(p.diffs)|);
            |a| == n && a + Text1(p.diffs) + b == mid
  {
    hide Text1;
  }

  lemma HalfwayEnd(dmp: Settings, items: seq<Patch>, pos: nat, done: seq<Patch>, todo: seq<Patch>, c: Course,
                   mid: Text)
    requires Halfway(dmp, done, Current(NULL_PATCH, todo), c, mid) && At(items, pos, done, NULL_PATCH, todo)
    ensures AllFindable(items, dmp.matchMaxBits) && (c.chained ==> Chain(items, c.from, c.to))
  {
    assert items == done;
  }
}
