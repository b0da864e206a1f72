/** Computes the patches that turn one text into another: runs of edits with the small
    equalities between them, each grown by context from the text as patched so far. */
module PatchMaking {
  import opened Texts
  import opened Diffs
  import opened MergeCleanup
  import opened EngineSettings
  import opened DiffSearch
  import opened Patches
  import opened PatchContext
  import opened PatchRuns

  // ----- the state of the computation -----

  datatype Making = Making(patch: Patch, charCount1: int, charCount2: int, prepatch: Text, postpatch: Text,
                           patches: seq<Patch>)

  ghost predicate AllSized(ps: seq<Patch>) {
    forall i :: 0 <= i < |ps| ==> Sized(ps[i]) && ps[i].diffs != []
  }

  /** Every patch lies within the first `n` units, before and after. */
  ghost predicate AllWithin(ps: seq<Patch>, n: int) {
    forall i :: 0 <= i < |ps| ==> 0 <= ps[i].start2 && ps[i].start2 + Max(ps[i].length1, ps[i].length2) <= n
  }

  /** The patch holds what is kept of the run. It starts after the target text `a`; `tail`
      is the source text after the run. */
  ghost predicate Holds(p: Patch, run: Run, a: Text, tail: Text, pre: Text, post: Text) {
    && p.diffs == run.kept != [] && p.start1 == p.start2 == |a| && Sized(p) && Sound(run)
    && pre == a + Text1(run.full) + tail && post == a + Text2(run.full) + tail
  }

  /** After the diffs `done`, which left the run `run` open, with `rest` to go. The open
      patch, if any, starts after the target text `a`. */
  ghost predicate Underway(st: Making, run: Run, done: seq<Diff>, a: Text, rest: seq<Diff>) {
    && st.charCount2 == |Text2(done)| && st.postpatch == Text2(done) + Text1(rest) && AllSized(st.patches)
    && if run.kept == [] then
         st.patch == NULL_PATCH && st.prepatch == st.postpatch && st.charCount1 == st.charCount2 && run == CLOSED
       else
         Text2(done) == a + Text2(run.full) && Holds(st.patch, run, a, Text1(rest), st.prepatch, st.postpatch)
  }

  /** However the patches are applied exactly, the result differs from `y` within the first
      `n` units. */
  ghost predicate Broken(ps: seq<Patch>, text1: Text, y: Text, n: nat) {
    n <= |y| && forall x :: Chain(ps, text1, x) ==> n <= |x| && x[..n] != y[..n]
  }

  /** Where the closed patches lead: to the text `y`, or for good away from it. */
  ghost predicate Leads(harmless: bool, ps: seq<Patch>, text1: Text, y: Text, n: nat, margin: int) {
    if harmless then
      && Chain(ps, text1, y) && (ps == [] ==> y == text1)
      && (ps != [] ==> EdgeReady(ps[0], text1, margin))
    else Broken(ps, text1, y, n)
  }

  // ----- closing a patch that stands -----

  lemma AllSizedSnoc(ps: seq<Patch>, p: Patch)
    requires AllSized(ps) && Sized(p) && p.diffs != []
    ensures AllSized(ps + [p])
  {
  }

  /** A run that stands without its echoes is a patch that does what the run does. */
  lemma StandingFits(p: Patch, run: Run, a: Text, tail: Text, pre: Text, post: Text)
    requires Holds(p, run, a, tail, pre, post) && Stands(run)
    ensures Fits(p, pre) && Splice(pre, p) == post
  {
    var x: Text :| Text1(run.full) == Text1(run.kept) + x && Text2(run.full) == Text2(run.kept) + x;
    SpliceParts(p, a, x + tail);
    hide Text1, Text2, Fits, Splice;
    MovedBehind(a, Text1(run.kept), x, tail);
    MovedBehind(a, Text2(run.kept), x, tail);
  }

  lemma MovedBehind(a: Text, s: Text, x: Text, tail: Text)
    ensures a + (s + x) + tail == a + s + (x + tail)
  {
  }

  lemma GrownReady(dmp: Settings, p: Patch, pre: Text, prefix: Text, suffix: Text)
    requires Fits(p, pre) && Context(dmp, p, pre, prefix, suffix) && dmp.patchMargin > 0
    requires p.diffs != [] && p.diffs[0].operation != EQUAL
    ensures EdgeReady(Grown(p, prefix, suffix), pre, dmp.patchMargin)
  {
    AffixTexts(prefix, p.diffs, suffix);
    GrownEnds(p, prefix, suffix);
    hide Text1, Text2, Fits;
  }

  lemma GrownEnds(p: Patch, prefix: Text, suffix: Text)
    requires p.diffs != []
    ensures var ds := Grown(p, prefix, suffix).diffs;
            && ds[0] == (if prefix != [] then Diff(EQUAL, prefix) else p.diffs[0])
            && ds[|ds| - 1] == (if suffix != [] then Diff(EQUAL, suffix) else p.diffs[|p.diffs| - 1])
            && (prefix != [] ==> |ds| >= 2)
  {
  }

  /** Closing a patch that stands leads on. */
  lemma LeadsOn(dmp: Settings, ps: seq<Patch>, p: Patch, run: Run, text1: Text, a: Text, tail: Text, pre: Text,
                post: Text, prefix: Text, suffix: Text)
    requires Leads(true, ps, text1, pre, 0, dmp.patchMargin) && dmp.patchMargin > 0
    requires Holds(p, run, a, tail, pre, post) && Stands(run)
    requires Fits(p, pre) ==> Context(dmp, p, pre, prefix, suffix)
    ensures Leads(true, ps + [Grown(p, prefix, suffix)], text1, post, 0, dmp.patchMargin)
  {
    hide Chain, EdgeReady, Fits, Splice, Context, Stands, Text1, Text2, Grown, Sized;
    StandingFits(p, run, a, tail, pre, post);
    ContextHarmless(dmp, p, pre, prefix, suffix);
    GrownReady(dmp, p, pre, prefix, suffix);
    ChainSnoc(ps, Grown(p, prefix, suffix), text1, pre);
  }

  // ----- closing a patch that does not stand -----

  /** A patch that turns the text before into the text after stands. */
  lemma FitsOnlyStanding(p: Patch, run: Run, a: Text, tail: Text, pre: Text, post: Text)
    requires Holds(p, run, a, tail, pre, post) && Fits(p, pre)
    ensures |Splice(pre, p)| == |post| == |a| + |Text2(run.full)| + |tail|
    ensures var n := |a| + |Text2(run.full)|; Splice(pre, p)[..n] == post[..n] ==> Stands(run)
  {
    var s, f, n, u := Text1(run.kept), Text1(run.full), |a| + |Text2(run.full)|, Splice(pre, p);
    FitParts(p, pre);
    hide Text1, Text2, Sized;
    assert pre[..|a|] == a;
    var x := f[|s|..];
    KeptIsPrefix(a, s, f, tail, pre[|a| + |s|..]);
    assert u == a + Text2(run.kept) + (x + tail);
    if u[..n] == post[..n] {
      SameMiddle(a, Text2(run.kept), x, tail, Text2(run.full));
    }
  }

  lemma KeptIsPrefix(a: Text, s: Text, f: Text, tail: Text, after: Text)
    requires a + f + tail == a + s + after && |s| <= |f|
    ensures f == s + f[|s|..] && after == f[|s|..] + tail
  {
    var t := a + f + tail;
    assert t[|a|..|a| + |s|] == s && t[|a|..|a| + |f|] == f && t[|a| + |s|..] == after;
    assert f[..|s|] == t[|a|..|a| + |f|][..|s|];
    assert (f + tail)[|s|..] == t[|a| + |s|..];
  }

  lemma SameMiddle(a: Text, s: Text, x: Text, tail: Text, g: Text)
    requires |g| == |s| + |x|
    requires (a + s + (x + tail))[..|a| + |g|] == (a + g + tail)[..|a| + |g|]
    ensures g == s + x
  {
    assert (a + s + (x + tail))[..|a| + |g|] == a + (s + x);
    assert (a + g + tail)[..|a| + |g|] == a + g;
    assert g == (a + g)[|a|..] == (a + (s + x))[|a|..];
  }

  /** Closing a patch that does not stand leads away from the text after. */
  lemma LeadsAway(ps: seq<Patch>, p: Patch, run: Run, text1: Text, a: Text, tail: Text, pre: Text, post: Text,
                  prefix: Text, suffix: Text)
    requires Chain(ps, text1, pre) && Holds(p, run, a, tail, pre, post) && !Stands(run)
    ensures Broken(ps + [Grown(p, prefix, suffix)], text1, post, |a| + |Text2(run.full)|)
  {
    hide Chain, Fits, Splice, Stands, Text1, Text2, Grown, Sized;
    var r, n := Grown(p, prefix, suffix), |a| + |Text2(run.full)|;
    forall x | Chain(ps + [r], text1, x) ensures n <= |x| && x[..n] != post[..n] {
      var u := ChainSnocInverse(ps, r, text1, x);
      ChainOnce(ps, text1, u, pre);
      GrownFits(p, prefix, suffix, pre);
      FitsOnlyStanding(p, run, a, tail, pre, post);
    }
  }

  /** Once led away, no later patch leads back: it starts behind the difference. */
  lemma StaysAway(ps: seq<Patch>, p: Patch, run: Run, text1: Text, a: Text, tail: Text, pre: Text, post: Text,
                  prefix: Text, suffix: Text, n: nat)
    requires Broken(ps, text1, pre, n) && n <= |a| && Holds(p, run, a, tail, pre, post)
    ensures Broken(ps + [Grown(p, prefix, suffix)], text1, post, n)
  {
    hide Chain, Fits, Splice, Text1, Text2, Grown, Sized;
    var r := Grown(p, prefix, suffix);
    assert pre[..n] == a[..n] == post[..n];
    forall x | Chain(ps + [r], text1, x) ensures n <= |x| && x[..n] != post[..n] {
      var u := ChainSnocInverse(ps, r, text1, x);
      GrownFits(p, prefix, suffix, u);
      SpliceKeepsFront(p, u, n);
    }
  }

  lemma SpliceKeepsFront(p: Patch, u: Text, n: nat)
    requires Fits(p, u) && n <= p.start2
    ensures n <= |u| && n <= |Splice(u, p)| && Splice(u, p)[..n] == u[..n]
  {
  }

  // ----- closing -----

  /** The patch grown by context from `text`, where it fits. */
  ghost predicate GrownFrom(dmp: Settings, p: Patch, text: Text, r: Patch) {
    exists prefix, suffix ::
      r == Grown(p, prefix, suffix) && (Fits(p, text) && Sized(p) ==> Context(dmp, p, text, prefix, suffix))
  }

  /** Grows the open patch and puts it on the list; the text as patched moves on. */
  method ClosePatch(dmp: Settings, st: Making, ghost run: Run, ghost text1: Text, ghost a: Text, ghost tail: Text,
                    ghost harmless: bool, ghost n: nat)
    returns (r: Making, ghost n': nat)
    requires dmp.patchMargin > 0 && 0 <= st.patch.start2 && 0 <= st.patch.length1
    ensures r.patch == NULL_PATCH && r.prepatch == r.postpatch == st.postpatch
    ensures r.charCount1 == r.charCount2 == st.charCount2
    ensures |r.patches| == |st.patches| + 1 && st.patches == r.patches[..|st.patches|]
    ensures GrownFrom(dmp, st.patch, st.prepatch, r.patches[|st.patches|])
    ensures Holds(st.patch, run, a, tail, st.prepatch, st.postpatch) ==>
              && (forall size :: AllWithin(st.patches, size) && |st.prepatch| <= size && |st.postpatch| <= size ==>
                    AllWithin(r.patches, size))
              && (AllSized(st.patches) ==> AllSized(r.patches))
              && (Leads(harmless, st.patches, text1, st.prepatch, n, dmp.patchMargin) && n <= |a| ==>
                  n' <= |a| + |Text2(run.full)|
                  && Leads(harmless && Stands(run), r.patches, text1, r.prepatch, n', dmp.patchMargin))
  {
    hide Holds, Chain, AllSized, AllWithin, EdgeReady, Fits, Sized, Context, Grown, Stands, Broken, Leads, Text1, Text2,
      Unmistakable;
    var p, prefix, suffix := AddContext(dmp, st.patch, st.prepatch);
    r := Making(NULL_PATCH, st.charCount2, st.charCount2, st.postpatch, st.postpatch, st.patches + [p]);
    n' := if harmless && Stands(run) then 0 else if harmless then |a| + |Text2(run.full)| else n;
    if Holds(st.patch, run, a, tail, st.prepatch, st.postpatch) {
      HoldsParts(st.patch, run, a, tail, st.prepatch, st.postpatch);
      WithinSnoc(st.patches, st.patch, run, a, tail, st.prepatch, st.postpatch, prefix, suffix);
      GrownSized(st.patch, prefix, suffix);
      if AllSized(st.patches) { AllSizedSnoc(st.patches, p); }
      if Leads(harmless, st.patches, text1, st.prepatch, n, dmp.patchMargin) && n <= |a| {
        CloseLeads(dmp, st.patches, st.patch, run, text1, a, tail, st.prepatch, st.postpatch, prefix, suffix, harmless,
                   n, n');
      }
    }
  }

  /** A patch grown by context lies within the text before it and the text after it. */
  lemma WithinSnoc(ps: seq<Patch>, p: Patch, run: Run, a: Text, tail: Text, pre: Text, post: Text, prefix: Text,
                   suffix: Text)
    requires Holds(p, run, a, tail, pre, post)
    requires |prefix| <= p.start2 && p.start2 + p.length1 + |suffix| <= Max(|pre|, p.start2 + p.length1)
    ensures forall size :: AllWithin(ps, size) && |pre| <= size && |post| <= size ==>
              AllWithin(ps + [Grown(p, prefix, suffix)], size)
  {
    hide Text1, Text2;
    var r := Grown(p, prefix, suffix);
    assert r.start2 + r.length1 <= |pre| && r.start2 + r.length2 <= |post|;
  }

  lemma HoldsParts(p: Patch, run: Run, a: Text, tail: Text, pre: Text, post: Text)
    requires Holds(p, run, a, tail, pre, post)
    ensures Sized(p) && p.diffs != []
  {
  }

  lemma CloseLeads(dmp: Settings, ps: seq<Patch>, p: Patch, run: Run, text1: Text, a: Text, tail: Text, pre: Text,
                   post: Text, prefix: Text, suffix: Text, harmless: bool, n: nat, n': nat)
    requires Leads(harmless, ps, text1, pre, n, dmp.patchMargin) && dmp.patchMargin > 0 && n <= |a|
    requires Holds(p, run, a, tail, pre, post) && (Fits(p, pre) && Sized(p) ==> Context(dmp, p, pre, prefix, suffix))
    requires n' == if harmless && Stands(run) then 0 else if harmless then |a| + |Text2(run.full)| else n
    ensures Leads(harmless && Stands(run), ps + [Grown(p, prefix, suffix)], text1, post, n', dmp.patchMargin)
  {
    hide Holds, Chain, EdgeReady, Fits, Sized, Context, Grown, Stands, Broken, Text1, Text2;
    HoldsParts(p, run, a, tail, pre, post);
    if !harmless {
      StaysAway(ps, p, run, text1, a, tail, pre, post, prefix, suffix, n);
    } else if Stands(run) {
      LeadsOn(dmp, ps, p, run, text1, a, tail, pre, post, prefix, suffix);
    } else {
      LeadsAway(ps, p, run, text1, a, tail, pre, post, prefix, suffix);
    }
  }

  // ----- one diff at a time -----

  /** A deletion or an insertion opens a patch or extends it. */
  function TakeEdit(st: Making, d: Diff): Making {
    var n := |d.text|;
    var p := if st.patch.diffs == [] then st.patch.(start1 := st.charCount1, start2 := st.charCount2) else st.patch;
    if d.operation == INSERT then
      Making(p.(diffs := p.diffs + [d], length2 := p.length2 + n), st.charCount1, st.charCount2 + n, st.prepatch,
             Left(st.postpatch, st.charCount2) + d.text + MidFrom(st.postpatch, st.charCount2), st.patches)
    else
      Making(p.(diffs := p.diffs + [d], length1 := p.length1 + n), st.charCount1 + n, st.charCount2, st.prepatch,
             Left(st.postpatch, st.charCount2) + MidFrom(st.postpatch, st.charCount2 + n), st.patches)
  }

  /** A small equality inside an open patch joins it, unless it looks like the last diff. */
  function TakeEqual(st: Making, d: Diff, looksLast: bool, margin: int): Making {
    var n := |d.text|;
    if n <= 2 * margin && st.patch.diffs != [] && !looksLast then
      st.(patch := st.patch.(diffs := st.patch.diffs + [d], length1 := st.patch.length1 + n,
                             length2 := st.patch.length2 + n))
    else st
  }

  function Counted(st: Making, n: int): Making {
    st.(charCount1 := st.charCount1 + n, charCount2 := st.charCount2 + n)
  }

  lemma CutAtCount(l: Text, d: Text, r: Text)
    ensures Left(l + d + r, |l|) == l && MidFrom(l + d + r, |l|) == d + r && MidFrom(l + d + r, |l| + |d|) == r
  {
  }

  lemma EditWords(l: Text, d: Text, r: Text)
    ensures l + [] + r == l + r && [] + r == r && l + [] == l
    ensures l + d + r == l + (d + r)
    ensures l + [] + (d + r) == l + d + r
  {
  }

  lemma SizedSnoc(p: Patch, d: Diff)
    requires Sized(p)
    ensures Sized(Patch(p.diffs + [d], p.start1, p.start2,
                        p.length1 + (if d.operation == INSERT then 0 else |d.text|),
                        p.length2 + (if d.operation == DELETE then 0 else |d.text|)))
  {
    WithLast(p.diffs, d);
  }

  /** The text as patched so far, after one more edit. */
  lemma EditPost(st: Making, done: seq<Diff>, d: Diff, rest: seq<Diff>)
    requires st.charCount2 == |Text2(done)| && st.postpatch == Text2(done) + Text1([d] + rest) && d.operation != EQUAL
    ensures var r := TakeEdit(st, d);
            r.charCount2 == |Text2(done + [d])| && r.postpatch == Text2(done + [d]) + Text1(rest)
  {
    WithFirst(d, rest);
    WithLast(done, d);
    hide Text1, Text2;
    var l, r := Text2(done), Text1(rest);
    EditWords(l, d.text, r);
    if d.operation == INSERT {
      CutAtCount(l, [], r);
    } else {
      CutAtCount(l, d.text, r);
    }
  }

  /** The text before a patch and the target text so far, as the run takes one more diff. */
  lemma RunExtends(full: seq<Diff>, a: Text, d: Diff, done: seq<Diff>, rest: seq<Diff>)
    requires Text2(done) == a + Text2(full)
    ensures Text2(done + [d]) == a + Text2(full + [d])
    ensures a + Text1(full) + Text1([d] + rest) == a + Text1(full + [d]) + Text1(rest)
  {
    WithFirst(d, rest);
    WithLast(done, d);
    WithLast(full, d);
    hide Text1, Text2;
    var x1 := if d.operation == INSERT then [] else d.text;
    var x2 := if d.operation == DELETE then [] else d.text;
    EditWords(a + Text1(full), x1, Text1(rest));
    EditWords(a, Text1(full), x1);
    EditWords(a, Text2(full), x2);
  }

  lemma EqualPost(done: seq<Diff>, d: Diff, rest: seq<Diff>)
    requires d.operation == EQUAL
    ensures Text2(done + [d]) + Text1(rest) == Text2(done) + Text1([d] + rest)
    ensures |Text2(done + [d])| == |Text2(done)| + |d.text|
  {
    WithFirst(d, rest);
    WithLast(done, d);
    EditWords(Text2(done), d.text, Text1(rest));
  }

  lemma Opened(st: Making, done: seq<Diff>)
    requires st.patch == NULL_PATCH && st.charCount1 == st.charCount2 == |Text2(done)|
    ensures var p := st.patch.(start1 := st.charCount1, start2 := st.charCount2);
            Sized(p) && p.diffs == [] && p.start2 == |Text2(done)|
    ensures Text2(done) == Text2(done) + Text2([]) && Text2(done) + Text1([]) == Text2(done)
  {
  }

  /** An edit extends the run and the patch alike. */
  lemma EditUnderway(st: Making, run: Run, done: seq<Diff>, a: Text, d: Diff, rest: seq<Diff>, final: Diff, big: int)
    requires Underway(st, run, done, a, [d] + rest) && d.operation != EQUAL && Sound(run)
    ensures var a' := if run.kept == [] then Text2(done) else a;
            Underway(TakeEdit(st, d), Next(run, d, final, big), done + [d], a', rest)
  {
    hide AllSized, Sized, Sound, Text1, Text2;
    var a' := if run.kept == [] then Text2(done) else a;
    var p := if run.kept == [] then st.patch.(start1 := st.charCount1, start2 := st.charCount2) else st.patch;
    EditPost(st, done, d, rest);
    if run.kept == [] { Opened(st, done); }
    RunExtends(run.full, a', d, done, rest);
    SizedSnoc(p, d);
    JoinSound(run, d);
  }

  /** An equality outside any patch only moves the counts. */
  lemma EqualOutside(st: Making, run: Run, done: seq<Diff>, a: Text, d: Diff, rest: seq<Diff>)
    requires Underway(st, run, done, a, [d] + rest) && d.operation == EQUAL && run.kept == []
    ensures Underway(Counted(st, |d.text|), CLOSED, done + [d], a, rest)
  {
    hide AllSized, Text1, Text2;
    EqualPost(done, d, rest);
  }

  /** A small equality inside a patch joins the run; it joins the patch unless it is an echo. */
  lemma EqualInside(st: Making, run: Run, done: seq<Diff>, a: Text, d: Diff, rest: seq<Diff>, final: Diff, margin: int)
    requires Underway(st, run, done, a, [d] + rest) && d.operation == EQUAL && Sound(run)
    requires run.kept != [] && |d.text| < 2 * margin
    ensures Underway(Counted(TakeEqual(st, d, d == final, margin), |d.text|), Next(run, d, final, 2 * margin),
                     done + [d], a, rest)
  {
    hide AllSized, Sized, Sound, Text1, Text2;
    EqualPost(done, d, rest);
    RunExtends(run.full, a, d, done, rest);
    SizedSnoc(st.patch, d);
    JoinSound(run, d);
  }

  /** A large equality closes the patch, whether or not it still joins it. */
  lemma EqualCloses(st: Making, run: Run, done: seq<Diff>, a: Text, d: Diff, rest: seq<Diff>, final: Diff, margin: int)
    requires Underway(st, run, done, a, [d] + rest) && d.operation == EQUAL && Sound(run)
    requires run.kept != []
    ensures var e, run' := TakeEqual(st, d, d == final, margin), ClosedBy(run, d, final, 2 * margin);
            && Holds(e.patch, run', a, if e == st then Text1([d] + rest) else Text1(rest), e.prepatch, e.postpatch)
            && |a| + |Text2(run'.full)| <= |Text2(done + [d])| && e.patches == st.patches
  {
    hide AllSized, Sized, Sound, Text1, Text2;
    EqualPost(done, d, rest);
    RunExtends(run.full, a, d, done, rest);
    SizedSnoc(st.patch, d);
    JoinSound(run, d);
  }

  /** After closing, the next patch may start from the text as patched. */
  lemma ClosedUnderway(st: Making, r: Making, run: Run, done: seq<Diff>, a: Text, d: Diff, rest: seq<Diff>)
    requires Underway(st, run, done, a, [d] + rest) && d.operation == EQUAL
    requires r.patch == NULL_PATCH && r.prepatch == r.postpatch == st.postpatch
    requires r.charCount1 == r.charCount2 == st.charCount2 && AllSized(r.patches)
    ensures Underway(Counted(r, |d.text|), CLOSED, done + [d], a, rest)
  {
    hide AllSized, Text1, Text2;
    EqualPost(done, d, rest);
  }

  /** What the state keeps whatever the diffs are. */
  ghost predicate Sensible(st: Making) {
    st.charCount2 >= 0 && st.patch.start2 >= 0 && st.patch.length1 >= 0
  }

  // ----- the pass over the diffs -----

  /** After the first `i` diffs: where the computation stands, and where its patches lead. */
  ghost predicate OnCourse(st: Making, text1: Text, diffs: seq<Diff>, i: nat, a: Text, n: nat, margin: int)
    requires i <= |diffs| != 0
  {
    var final, big := diffs[|diffs| - 1], 2 * margin;
    var run := RunAfter(diffs[..i], final, big);
    && Underway(st, run, diffs[..i], a, diffs[i..])
    && Leads(HarmlessUpTo(diffs, i, final, big), st.patches, text1, st.prepatch, n, margin)
    && (n <= if run.kept == [] then st.charCount2 else |a|)
    && Small(st, |Text1(diffs)| + |Text2(diffs)|)
  }

  ghost predicate Small(st: Making, size: int) {
    |st.prepatch| <= size && |st.postpatch| <= size && AllWithin(st.patches, size)
  }

  /** The text as patched so far is no longer than both texts together. */
  lemma PostSmall(diffs: seq<Diff>, i: nat)
    requires i <= |diffs|
    ensures |Text2(diffs[..i]) + Text1(diffs[i..])| <= |Text1(diffs)| + |Text2(diffs)|
  {
    hide Text1, Text2;
    Concat(diffs[..i], diffs[i..]);
    assert diffs[..i] + diffs[i..] == diffs;
  }

  lemma HarmlessSnoc(ds: seq<Diff>, i: nat, final: Diff, big: int)
    requires i < |ds|
    ensures HarmlessUpTo(ds, i + 1, final, big) <==>
              HarmlessUpTo(ds, i, final, big)
              && (ds[i].operation == EQUAL && |ds[i].text| >= big ==>
                  Stands(ClosedBy(RunAfter(ds[..i], final, big), ds[i], final, big)))
  {
    hide Stands, ClosedBy, RunAfter;
  }

  lemma Cut(diffs: seq<Diff>, i: nat)
    requires i < |diffs|
    ensures diffs[i..] == [diffs[i]] + diffs[i + 1..] && diffs[..i + 1] == diffs[..i] + [diffs[i]]
  {
  }

  /** An edit keeps the course. */
  lemma EditStays(st: Making, text1: Text, diffs: seq<Diff>, i: nat, a: Text, n: nat, margin: int)
    requires i < |diffs| && OnCourse(st, text1, diffs, i, a, n, margin) && diffs[i].operation != EQUAL
    ensures OnCourse(TakeEdit(st, diffs[i]), text1, diffs, i + 1,
                     if st.patch.diffs == [] then Text2(diffs[..i]) else a, n, margin)
  {
    hide AllWithin, RunAfter, HarmlessUpTo, Leads, Text1, Text2, Sound, AllSized, Sized;
    var final, big := diffs[|diffs| - 1], 2 * margin;
    var run := RunAfter(diffs[..i], final, big);
    Cut(diffs, i);
    PostSmall(diffs, i + 1);
    HarmlessSnoc(diffs, i, final, big);
    RunSnoc(diffs[..i], diffs[i], final, big);
    RunSound(diffs[..i], final, big);
    EditUnderway(st, run, diffs[..i], a, diffs[i], diffs[i + 1..], final, big);
  }

  /** An equality that closes no patch keeps the course. */
  lemma EqualStays(st: Making, text1: Text, diffs: seq<Diff>, i: nat, a: Text, n: nat, margin: int)
    requires i < |diffs| && OnCourse(st, text1, diffs, i, a, n, margin) && diffs[i].operation == EQUAL
    requires st.patch.diffs == [] || |diffs[i].text| < 2 * margin
    ensures var d := diffs[i];
            var r := Counted(TakeEqual(st, d, d == diffs[|diffs| - 1], margin), |d.text|);
            OnCourse(r, text1, diffs, i + 1, a, n, margin)
  {
    hide RunAfter, HarmlessUpTo, Leads, Text1, Text2, Sound, AllSized, Sized;
    var final, big := diffs[|diffs| - 1], 2 * margin;
    var run := RunAfter(diffs[..i], final, big);
    Cut(diffs, i);
    HarmlessSnoc(diffs, i, final, big);
    RunSnoc(diffs[..i], diffs[i], final, big);
    RunSound(diffs[..i], final, big);
    StandsSelf(CLOSED);
    if run.kept == [] {
      EqualOutside(st, run, diffs[..i], a, diffs[i], diffs[i + 1..]);
    } else {
      EqualInside(st, run, diffs[..i], a, diffs[i], diffs[i + 1..], final, margin);
    }
  }

  /** What closing needs to know of the course, before and after. */
  lemma EqualClosing(st: Making, text1: Text, diffs: seq<Diff>, i: nat, a: Text, n: nat, margin: int)
    requires i < |diffs| && OnCourse(st, text1, diffs, i, a, n, margin) && diffs[i].operation == EQUAL
    requires st.patch.diffs != [] && |diffs[i].text| >= 2 * margin
    ensures var d, final, big := diffs[i], diffs[|diffs| - 1], 2 * margin;
            var e := TakeEqual(st, d, d == final, margin);
            var run' := ClosedBy(RunAfter(diffs[..i], final, big), d, final, big);
            var tail := if e == st then Text1(diffs[i..]) else Text1(diffs[i + 1..]);
            && Holds(e.patch, run', a, tail, e.prepatch, e.postpatch)
            && Leads(HarmlessUpTo(diffs, i, final, big), e.patches, text1, e.prepatch, n, margin) && n <= |a|
            && AllSized(e.patches) && Small(e, |Text1(diffs)| + |Text2(diffs)|)
  {
    hide AllWithin, RunAfter, HarmlessUpTo, Leads, Text1, Text2, Sound, AllSized, Sized, Holds;
    var final, big := diffs[|diffs| - 1], 2 * margin;
    var run := RunAfter(diffs[..i], final, big);
    Cut(diffs, i);
    RunSound(diffs[..i], final, big);
    UnderwayOpen(st, run, diffs[..i], a, diffs[i..]);
    EqualCloses(st, run, diffs[..i], a, diffs[i], diffs[i + 1..], final, margin);
  }

  lemma UnderwayOpen(st: Making, run: Run, done: seq<Diff>, a: Text, rest: seq<Diff>)
    requires Underway(st, run, done, a, rest)
    ensures st.patch.diffs == [] <==> run.kept == []
  {
  }

  /** Having closed the patch the course goes on. */
  lemma EqualClosed(st: Making, r: Making, text1: Text, diffs: seq<Diff>, i: nat, a: Text, n: nat, n': nat, margin: int)
    requires i < |diffs| && OnCourse(st, text1, diffs, i, a, n, margin) && diffs[i].operation == EQUAL
    requires st.patch.diffs != [] && |diffs[i].text| >= 2 * margin
    requires r.patch == NULL_PATCH && r.prepatch == r.postpatch == st.postpatch
    requires r.charCount1 == r.charCount2 == st.charCount2 && AllSized(r.patches)
    requires AllWithin(r.patches, |Text1(diffs)| + |Text2(diffs)|)
    requires var final, big := diffs[|diffs| - 1], 2 * margin;
             var run' := ClosedBy(RunAfter(diffs[..i], final, big), diffs[i], final, big);
             && Leads(HarmlessUpTo(diffs, i, final, big) && Stands(run'), r.patches, text1, r.prepatch, n', margin)
             && n' <= |a| + |Text2(run'.full)|
    ensures OnCourse(Counted(r, |diffs[i].text|), text1, diffs, i + 1, a, n', margin)
  {
    hide AllWithin, RunAfter, HarmlessUpTo, Leads, Text1, Text2, Sound, AllSized, Sized, Stands, Holds;
    var final, big := diffs[|diffs| - 1], 2 * margin;
    var run := RunAfter(diffs[..i], final, big);
    Cut(diffs, i);
    HarmlessSnoc(diffs, i, final, big);
    RunSnoc(diffs[..i], diffs[i], final, big);
    RunSound(diffs[..i], final, big);
    UnderwayOpen(st, run, diffs[..i], a, diffs[i..]);
    EqualCloses(st, run, diffs[..i], a, diffs[i], diffs[i + 1..], final, margin);
    EqualPost(diffs[..i], diffs[i], diffs[i + 1..]);
    ClosedUnderway(st, r, run, diffs[..i], a, diffs[i], diffs[i + 1..]);
  }

  /** Takes the equality at `i`. */
  method StepEqual(dmp: Settings, st: Making, diffs: seq<Diff>, i: nat, ghost text1: Text, ghost a: Text, ghost n: nat)
    returns (r: Making, ghost n': nat)
    requires dmp.patchMargin > 0 && i < |diffs| && diffs[i].operation == EQUAL && Sensible(st)
    ensures Sensible(r)
    ensures |diffs[i].text| < 2 * dmp.patchMargin ==> r.patches == st.patches && r.prepatch == st.prepatch
    ensures OnCourse(st, text1, diffs, i, a, n, dmp.patchMargin) ==>
              OnCourse(r, text1, diffs, i + 1, a, n', dmp.patchMargin)
  {
    hide OnCourse, Holds, AllSized, AllWithin, Leads, Stands, Text1, Text2, RunAfter, ClosedBy, HarmlessUpTo;
    var d := diffs[i];
    ghost var final, big := diffs[|diffs| - 1], 2 * dmp.patchMargin;
    ghost var ok := OnCourse(st, text1, diffs, i, a, n, dmp.patchMargin);
    r := TakeEqual(st, d, d == diffs[|diffs| - 1], dmp.patchMargin);
    n' := n;
    if |d.text| >= 2 * dmp.patchMargin && r.patch.diffs != [] {
      ghost var run := ClosedBy(RunAfter(diffs[..i], final, big), d, final, big);
      ghost var tail := if r == st then Text1(diffs[i..]) else Text1(diffs[i + 1..]);
      if ok { EqualClosing(st, text1, diffs, i, a, n, dmp.patchMargin); }
      r, n' := ClosePatch(dmp, r, run, text1, a, tail, HarmlessUpTo(diffs, i, final, big), n);
      if ok { EqualClosed(st, r, text1, diffs, i, a, n, n', dmp.patchMargin); }
    } else if ok {
      EqualStays(st, text1, diffs, i, a, n, dmp.patchMargin);
    }
    r := Counted(r, |d.text|);
  }

  // ----- the result -----

  /** What a list of patches made from `diffs` is worth: applied exactly in order it turns
      the source into the target, and the first one is short of context only where the text
      ends. */
  ghost predicate Makes(ps: seq<Patch>, diffs: seq<Diff>, margin: int) {
    && Chain(ps, Text1(diffs), Text2(diffs))
    && (ps != [] ==> EdgeReady(ps[0], Text1(diffs), margin))
  }

  lemma CourseStart(text1: Text, diffs: seq<Diff>, margin: int)
    requires text1 == Text1(diffs) && diffs != []
    ensures OnCourse(Making(NULL_PATCH, 0, 0, text1, text1, []), text1, diffs, 0, [], 0, margin)
  {
    assert diffs[..0] == [] && diffs[0..] == diffs && [] + text1 == text1;
  }

  /** At the end an open patch holds the last run; nothing follows it. */
  lemma CourseOpen(st: Making, text1: Text, diffs: seq<Diff>, a: Text, n: nat, margin: int)
    requires diffs != [] && OnCourse(st, text1, diffs, |diffs|, a, n, margin) && st.patch.diffs != []
    ensures var final, big := diffs[|diffs| - 1], 2 * margin;
            && Holds(st.patch, RunAfter(diffs, final, big), a, [], st.prepatch, st.postpatch)
            && Leads(HarmlessUpTo(diffs, |diffs|, final, big), st.patches, text1, st.prepatch, n, margin) && n <= |a|
            && AllSized(st.patches) && st.postpatch == Text2(diffs)
            && Small(st, |Text1(diffs)| + |Text2(diffs)|)
  {
    hide AllWithin, RunAfter, HarmlessUpTo, Leads, Sound, AllSized, Sized, Underway, Holds, Text1, Text2;
    assert diffs[..|diffs|] == diffs && diffs[|diffs|..] == [];
    var run := RunAfter(diffs, diffs[|diffs| - 1], 2 * margin);
    UnderwayOpen(st, run, diffs, a, []);
    StillUnderway(st, run, diffs, a);
  }

  lemma StillUnderway(st: Making, run: Run, done: seq<Diff>, a: Text)
    requires Underway(st, run, done, a, []) && run.kept != []
    ensures Holds(st.patch, run, a, [], st.prepatch, st.postpatch)
    ensures AllSized(st.patches) && st.postpatch == Text2(done)
  {
    hide Holds, AllSized, Text2;
    assert Text2(done) + [] == Text2(done);
  }

  lemma CourseClosed(st: Making, text1: Text, diffs: seq<Diff>, a: Text, n: nat, margin: int)
    requires diffs != [] && OnCourse(st, text1, diffs, |diffs|, a, n, margin) && st.patch.diffs == []
    ensures var final, big := diffs[|diffs| - 1], 2 * margin;
            && Leads(HarmlessUpTo(diffs, |diffs|, final, big) && Stands(RunAfter(diffs, final, big)), st.patches, text1,
                     Text2(diffs), n, margin)
            && AllSized(st.patches) && AllWithin(st.patches, |Text1(diffs)| + |Text2(diffs)|)
            && RunAfter(diffs, final, big) == CLOSED
  {
    hide AllWithin, RunAfter, HarmlessUpTo, Leads, Sound, AllSized, Sized, Underway, Text1, Text2, Stands;
    assert diffs[..|diffs|] == diffs && diffs[|diffs|..] == [];
    NothingUnderway(st, RunAfter(diffs, diffs[|diffs| - 1], 2 * margin), diffs, a);
    StandsSelf(CLOSED);
  }

  lemma NothingUnderway(st: Making, run: Run, done: seq<Diff>, a: Text)
    requires Underway(st, run, done, a, []) && st.patch.diffs == []
    ensures run == CLOSED && st.prepatch == Text2(done) && AllSized(st.patches)
  {
    assert Text2(done) + [] == Text2(done);
  }

  /** Where the finished list leads decides whether it makes the target. */
  lemma LeadsMakes(ps: seq<Patch>, diffs: seq<Diff>, n: nat, margin: int, harmless: bool)
    requires Leads(harmless, ps, Text1(diffs), Text2(diffs), n, margin)
    ensures Chain(ps, Text1(diffs), Text2(diffs)) <==> harmless
    ensures harmless ==> Makes(ps, diffs, margin)
  {
  }

  lemma NothingMakes(margin: int)
    ensures Makes([], [], margin) && AllSized([]) && (forall n :: AllWithin([], n))
    ensures EchoesHarmless([], 2 * margin) && Chain([], Text1([]), Text2([]))
  {
  }

  lemma SensibleEdit(st: Making, d: Diff)
    requires Sensible(st)
    ensures Sensible(TakeEdit(st, d))
    ensures TakeEdit(st, d).patches == st.patches && TakeEdit(st, d).prepatch == st.prepatch
  {
  }

  // ----- lists that make one patch -----

  /** None of the first `n` diffs is an equality large enough to close a patch. */
  predicate NoneCloses(diffs: seq<Diff>, n: int, big: int) {
    forall k :: 0 <= k < n <= |diffs| && diffs[k].operation == EQUAL ==> |diffs[k].text| < big
  }

  /** The run the whole list leaves. */
  function WholeRun(diffs: seq<Diff>, margin: int): Run {
    if diffs == [] then CLOSED else RunAfter(diffs, diffs[|diffs| - 1], 2 * margin)
  }

  /** One patch is made, of what is kept of the run, or none if nothing is. */
  ghost predicate Lone(dmp: Settings, ps: seq<Patch>, diffs: seq<Diff>) {
    var run := WholeRun(diffs, dmp.patchMargin);
    if run.kept == [] then ps == []
    else
      exists p :: |ps| == 1 && GrownFrom(dmp, p, Text1(diffs), ps[0]) && p.diffs == run.kept && Sized(p) && Sound(run)
                  && p.start2 == |Text2(diffs)| - |Text2(run.full)|
  }

  lemma LoneOpen(dmp: Settings, st: Making, diffs: seq<Diff>, a: Text, ps: seq<Patch>)
    requires diffs != [] && st.prepatch == Text1(diffs) && st.postpatch == Text2(diffs)
    requires Holds(st.patch, WholeRun(diffs, dmp.patchMargin), a, [], st.prepatch, st.postpatch)
    requires |ps| == 1 && GrownFrom(dmp, st.patch, st.prepatch, ps[0])
    ensures Lone(dmp, ps, diffs)
  {
    hide Text1, Text2, GrownFrom, Sized, Sound, WholeRun;
  }

  lemma LoneClosed(dmp: Settings, diffs: seq<Diff>)
    requires WholeRun(diffs, dmp.patchMargin).kept == []
    ensures Lone(dmp, [], diffs)
  {
  }

  /** Where what is kept of the run still stands in the source, the one patch applies exactly,
      right or wrong. */
  lemma LoneApplies(dmp: Settings, ps: seq<Patch>, diffs: seq<Diff>)
    requires Lone(dmp, ps, diffs) && dmp.patchMargin > 0
    requires var run := WholeRun(diffs, dmp.patchMargin);
             && run.kept != []
             && OccursAt(Text1(diffs), Text1(run.kept), |Text2(diffs)| - |Text2(run.full)|)
    ensures var run, text1 := WholeRun(diffs, dmp.patchMargin), Text1(diffs);
            var n := |Text2(diffs)| - |Text2(run.full)|;
            && Chain(ps, text1, text1[..n] + Text2(run.kept) + text1[n + |Text1(run.kept)|..])
            && ps != [] && EdgeReady(ps[0], text1, dmp.patchMargin)
  {
    var run, text1 := WholeRun(diffs, dmp.patchMargin), Text1(diffs);
    hide Text1, Text2, WholeRun, Chain, EdgeReady, GrownFrom, Sized;
    var p :| |ps| == 1 && GrownFrom(dmp, p, text1, ps[0]) && p.diffs == run.kept && Sized(p) && Sound(run)
             && p.start2 == |Text2(diffs)| - |Text2(run.full)|;
    hide Sound, OccursAt;
    GrownApplies(dmp, p, text1, ps[0]);
    assert ps == [ps[0]];
  }

  lemma GrownApplies(dmp: Settings, p: Patch, t: Text, r: Patch)
    requires GrownFrom(dmp, p, t, r) && Sized(p) && Fits(p, t) && dmp.patchMargin > 0
    requires p.diffs != [] && p.diffs[0].operation != EQUAL
    ensures Chain([r], t, Splice(t, p)) && EdgeReady(r, t, dmp.patchMargin)
  {
    hide Context, Sized, Fits, Splice, Grown, EdgeReady;
    var prefix, suffix :| r == Grown(p, prefix, suffix) && Context(dmp, p, t, prefix, suffix);
    ContextHarmless(dmp, p, t, prefix, suffix);
    GrownReady(dmp, p, t, prefix, suffix);
    assert [r][1..] == [];
  }

  /** Makes patches from the diffs of `text1`. Applied exactly in order they give the target
      exactly when every echo among the diffs is harmless. */
  method PatchMake(dmp: Settings, text1: Text, diffs: seq<Diff>) returns (patches: seq<Patch>)
    requires dmp.patchMargin > 0
    ensures text1 == Text1(diffs) ==>
              && AllSized(patches) && AllWithin(patches, |text1| + |Text2(diffs)|)
              && (Chain(patches, text1, Text2(diffs)) <==> EchoesHarmless(diffs, 2 * dmp.patchMargin))
              && (EchoesHarmless(diffs, 2 * dmp.patchMargin) ==> Makes(patches, diffs, dmp.patchMargin))
    ensures text1 == Text1(diffs) && NoneCloses(diffs, |diffs|, 2 * dmp.patchMargin) ==>
              Lone(dmp, patches, diffs)
  {
    hide OnCourse, Holds, AllSized, AllWithin, Leads, Chain, Makes, Stands, Text1, Text2, RunAfter, ClosedBy,
      HarmlessUpTo, TakeEdit, Lone, GrownFrom;
    if diffs == [] {
      NothingMakes(dmp.patchMargin);
      LoneClosed(dmp, diffs);
      return [];
    }
    ghost var ok, final, margin := text1 == Text1(diffs), diffs[|diffs| - 1], dmp.patchMargin;
    var st := Making(NULL_PATCH, 0, 0, text1, text1, []);
    ghost var a: Text, n: nat := [], 0;
    if ok { CourseStart(text1, diffs, margin); }
    for i := 0 to |diffs|
      invariant Sensible(st)
      invariant NoneCloses(diffs, i, 2 * margin) ==> st.patches == [] && st.prepatch == text1
      invariant ok ==> OnCourse(st, text1, diffs, i, a, n, margin)
    {
      var d := diffs[i];
      if d.operation != EQUAL {
        if ok { EditStays(st, text1, diffs, i, a, n, margin); }
        a := if st.patch.diffs == [] then Text2(diffs[..i]) else a;
        SensibleEdit(st, d);
        st := TakeEdit(st, d);
      } else {
        st, n := StepEqual(dmp, st, diffs, i, text1, a, n);
      }
    }
    if st.patch.diffs != [] {
      if ok { CourseOpen(st, text1, diffs, a, n, margin); }
      ghost var open := st;
      st, n := ClosePatch(dmp, st, RunAfter(diffs, final, 2 * margin), text1, a, [],
                          HarmlessUpTo(diffs, |diffs|, final, 2 * margin), n);
      if ok && NoneCloses(diffs, |diffs|, 2 * margin) { LoneOpen(dmp, open, diffs, a, st.patches); }
    } else if ok {
      CourseClosed(st, text1, diffs, a, n, margin);
      if NoneCloses(diffs, |diffs|, 2 * margin) { LoneClosed(dmp, diffs); }
    }
    patches := st.patches;
    if ok { LeadsMakes(patches, diffs, n, margin, EchoesHarmless(diffs, 2 * margin)); }
  }
}
