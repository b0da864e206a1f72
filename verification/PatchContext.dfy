/** Context for a patch: equal text around it, grown until what the patch replaces is
    unique or long enough to be looked for. */
module PatchContext {
  import opened Texts
  import opened Diffs
  import opened EngineSettings
  import opened Patches
  import opened DiffSearch

  ghost predicate OccursOnce(text: Text, p: Text) {
    forall i, j :: OccursAt(text, p, i) && OccursAt(text, p, j) ==> i == j
  }

  /** The stretch of the text around the source of a patch, `padding` more on each side. */
  function Around(text: Text, start: int, length: int, padding: int): Text {
    var from := Max(0, start - padding);
    Mid(text, from, Min(|text|, start + length + padding) - from)
  }

  lemma WholeOnce(text: Text)
    ensures IndexOf(text, text, 0) == LastIndexOf(text, text, |text|) == 0
  {
    assert text[0..|text|] == text;
    assert OccursAt(text, text, 0);
  }

  /** The source can be told apart in the text, or is as long as it may get. */
  ghost predicate Unmistakable(dmp: Settings, text: Text, source: Text) {
    OccursOnce(text, source) || |source| >= dmp.matchMaxBits - 2 * dmp.patchMargin
  }

  /** How much padding makes the pattern unique, or as long as it may get. */
  method UniquePadding(dmp: Settings, text: Text, start: nat, length: nat) returns (padding: nat)
    requires text != [] && dmp.patchMargin > 0
    ensures var pattern := if padding == 0 then Mid(text, start, length) else Around(text, start, length, padding);
            Unmistakable(dmp, text, pattern)
  {
    padding := 0;
    var pattern := Mid(text, start, length);
    WholeOnce(text);
    while IndexOf(text, pattern, 0) != LastIndexOf(text, pattern, |text|)
          && |pattern| < dmp.matchMaxBits - dmp.patchMargin - dmp.patchMargin
      invariant pattern == if padding == 0 then Mid(text, start, length) else Around(text, start, length, padding)
      decreases Max(start, |text|) + dmp.patchMargin - padding
    {
      assert padding >= Max(start, |text|) ==> pattern == text;
      padding := padding + dmp.patchMargin;
      pattern := Around(text, start, length, padding);
    }
  }

  /** A patch grown by equal text before and after. */
  function Grown(p: Patch, prefix: Text, suffix: Text): Patch {
    Patch(Affix(prefix) + p.diffs + Affix(suffix), p.start1 - |prefix|, p.start2 - |prefix|,
          p.length1 + |prefix| + |suffix|, p.length2 + |prefix| + |suffix|)
  }

  /** Grows a patch by context from `text` until its source is unique or long enough, and
      by one chunk more. */
  method AddContext(dmp: Settings, p: Patch, text: Text) returns (r: Patch, ghost prefix: Text, ghost suffix: Text)
    requires dmp.patchMargin > 0 && 0 <= p.start2 && 0 <= p.length1
    ensures r == Grown(p, prefix, suffix)
    ensures |prefix| <= p.start2 && p.start2 + p.length1 + |suffix| <= Max(|text|, p.start2 + p.length1)
    ensures Fits(p, text) && Sized(p) ==> Context(dmp, p, text, prefix, suffix)
    ensures Fits(p, text) && Sized(p) && text != [] ==> Unmistakable(dmp, text, Text1(r.diffs))
  {
    hide Context, Fits, Sized, Mid, Grown, OccursOnce, Around, Unmistakable, Text1;
    if text == [] {
      prefix, suffix := [], [];
      NoContext(dmp, p);
      return p, [], [];
    }
    var unique := UniquePadding(dmp, text, p.start2, p.length1);
    var padding := unique + dmp.patchMargin;
    var from, end := Max(0, p.start2 - padding), p.start2 + p.length1;
    var before := Mid(text, from, p.start2 - from);
    var after := Mid(text, end, Min(|text|, end + padding) - end);
    prefix, suffix := before, after;
    MidAtMost(text, from, p.start2 - from);
    MidAtMost(text, end, Min(|text|, end + padding) - end);
    r := Grown(p, before, after);
    if Fits(p, text) && Sized(p) {
      ContextFound(dmp, p, text, padding);
      StillUnmistakable(dmp, p, text, unique, padding, before, after);
    }
  }

  /** A text around one that occurs once occurs once. */
  lemma OnceAround(text: Text, i: nat, f: nat, t: nat, j: nat)
    requires i <= f <= t <= j <= |text| && OccursOnce(text, text[f..t])
    ensures OccursOnce(text, text[i..j])
  {
    var s, p := text[i..j], text[f..t];
    forall m, n | OccursAt(text, s, m) && OccursAt(text, s, n) ensures m == n {
      Inner(text, i, f, t, j, m);
      Inner(text, i, f, t, j, n);
      assert OccursAt(text, p, m + (f - i)) && OccursAt(text, p, n + (f - i));
    }
  }

  lemma Inner(text: Text, i: nat, f: nat, t: nat, j: nat, m: int)
    requires i <= f <= t <= j <= |text| && OccursAt(text, text[i..j], m)
    ensures OccursAt(text, text[f..t], m + (f - i))
  {
    SliceOfSlice(text, m, m + (j - i), f - i, t - i);
    SliceOfSlice(text, i, j, f - i, t - i);
  }

  lemma SliceOfSlice(text: Text, a: nat, b: nat, c: nat, d: nat)
    requires a <= b <= |text| && c <= d <= b - a
    ensures text[a..b][c..d] == text[a + c..a + d]
  {
    var x, y := text[a..b][c..d], text[a + c..a + d];
    assert forall k :: 0 <= k < d - c ==> x[k] == text[a..b][c + k] == y[k];
  }

  lemma MidSlice(text: Text, a: nat, b: nat)
    requires a <= b <= |text|
    ensures Mid(text, a, b - a) == text[a..b]
  {
  }

  lemma AroundSlice(text: Text, start: nat, length: nat, padding: nat)
    requires start + length <= |text|
    ensures (if padding == 0 then Mid(text, start, length) else Around(text, start, length, padding))
            == text[Max(0, start - padding)..Min(|text|, start + length + padding)]
  {
  }

  lemma ThreeSlices(text: Text, a: nat, b: nat, c: nat, d: nat)
    requires a <= b <= c <= d <= |text|
    ensures text[a..b] + text[b..c] + text[c..d] == text[a..d]
  {
  }

  /** The chunk added for good luck does not undo what the padding was for. */
  lemma StillUnmistakable(dmp: Settings, p: Patch, text: Text, unique: nat, padding: nat, prefix: Text, suffix: Text)
    requires Fits(p, text) && Sized(p) && padding >= unique
    requires prefix == Mid(text, Max(0, p.start2 - padding), p.start2 - Max(0, p.start2 - padding))
    requires var end := p.start2 + p.length1; suffix == Mid(text, end, Min(|text|, end + padding) - end)
    requires var pattern := if unique == 0 then Mid(text, p.start2, p.length1)
                            else Around(text, p.start2, p.length1, unique);
             Unmistakable(dmp, text, pattern)
    ensures Unmistakable(dmp, text, Text1(Grown(p, prefix, suffix).diffs))
  {
    hide Text1, Text2, Unmistakable, Fits, Sized, Measured, Mid, Around, Grown;
    GrownSource(p, prefix, suffix);
    FitsBounds(p, text);
    var s, end := p.start2, p.start2 + p.length1;
    var f, t := Max(0, s - unique), Min(|text|, end + unique);
    var i, j := Max(0, s - padding), Min(|text|, end + padding);
    MidSlice(text, i, s);
    MidSlice(text, end, j);
    AroundSlice(text, s, p.length1, unique);
    ThreeSlices(text, i, s, end, j);
    UnmistakableAround(dmp, text, i, f, t, j);
  }

  lemma GrownSource(p: Patch, prefix: Text, suffix: Text)
    ensures Text1(Grown(p, prefix, suffix).diffs) == prefix + Text1(p.diffs) + suffix
  {
    AffixTexts(prefix, p.diffs, suffix);
  }

  lemma UnmistakableAround(dmp: Settings, text: Text, i: nat, f: nat, t: nat, j: nat)
    requires i <= f <= t <= j <= |text| && Unmistakable(dmp, text, text[f..t])
    ensures Unmistakable(dmp, text, text[i..j])
  {
    if OccursOnce(text, text[f..t]) { OnceAround(text, i, f, t, j); }
  }

  lemma MidAtMost(s: Text, pos: nat, n: int)
    ensures n >= 0 ==> |Mid(s, pos, n)| <= n
    ensures pos + |Mid(s, pos, n)| <= Max(|s|, pos)
  {
  }

  lemma FitsBounds(p: Patch, text: Text)
    requires Fits(p, text) && Sized(p)
    ensures 0 <= p.start2 <= p.start2 + p.length1 <= |text|
    ensures Text1(p.diffs) == text[p.start2..p.start2 + p.length1]
  {
  }

  lemma NoContext(dmp: Settings, p: Patch)
    ensures p == Grown(p, [], [])
    ensures Fits(p, []) ==> Context(dmp, p, [], [], [])
  {
    assert [] + p.diffs + [] == p.diffs;
  }

  /** The prefix and suffix stand around the source of the patch, and are as long as a
      margin unless the text ends first. */
  ghost predicate Context(dmp: Settings, p: Patch, text: Text, prefix: Text, suffix: Text)
    requires Fits(p, text)
  {
    var end := p.start2 + |Text1(p.diffs)|;
    && |prefix| <= p.start2 && prefix == text[p.start2 - |prefix|..p.start2]
    && end + |suffix| <= |text| && suffix == text[end..end + |suffix|]
    && (|prefix| < dmp.patchMargin ==> |prefix| == p.start2)
    && (|suffix| < dmp.patchMargin ==> end + |suffix| == |text|)
  }

  lemma ContextFound(dmp: Settings, p: Patch, text: Text, padding: nat)
    requires Fits(p, text) && Sized(p) && padding >= dmp.patchMargin > 0
    ensures var from, end := Max(0, p.start2 - padding), p.start2 + p.length1;
            Context(dmp, p, text, Mid(text, from, p.start2 - from), Mid(text, end, Min(|text|, end + padding) - end))
  {
    FitsBounds(p, text);
    hide Fits, Text1;
  }

  /** Context changes neither where a patch fits nor what it does. */
  lemma ContextHarmless(dmp: Settings, p: Patch, text: Text, prefix: Text, suffix: Text)
    requires Fits(p, text) && Sized(p) && Context(dmp, p, text, prefix, suffix)
    ensures var r := Grown(p, prefix, suffix); Sized(r) && Fits(r, text) && Splice(text, r) == Splice(text, p)
  {
    hide Sized, Text1, Text2, Grown;
    var end := p.start2 + |Text1(p.diffs)|;
    CutContext(text, p.start2, end, |prefix|, |suffix|);
    GrownPieces(p, text[..p.start2 - |prefix|], prefix, suffix, text[end + |suffix|..]);
  }

  lemma CutContext(t: Text, s: nat, e: nat, n: nat, m: nat)
    requires n <= s <= e && e + m <= |t|
    ensures t == t[..s - n] + t[s - n..s] + t[s..e] + t[e..e + m] + t[e + m..]
  {
  }

  lemma GrownPieces(p: Patch, a: Text, prefix: Text, suffix: Text, b: Text)
    requires p.start2 == |a + prefix| && Sized(p)
    ensures var text, r := a + prefix + Text1(p.diffs) + suffix + b, Grown(p, prefix, suffix);
            Sized(r) && Fits(r, text) && Fits(p, text) && Splice(text, r) == Splice(text, p)
  {
    var r := Grown(p, prefix, suffix);
    AffixTexts(prefix, p.diffs, suffix);
    hide Text1, Text2;
    var s1, s2 := Text1(p.diffs), Text2(p.diffs);
    SpliceParts(p, a + prefix, suffix + b);
    SpliceParts(r, a, b);
    Regrouped(a, prefix, s1, suffix, b);
    Regrouped(a, prefix, s2, suffix, b);
  }

  lemma Regrouped(a: Text, p: Text, t: Text, s: Text, b: Text)
    ensures a + p + t + s + b == a + p + t + (s + b) == a + (p + t + s) + b
  {
  }

  /** Context leaves a patch measured. */
  lemma GrownSized(p: Patch, prefix: Text, suffix: Text)
    requires Sized(p) && p.diffs != []
    ensures Sized(Grown(p, prefix, suffix)) && Grown(p, prefix, suffix).diffs != []
  {
    AffixTexts(prefix, p.diffs, suffix);
  }

  /** A patch that fits with its context fits without it, and does the same. */
  lemma GrownFits(p: Patch, prefix: Text, suffix: Text, text: Text)
    requires Sized(p) && Fits(Grown(p, prefix, suffix), text)
    ensures Fits(p, text) && Splice(text, Grown(p, prefix, suffix)) == Splice(text, p)
  {
    var r := Grown(p, prefix, suffix);
    AffixTexts(prefix, p.diffs, suffix);
    hide Text1, Text2, Sized, Measured;
    var a, b := text[..r.start2], text[r.start2 + |Text1(r.diffs)|..];
    FitParts(r, text);
    hide Fits, Splice;
    Regrouped(a, prefix, Text1(p.diffs), suffix, b);
    GrownPieces(p, a, prefix, suffix, b);
  }

  /** A patch at an edge of the text lacks context there for that reason only. */
  ghost predicate EdgeReady(p: Patch, text: Text, margin: int) {
    && p.diffs != [] && (|p.diffs| >= 2 || p.diffs[0].operation != EQUAL)
    && (p.diffs[0].operation != EQUAL || |p.diffs[0].text| < margin ==> p.start2 == 0)
    && var last := p.diffs[|p.diffs| - 1];
       (last.operation != EQUAL || |last.text| < margin ==> p.start2 + |Text1(p.diffs)| == |text|)
  }
}
