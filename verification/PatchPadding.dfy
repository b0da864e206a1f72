/** Pads the text and the patches so that the edges of the text can match something. */
module PatchPadding {
  import opened Texts
  import opened Diffs
  import opened MergeCleanup
  import opened ListCursor
  import opened EngineSettings
  import opened Patches
  import opened PatchContext
  import opened PatchMaking

  /** The padding: one unit for each of 1..margin. */
  function NullPadding(margin: nat): (pad: Text)
    requires margin < 0x10000
    ensures |pad| == margin
  {
    seq(margin, i requires 0 <= i < margin => (i + 1) as QChar)
  }

  function Bumped(p: Patch, n: int): Patch {
    p.(start1 := p.start1 + n, start2 := p.start2 + n)
  }

  function AllBumped(ps: seq<Patch>, n: int): (r: seq<Patch>)
    ensures |r| == |ps| && forall i :: 0 <= i < |ps| ==> r[i] == Bumped(ps[i], n)
  {
    if ps == [] then [] else [Bumped(ps[0], n)] + AllBumped(ps[1..], n)
  }

  /** What the padding adds before the first diff. */
  function FrontExtra(diffs: seq<Diff>, pad: Text): Text {
    if diffs == [] || diffs[0].operation != EQUAL then pad
    else if |pad| > |diffs[0].text| then pad[|diffs[0].text|..]
    else []
  }

  /** What the padding adds after the last diff. */
  function BackExtra(diffs: seq<Diff>, pad: Text): Text {
    if diffs == [] || diffs[|diffs| - 1].operation != EQUAL then pad
    else if |pad| > |diffs[|diffs| - 1].text| then pad[..|pad| - |diffs[|diffs| - 1].text|]
    else []
  }

  /** Padding before the first diff: a new equality, or more of the one there. */
  function PadFront(p: Patch, pad: Text): Patch {
    var x := FrontExtra(p.diffs, pad);
    var n := |x|;
    var diffs := if p.diffs == [] || p.diffs[0].operation != EQUAL then [Diff(EQUAL, x)] + p.diffs
                 else [Diff(EQUAL, x + p.diffs[0].text)] + p.diffs[1..];
    Patch(diffs, p.start1 - n, p.start2 - n, p.length1 + n, p.length2 + n)
  }

  /** Padding after the last diff: a new equality, or more of the one there. */
  function PadBack(p: Patch, pad: Text): Patch {
    var y := BackExtra(p.diffs, pad);
    var n := |y|;
    var diffs := if p.diffs == [] || p.diffs[|p.diffs| - 1].operation != EQUAL then p.diffs + [Diff(EQUAL, y)]
                 else p.diffs[..|p.diffs| - 1] + [Diff(EQUAL, p.diffs[|p.diffs| - 1].text + y)];
    Patch(diffs, p.start1, p.start2, p.length1 + n, p.length2 + n)
  }

  // ----- padding and exact application -----

  lemma PadFrontTexts(p: Patch, pad: Text)
    ensures Text1(PadFront(p, pad).diffs) == FrontExtra(p.diffs, pad) + Text1(p.diffs)
    ensures Text2(PadFront(p, pad).diffs) == FrontExtra(p.diffs, pad) + Text2(p.diffs)
  {
    var x := FrontExtra(p.diffs, pad);
    if p.diffs == [] || p.diffs[0].operation != EQUAL {
      WithFirst(Diff(EQUAL, x), p.diffs);
    } else {
      var d, rest := p.diffs[0], p.diffs[1..];
      WithFirst(Diff(EQUAL, x + d.text), rest);
      Regroup(x, d.text, Text1(rest));
      Regroup(x, d.text, Text2(rest));
    }
  }

  lemma PadBackTexts(p: Patch, pad: Text)
    ensures Text1(PadBack(p, pad).diffs) == Text1(p.diffs) + BackExtra(p.diffs, pad)
    ensures Text2(PadBack(p, pad).diffs) == Text2(p.diffs) + BackExtra(p.diffs, pad)
  {
    var y := BackExtra(p.diffs, pad);
    if p.diffs == [] || p.diffs[|p.diffs| - 1].operation != EQUAL {
      WithLast(p.diffs, Diff(EQUAL, y));
    } else {
      var init, d := p.diffs[..|p.diffs| - 1], p.diffs[|p.diffs| - 1];
      assert p.diffs == init + [d];
      WithLast(init, d);
      WithLast(init, Diff(EQUAL, d.text + y));
      Regroup(Text1(init), d.text, y);
      Regroup(Text2(init), d.text, y);
    }
  }

  /** Both edges of the first patch padded, after it was bumped. */
  function Padded(p: Patch, pad: Text): Patch {
    PadBack(PadFront(Bumped(p, |pad|), pad), pad)
  }

  /** Widening a patch by equal text changes neither where it fits nor what it does. */
  lemma WidenPieces(p: Patch, r: Patch, a: Text, x: Text, y: Text, b: Text)
    requires p.start2 == |a + x| && r.start2 == |a|
    requires Text1(r.diffs) == x + Text1(p.diffs) + y && Text2(r.diffs) == x + Text2(p.diffs) + y
    ensures var t := a + x + Text1(p.diffs) + y + b; Fits(r, t) && Fits(p, t) && Splice(t, r) == Splice(t, p)
  {
    hide Text1, Text2;
    SpliceParts(p, a + x, y + b);
    SpliceParts(r, a, b);
    Regrouped(a, x, Text1(p.diffs), y, b);
    Regrouped(a, x, Text2(p.diffs), y, b);
  }

  /** The start of the text around the first patch, as the padding sees it. */
  lemma FrontPieces(p: Patch, pad: Text, t: Text)
    requires EdgeReady(p, t, |pad|) && Fits(p, t)
    ensures var x := FrontExtra(p.diffs, pad);
            exists a :: |a| + |x| == |pad| + p.start2 && pad + t[..p.start2] == a + x
  {
    var x := FrontExtra(p.diffs, pad);
    var a := if x == [] then pad + t[..p.start2] else pad[..|pad| - |x|];
    if x != [] {
      assert p.start2 == 0;
      assert pad + t[..0] == pad;
      assert pad == pad[..|pad| - |x|] + pad[|pad| - |x|..];
    } else {
      assert a + x == a;
    }
  }

  lemma BackPieces(p: Patch, pad: Text, t: Text)
    requires EdgeReady(p, t, |pad|) && Fits(p, t)
    ensures var y, end := BackExtra(p.diffs, pad), p.start2 + |Text1(p.diffs)|;
            exists b :: t[end..] + pad == y + b
  {
    var y, end := BackExtra(p.diffs, pad), p.start2 + |Text1(p.diffs)|;
    var b := if y == [] then t[end..] + pad else pad[|y|..];
    if y != [] {
      assert end == |t|;
      assert t[|t|..] + pad == pad;
      assert pad == pad[..|y|] + pad[|y|..];
    } else {
      assert y + b == b;
    }
  }

  /** A patch bumped by the padding does to the padded text what it did to the text. */
  lemma BumpedFits(p: Patch, pad: Text, t: Text, q: Text)
    requires Fits(p, t)
    ensures var r := Bumped(p, |pad|); Fits(r, pad + t + q) && Splice(pad + t + q, r) == pad + Splice(t, p) + q
  {
    var a, s1, s2, b := t[..p.start2], Text1(p.diffs), Text2(p.diffs), t[p.start2 + |Text1(p.diffs)|..];
    FitParts(p, t);
    SpliceParts(Bumped(p, |pad|), pad + a, b + q);
    hide Text1, Text2;
    BumpedWords(pad, a, s1, b, q);
    BumpedWords(pad, a, s2, b, q);
  }

  lemma BumpedWords(pad: Text, a: Text, s: Text, b: Text, q: Text)
    ensures pad + (a + s + b) + q == pad + a + s + (b + q)
  {
  }

  lemma {:induction false} ChainBumped(ps: seq<Patch>, pad: Text, q: Text, t: Text, u: Text)
    requires Chain(ps, t, u)
    ensures Chain(AllBumped(ps, |pad|), pad + t + q, pad + u + q)
  {
    if ps != [] {
      BumpedFits(ps[0], pad, t, q);
      ChainBumped(ps[1..], pad, q, Splice(t, ps[0]), u);
      var bs := AllBumped(ps, |pad|);
      assert bs[0] == Bumped(ps[0], |pad|) && bs[1..] == AllBumped(ps[1..], |pad|);
    }
  }

  lemma PaddedExtras(p: Patch, pad: Text)
    requires p.diffs != [] && (|p.diffs| >= 2 || p.diffs[0].operation != EQUAL)
    ensures BackExtra(PadFront(p, pad).diffs, pad) == BackExtra(p.diffs, pad)
  {
    var diffs, diffs' := p.diffs, PadFront(p, pad).diffs;
    assert diffs'[|diffs'| - 1] == diffs[|diffs| - 1];
  }

  lemma PaddedTexts(p: Patch, pad: Text)
    requires p.diffs != [] && (|p.diffs| >= 2 || p.diffs[0].operation != EQUAL) && Sized(p)
    ensures var r, x, y := Padded(p, pad), FrontExtra(p.diffs, pad), BackExtra(p.diffs, pad);
            && Text1(r.diffs) == x + Text1(p.diffs) + y && Text2(r.diffs) == x + Text2(p.diffs) + y
            && r.start2 == p.start2 + |pad| - |x| && Sized(r) && r.diffs != []
  {
    var q := Bumped(p, |pad|);
    PadFrontTexts(q, pad);
    PaddedExtras(q, pad);
    PadBackTexts(PadFront(q, pad), pad);
  }

  /** The padded first patch does to the padded text what the bumped one does. */
  lemma PaddedFits(p: Patch, pad: Text, t: Text)
    requires EdgeReady(p, t, |pad|) && Fits(p, t) && Sized(p)
    ensures var r, text := Padded(p, pad), pad + t + pad;
            Sized(r) && r.diffs != [] && Fits(r, text) && Splice(text, r) == pad + Splice(t, p) + pad
  {
    var r := Padded(p, pad);
    var x, y, end := FrontExtra(p.diffs, pad), BackExtra(p.diffs, pad), p.start2 + |Text1(p.diffs)|;
    PaddedTexts(p, pad);
    FrontPieces(p, pad, t);
    BackPieces(p, pad, t);
    FitParts(p, t);
    BumpedFits(p, pad, t, pad);
    hide Text1, Text2, FrontExtra, BackExtra, Padded, Sized, EdgeReady;
    var a :| |a| + |x| == |pad| + p.start2 && pad + t[..p.start2] == a + x;
    var b :| t[end..] + pad == y + b;
    hide Fits, Splice;
    PaddedPieces(p, r, pad, t, t[..p.start2], t[end..], a, x, y, b);
  }

  lemma PaddedPieces(p: Patch, r: Patch, pad: Text, t: Text, l: Text, e: Text, a: Text, x: Text, y: Text, b: Text)
    requires t == l + Text1(p.diffs) + e && pad + l == a + x && e + pad == y + b
    requires |l| == p.start2 && r.start2 == |a|
    requires Text1(r.diffs) == x + Text1(p.diffs) + y && Text2(r.diffs) == x + Text2(p.diffs) + y
    ensures Fits(r, pad + t + pad) && Fits(Bumped(p, |pad|), pad + t + pad)
    ensures Splice(pad + t + pad, r) == Splice(pad + t + pad, Bumped(p, |pad|))
  {
    assert |a + x| == |pad| + |l|;
    WidenPieces(Bumped(p, |pad|), r, a, x, y, b);
    PaddedWords(pad, l, Text1(p.diffs), e, a, x, y, b);
  }

  lemma PaddedWords(pad: Text, l: Text, s: Text, e: Text, a: Text, x: Text, y: Text, b: Text)
    requires pad + l == a + x && e + pad == y + b
    ensures pad + (l + s + e) + pad == a + x + s + y + b
  {
    BumpedWords(pad, l, s, e, pad);
    Regrouped(a, x, s, y, b);
    assert pad + l + s + (e + pad) == a + x + s + (y + b);
  }

  // ----- the pass over the list -----

  lemma NextPadding(x: nat)
    requires x < 0xffff
    ensures NullPadding(x + 1) == NullPadding(x) + [(x + 1) as QChar]
  {
  }

  /** One more patch bumped in place. */
  lemma BumpedStep(ps: seq<Patch>, n: int, i: nat)
    requires i < |ps|
    ensures var items := AllBumped(ps[..i], n) + ps[i..];
            && |items| == |ps| && items[i] == ps[i]
            && items[i := Bumped(ps[i], n)] == AllBumped(ps[..i + 1], n) + ps[i + 1..]
  {
  }

  lemma BumpedRest(ps: seq<Patch>, n: int)
    requires ps != []
    ensures AllBumped(ps, n) == [Bumped(ps[0], n)] + AllBumped(ps[1..], n)
  {
  }

  /** Bumps all the patches forward. */
  method BumpAll(patches: Cursor<Patch>, n: int)
    requires patches.Valid()
    modifies patches
    ensures patches.Valid() && patches.items == AllBumped(old(patches.items), n)
  {
    hide Bumped, AllBumped;
    ghost var ps := patches.items;
    patches.ToFront();
    assert ps[..0] == [] && ps[0..] == ps && AllBumped([], n) + ps == ps by { NoneBumped(n, ps); }
    while patches.HasNext()
      invariant patches.Valid() && patches.pos <= |ps| == |patches.items|
      invariant patches.items == AllBumped(ps[..patches.pos], n) + ps[patches.pos..]
      decreases |ps| - patches.pos
    {
      BumpedStep(ps, n, patches.pos);
      var p := patches.Next();
      patches.SetValue(Bumped(p, n));
    }
    assert ps[..|ps|] == ps && ps[|ps|..] == [];
  }

  lemma NoneBumped(n: int, ps: seq<Patch>)
    ensures AllBumped([], n) + ps == ps
  {
  }

  /** Moves every patch behind the padding, then pads both edges of the first patch. Only
      the first: the engine takes the same patch for the last one. */
  method AddPadding(dmp: Settings, patches: Cursor<Patch>) returns (nullPadding: Text)
    requires patches.Valid() && patches.items != [] && 0 < dmp.patchMargin < 0x8000
    modifies patches
    ensures patches.Valid() && nullPadding == NullPadding(dmp.patchMargin)
    ensures var ps := old(patches.items);
            patches.items == [Padded(ps[0], nullPadding)] + AllBumped(ps[1..], |nullPadding|)
  {
    hide PadFront, PadBack, Bumped, AllBumped;
    ghost var ps := patches.items;
    nullPadding := [];
    for x := 0 to dmp.patchMargin
      invariant nullPadding == NullPadding(x) && patches.Valid() && patches.items == ps
    {
      NextPadding(x);
      nullPadding := nullPadding + [(x + 1) as QChar];
    }
    BumpAll(patches, dmp.patchMargin);
    BumpedRest(ps, dmp.patchMargin);
    patches.SetAt(0, PadFront(patches.items[0], nullPadding));
    patches.SetAt(0, PadBack(patches.items[0], nullPadding));
  }

  /** The padded patches turn the padded source into the padded target. */
  lemma PaddedChain(ps: seq<Patch>, pad: Text, t: Text, u: Text)
    requires ps != [] && Chain(ps, t, u) && AllSized(ps) && EdgeReady(ps[0], t, |pad|)
    ensures var qs := [Padded(ps[0], pad)] + AllBumped(ps[1..], |pad|);
            Chain(qs, pad + t + pad, pad + u + pad) && AllMeasured(qs)
  {
    hide Padded, EdgeReady, Fits, Splice, Text1, Text2;
    var head, tail := Padded(ps[0], pad), AllBumped(ps[1..], |pad|);
    PaddedFits(ps[0], pad, t);
    ChainBumped(ps[1..], pad, pad, Splice(t, ps[0]), u);
    ChainOne(head, pad + t + pad);
    ChainConcat([head], tail, pad + t + pad, Splice(pad + t + pad, head), pad + u + pad);
    assert forall i :: 0 <= i < |tail| ==> tail[i] == Bumped(ps[1..][i], |pad|) && Sized(ps[1..][i]);
  }
}
