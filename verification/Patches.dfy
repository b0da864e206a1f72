/** Patches, and what it means to apply them exactly: each replaces its source text,
    found at its start, by its target text, one patch after another. */
module Patches {
  import opened Texts
  import opened Diffs

  datatype Patch = Patch(diffs: seq<Diff>, start1: int, start2: int, length1: int, length2: int)

  const NULL_PATCH := Patch([], 0, 0, 0, 0)

  /** The lengths are those of the two texts. */
  ghost predicate Measured(p: Patch) {
    p.length1 == |Text1(p.diffs)| && p.length2 == |Text2(p.diffs)|
  }

  /** As the patch maker leaves a patch: measured, and starting at one place in both texts. */
  ghost predicate Sized(p: Patch) {
    Measured(p) && p.start1 == p.start2
  }

  ghost predicate AllMeasured(ps: seq<Patch>) {
    forall i :: 0 <= i < |ps| ==> Measured(ps[i]) && ps[i].diffs != []
  }

  /** The source text of the patch stands at its start. */
  ghost predicate Fits(p: Patch, text: Text) {
    OccursAt(text, Text1(p.diffs), p.start2)
  }

  /** The text with the source text of the patch replaced by its target text. */
  ghost function Splice(text: Text, p: Patch): Text
    requires Fits(p, text)
  {
    text[..p.start2] + Text2(p.diffs) + text[p.start2 + |Text1(p.diffs)|..]
  }

  /** Applied exactly, one after another, the patches turn `t` into `u`. */
  ghost predicate Chain(ps: seq<Patch>, t: Text, u: Text) {
    if ps == [] then t == u else Fits(ps[0], t) && Chain(ps[1..], Splice(t, ps[0]), u)
  }

  lemma SpliceParts(p: Patch, a: Text, b: Text)
    requires p.start2 == |a|
    ensures Fits(p, a + Text1(p.diffs) + b)
    ensures Splice(a + Text1(p.diffs) + b, p) == a + Text2(p.diffs) + b
  {
    var t := a + Text1(p.diffs) + b;
    assert t[..|a|] == a && t[|a| + |Text1(p.diffs)|..] == b;
  }

  lemma FitParts(p: Patch, t: Text)
    requires Fits(p, t)
    ensures t == t[..p.start2] + Text1(p.diffs) + t[p.start2 + |Text1(p.diffs)|..]
  {
  }

  lemma {:induction false} ChainConcat(ps: seq<Patch>, qs: seq<Patch>, t: Text, u: Text, v: Text)
    requires Chain(ps, t, u) && Chain(qs, u, v)
    ensures Chain(ps + qs, t, v)
  {
    if ps == [] {
      assert ps + qs == qs;
    } else {
      assert (ps + qs)[1..] == ps[1..] + qs;
      ChainConcat(ps[1..], qs, Splice(t, ps[0]), u, v);
    }
  }

  lemma ChainOne(p: Patch, t: Text)
    requires Fits(p, t)
    ensures Chain([p], t, Splice(t, p))
  {
    assert [p][1..] == [];
  }

  lemma ChainSnoc(ps: seq<Patch>, p: Patch, t: Text, u: Text)
    requires Chain(ps, t, u) && Fits(p, u)
    ensures Chain(ps + [p], t, Splice(u, p))
  {
    ChainOne(p, u);
    ChainConcat(ps, [p], t, u, Splice(u, p));
  }

  lemma {:induction false} ChainSnocInverse(ps: seq<Patch>, p: Patch, t: Text, v: Text) returns (u: Text)
    requires Chain(ps + [p], t, v)
    ensures Chain(ps, t, u) && Fits(p, u) && v == Splice(u, p)
  {
    var qs := ps + [p];
    if ps == [] {
      assert qs == [p] && qs[1..] == [];
      u := t;
    } else {
      assert qs[0] == ps[0] && qs[1..] == ps[1..] + [p];
      u := ChainSnocInverse(ps[1..], p, Splice(t, ps[0]), v);
    }
  }

  lemma {:induction false} ChainOnce(ps: seq<Patch>, t: Text, u: Text, v: Text)
    requires Chain(ps, t, u) && Chain(ps, t, v)
    ensures u == v
  {
    if ps != [] { ChainOnce(ps[1..], Splice(t, ps[0]), u, v); }
  }
}
