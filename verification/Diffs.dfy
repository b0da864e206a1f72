/** One diff operation, and what a list of them means: the text it starts from,
    the text it produces, and how many units it edits. */
module Diffs {
  import opened Texts

  datatype Operation = DELETE | INSERT | EQUAL

  datatype Diff = Diff(operation: Operation, text: Text)

  /** The source text: everything but the insertions. */
  function Text1(ds: seq<Diff>): Text {
    if ds == [] then []
    else (if ds[0].operation == INSERT then [] else ds[0].text) + Text1(ds[1..])
  }

  /** The target text: everything but the deletions. */
  function Text2(ds: seq<Diff>): Text {
    if ds == [] then []
    else (if ds[0].operation == DELETE then [] else ds[0].text) + Text2(ds[1..])
  }

  /** Units deleted plus units inserted. */
  function EditCost(ds: seq<Diff>): nat {
    if ds == [] then 0
    else (if ds[0].operation == EQUAL then 0 else |ds[0].text|) + EditCost(ds[1..])
  }

  function EqualCount(ds: seq<Diff>): nat {
    if ds == [] then 0
    else (if ds[0].operation == EQUAL then 1 else 0) + EqualCount(ds[1..])
  }

  /** Both lists turn the same source into the same target. */
  ghost predicate SameTexts(ds: seq<Diff>, es: seq<Diff>) {
    Text1(ds) == Text1(es) && Text2(ds) == Text2(es)
  }

  /** The list turns `text1` into `text2`. */
  ghost predicate Transforms(ds: seq<Diff>, text1: Text, text2: Text) {
    Text1(ds) == text1 && Text2(ds) == text2
  }

  ghost predicate NoBlank(ds: seq<Diff>) {
    forall i :: 0 <= i < |ds| ==> ds[i].text != []
  }

  ghost predicate AllEdits(ds: seq<Diff>) {
    forall i :: 0 <= i < |ds| ==> ds[i].operation != EQUAL
  }

  ghost predicate AllEqual(ds: seq<Diff>) {
    forall i :: 0 <= i < |ds| ==> ds[i].operation == EQUAL
  }

  // ----- lists built from pieces -----

  lemma {:induction false} Concat(a: seq<Diff>, b: seq<Diff>)
    ensures Text1(a + b) == Text1(a) + Text1(b)
    ensures Text2(a + b) == Text2(a) + Text2(b)
    ensures EditCost(a + b) == EditCost(a) + EditCost(b)
    ensures EqualCount(a + b) == EqualCount(a) + EqualCount(b)
  {
    if a == [] {
      assert a + b == b;
    } else {
      assert (a + b)[0] == a[0] && (a + b)[1..] == a[1..] + b;
      Concat(a[1..], b);
      Unfolded(a);
      Unfolded(a + b);
      hide Text1, Text2, EditCost, EqualCount;
      Associates(if a[0].operation == INSERT then [] else a[0].text, Text1(a[1..]), Text1(b));
      Associates(if a[0].operation == DELETE then [] else a[0].text, Text2(a[1..]), Text2(b));
    }
  }

  lemma Unfolded(ds: seq<Diff>)
    requires ds != []
    ensures Text1(ds) == (if ds[0].operation == INSERT then [] else ds[0].text) + Text1(ds[1..])
    ensures Text2(ds) == (if ds[0].operation == DELETE then [] else ds[0].text) + Text2(ds[1..])
    ensures EditCost(ds) == (if ds[0].operation == EQUAL then 0 else |ds[0].text|) + EditCost(ds[1..])
    ensures EqualCount(ds) == (if ds[0].operation == EQUAL then 1 else 0) + EqualCount(ds[1..])
  {
  }

  lemma Associates(x: Text, y: Text, z: Text)
    ensures x + (y + z) == x + y + z
  {
  }

  lemma Concat3(a: seq<Diff>, b: seq<Diff>, c: seq<Diff>)
    ensures Text1(a + b + c) == Text1(a) + Text1(b) + Text1(c)
    ensures Text2(a + b + c) == Text2(a) + Text2(b) + Text2(c)
    ensures EditCost(a + b + c) == EditCost(a) + EditCost(b) + EditCost(c)
    ensures EqualCount(a + b + c) == EqualCount(a) + EqualCount(b) + EqualCount(c)
  {
    Concat(a + b, c);
    Concat(a, b);
  }

  lemma Single(d: Diff)
    ensures Text1([d]) == if d.operation == INSERT then [] else d.text
    ensures Text2([d]) == if d.operation == DELETE then [] else d.text
    ensures EditCost([d]) == if d.operation == EQUAL then 0 else |d.text|
    ensures EqualCount([d]) == if d.operation == EQUAL then 1 else 0
  {
    assert [d][1..] == [];
  }

  lemma Pair(d: Diff, e: Diff)
    ensures Text1([d, e]) == Text1([d]) + Text1([e])
    ensures Text2([d, e]) == Text2([d]) + Text2([e])
    ensures EditCost([d, e]) == EditCost([d]) + EditCost([e])
    ensures EqualCount([d, e]) == EqualCount([d]) + EqualCount([e])
  {
    assert [d, e] == [d] + [e];
    Concat([d], [e]);
  }

  lemma Triple(d: Diff, e: Diff, f: Diff)
    ensures Text1([d, e, f]) == Text1([d]) + Text1([e]) + Text1([f])
    ensures Text2([d, e, f]) == Text2([d]) + Text2([e]) + Text2([f])
    ensures EditCost([d, e, f]) == EditCost([d]) + EditCost([e]) + EditCost([f])
    ensures EqualCount([d, e, f]) == EqualCount([d]) + EqualCount([e]) + EqualCount([f])
  {
    assert [d, e, f] == [d] + [e] + [f];
    Concat3([d], [e], [f]);
  }

  /** Replacing a middle stretch by one with the same texts changes neither text. */
  lemma Replace(a: seq<Diff>, b: seq<Diff>, b': seq<Diff>, c: seq<Diff>)
    requires SameTexts(b, b')
    ensures SameTexts(a + b + c, a + b' + c)
    ensures EditCost(a + b' + c) - EditCost(a + b + c) == EditCost(b') - EditCost(b)
    ensures EqualCount(a + b' + c) - EqualCount(a + b + c) == EqualCount(b') - EqualCount(b)
  {
    Concat3(a, b, c);
    Concat3(a, b', c);
  }

  lemma {:induction false} AllEqualTexts(ds: seq<Diff>)
    requires AllEqual(ds)
    ensures Text1(ds) == Text2(ds) && EditCost(ds) == 0
  {
    if ds != [] { AllEqualTexts(ds[1..]); }
  }

  lemma {:induction false} AllEditsCost(ds: seq<Diff>)
    requires AllEdits(ds)
    ensures EditCost(ds) == |Text1(ds)| + |Text2(ds)|
    ensures EqualCount(ds) == 0
  {
    if ds != [] { AllEditsCost(ds[1..]); }
  }

  /** The source text by a loop over the list. */
  method DiffText1(ds: seq<Diff>) returns (text: Text)
    ensures text == Text1(ds)
  {
    text := [];
    for i := 0 to |ds|
      invariant text == Text1(ds[..i])
    {
      assert ds[..i + 1] == ds[..i] + [ds[i]];
      Concat(ds[..i], [ds[i]]);
      Single(ds[i]);
      if ds[i].operation != INSERT {
        text := text + ds[i].text;
      }
    }
    assert ds[..|ds|] == ds;
  }

  /** The target text by a loop over the list. */
  method DiffText2(ds: seq<Diff>) returns (text: Text)
    ensures text == Text2(ds)
  {
    text := [];
    for i := 0 to |ds|
      invariant text == Text2(ds[..i])
    {
      assert ds[..i + 1] == ds[..i] + [ds[i]];
      Concat(ds[..i], [ds[i]]);
      Single(ds[i]);
      if ds[i].operation != DELETE {
        text := text + ds[i].text;
      }
    }
    assert ds[..|ds|] == ds;
  }
}
