/** Lists of texts joined by a separator unit, and taken apart at it. */
module TextLists {
  import opened Texts

  /** The texts each followed by the separator. */
  function Terminated(parts: seq<Text>, sep: QChar): Text {
    if parts == [] then [] else parts[0] + [sep] + Terminated(parts[1..], sep)
  }

  /** The texts with the separator between them. */
  function Joined(parts: seq<Text>, sep: QChar): Text {
    if parts == [] then [] else if |parts| == 1 then parts[0] else parts[0] + [sep] + Joined(parts[1..], sep)
  }

  function Split(s: Text, sep: QChar): (parts: seq<Text>)
    ensures parts != []
  {
    if s == [] then [[]]
    else
      var parts := Split(s[1..], sep);
      if s[0] == sep then [[]] + parts else [[s[0]] + parts[0]] + parts[1..]
  }

  function NonEmpty(parts: seq<Text>): seq<Text> {
    if parts == [] then [] else (if parts[0] == [] then [] else [parts[0]]) + NonEmpty(parts[1..])
  }

  /** No part holds the separator. */
  ghost predicate Apart(parts: seq<Text>, sep: QChar) {
    forall i :: 0 <= i < |parts| ==> sep !in parts[i]
  }

  lemma {:induction false} SplitFirst(a: Text, sep: QChar, b: Text)
    requires sep !in a
    ensures Split(a + [sep] + b, sep) == [a] + Split(b, sep)
  {
    var s := a + [sep] + b;
    if a == [] {
      assert s[1..] == b;
    } else {
      assert s[1..] == a[1..] + [sep] + b;
      SplitFirst(a[1..], sep, b);
      assert [a[0]] + a[1..] == a;
    }
  }

  lemma {:induction false} SplitWhole(a: Text, sep: QChar)
    requires sep !in a
    ensures Split(a, sep) == [a]
  {
    if a != [] {
      SplitWhole(a[1..], sep);
      assert [a[0]] + a[1..] == a;
    }
  }

  /** Splitting undoes joining. */
  lemma {:induction false} SplitJoined(parts: seq<Text>, sep: QChar)
    requires parts != [] && Apart(parts, sep)
    ensures Split(Joined(parts, sep), sep) == parts
  {
    if |parts| == 1 {
      SplitWhole(parts[0], sep);
    } else {
      SplitJoined(parts[1..], sep);
      SplitFirst(parts[0], sep, Joined(parts[1..], sep));
    }
  }

  /** Splitting undoes terminating, but for the empty text after the last separator. */
  lemma {:induction false} SplitTerminated(parts: seq<Text>, sep: QChar)
    requires Apart(parts, sep)
    ensures Split(Terminated(parts, sep), sep) == parts + [[]]
  {
    if parts != [] {
      SplitTerminated(parts[1..], sep);
      SplitFirst(parts[0], sep, Terminated(parts[1..], sep));
      assert [parts[0]] + (parts[1..] + [[]]) == parts + [[]];
    }
  }

  lemma {:induction false} NonEmptyKeeps(parts: seq<Text>)
    requires forall i :: 0 <= i < |parts| ==> parts[i] != []
    ensures NonEmpty(parts + [[]]) == parts
  {
    if parts == [] {
      assert (parts + [[]])[1..] == [];
    } else {
      assert (parts + [[]])[1..] == parts[1..] + [[]];
      NonEmptyKeeps(parts[1..]);
    }
  }

  lemma {:induction false} TerminatedConcat(a: seq<Text>, b: seq<Text>, sep: QChar)
    ensures Terminated(a + b, sep) == Terminated(a, sep) + Terminated(b, sep)
  {
    if a == [] {
      assert a + b == b;
    } else {
      assert (a + b)[1..] == a[1..] + b;
      TerminatedConcat(a[1..], b, sep);
    }
  }

  lemma TerminatedSnoc(parts: seq<Text>, part: Text, sep: QChar)
    ensures Terminated(parts + [part], sep) == Terminated(parts, sep) + part + [sep]
  {
    TerminatedConcat(parts, [part], sep);
    assert [part][1..] == [] && Terminated([part], sep) == part + [sep];
  }

  lemma {:induction false} TerminatedJoined(parts: seq<Text>, sep: QChar)
    requires parts != []
    ensures Terminated(parts, sep) == Joined(parts, sep) + [sep]
  {
    if |parts| > 1 {
      TerminatedJoined(parts[1..], sep);
    } else {
      assert parts[1..] == [];
    }
  }
}
