/** The delta format: one token for each diff, with the text of insertions and the length
    of everything else; reading one back takes the source text. */
module DeltaText {
  import opened Texts
  import opened Diffs
  import opened MergeCleanup
  import opened Options
  import opened Numerals
  import opened TextLists
  import opened PercentCoding

  const EQUALS: QChar := 61

  function Token(codec: Codec, d: Diff): Text {
    match d.operation
    case INSERT => [PLUS] + codec.encode(d.text)
    case DELETE => [MINUS] + Number(|d.text|)
    case EQUAL => [EQUALS] + Number(|d.text|)
  }

  /** A plus and the encoded text for an insertion; a minus for a deletion or an equals sign
      for an equality, and the length. */
  predicate TokenForm(codec: Codec, token: Text, d: Diff) {
    token != [] && match d.operation
                   case INSERT => token[0] == 43 && token[1..] == codec.encode(d.text)
                   case DELETE => token[0] == 45 && IsNumeral(token[1..], |d.text|)
                   case EQUAL => token[0] == 61 && IsNumeral(token[1..], |d.text|)
  }

  /** Every token has the published format. */
  lemma TokenFormed(codec: Codec, d: Diff)
    ensures TokenForm(codec, Token(codec, d), d)
  {
    NumberIsNumeral(|d.text|);
    hide Number, IsNumeral;
  }

  function Tokens(codec: Codec, ds: seq<Diff>): (r: seq<Text>)
    ensures |r| == |ds| && forall i :: 0 <= i < |ds| ==> r[i] == Token(codec, ds[i])
  {
    if ds == [] then [] else [Token(codec, ds[0])] + Tokens(codec, ds[1..])
  }

  lemma TokensFormed(codec: Codec, ds: seq<Diff>)
    ensures forall i :: 0 <= i < |ds| ==> TokenForm(codec, Tokens(codec, ds)[i], ds[i])
  {
    hide TokenForm, Token;
    forall i | 0 <= i < |ds| ensures TokenForm(codec, Tokens(codec, ds)[i], ds[i]) {
      TokenFormed(codec, ds[i]);
    }
  }

  /** Writes the tokens with a tab after each, and takes the last tab off. */
  method ToDelta(codec: Codec, ds: seq<Diff>) returns (text: Text)
    ensures text == Joined(Tokens(codec, ds), TAB)
    ensures forall i :: 0 <= i < |ds| ==> TokenForm(codec, Tokens(codec, ds)[i], ds[i])
  {
    TokensFormed(codec, ds);
    hide TokenForm;
    hide Token, Joined;
    text := [];
    for i := 0 to |ds|
      invariant text == Terminated(Tokens(codec, ds[..i]), TAB)
    {
      assert Tokens(codec, ds[..i + 1]) == Tokens(codec, ds[..i]) + [Token(codec, ds[i])];
      TerminatedSnoc(Tokens(codec, ds[..i]), Token(codec, ds[i]), TAB);
      text := text + Token(codec, ds[i]) + [TAB];
    }
    assert ds[..|ds|] == ds;
    StripLast(Tokens(codec, ds));
    if text != [] {
      text := Left(text, |text| - 1);
    }
  }

  lemma StripLast(tokens: seq<Text>)
    ensures var text := Terminated(tokens, TAB);
            Joined(tokens, TAB) == if text != [] then Left(text, |text| - 1) else text
  {
    if tokens != [] { TerminatedJoined(tokens, TAB); }
  }

  // ----- reading -----

  function Prepended(ds: seq<Diff>, r: Result<seq<Diff>>): Result<seq<Diff>> {
    match r
    case Ok(es) => Ok(ds + es)
    case Throws => Throws
  }

  /** The diffs the tokens stand for, from `pointer` on in the source text. */
  function Parsed(codec: Codec, text1: Text, tokens: seq<Text>, pointer: nat): Result<seq<Diff>>
    decreases |tokens|
  {
    if tokens == [] then
      if pointer == |text1| then Ok([]) else Throws
    else if tokens[0] == [] then Parsed(codec, text1, tokens[1..], pointer)
    else
      var op, param := tokens[0][0], tokens[0][1..];
      var n := ToInt(param);
      if op == PLUS then
        Prepended([Diff(INSERT, codec.decode(param))], Parsed(codec, text1, tokens[1..], pointer))
      else if (op == MINUS || op == EQUALS) && n >= 0 then
        Prepended([Diff(if op == EQUALS then EQUAL else DELETE, Mid(text1, pointer, n))],
                  Parsed(codec, text1, tokens[1..], pointer + n))
      else Throws
  }

  /** Reads a delta against the source text it was made from; a token with an unknown
      operation or a negative length, or a total length that is not that of the source,
      is an error. */
  method FromDelta(codec: Codec, text1: Text, delta: Text) returns (r: Result<seq<Diff>>)
    ensures r == Parsed(codec, text1, Split(delta, TAB), 0)
    ensures r.Ok? ==> Text1(r.value) == text1
    ensures var tokens := Split(delta, TAB);
            r.Ok? <==> (forall i :: 0 <= i < |tokens| ==> Known(tokens[i])) && Covered(tokens) == |text1|
    ensures forall ds :: Denotes(codec, text1, Split(delta, TAB), ds) ==> r == Ok(ds)
  {
    AllRead(codec, text1, Split(delta, TAB));
    hide ToInt, Text1, Mid, Known, Covered, Denotes;
    var diffs: seq<Diff>, pointer: nat := [], 0;
    var tokens := Split(delta, TAB);
    AcceptedSource(codec, text1, tokens, 0);
    AcceptedIff(codec, text1, tokens, 0);
    PrependedNothing(Parsed(codec, text1, tokens, 0));
    assert tokens[0..] == tokens && text1[0..] == text1;
    for i := 0 to |tokens|
      invariant Parsed(codec, text1, tokens, 0) == Prepended(diffs, Parsed(codec, text1, tokens[i..], pointer))
    {
      var token := tokens[i];
      assert tokens[i..][0] == token && tokens[i..][1..] == tokens[i + 1..];
      if token == [] {
        continue;
      }
      var param := MidFrom(token, 1);
      ghost var before := diffs;
      ghost var rest := Parsed(codec, text1, tokens[i..], pointer);
      if token[0] == PLUS {
        diffs := diffs + [Diff(INSERT, codec.decode(param))];
      } else if token[0] == MINUS || token[0] == EQUALS {
        var n := ToInt(param);
        if n < 0 {
          return Throws;
        }
        var text := Mid(text1, pointer, n);
        pointer := pointer + n;
        if token[0] == EQUALS {
          diffs := diffs + [Diff(EQUAL, text)];
        } else {
          diffs := diffs + [Diff(DELETE, text)];
        }
      } else {
        return Throws;
      }
      PrependedTwice(before, [diffs[|before|]], Parsed(codec, text1, tokens[i + 1..], pointer));
    }
    assert tokens[|tokens|..] == [] && diffs + [] == diffs;
    if pointer != |text1| {
      return Throws;
    }
    return Ok(diffs);
  }

  lemma AllRead(codec: Codec, text1: Text, tokens: seq<Text>)
    ensures forall ds :: Denotes(codec, text1, tokens, ds) ==> Parsed(codec, text1, tokens, 0) == Ok(ds)
  {
    forall ds | Denotes(codec, text1, tokens, ds) ensures Parsed(codec, text1, tokens, 0) == Ok(ds) {
      hide Stands, Parsed, Text1;
      TokensRead(codec, [], tokens, ds);
      assert [] + Text1(ds) == Text1(ds);
    }
  }

  lemma PrependedNothing(r: Result<seq<Diff>>)
    ensures Prepended([], r) == r
  {
    if r.Ok? { assert [] + r.value == r.value; }
  }

  lemma PrependedTwice(ds: seq<Diff>, es: seq<Diff>, r: Result<seq<Diff>>)
    ensures Prepended(ds, Prepended(es, r)) == Prepended(ds + es, r)
  {
    if r.Ok? { assert ds + (es + r.value) == ds + es + r.value; }
  }

  /** Whatever is accepted covers the source text exactly. */
  lemma {:induction false} AcceptedSource(codec: Codec, text1: Text, tokens: seq<Text>, pointer: nat)
    ensures var r := Parsed(codec, text1, tokens, pointer);
            r.Ok? ==> pointer <= |text1| && Text1(r.value) == text1[pointer..]
    decreases |tokens|
  {
    hide ToInt;
    if tokens != [] {
      var next := if tokens[0] != [] && tokens[0][0] != PLUS then pointer + Max(0, ToInt(tokens[0][1..])) else pointer;
      AcceptedSource(codec, text1, tokens[1..], next);
      var r, rest := Parsed(codec, text1, tokens, pointer), Parsed(codec, text1, tokens[1..], next);
      if r.Ok? && tokens[0] != [] {
        var d := r.value[0];
        assert r.value == [d] + rest.value;
        WithFirst(d, rest.value);
        if d.operation != INSERT { assert text1[pointer..next] + text1[next..] == text1[pointer..]; }
      }
    }
  }

  /** A token the reader knows. */
  predicate Known(token: Text) {
    token == [] || token[0] == PLUS || ((token[0] == MINUS || token[0] == EQUALS) && ToInt(token[1..]) >= 0)
  }

  /** The source units a list of known tokens covers. */
  function Covered(tokens: seq<Text>): int {
    if tokens == [] then 0
    else (if tokens[0] == [] || tokens[0][0] == PLUS then 0 else ToInt(tokens[0][1..])) + Covered(tokens[1..])
  }

  /** A delta is accepted exactly when every token is known and together they cover as much
      as the source text has. */
  lemma {:induction false} AcceptedIff(codec: Codec, text1: Text, tokens: seq<Text>, pointer: nat)
    ensures Parsed(codec, text1, tokens, pointer).Ok? <==>
              (forall i :: 0 <= i < |tokens| ==> Known(tokens[i])) && pointer + Covered(tokens) == |text1|
    decreases |tokens|
  {
    hide ToInt, Mid;
    if tokens != [] {
      var rest := tokens[1..];
      assert forall i :: 0 <= i < |rest| ==> tokens[i + 1] == rest[i];
      assert (forall i :: 0 <= i < |tokens| ==> Known(tokens[i])) <==>
               Known(tokens[0]) && forall i :: 0 <= i < |rest| ==> Known(rest[i]) by {
        if Known(tokens[0]) && forall i :: 0 <= i < |rest| ==> Known(rest[i]) {
          assert forall i :: 0 < i < |tokens| ==> tokens[i] == rest[i - 1];
        }
      }
      var next := if tokens[0] != [] && tokens[0][0] != PLUS then pointer + Max(0, ToInt(tokens[0][1..])) else pointer;
      AcceptedIff(codec, text1, rest, next);
    }
  }

  // ----- reading what was written -----

  /** The codec carries every inserted text, and every length fits a number. */
  ghost predicate Writable(codec: Codec, ds: seq<Diff>) {
    forall i :: 0 <= i < |ds| ==>
      if ds[i].operation == INSERT then Carries(codec, ds[i].text) else |ds[i].text| <= INT_MAX
  }

  /** The token stands for the diff: its sign for the operation, and the rest for the text or
      its length. */
  predicate Stands(codec: Codec, token: Text, d: Diff) {
    && token != [] && (token[0] == 43 <==> d.operation == INSERT) && (token[0] == 45 <==> d.operation == DELETE)
    && (token[0] == 61 <==> d.operation == EQUAL)
    && if d.operation == INSERT then codec.decode(token[1..]) == d.text
       else |d.text| <= INT_MAX && IsNumeral(token[1..], |d.text|)
  }

  /** The tokens stand for diffs of the text, in the published format. */
  ghost predicate Denotes(codec: Codec, text1: Text, tokens: seq<Text>, ds: seq<Diff>) {
    Text1(ds) == text1 && |tokens| == |ds| && forall i :: 0 <= i < |ds| ==> Stands(codec, tokens[i], ds[i])
  }

  /** Tokens are read as the diffs they stand for, whoever wrote them. */
  lemma {:induction false} TokensRead(codec: Codec, a: Text, tokens: seq<Text>, ds: seq<Diff>)
    requires |tokens| == |ds| && forall i :: 0 <= i < |ds| ==> Stands(codec, tokens[i], ds[i])
    ensures Parsed(codec, a + Text1(ds), tokens, |a|) == Ok(ds)
    decreases |ds|
  {
    hide ToInt, IsNumeral;
    if ds == [] {
      assert a + Text1([]) == a;
    } else {
      var d, rest := ds[0], ds[1..];
      var x := if d.operation == INSERT then [] else d.text;
      assert a + Text1(ds) == (a + x) + Text1(rest);
      TokensRead(codec, a + x, tokens[1..], rest);
      if d.operation != INSERT { NumeralReads(tokens[0][1..], |d.text|); }
      var text1 := a + Text1(ds);
      assert d.operation != INSERT ==> Mid(text1, |a|, |d.text|) == d.text;
      assert [d] + rest == ds;
    }
  }

  lemma NumberPlain(n: nat)
    ensures TAB !in Number(n)
  {
    var s := Number(n);
    assert forall i :: 0 <= i < |s| ==> IsDigit(s[i]);
  }

  /** Reading a delta against the source text gives back the diffs it was written from. */
  lemma DeltaRoundTrip(codec: Codec, ds: seq<Diff>)
    requires Writable(codec, ds)
    ensures Parsed(codec, Text1(ds), Split(Joined(Tokens(codec, ds), TAB), TAB), 0) == Ok(ds)
  {
    var tokens := Tokens(codec, ds);
    assert [] + Text1(ds) == Text1(ds);
    forall i | 0 <= i < |ds| ensures Stands(codec, tokens[i], ds[i]) { TokenFormed(codec, ds[i]); }
    TokensRead(codec, [], tokens, ds);
    if ds == [] {
      assert Split([], TAB)[1..] == [];
    } else {
      forall i | 0 <= i < |tokens| ensures TAB !in tokens[i] {
        NumberPlain(|ds[i].text|);
      }
      SplitJoined(tokens, TAB);
    }
  }
}
