/** What is left of texts whose lines were not all given back: they are short, and no text put
    before or after makes up for it. */
module LineLoss {
  import opened Texts
  import opened Diffs
  import opened LineCoding

  ghost predicate ShortBefore(d: Text, t: Text, k: int) {
    && 0 <= k <= |d| && k <= |t| && d[|d| - k..] == t[|t| - k..]
    && Below(d[..|d| - k], t[..|t| - k])
  }

  /** But for a common end, `d` has fewer newlines than `t`, or as many and a shorter last
      line. */
  ghost predicate ShortOf(d: Text, t: Text) {
    exists k :: ShortBefore(d, t, k)
  }

  /** Given back as it was, or short. */
  ghost predicate GivenBack(d: Text, t: Text) {
    d == t || ShortOf(d, t)
  }

  lemma ShortDiffers(d: Text, t: Text)
    requires ShortOf(d, t)
    ensures d != t
  {
  }

  lemma BelowIsShort(d: Text, t: Text)
    requires Below(d, t)
    ensures ShortOf(d, t)
  {
    assert d[..|d| - 0] == d && t[..|t| - 0] == t;
    assert ShortBefore(d, t, 0);
  }

  lemma NotLonger(d: Text, t: Text)
    requires GivenBack(d, t)
    ensures !Below(t, d)
  {
    if d != t {
      var k :| ShortBefore(d, t, k);
      var d', t', s := d[..|d| - k], t[..|t| - k], d[|d| - k..];
      assert d == d' + s && t == t' + s;
      NewlinesConcat(d', s);
      NewlinesConcat(t', s);
      LastConcat(d', s);
      LastConcat(t', s);
    }
  }

  lemma ShortAfter(d: Text, t: Text, e: Text, u: Text)
    requires GivenBack(d, t) && ShortOf(e, u)
    ensures ShortOf(d + e, t + u)
  {
    hide Below;
    var k :| ShortBefore(e, u, k);
    var e', u', s := e[..|e| - k], u[..|u| - k], e[|e| - k..];
    NotLonger(d, t);
    BelowAfter(d, t, e', u');
    assert (d + e)[..|d + e| - k] == d + e' && (t + u)[..|t + u| - k] == t + u';
    assert (d + e)[|d + e| - k..] == s == (t + u)[|t + u| - k..];
    assert ShortBefore(d + e, t + u, k);
  }

  lemma StaysShort(d: Text, t: Text, s: Text)
    requires ShortOf(d, t)
    ensures ShortOf(d + s, t + s)
  {
    hide Below;
    var k :| ShortBefore(d, t, k);
    var n := k + |s|;
    assert (d + s)[..|d + s| - n] == d[..|d| - k] && (t + s)[..|t + s| - n] == t[..|t| - k];
    assert (d + s)[|d + s| - n..] == d[|d| - k..] + s && (t + s)[|t + s| - n..] == t[|t| - k..] + s;
    assert ShortBefore(d + s, t + s, n);
  }

  /** Two texts put together are as they were exactly when both are. */
  lemma GivenBackConcat(d: Text, t: Text, e: Text, u: Text)
    requires GivenBack(d, t) && GivenBack(e, u)
    ensures GivenBack(d + e, t + u)
    ensures d + e == t + u <==> d == t && e == u
  {
    hide ShortOf;
    if e != u {
      ShortAfter(d, t, e, u);
      ShortDiffers(d + e, t + u);
    } else if d != t {
      StaysShort(d, t, e);
      ShortDiffers(d + e, t + e);
    }
  }

  /** The source text is given back or short; if it is given back, so is the target text, or
      that is short. */
  ghost predicate Accounts(ds: seq<Diff>, text1: Text, text2: Text) {
    GivenBack(Text1(ds), text1) && (Text1(ds) == text1 ==> GivenBack(Text2(ds), text2))
  }

  lemma TransformsAccounts(ds: seq<Diff>, text1: Text, text2: Text)
    requires Transforms(ds, text1, text2)
    ensures Accounts(ds, text1, text2)
  {
  }

  /** Nothing that goes wrong in one part is put right by another. */
  lemma AccountsConcat(ds: seq<Diff>, a1: Text, a2: Text, es: seq<Diff>, b1: Text, b2: Text)
    requires Accounts(ds, a1, a2) && Accounts(es, b1, b2)
    ensures Accounts(ds + es, a1 + b1, a2 + b2)
    ensures Transforms(ds + es, a1 + b1, a2 + b2) <==> Transforms(ds, a1, a2) && Transforms(es, b1, b2)
  {
    hide GivenBack, Text1, Text2;
    Concat(ds, es);
    GivenBackConcat(Text1(ds), a1, Text1(es), b1);
    if Text1(ds) == a1 && Text1(es) == b1 { GivenBackConcat(Text2(ds), a2, Text2(es), b2); }
  }

  /** Decoding loses lines of the first text, or none of it and perhaps some of the second. */
  lemma DecodingAccounts(text1: Text, text2: Text, chars1: Text, chars2: Text, lineArray: seq<Text>,
                         hash: map<Text, nat>)
    requires Encoding(text1, text2, chars1, chars2, lineArray, hash)
    ensures GivenBack(Decode(chars1, lineArray), text1)
    ensures Decode(chars1, lineArray) == text1 ==> GivenBack(Decode(chars2, lineArray), text2)
  {
    hide Lines, Coded, Decode, ShortOf;
    assert Numbers(lineArray, hash);
    if |lineArray| <= CODES {
      DecodesWithinRange(text1, chars1, lineArray, hash);
      DecodesWithinRange(text2, chars2, lineArray, hash);
    } else {
      ArrayHoldsLines(text1, text2, lineArray, hash);
      if Met(Lines(text1, 0), hash, CODES) {
        DecodesOutOfRange(text1, chars1, lineArray, hash);
        BelowIsShort(Decode(chars1, lineArray), text1);
        ShortDiffers(Decode(chars1, lineArray), text1);
      } else {
        assert forall l :: l in Lines(text1, 0) && l in hash ==> hash[l] < CODES;
        DecodesWithinRange(text1, chars1, lineArray, hash);
        DecodesOutOfRange(text2, chars2, lineArray, hash);
        BelowIsShort(Decode(chars2, lineArray), text2);
      }
    }
  }
}
