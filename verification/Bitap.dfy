/** Bit-parallel fuzzy search. Bit b of a row cell stands for the last b + 1 units of
    the pattern. */
module Bitap {
  import opened Texts
  import opened Options
  import opened DiffMetrics
  import opened EngineSettings

  // ----- 32-bit words -----

  const WORD_BITS := 32

  /** A 32-bit word as the set of its one bits. */
  type Word = w: set<int> | forall b :: b in w ==> 0 <= b < WORD_BITS witness {}

  /** 1 << n */
  function Bit(n: nat): Word {
    if n < WORD_BITS then {n} else {}
  }

  /** (1 << n) - 1 */
  function LowBits(n: nat): (w: Word)
    ensures forall b :: b in w <==> 0 <= b < n && b < WORD_BITS
  {
    if n == 0 then {} else LowBits(n - 1) + Bit(n - 1)
  }

  /** (w << 1) | 1 */
  function ShiftIn(w: Word): Word {
    {0} + set b | b in w && b + 1 < WORD_BITS :: b + 1
  }

  lemma ShiftInEither(u: Word, v: Word, b: int)
    ensures b in ShiftIn(u + v) ==> b in ShiftIn(u) || b in ShiftIn(v)
  {
  }

  lemma ShiftInBit(w: Word, b: int)
    requires b in ShiftIn(w)
    ensures b == 0 || b - 1 in w
  {
  }

  // ----- matches with errors -----

  /** `p` matches some stretch of `t` that starts at `s` with at most `d` edits. */
  ghost predicate Near(p: Text, t: Text, s: int, d: int) {
    0 <= s <= |t| && exists e :: s <= e <= |t| && Levenshtein(p, t[s..e]) <= d
  }

  lemma NearNothing(p: Text, t: Text, s: int, d: int)
    requires 0 <= s <= |t| && |p| <= d
    ensures Near(p, t, s, d)
  {
    assert t[s..s] == [] && Levenshtein(p, t[s..s]) == |p|;
  }

  lemma NearMore(p: Text, t: Text, s: int, d: int)
    requires Near(p, t, s, d)
    ensures Near(p, t, s, d + 1)
  {
  }

  /** One more pattern unit in front, aligned on a unit of the text. */
  lemma NearAligned(p: Text, t: Text, s: int, d: int)
    requires p != [] && 0 <= s < |t| && Near(p[1..], t, s + 1, d)
    ensures Near(p, t, s, d + 1)
    ensures p[0] == t[s] ==> Near(p, t, s, d)
  {
    var e :| s + 1 <= e <= |t| && Levenshtein(p[1..], t[s + 1..e]) <= d;
    assert t[s..e][1..] == t[s + 1..e];
    assert Levenshtein(p, t[s..e]) <= Levenshtein(p[1..], t[s + 1..e]) + if p[0] == t[s] then 0 else 1;
  }

  /** One more pattern unit in front that the text lacks. */
  lemma NearDeleted(p: Text, t: Text, s: int, d: int)
    requires p != [] && Near(p[1..], t, s, d)
    ensures Near(p, t, s, d + 1)
  {
    var e :| s <= e <= |t| && Levenshtein(p[1..], t[s..e]) <= d;
    assert Levenshtein(p, t[s..e]) <= 1 + Levenshtein(p[1..], t[s..e]);
  }

  /** One more text unit in front that the pattern lacks. */
  lemma NearInserted(p: Text, t: Text, s: int, d: int)
    requires 0 <= s < |t| && Near(p, t, s + 1, d)
    ensures Near(p, t, s, d + 1)
  {
    var e :| s + 1 <= e <= |t| && Levenshtein(p, t[s + 1..e]) <= d;
    assert t[s..e][1..] == t[s + 1..e];
    assert Levenshtein(p, t[s..e]) <= 1 + Levenshtein(p, t[s + 1..e]);
  }

  // ----- rows -----

  /** Every bit set in a cell of row `d` at `j` is a match of that much of the pattern,
      starting at j - 1 or at the end of the text, with at most `d` edits. */
  ghost predicate CellOk(w: Word, pattern: Text, text: Text, j: int, d: int) {
    forall b :: b in w && b < |pattern| ==> BitOk(pattern, text, j, d, b)
  }

  ghost predicate BitOk(pattern: Text, text: Text, j: int, d: int, b: int)
    requires 0 <= b < |pattern|
  {
    Near(pattern[|pattern| - 1 - b..], text, Min(j - 1, |text|), d)
  }

  /** Bit b of a unit's mask is set exactly when the pattern has that unit there. */
  ghost predicate AlphabetOf(s: map<QChar, Word>, pattern: Text) {
    && (forall c :: c in s <==> c in pattern)
    && (forall c, b :: c in s && 0 <= b < |pattern| ==> (b in s[c] <==> pattern[|pattern| - 1 - b] == c))
  }

  /** The mask of the text unit before `j`, or nothing beyond the text. */
  function CharMatch(s: map<QChar, Word>, text: Text, j: int): Word
    requires j >= 1
  {
    if |text| <= j - 1 then {} else if text[j - 1] in s then s[text[j - 1]] else {}
  }

  function FirstRow(next: Word, charMatch: Word): Word {
    ShiftIn(next) * charMatch
  }

  function LaterRow(next: Word, charMatch: Word, lastNext: Word, lastHere: Word): Word {
    ShiftIn(next) * charMatch + ShiftIn(lastNext + lastHere) + lastNext
  }

  lemma MatchedUnit(pattern: Text, text: Text, s: map<QChar, Word>, j: int, b: int)
    requires AlphabetOf(s, pattern) && j >= 1 && 0 <= b < |pattern| && b in CharMatch(s, text, j)
    ensures j - 1 < |text| && pattern[|pattern| - 1 - b] == text[j - 1]
  {
  }

  lemma BitAligned(next: Word, pattern: Text, text: Text, s: map<QChar, Word>, j: int, d: int, b: int)
    requires AlphabetOf(s, pattern) && j >= 1 && d >= 0 && 0 <= b < |pattern| && CellOk(next, pattern, text, j + 1, d)
    requires b in ShiftIn(next) && b in CharMatch(s, text, j)
    ensures BitOk(pattern, text, j, d, b)
  {
    hide Near, AlphabetOf, CharMatch, ShiftIn;
    var p := pattern[|pattern| - 1 - b..];
    MatchedUnit(pattern, text, s, j, b);
    ShiftInBit(next, b);
    assert p[1..] == pattern[|pattern| - b..];
    if b == 0 {
      NearNothing(p[1..], text, j, d);
    } else {
      assert BitOk(pattern, text, j + 1, d, b - 1);
    }
    NearAligned(p, text, j - 1, d);
  }

  lemma BitShifted(w: Word, pattern: Text, text: Text, j: int, j': int, d: int, b: int)
    requires j >= 1 && (j' == j || j' == j + 1) && d >= 1 && 0 <= b < |pattern| && CellOk(w, pattern, text, j', d - 1)
    requires b in ShiftIn(w)
    ensures BitOk(pattern, text, j, d, b)
  {
    hide Near, ShiftIn;
    ShiftInBit(w, b);
    var p := pattern[|pattern| - 1 - b..];
    assert p[1..] == pattern[|pattern| - b..];
    if b == 0 {
      NearNothing(p, text, Min(j - 1, |text|), d);
    } else {
      assert BitOk(pattern, text, j', d - 1, b - 1);
      if j' == j + 1 && j - 1 < |text| {
        NearAligned(p, text, j - 1, d - 1);
      } else {
        NearDeleted(p, text, Min(j - 1, |text|), d - 1);
      }
    }
  }

  lemma BitSkipped(w: Word, pattern: Text, text: Text, j: int, d: int, b: int)
    requires j >= 1 && d >= 1 && 0 <= b < |pattern| && CellOk(w, pattern, text, j + 1, d - 1) && b in w
    ensures BitOk(pattern, text, j, d, b)
  {
    var p := pattern[|pattern| - 1 - b..];
    assert BitOk(pattern, text, j + 1, d - 1, b);
    if j - 1 < |text| {
      NearInserted(p, text, j - 1, d - 1);
    } else {
      NearMore(p, text, |text|, d - 1);
    }
  }

  /** First row: exact matches only. */
  lemma FirstRowCell(next: Word, pattern: Text, text: Text, s: map<QChar, Word>, j: int)
    requires AlphabetOf(s, pattern) && j >= 1 && CellOk(next, pattern, text, j + 1, 0)
    ensures CellOk(FirstRow(next, CharMatch(s, text, j)), pattern, text, j, 0)
  {
    hide ShiftIn, CharMatch, BitOk;
    forall b | b in FirstRow(next, CharMatch(s, text, j)) && b < |pattern| ensures BitOk(pattern, text, j, 0, b) {
      BitAligned(next, pattern, text, s, j, 0, b);
    }
  }

  /** Later rows: one more substitution, deletion or insertion than the row before. */
  lemma LaterRowCell(next: Word, lastNext: Word, lastHere: Word, pattern: Text, text: Text, s: map<QChar, Word>, j: int,
                     d: int)
    requires AlphabetOf(s, pattern) && j >= 1 && d >= 1 && CellOk(next, pattern, text, j + 1, d)
    requires CellOk(lastNext, pattern, text, j + 1, d - 1) && CellOk(lastHere, pattern, text, j, d - 1)
    ensures CellOk(LaterRow(next, CharMatch(s, text, j), lastNext, lastHere), pattern, text, j, d)
  {
    hide BitOk, AlphabetOf, CellOk, ShiftIn, CharMatch;
    forall b | b in LaterRow(next, CharMatch(s, text, j), lastNext, lastHere) && b < |pattern|
      ensures BitOk(pattern, text, j, d, b)
    {
      ShiftInEither(lastNext, lastHere, b);
      if b in lastNext {
        BitSkipped(lastNext, pattern, text, j, d, b);
      } else if b in ShiftIn(lastNext) {
        BitShifted(lastNext, pattern, text, j, j + 1, d, b);
      } else if b in ShiftIn(lastHere) {
        BitShifted(lastHere, pattern, text, j, j, d, b);
      } else {
        BitAligned(next, pattern, text, s, j, d, b);
      }
    }
    CellOkIf(LaterRow(next, CharMatch(s, text, j), lastNext, lastHere), pattern, text, j, d);
  }

  lemma CellOkIf(w: Word, pattern: Text, text: Text, j: int, d: int)
    requires forall b :: b in w && b < |pattern| ==> BitOk(pattern, text, j, d, b)
    ensures CellOk(w, pattern, text, j, d)
  {
  }

  /** The cell beyond the row: that many pattern units can be missing altogether. */
  lemma BeyondRow(pattern: Text, text: Text, j: int, d: nat)
    requires j >= 1
    ensures CellOk(LowBits(d), pattern, text, j, d)
  {
    forall b | b in LowBits(d) && b < |pattern| ensures BitOk(pattern, text, j, d, b) {
      NearNothing(pattern[|pattern| - 1 - b..], text, Min(j - 1, |text|), d);
    }
  }

  /** A full match inside a row starts inside the text. */
  lemma FullMatch(w: Word, pattern: Text, text: Text, j: int, d: int)
    requires CellOk(w, pattern, text, j, d) && 1 <= j && 0 <= d < |pattern| && |pattern| - 1 in w
    ensures j - 1 < |text| && Near(pattern, text, j - 1, d)
  {
    assert BitOk(pattern, text, j, d, |pattern| - 1);
    assert pattern[0..] == pattern;
  }

  /** The units of the pattern that bit `b` stands for are in the text from j - 1 on, and
      end by `finish`. */
  ghost predicate ExactBit(pattern: Text, text: Text, j: int, finish: int, b: int)
    requires 0 <= b < |pattern|
  {
    j + b <= finish && OccursAt(text, pattern[|pattern| - 1 - b..], j - 1)
  }

  /** Every exact match that ends by `finish` has its bit set, and no other has. */
  ghost predicate CellFull(w: Word, pattern: Text, text: Text, j: int, finish: int) {
    && (forall b :: 0 <= b < |pattern| && b < WORD_BITS && ExactBit(pattern, text, j, finish, b) ==> b in w)
    && forall b :: b in w && b < |pattern| ==> ExactBit(pattern, text, j, finish, b)
  }

  /** First row: no exact match is missed. */
  lemma FirstRowFull(next: Word, pattern: Text, text: Text, s: map<QChar, Word>, j: int, finish: int)
    requires AlphabetOf(s, pattern) && 1 <= j <= finish && CellFull(next, pattern, text, j + 1, finish)
    ensures CellFull(FirstRow(next, CharMatch(s, text, j)), pattern, text, j, finish)
  {
    forall b | 0 <= b < |pattern| && b < WORD_BITS && ExactBit(pattern, text, j, finish, b)
      ensures b in FirstRow(next, CharMatch(s, text, j))
    {
      FirstUnit(text, pattern[|pattern| - 1 - b..], j - 1);
      assert pattern[|pattern| - 1 - b] in pattern;
      if b > 0 {
        assert pattern[|pattern| - 1 - b..][1..] == pattern[|pattern| - 1 - (b - 1)..];
        assert ExactBit(pattern, text, j + 1, finish, b - 1);
      }
    }
    forall b | b in FirstRow(next, CharMatch(s, text, j)) && b < |pattern|
      ensures ExactBit(pattern, text, j, finish, b)
    {
      MatchedUnit(pattern, text, s, j, b);
      var p := pattern[|pattern| - 1 - b..];
      if b > 0 {
        assert ExactBit(pattern, text, j + 1, finish, b - 1);
        assert p[1..] == pattern[|pattern| - 1 - (b - 1)..];
        FirstUnitBack(text, p, j - 1);
      }
    }
  }

  lemma FirstUnitBack(text: Text, p: Text, i: int)
    requires p != [] && 0 <= i < |text| && text[i] == p[0] && OccursAt(text, p[1..], i + 1)
    ensures OccursAt(text, p, i)
  {
    assert text[i..i + |p|] == [text[i]] + text[i + 1..i + 1 + |p[1..]|];
    assert p == [p[0]] + p[1..];
  }

  lemma FirstUnit(text: Text, p: Text, i: int)
    requires OccursAt(text, p, i) && p != []
    ensures i < |text| && text[i] == p[0] && OccursAt(text, p[1..], i + 1)
  {
    assert text[i..i + |p|][0] == text[i] && text[i + 1..i + |p|] == text[i..i + |p|][1..];
  }

  /** A match of the whole pattern sets its last bit. */
  lemma FullSeen(w: Word, pattern: Text, text: Text, j: int, finish: int)
    requires 0 < |pattern| <= WORD_BITS && CellFull(w, pattern, text, j, finish)
    ensures OccursAt(text, pattern, j - 1) && j - 1 + |pattern| <= finish ==> |pattern| - 1 in w
    ensures |pattern| - 1 in w ==> OccursAt(text, pattern, j - 1) && j - 1 + |pattern| <= finish
  {
    assert pattern[0..] == pattern;
    assert OccursAt(text, pattern, j - 1) && j - 1 + |pattern| <= finish ==>
        ExactBit(pattern, text, j, finish, |pattern| - 1);
  }

  // ----- rows that miss no match -----

  /** `p` matches a stretch of the text from `s` on that ends by `finish`, with at most `d`
      edits. */
  ghost predicate NearBy(p: Text, text: Text, s: nat, finish: int, d: int) {
    exists e :: s <= e <= finish && e <= |text| && Levenshtein(p, text[s..e]) <= d
  }

  /** What bit `b` stands for matches a stretch of the text from j - 1 on that ends by `finish`. */
  ghost predicate BitNear(pattern: Text, text: Text, j: int, finish: int, d: int, b: int)
    requires 0 <= b < |pattern| && 1 <= j
  {
    NearBy(pattern[|pattern| - 1 - b..], text, j - 1, finish, d)
  }

  /** Every such match has its bit set. */
  ghost predicate CellWhole(w: Word, pattern: Text, text: Text, j: int, finish: int, d: int)
    requires 1 <= j
  {
    forall b :: 0 <= b < |pattern| && b < WORD_BITS && BitNear(pattern, text, j, finish, d, b) ==> b in w
  }

  /** No cell from `low` up misses a match. */
  ghost predicate RowWhole(row: seq<Word>, pattern: Text, text: Text, low: int, finish: int, d: int) {
    1 <= low && finish + 1 < |row|
    && forall j :: low <= j <= finish + 1 ==> CellWhole(row[j], pattern, text, j, finish, d)
  }

  lemma RowWholeNarrower(row: seq<Word>, pattern: Text, text: Text, low: int, finish: int, d: int, low': int,
                         finish': int)
    requires RowWhole(row, pattern, text, low, finish, d) && low <= low' && finish' <= finish
    ensures RowWhole(row, pattern, text, low', finish', d)
  {
    forall j | low' <= j <= finish' + 1 ensures CellWhole(row[j], pattern, text, j, finish', d) {
      forall b | 0 <= b < |pattern| && b < WORD_BITS && BitNear(pattern, text, j, finish', d, b) ensures b in row[j] {
        assert CellWhole(row[j], pattern, text, j, finish, d) && BitNear(pattern, text, j, finish, d, b);
      }
    }
  }

  /** First row: with no edit allowed only exact matches count. */
  lemma FirstWhole(w: Word, pattern: Text, text: Text, j: int, finish: int)
    requires 1 <= j && CellFull(w, pattern, text, j, finish)
    ensures CellWhole(w, pattern, text, j, finish, 0)
  {
    forall b | 0 <= b < |pattern| && b < WORD_BITS && BitNear(pattern, text, j, finish, 0, b) ensures b in w {
      var p := pattern[|pattern| - 1 - b..];
      var k := j - 1;
      var e :| k <= e <= finish && e <= |text| && Levenshtein(p, text[k..e]) <= 0;
      LevenshteinZero(p, text[k..e]);
      assert OccursAt(text, p, j - 1) && ExactBit(pattern, text, j, finish, b);
    }
  }

  /** The cell beyond the row: only whole pieces of the pattern can be missing there. */
  lemma BeyondWhole(pattern: Text, text: Text, finish: int, d: nat)
    requires finish >= 0
    ensures CellWhole(LowBits(d), pattern, text, finish + 1, finish, d)
  {
    forall b | 0 <= b < |pattern| && b < WORD_BITS && BitNear(pattern, text, finish + 1, finish, d, b)
      ensures b in LowBits(d)
    {
      var p := pattern[|pattern| - 1 - b..];
      var e :| finish <= e <= finish && e <= |text| && Levenshtein(p, text[finish..e]) <= d;
      assert text[finish..e] == [] && Levenshtein(p, []) == |p| == b + 1;
    }
  }

  /** One way or another the first edit of a match is seen: in the cell before in this row, or in
      the two cells of the row before. */
  lemma WholeBit(next: Word, lastNext: Word, lastHere: Word, pattern: Text, text: Text, s: map<QChar, Word>, j: int,
                 finish: int, d: int, b: int, e: int)
    requires AlphabetOf(s, pattern) && 1 <= j <= finish && d >= 1 && 0 <= b < |pattern| && b < WORD_BITS
    requires CellWhole(next, pattern, text, j + 1, finish, d)
    requires CellWhole(lastNext, pattern, text, j + 1, finish, d - 1)
    requires CellWhole(lastHere, pattern, text, j, finish, d - 1)
    requires j - 1 <= e <= finish && e <= |text|
    requires Levenshtein(pattern[|pattern| - 1 - b..], text[j - 1..e]) <= d
    ensures b in LaterRow(next, CharMatch(s, text, j), lastNext, lastHere)
  {
    hide AlphabetOf, CharMatch;
    if b > 0 {
      var p, t := pattern[|pattern| - 1 - b..], text[j - 1..e];
      assert p[1..] == pattern[|pattern| - 1 - (b - 1)..];
      if t == [] || 1 + Levenshtein(p[1..], t) <= d {
        assert BitNear(pattern, text, j, finish, d - 1, b - 1);
        assert b - 1 in lastNext + lastHere;
      } else {
        assert t[1..] == text[j..e] && t[0] == text[j - 1];
        if 1 + Levenshtein(p, t[1..]) <= d {
          assert BitNear(pattern, text, j + 1, finish, d - 1, b);
        } else if p[0] == t[0] {
          UnitMatched(pattern, text, s, j, b);
          assert BitNear(pattern, text, j + 1, finish, d, b - 1);
        } else {
          assert BitNear(pattern, text, j + 1, finish, d - 1, b - 1);
          assert b - 1 in lastNext + lastHere;
        }
      }
    }
  }

  lemma UnitMatched(pattern: Text, text: Text, s: map<QChar, Word>, j: int, b: int)
    requires AlphabetOf(s, pattern) && 1 <= j <= |text| && 0 <= b < |pattern|
    requires pattern[|pattern| - 1 - b] == text[j - 1]
    ensures b in CharMatch(s, text, j)
  {
    assert text[j - 1] in pattern;
  }

  /** Later rows miss no match with one more edit. */
  lemma LaterRowWhole(next: Word, lastNext: Word, lastHere: Word, pattern: Text, text: Text, s: map<QChar, Word>,
                      j: int, finish: int, d: int)
    requires AlphabetOf(s, pattern) && 1 <= j <= finish && d >= 1
    requires CellWhole(next, pattern, text, j + 1, finish, d)
    requires CellWhole(lastNext, pattern, text, j + 1, finish, d - 1)
    requires CellWhole(lastHere, pattern, text, j, finish, d - 1)
    ensures CellWhole(LaterRow(next, CharMatch(s, text, j), lastNext, lastHere), pattern, text, j, finish, d)
  {
    hide LaterRow, CharMatch, AlphabetOf;
    forall b | 0 <= b < |pattern| && b < WORD_BITS && BitNear(pattern, text, j, finish, d, b)
      ensures b in LaterRow(next, CharMatch(s, text, j), lastNext, lastHere)
    {
      hide CellWhole;
      var p, k := pattern[|pattern| - 1 - b..], j - 1;
      var e :| k <= e <= finish && e <= |text| && Levenshtein(p, text[k..e]) <= d;
      WholeBit(next, lastNext, lastHere, pattern, text, s, j, finish, d, b, e);
    }
  }

  // ----- rows that hold what the rows before them held -----

  /** Each bit of a cell has a shorter one beside it, or stands in the next cell as well. */
  ghost predicate CellChained(here: Word, next: Word) {
    forall b :: b in here ==> b == 0 || b - 1 in here || b - 1 in next || b in next
  }

  lemma FirstChained(next: Word, charMatch: Word)
    ensures CellChained(FirstRow(next, charMatch), next)
  {
  }

  /** A later row keeps every bit of the row before. */
  lemma LaterHolds(next: Word, charMatch: Word, lastNext: Word, lastHere: Word)
    requires CellChained(lastHere, lastNext) && lastNext <= next
    ensures lastHere <= LaterRow(next, charMatch, lastNext, lastHere)
    ensures CellChained(LaterRow(next, charMatch, lastNext, lastHere), next)
  {
    var here := LaterRow(next, charMatch, lastNext, lastHere);
    forall b | b in lastHere ensures b in here {
      if b - 1 in lastHere || b - 1 in lastNext { assert b - 1 in lastNext + lastHere; }
    }
    forall b | b in here ensures b == 0 || b - 1 in here || b - 1 in next || b in next {
      if b in ShiftIn(lastNext + lastHere) {
        ShiftInBit(lastNext + lastHere, b);
      } else if b in ShiftIn(next) {
        ShiftInBit(next, b);
      }
    }
  }

  lemma LowBitsGrow(d: nat)
    ensures LowBits(d) <= LowBits(d + 1)
  {
  }

  /** A row of `d` errors, written from `low` up. */
  ghost predicate RowChained(row: seq<Word>, d: nat, low: int) {
    && row != [] && row[|row| - 1] == LowBits(d) && 0 <= low
    && forall j :: low <= j < |row| - 1 ==> CellChained(row[j], row[j + 1])
  }

  /** The masks of the units of the pattern, last unit first. */
  method MatchAlphabet(pattern: Text) returns (s: map<QChar, Word>)
    requires |pattern| <= WORD_BITS
    ensures AlphabetOf(s, pattern)
  {
    hide PartAlphabet;
    s := map[];
    for i := 0 to |pattern|
      invariant forall c :: c in s <==> c in pattern[..i]
      invariant forall c :: c in s ==> s[c] == {}
    {
      s := s[pattern[i] := {}];
    }
    assert pattern[..|pattern|] == pattern;
    NoMasks(s, pattern);
    for i := 0 to |pattern|
      invariant PartAlphabet(s, pattern, i)
    {
      OneMoreMask(s, pattern, i);
      s := s[pattern[i] := s[pattern[i]] + Bit(|pattern| - i - 1)];
    }
    AllMasks(s, pattern);
  }

  /** The masks with the bits of the first `i` units of the pattern set. */
  ghost predicate PartAlphabet(s: map<QChar, Word>, pattern: Text, i: nat)
    requires i <= |pattern|
  {
    && (forall c :: c in s <==> c in pattern)
    && (forall c, b :: c in s ==> (b in s[c] <==> |pattern| - i <= b < |pattern| && pattern[|pattern| - 1 - b] == c))
  }

  lemma NoMasks(s: map<QChar, Word>, pattern: Text)
    requires (forall c :: c in s <==> c in pattern) && forall c :: c in s ==> s[c] == {}
    ensures PartAlphabet(s, pattern, 0)
  {
  }

  lemma OneMoreMask(s: map<QChar, Word>, pattern: Text, i: nat)
    requires i < |pattern| <= WORD_BITS && PartAlphabet(s, pattern, i)
    ensures pattern[i] in s
    ensures PartAlphabet(s[pattern[i] := s[pattern[i]] + Bit(|pattern| - i - 1)], pattern, i + 1)
  {
    assert pattern[i] in pattern;
  }

  lemma AllMasks(s: map<QChar, Word>, pattern: Text)
    requires PartAlphabet(s, pattern, |pattern|)
    ensures AlphabetOf(s, pattern)
  {
  }

  // ----- scores and windows -----

  /** Errors and distance from the expected location, each as a fraction. */
  function BitapScore(dmp: Settings, e: int, x: int, loc: int, length: nat): real
    requires length > 0
  {
    var accuracy := e as real / length as real;
    var proximity := if loc < x then x - loc else loc - x;
    if dmp.matchDistance == 0 then if proximity == 0 then accuracy else 1.0
    else accuracy + proximity as real / dmp.matchDistance as real
  }

  lemma FractionLess(a: int, b: int, n: int)
    requires a < b && n > 0
    ensures a as real / n as real < b as real / n as real
  {
  }

  /** With one more error a match that scores no worse must be strictly nearer. */
  lemma StrictlyNearer(dmp: Settings, d: int, x: int, y: int, loc: int, length: nat)
    requires length > 0 && dmp.matchDistance >= 0
    requires dmp.matchDistance == 0 ==> BitapScore(dmp, d, x, loc, length) < 1.0
    requires BitapScore(dmp, d + 1, y, loc, length) <= BitapScore(dmp, d, x, loc, length)
    ensures y == loc || (if loc < y then y - loc else loc - y) < (if loc < x then x - loc else loc - x)
  {
    FractionLess(d, d + 1, length);
    var p, q := if loc < x then x - loc else loc - x, if loc < y then y - loc else loc - y;
    if dmp.matchDistance > 0 && p < q { FractionLess(p, q, dmp.matchDistance); }
  }

  /** How far from `loc` row `d` may stray: the largest distance within `limit` whose
      score the threshold allows, found by halving. */
  method Stray(dmp: Settings, d: int, loc: int, length: nat, limit: nat, threshold: real) returns (mid: nat)
    requires length > 0
    ensures mid <= limit && (mid == 0 || BitapScore(dmp, d, loc + mid, loc, length) <= threshold)
    ensures mid == limit || BitapScore(dmp, d, loc + mid + 1, loc, length) > threshold
  {
    var min, max := 0, limit;
    mid := max;
    while min < mid
      invariant 0 <= min <= mid <= max <= limit
      invariant min == 0 || BitapScore(dmp, d, loc + min, loc, length) <= threshold
      invariant (max == limit && mid == max) || BitapScore(dmp, d, loc + max, loc, length) > threshold
      invariant (mid == max == limit || mid == (max - min) / 2 + min) && (min < max || mid == limit)
      decreases max - min, mid
    {
      if BitapScore(dmp, d, loc + mid, loc, length) <= threshold {
        min := mid;
      } else {
        max := mid;
      }
      mid := (max - min) / 2 + min;
    }
  }

  /** The pattern matches at `x` with `d` errors, and that scores `score`. */
  ghost predicate Found(dmp: Settings, text: Text, pattern: Text, loc: int, d: int, x: int, score: real) {
    |pattern| > 0 && 0 <= d && 0 <= x < |text| && Near(pattern, text, x, d)
    && BitapScore(dmp, d, x, loc, |pattern|) == score
  }

  /** The score lets row `d` stray `w` from the expected location. */
  ghost predicate Allowed(dmp: Settings, d: int, loc: int, w: int, length: nat, threshold: real)
    requires length > 0
  {
    BitapScore(dmp, d, loc + w, loc, length) <= threshold
  }

  /** Any window the next row can still have at this threshold, and that this row had,
      starts no lower than `low`. */
  ghost predicate Reaches(dmp: Settings, loc: int, length: nat, next: int, threshold: real, start: int, low: int)
    requires length > 0
  {
    forall w :: 1 <= w && Allowed(dmp, next, loc, w, length, threshold) && start <= Max(1, loc - w + 1) ==>
      low <= Max(1, loc - w + 1)
  }

  /** After a match at `x` only strictly nearer positions matter to the next row. */
  lemma ReachesAfterMatch(dmp: Settings, loc: int, length: nat, d: int, x: int, start: int, low: int)
    requires length > 0 && dmp.matchDistance >= 0 && !Loose(dmp, BitapScore(dmp, d, x, loc, length))
    requires low <= Max(1, if x > loc then 2 * loc - x else x + 1)
    ensures Reaches(dmp, loc, length, d + 1, BitapScore(dmp, d, x, loc, length), start, low)
  {
    hide BitapScore;
    var next, threshold := d + 1, BitapScore(dmp, d, x, loc, length);
    forall w | 1 <= w && Allowed(dmp, next, loc, w, length, threshold) && start <= Max(1, loc - w + 1)
      ensures low <= Max(1, loc - w + 1)
    {
      StrictlyNearer(dmp, d, x, loc + w, loc, length);
    }
  }

  // ----- when every position but the expected one scores alike -----

  /** Without a distance to score by, a threshold this high admits a match anywhere. */
  predicate Loose(dmp: Settings, threshold: real) {
    dmp.matchDistance == 0 && threshold >= 1.0
  }

  lemma LooseScore(dmp: Settings, d: nat, x: int, loc: int, length: nat)
    requires d <= length && length > 0 && dmp.matchDistance == 0
    ensures BitapScore(dmp, d, x, loc, length) <= 1.0
    ensures x != loc ==> BitapScore(dmp, d, x, loc, length) == 1.0
    ensures x == loc && d < length ==> BitapScore(dmp, d, x, loc, length) < 1.0
  {
    if d < length { FractionLess(d, length, length); }
  }

  /** What a row is scanned for and from: the row before, written from `low0` up. */
  datatype RowTask = RowTask(pattern: Text, loc: nat, d: nat, last: seq<Word>, start0: int, finish: int, low0: int)

  /** From `j` down, a row that holds the bits of `row` stops before it gets below `low`:
      by its window, at a match that ends the row, or at one that raises its start. */
  ghost predicate Ahead(row: seq<Word>, pattern: Text, loc: int, low: int, start: int, j: int) {
    || low <= start
    || (low - 1 <= loc && 0 <= low <= j && low < |row| && |pattern| - 1 in row[low])
    || exists b :: RaisesAt(row, pattern, loc, low, j, b)
  }

  ghost predicate RaisesAt(row: seq<Word>, pattern: Text, loc: int, low: int, j: int, b: int) {
    loc < b && 0 <= b + 1 <= j && b + 1 < |row| && low <= Max(1, 2 * loc - b) && |pattern| - 1 in row[b + 1]
  }

  /** A loose row under way: written from `low` up; `raised` is the match its start was last
      raised by, or -1. */
  ghost predicate LooseRow(t: RowTask, row: seq<Word>, low: int, start: int, raised: int) {
    && |row| == t.finish + 2 && RowChained(row, t.d, low) && t.start0 <= start
    && (t.d > 0 ==>
        && |t.last| == t.finish + 2 && RowChained(t.last, t.d - 1, t.low0)
        && (forall i :: low <= i <= t.finish + 1 ==> t.last[i] <= row[i])
        && Ahead(t.last, t.pattern, t.loc, t.low0, start, low - 1))
    && if raised == -1 then start == t.start0
       else
         && t.loc < raised && start == Max(1, 2 * t.loc - raised) && 0 <= low <= raised + 1 <= t.finish
         && |t.pattern| - 1 in row[raised + 1]
  }

  lemma LooseStart(t: RowTask, row: seq<Word>)
    requires |row| == t.finish + 2 && t.finish >= 0 && row[t.finish + 1] == LowBits(t.d)
    requires t.d > 0 ==>
               && |t.last| == t.finish + 2 && RowChained(t.last, t.d - 1, t.low0)
               && Ahead(t.last, t.pattern, t.loc, t.low0, t.start0, t.finish)
    ensures LooseRow(t, row, t.finish + 1, t.start0, -1)
  {
    if t.d > 0 { LowBitsGrow(t.d - 1); }
  }

  /** The cell about to be written reads only what the row before has written. */
  lemma LooseReads(t: RowTask, row: seq<Word>, j: int, start: int, raised: int)
    requires LooseRow(t, row, j + 1, start, raised) && t.d > 0 && start <= j && 1 <= j <= t.finish
    ensures t.low0 <= j && j + 1 < |t.last|
  {
  }

  ghost function CellOf(t: RowTask, row: seq<Word>, j: int, charMatch: Word): Word
    requires 0 <= j && j + 1 < |row| && (t.d > 0 ==> j + 1 < |t.last|)
  {
    if t.d == 0 then FirstRow(row[j + 1], charMatch)
    else LaterRow(row[j + 1], charMatch, t.last[j + 1], t.last[j])
  }

  lemma LooseCell(t: RowTask, row: seq<Word>, row': seq<Word>, j: int, start: int, raised: int, charMatch: Word)
    requires LooseRow(t, row, j + 1, start, raised) && start <= j && 1 <= j <= t.finish
    requires t.d > 0 ==> t.low0 <= j && j + 1 < |t.last|
    requires row' == row[j := CellOf(t, row, j, charMatch)]
    ensures |row'| == t.finish + 2 && RowChained(row', t.d, j)
    ensures t.d > 0 ==> forall i :: j <= i <= t.finish + 1 ==> t.last[i] <= row'[i]
  {
    hide LaterRow, FirstRow, LowBits, Ahead;
    if t.d == 0 {
      FirstChained(row[j + 1], charMatch);
    } else {
      LaterHolds(row[j + 1], charMatch, t.last[j + 1], t.last[j]);
    }
  }

  /** Without a match in the new cell the row goes on. */
  lemma LooseOn(t: RowTask, row: seq<Word>, row': seq<Word>, j: int, start: int, raised: int)
    requires LooseRow(t, row, j + 1, start, raised) && start <= j && 1 <= j <= t.finish
    requires |row'| == |row| && (forall i :: j < i < |row| ==> row'[i] == row[i])
    requires RowChained(row', t.d, j) && |t.pattern| - 1 !in row'[j]
    requires t.d > 0 ==> forall i :: j <= i <= t.finish + 1 ==> t.last[i] <= row'[i]
    ensures LooseRow(t, row', j, start, raised)
  {
    hide RowChained;
    if t.d > 0 && !(t.low0 <= start) {
      assert |t.pattern| - 1 !in t.last[j];
      if exists b :: RaisesAt(t.last, t.pattern, t.loc, t.low0, j, b) {
        var b :| RaisesAt(t.last, t.pattern, t.loc, t.low0, j, b);
        assert RaisesAt(t.last, t.pattern, t.loc, t.low0, j - 1, b);
      }
    }
  }

  /** A match past the expected place raises the start. */
  lemma LooseRaise(t: RowTask, row: seq<Word>, row': seq<Word>, j: int, start: int, raised: int)
    requires LooseRow(t, row, j + 1, start, raised) && start <= j && 1 <= j <= t.finish
    requires |row'| == |row| && RowChained(row', t.d, j) && |t.pattern| - 1 in row'[j]
    requires t.d > 0 ==> forall i :: j <= i <= t.finish + 1 ==> t.last[i] <= row'[i]
    requires t.loc < j - 1 && t.start0 <= Max(1, 2 * t.loc - (j - 1))
    ensures LooseRow(t, row', j, Max(1, 2 * t.loc - (j - 1)), j - 1)
  {
    hide RowChained;
    var start' := Max(1, 2 * t.loc - (j - 1));
    if t.d > 0 && !(t.low0 <= start') {
      if exists b :: RaisesAt(t.last, t.pattern, t.loc, t.low0, j, b) {
        var b :| RaisesAt(t.last, t.pattern, t.loc, t.low0, j, b);
        assert RaisesAt(t.last, t.pattern, t.loc, t.low0, j - 1, b);
      }
    }
  }

  /** What the next row can rely on when this one is done. */
  lemma LooseDone(t: RowTask, row: seq<Word>, low: int, start: int, raised: int)
    requires LooseRow(t, row, low, start, raised) && low <= start
    ensures Ahead(row, t.pattern, t.loc, low, t.start0, t.finish)
  {
    if raised != -1 {
      assert RaisesAt(row, t.pattern, t.loc, low, t.finish, raised);
    }
  }

  // ----- one row -----

  /** What row `d` may read of the row before, which was written from `low0` up. */
  ghost predicate Readable(dmp: Settings, text: Text, pattern: Text, loc: nat, d: nat, last: seq<Word>, start0: int,
                           finish: int, threshold: real, low0: int) {
    && (start0 <= finish ==>
          finish + 1 < |last| && 1 <= low0
          && forall j :: low0 <= j <= finish + 1 ==> CellOk(last[j], pattern, text, j, d - 1))
    && if Loose(dmp, threshold) then
         && |last| == finish + 2 && d > 0 && RowChained(last, d - 1, low0)
         && Ahead(last, pattern, loc, low0, start0, finish)
       else start0 <= finish ==> low0 <= start0
  }

  /** What a scan leaves for the next row, written from `low` up. */
  ghost predicate Leaves(dmp: Settings, pattern: Text, loc: nat, d: nat, row: seq<Word>, start0: int, finish: int,
                         threshold: real, low: int)
    requires pattern != []
  {
    if Loose(dmp, threshold) then RowChained(row, d, low) && Ahead(row, pattern, loc, low, start0, finish)
    else Reaches(dmp, loc, |pattern|, d + 1, threshold, start0, low)
  }

  /** The row so far: sound cells from `low` up, and what the threshold and the best match
      come from. */
  ghost predicate Scanning(dmp: Settings, text: Text, t: RowTask, row: seq<Word>, low: int, start: int, raised: int,
                           threshold0: real, threshold: real, best0: int, best: int) {
    && t.pattern != [] && |row| == t.finish + 2 && 1 <= low <= t.finish + 1 && t.start0 <= start
    && (forall i :: low <= i <= t.finish + 1 ==> CellOk(row[i], t.pattern, text, i, t.d))
    && threshold <= threshold0 && (best == best0 || best >= 0)
    && ((best == best0 && threshold == threshold0) || Found(dmp, text, t.pattern, t.loc, t.d, best, threshold))
    && (if Loose(dmp, threshold) then LooseRow(t, row, low, start, raised)
        else Reaches(dmp, t.loc, |t.pattern|, t.d + 1, threshold, t.start0, start))
    && (t.d == 0 ==>
        && CellFull(row[low], t.pattern, text, low, t.finish)
        && (best != best0 ==> OccursAt(text, t.pattern, best) && best + |t.pattern| <= t.finish)
        && (best == best0 == -1 ==>
              start == t.start0 && NoneWithin(dmp, text, t.pattern, t.loc, threshold0, low, t.finish)))
  }

  lemma ScanStart(dmp: Settings, text: Text, t: RowTask, row: seq<Word>, threshold0: real, best0: int)
    requires t.pattern != [] && t.finish >= 0 && |row| == t.finish + 2 && row[t.finish + 1] == LowBits(t.d)
    requires t.d > 0 ==>
               Readable(dmp, text, t.pattern, t.loc, t.d, t.last, t.start0, t.finish, threshold0, t.low0)
    ensures Scanning(dmp, text, t, row, t.finish + 1, t.start0, -1, threshold0, threshold0, best0, best0)
  {
    hide CellOk, CellFull, NoneWithin, Reaches, RowChained, Ahead, LooseRow, Found;
    BeyondRow(t.pattern, text, t.finish + 1, t.d);
    if Loose(dmp, threshold0) { LooseStart(t, row); }
    ReachesAtStart(dmp, t.loc, |t.pattern|, t.d + 1, threshold0, t.start0);
    NothingBeyond(dmp, row[t.finish + 1], text, t.pattern, t.loc, threshold0, t.finish);
  }

  /** The cells read for cell `j` were written. */
  lemma ScanReads(dmp: Settings, text: Text, t: RowTask, row: seq<Word>, j: int, start: int, raised: int,
                  threshold0: real, threshold: real, best0: int, best: int)
    requires Scanning(dmp, text, t, row, j + 1, start, raised, threshold0, threshold, best0, best)
    requires 1 <= t.start0 <= start <= j && t.d > 0
    requires Readable(dmp, text, t.pattern, t.loc, t.d, t.last, t.start0, t.finish, threshold0, t.low0)
    requires Loose(dmp, threshold) == Loose(dmp, threshold0)
    ensures 1 <= t.low0 <= j <= t.finish && j + 1 < |t.last|
    ensures CellOk(t.last[j], t.pattern, text, j, t.d - 1) && CellOk(t.last[j + 1], t.pattern, text, j + 1, t.d - 1)
  {
    hide CellOk, CellFull, NoneWithin, Reaches, RowChained, Ahead, LooseRow, Found;
    if Loose(dmp, threshold) { LooseReads(t, row, j, start, raised); }
  }

  lemma ScanCell(dmp: Settings, text: Text, s: map<QChar, Word>, t: RowTask, row: seq<Word>, row': seq<Word>, j: int,
                 start: int, raised: int, threshold0: real, threshold: real, best0: int, best: int)
    requires Scanning(dmp, text, t, row, j + 1, start, raised, threshold0, threshold, best0, best)
    requires 1 <= t.start0 <= start <= j && |t.pattern| <= WORD_BITS && AlphabetOf(s, t.pattern)
    requires t.d > 0 ==>
               && 1 <= t.low0 <= j && j + 1 < |t.last|
               && CellOk(t.last[j], t.pattern, text, j, t.d - 1)
               && CellOk(t.last[j + 1], t.pattern, text, j + 1, t.d - 1)
    requires j <= t.finish && row' == row[j := CellOf(t, row, j, CharMatch(s, text, j))]
    ensures forall i :: j <= i <= t.finish + 1 ==> CellOk(row'[i], t.pattern, text, i, t.d)
    ensures t.d == 0 ==> CellFull(row'[j], t.pattern, text, j, t.finish)
    ensures Loose(dmp, threshold) ==>
              RowChained(row', t.d, j) && (t.d > 0 ==> forall i :: j <= i <= t.finish + 1 ==> t.last[i] <= row'[i])
  {
    hide AlphabetOf, CellOk, CellFull, NoneWithin, Reaches, RowChained, LooseRow, Found, FirstRow, LaterRow, CharMatch;
    if t.d == 0 {
      FirstRowCell(row[j + 1], t.pattern, text, s, j);
      FirstRowFull(row[j + 1], t.pattern, text, s, j, t.finish);
    } else {
      LaterRowCell(row[j + 1], t.last[j + 1], t.last[j], t.pattern, text, s, j, t.d);
    }
    if Loose(dmp, threshold) { LooseCell(t, row, row', j, start, raised, CharMatch(s, text, j)); }
  }

  /** The new cell holds no match that is good enough. */
  lemma ScanOn(dmp: Settings, text: Text, t: RowTask, row: seq<Word>, row': seq<Word>, j: int, start: int, raised: int,
               threshold0: real, threshold: real, best0: int, best: int)
    requires Scanning(dmp, text, t, row, j + 1, start, raised, threshold0, threshold, best0, best)
    requires 1 <= t.start0 <= start <= j <= t.finish && t.d < |t.pattern| <= WORD_BITS && |row'| == |row|
    requires forall i :: j < i < |row| ==> row'[i] == row[i]
    requires forall i :: j <= i <= t.finish + 1 ==> CellOk(row'[i], t.pattern, text, i, t.d)
    requires t.d == 0 ==> CellFull(row'[j], t.pattern, text, j, t.finish)
    requires Loose(dmp, threshold) ==>
               RowChained(row', t.d, j) && (t.d > 0 ==> forall i :: j <= i <= t.finish + 1 ==> t.last[i] <= row'[i])
    requires |t.pattern| - 1 in row'[j] ==> BitapScore(dmp, t.d, j - 1, t.loc, |t.pattern|) > threshold
    ensures Scanning(dmp, text, t, row', j, start, raised, threshold0, threshold, best0, best)
  {
    hide CellOk, CellFull, NoneWithin, Reaches, RowChained, LooseRow, Near, BitapScore;
    if Loose(dmp, threshold) {
      LooseScore(dmp, t.d, j - 1, t.loc, |t.pattern|);
      LooseOn(t, row, row', j, start, raised);
    }
    if t.d == 0 {
      FullSeen(row'[j], t.pattern, text, j, t.finish);
      if best == best0 == -1 { NoneBelow(dmp, text, t.pattern, t.loc, threshold0, j, t.finish); }
    }
  }

  /** The new cell holds a match that is good enough. Past the expected place it raises the
      start; otherwise it ends the row. */
  lemma ScanMatch(dmp: Settings, text: Text, t: RowTask, row: seq<Word>, row': seq<Word>, j: int, start: int,
                  raised: int, threshold0: real, threshold: real, best0: int, best: int)
    requires Scanning(dmp, text, t, row, j + 1, start, raised, threshold0, threshold, best0, best)
    requires 1 <= t.start0 <= start <= j <= t.finish && t.d < |t.pattern| <= WORD_BITS && |row'| == |row|
    requires dmp.matchDistance >= 0 && best0 >= -1
    requires forall i :: j <= i <= t.finish + 1 ==> CellOk(row'[i], t.pattern, text, i, t.d)
    requires t.d == 0 ==> CellFull(row'[j], t.pattern, text, j, t.finish)
    requires Loose(dmp, threshold) ==>
               RowChained(row', t.d, j) && (t.d > 0 ==> forall i :: j <= i <= t.finish + 1 ==> t.last[i] <= row'[i])
    requires |t.pattern| - 1 in row'[j] && BitapScore(dmp, t.d, j - 1, t.loc, |t.pattern|) <= threshold
    ensures var score, start' := BitapScore(dmp, t.d, j - 1, t.loc, |t.pattern|), Max(1, 2 * t.loc - (j - 1));
            && Found(dmp, text, t.pattern, t.loc, t.d, j - 1, score)
            && (t.d == 0 ==> OccursAt(text, t.pattern, j - 1) && j - 1 + |t.pattern| <= t.finish)
            && (j - 1 > t.loc && t.start0 <= start' ==>
                Scanning(dmp, text, t, row', j, start', j - 1, threshold0, score, best0, j - 1)
                && Loose(dmp, score) == Loose(dmp, threshold))
            && (j - 1 <= t.loc ==> Leaves(dmp, t.pattern, t.loc, t.d, row', t.start0, t.finish, score, j))
  {
    hide CellOk, CellFull, NoneWithin, Reaches, RowChained, LooseRow, Near;
    var score, start' := BitapScore(dmp, t.d, j - 1, t.loc, |t.pattern|), Max(1, 2 * t.loc - (j - 1));
    FullMatch(row'[j], t.pattern, text, j, t.d);
    if t.d == 0 { FullSeen(row'[j], t.pattern, text, j, t.finish); }
    if dmp.matchDistance == 0 { LooseScore(dmp, t.d, j - 1, t.loc, |t.pattern|); }
    if !Loose(dmp, score) {
      ReachesAfterMatch(dmp, t.loc, |t.pattern|, t.d, j - 1, t.start0, if j - 1 > t.loc then start' else j);
    } else if j - 1 > t.loc && t.start0 <= start' {
      LooseRaise(t, row, row', j, start, raised);
    }
  }

  lemma ScanDone(dmp: Settings, text: Text, t: RowTask, row: seq<Word>, low: int, start: int, raised: int,
                 threshold0: real, threshold: real, best0: int, best: int)
    requires Scanning(dmp, text, t, row, low, start, raised, threshold0, threshold, best0, best) && low <= start
    ensures Leaves(dmp, t.pattern, t.loc, t.d, row, t.start0, t.finish, threshold, low)
    ensures t.d == 0 && best == best0 == -1 ==>
              NoneWithin(dmp, text, t.pattern, t.loc, threshold0, t.start0, t.finish)
  {
    hide CellOk, CellFull, NoneWithin, Reaches, RowChained, Ahead, Found;
    if Loose(dmp, threshold) {
      LooseDone(t, row, low, start, raised);
    } else {
      ReachesLower(dmp, t.loc, |t.pattern|, t.d + 1, threshold, t.start0, start, low);
    }
    if t.d == 0 && best == best0 == -1 { NoneFewer(dmp, text, t.pattern, t.loc, threshold0, low, t.start0, t.finish); }
  }

  /** From `low` up no stretch of the text that ends by `finish` matches with at most `d` edits
      and scores within the threshold. */
  ghost predicate NoneNear(dmp: Settings, text: Text, pattern: Text, loc: int, d: int, threshold: real, low: int,
                           finish: int)
    requires pattern != []
  {
    forall x, e :: low <= x + 1 && 0 <= x <= e <= finish && e <= |text| && Levenshtein(pattern, text[x..e]) <= d
                   && x < e ==>
      BitapScore(dmp, d, x, loc, |pattern|) > threshold
  }

  /** While nothing is found the row misses no match, and holds none that is good enough. */
  ghost predicate Fruitless(dmp: Settings, text: Text, t: RowTask, row: seq<Word>, low: int, start: int,
                            threshold: real, best: int) {
    best == -1 ==>
      && t.pattern != [] && start == t.start0 && RowWhole(row, t.pattern, text, low, t.finish, t.d)
      && NoneNear(dmp, text, t.pattern, t.loc, t.d, threshold, low, t.finish)
  }

  lemma FruitlessStart(dmp: Settings, text: Text, t: RowTask, row: seq<Word>, threshold: real, best: int)
    requires t.pattern != [] && t.finish >= 0 && |row| == t.finish + 2 && row[t.finish + 1] == LowBits(t.d)
    ensures Fruitless(dmp, text, t, row, t.finish + 1, t.start0, threshold, best)
  {
    BeyondWhole(t.pattern, text, t.finish, t.d);
    hide CellWhole, BitapScore;
  }

  lemma FruitlessCell(dmp: Settings, text: Text, s: map<QChar, Word>, t: RowTask, row: seq<Word>, row': seq<Word>,
                      j: int, start: int, threshold: real)
    requires Fruitless(dmp, text, t, row, j + 1, start, threshold, -1) && AlphabetOf(s, t.pattern)
    requires 1 <= t.start0 <= j <= t.finish && t.d < |t.pattern| <= WORD_BITS && |row| == t.finish + 2
    requires t.d > 0 ==> RowWhole(t.last, t.pattern, text, t.start0, t.finish, t.d - 1)
    requires t.d > 0 ==> j + 1 < |t.last|
    requires row' == row[j := CellOf(t, row, j, CharMatch(s, text, j))]
    requires t.d == 0 ==> CellFull(row'[j], t.pattern, text, j, t.finish)
    requires |t.pattern| - 1 in row'[j] ==> BitapScore(dmp, t.d, j - 1, t.loc, |t.pattern|) > threshold
    ensures Fruitless(dmp, text, t, row', j, start, threshold, -1)
  {
    hide CharMatch, LaterRow, FirstRow, CellFull, CellWhole, BitapScore, AlphabetOf;
    if t.d == 0 {
      FirstWhole(row'[j], t.pattern, text, j, t.finish);
    } else {
      LaterRowWhole(row[j + 1], t.last[j + 1], t.last[j], t.pattern, text, s, j, t.finish, t.d);
    }
    assert RowWhole(row', t.pattern, text, j, t.finish, t.d);
    NoneNearBelow(dmp, text, t.pattern, t.loc, t.d, threshold, row'[j], j, t.finish);
  }

  lemma NoneNearBelow(dmp: Settings, text: Text, pattern: Text, loc: int, d: int, threshold: real, w: Word, j: int,
                      finish: int)
    requires 0 < |pattern| <= WORD_BITS && 1 <= j && CellWhole(w, pattern, text, j, finish, d)
    requires NoneNear(dmp, text, pattern, loc, d, threshold, j + 1, finish)
    requires |pattern| - 1 in w ==> BitapScore(dmp, d, j - 1, loc, |pattern|) > threshold
    ensures NoneNear(dmp, text, pattern, loc, d, threshold, j, finish)
  {
    hide BitapScore, Levenshtein;
    assert pattern[0..] == pattern;
    forall x, e | j <= x + 1 && 0 <= x <= e <= finish && e <= |text| && Levenshtein(pattern, text[x..e]) <= d && x < e
      ensures BitapScore(dmp, d, x, loc, |pattern|) > threshold
    {
      if x == j - 1 { assert BitNear(pattern, text, j, finish, d, |pattern| - 1); }
    }
  }

  /** Once something is found the row need not be whole. */
  lemma FruitfulRow(dmp: Settings, text: Text, t: RowTask, row: seq<Word>, low: int, start: int, threshold: real,
                    best: int)
    ensures best != -1 ==> Fruitless(dmp, text, t, row, low, start, threshold, best)
  {
  }

  lemma FruitlessDone(dmp: Settings, text: Text, t: RowTask, row: seq<Word>, low: int, start: int, threshold: real)
    requires Fruitless(dmp, text, t, row, low, start, threshold, -1) && 1 <= t.start0
    requires low <= start
    ensures RowWhole(row, t.pattern, text, t.start0, t.finish, t.d)
    ensures NoneNear(dmp, text, t.pattern, t.loc, t.d, threshold, t.start0, t.finish)
  {
    hide CellWhole, BitapScore, Levenshtein;
  }

  /** Fills row `d` from `finish` down, tightening the threshold at every match. The cells
      from `low` up are written; the row may stop above `start0`, but never above what
      the next row can read. */
  method ScanRow(dmp: Settings, text: Text, pattern: Text, s: map<QChar, Word>, d: nat, loc: nat,
                 lastRd: array<Word>, start0: int, finish: int, threshold0: real, best0: int, ghost window: nat,
                 ghost low0: int)
    returns (rd: array<Word>, threshold: real, best: int, ghost low: int)
    requires d < |pattern| <= WORD_BITS && dmp.matchDistance >= 0 && AlphabetOf(s, pattern) && best0 >= -1
    requires start0 == Max(1, loc - window + 1) && 0 <= finish <= loc + window
    requires d > 0 ==> Readable(dmp, text, pattern, loc, d, lastRd[..], start0, finish, threshold0, low0)
    requires d > 0 && best0 == -1 ==> RowWhole(lastRd[..], pattern, text, start0, finish, d - 1)
    ensures best == -1 ==>
              && best0 == -1 && threshold == threshold0 && RowWhole(rd[..], pattern, text, start0, finish, d)
              && NoneNear(dmp, text, pattern, loc, d, threshold0, start0, finish)
    ensures fresh(rd) && rd.Length == finish + 2
    ensures 1 <= low <= finish + 1 && forall j :: low <= j <= finish + 1 ==> CellOk(rd[j], pattern, text, j, d)
    ensures threshold <= threshold0 && (best == best0 || best >= 0)
    ensures (best == best0 && threshold == threshold0) || Found(dmp, text, pattern, loc, d, best, threshold)
    ensures Leaves(dmp, pattern, loc, d, rd[..], start0, finish, threshold, low)
    ensures d == 0 && best == best0 == -1 ==> NoneWithin(dmp, text, pattern, loc, threshold0, start0, finish)
    ensures d == 0 && best != best0 ==> OccursAt(text, pattern, best) && best + |pattern| <= finish
  {
    hide AlphabetOf, CellOk, CellFull, BitapScore, Reaches, LaterRow, FirstRow, CharMatch, NoneWithin, Scanning, Leaves,
      Readable, LooseRow, RowChained, Ahead, Found, OccursAt, LowBits, RowWhole, NoneNear, Fruitless;
    ghost var t := RowTask(pattern, loc, d, lastRd[..], start0, finish, low0);
    threshold, best := threshold0, best0;
    rd := new Word[finish + 2];
    rd[finish + 1] := LowBits(d);
    var start, j := start0, finish;
    ghost var raised := -1;
    low := finish + 1;
    ScanStart(dmp, text, t, rd[..], threshold0, best0);
    FruitlessStart(dmp, text, t, rd[..], threshold0, best0);
    while j >= start
      invariant low == j + 1 && start0 <= start && 0 <= j <= finish && (j >= start - 1 || low == finish + 1)
      invariant lastRd[..] == t.last
      invariant Scanning(dmp, text, t, rd[..], low, start, raised, threshold0, threshold, best0, best)
      invariant Loose(dmp, threshold) == Loose(dmp, threshold0)
      invariant Fruitless(dmp, text, t, rd[..], low, start, threshold0, best)
      invariant best == -1 ==> best0 == -1 && threshold == threshold0
      decreases j
    {
      ghost var row := rd[..];
      if d == 0 {
        rd[j] := FirstRow(rd[j + 1], CharMatch(s, text, j));
      } else {
        ScanReads(dmp, text, t, row, j, start, raised, threshold0, threshold, best0, best);
        rd[j] := LaterRow(rd[j + 1], CharMatch(s, text, j), lastRd[j + 1], lastRd[j]);
      }
      assert rd[..] == row[j := CellOf(t, row, j, CharMatch(s, text, j))];
      ScanCell(dmp, text, s, t, row, rd[..], j, start, raised, threshold0, threshold, best0, best);
      low := j;
      if |pattern| - 1 !in rd[j] || BitapScore(dmp, d, j - 1, loc, |pattern|) > threshold {
        ScanOn(dmp, text, t, row, rd[..], j, start, raised, threshold0, threshold, best0, best);
        if best == -1 { FruitlessCell(dmp, text, s, t, row, rd[..], j, start, threshold0); }
        FruitfulRow(dmp, text, t, rd[..], j, start, threshold0, best);
      }
      if |pattern| - 1 in rd[j] {
        var score := BitapScore(dmp, d, j - 1, loc, |pattern|);
        if score <= threshold {
          ScanMatch(dmp, text, t, row, rd[..], j, start, raised, threshold0, threshold, best0, best);
          ScanSound(dmp, text, t, row, low + 1, start, raised, threshold0, threshold, best0, best);
          threshold, best := score, j - 1;
          FruitfulRow(dmp, text, t, rd[..], j, start, threshold0, best);
          if best > loc {
            start, raised := Max(1, 2 * loc - best), best;
            FruitfulRow(dmp, text, t, rd[..], j, start, threshold0, best);
          } else {
            return;
          }
        }
      }
      j := j - 1;
    }
    ScanDone(dmp, text, t, rd[..], low, start, raised, threshold0, threshold, best0, best);
    if best == -1 { FruitlessDone(dmp, text, t, rd[..], low, start, threshold0); }
    ScanSound(dmp, text, t, rd[..], low, start, raised, threshold0, threshold, best0, best);
  }

  lemma ScanSound(dmp: Settings, text: Text, t: RowTask, row: seq<Word>, low: int, start: int, raised: int,
                  threshold0: real, threshold: real, best0: int, best: int)
    requires Scanning(dmp, text, t, row, low, start, raised, threshold0, threshold, best0, best)
    ensures |row| == t.finish + 2 && 1 <= low <= t.finish + 1
    ensures forall i :: low <= i <= t.finish + 1 ==> CellOk(row[i], t.pattern, text, i, t.d)
    ensures threshold <= threshold0 && (best == best0 || best >= 0)
    ensures (best == best0 && threshold == threshold0) || Found(dmp, text, t.pattern, t.loc, t.d, best, threshold)
    ensures t.d == 0 && best != best0 ==> OccursAt(text, t.pattern, best) && best + |t.pattern| <= t.finish
  {
  }

  /** No exact match in the window from `low` up scores within the threshold. */
  ghost predicate NoneWithin(dmp: Settings, text: Text, pattern: Text, loc: int, threshold: real, low: int, finish: int)
    requires pattern != []
  {
    forall x :: OccursAt(text, pattern, x) && low <= x + 1 && x + |pattern| <= finish ==>
      BitapScore(dmp, 0, x, loc, |pattern|) > threshold
  }

  lemma NothingBeyond(dmp: Settings, w: Word, text: Text, pattern: Text, loc: int, threshold: real, finish: int)
    requires pattern != []
    ensures w == {} ==> CellFull(w, pattern, text, finish + 1, finish)
    ensures NoneWithin(dmp, text, pattern, loc, threshold, finish + 1, finish)
  {
  }

  lemma NoneBelow(dmp: Settings, text: Text, pattern: Text, loc: int, threshold: real, j: int, finish: int)
    requires pattern != [] && NoneWithin(dmp, text, pattern, loc, threshold, j + 1, finish)
    requires OccursAt(text, pattern, j - 1) && j - 1 + |pattern| <= finish ==>
               BitapScore(dmp, 0, j - 1, loc, |pattern|) > threshold
    ensures NoneWithin(dmp, text, pattern, loc, threshold, j, finish)
  {
    hide BitapScore;
  }

  lemma NoneFewer(dmp: Settings, text: Text, pattern: Text, loc: int, threshold: real, low: int, low': int, finish: int)
    requires pattern != [] && NoneWithin(dmp, text, pattern, loc, threshold, low, finish) && low <= low'
    ensures NoneWithin(dmp, text, pattern, loc, threshold, low', finish)
  {
  }

  lemma ReachesAtStart(dmp: Settings, loc: int, length: nat, d: int, threshold: real, start: int)
    requires length > 0
    ensures Reaches(dmp, loc, length, d, threshold, start, start)
  {
  }

  lemma ReachesLower(dmp: Settings, loc: int, length: nat, d: int, threshold: real, start: int, low: int, low': int)
    requires length > 0 && Reaches(dmp, loc, length, d, threshold, start, low) && low' <= low
    ensures Reaches(dmp, loc, length, d, threshold, start, low')
  {
  }

  // ----- the search -----

  /** The threshold allows, and so does the first exact match from `loc` on, if any. */
  ghost predicate WithinThreshold(dmp: Settings, text: Text, pattern: Text, loc: nat, score: real)
    requires pattern != []
  {
    && score <= dmp.matchThreshold
    && var x := IndexOf(text, pattern, loc); x != -1 ==> score <= BitapScore(dmp, 0, x, loc, |pattern|)
  }

  /** Nothing found, or a match inside the text that scores as well as the first exact
      match from `loc` on and within the threshold. */
  ghost predicate Acceptable(dmp: Settings, text: Text, pattern: Text, loc: nat, r: int)
    requires pattern != []
  {
    r == -1
    || exists d, score :: d < |pattern| && Found(dmp, text, pattern, loc, d, r, score)
                          && WithinThreshold(dmp, text, pattern, loc, score)
  }

  /** An exact match that scores within the threshold. */
  ghost predicate ExactWithin(dmp: Settings, text: Text, pattern: Text, loc: int, threshold: real, x: int)
    requires pattern != []
  {
    OccursAt(text, pattern, x) && BitapScore(dmp, 0, x, loc, |pattern|) <= threshold
  }

  /** An exact match within the threshold, none nearer. */
  ghost predicate Nearest(dmp: Settings, text: Text, pattern: Text, loc: int, x: int)
    requires pattern != []
  {
    && ExactWithin(dmp, text, pattern, loc, dmp.matchThreshold, x)
    && forall y :: OccursAt(text, pattern, y) ==>
         BitapScore(dmp, 0, x, loc, |pattern|) <= BitapScore(dmp, 0, y, loc, |pattern|)
  }

  /** A match far enough before `loc` that the window of the first row, as wide to the right
      as to the left, holds all of it. */
  predicate Visible(pattern: Text, loc: int, x: int) {
    2 * (loc - x) >= |pattern|
  }

  /** What the search starts from: a threshold no nearest exact match exceeds, that of the
      settings or of some exact match; with no exact match ahead it is that of the settings. */
  ghost predicate StartsFrom(dmp: Settings, text: Text, pattern: Text, loc: nat, threshold: real)
    requires pattern != []
  {
    && WithinThreshold(dmp, text, pattern, loc, threshold)
    && (forall x :: Nearest(dmp, text, pattern, loc, x) ==> BitapScore(dmp, 0, x, loc, |pattern|) <= threshold)
    && (threshold == dmp.matchThreshold
        || exists y :: OccursAt(text, pattern, y) && threshold == BitapScore(dmp, 0, y, loc, |pattern|))
    && (IndexOf(text, pattern, loc) == -1 ==> threshold == dmp.matchThreshold)
  }

  /** The largest distance, within `limit`, that the threshold allows row `d`. */
  ghost predicate RowWindow(dmp: Settings, d: nat, loc: int, length: nat, limit: nat, threshold: real, mid: nat)
    requires length > 0
  {
    && mid <= limit && (mid == 0 || Allowed(dmp, d, loc, mid, length, threshold))
    && (mid == limit || !Allowed(dmp, d, loc, mid + 1, length, threshold))
  }

  /** Every stretch within `d` edits of the pattern that scores within the threshold ends farther
      past the expected place than the threshold lets row `d` stray. */
  ghost predicate RowMissed(dmp: Settings, text: Text, pattern: Text, loc: nat, threshold: real, d: nat)
    requires pattern != []
  {
    exists w: nat :: MissedPast(dmp, text, pattern, loc, threshold, d, w)
  }

  /** The same, `w` being how far the threshold lets the row stray. */
  ghost predicate MissedPast(dmp: Settings, text: Text, pattern: Text, loc: nat, threshold: real, d: nat, w: nat)
    requires pattern != []
  {
    && RowWindow(dmp, d, loc, |pattern|, |pattern| + |text|, threshold, w)
    && forall x, e :: 0 <= x <= e <= |text| && Levenshtein(pattern, text[x..e]) <= d
                      && BitapScore(dmp, d, x, loc, |pattern|) <= threshold ==>
         e > loc + w
  }

  /** No row has missed more than that. */
  ghost predicate RowsMissed(dmp: Settings, text: Text, pattern: Text, loc: nat, threshold: real, n: nat)
    requires pattern != []
  {
    forall d: nat :: d < n ==> RowMissed(dmp, text, pattern, loc, threshold, d)
  }

  /** What the first row decides: it sees an exact match within the threshold just when the
      match ends no later than `mid` past the expected place. */
  ghost predicate FirstRowDecides(dmp: Settings, text: Text, pattern: Text, loc: nat, threshold: real, mid: nat, r: int)
    requires pattern != []
  {
    && (r == -1 && loc <= |text| ==>
          forall x :: ExactWithin(dmp, text, pattern, loc, threshold, x) ==> x + |pattern| > loc + mid)
    && (r != -1 ==>
          || (ExactWithin(dmp, text, pattern, loc, threshold, r) && r + |pattern| <= loc + mid)
          || exists d, score :: 0 < d < |pattern| && Found(dmp, text, pattern, loc, d, r, score) && score <= threshold)
  }

  ghost predicate Decided(dmp: Settings, text: Text, pattern: Text, loc: nat, r: int)
    requires pattern != []
  {
    exists threshold, mid ::
      && StartsFrom(dmp, text, pattern, loc, threshold)
      && RowWindow(dmp, 0, loc, |pattern|, |pattern| + |text|, threshold, mid)
      && FirstRowDecides(dmp, text, pattern, loc, threshold, mid, r)
      && (r == -1 && loc <= |text| ==> RowsMissed(dmp, text, pattern, loc, threshold, |pattern|))
  }

  /** No exact match past `loc` is what was found. */
  ghost predicate NotPast(text: Text, pattern: Text, loc: int, r: int) {
    forall x :: OccursAt(text, pattern, x) && loc < x ==> r != x
  }

  /** The threshold to start from: exact matches on either side tighten it. */
  method StartThreshold(dmp: Settings, text: Text, pattern: Text, loc: nat) returns (threshold: real)
    requires pattern != []
    ensures StartsFrom(dmp, text, pattern, loc, threshold)
  {
    hide BitapScore;
    threshold := dmp.matchThreshold;
    var x := IndexOf(text, pattern, loc);
    if x != -1 {
      var score := BitapScore(dmp, 0, x, loc, |pattern|);
      threshold := if score < threshold then score else threshold;
      // Searching back from the very end may or may not see a match that ends there.
      var from := loc + |pattern|;
      var sees: bool := *;
      var y := if from < |text| || sees then LastIndexOf(text, pattern, from) else -1;
      if y != -1 {
        score := BitapScore(dmp, 0, y, loc, |pattern|);
        threshold := if score < threshold then score else threshold;
      }
    }
  }

  /** What row `d` finds written before it: the row before, sound from `low` up. */
  ghost predicate Written(dmp: Settings, text: Text, pattern: Text, loc: nat, d: nat, last: seq<Word>, low: int,
                          window: nat, threshold: real)
    requires pattern != []
  {
    var finish := Min(loc + window, |text| + |pattern|);
    && d > 0 && |last| == finish + 2 && 1 <= low
    && (forall j :: low <= j <= finish + 1 ==> CellOk(last[j], pattern, text, j, d - 1))
    && Leaves(dmp, pattern, loc, d - 1, last, Max(1, loc - window + 1), finish, threshold, low)
  }

  /** Whatever the next row can read was written. */
  lemma Handed(dmp: Settings, text: Text, pattern: Text, loc: nat, d: nat, last: seq<Word>, low: int, limit: nat,
               mid: nat, threshold: real)
    requires pattern != [] && Written(dmp, text, pattern, loc, d, last, low, limit, threshold) && mid <= limit
    requires mid == 0 || BitapScore(dmp, d, loc + mid, loc, |pattern|) <= threshold
    requires mid == limit || BitapScore(dmp, d, loc + mid + 1, loc, |pattern|) > threshold
    ensures Readable(dmp, text, pattern, loc, d, last, Max(1, loc - mid + 1), Min(loc + mid, |text| + |pattern|),
                     threshold, low)
  {
    hide CellOk, RowChained, Ahead;
    if !Loose(dmp, threshold) && mid > 0 {
      assert Allowed(dmp, d, loc, mid, |pattern|, threshold);
    }
  }

  /** When the first row finds nothing, every exact match within the threshold ends too late. */
  lemma FirstRowMisses(dmp: Settings, text: Text, pattern: Text, loc: nat, threshold: real, mid: nat)
    requires pattern != [] && dmp.matchDistance >= 0 && loc <= |text|
    requires RowWindow(dmp, 0, loc, |pattern|, |pattern| + |text|, threshold, mid)
    requires NoneWithin(dmp, text, pattern, loc, threshold, Max(1, loc - mid + 1), Min(loc + mid, |text| + |pattern|))
    ensures FirstRowDecides(dmp, text, pattern, loc, threshold, mid, -1)
  {
    forall x | ExactWithin(dmp, text, pattern, loc, threshold, x) ensures x + |pattern| > loc + mid {
      if loc - x > mid { NotFartherBehind(dmp, 0, mid + 1, loc - x, loc, |pattern|); }
    }
  }

  /** Fuzzy search near `loc`. Whatever it finds is inside the text, matches with fewer
      errors than the pattern has units, and scores within the threshold; no row ever
      reads a cell the row before did not write. Among exact matches it sees those that end
      inside the window of the first row; so it finds something when the nearest one starts
      early enough before `loc`, and never finds one past `loc`, unless every place but the
      expected one scores alike. */
  method MatchBitap(dmp: Settings, text: Text, pattern: Text, loc: nat) returns (bestLoc: int)
    requires 0 < |pattern| <= WORD_BITS && dmp.matchDistance >= 0
    ensures Acceptable(dmp, text, pattern, loc, bestLoc)
    ensures Decided(dmp, text, pattern, loc, bestLoc)
    ensures bestLoc == -1 && loc <= |text| ==>
              forall x :: Nearest(dmp, text, pattern, loc, x) ==> !Visible(pattern, loc, x)
    ensures !Loose(dmp, dmp.matchThreshold) ==> NotPast(text, pattern, loc, bestLoc)
  {
    hide NotPast, AlphabetOf, CellOk, BitapScore, Found, WithinThreshold, NoneWithin, Nearest, StartsFrom, RowWindow,
      FirstRowDecides, Decided, Written, Readable, Leaves, OccursAt, Acceptable, RowWhole, NoneNear, RowsMissed,
      RowMissed;
    var s := MatchAlphabet(pattern);
    var threshold := StartThreshold(dmp, text, pattern, loc);
    ghost var threshold0, mid0: nat := threshold, 0;
    bestLoc := -1;
    var binMax: nat := |pattern| + |text|;
    var lastRd := new Word[0];
    ghost var low := 0;
    NoRowsMissed(dmp, text, pattern, loc, threshold);
    var d := 0;
    while d < |pattern|
      invariant 0 <= d <= |pattern| && threshold <= threshold0 && bestLoc >= -1
      invariant bestLoc == -1 || exists e :: e < |pattern| && Found(dmp, text, pattern, loc, e, bestLoc, threshold)
      invariant d == 0 ==> threshold == threshold0 && binMax == |pattern| + |text| && bestLoc == -1
      invariant d > 0 ==> RowWindow(dmp, 0, loc, |pattern|, |pattern| + |text|, threshold0, mid0)
      invariant d > 0 ==> FirstRowDecides(dmp, text, pattern, loc, threshold0, mid0, bestLoc)
      invariant d > 0 ==> Written(dmp, text, pattern, loc, d, lastRd[..], low, binMax, threshold)
      invariant bestLoc == -1 ==> threshold == threshold0
      invariant bestLoc == -1 && loc <= |text| ==> RowsMissed(dmp, text, pattern, loc, threshold0, d)
      invariant bestLoc == -1 && d > 0 ==>
                  RowWindow(dmp, d - 1, loc, |pattern|, |pattern| + |text|, threshold0, binMax)
                  && RowWhole(lastRd[..], pattern, text, Max(1, loc - binMax + 1),
                              Min(loc + binMax, |text| + |pattern|), d - 1)
    {
      ghost var limit := binMax;
      var binMid := Stray(dmp, d, loc, |pattern|, binMax, threshold);
      binMax := binMid;
      var start := Max(1, loc - binMid + 1);
      var finish := Min(loc + binMid, |text| + |pattern|);
      if d > 0 {
        Handed(dmp, text, pattern, loc, d, lastRd[..], low, limit, binMid, threshold);
        if bestLoc == -1 {
          RowWholeNarrower(lastRd[..], pattern, text, Max(1, loc - limit + 1), Min(loc + limit, |text| + |pattern|),
                           d - 1, start, finish);
        }
      }
      var rd;
      ghost var low', before, best0 := 0, threshold, bestLoc;
      rd, threshold, bestLoc, low' :=
        ScanRow(dmp, text, pattern, s, d, loc, lastRd, start, finish, threshold, bestLoc, binMid, low);
      low := low';
      if bestLoc == -1 {
        NextWindow(dmp, d, loc, |pattern|, |pattern| + |text|, limit, threshold0, binMid);
        if loc <= |text| { OneMoreRowMissed(dmp, text, pattern, loc, threshold0, d, binMid); }
      }
      if d == 0 {
        mid0 := binMid;
        FirstRowDone(dmp, text, pattern, loc, threshold0, threshold, mid0, bestLoc);
      } else {
        LaterRowDone(dmp, text, pattern, loc, d, threshold0, threshold, mid0, best0, bestLoc);
      }
      if BitapScore(dmp, d + 1, loc, loc, |pattern|) > threshold {
        if bestLoc == -1 && loc <= |text| { HopelessRows(dmp, text, pattern, loc, threshold0, d + 1); }
        break;
      }
      lastRd := rd;
      d := d + 1;
      RowWritten(dmp, text, pattern, loc, d, rd[..], low, binMax, threshold);
    }
    SearchDone(dmp, text, pattern, loc, threshold0, threshold, mid0, bestLoc);
  }

  lemma NoRowsMissed(dmp: Settings, text: Text, pattern: Text, loc: nat, threshold: real)
    requires pattern != []
    ensures RowsMissed(dmp, text, pattern, loc, threshold, 0)
  {
  }

  /** More errors score no better. */
  lemma ErrorsCost(dmp: Settings, d: nat, d': nat, x: int, loc: int, length: nat)
    requires length > 0 && d <= d'
    ensures BitapScore(dmp, d, x, loc, length) <= BitapScore(dmp, d', x, loc, length)
  {
    if d < d' { FractionLess(d, d', length); }
  }

  /** A window found within the one before is the widest there is. */
  lemma NextWindow(dmp: Settings, d: nat, loc: nat, length: nat, limit: nat, last: nat, threshold: real, mid: nat)
    requires length > 0 && mid <= last
    requires mid == 0 || BitapScore(dmp, d, loc + mid, loc, length) <= threshold
    requires mid == last || BitapScore(dmp, d, loc + mid + 1, loc, length) > threshold
    requires if d == 0 then last == limit else RowWindow(dmp, d - 1, loc, length, limit, threshold, last)
    ensures RowWindow(dmp, d, loc, length, limit, threshold, mid)
  {
    hide BitapScore;
    if d > 0 { ErrorsCost(dmp, d - 1, d, loc + mid + 1, loc, length); }
  }

  /** A row that found nothing missed only what ends past its window. */
  lemma OneMoreRowMissed(dmp: Settings, text: Text, pattern: Text, loc: nat, threshold: real, d: nat, mid: nat)
    requires pattern != [] && dmp.matchDistance >= 0 && loc <= |text| && d < |pattern|
    requires RowsMissed(dmp, text, pattern, loc, threshold, d)
    requires RowWindow(dmp, d, loc, |pattern|, |pattern| + |text|, threshold, mid)
    requires NoneNear(dmp, text, pattern, loc, d, threshold, Max(1, loc - mid + 1),
                      Min(loc + mid, |text| + |pattern|))
    ensures RowsMissed(dmp, text, pattern, loc, threshold, d + 1)
  {
    hide BitapScore, Levenshtein;
    NothingNear(pattern, text);
    forall x, e | 0 <= x <= e <= |text| && Levenshtein(pattern, text[x..e]) <= d
                  && BitapScore(dmp, d, x, loc, |pattern|) <= threshold
      ensures e > loc + mid
    {
      if loc - x > mid { NotFartherBehind(dmp, d, mid + 1, loc - x, loc, |pattern|); }
    }
    hide NoneNear, RowWindow;
    assert MissedPast(dmp, text, pattern, loc, threshold, d, mid);
    assert RowMissed(dmp, text, pattern, loc, threshold, d);
  }

  lemma NothingNear(pattern: Text, text: Text)
    ensures forall x, e :: 0 <= x == e <= |text| ==> Levenshtein(pattern, text[x..e]) == |pattern|
  {
    forall x, e | 0 <= x == e <= |text| ensures Levenshtein(pattern, text[x..e]) == |pattern| {
      assert text[x..e] == [];
    }
  }

  /** A nearer position scores no worse. */
  lemma NotFartherBehind(dmp: Settings, d: nat, m: nat, n: nat, loc: int, length: nat)
    requires length > 0 && dmp.matchDistance >= 0 && 0 < m <= n
    ensures BitapScore(dmp, d, loc + m, loc, length) <= BitapScore(dmp, d, loc - n, loc, length)
  {
    if m < n && dmp.matchDistance > 0 { FractionLess(m, n, dmp.matchDistance); }
  }

  /** Where even the expected place scores too high, later rows have nothing to find. */
  lemma HopelessRows(dmp: Settings, text: Text, pattern: Text, loc: nat, threshold: real, n: nat)
    requires pattern != [] && dmp.matchDistance >= 0 && loc <= |text| && n <= |pattern|
    requires RowsMissed(dmp, text, pattern, loc, threshold, n)
    requires BitapScore(dmp, n, loc, loc, |pattern|) > threshold
    ensures RowsMissed(dmp, text, pattern, loc, threshold, |pattern|)
  {
    hide BitapScore, RowMissed, Levenshtein;
    forall d: nat | d < |pattern| ensures RowMissed(dmp, text, pattern, loc, threshold, d) {
      if d >= n { HopelessRow(dmp, text, pattern, loc, threshold, n, d); }
    }
  }

  lemma HopelessRow(dmp: Settings, text: Text, pattern: Text, loc: nat, threshold: real, n: nat, d: nat)
    requires pattern != [] && dmp.matchDistance >= 0 && n <= d < |pattern|
    requires BitapScore(dmp, n, loc, loc, |pattern|) > threshold
    ensures RowMissed(dmp, text, pattern, loc, threshold, d)
  {
    hide BitapScore, Levenshtein;
    forall x: int ensures BitapScore(dmp, d, x, loc, |pattern|) > threshold {
      ErrorsCost(dmp, n, d, loc, loc, |pattern|);
      PlaceScoresLeast(dmp, d, x, loc, |pattern|);
    }
    assert MissedPast(dmp, text, pattern, loc, threshold, d, 0);
  }

  lemma PlaceScoresLeast(dmp: Settings, d: nat, x: int, loc: int, length: nat)
    requires length > 0 && dmp.matchDistance >= 0 && d <= length
    ensures BitapScore(dmp, d, loc, loc, length) <= BitapScore(dmp, d, x, loc, length)
  {
    if dmp.matchDistance == 0 {
      LooseScore(dmp, d, loc, loc, length);
      LooseScore(dmp, d, x, loc, length);
    } else if x != loc {
      FractionLess(0, if loc < x then x - loc else loc - x, dmp.matchDistance);
    }
  }

  lemma FirstRowDone(dmp: Settings, text: Text, pattern: Text, loc: nat, threshold0: real, threshold: real, mid: nat,
                     best: int)
    requires pattern != [] && dmp.matchDistance >= 0 && mid <= |pattern| + |text|
    requires mid == 0 || BitapScore(dmp, 0, loc + mid, loc, |pattern|) <= threshold0
    requires mid == |pattern| + |text| || BitapScore(dmp, 0, loc + mid + 1, loc, |pattern|) > threshold0
    requires best == -1 ==>
               NoneWithin(dmp, text, pattern, loc, threshold0, Max(1, loc - mid + 1),
                          Min(loc + mid, |text| + |pattern|))
    requires best != -1 ==>
               && OccursAt(text, pattern, best) && best + |pattern| <= Min(loc + mid, |text| + |pattern|)
               && Found(dmp, text, pattern, loc, 0, best, threshold) && threshold <= threshold0
    ensures RowWindow(dmp, 0, loc, |pattern|, |pattern| + |text|, threshold0, mid)
    ensures FirstRowDecides(dmp, text, pattern, loc, threshold0, mid, best)
  {
    hide NoneWithin, OccursAt;
    if best == -1 && loc <= |text| { FirstRowMisses(dmp, text, pattern, loc, threshold0, mid); }
  }

  lemma LaterRowDone(dmp: Settings, text: Text, pattern: Text, loc: nat, d: nat, threshold0: real, threshold: real,
                     mid: nat, best0: int, best: int)
    requires 0 < d < |pattern| && threshold <= threshold0 && (best == best0 || best >= 0)
    requires FirstRowDecides(dmp, text, pattern, loc, threshold0, mid, best0)
    requires best == best0 || Found(dmp, text, pattern, loc, d, best, threshold)
    ensures FirstRowDecides(dmp, text, pattern, loc, threshold0, mid, best)
  {
    hide Found, ExactWithin;
  }

  lemma RowWritten(dmp: Settings, text: Text, pattern: Text, loc: nat, d: nat, row: seq<Word>, low: int, window: nat,
                   threshold: real)
    requires pattern != [] && d > 0
    requires var finish := Min(loc + window, |text| + |pattern|);
             && |row| == finish + 2 && 1 <= low
             && (forall j :: low <= j <= finish + 1 ==> CellOk(row[j], pattern, text, j, d - 1))
             && Leaves(dmp, pattern, loc, d - 1, row, Max(1, loc - window + 1), finish, threshold, low)
    ensures Written(dmp, text, pattern, loc, d, row, low, window, threshold)
  {
    hide Leaves, CellOk;
  }

  /** What the search comes to. */
  lemma SearchDone(dmp: Settings, text: Text, pattern: Text, loc: nat, threshold0: real, threshold: real, mid: nat,
                   r: int)
    requires pattern != [] && dmp.matchDistance >= 0 && r >= -1 && threshold <= threshold0
    requires StartsFrom(dmp, text, pattern, loc, threshold0)
    requires RowWindow(dmp, 0, loc, |pattern|, |pattern| + |text|, threshold0, mid)
    requires FirstRowDecides(dmp, text, pattern, loc, threshold0, mid, r)
    requires r == -1 || exists e :: e < |pattern| && Found(dmp, text, pattern, loc, e, r, threshold)
    requires r == -1 && loc <= |text| ==> RowsMissed(dmp, text, pattern, loc, threshold0, |pattern|)
    ensures Acceptable(dmp, text, pattern, loc, r) && Decided(dmp, text, pattern, loc, r)
    ensures r == -1 && loc <= |text| ==> forall x :: Nearest(dmp, text, pattern, loc, x) ==> !Visible(pattern, loc, x)
    ensures !Loose(dmp, dmp.matchThreshold) ==> NotPast(text, pattern, loc, r)
  {
    hide BitapScore, Found, FirstRowDecides, RowWindow, Nearest, Visible, NotPast, RowsMissed;
    if r == -1 && loc <= |text| { VisibleSeen(dmp, text, pattern, loc, threshold0, mid); }
    if !Loose(dmp, dmp.matchThreshold) { PastMissed(dmp, text, pattern, loc, threshold0, mid, r); }
  }

  /** A visible nearest exact match ends inside the window of the first row. */
  lemma VisibleSeen(dmp: Settings, text: Text, pattern: Text, loc: nat, threshold: real, mid: nat)
    requires pattern != [] && dmp.matchDistance >= 0 && loc <= |text|
    requires StartsFrom(dmp, text, pattern, loc, threshold)
    requires RowWindow(dmp, 0, loc, |pattern|, |pattern| + |text|, threshold, mid)
    requires FirstRowDecides(dmp, text, pattern, loc, threshold, mid, -1)
    ensures forall x :: Nearest(dmp, text, pattern, loc, x) ==> !Visible(pattern, loc, x)
  {
    forall x | Nearest(dmp, text, pattern, loc, x) ensures !Visible(pattern, loc, x) {
      assert ExactWithin(dmp, text, pattern, loc, threshold, x);
      if loc - x > mid { NotFartherBehind(dmp, 0, mid + 1, loc - x, loc, |pattern|); }
    }
  }

  /** The first row ends before an exact match past `loc` does, and later rows score it too
      high. */
  lemma PastMissed(dmp: Settings, text: Text, pattern: Text, loc: nat, threshold: real, mid: nat, r: int)
    requires pattern != [] && dmp.matchDistance >= 0 && !Loose(dmp, dmp.matchThreshold)
    requires r >= -1 && StartsFrom(dmp, text, pattern, loc, threshold)
    requires RowWindow(dmp, 0, loc, |pattern|, |pattern| + |text|, threshold, mid)
    requires FirstRowDecides(dmp, text, pattern, loc, threshold, mid, r)
    ensures NotPast(text, pattern, loc, r)
  {
    hide BitapScore, RowWindow, FirstRowDecides, OccursAt, Nearest;
    forall x | OccursAt(text, pattern, x) && loc < x ensures r != x {
      if dmp.matchDistance == 0 {
        PastTooHigh(dmp, text, pattern, loc, threshold, mid, x);
      } else {
        var y := IndexOf(text, pattern, loc);
        if y < x { NotFartherAhead(dmp, 0, y - loc, x - loc, loc, |pattern|); }
        PastNotFound(dmp, text, pattern, loc, threshold, mid, x);
      }
    }
  }

  /** Without a distance to score by, any place but the expected one scores 1. */
  lemma PastTooHigh(dmp: Settings, text: Text, pattern: Text, loc: nat, threshold: real, mid: nat, x: int)
    requires pattern != [] && dmp.matchDistance == 0 && loc < x && threshold < 1.0
    ensures !FirstRowDecides(dmp, text, pattern, loc, threshold, mid, x)
  {
    hide Near;
    forall d | 0 <= d < |pattern| ensures BitapScore(dmp, d, x, loc, |pattern|) == 1.0 {
      LooseScore(dmp, d, x, loc, |pattern|);
    }
    hide BitapScore;
  }

  lemma PastNotFound(dmp: Settings, text: Text, pattern: Text, loc: nat, threshold: real, mid: nat, x: int)
    requires pattern != [] && dmp.matchDistance > 0 && loc < x
    requires threshold <= BitapScore(dmp, 0, x, loc, |pattern|)
    requires RowWindow(dmp, 0, loc, |pattern|, |pattern| + |text|, threshold, mid)
    ensures !FirstRowDecides(dmp, text, pattern, loc, threshold, mid, x)
  {
    hide Near;
    if x - loc < mid { FractionLess(x - loc, mid, dmp.matchDistance); }
    forall d, score | 0 < d < |pattern| && Found(dmp, text, pattern, loc, d, x, score) ensures score > threshold {
      FractionLess(0, d, |pattern|);
    }
  }

  /** With no exact match ahead, one behind is found when its end still scores within the
      threshold, however near to the expected place it starts. */
  lemma BehindSeen(dmp: Settings, text: Text, pattern: Text, loc: nat, x: int, r: int)
    requires pattern != [] && dmp.matchDistance >= 0 && loc <= |text| && Decided(dmp, text, pattern, loc, r)
    requires IndexOf(text, pattern, loc) == -1
    requires ExactWithin(dmp, text, pattern, loc, dmp.matchThreshold, x)
    requires x + |pattern| <= loc || BitapScore(dmp, 0, x + |pattern|, loc, |pattern|) <= dmp.matchThreshold
    ensures r != -1
  {
    hide StartsFrom, RowWindow, FirstRowDecides, ExactWithin, BitapScore;
    var threshold, mid :| StartsFrom(dmp, text, pattern, loc, threshold)
      && RowWindow(dmp, 0, loc, |pattern|, |pattern| + |text|, threshold, mid)
      && FirstRowDecides(dmp, text, pattern, loc, threshold, mid, r);
    if r == -1 { BehindInWindow(dmp, text, pattern, loc, x, threshold, mid); }
  }

  /** With no exact match ahead, something is found when a stretch within `d` edits of the pattern
      scores within the threshold, and so does its end. */
  lemma NearSeen(dmp: Settings, text: Text, pattern: Text, loc: nat, d: nat, x: int, e: int, r: int)
    requires pattern != [] && dmp.matchDistance >= 0 && loc <= |text| && Decided(dmp, text, pattern, loc, r)
    requires IndexOf(text, pattern, loc) == -1 && d < |pattern|
    requires 0 <= x <= e <= |text| && Levenshtein(pattern, text[x..e]) <= d
    requires BitapScore(dmp, d, x, loc, |pattern|) <= dmp.matchThreshold
    requires e <= loc || BitapScore(dmp, d, e, loc, |pattern|) <= dmp.matchThreshold
    ensures r != -1
  {
    hide FirstRowDecides, BitapScore, Levenshtein, Nearest, WithinThreshold, RowMissed;
    var threshold, mid :| StartsFrom(dmp, text, pattern, loc, threshold)
      && RowWindow(dmp, 0, loc, |pattern|, |pattern| + |text|, threshold, mid)
      && FirstRowDecides(dmp, text, pattern, loc, threshold, mid, r)
      && (r == -1 && loc <= |text| ==> RowsMissed(dmp, text, pattern, loc, threshold, |pattern|));
    if r == -1 { NotMissed(dmp, text, pattern, loc, threshold, d, x, e); }
  }

  lemma NotMissed(dmp: Settings, text: Text, pattern: Text, loc: nat, threshold: real, d: nat, x: int, e: int)
    requires pattern != [] && dmp.matchDistance >= 0 && loc <= |text| && d <= |pattern|
    requires 0 <= x <= e <= |text| && Levenshtein(pattern, text[x..e]) <= d
    requires BitapScore(dmp, d, x, loc, |pattern|) <= threshold
    requires e <= loc || BitapScore(dmp, d, e, loc, |pattern|) <= threshold
    ensures !RowMissed(dmp, text, pattern, loc, threshold, d)
  {
    hide BitapScore, Levenshtein;
    forall w: nat | MissedPast(dmp, text, pattern, loc, threshold, d, w) ensures e <= loc + w {
      if e - loc > w { NotFartherAhead(dmp, d, w + 1, e - loc, loc, |pattern|); }
    }
  }

  lemma BehindInWindow(dmp: Settings, text: Text, pattern: Text, loc: nat, x: int, threshold: real, mid: nat)
    requires pattern != [] && dmp.matchDistance >= 0 && loc <= |text|
    requires StartsFrom(dmp, text, pattern, loc, threshold) && IndexOf(text, pattern, loc) == -1
    requires RowWindow(dmp, 0, loc, |pattern|, |pattern| + |text|, threshold, mid)
    requires ExactWithin(dmp, text, pattern, loc, dmp.matchThreshold, x)
    requires x + |pattern| <= loc || BitapScore(dmp, 0, x + |pattern|, loc, |pattern|) <= dmp.matchThreshold
    ensures !FirstRowDecides(dmp, text, pattern, loc, threshold, mid, -1)
  {
    hide Nearest, WithinThreshold;
    assert ExactWithin(dmp, text, pattern, loc, threshold, x);
    var n := x + |pattern| - loc;
    if n > mid { NotFartherAhead(dmp, 0, mid + 1, n, loc, |pattern|); }
  }

  lemma NotFartherAhead(dmp: Settings, d: nat, m: nat, n: nat, loc: int, length: nat)
    requires length > 0 && dmp.matchDistance >= 0 && m <= n && d <= length
    ensures BitapScore(dmp, d, loc + m, loc, length) <= BitapScore(dmp, d, loc + n, loc, length)
  {
    if dmp.matchDistance == 0 {
      LooseScore(dmp, d, loc + m, loc, length);
      LooseScore(dmp, d, loc + n, loc, length);
    }
    if m < n && dmp.matchDistance > 0 { FractionLess(m, n, dmp.matchDistance); }
  }

  // ----- a nearest exact match that is not found -----

  /** In 1, 1, 2, 3 the pattern 2, 3 stands two units past the start. Looking from the start
      with a threshold of one half and a distance of 1000 finds nothing. */
  lemma MissedAhead(dmp: Settings, r: int)
    requires dmp.matchThreshold == 0.5 && dmp.matchDistance == 1000
    requires var text, pattern: Text := [1, 1, 2, 3], [2, 3];
             Acceptable(dmp, text, pattern, 0, r) && NotPast(text, pattern, 0, r)
    ensures Nearest(dmp, [1, 1, 2, 3], [2, 3], 0, 2) && r == -1
  {
    var text, pattern: Text := [1, 1, 2, 3], [2, 3];
    assert text[2..2 + |pattern|] == pattern;
    assert OccursAt(text, pattern, 2);
    assert forall y :: OccursAt(text, pattern, y) ==> y == 2 by {
      forall y | OccursAt(text, pattern, y) ensures y == 2 {
        assert text[y..y + 2][0] == text[y] && pattern[0] == 2;
      }
    }
    assert Nearest(dmp, text, pattern, 0, 2);
  }

  function Clamp(loc: int, n: nat): nat {
    if loc < 0 then 0 else if loc > n then n else loc
  }

  /** Nothing to search for: the texts are equal, or one has nothing in it, or the pattern
      stands where it is expected. */
  predicate Shortcut(text: Text, pattern: Text, loc: int) {
    text == pattern || text == [] || OccursAt(text, pattern, Clamp(loc, |text|))
  }

  /** The settings do not let the search have the pattern; 0 means that there is no limit. */
  predicate TooLong(dmp: Settings, pattern: Text) {
    dmp.matchMaxBits != 0 && |pattern| > dmp.matchMaxBits
  }

  /** Finds the pattern near `loc`: exactly there when it occurs there, and otherwise by
      fuzzy search, which refuses patterns longer than the settings allow. What it does not
      refuse must fit a word. */
  method MatchMain(dmp: Settings, text: Text, pattern: Text, loc: int) returns (r: Result<int>)
    requires dmp.matchDistance >= 0
    requires Shortcut(text, pattern, loc) || TooLong(dmp, pattern) || |pattern| <= WORD_BITS
    ensures OccursAt(text, pattern, Clamp(loc, |text|)) ==> r == Ok(Clamp(loc, |text|))
    ensures r.Throws? <==> !Shortcut(text, pattern, loc) && TooLong(dmp, pattern)
    ensures r == Ok(-1) && pattern != [] ==>
              forall x :: Nearest(dmp, text, pattern, Clamp(loc, |text|), x) ==>
                            !Visible(pattern, Clamp(loc, |text|), x)
    ensures r.Ok? && !Loose(dmp, dmp.matchThreshold) ==>
              NotPast(text, pattern, Clamp(loc, |text|), r.value)
    ensures r.Ok? && pattern != [] && !Shortcut(text, pattern, loc) ==>
              Decided(dmp, text, pattern, Clamp(loc, |text|), r.value)
    ensures r.Ok? && r.value != -1 ==>
              0 <= r.value <= |text|
              && (OccursAt(text, pattern, r.value)
                  || (pattern != [] && Acceptable(dmp, text, pattern, Clamp(loc, |text|), r.value)))
  {
    var loc' := Clamp(loc, |text|);
    if text == pattern {
      return Ok(0);
    }
    if text == [] {
      return Ok(-1);
    }
    if loc' + |pattern| <= |text| && Mid(text, loc', |pattern|) == pattern {
      return Ok(loc');
    }
    if !(dmp.matchMaxBits == 0 || |pattern| <= dmp.matchMaxBits) {
      return Throws;
    }
    assert pattern != [] by {
      assert text[loc'..loc'] == [];
    }
    var x := MatchBitap(dmp, text, pattern, loc');
    AcceptableInside(dmp, text, pattern, loc', x);
    r := Ok(x);
  }

  lemma AcceptableInside(dmp: Settings, text: Text, pattern: Text, loc: nat, x: int)
    requires pattern != [] && Acceptable(dmp, text, pattern, loc, x)
    ensures x == -1 || 0 <= x < |text|
  {
  }
}
