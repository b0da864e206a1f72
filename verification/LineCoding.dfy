/** Encodes each distinct line of two texts as one unit, and decodes it again. */
module LineCoding {
  import opened Texts
  import opened Diffs
  import opened ListCursor

  // ----- lines -----

  /** Where the line starting at `start` ends. */
  function LineEnd(text: Text, start: nat): (e: nat)
    requires start < |text|
    ensures start < e <= |text|
    ensures e < |text| ==> text[e - 1] == NEWLINE
    ensures forall i :: start <= i < e - 1 ==> text[i] != NEWLINE
  {
    var n := IndexOf(text, [NEWLINE], start);
    assert forall i :: start <= i < |text| && text[i] == NEWLINE ==> OccursAt(text, [NEWLINE], i);
    if n == -1 then |text| else n + 1
  }

  /** The lines of the text from `start`, each with its newline. */
  function Lines(text: Text, start: nat): seq<Text>
    requires start <= |text|
    decreases |text| - start
  {
    if start == |text| then []
    else [text[start..LineEnd(text, start)]] + Lines(text, LineEnd(text, start))
  }

  function Joined(lines: seq<Text>): Text {
    if lines == [] then [] else lines[0] + Joined(lines[1..])
  }

  lemma {:induction false} LinesJoin(text: Text, start: nat)
    requires start <= |text|
    ensures Joined(Lines(text, start)) == text[start..]
    decreases |text| - start
  {
    if start < |text| {
      var e := LineEnd(text, start);
      LinesJoin(text, e);
      assert text[start..] == text[start..e] + text[e..];
    }
  }

  /** The distinct lines of a text. */
  function LineSet(text: Text): set<Text> {
    set l | l in Lines(text, 0)
  }

  // ----- codes -----

  const CODES := 0x10000

  /** A line number squeezed into one unit. */
  function Code(n: nat): QChar {
    (n % CODES) as QChar
  }

  /** The line a unit stands for; out of range it is blank. */
  function LineAt(lineArray: seq<Text>, c: QChar): Text {
    if c as int < |lineArray| then lineArray[c as int] else []
  }

  function Decode(chars: Text, lineArray: seq<Text>): Text {
    if chars == [] then [] else LineAt(lineArray, chars[0]) + Decode(chars[1..], lineArray)
  }

  lemma {:induction false} DecodeConcat(a: Text, b: Text, lineArray: seq<Text>)
    ensures Decode(a + b, lineArray) == Decode(a, lineArray) + Decode(b, lineArray)
  {
    if a == [] {
      assert a + b == b;
    } else {
      assert (a + b)[1..] == a[1..] + b;
      DecodeConcat(a[1..], b, lineArray);
    }
  }

  /** The hash numbers exactly the lines of the array, which starts with a blank. */
  ghost predicate Indexed(lineArray: seq<Text>, lineHash: map<Text, nat>) {
    && lineArray != [] && lineArray[0] == [] && |lineHash| == |lineArray| - 1
    && (forall l :: l in lineHash ==> 0 < lineHash[l] < |lineArray| && lineArray[lineHash[l]] == l)
    && (forall i :: 0 < i < |lineArray| ==> lineArray[i] in lineHash && lineHash[lineArray[i]] == i)
  }

  ghost predicate Coded(chars: Text, lines: seq<Text>, lineHash: map<Text, nat>) {
    && |chars| == |lines|
    && forall k :: 0 <= k < |lines| ==> lines[k] in lineHash && chars[k] == Code(lineHash[lines[k]])
  }

  /** Line `i` makes its first appearance at position `k`. */
  ghost predicate FirstAt(lines: seq<Text>, lineHash: map<Text, nat>, i: int, k: int) {
    && 0 <= k < |lines| && lines[k] in lineHash && lineHash[lines[k]] == i
    && forall j :: 0 <= j < k ==> lines[j] in lineHash && lineHash[lines[j]] < i
  }

  ghost predicate Met(lines: seq<Text>, lineHash: map<Text, nat>, i: int) {
    exists k :: FirstAt(lines, lineHash, i, k)
  }

  /** The lines numbered from `n` on were met in order. */
  ghost predicate MetInOrder(lines: seq<Text>, lineArray: seq<Text>, lineHash: map<Text, nat>, n: int) {
    forall i :: n <= i < |lineArray| ==> Met(lines, lineHash, i)
  }

  /** The state of an encoding that has consumed `lines`. */
  ghost predicate Munged(lines: seq<Text>, chars: Text, lineArray: seq<Text>, lineHash: map<Text, nat>,
                         lineArray0: seq<Text>, lineHash0: map<Text, nat>)
  {
    && Indexed(lineArray, lineHash) && Coded(chars, lines, lineHash)
    && lineHash.Keys == lineHash0.Keys + (set l | l in lines)
    && lineArray0 <= lineArray && MetInOrder(lines, lineArray, lineHash, |lineArray0|)
  }

  lemma MungedStart(lineArray: seq<Text>, lineHash: map<Text, nat>)
    requires Indexed(lineArray, lineHash)
    ensures Munged([], [], lineArray, lineHash, lineArray, lineHash)
  {
  }

  lemma MetKept(lines: seq<Text>, lineHash: map<Text, nat>, line: Text, lineHash': map<Text, nat>)
    requires forall l :: l in lineHash ==> l in lineHash' && lineHash'[l] == lineHash[l]
    ensures forall i :: Met(lines, lineHash, i) ==> Met(lines + [line], lineHash', i)
  {
    forall i | Met(lines, lineHash, i) ensures Met(lines + [line], lineHash', i) {
      var k :| FirstAt(lines, lineHash, i, k);
      assert forall j :: 0 <= j <= k ==> (lines + [line])[j] == lines[j];
      assert FirstAt(lines + [line], lineHash', i, k);
    }
  }

  lemma MungedOld(lines: seq<Text>, chars: Text, lineArray: seq<Text>, lineHash: map<Text, nat>,
                  lineArray0: seq<Text>, lineHash0: map<Text, nat>, line: Text)
    requires Munged(lines, chars, lineArray, lineHash, lineArray0, lineHash0) && line in lineHash
    ensures Munged(lines + [line], chars + [Code(lineHash[line])], lineArray, lineHash, lineArray0, lineHash0)
  {
    MetKept(lines, lineHash, line, lineHash);
  }

  lemma MungedNew(lines: seq<Text>, chars: Text, lineArray: seq<Text>, lineHash: map<Text, nat>,
                  lineArray0: seq<Text>, lineHash0: map<Text, nat>, line: Text)
    requires Munged(lines, chars, lineArray, lineHash, lineArray0, lineHash0) && line !in lineHash
    ensures Munged(lines + [line], chars + [Code(|lineArray|)], lineArray + [line],
                   lineHash[line := |lineArray|], lineArray0, lineHash0)
  {
    IndexedNew(lineArray, lineHash, line);
    CodedNew(lines, chars, lineHash, line, |lineArray|);
    KeysNew(lines, lineHash, lineHash0, line, |lineArray|);
    MetNew(lines, lineArray, lineHash, line, |lineArray0|);
    hide Indexed, Coded, MetInOrder;
  }

  lemma IndexedNew(lineArray: seq<Text>, lineHash: map<Text, nat>, line: Text)
    requires Indexed(lineArray, lineHash) && line !in lineHash
    ensures Indexed(lineArray + [line], lineHash[line := |lineArray|])
  {
  }

  lemma CodedNew(lines: seq<Text>, chars: Text, lineHash: map<Text, nat>, line: Text, n: nat)
    requires Coded(chars, lines, lineHash) && line !in lineHash
    ensures Coded(chars + [Code(n)], lines + [line], lineHash[line := n])
  {
  }

  lemma KeysNew(lines: seq<Text>, lineHash: map<Text, nat>, lineHash0: map<Text, nat>, line: Text, n: nat)
    requires lineHash.Keys == lineHash0.Keys + (set l | l in lines)
    ensures lineHash[line := n].Keys == lineHash0.Keys + (set l | l in lines + [line])
  {
    assert (set l | l in lines + [line]) == (set l | l in lines) + {line};
  }

  lemma MetNew(lines: seq<Text>, lineArray: seq<Text>, lineHash: map<Text, nat>, line: Text, n: int)
    requires Indexed(lineArray, lineHash) && MetInOrder(lines, lineArray, lineHash, n) && line !in lineHash
    requires forall l :: l in lines ==> l in lineHash
    ensures MetInOrder(lines + [line], lineArray + [line], lineHash[line := |lineArray|], n)
  {
    var hash := lineHash[line := |lineArray|];
    MetKept(lines, lineHash, line, hash);
    assert forall j :: 0 <= j < |lines| ==> (lines + [line])[j] == lines[j];
    assert FirstAt(lines + [line], hash, |lineArray|, |lines|);
    assert Met(lines + [line], hash, |lineArray|);
  }

  /** Encodes one line, giving it a number if it is new. */
  method EncodeLine(line: Text, chars: Text, lineArray: seq<Text>, lineHash: map<Text, nat>,
                    ghost lines: seq<Text>, ghost lineArray0: seq<Text>, ghost lineHash0: map<Text, nat>)
    returns (chars': Text, lineArray': seq<Text>, lineHash': map<Text, nat>)
    requires Munged(lines, chars, lineArray, lineHash, lineArray0, lineHash0)
    ensures Munged(lines + [line], chars', lineArray', lineHash', lineArray0, lineHash0)
  {
    hide Munged;
    if line in lineHash {
      MungedOld(lines, chars, lineArray, lineHash, lineArray0, lineHash0, line);
      chars', lineArray', lineHash' := chars + [Code(lineHash[line])], lineArray, lineHash;
    } else {
      MungedNew(lines, chars, lineArray, lineHash, lineArray0, lineHash0, line);
      lineArray' := lineArray + [line];
      lineHash' := lineHash[line := |lineArray'| - 1];
      chars' := chars + [Code(|lineArray'| - 1)];
    }
  }

  lemma LinesStep(text: Text, start: nat)
    requires start < |text|
    ensures Lines(text, start) == [text[start..LineEnd(text, start)]] + Lines(text, LineEnd(text, start))
  {
  }

  lemma LinesEnd(text: Text)
    ensures Lines(text, |text|) == []
  {
  }

  /** Encodes one text, adding its new lines to the array and the hash. */
  method LinesToCharsMunge(text: Text, lineArray: seq<Text>, lineHash: map<Text, nat>)
    returns (chars: Text, lineArray': seq<Text>, lineHash': map<Text, nat>)
    requires Indexed(lineArray, lineHash)
    ensures Munged(Lines(text, 0), chars, lineArray', lineHash', lineArray, lineHash)
  {
    hide Munged, Indexed, Lines;
    LinesEnd(text);
    chars, lineArray', lineHash' := [], lineArray, lineHash;
    var lineStart: nat, lineEnd: int := 0, -1;
    ghost var lines: seq<Text> := [];
    assert [] + Lines(text, 0) == Lines(text, 0);
    MungedStart(lineArray, lineHash);
    while lineEnd < |text| - 1
      invariant lineStart == lineEnd + 1 <= |text|
      invariant Lines(text, 0) == lines + Lines(text, lineStart)
      invariant Munged(lines, chars, lineArray', lineHash', lineArray, lineHash)
      decreases |text| - lineStart
    {
      ghost var e := LineEnd(text, lineStart);
      lineEnd := IndexOf(text, [NEWLINE], lineStart);
      if lineEnd == -1 {
        lineEnd := |text| - 1;
      }
      var line := text[lineStart..lineEnd + 1];
      LinesStep(text, lineStart);
      assert lines + ([line] + Lines(text, e)) == lines + [line] + Lines(text, e);
      lineStart := lineEnd + 1;
      chars, lineArray', lineHash' :=
        EncodeLine(line, chars, lineArray', lineHash', lines, lineArray, lineHash);
      lines := lines + [line];
    }
    assert lines + [] == lines;
  }

  // ----- what decoding gives back -----

  function DistinctLines(text1: Text, text2: Text): set<Text> {
    LineSet(text1) + LineSet(text2)
  }

  /** Decoding exact codes gives the lines back. */
  lemma {:induction false} DecodeExact(chars: Text, lines: seq<Text>, lineArray: seq<Text>)
    requires |chars| == |lines|
    requires forall k :: 0 <= k < |lines| ==> LineAt(lineArray, chars[k]) == lines[k]
    ensures Decode(chars, lineArray) == Joined(lines)
  {
    if chars != [] {
      DecodeExact(chars[1..], lines[1..], lineArray);
    }
  }

  lemma {:induction false} JoinedConcat(a: seq<Text>, b: seq<Text>)
    ensures Joined(a + b) == Joined(a) + Joined(b)
  {
    if a == [] {
      assert a + b == b;
    } else {
      assert (a + b)[1..] == a[1..] + b;
      JoinedConcat(a[1..], b);
    }
  }

  ghost function Newlines(text: Text): nat {
    if text == [] then 0 else (if text[0] == NEWLINE then 1 else 0) + Newlines(text[1..])
  }

  lemma {:induction false} NewlinesConcat(a: Text, b: Text)
    ensures Newlines(a + b) == Newlines(a) + Newlines(b)
  {
    if a == [] {
      assert a + b == b;
    } else {
      assert (a + b)[1..] == a[1..] + b;
      NewlinesConcat(a[1..], b);
    }
  }

  predicate EndsLine(text: Text) {
    text != [] && text[|text| - 1] == NEWLINE
  }

  /** How many units stand after the last newline. */
  ghost function LastLength(text: Text): nat {
    if text == [] || EndsLine(text) then 0 else LastLength(text[..|text| - 1]) + 1
  }

  lemma {:induction false} LastConcat(a: Text, b: Text)
    ensures LastLength(a + b) == if Newlines(b) > 0 then LastLength(b) else LastLength(a) + |b|
  {
    if b == [] {
      assert a + b == a;
    } else {
      var init, c := b[..|b| - 1], b[|b| - 1];
      assert b == init + [c] && (a + b)[..|a + b| - 1] == a + init && (a + b)[|a + b| - 1] == c;
      NewlinesConcat(init, [c]);
      assert Newlines([c]) == (if c == NEWLINE then 1 else 0) + Newlines([]);
      if c != NEWLINE { LastConcat(a, init); }
    }
  }

  /** Fewer newlines, or as many and less after the last one. */
  ghost predicate Below(d: Text, t: Text) {
    Newlines(d) < Newlines(t) || (Newlines(d) == Newlines(t) && LastLength(d) < LastLength(t))
  }

  lemma BelowAfter(p: Text, q: Text, d: Text, t: Text)
    requires !Below(q, p) && Below(d, t)
    ensures Below(p + d, q + t)
  {
    NewlinesConcat(p, d);
    NewlinesConcat(q, t);
    LastConcat(p, d);
    LastConcat(q, t);
    if Newlines(t) == 0 {
      LastConcat([], d);
      LastConcat([], t);
      assert [] + d == d && [] + t == t;
    }
  }

  /** Not blank, and no newline but at the end. */
  predicate IsLine(l: Text) {
    l != [] && forall j :: 0 <= j < |l| - 1 ==> l[j] != NEWLINE
  }

  lemma {:induction false} LineNewlines(l: Text)
    requires IsLine(l)
    ensures Newlines(l) == if EndsLine(l) then 1 else 0
  {
    if |l| > 1 {
      assert forall j :: 0 <= j < |l[1..]| - 1 ==> l[1..][j] == l[j + 1];
      LineNewlines(l[1..]);
    } else {
      assert l[1..] == [];
    }
  }

  ghost predicate AreLines(lines: seq<Text>) {
    && (forall k :: 0 <= k < |lines| ==> IsLine(lines[k]))
    && (forall k :: 0 <= k < |lines| - 1 ==> EndsLine(lines[k]))
  }

  lemma {:induction false} LinesAreLines(text: Text, start: nat)
    requires start <= |text|
    ensures AreLines(Lines(text, start))
    decreases |text| - start
  {
    if start < |text| {
      var e := LineEnd(text, start);
      LinesAreLines(text, e);
      var line, rest := text[start..e], Lines(text, e);
      assert IsLine(line);
      assert rest != [] ==> EndsLine(line);
    }
  }

  /** Lines hold a newline each, but for the last, which then does not end in one. */
  lemma {:induction false} JoinedNewlines(lines: seq<Text>)
    requires AreLines(lines) && lines != []
    ensures Joined(lines) != [] && Newlines(Joined(lines)) >= |lines| - 1
    ensures Newlines(Joined(lines)) == |lines| - 1 ==> !EndsLine(Joined(lines))
  {
    LineNewlines(lines[0]);
    NewlinesConcat(lines[0], Joined(lines[1..]));
    if |lines| > 1 {
      assert AreLines(lines[1..]);
      JoinedNewlines(lines[1..]);
    } else {
      assert lines[0] + [] == lines[0];
    }
  }

  ghost predicate HoldsLines(lineArray: seq<Text>) {
    forall i :: 0 <= i < |lineArray| ==> lineArray[i] == [] || IsLine(lineArray[i])
  }

  lemma NoNewlines()
    ensures Newlines([]) == 0
  {
  }

  /** Decoding yields at most a newline a unit; with as many it ends in one. */
  lemma {:induction false} DecodeNewlines(chars: Text, lineArray: seq<Text>)
    requires HoldsLines(lineArray)
    ensures Newlines(Decode(chars, lineArray)) <= |chars|
    ensures chars != [] && Newlines(Decode(chars, lineArray)) == |chars| ==> EndsLine(Decode(chars, lineArray))
  {
    if chars != [] {
      var l, rest := LineAt(lineArray, chars[0]), Decode(chars[1..], lineArray);
      DecodeNewlines(chars[1..], lineArray);
      assert Decode(chars, lineArray) == l + rest;
      if l != [] { LineNewlines(l); }
      NewlinesConcat(l, rest);
      hide Newlines, Decode;
      if rest == [] { assert l + rest == l; } else { assert (l + rest)[|l + rest| - 1] == rest[|rest| - 1]; }
      if l == [] { assert l + rest == rest; NoNewlines(); }
    }
  }

  ghost predicate Numbers(lineArray: seq<Text>, lineHash: map<Text, nat>) {
    forall l :: l in lineHash ==> 0 < lineHash[l] < |lineArray| && lineArray[lineHash[l]] == l
  }

  /** The line that needs one code too many is lost, and nothing after it makes up for it:
      newlines are missing, or units of the last line. */
  lemma Overflow(lines: seq<Text>, chars: Text, lineArray: seq<Text>, lineHash: map<Text, nat>, k: int)
    requires AreLines(lines) && Coded(chars, lines, lineHash) && FirstAt(lines, lineHash, CODES, k)
    requires HoldsLines(lineArray) && lineArray != [] && lineArray[0] == []
    requires Numbers(lineArray, lineHash)
    ensures Below(Decode(chars, lineArray), Joined(lines))
  {
    hide Numbers, HoldsLines, Decode, Joined, Below;
    CutAtCode(chars, lines, lineArray, k);
    OverflowBefore(lines, chars, lineArray, lineHash, k);
    OverflowAfter(lines[k..], chars[k + 1..], lineArray);
    NotBelowSelf(Joined(lines[..k]));
    BelowAfter(Joined(lines[..k]), Joined(lines[..k]), Decode(chars[k + 1..], lineArray), Joined(lines[k..]));
  }

  lemma NotBelowSelf(t: Text)
    ensures !Below(t, t)
  {
  }

  lemma CutAtCode(chars: Text, lines: seq<Text>, lineArray: seq<Text>, k: int)
    requires 0 <= k < |chars| == |lines| && chars[k] == 0 && lineArray != [] && lineArray[0] == []
    ensures Decode(chars, lineArray) == Decode(chars[..k], lineArray) + Decode(chars[k + 1..], lineArray)
    ensures Joined(lines) == Joined(lines[..k]) + Joined(lines[k..])
  {
    var tail := chars[k..];
    assert chars == chars[..k] + tail && tail[1..] == chars[k + 1..];
    DecodeConcat(chars[..k], tail, lineArray);
    assert Decode(tail, lineArray) == [] + Decode(tail[1..], lineArray) == Decode(tail[1..], lineArray);
    assert lines == lines[..k] + lines[k..];
    JoinedConcat(lines[..k], lines[k..]);
  }

  lemma OverflowBefore(lines: seq<Text>, chars: Text, lineArray: seq<Text>, lineHash: map<Text, nat>, k: int)
    requires Coded(chars, lines, lineHash) && FirstAt(lines, lineHash, CODES, k)
    requires Numbers(lineArray, lineHash)
    ensures Decode(chars[..k], lineArray) == Joined(lines[..k])
  {
    hide Numbers, LineAt, Code;
    forall j | 0 <= j < k ensures LineAt(lineArray, chars[..k][j]) == lines[..k][j] {
      LineOfCode(lineArray, lineHash, lines[j]);
    }
    DecodeExact(chars[..k], lines[..k], lineArray);
  }

  lemma LineOfCode(lineArray: seq<Text>, lineHash: map<Text, nat>, l: Text)
    requires Numbers(lineArray, lineHash) && l in lineHash && lineHash[l] < CODES
    ensures LineAt(lineArray, Code(lineHash[l])) == l
  {
  }

  lemma OverflowAfter(lines: seq<Text>, after: Text, lineArray: seq<Text>)
    requires AreLines(lines) && |lines| == |after| + 1 && HoldsLines(lineArray)
    ensures Below(Decode(after, lineArray), Joined(lines))
  {
    JoinedNewlines(lines);
    DecodeNewlines(after, lineArray);
  }

  lemma DecodesWithinRange(text: Text, chars: Text, lineArray: seq<Text>, lineHash: map<Text, nat>)
    requires Coded(chars, Lines(text, 0), lineHash) && Numbers(lineArray, lineHash)
    requires forall l :: l in Lines(text, 0) && l in lineHash ==> lineHash[l] < CODES
    ensures Decode(chars, lineArray) == text
  {
    hide Lines, LineAt, Code;
    var lines := Lines(text, 0);
    forall k | 0 <= k < |lines| ensures LineAt(lineArray, chars[k]) == lines[k] {
      LineOfCode(lineArray, lineHash, lines[k]);
    }
    hide Numbers, Coded;
    DecodeExact(chars, lines, lineArray);
    LinesJoin(text, 0);
    assert text[0..] == text;
  }

  lemma DecodesOutOfRange(text: Text, chars: Text, lineArray: seq<Text>, lineHash: map<Text, nat>)
    requires Coded(chars, Lines(text, 0), lineHash) && Numbers(lineArray, lineHash)
    requires HoldsLines(lineArray) && lineArray != [] && lineArray[0] == []
    requires Met(Lines(text, 0), lineHash, CODES)
    ensures Below(Decode(chars, lineArray), text)
  {
    hide Below, Lines, Numbers, HoldsLines, Coded, FirstAt;
    var k :| FirstAt(Lines(text, 0), lineHash, CODES, k);
    LinesAreLines(text, 0);
    Overflow(Lines(text, 0), chars, lineArray, lineHash, k);
    LinesJoin(text, 0);
    assert text[0..] == text;
  }

  /** Every number up to that of one of the lines was given to one of the lines. */
  ghost predicate Contiguous(lines: seq<Text>, lineHash: map<Text, nat>) {
    forall l, i :: l in lines && l in lineHash && 1 <= i <= lineHash[l] ==> Met(lines, lineHash, i)
  }

  /** What an encoding of two texts amounts to. */
  ghost predicate Encoding(text1: Text, text2: Text, chars1: Text, chars2: Text, lineArray: seq<Text>,
                           hash: map<Text, nat>)
  {
    && Coded(chars1, Lines(text1, 0), hash) && Coded(chars2, Lines(text2, 0), hash)
    && Indexed(lineArray, hash) && hash.Keys == DistinctLines(text1, text2)
    && (forall i :: 1 <= i < |lineArray| ==> Met(Lines(text1, 0), hash, i) || Met(Lines(text2, 0), hash, i))
    && Contiguous(Lines(text1, 0), hash)
  }

  /** Decoding restores both texts exactly when they have at most 65535 distinct lines. */
  lemma DecodesIff(text1: Text, text2: Text, chars1: Text, chars2: Text, lineArray: seq<Text>, hash: map<Text, nat>)
    requires Encoding(text1, text2, chars1, chars2, lineArray, hash)
    ensures Decode(chars1, lineArray) == text1 && Decode(chars2, lineArray) == text2
            <==> |DistinctLines(text1, text2)| < CODES
  {
    hide Lines, Coded, Decode;
    assert Numbers(lineArray, hash);
    assert |hash.Keys| == |hash| == |lineArray| - 1;
    if |lineArray| <= CODES {
      DecodesWithinRange(text1, chars1, lineArray, hash);
      DecodesWithinRange(text2, chars2, lineArray, hash);
    } else {
      ArrayHoldsLines(text1, text2, lineArray, hash);
      if Met(Lines(text1, 0), hash, CODES) {
        DecodesOutOfRange(text1, chars1, lineArray, hash);
      } else {
        DecodesOutOfRange(text2, chars2, lineArray, hash);
      }
    }
  }

  lemma ArrayHoldsLines(text1: Text, text2: Text, lineArray: seq<Text>, hash: map<Text, nat>)
    requires Indexed(lineArray, hash) && hash.Keys == DistinctLines(text1, text2)
    ensures HoldsLines(lineArray)
  {
    hide Lines;
    LinesAreLines(text1, 0);
    LinesAreLines(text2, 0);
    forall i | 0 < i < |lineArray| ensures IsLine(lineArray[i]) {
      assert lineArray[i] in hash.Keys;
    }
  }

  /** The same unit stands for the same line, across both texts. */
  lemma CodesInjective(text1: Text, text2: Text, chars1: Text, chars2: Text, lineArray: seq<Text>,
                       hash: map<Text, nat>, i: nat, j: nat)
    requires Encoding(text1, text2, chars1, chars2, lineArray, hash) && |DistinctLines(text1, text2)| < CODES
    requires i < |chars1| && j < |chars2|
    ensures chars1[i] == chars2[j] <==> Lines(text1, 0)[i] == Lines(text2, 0)[j]
  {
    hide Lines;
    assert |hash.Keys| == |hash| == |lineArray| - 1;
    LineOfCode(lineArray, hash, Lines(text1, 0)[i]);
    LineOfCode(lineArray, hash, Lines(text2, 0)[j]);
  }

  lemma EncodingOfBoth(text1: Text, text2: Text, chars1: Text, chars2: Text, array1: seq<Text>, hash1: map<Text, nat>,
                       lineArray: seq<Text>, hash: map<Text, nat>)
    requires Munged(Lines(text1, 0), chars1, array1, hash1, [[]], map[])
    requires Munged(Lines(text2, 0), chars2, lineArray, hash, array1, hash1)
    ensures Encoding(text1, text2, chars1, chars2, lineArray, hash)
  {
    MungedParts(Lines(text1, 0), chars1, array1, hash1, [[]], map[]);
    MungedParts(Lines(text2, 0), chars2, lineArray, hash, array1, hash1);
    HashGrows(array1, hash1, lineArray, hash);
    CodedLater(chars1, Lines(text1, 0), hash1, hash);
    FirstContiguous(Lines(text1, 0), array1, hash1, hash);
    hide Lines, Met, Indexed, Coded, Munged, Contiguous;
    forall i | 1 <= i < |lineArray| ensures Met(Lines(text1, 0), hash, i) || Met(Lines(text2, 0), hash, i) {
      if i < |array1| { MetLater(Lines(text1, 0), hash1, hash, i); }
    }
    assert hash.Keys == DistinctLines(text1, text2);
  }

  lemma FirstContiguous(lines: seq<Text>, array1: seq<Text>, hash1: map<Text, nat>, hash: map<Text, nat>)
    requires Indexed(array1, hash1) && forall l :: l in hash1 ==> l in hash && hash[l] == hash1[l]
    requires hash1.Keys == (set l | l in lines) && MetInOrder(lines, array1, hash1, 1)
    ensures Contiguous(lines, hash)
  {
    hide Met;
    forall l, i | l in lines && l in hash && 1 <= i <= hash[l] ensures Met(lines, hash, i) {
      assert l in hash1.Keys;
      MetLater(lines, hash1, hash, i);
    }
  }

  lemma MungedParts(lines: seq<Text>, chars: Text, lineArray: seq<Text>, lineHash: map<Text, nat>,
                    lineArray0: seq<Text>, lineHash0: map<Text, nat>)
    requires Munged(lines, chars, lineArray, lineHash, lineArray0, lineHash0)
    ensures Indexed(lineArray, lineHash) && Coded(chars, lines, lineHash) && lineArray0 <= lineArray
    ensures lineHash.Keys == lineHash0.Keys + (set l | l in lines)
    ensures forall i :: |lineArray0| <= i < |lineArray| ==> Met(lines, lineHash, i)
  {
    hide Met, Indexed, Coded;
  }

  lemma CodedLater(chars: Text, lines: seq<Text>, hash1: map<Text, nat>, hash: map<Text, nat>)
    requires Coded(chars, lines, hash1) && forall l :: l in hash1 ==> l in hash && hash[l] == hash1[l]
    ensures Coded(chars, lines, hash)
  {
  }

  /** A longer array keeps the numbers of the lines it had. */
  lemma HashGrows(array1: seq<Text>, hash1: map<Text, nat>, lineArray: seq<Text>, hash: map<Text, nat>)
    requires Indexed(array1, hash1) && Indexed(lineArray, hash) && array1 <= lineArray
    ensures forall l :: l in hash1 ==> l in hash && hash[l] == hash1[l]
  {
    forall l | l in hash1 ensures l in hash && hash[l] == hash1[l] {
      assert lineArray[hash1[l]] == array1[hash1[l]] == l;
    }
  }

  lemma MetLater(lines: seq<Text>, lineHash: map<Text, nat>, lineHash': map<Text, nat>, i: int)
    requires forall l :: l in lineHash ==> l in lineHash' && lineHash'[l] == lineHash[l]
    requires Met(lines, lineHash, i)
    ensures Met(lines, lineHash', i)
  {
    var k :| FirstAt(lines, lineHash, i, k);
    assert FirstAt(lines, lineHash', i, k);
  }

  /** Encodes two texts over one array of lines. */
  method LinesToChars(text1: Text, text2: Text)
    returns (chars1: Text, chars2: Text, lineArray: seq<Text>, ghost hash: map<Text, nat>)
    ensures Encoding(text1, text2, chars1, chars2, lineArray, hash)
    ensures Decode(chars1, lineArray) == text1 && Decode(chars2, lineArray) == text2
            <==> |DistinctLines(text1, text2)| < CODES
  {
    hide Lines, Encoding, Decode, DistinctLines;
    var lineHash: map<Text, nat> := map[];
    lineArray := [[]];
    chars1, lineArray, lineHash := LinesToCharsMunge(text1, lineArray, lineHash);
    ghost var array1, hash1 := lineArray, lineHash;
    chars2, lineArray, lineHash := LinesToCharsMunge(text2, lineArray, lineHash);
    hash := lineHash;
    EncodingOfBoth(text1, text2, chars1, chars2, array1, hash1, lineArray, hash);
    DecodesIff(text1, text2, chars1, chars2, lineArray, hash);
  }

  // ----- decoding a diff -----

  ghost function Decoded(ds: seq<Diff>, lineArray: seq<Text>): (es: seq<Diff>)
    ensures |es| == |ds|
    ensures forall i :: 0 <= i < |ds| ==> es[i] == Diff(ds[i].operation, Decode(ds[i].text, lineArray))
  {
    seq(|ds|, i requires 0 <= i < |ds| => Diff(ds[i].operation, Decode(ds[i].text, lineArray)))
  }

  lemma {:induction false} DecodedTexts(ds: seq<Diff>, lineArray: seq<Text>)
    ensures Text1(Decoded(ds, lineArray)) == Decode(Text1(ds), lineArray)
    ensures Text2(Decoded(ds, lineArray)) == Decode(Text2(ds), lineArray)
  {
    if ds != [] {
      DecodedTexts(ds[1..], lineArray);
      assert Decoded(ds, lineArray)[1..] == Decoded(ds[1..], lineArray);
      DecodeConcat(if ds[0].operation == INSERT then [] else ds[0].text, Text1(ds[1..]), lineArray);
      DecodeConcat(if ds[0].operation == DELETE then [] else ds[0].text, Text2(ds[1..]), lineArray);
    }
  }

  /** Rehydrates one diff text. */
  method DecodeText(chars: Text, lineArray: seq<Text>) returns (text: Text)
    ensures text == Decode(chars, lineArray)
  {
    text := [];
    for y := 0 to |chars|
      invariant text == Decode(chars[..y], lineArray)
    {
      assert chars[..y + 1] == chars[..y] + [chars[y]];
      DecodeConcat(chars[..y], [chars[y]], lineArray);
      assert [chars[y]][1..] == [] && LineAt(lineArray, chars[y]) + [] == LineAt(lineArray, chars[y]);
      text := text + LineAt(lineArray, chars[y]);
    }
    assert chars[..|chars|] == chars;
  }

  /** Rehydrates every diff of a list in place. */
  method CharsToLines(c: Cursor<Diff>, lineArray: seq<Text>)
    requires c.Valid() && c.pos == 0
    modifies c
    ensures c.Valid() && c.items == Decoded(old(c.items), lineArray)
  {
    hide Decode;
    ghost var ds := c.items;
    while c.HasNext()
      invariant c.Valid() && |c.items| == |ds|
      invariant forall i :: 0 <= i < |ds| ==>
                  c.items[i] == if i < c.pos then Diff(ds[i].operation, Decode(ds[i].text, lineArray)) else ds[i]
      decreases |c.items| - c.pos
    {
      var d := c.Next();
      var text := DecodeText(d.text, lineArray);
      c.SetValue(Diff(d.operation, text));
    }
    assert c.items == Decoded(ds, lineArray);
  }

  // ----- substrings have hardly more lines -----

  ghost predicate Substring(a: Text, t: Text) {
    exists i :: OccursAt(t, a, i)
  }

  /** No two blocks of the texts have more distinct lines than there are codes. */
  ghost predicate FewLines(text1: Text, text2: Text) {
    forall a, b :: Substring(a, text1) && Substring(b, text2) ==> |DistinctLines(a, b)| < CODES
  }

  lemma Occurrence(t: Text, a: Text, i: int)
    requires OccursAt(t, a, i)
    ensures forall k {:trigger t[k]} :: i <= k < i + |a| ==> t[k] == a[k - i]
    ensures forall k {:trigger a[k]} :: 0 <= k < |a| ==> a[k] == t[i + k]
  {
    forall k | 0 <= k < |a| ensures a[k] == t[i + k] {
      assert t[i..i + |a|][k] == t[i + k];
    }
  }

  lemma SubstringTransitive(a: Text, b: Text, c: Text)
    requires Substring(a, b) && Substring(b, c)
    ensures Substring(a, c)
  {
    var i :| OccursAt(b, a, i);
    var j :| OccursAt(c, b, j);
    Occurrence(b, a, i);
    Occurrence(c, b, j);
    assert c[j + i..j + i + |a|] == a;
    assert OccursAt(c, a, j + i);
  }

  lemma FewLinesOfBlocks(text1: Text, text2: Text, a: Text, b: Text)
    requires FewLines(text1, text2) && Substring(a, text1) && Substring(b, text2)
    ensures FewLines(a, b)
  {
    forall x, y | Substring(x, a) && Substring(y, b) ensures |DistinctLines(x, y)| < CODES {
      SubstringTransitive(x, a, text1);
      SubstringTransitive(y, b, text2);
    }
  }

  lemma SliceIsSubstring(t: Text, i: nat, j: nat)
    requires i <= j <= |t|
    ensures Substring(t[i..j], t)
  {
    assert OccursAt(t, t[i..j], i);
  }

  /** A stretch between two line boundaries with no newline inside. */
  ghost predicate LineSpan(t: Text, start: nat, s: int, e: int) {
    && start <= s < e <= |t|
    && (s == start || t[s - 1] == NEWLINE) && (e == |t| || t[e - 1] == NEWLINE)
    && forall i :: s <= i < e - 1 ==> t[i] != NEWLINE
  }

  lemma {:induction false} SpanIsLine(t: Text, start: nat, s: int, e: int)
    requires start <= |t| && LineSpan(t, start, s, e)
    ensures t[s..e] in Lines(t, start)
    decreases |t| - start
  {
    var n := LineEnd(t, start);
    if s == start {
      assert e == n;
    } else {
      assert s >= n;
      SpanIsLine(t, n, s, e);
    }
  }

  lemma {:induction false} LineIsSpan(t: Text, start: nat, l: Text) returns (s: int, e: int)
    requires start <= |t| && l in Lines(t, start) && (start == 0 || t[start - 1] == NEWLINE)
    ensures LineSpan(t, 0, s, e) && t[s..e] == l && start <= s
    decreases |t| - start
  {
    var n := LineEnd(t, start);
    if l == t[start..n] {
      s, e := start, n;
    } else {
      assert l in Lines(t, n);
      s, e := LineIsSpan(t, n, l);
    }
  }

  /** Only the first and the last line of a block can be new. */
  lemma BlockLine(a: Text, t: Text, i: int, l: Text)
    requires OccursAt(t, a, i) && l in LineSet(a)
    ensures l in LineSet(t) || l == a[..LineEnd(a, 0)] || l == Lines(a, 0)[|Lines(a, 0)| - 1]
  {
    hide Lines;
    var s, e := LineIsSpan(a, 0, l);
    if s == 0 {
      assert e == LineEnd(a, 0);
    } else if e == |a| {
      LastLine(a, 0, s);
    } else {
      SpanMoved(a, t, i, s, e);
      SpanIsLine(t, 0, i + s, i + e);
    }
  }

  lemma SpanMoved(a: Text, t: Text, i: int, s: int, e: int)
    requires OccursAt(t, a, i) && LineSpan(a, 0, s, e) && 0 < s && e < |a|
    ensures LineSpan(t, 0, i + s, i + e) && t[i + s..i + e] == a[s..e]
  {
    Occurrence(t, a, i);
  }

  lemma {:induction false} LastLine(t: Text, start: nat, s: int)
    requires start <= |t| && LineSpan(t, start, s, |t|)
    ensures Lines(t, start) != [] && t[s..] == Lines(t, start)[|Lines(t, start)| - 1]
    decreases |t| - start
  {
    var n := LineEnd(t, start);
    if s > start {
      assert s >= n;
      LastLine(t, n, s);
    } else {
      assert n == |t|;
    }
  }

  lemma SubsetSize<T>(a: set<T>, b: set<T>)
    requires a <= b
    ensures |a| <= |b|
  {
    assert b == a + (b - a);
  }

  /** A caller can check one number: 65531 distinct lines are few enough for every block. */
  lemma FewLinesEnough(text1: Text, text2: Text)
    requires |DistinctLines(text1, text2)| <= CODES - 5
    ensures FewLines(text1, text2)
  {
    hide Lines;
    forall a, b | Substring(a, text1) && Substring(b, text2) ensures |DistinctLines(a, b)| < CODES {
      var extra1 := BlockExtra(a, text1);
      var extra2 := BlockExtra(b, text2);
      SubsetSize(DistinctLines(a, b), DistinctLines(text1, text2) + (extra1 + extra2));
    }
  }

  lemma BlockExtra(a: Text, t: Text) returns (extra: set<Text>)
    requires Substring(a, t)
    ensures LineSet(a) <= LineSet(t) + extra && |extra| <= 2
  {
    if a == [] {
      extra := {};
    } else {
      var i :| OccursAt(t, a, i);
      var x, y := a[..LineEnd(a, 0)], Lines(a, 0)[|Lines(a, 0)| - 1];
      extra := {x, y};
      forall l | l in LineSet(a) ensures l in LineSet(t) + extra {
        BlockLine(a, t, i, l);
      }
    }
  }
}
