/** The mutually recursive diff search: trim, shortcuts, half match, line mode, bisect. */
module DiffSearch {
  import opened Texts
  import opened Options
  import opened EngineSettings
  import opened Diffs
  import opened ListCursor
  import opened MergeCleanup
  import opened SemanticCleanup
  import opened EditDistance
  import opened Frontier
  import opened Deadlines
  import opened Bisect
  import opened HalfMatching
  import opened LineCoding
  import opened LineLoss
  import opened EncodedBlocks
  import opened CostCeiling
  import opened LineSteps

  /** What every part of the search returns: a list that turns one text into the other exactly
      when every pair of blocks encoded on the way fits. What it edits keeps under the ceiling
      that half matches set. Outside line mode, when no look at the clock was late, it is thrifty,
      and minimal if no half match was taken. */
  ghost predicate Solves(dmp: Settings, ds: seq<Diff>, text1: Text, text2: Text, checklines: bool, late: bool,
                         halved: bool) {
    var timed := dmp.diffTimeout > 0.0;
    && Accounts(ds, text1, text2)
    && (Transforms(ds, text1, text2) <==> LinesFit(text1, text2, checklines, timed))
    && (!LineMode(text1, text2, checklines) ==> Solid(ds, true))
    && (LinesFit(text1, text2, checklines, timed) ==> EditCost(ds) <= Ceiling(text1, text2, timed))
    && (!LineMode(text1, text2, checklines) && !late && !halved ==> EditCost(ds) <= Distance(text1, text2))
    && (!LineMode(text1, text2, checklines) && !late ==> Thrifty(text1, text2, timed, EditCost(ds)))
  }

  /** What a bisection returns. */
  ghost predicate Bisects(ds: seq<Diff>, text1: Text, text2: Text, timed: bool, late: bool, halved: bool) {
    && Transforms(ds, text1, text2) && Solid(ds, true)
    && (!late && !halved ==> EditCost(ds) <= Distance(text1, text2))
    && (!late ==> ThriftySplit(text1, text2, timed, EditCost(ds)))
  }

  lemma {:induction false} CostAtMost(ds: seq<Diff>)
    ensures EditCost(ds) <= |Text1(ds)| + |Text2(ds)|
  {
    if ds != [] {
      CostAtMost(ds[1..]);
      Unfolded(ds);
      hide Text1, Text2, EditCost;
    }
  }

  // ----- texts and costs of the shapes the search builds -----

  lemma ReplaceAll(a: Text, b: Text)
    ensures Transforms([Diff(DELETE, a), Diff(INSERT, b)], a, b)
    ensures EditCost([Diff(DELETE, a), Diff(INSERT, b)]) == |a| + |b|
  {
    PendingTexts(a, b);
  }

  lemma JustOne(d: Diff)
    requires d.operation != EQUAL
    ensures d.operation == INSERT ==> Transforms([d], [], d.text) && Distance([], d.text) == |d.text|
    ensures d.operation == DELETE ==> Transforms([d], d.text, []) && Distance(d.text, []) == |d.text|
    ensures EditCost([d]) == |d.text|
  {
    Single(d);
  }

  /** A text with `op` before and after it. */
  function Around(op: Operation, p: Text, shorttext: Text, q: Text): seq<Diff> {
    [Diff(op, p), Diff(EQUAL, shorttext), Diff(op, q)]
  }

  /** The shorter text inside the longer one. */
  lemma Inside(op: Operation, p: Text, shorttext: Text, q: Text)
    requires op != EQUAL
    ensures var ds, longtext := Around(op, p, shorttext, q), p + shorttext + q;
            && (op == DELETE ==> Transforms(ds, longtext, shorttext))
            && (op == INSERT ==> Transforms(ds, shorttext, longtext))
            && EditCost(ds) == |p| + |q|
            && EditCost(ds) <= Distance(longtext, shorttext)
            && EditCost(ds) <= Distance(shorttext, longtext)
            && (p != [] && shorttext != [] && q != [] ==> Solid(ds, true))
  {
    TripleTexts(Diff(op, p), Diff(EQUAL, shorttext), Diff(op, q));
    assert [] + shorttext + [] == shorttext;
    LengthBound(p + shorttext + q, shorttext);
    LengthBound(shorttext, p + shorttext + q);
    hide Distance, Text1, Text2, EditCost;
  }

  lemma InsideSolid(longtext: Text, shorttext: Text, i: nat)
    requires OccursAt(longtext, shorttext, i) && shorttext != []
    requires longtext[0] != shorttext[0] && longtext[|longtext| - 1] != shorttext[|shorttext| - 1]
    ensures 0 < i && i + |shorttext| < |longtext|
  {
    assert longtext[i..i + |shorttext|][0] == longtext[i];
    assert longtext[i..i + |shorttext|][|shorttext| - 1] == longtext[i + |shorttext| - 1];
  }

  lemma TransformsSolves(dmp: Settings, ds: seq<Diff>, a: Text, b: Text, checklines: bool)
    requires Transforms(ds, a, b) && LinesFit(a, b, checklines, dmp.diffTimeout > 0.0) && Solid(ds, true)
    requires EditCost(ds) <= Distance(a, b) && EditCost(ds) <= Ceiling(a, b, dmp.diffTimeout > 0.0)
    requires Thrifty(a, b, dmp.diffTimeout > 0.0, EditCost(ds))
    ensures forall late, halved :: Solves(dmp, ds, a, b, checklines, late, halved)
  {
    hide Transforms, LinesFit, Solid, Distance, EditCost, Ceiling, Thrifty;
    TransformsAccounts(ds, a, b);
  }

  lemma OneSolves(dmp: Settings, d: Diff, a: Text, b: Text, checklines: bool)
    requires d.operation != EQUAL && d.text != []
    requires if d.operation == INSERT then a == [] && b == d.text else a == d.text && b == []
    ensures forall late, halved :: Solves(dmp, [d], a, b, checklines, late, halved)
  {
    hide Transforms, Distance, EditCost, Solves, AllFit, Ceiling, Thrifty;
    JustOne(d);
    EmptyFits(a, b, dmp.diffTimeout > 0.0);
    InsideCeiling(a, b, dmp.diffTimeout > 0.0);
    ShortcutThrifty(a, b, dmp.diffTimeout > 0.0);
    EmptyInside(if d.operation == INSERT then b else a);
    TransformsSolves(dmp, [d], a, b, checklines);
  }

  lemma EmptyInside(t: Text)
    ensures IndexOf(t, [], 0) != -1
  {
  }

  lemma ReplaceSolves(dmp: Settings, a: Text, b: Text, checklines: bool)
    requires a != [] && b != []
    requires Distance(a, b) == |a| + |b| || Distance(b, a) == |a| + |b|
    requires LinesFit(a, b, checklines, dmp.diffTimeout > 0.0) && Ceiling(a, b, dmp.diffTimeout > 0.0) == |a| + |b|
    requires Thrifty(a, b, dmp.diffTimeout > 0.0, |a| + |b|)
    ensures forall late, halved ::
              Solves(dmp, [Diff(DELETE, a), Diff(INSERT, b)], a, b, checklines, late, halved)
  {
    hide LinesFit, Solves, Ceiling, EditCost, Text1, Text2, Thrifty, Prefix;
    ReplaceAll(a, b);
    Symmetric(a, b, |a|, |b|);
    assert Distance(a, b) == |a| + |b|;
    hide Distance;
    TransformsSolves(dmp, [Diff(DELETE, a), Diff(INSERT, b)], a, b, checklines);
  }

  lemma PiecesSolve(dmp: Settings, a: Text, b: Text, op: Operation, p: Text, shorttext: Text, q: Text,
                    checklines: bool)
    requires if |a| > |b| then op == DELETE && a == p + shorttext + q && b == shorttext
             else op == INSERT && a == shorttext && b == p + shorttext + q
    requires p != [] && shorttext != [] && q != [] && LinesFit(a, b, checklines, dmp.diffTimeout > 0.0)
    requires Ceiling(a, b, dmp.diffTimeout > 0.0) == |p| + |q|
    requires Thrifty(a, b, dmp.diffTimeout > 0.0, |p| + |q|)
    ensures forall late, halved :: Solves(dmp, Around(op, p, shorttext, q), a, b, checklines, late, halved)
  {
    hide *;
    Inside(op, p, shorttext, q);
    TransformsSolves(dmp, Around(op, p, shorttext, q), a, b, checklines);
  }

  lemma TrimmedInside(a: Text, b: Text, longtext: Text, shorttext: Text, i: nat)
    requires Trimmed(a, b) && a != [] && b != [] && OccursAt(longtext, shorttext, i)
    requires if |a| > |b| then longtext == a && shorttext == b else longtext == b && shorttext == a
    ensures i + |shorttext| <= |longtext|
    ensures var p, q := longtext[..i], longtext[i + |shorttext|..];
            p != [] && q != [] && longtext == p + shorttext + q
  {
    InsideSolid(longtext, shorttext, i);
  }

  lemma LineModeSolves(dmp: Settings, ds: seq<Diff>, a: Text, b: Text)
    requires Accounts(ds, a, b) && LineMode(a, b, true)
    requires Transforms(ds, a, b) <==> AllFit(a, b, dmp.diffTimeout > 0.0)
    requires Ceiling(a, b, dmp.diffTimeout > 0.0) == |a| + |b|
    ensures forall late, halved :: Solves(dmp, ds, a, b, true, late, halved)
  {
    CostAtMost(ds);
  }

  lemma BisectsSolves(dmp: Settings, ds: seq<Diff>, a: Text, b: Text, checklines: bool, late: bool, halved: bool)
    requires Bisects(ds, a, b, dmp.diffTimeout > 0.0, late, halved)
    requires LinesFit(a, b, checklines, dmp.diffTimeout > 0.0) && Ceiling(a, b, dmp.diffTimeout > 0.0) == |a| + |b|
    requires var timed := dmp.diffTimeout > 0.0;
             forall cost :: ThriftySplit(a, b, timed, cost) ==> Thrifty(a, b, timed, cost)
    ensures Solves(dmp, ds, a, b, checklines, late, halved)
  {
    CostAtMost(ds);
    hide LinesFit, Ceiling, EditCost, Distance, Thrifty, ThriftySplit;
    TransformsAccounts(ds, a, b);
  }

  // ----- trimming -----

  /** Cuts off the common prefix, then the common suffix. */
  method Trim(text1: Text, text2: Text) returns (prefix: Text, a: Text, b: Text, suffix: Text)
    requires text1 != text2
    ensures text1 == prefix + a + suffix && text2 == prefix + b + suffix && Trimmed(a, b)
    ensures (a, b) == Middles(text1, text2)
  {
    var n := CommonPrefix(text1, text2);
    prefix := text1[..n];
    var chopped1, chopped2 := text1[n..], text2[n..];
    assert text1 == prefix + chopped1 && text2 == prefix + chopped2;
    assert chopped1 != [] && chopped2 != [] ==> chopped1[0] != chopped2[0];
    assert n == PrefixLength(text1, text2);
    hide SharePrefix, PrefixLength, Middles;
    a, b, suffix := CutSuffix(chopped1, chopped2);
    MiddlesAre(text1, text2, n, a, b, suffix);
    TrimmedParts(prefix, chopped1, chopped2, a, b, suffix);
  }

  lemma TrimmedParts(p: Text, a: Text, b: Text, a': Text, b': Text, s: Text)
    requires a == a' + s && b == b' + s && EndsDiffer(a', b') && p + a != p + b
    requires a != [] && b != [] ==> a[0] != b[0]
    ensures p + a == p + a' + s && p + b == p + b' + s && Trimmed(a', b')
  {
    if a' != [] && b' != [] {
      assert a[0] == a'[0] && b[0] == b'[0];
    }
  }

  /** An equality, unless there is nothing to hold equal. */
  function Affix(text: Text): seq<Diff> {
    if text != [] then [Diff(EQUAL, text)] else []
  }

  lemma AffixTexts(prefix: Text, ds: seq<Diff>, suffix: Text)
    ensures Text1(Affix(prefix) + ds + Affix(suffix)) == prefix + Text1(ds) + suffix
    ensures Text2(Affix(prefix) + ds + Affix(suffix)) == prefix + Text2(ds) + suffix
    ensures EditCost(Affix(prefix) + ds + Affix(suffix)) == EditCost(ds)
    ensures Solid(ds, true) ==> Solid(Affix(prefix) + ds + Affix(suffix), true)
  {
    Concat3(Affix(prefix), ds, Affix(suffix));
    Single(Diff(EQUAL, prefix));
    Single(Diff(EQUAL, suffix));
  }

  lemma EqualSolves(dmp: Settings, text: Text, checklines: bool)
    ensures forall late, halved :: Solves(dmp, Affix(text), text, text, checklines, late, halved)
    ensures Tidy(Affix(text)) && Settled(Affix(text))
  {
    Single(Diff(EQUAL, text));
    TransformsAccounts(Affix(text), text, text);
  }

  /** Restoring what was trimmed and cleaning up keeps a solution a solution. */
  lemma RestoredSolves(dmp: Settings, prefix: Text, ds: seq<Diff>, suffix: Text, a: Text, b: Text, checklines: bool,
                       late: bool, halved: bool, es: seq<Diff>)
    requires Solves(dmp, ds, a, b, checklines, late, halved)
    requires var ds' := Affix(prefix) + ds + Affix(suffix);
             SameTexts(es, ds') && NoWorse(es, ds') && KeepsSolid(ds', es)
    requires var timed := dmp.diffTimeout > 0.0;
             LinesFit(prefix + a + suffix, prefix + b + suffix, checklines, timed)
             <==> LinesFit(a, b, checklines, timed)
    requires var timed := dmp.diffTimeout > 0.0;
             Ceiling(prefix + a + suffix, prefix + b + suffix, timed) == Ceiling(a, b, timed)
    requires var timed := dmp.diffTimeout > 0.0;
             forall cost :: Thrifty(a, b, timed, cost) ==>
                              Thrifty(prefix + a + suffix, prefix + b + suffix, timed, cost)
    ensures Solves(dmp, es, prefix + a + suffix, prefix + b + suffix, checklines, late, halved)
  {
    hide Accounts, LinesFit, Text1, Text2, Affix, Distance, Ceiling, Thrifty, EditCost, Solid;
    AffixTexts(prefix, ds, suffix);
    TrimmedDistance(prefix, a, b, suffix);
    RestoredAccounts(prefix, ds, suffix, a, b);
    if Thrifty(a, b, dmp.diffTimeout > 0.0, EditCost(ds)) {
      ThriftyLess(prefix + a + suffix, prefix + b + suffix, dmp.diffTimeout > 0.0, EditCost(ds), EditCost(es));
    }
    SameAccounts(es, Affix(prefix) + ds + Affix(suffix), prefix + a + suffix, prefix + b + suffix);
    hide Transforms, SameTexts;
  }

  lemma RestoredAccounts(prefix: Text, ds: seq<Diff>, suffix: Text, a: Text, b: Text)
    requires Accounts(ds, a, b)
    ensures var ds' := Affix(prefix) + ds + Affix(suffix);
            && Accounts(ds', prefix + a + suffix, prefix + b + suffix)
            && (Transforms(ds', prefix + a + suffix, prefix + b + suffix) <==> Transforms(ds, a, b))
  {
    AffixAccounts(prefix);
    AffixAccounts(suffix);
    hide Accounts, Transforms, Affix;
    AccountsConcat(Affix(prefix), prefix, prefix, ds, a, b);
    AccountsConcat(Affix(prefix) + ds, prefix + a, prefix + b, Affix(suffix), suffix, suffix);
  }

  lemma AffixAccounts(text: Text)
    ensures Transforms(Affix(text), text, text) && Accounts(Affix(text), text, text)
  {
    Single(Diff(EQUAL, text));
  }

  lemma SameAccounts(es: seq<Diff>, ds: seq<Diff>, text1: Text, text2: Text)
    requires SameTexts(es, ds)
    ensures Accounts(es, text1, text2) <==> Accounts(ds, text1, text2)
    ensures Transforms(es, text1, text2) <==> Transforms(ds, text1, text2)
  {
  }

  // ----- the search -----

  /** Time is not limited: nothing is late, and no half match is looked for. */
  predicate Endless(dmp: Settings, deadline: Deadline) {
    dmp.diffTimeout <= 0.0 && deadline.Never?
  }

  /** If what trimming leaves is encoded line by line, the diff edits no more than what line mode
      makes of it. */
  ghost predicate MiddleByLines(dmp: Settings, text1: Text, text2: Text, deadline: Deadline, diffs: seq<Diff>) {
    var timed, r := dmp.diffTimeout > 0.0, Middles(text1, text2);
    text1 != text2 && Encoded(r.0, r.1, timed) ==>
      exists ds :: ByLines(dmp.boundaryScore, timed, Endless(dmp, deadline), r.0, r.1, ds)
                   && EditCost(diffs) <= EditCost(ds)
  }

  /** Finds the differences between two texts. Whatever the flags and whatever the clock
      shows, the search ends in merge-normal form. The result turns `text1` into `text2`
      exactly when every pair of blocks that line mode encodes fits the codes; `halved` tells
      whether outside line mode a half match was taken. */
  method DiffMain(dmp: Settings, text1: Text, text2: Text, checklines: bool, deadline: Deadline, clock: Clock)
    returns (diffs: seq<Diff>, ghost halved: bool)
    modifies clock
    ensures old(clock.looks) <= clock.looks
    ensures Solves(dmp, diffs, text1, text2, checklines,
                   WasLate(deadline, clock.readings, old(clock.looks), clock.looks), halved)
    ensures halved ==> HalvesIn(text1, text2, dmp.diffTimeout > 0.0)
    ensures checklines ==> MiddleByLines(dmp, text1, text2, deadline, diffs)
    ensures Tidy(diffs) && Settled(diffs)
    decreases checklines, |text1| + |text2|, 3
  {
    hide Solves, Tidy, Settled, Trimmed, KeepsSolid, AllFit, Ceiling, Middles, HalvesIn, Encoded, ByLines, WasLate,
      EditCost, Thrifty;
    if text1 == text2 {
      EqualSolves(dmp, text1, checklines);
      return Affix(text1), false;
    }
    var prefix, a, b, suffix := Trim(text1, text2);
    MiddlesFit(text1, text2, a, b, dmp.diffTimeout > 0.0);
    MiddlesCeiling(text1, text2, a, b, dmp.diffTimeout > 0.0);
    AllMiddlesThrifty(text1, text2, a, b, dmp.diffTimeout > 0.0);
    diffs, halved := DiffCompute(dmp, a, b, checklines, deadline, clock);
    if halved { MiddleHalves(text1, text2, dmp.diffTimeout > 0.0); }
    var c := new Cursor(Affix(prefix) + diffs + Affix(suffix));
    CleanupMerge(c);
    ghost var late := WasLate(deadline, clock.readings, old(clock.looks), clock.looks);
    RestoredSolves(dmp, prefix, diffs, suffix, a, b, checklines, late, halved, c.items);
    AffixTexts(prefix, diffs, suffix);
    diffs := c.items;
  }

  lemma MiddleHalves(text1: Text, text2: Text, timed: bool)
    requires var r := Middles(text1, text2); HalvesIn(r.0, r.1, timed)
    ensures HalvesIn(text1, text2, timed)
  {
    hide Middles, HalvesIn, Substring;
    MiddleBlocks(text1, text2);
    HalvesInBlocks(text1, text2, timed, Middles(text1, text2).0, Middles(text1, text2).1);
  }

  const CLOCKS_PER_SEC := 1000000

  /** The deadline for a search that starts when the clock shows `now`. */
  function DeadlineFrom(dmp: Settings, now: int): Deadline {
    if dmp.diffTimeout <= 0.0 then Never else By(now + (dmp.diffTimeout * CLOCKS_PER_SEC as real).Floor)
  }

  /** The entry point: sets the deadline and searches; `readings` is what the clock shows at each
      look, the first of which sets the deadline. The diff turns one text into the other exactly
      when line mode is not asked for or every pair of blocks it encodes fits, and then keeps
      under the ceiling that half matches set. Outside line mode, unless one of the looks was
      late or a half match was taken, it is minimal among all diffs of the two texts: it edits
      everything but a longest common subsequence. A non-positive timeout makes sure of that. */
  method DiffTexts(dmp: Settings, text1: Text, text2: Text, checklines: bool, readings: nat -> int)
    returns (diffs: seq<Diff>, ghost looks: nat, ghost halved: bool)
    ensures Tidy(diffs) && Settled(diffs)
    ensures Transforms(diffs, text1, text2) <==> LinesFit(text1, text2, checklines, dmp.diffTimeout > 0.0)
    ensures Countable(text1, text2, checklines) ==> Transforms(diffs, text1, text2)
    ensures !LineMode(text1, text2, checklines) ==> NoBlank(diffs)
    ensures Transforms(diffs, text1, text2) ==> EditCost(diffs) <= Ceiling(text1, text2, dmp.diffTimeout > 0.0)
    ensures checklines ==> MiddleByLines(dmp, text1, text2, DeadlineFrom(dmp, readings(0)), diffs)
    ensures halved ==> HalvesIn(text1, text2, dmp.diffTimeout > 0.0)
    ensures !LineMode(text1, text2, checklines) && !halved
            && !WasLate(DeadlineFrom(dmp, readings(0)), readings, 1, looks) ==>
              Minimal(diffs) && EditCost(diffs) == |text1| + |text2| - 2 * Lcs(text1, text2, |text1|, |text2|)
    ensures dmp.diffTimeout <= 0.0 ==> !halved && !WasLate(DeadlineFrom(dmp, readings(0)), readings, 1, looks)
    ensures !LineMode(text1, text2, checklines) && !WasLate(DeadlineFrom(dmp, readings(0)), readings, 1, looks) ==>
              Thrifty(text1, text2, dmp.diffTimeout > 0.0, EditCost(diffs))
  {
    var clock := new Clock(readings);
    var now := clock.Look();
    var deadline := DeadlineFrom(dmp, now);
    diffs, halved := DiffMain(dmp, text1, text2, checklines, deadline, clock);
    looks := clock.looks;
    EntryFacts(dmp, diffs, text1, text2, checklines, WasLate(deadline, readings, 1, looks), halved);
  }

  lemma EntryFacts(dmp: Settings, diffs: seq<Diff>, text1: Text, text2: Text, checklines: bool, late: bool,
                   halved: bool)
    requires Solves(dmp, diffs, text1, text2, checklines, late, halved)
    requires halved ==> HalvesIn(text1, text2, dmp.diffTimeout > 0.0)
    ensures Transforms(diffs, text1, text2) <==> LinesFit(text1, text2, checklines, dmp.diffTimeout > 0.0)
    ensures Countable(text1, text2, checklines) ==> Transforms(diffs, text1, text2)
    ensures !LineMode(text1, text2, checklines) ==> NoBlank(diffs)
    ensures Transforms(diffs, text1, text2) ==> EditCost(diffs) <= Ceiling(text1, text2, dmp.diffTimeout > 0.0)
    ensures !LineMode(text1, text2, checklines) && !halved && !late ==>
              Minimal(diffs) && EditCost(diffs) == |text1| + |text2| - 2 * Lcs(text1, text2, |text1|, |text2|)
    ensures dmp.diffTimeout <= 0.0 ==> !halved
    ensures !LineMode(text1, text2, checklines) && !late ==>
              Thrifty(text1, text2, dmp.diffTimeout > 0.0, EditCost(diffs))
  {
    if Countable(text1, text2, checklines) { CountableFits(text1, text2, checklines, dmp.diffTimeout > 0.0); }
    hide Distance, DistinctLines, LinesFit, Accounts, Ceiling, Thrifty;
    HalvesOnlyTimed(text1, text2);
    hide HalvesIn;
    if !LineMode(text1, text2, checklines) && !halved && !late {
      if !LineMode(text1, text2, checklines) { CountableFits(text1, text2, checklines, dmp.diffTimeout > 0.0); }
      MinimalAtDistance(diffs);
      CostAtLeastDistance(diffs);
      DistanceByLcs(text1, text2, |text1|, |text2|);
    }
  }

  /** Nothing to search: a text is empty, or inside the other one, or a single unit. */
  predicate Quick(text1: Text, text2: Text) {
    var longtext := if |text1| > |text2| then text1 else text2;
    var shorttext := if |text1| > |text2| then text2 else text1;
    shorttext == [] || IndexOf(longtext, shorttext, 0) != -1 || |shorttext| == 1
  }

  /** Diffs two trimmed texts where there is nothing to search. */
  method DiffShortcuts(dmp: Settings, text1: Text, text2: Text, checklines: bool) returns (r: Option<seq<Diff>>)
    requires Trimmed(text1, text2)
    ensures r.Some? <==> Quick(text1, text2)
    ensures r.Some? ==> forall late, halved :: Solves(dmp, r.value, text1, text2, checklines, late, halved)
  {
    hide Solves, Distance, AllFit, Ceiling, Thrifty, Around, IndexOf, OccursAt;
    ghost var timed := dmp.diffTimeout > 0.0;
    if text1 == [] {
      OneSolves(dmp, Diff(INSERT, text2), text1, text2, checklines);
      return Some([Diff(INSERT, text2)]);
    }
    if text2 == [] {
      OneSolves(dmp, Diff(DELETE, text1), text1, text2, checklines);
      return Some([Diff(DELETE, text1)]);
    }
    var longtext := if |text1| > |text2| then text1 else text2;
    var shorttext := if |text1| > |text2| then text2 else text1;
    var i := IndexOf(longtext, shorttext, 0);
    if i != -1 {
      var op := if |text1| > |text2| then DELETE else INSERT;
      TrimmedInside(text1, text2, longtext, shorttext, i);
      var p, q := longtext[..i], longtext[i + |shorttext|..];
      InsideFacts(text1, text2, timed);
      PiecesSolve(dmp, text1, text2, op, p, shorttext, q, checklines);
      return Some(Around(op, p, shorttext, q));
    }
    if |shorttext| == 1 {
      InsideFacts(text1, text2, timed);
      OneUnit(longtext, shorttext);
      ReplaceSolves(dmp, text1, text2, checklines);
      return Some([Diff(DELETE, text1), Diff(INSERT, text2)]);
    }
    r := None;
  }

  lemma InsideFacts(text1: Text, text2: Text, timed: bool)
    requires Trimmed(text1, text2) && Quick(text1, text2)
    ensures var longtext := if |text1| > |text2| then text1 else text2;
            var shorttext := if |text1| > |text2| then text2 else text1;
            var cost := if IndexOf(longtext, shorttext, 0) != -1 then |longtext| - |shorttext| else |text1| + |text2|;
            AllFit(text1, text2, timed) && Ceiling(text1, text2, timed) == cost && Thrifty(text1, text2, timed, cost)
  {
    EmptyInside(if |text1| > |text2| then text1 else text2);
    hide IndexOf, AllFit, Ceiling, Thrifty, Trimmed;
    ShortcutFits(text1, text2, timed);
    InsideCeiling(text1, text2, timed);
    ShortcutThrifty(text1, text2, timed);
  }

  /** Diffs two texts that have no common prefix or suffix. */
  method DiffCompute(dmp: Settings, text1: Text, text2: Text, checklines: bool, deadline: Deadline, clock: Clock)
    returns (diffs: seq<Diff>, ghost halved: bool)
    requires Trimmed(text1, text2)
    modifies clock
    ensures old(clock.looks) <= clock.looks
    ensures Solves(dmp, diffs, text1, text2, checklines,
                   WasLate(deadline, clock.readings, old(clock.looks), clock.looks), halved)
    ensures halved ==> HalvesIn(text1, text2, dmp.diffTimeout > 0.0)
    ensures checklines && Encoded(text1, text2, dmp.diffTimeout > 0.0) ==>
              ByLines(dmp.boundaryScore, dmp.diffTimeout > 0.0, Endless(dmp, deadline), text1, text2, diffs)
    decreases checklines, |text1| + |text2|, 2
  {
    hide Solves, Distance, Reassembles, HasHalf, AllFit, HalfOf, Ceiling, HalvesIn, ByLines, WasLate, Bisects, Thrifty,
      ThriftySplit, IndexOf;
    ghost var timed := dmp.diffTimeout > 0.0;
    halved := false;
    var quick := DiffShortcuts(dmp, text1, text2, checklines);
    if quick.Some? {
      return quick.value, false;
    }
    var hm := HalfMatch(text1, text2, dmp.diffTimeout);
    ComputeFits(text1, text2, timed);
    ComputeCeiling(text1, text2, timed);
    ComputeThrifty(text1, text2, timed);
    if hm.Some? {
      diffs := DiffHalves(dmp, text1, text2, hm.value, checklines, deadline, clock);
      HalvesInSelf(text1, text2, timed);
      return diffs, true;
    }
    if LineMode(text1, text2, checklines) {
      diffs := DiffLineMode(dmp, text1, text2, deadline, clock);
      LineModeSolves(dmp, diffs, text1, text2);
      return;
    }
    diffs, halved := DiffBisect(dmp, text1, text2, deadline, clock);
    ghost var late := WasLate(deadline, clock.readings, old(clock.looks), clock.looks);
    BisectsSolves(dmp, diffs, text1, text2, checklines, late, halved);
  }

  /** Diffs the texts on either side of a half match. */
  method DiffHalves(dmp: Settings, text1: Text, text2: Text, h: Half, checklines: bool, deadline: Deadline,
                    clock: Clock)
    returns (diffs: seq<Diff>)
    requires Reassembles(h, text1, text2) && h.middle != [] && dmp.diffTimeout > 0.0
    requires AllFit(text1, text2, true) <==> AllFit(h.text1a, h.text2a, true) && AllFit(h.text1b, h.text2b, true)
    requires Ceiling(text1, text2, true) == Ceiling(h.text1a, h.text2a, true) + Ceiling(h.text1b, h.text2b, true)
    requires forall m: nat, n: nat :: Thrifty(h.text1a, h.text2a, true, m) && Thrifty(h.text1b, h.text2b, true, n) ==>
                                        Thrifty(text1, text2, true, m + n)
    modifies clock
    ensures old(clock.looks) <= clock.looks
    ensures Solves(dmp, diffs, text1, text2, checklines,
                   WasLate(deadline, clock.readings, old(clock.looks), clock.looks), true)
    decreases checklines, |text1| + |text2|, 1
  {
    hide Tidy, Settled, AllFit, Accounts, Transforms, Ceiling, WasLate, Distance, EditCost, HalvesIn, MiddleByLines,
      Thrifty;
    ghost var from, readings, halvedA, halvedB := clock.looks, clock.readings, false, false;
    var diffsA, diffsB;
    diffsA, halvedA := DiffMain(dmp, h.text1a, h.text2a, checklines, deadline, clock);
    ghost var mid := clock.looks;
    diffsB, halvedB := DiffMain(dmp, h.text1b, h.text2b, checklines, deadline, clock);
    LateAround(deadline, readings, from, mid, clock.looks);
    HalvesAccount(diffsA, diffsB, h, text1, text2);
    if !LineMode(text1, text2, checklines) { HalvesSolid(diffsA, h.middle, diffsB); }
    diffs := diffsA + [Diff(EQUAL, h.middle)] + diffsB;
  }

  lemma HalvesAccount(ds: seq<Diff>, es: seq<Diff>, h: Half, text1: Text, text2: Text)
    requires Reassembles(h, text1, text2) && h.middle != []
    requires Accounts(ds, h.text1a, h.text2a) && Accounts(es, h.text1b, h.text2b)
    ensures var all := ds + [Diff(EQUAL, h.middle)] + es;
            && Accounts(all, text1, text2)
            && (Transforms(all, text1, text2) <==>
                Transforms(ds, h.text1a, h.text2a) && Transforms(es, h.text1b, h.text2b))
            && EditCost(all) == EditCost(ds) + EditCost(es)
  {
    Concat3(ds, [Diff(EQUAL, h.middle)], es);
    Single(Diff(EQUAL, h.middle));
    AffixAccounts(h.middle);
    hide Accounts, Transforms, EditCost;
    AccountsConcat(ds, h.text1a, h.text2a, Affix(h.middle), h.middle, h.middle);
    AccountsConcat(ds + Affix(h.middle), h.text1a + h.middle, h.text2a + h.middle, es, h.text1b, h.text2b);
  }

  lemma HalvesSolid(a: seq<Diff>, middle: Text, b: seq<Diff>)
    requires middle != [] && Solid(a, true) && Solid(b, true)
    ensures Solid(a + [Diff(EQUAL, middle)] + b, true)
  {
  }

  lemma JoinedSolves(dmp: Settings, text1: Text, text2: Text, x: int, y: int, ds: seq<Diff>, es: seq<Diff>,
                     lateA: bool, halvedA: bool, lateB: bool, halvedB: bool)
    requires OptimalSplit(text1, text2, x, y)
    requires Solves(dmp, ds, text1[..x], text2[..y], false, lateA, halvedA)
    requires Solves(dmp, es, text1[x..], text2[y..], false, lateB, halvedB)
    ensures Bisects(ds + es, text1, text2, dmp.diffTimeout > 0.0, lateA || lateB, halvedA || halvedB)
  {
    hide Distance, Prefix, Suffix, Accounts, Ceiling, Thrifty;
    DistanceOfPrefixes(text1, text2, x, y);
    DistanceOfSuffixes(text1, text2, x, y);
    Concat(ds, es);
    assert text1 == text1[..x] + text1[x..] && text2 == text2[..y] + text2[y..];
  }

  /** Splits at the middle snake, or settles for replacing the whole text. */
  method DiffBisect(dmp: Settings, text1: Text, text2: Text, deadline: Deadline, clock: Clock)
    returns (diffs: seq<Diff>, ghost halved: bool)
    requires Apart(text1, text2)
    modifies clock
    ensures old(clock.looks) <= clock.looks
    ensures Bisects(diffs, text1, text2, dmp.diffTimeout > 0.0,
                    WasLate(deadline, clock.readings, old(clock.looks), clock.looks), halved)
    ensures halved ==> HalvesIn(text1, text2, dmp.diffTimeout > 0.0)
    decreases false, |text1| + |text2|, 1
  {
    ApartTexts(text1, text2);
    hide Distance, HalvesIn, Apart, Bisects, WasLate;
    ghost var from := clock.looks;
    var split := MiddleSnake(text1, text2, deadline, clock);
    ghost var mid := clock.looks;
    if split.SplitAt? {
      diffs, halved := DiffBisectSplit(dmp, text1, text2, split.x, split.y, deadline, clock);
      if WasLate(deadline, clock.readings, mid, clock.looks) {
        LateWithin(deadline, clock.readings, from, mid, clock.looks, clock.looks);
      }
      BisectsLater(diffs, text1, text2, dmp.diffTimeout > 0.0, WasLate(deadline, clock.readings, mid, clock.looks),
                   WasLate(deadline, clock.readings, from, clock.looks), halved);
      return;
    }
    ReplaceBisects(text1, text2, dmp.diffTimeout > 0.0, WasLate(deadline, clock.readings, from, clock.looks));
    diffs, halved := [Diff(DELETE, text1), Diff(INSERT, text2)], false;
  }

  lemma ApartTexts(a: Text, b: Text)
    requires Apart(a, b)
    ensures a != [] && b != []
  {
  }

  lemma ReplaceBisects(a: Text, b: Text, timed: bool, late: bool)
    requires a != [] && b != [] && (!late ==> Distance(a, b) == |a| + |b|)
    ensures Bisects([Diff(DELETE, a), Diff(INSERT, b)], a, b, timed, late, false)
  {
    ReplaceAll(a, b);
    hide Distance, EditCost, Text1, Text2;
  }

  /** Diffs both sides of a split point. */
  method DiffBisectSplit(dmp: Settings, text1: Text, text2: Text, x: int, y: int, deadline: Deadline, clock: Clock)
    returns (diffs: seq<Diff>, ghost halved: bool)
    requires OptimalSplit(text1, text2, x, y)
    modifies clock
    ensures old(clock.looks) <= clock.looks
    ensures Bisects(diffs, text1, text2, dmp.diffTimeout > 0.0,
                    WasLate(deadline, clock.readings, old(clock.looks), clock.looks), halved)
    ensures halved ==> HalvesIn(text1, text2, dmp.diffTimeout > 0.0)
    decreases false, |text1| + |text2|, 0
  {
    hide Solves, Tidy, Settled, HalvesIn, WasLate, Distance, Bisects;
    ghost var from, timed, halvedA, halvedB := clock.looks, dmp.diffTimeout > 0.0, false, false;
    var diffsA, diffsB;
    diffsA, halvedA := DiffMain(dmp, text1[..x], text2[..y], false, deadline, clock);
    ghost var mid := clock.looks;
    diffsB, halvedB := DiffMain(dmp, text1[x..], text2[y..], false, deadline, clock);
    ghost var readings, to := clock.readings, clock.looks;
    ghost var lateA, lateB := WasLate(deadline, readings, from, mid), WasLate(deadline, readings, mid, to);
    JoinedSolves(dmp, text1, text2, x, y, diffsA, diffsB, lateA, halvedA, lateB, halvedB);
    diffs, halved := diffsA + diffsB, halvedA || halvedB;
    LateAround(deadline, readings, from, mid, to);
    BisectsLater(diffs, text1, text2, timed, lateA || lateB, WasLate(deadline, readings, from, to), halved);
    SplitHalves(text1, text2, timed, x, y, halvedA, halvedB);
  }

  lemma BisectsLater(ds: seq<Diff>, text1: Text, text2: Text, timed: bool, late: bool, late': bool, halved: bool)
    requires Bisects(ds, text1, text2, timed, late, halved) && (late ==> late')
    ensures Bisects(ds, text1, text2, timed, late', halved)
  {
  }

  lemma SplitHalves(text1: Text, text2: Text, timed: bool, x: int, y: int, halvedA: bool, halvedB: bool)
    requires 0 <= x <= |text1| && 0 <= y <= |text2|
    requires halvedA ==> HalvesIn(text1[..x], text2[..y], timed)
    requires halvedB ==> HalvesIn(text1[x..], text2[y..], timed)
    ensures halvedA || halvedB ==> HalvesIn(text1, text2, timed)
  {
    hide HalvesIn, Substring;
    SliceIsSubstring(text1, 0, x);
    SliceIsSubstring(text2, 0, y);
    SliceIsSubstring(text1, x, |text1|);
    SliceIsSubstring(text2, y, |text2|);
    assert text1[0..x] == text1[..x] && text2[0..y] == text2[..y];
    assert text1[x..|text1|] == text1[x..] && text2[y..|text2|] == text2[y..];
    if halvedA { HalvesInBlocks(text1, text2, timed, text1[..x], text2[..y]); }
    if halvedB { HalvesInBlocks(text1, text2, timed, text1[x..], text2[y..]); }
  }

  // ----- line mode -----

  method InsertAll(c: Cursor<Diff>, ds: seq<Diff>, ghost before: seq<Diff>, ghost after: seq<Diff>)
    requires c.Valid() && c.items == before + after && c.pos == |before|
    modifies c
    ensures c.Valid() && c.items == before + ds + after && c.pos == |before| + |ds|
  {
    assert before + [] == before;
    for i := 0 to |ds|
      invariant c.Valid() && c.items == before + ds[..i] + after && c.pos == |before| + i
    {
      c.Insert(ds[i]);
      assert ds[..i + 1] == ds[..i] + [ds[i]];
      assert c.items == before + ds[..i + 1] + after;
    }
    assert ds[..|ds|] == ds;
  }

  /** Diffs a gathered block of deletions and insertions afresh, unit by unit, in place. */
  method RediffBlock(dmp: Settings, c: Cursor<Diff>, countDelete: nat, countInsert: nat, textDelete: Text,
                     textInsert: Text, deadline: Deadline, clock: Clock, ghost done: seq<Diff>,
                     ghost run: seq<Diff>, ghost rest: seq<Diff>)
    returns (ghost fs: seq<Diff>)
    requires c.Valid() && 0 < c.pos <= |c.items| && Divided(c.items, c.pos - 1, done, run, rest)
    requires Gathered(run, countDelete, countInsert, textDelete, textInsert)
    requires HasOp(run, DELETE) && HasOp(run, INSERT)
    modifies c, clock
    ensures c.Valid() && Divided(c.items, c.pos, done + fs, [], rest) && SameTexts(c.items, old(c.items))
    ensures Redone(dmp.diffTimeout > 0.0, Endless(dmp, deadline), run, fs) && old(clock.looks) <= clock.looks
    decreases false, |textDelete| + |textInsert|, 4
  {
    var _ := c.Previous();
    RemoveRun(c, countDelete + countInsert, 0, done, run, rest);
    ghost var halved;
    var newDiffs;
    newDiffs, halved := DiffMain(dmp, textDelete, textInsert, false, deadline, clock);
    ghost var late := WasLate(deadline, clock.readings, old(clock.looks), clock.looks);
    SolvesEndless(dmp, newDiffs, textDelete, textInsert, deadline, late, halved);
    InsertAll(c, newDiffs, done, rest);
    Replace(done, run, newDiffs, rest);
    fs := newDiffs;
  }

  /** What a diff without line mode comes to. */
  lemma SolvesEndless(dmp: Settings, ds: seq<Diff>, a: Text, b: Text, deadline: Deadline, late: bool, halved: bool)
    requires Solves(dmp, ds, a, b, false, late, halved) && (halved ==> HalvesIn(a, b, dmp.diffTimeout > 0.0))
    requires deadline.Never? ==> !late
    ensures Transforms(ds, a, b) && Solid(ds, true) && EditCost(ds) <= Ceiling(a, b, dmp.diffTimeout > 0.0)
    ensures Endless(dmp, deadline) ==> EditCost(ds) <= Distance(a, b)
  {
    HalvesOnlyTimed(a, b);
    hide Accounts, EditCost, Ceiling, Distance, HalvesIn, Thrifty;
  }

  /** Diffs the blocks that a line-level diff replaced unit by unit. */
  method Rediff(dmp: Settings, c: Cursor<Diff>, deadline: Deadline, clock: Clock, ghost measure: nat)
    requires c.Valid() && c.pos == 0 && c.items != [] && c.items[|c.items| - 1] == DUMMY
    modifies c, clock
    ensures c.Valid() && SameTexts(c.items, old(c.items))
    ensures c.items != [] && c.items[|c.items| - 1] == DUMMY
    ensures Rediffs(dmp.diffTimeout > 0.0, Endless(dmp, deadline), old(c.items), c.items)
    ensures old(clock.looks) <= clock.looks
    decreases true, measure, 0
  {
    hide SameTexts, Divided, Gathered, Rediffing, Goes, Redone, HasOp, Rediffs;
    var countDelete, countInsert := 0, 0;
    var textDelete: Text, textInsert: Text := [], [];
    ghost var ds, timed, endless := c.items, dmp.diffTimeout > 0.0, Endless(dmp, deadline);
    ghost var done: seq<Diff>, run: seq<Diff>, rest := [], [], c.items;
    SameTextsReflexive(ds);
    RediffStart(ds);
    GoesStart(timed, endless, ds);
    assert run + rest == ds;
    while c.HasNext()
      invariant c.Valid() && SameTexts(c.items, ds) && old(clock.looks) <= clock.looks
      invariant Rediffing(c.items, c.pos, done, run, rest, countDelete, countInsert, textDelete, textInsert)
      invariant Goes(timed, endless, ds, done, run + rest)
      decreases |rest|, |run|
    {
      RediffNext(c.items, c.pos, done, run, rest, countDelete, countInsert, textDelete, textInsert);
      var d := c.Next();
      assert run + rest == (run + [d]) + rest[1..];
      if d.operation == INSERT {
        countInsert, textInsert := countInsert + 1, textInsert + d.text;
        run, rest := run + [d], rest[1..];
      } else if d.operation == DELETE {
        countDelete, textDelete := countDelete + 1, textDelete + d.text;
        run, rest := run + [d], rest[1..];
      } else {
        if countDelete >= 1 && countInsert >= 1 {
          ghost var items := c.items;
          ghost var fs := RediffBlock(dmp, c, countDelete, countInsert, textDelete, textInsert, deadline, clock, done,
                                      run, rest);
          SameTextsTransitive(c.items, items, ds);
          GoesBlock(timed, endless, ds, done, run, fs, rest);
          done := done + fs;
          RediffJoined(c.items, c.pos, done, rest);
          assert [] + rest == rest;
        } else {
          RunKept(timed, endless, run);
          GoesBlock(timed, endless, ds, done, run, run, rest);
          assert rest == [d] + rest[1..];
          GoesEqual(timed, endless, ds, done + run, d, rest[1..]);
          done, rest := done + run + [d], rest[1..];
          assert [] + rest == rest;
        }
        run, countDelete, countInsert, textDelete, textInsert := [], 0, 0, [], [];
      }
    }
    RediffEnd(c.items, c.pos, done, run, rest, countDelete, countInsert, textDelete, textInsert);
    assert run + rest == [];
    GoesEnd(timed, endless, ds, done);
  }

  lemma RunKept(timed: bool, endless: bool, run: seq<Diff>)
    requires !(HasOp(run, DELETE) && HasOp(run, INSERT))
    ensures Redone(timed, endless, run, run)
  {
  }

  /** The rediffing under way: a block is gathered after what is done, and the dummy equality
      is still last. */
  ghost predicate Rediffing(items: seq<Diff>, pos: int, done: seq<Diff>, run: seq<Diff>, rest: seq<Diff>,
                            countDelete: int, countInsert: int, textDelete: Text, textInsert: Text) {
    && Divided(items, pos, done, run, rest) && Dummied(done, run, rest)
    && Gathered(run, countDelete, countInsert, textDelete, textInsert)
    && (countDelete > 0 <==> HasOp(run, DELETE)) && (countInsert > 0 <==> HasOp(run, INSERT))
  }

  lemma RediffStart(ds: seq<Diff>)
    requires ds != [] && ds[|ds| - 1] == DUMMY
    ensures Rediffing(ds, 0, [], [], ds, 0, 0, [], [])
  {
    Start();
    DividedJoin(ds, 0, [], ds);
  }

  /** The next diff joins the block, or ends it. */
  lemma RediffNext(items: seq<Diff>, pos: int, done: seq<Diff>, run: seq<Diff>, rest: seq<Diff>,
                   countDelete: int, countInsert: int, textDelete: Text, textInsert: Text)
    requires Rediffing(items, pos, done, run, rest, countDelete, countInsert, textDelete, textInsert)
    requires 0 <= pos < |items|
    ensures Divided(items, pos, done, run, rest) && rest != [] && rest[|rest| - 1] == DUMMY
    ensures Gathered(run, countDelete, countInsert, textDelete, textInsert) && countDelete >= 0 && countInsert >= 0
    ensures countDelete + countInsert == |run| && AllEdits(run) && items[pos] == rest[0]
    ensures (countDelete > 0 <==> HasOp(run, DELETE)) && (countInsert > 0 <==> HasOp(run, INSERT))
    ensures var d := items[pos];
            match d.operation
            case INSERT =>
              Rediffing(items, pos + 1, done, run + [d], rest[1..], countDelete, countInsert + 1, textDelete,
                        textInsert + d.text)
            case DELETE =>
              Rediffing(items, pos + 1, done, run + [d], rest[1..], countDelete + 1, countInsert,
                        textDelete + d.text, textInsert)
            case EQUAL =>
              Rediffing(items, pos + 1, done + run + [d], [], rest[1..], 0, 0, [], [])
  {
    DividedNext(items, pos, done, run, rest);
    DummiedNext(done, run, rest);
    Start();
    HasOpSnoc(run, items[pos], DELETE);
    HasOpSnoc(run, items[pos], INSERT);
    if items[pos].operation != EQUAL { GatherEdit(run, items[pos], countDelete, countInsert, textDelete, textInsert); }
  }

  lemma RediffJoined(items: seq<Diff>, pos: int, done: seq<Diff>, rest: seq<Diff>)
    requires Divided(items, pos, done, [], rest) && rest != [] && rest[|rest| - 1] == DUMMY
    ensures Rediffing(items, pos, done, [], rest, 0, 0, [], [])
  {
    Start();
  }

  lemma RediffEnd(items: seq<Diff>, pos: int, done: seq<Diff>, run: seq<Diff>, rest: seq<Diff>,
                  countDelete: int, countInsert: int, textDelete: Text, textInsert: Text)
    requires Rediffing(items, pos, done, run, rest, countDelete, countInsert, textDelete, textInsert)
    requires pos >= |items|
    ensures items != [] && items[|items| - 1] == DUMMY && run == rest == [] && items == done
  {
    DividedEnd(items, pos, done, rest, run);
  }

  /** The dummy equality is still last. */
  ghost predicate Dummied(done: seq<Diff>, run: seq<Diff>, rest: seq<Diff>) {
    if rest == [] then run == [] && done != [] && done[|done| - 1] == DUMMY else rest[|rest| - 1] == DUMMY
  }

  lemma DummiedNext(done: seq<Diff>, run: seq<Diff>, rest: seq<Diff>)
    requires Dummied(done, run, rest) && rest != []
    ensures rest[0].operation != EQUAL ==> Dummied(done, run + [rest[0]], rest[1..])
    ensures Dummied(done + run + [rest[0]], [], rest[1..]) && rest[|rest| - 1] == DUMMY
  {
  }

  /** Diffs line by line first, then rediffs the replaced blocks. The result turns one text
      into the other exactly when every distinct line has a code of its own. */
  method DiffLineMode(dmp: Settings, text1: Text, text2: Text, deadline: Deadline, clock: Clock)
    returns (diffs: seq<Diff>)
    modifies clock
    ensures old(clock.looks) <= clock.looks
    ensures Transforms(diffs, text1, text2) <==> |DistinctLines(text1, text2)| < CODES
    ensures Accounts(diffs, text1, text2)
    ensures ByLines(dmp.boundaryScore, dmp.diffTimeout > 0.0, Endless(dmp, deadline), text1, text2, diffs)
    decreases true, |text1| + |text2|, 1
  {
    hide Solves, Encoding, Tidy, Settled, LineAt, Decode, Text1, Text2, Cleans, Rediffs, Ceiling, Distance, EditCost,
      HalvesIn, WasLate;
    var chars1, chars2, lineArray, hash := LinesToChars(text1, text2);
    ghost var halved;
    diffs, halved := DiffMain(dmp, chars1, chars2, false, deadline, clock);
    ghost var coarse, late := diffs, WasLate(deadline, clock.readings, old(clock.looks), clock.looks);
    NeverLate(deadline, clock.readings, old(clock.looks), clock.looks);
    SolvesEndless(dmp, coarse, chars1, chars2, deadline, late, halved);
    DecodedTexts(diffs, lineArray);
    DecodingAccounts(text1, text2, chars1, chars2, lineArray, hash);
    hide DistinctLines, GivenBack;
    var c := new Cursor(diffs);
    CharsToLines(c, lineArray);
    ghost var reduced, merged, aligned := CleanupSemantic(c, dmp.boundaryScore);
    ghost var w := LineWork(chars1, chars2, lineArray, coarse, reduced, merged, aligned, c.items);
    DummyTexts(c.items);
    c.Append(DUMMY);
    c.ToFront();
    Rediff(dmp, c, deadline, clock, |text1| + |text2|);
    ghost var items := c.items;
    c.RemoveLast();
    assert items == c.items + [DUMMY];
    DummyTexts(c.items);
    diffs := c.items;
    LineStepsDone(dmp, text1, text2, deadline, w, hash, diffs);
  }

  lemma NeverLate(deadline: Deadline, readings: nat -> int, from: nat, to: nat)
    ensures deadline.Never? ==> !WasLate(deadline, readings, from, to)
  {
  }

  lemma LineStepsDone(dmp: Settings, text1: Text, text2: Text, deadline: Deadline, w: LineWork, hash: map<Text, nat>,
                      diffs: seq<Diff>)
    requires Encoding(text1, text2, w.chars1, w.chars2, w.lineArray, hash)
    requires Coarse(dmp.diffTimeout > 0.0, Endless(dmp, deadline), w)
    requires Cleans(dmp.boundaryScore, Decoded(w.coarse, w.lineArray), w.reduced, w.merged, w.aligned, w.cleaned)
    requires Rediffs(dmp.diffTimeout > 0.0, Endless(dmp, deadline), w.cleaned + [DUMMY], diffs + [DUMMY])
    ensures ByLines(dmp.boundaryScore, dmp.diffTimeout > 0.0, Endless(dmp, deadline), text1, text2, diffs)
  {
    hide Encoding, Coarse, Cleans, Rediffs;
    assert Encodes(text1, text2, w);
    assert LineStepsTaken(dmp.boundaryScore, dmp.diffTimeout > 0.0, Endless(dmp, deadline), text1, text2, w, diffs);
  }

  lemma DummyTexts(ds: seq<Diff>)
    ensures SameTexts(ds + [DUMMY], ds)
  {
    WithLast(ds, DUMMY);
    assert Text1(ds) + [] == Text1(ds) && Text2(ds) + [] == Text2(ds);
  }
}
