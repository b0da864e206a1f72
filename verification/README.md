# Diff Match Patch, modelled and proved

A Dafny model of the engine in `3rdparty/diff-match-patch`: it finds the differences
between two texts, tidies them up, searches for text approximately, and makes, splits,
applies and serialises patches. The model follows the code branch by branch, with its
constants and its defects, and proves what the engine's documentation promises, or exactly
when the code keeps the promise.

## How it is modelled

- `Texts`, `Diffs`: a text is a sequence of 16-bit code units with the total substring
  operations of the string class; a list of diffs means a source text, a target text and a
  number of edited units.
- `ListCursor`: the mutable list iterator is a class with a list, a position and the element
  last stepped over; every in-place rewrite edits its list through it.
- `MergeCleanup`, `Lossless`, `EqualityStack`, `SemanticCleanup`, `EfficiencyCleanup`: the
  rewriting passes, with the backward walks by value.
- `EditDistance`, `Frontier`, `Bisect`, `HalfMatching`, `LineCoding`, `LineLoss`,
  `EncodedBlocks`, `CostCeiling`, `LineSteps`, `Deadlines`, `DiffSearch`: the search. The clock
  is a class that shows anything at any look at it, and counts the looks. The two frontier
  arrays are arrays.
- `DiffMetrics`, `Bitap`: Levenshtein count, equivalent locations and fuzzy search. Bit rows
  are arrays of 32-bit words, a word being the set of its one bits; scores are reals.
- `Patches`, `PatchContext`, `PatchRuns`, `PatchMaking`, `PatchPadding`, `PatchSplitting`,
  `PatchApplying`: patches. `Chain(ps, t, u)` says that applied exactly, one after another,
  the patches turn `t` into `u`; it is the meaning every patch operation is proved against.
- `Numerals`, `TextLists`, `PercentCoding`, `DeltaText`, `PatchText`: the two text formats.
- `PatchExchange`: the sample program, from two texts to the second text out of the first.

Functions carry what the code computes at one step where a loop repeats it; the methods keep
the loops. Ghost parameters and results only name texts and positions for the proofs.

## What the code does not keep

- Making patches drops an equality inside a patch that has the same text as the last diff
  (line 1700 of `diff_match_patch.cpp` compares by value). `PatchMaking.PatchMake` proves
  that the patches chain to the target exactly when every such echo is harmless;
  `PatchRuns.EchoingHarm` gives inputs on both sides. Deleting `a` and `b` around `x` in
  `axbx` is a harmful one, and then the patches do not fit. Inserting `a` and `b` into `xx`
  to make `axbx` goes wrong unnoticed: `PatchExchange.InsertingAstray` shows that the patches
  still apply exactly, so by `PatchExchange.RoundTrip` every flag says so, and give `abxx`.
  Two texts that do not end alike have no harmful echo (`PatchRuns.EndsDifferHarmless`).
- The window of the fuzzy search ends as far behind the expected place as it starts before
  it (line 1500 of the same file adds the pattern length inside the minimum, not to the
  distance), so a match ahead does not fit into it. `Bitap.MatchBitap` proves what decides:
  the first row sees an exact match just when it ends within the largest allowed distance
  after the expected place. An exact match past that place is never returned, unless
  the distance is 0 and the threshold 1 or more, when every place scores alike. In
  `Bitap.MissedAhead` one two units ahead is not found. With errors allowed it is the same
  (`Bitap.RowMissed`): nothing is found only if no match that ends inside its row's window
  scores within the threshold. `Bitap.NearSeen` says when a match is certain to be found.
- Semantic cleanup may leave a trivial equality: one the walk falls back to is entered again
  with its edits counted from zero. `SemanticCleanup.EliminateTrivial` proves what is due: every
  equality split was trivial, and at least as many are split as were trivial at first. One
  longer than the edits on one side may go once its neighbour has gone
  (`SemanticCleanup.Overtaken`); one longer than everything on one side stays.
- Padding goes to both edges of the first patch, never to the last one (line 1900).
- Line mode stores line numbers in 16 bits. `DiffSearch.DiffTexts` proves that the diff turns
  one text into the other exactly when every pair of blocks that is encoded has at most 65535
  distinct lines; which pairs those are is a function of the texts and of whether there is a
  time limit (`EncodedBlocks.AllFit`). Nothing lost in one block is made up for in another
  (`LineLoss`). `EncodedBlocks.RowsDoNotFit` gives two texts that fail.

## Model

| member | source | states |
|---|---|---|
| Texts.CommonPrefix | 3rdparty/diff-match-patch/diff_match_patch.cpp:569-579 | the result is a shared prefix length and no longer prefix is shared |
| Texts.CommonSuffix | 3rdparty/diff-match-patch/diff_match_patch.cpp:582-594 | the result is a shared suffix length and no longer suffix is shared |
| Texts.CommonOverlap | 3rdparty/diff-match-patch/diff_match_patch.cpp:596-636 | the result is the longest k for which the last k units of one text are the first k of the other; skipping to the next occurrence loses none, and the search ends |
| Texts.GrowOverlap | 3rdparty/diff-match-patch/diff_match_patch.cpp:616-635 | growing a suffix by the distance to its next occurrence still finds the longest overlap of two texts of one length |
| Diffs.DiffText1 | 3rdparty/diff-match-patch/diff_match_patch.cpp:1298-1306 | the loop collects the source text of the list |
| Diffs.DiffText2 | 3rdparty/diff-match-patch/diff_match_patch.cpp:1309-1317 | the loop collects the target text of the list |
| EditDistance.CostAtLeastDistance | 3rdparty/diff-match-patch/diff_match_patch.cpp:1298-1317 | no list of diffs edits fewer units than the insert-and-delete distance of its two texts |
| EditDistance.DistanceByLcs | 3rdparty/diff-match-patch/diff_match_patch.cpp:369-485 | that distance is the sum of the lengths less twice the longest common subsequence |
| EditDistance.Through | 3rdparty/diff-match-patch/diff_match_patch.cpp:487-499 | the distances to and from any grid point add up to at least the whole distance |
| EditDistance.DistanceReversed | 3rdparty/diff-match-patch/diff_match_patch.cpp:438-475 | reading both texts backwards keeps the distance, which is what the reverse path relies on |
| EditDistance.MinimalAtDistance | 3rdparty/diff-match-patch/diff_match_patch.h:232 | a list that edits no more than the distance is minimal among all lists with its texts |
| CostCeiling.TrimmedDistance | 3rdparty/diff-match-patch/diff_match_patch.cpp:209-220 | trimming a common prefix and suffix keeps the distance |
| CostCeiling.CeilingHalf | 3rdparty/diff-match-patch/diff_match_patch.cpp:276-293 | under a time limit, trimmed texts that take no shortcut and share a stretch of half the longer one are never edited by more than their lengths less twice any stretch they share |
| CostCeiling.CeilingOfTexts | 3rdparty/diff-match-patch/diff_match_patch.cpp:192-235 | the same of any two texts, by what trimming leaves of them |
| CostCeiling.ThriftyEndless | 3rdparty/diff-match-patch/diff_match_patch.cpp:276-303 | a thrifty cost, that of keeping half matches and bisecting the rest without waste, is at most the distance where no half match is looked for |
| Frontier.SnakeCovers | 3rdparty/diff-match-patch/diff_match_patch.cpp:405-415 | starting from the better neighbour and following matches passes every useful point of the diagonal |
| Frontier.FacingOnGrid | 3rdparty/diff-match-patch/diff_match_patch.cpp:462-473 | the forward point facing a reverse point on the grid is on the grid too, though the code does not check it again |
| Frontier.Overlap | 3rdparty/diff-match-patch/diff_match_patch.cpp:427-433 | overlapping frontiers meet at a split that wastes no edit and is neither the start nor the end |
| Frontier.PruneRight | 3rdparty/diff-match-patch/diff_match_patch.cpp:417-419 | running off the right edge excludes only diagonals with no useful point at this level or later |
| Frontier.PruneLeft | 3rdparty/diff-match-patch/diff_match_patch.cpp:420-422 | likewise for the bottom edge |
| Bisect.FrontFound | 3rdparty/diff-match-patch/diff_match_patch.cpp:423-435 | what the forward walk detects is an optimal split |
| Bisect.BackFound | 3rdparty/diff-match-patch/diff_match_patch.cpp:460-474 | what the reverse walk detects is an optimal split |
| Bisect.Missed | 3rdparty/diff-match-patch/diff_match_patch.cpp:423-435 | when the distance is what both walks have spent, a diagonal without an overlap holds no useful point |
| Bisect.ForwardReach | 3rdparty/diff-match-patch/diff_match_patch.cpp:403-415 | the forward cell is a reached point from which no match continues, and all indices are in bounds |
| Bisect.ReverseReach | 3rdparty/diff-match-patch/diff_match_patch.cpp:440-452 | the same for the reverse cell, on the texts read backwards |
| Bisect.ForwardStep | 3rdparty/diff-match-patch/diff_match_patch.cpp:401-436 | one forward step either splits optimally or leaves a frontier ready for the next step, and then, for an odd total length, the distance is not what was spent |
| Bisect.ReverseStep | 3rdparty/diff-match-patch/diff_match_patch.cpp:438-475 | the same for the reverse step and an even total length |
| Bisect.MiddleSnake | 3rdparty/diff-match-patch/diff_match_patch.cpp:369-485 | every access is in bounds under any clock; a split is optimal and strictly inside; no split, unless one of the looks at the clock was late, means the texts have nothing in common |
| HalfMatching.HalfMatchI | 3rdparty/diff-match-patch/diff_match_patch.cpp:679-710 | what a seed yields reassembles both texts, and it is the longest common stretch around the seed that is half the longer text, if there is one; of equal ones the first copy's |
| HalfMatching.SeedInside | 3rdparty/diff-match-patch/diff_match_patch.cpp:650-656 | one of the two quarter seeds lies inside any stretch of at least half the longer text |
| HalfMatching.SeedsCover | 3rdparty/diff-match-patch/diff_match_patch.cpp:650-670 | no common stretch of at least half the longer text is longer than what the two seeds found |
| HalfMatching.HalfOfBest | 3rdparty/diff-match-patch/diff_match_patch.cpp:638-677 | of at least four units, the half match that the texts have is there exactly when they share a stretch of half the longer one, and its middle is a longest common substring |
| HalfMatching.HalfMatch | 3rdparty/diff-match-patch/diff_match_patch.cpp:638-677 | with time to spare and at least four units, a result exactly when the texts share a stretch of half the longer one; its pieces reassemble both texts and its middle is a longest common substring; which one is a function of the texts |
| LineCoding.LinesToCharsMunge | 3rdparty/diff-match-patch/diff_match_patch.cpp:523-550 | each line gets the number of its first appearance, new lines extend the array in order of appearance, old numbers stay |
| LineCoding.LinesToChars | 3rdparty/diff-match-patch/diff_match_patch.cpp:501-520 | both texts are encoded over one array that holds exactly their distinct lines after the junk entry; decoding restores them exactly when those are at most 65535 |
| LineCoding.CodesInjective | 3rdparty/diff-match-patch/diff_match_patch.cpp:541-547 | with at most 65535 distinct lines, two codes are equal exactly when the lines are, within and across the texts |
| LineCoding.DecodesIff | 3rdparty/diff-match-patch/diff_match_patch.cpp:501-566 | decoding restores both texts if and only if they have at most 65535 distinct lines |
| LineCoding.DecodedTexts | 3rdparty/diff-match-patch/diff_match_patch.cpp:554-566 | decoding a list of diffs decodes its two texts |
| LineLoss.DecodingAccounts | 3rdparty/diff-match-patch/diff_match_patch.cpp:501-566 | with a line too many, decoding leaves the first text short, or gives it back and leaves the second one short: newlines are missing, or units of the last line |
| LineLoss.GivenBackConcat | 3rdparty/diff-match-patch/diff_match_patch.cpp:283-293 | of texts given back or short, two put together are as they were exactly when both are: no loss is made up for by what is put before or after |
| LineLoss.AccountsConcat | 3rdparty/diff-match-patch/diff_match_patch.cpp:221-235 | so diffs of parts joined are right exactly when the diffs of the parts are |
| EncodedBlocks.ModestFit | 3rdparty/diff-match-patch/diff_match_patch.cpp:192-303 | every encoded pair fits when line mode is not reached, or no two blocks have more than 65535 distinct lines |
| EncodedBlocks.CountableFits | 3rdparty/diff-match-patch/diff_match_patch.cpp:192-303 | at most 65531 distinct lines in the two texts are enough for every block of them |
| EncodedBlocks.RowsDoNotFit | 3rdparty/diff-match-patch/diff_match_patch.cpp:541-547 | two concrete texts, every unit followed by a newline and a text without newlines, whose lines do not fit with or without a time limit |
| LineCoding.CharsToLines | 3rdparty/diff-match-patch/diff_match_patch.cpp:554-566 | every diff of the list is decoded in place |
| DiffSearch.DiffTexts | 3rdparty/diff-match-patch/diff_match_patch.cpp:175-190 | merge-normal form under any settings and any clock; the diff turns one text into the other if and only if line mode is off or every pair of blocks it encodes fits the codes, and then edits no more than the half matches leave; outside line mode, if no look was late and no half match taken, it is minimal, editing everything but a longest common subsequence, as it always is under a non-positive timeout; if no look was late, thrifty also where half matches were taken |
| DiffSearch.DiffMain | 3rdparty/diff-match-patch/diff_match_patch.cpp:192-235 | for every flag and every clock, also with a bail-out at any step, merge-normal form, and the recursion ends; the result turns text1 into text2 if and only if every pair of blocks encoded on the way fits; half matches found are kept whatever the clock shows; never late and without a half match it costs no more than the distance |
| DiffSearch.DiffCompute | 3rdparty/diff-match-patch/diff_match_patch.cpp:237-303 | the same for trimmed texts; a half match that is found is used, and texts that line mode encodes go through its steps |
| DiffSearch.DiffShortcuts | 3rdparty/diff-match-patch/diff_match_patch.cpp:237-274 | a result exactly when a text is empty, inside the other one or a single unit; a text inside the other is kept, and nothing is edited in vain |
| DiffSearch.DiffHalves | 3rdparty/diff-match-patch/diff_match_patch.cpp:283-293 | the diffs of both sides of a half match join to a diff of the whole that keeps the middle, right exactly when both are |
| DiffSearch.DiffBisect | 3rdparty/diff-match-patch/diff_match_patch.cpp:369-485 | a split, or replacing everything, gives a diff of the whole; everything is replaced only where nothing is in common or a look at the clock was late |
| DiffSearch.DiffBisectSplit | 3rdparty/diff-match-patch/diff_match_patch.cpp:487-499 | the diffs of both sides of an optimal split join to a diff of the whole that costs no more than the distance |
| DiffSearch.JoinedSolves | 3rdparty/diff-match-patch/diff_match_patch.cpp:494-498 | solutions on both sides of an optimal split join to a solution, minimal or thrifty if both are |
| DiffSearch.DiffLineMode | 3rdparty/diff-match-patch/diff_match_patch.cpp:306-366 | the line-level diff, no longer than the distance in lines without a time limit, is decoded, cleaned, and every mixed block of it diffed afresh; the whole turns text1 into text2 if and only if the two have at most 65535 distinct lines; otherwise a text is short |
| DiffSearch.Rediff | 3rdparty/diff-match-patch/diff_match_patch.cpp:323-363 | every block with deletions and insertions in it is replaced by a diff of its two texts, without a time limit one that costs no more than their distance; everything else stays, the dummy entry last |
| LineSteps.RediffsCost | 3rdparty/diff-match-patch/diff_match_patch.cpp:323-363 | without a time limit diffing the mixed blocks afresh never edits more |
| LineSteps.NoMoreThanLines | 3rdparty/diff-match-patch/diff_match_patch.cpp:306-366 | without a time limit and without a trivial equality line mode edits no more units than the diff of whole lines |
| MergeCleanup.FactorCommon | 3rdparty/diff-match-patch/diff_match_patch.cpp:1128-1158 | common prefix and suffix move into the equalities around and the edits left share neither |
| MergeCleanup.MergeRun | 3rdparty/diff-match-patch/diff_match_patch.cpp:1113-1167 | a gathered run becomes at most one deletion and one insertion between equalities, with both texts kept and no more edited |
| MergeCleanup.FirstPass | 3rdparty/diff-match-patch/diff_match_patch.cpp:1093-1186 | after it every run between equalities is a single edit, or a deletion and then an insertion that share no first or last unit; the iterator never fails and the texts stay |
| MergeCleanup.SecondPass | 3rdparty/diff-match-patch/diff_match_patch.cpp:1188-1233 | either nothing changed and no edit can slide over an equality next to it, or the list got shorter with the same texts and cost |
| MergeCleanup.CleanupMerge | 3rdparty/diff-match-patch/diff_match_patch.cpp:1093-1238 | both texts kept, never more edited, normal form on return, no blanks brought in, and it ends |
| Lossless.ScanRight | 3rdparty/diff-match-patch/diff_match_patch.cpp:886-907 | of the cuts scanned to the right the last of the best is kept |
| Lossless.BestAlignment | 3rdparty/diff-match-patch/diff_match_patch.cpp:877-907 | the best cut over all positions from as far left as the edit's length allows to as far right as it slides |
| Lossless.WriteBack | 3rdparty/diff-match-patch/diff_match_patch.cpp:908-928 | the triple is replaced by the chosen cut, blank equalities are removed, never both |
| Lossless.CleanupSemanticLossless | 3rdparty/diff-match-patch/diff_match_patch.cpp:856-934 | each edit between equalities in turn is moved to its best cut, and nothing else; texts and edited units stay |
| EqualityStack.WalkBack | 3rdparty/diff-match-patch/diff_match_patch.cpp:753-756 | walking back by value stops at an element equal to the target, inside the list |
| EqualityStack.BackUpTo | 3rdparty/diff-match-patch/diff_match_patch.cpp:774-778 | likewise for the walk to the equality to fall back to |
| EqualityStack.SplitEqual | 3rdparty/diff-match-patch/diff_match_patch.cpp:758-761 | an equality becomes its deletion and insertion: same texts, one equality fewer |
| SemanticCleanup.SplitTrivial | 3rdparty/diff-match-patch/diff_match_patch.cpp:752-790 | on any list, blank equalities included: the top equality is split, the walks stay inside the list, and what is on the stack still stands in the list |
| SemanticCleanup.EliminateTrivial | 3rdparty/diff-match-patch/diff_match_patch.cpp:713-793 | on any list: one equality after the other is split, each trivial where it stands, and at least as many as were trivial at first; something is eliminated exactly when an equality is no longer than the edits on either side; texts stay and the walk ends |
| SemanticCleanup.Overtaken | 3rdparty/diff-match-patch/diff_match_patch.cpp:746-793 | being longer than the edits on one side alone does not save an equality: a list in which one is, and is trivial once its neighbour is divided |
| SemanticCleanup.LongStays | 3rdparty/diff-match-patch/diff_match_patch.cpp:746-793 | an equality longer than everything before it, or everything after it, is never eliminated |
| SemanticCleanup.ExtractOverlap | 3rdparty/diff-match-patch/diff_match_patch.cpp:814-848 | the longer overlap, if at least half of either edit, becomes an equality; the edits never grow |
| SemanticCleanup.ExtractOverlaps | 3rdparty/diff-match-patch/diff_match_patch.cpp:800-853 | each deletion followed by an insertion in turn is parted by its longest overlap, and nothing else |
| SemanticCleanup.CleanupSemantic | 3rdparty/diff-match-patch/diff_match_patch.cpp:713-853 | on any list: both texts kept; the stages run on one another's results: elimination with all that is due, a merge only when something was trivial, the alignment, the overlaps |
| EfficiencyCleanup.SplitWorthless | 3rdparty/diff-match-patch/diff_match_patch.cpp:1040-1080 | one equality split, both texts kept, and every backward walk ends inside the list |
| EfficiencyCleanup.EliminateWorthless | 3rdparty/diff-match-patch/diff_match_patch.cpp:985-1085 | one equality after the other is split, each short and with edits of three or four kinds around it where it stands, and at least as many as were so at first; nothing is eliminated exactly when there is none; texts stay and the walk ends |
| EfficiencyCleanup.CleanupEfficiency | 3rdparty/diff-match-patch/diff_match_patch.cpp:985-1090 | all that is due is eliminated; nothing changes without such an equality, otherwise the result is what a merge makes of it, in normal form with both texts kept |
| DiffMetrics.DiffLevenshtein | 3rdparty/diff-match-patch/diff_match_patch.cpp:1320-1342 | the count is at least the true Levenshtein distance of the two texts and at most the edited units; it is the sum over the runs between equalities |
| DiffMetrics.CountOfEdits | 3rdparty/diff-match-patch/diff_match_patch.cpp:1320-1342 | the count of a list without equalities is the longer of its two texts |
| DiffMetrics.CountAtEqual | 3rdparty/diff-match-patch/diff_match_patch.cpp:1332-1337 | the counts before and after an equality add up |
| DiffMetrics.LevenshteinOfAppend | 3rdparty/diff-match-patch/diff_match_patch.cpp:1320-1342 | distances of the parts bound the distance of the whole, which justifies closing a run at an equality |
| DiffMetrics.DiffXIndex | 3rdparty/diff-match-patch/diff_match_patch.cpp:1241-1270 | up to the length of the source the loop computes the location the recursion over the list gives |
| DiffMetrics.XIndexMonotone | 3rdparty/diff-match-patch/diff_match_patch.cpp:1241-1270 | later locations never map to earlier ones |
| DiffMetrics.XIndexRange | 3rdparty/diff-match-patch/diff_match_patch.cpp:1241-1270 | locations stay inside the target, and the end maps to the end |
| DiffMetrics.XIndexSameUnit | 3rdparty/diff-match-patch/diff_match_patch.cpp:1241-1270 | a location inside an equality maps to the same unit in the target |
| Bitap.MatchAlphabet | 3rdparty/diff-match-patch/diff_match_patch.cpp:1564-1576 | a unit's mask has bit b exactly when the pattern has the unit b places from its end |
| Bitap.FirstRowCell | 3rdparty/diff-match-patch/diff_match_patch.cpp:1512-1514 | every bit set in the first row is an exact match of that much of the pattern |
| Bitap.FirstRowFull | 3rdparty/diff-match-patch/diff_match_patch.cpp:1512-1514 | every exact match that ends inside the window has its bit set in the first row |
| Bitap.LaterRowCell | 3rdparty/diff-match-patch/diff_match_patch.cpp:1515-1520 | every bit set in row d is a match with at most d edits |
| Bitap.LaterRowWhole | 3rdparty/diff-match-patch/diff_match_patch.cpp:1515-1520 | and if the cells read hold every match that ends inside the window, so does the cell written: a stretch within d edits of that much of the pattern has its bit set |
| Bitap.FullMatch | 3rdparty/diff-match-patch/diff_match_patch.cpp:1521-1528 | a full match starts inside the text and has at most d edits |
| Bitap.StrictlyNearer | 3rdparty/diff-match-patch/diff_match_patch.cpp:1482-1500 | with one more error a match that scores no worse is strictly nearer, so the next window is narrower |
| Bitap.Stray | 3rdparty/diff-match-patch/diff_match_patch.cpp:1484-1497 | the halving finds the largest distance within the limit that the threshold allows |
| Bitap.StartThreshold | 3rdparty/diff-match-patch/diff_match_patch.cpp:1459-1473 | the threshold is that of the settings or of an exact match, admits every nearest exact match within the settings and is no worse than the first one ahead |
| Bitap.ScanRow | 3rdparty/diff-match-patch/diff_match_patch.cpp:1498-1538 | every cell written is sound, what the next row can read was written, a tighter threshold comes from a real match; while nothing is found, every row holds all matches with its number of edits that end in its window |
| Bitap.MatchBitap | 3rdparty/diff-match-patch/diff_match_patch.cpp:1450-1549 | for any threshold: a result is inside the text, matches with fewer errors than the pattern has units and scores within the threshold; no unwritten cell is read; nothing is returned only if, for each number of errors below the pattern's length, every stretch within that many edits of the pattern that scores within the starting threshold ends outside the widest window the threshold allows that row; an exact match is seen just when it ends inside the first window, and none past the expected place is ever returned |
| Bitap.Handed | 3rdparty/diff-match-patch/diff_match_patch.cpp:1495-1516 | whatever the row before left written covers all that the narrower next row reads, also where no distance tells scores apart |
| Bitap.BehindSeen | 3rdparty/diff-match-patch/diff_match_patch.cpp:1459-1500 | with no exact match ahead, one behind is found when its end scores within the threshold too, however near it starts |
| Bitap.NearSeen | 3rdparty/diff-match-patch/diff_match_patch.cpp:1498-1528 | with no exact match ahead, something is found whenever a stretch with fewer errors than the pattern has units scores within the threshold and ends before the expected place, or its end scores within the threshold too |
| Bitap.PastMissed | 3rdparty/diff-match-patch/diff_match_patch.cpp:1498-1500 | what the first row decides rules out that any exact match past the expected place is returned |
| Bitap.MissedAhead | 3rdparty/diff-match-patch/diff_match_patch.cpp:1498-1500 | a concrete text in which the nearest exact match, two units ahead, is not found |
| Bitap.MatchMain | 3rdparty/diff-match-patch/diff_match_patch.cpp:1425-1447 | a pattern that stands at the expected place is found there; an error exactly for a pattern over the limit of the settings, 0 being none, that no shortcut settles; otherwise what the fuzzy search promises |
| Patches.ChainConcat | 3rdparty/diff-match-patch/diff_match_patch.cpp:1792-1855 | applying two lists one after the other composes |
| Patches.ChainOnce | 3rdparty/diff-match-patch/diff_match_patch.cpp:1792-1855 | exact application has one result |
| PatchContext.UniquePadding | 3rdparty/diff-match-patch/diff_match_patch.cpp:1588-1597 | the padding grows until the pattern occurs once or is as long as it may get, and the loop ends |
| PatchContext.AddContext | 3rdparty/diff-match-patch/diff_match_patch.cpp:1582-1621 | the patch grows by what stands around its source, at least a margin unless the text ends, until the source can be told apart or is long enough |
| PatchContext.ContextHarmless | 3rdparty/diff-match-patch/diff_match_patch.cpp:1604-1620 | context changes neither where a patch fits nor what it does |
| PatchRuns.NoEchoHarmless | 3rdparty/diff-match-patch/diff_match_patch.cpp:1699-1705 | without a small equality inside a run equal to the last diff, every run stands |
| PatchRuns.EchoingHarm | 3rdparty/diff-match-patch/diff_match_patch.cpp:1699-1705 | deleting a and b around x before a last x does harm exactly when b is not x |
| PatchRuns.InsertingHarm | 3rdparty/diff-match-patch/diff_match_patch.cpp:1699-1705 | inserting a and b around x before a last x does harm exactly when b is not x |
| PatchRuns.EndsDifferHarmless | 3rdparty/diff-match-patch/diff_match_patch.cpp:1699-1705 | any diffs between two texts that do not end alike have only harmless echoes |
| PatchMaking.ClosePatch | 3rdparty/diff-match-patch/diff_match_patch.cpp:1707-1720 | closing a run that stands extends the chain to the text after it; closing one that does not leads away from it for good |
| PatchMaking.LeadsAway | 3rdparty/diff-match-patch/diff_match_patch.cpp:1699-1720 | a run with a harmful echo makes a patch that no exact application takes to the text after it |
| PatchMaking.StaysAway | 3rdparty/diff-match-patch/diff_match_patch.cpp:1707-1720 | no later patch makes up for it |
| PatchMaking.EditUnderway | 3rdparty/diff-match-patch/diff_match_patch.cpp:1676-1697 | after an edit the text as patched is the target so far and the source still to come, and the open patch starts and measures as the run does |
| PatchMaking.PatchMake | 3rdparty/diff-match-patch/diff_match_patch.cpp:1659-1739 | every patch has the lengths of its texts, one start that is not negative and an end within both texts' lengths; applied exactly in order the patches give the target if and only if every echo is harmless; without an equality that closes a patch at most one is made, of what is kept |
| PatchMaking.LoneApplies | 3rdparty/diff-match-patch/diff_match_patch.cpp:1659-1739 | that one patch applies exactly, right or wrong, where what is kept of the source stands |
| PatchPadding.PaddedFits | 3rdparty/diff-match-patch/diff_match_patch.cpp:1876-1915 | the padded first patch does to the padded text what the patch did to the text |
| PatchPadding.ChainBumped | 3rdparty/diff-match-patch/diff_match_patch.cpp:1869-1875 | patches moved by the padding chain between the padded texts |
| PatchPadding.AddPadding | 3rdparty/diff-match-patch/diff_match_patch.cpp:1862-1918 | all patches are bumped in place and both edges of the first one padded |
| PatchPadding.PaddedChain | 3rdparty/diff-match-patch/diff_match_patch.cpp:1862-1918 | the padded list takes the padded source to the padded target |
| PatchSplitting.FillPiece | 3rdparty/diff-match-patch/diff_match_patch.cpp:1946-1994 | a piece holds the context before it and a chunk cut off the front of the diffs, filled but within its room or one long deletion; something is always taken |
| PatchSplitting.CutPiece | 3rdparty/diff-match-patch/diff_match_patch.cpp:1946-2017 | a piece with a margin of context on both sides, as far as there is any |
| PatchSplitting.PieceApplies | 3rdparty/diff-match-patch/diff_match_patch.cpp:2003-2017 | a piece fits where the split stands and moves it past its chunk |
| PatchSplitting.SplitPatch | 3rdparty/diff-match-patch/diff_match_patch.cpp:1939-2020 | the pieces chain to what the patch does, each is short or an equality, one long deletion and perhaps an equality, whether or not the patch fits, and their starts drift apart by what was removed |
| PatchSplitting.SplitMax | 3rdparty/diff-match-patch/diff_match_patch.cpp:1920-2021 | every piece can be looked for, whether or not the list chains; a list that chains is split into one that does exactly the same; short lists stay, and the loops end |
| PatchApplying.Locate | 3rdparty/diff-match-patch/diff_match_patch.cpp:1786-1800 | a source text that stands as expected is found there, a long one by its two ends |
| PatchApplying.ShoveEdits | 3rdparty/diff-match-patch/diff_match_patch.cpp:1828-1850 | the edits are carried over one after the other, each at the place in the text that its place in the source corresponds to, and the index moves past what the patch keeps or inserts; what is before the match stays |
| PatchApplying.InsertionArrives | 3rdparty/diff-match-patch/diff_match_patch.cpp:1831-1835 | an insertion with context around it arrives whole at its equivalent place, and all else stays |
| PatchApplying.DeletionArrives | 3rdparty/diff-match-patch/diff_match_patch.cpp:1836-1841 | a deletion with context around it removes what stands between its equivalent places, and nothing else |
| PatchApplying.ApplyImperfect | 3rdparty/diff-match-patch/diff_match_patch.cpp:1820-1851 | a long source is only accepted where what was found is within the delete threshold of it in true Levenshtein distance; a short one always; then the edits are shoved in one by one at their places in a diff of the source and what was found; what is before the match stays, and a refusal leaves the text alone |
| PatchApplying.ApplyPatch | 3rdparty/diff-match-patch/diff_match_patch.cpp:1782-1853 | as expected means replaced by the target with no offset; a short source found elsewhere is replaced there and the offset says so; a short imperfect match has the edits shoved in; what is before the match stays; not applied means untouched |
| PatchApplying.ApplyAll | 3rdparty/diff-match-patch/diff_match_patch.cpp:1774-1855 | patches that chain give the chained text with every flag set and no offset between them |
| PatchApplying.PatchApply | 3rdparty/diff-match-patch/diff_match_patch.cpp:1760-1860 | through padding, splitting, search and stripping, patches that apply exactly give exactly what they chain to with every flag true; with no flag true the text is untouched |
| Numerals.NumberReads | 3rdparty/diff-match-patch/diff_match_patch.cpp:1357-1363 | a 32-bit number written in decimal reads back as itself |
| Numerals.NumeralReads | 3rdparty/diff-match-patch/diff_match_patch.cpp:2046-2078 | any spelling of a 32-bit number in decimal, leading zeros or a minus sign included, reads as that number |
| DeltaText.ToDelta | 3rdparty/diff-match-patch/diff_match_patch.cpp:1345-1371 | the tokens of the diffs with tabs between them and none after the last; each token is 43 and the text for an insertion, 45 and the length for a deletion, 61 and the length for an equality |
| DeltaText.FromDelta | 3rdparty/diff-match-patch/diff_match_patch.cpp:1373-1418 | accepted exactly when every token is known and together they cover the source; then the source of the diffs is the given text; tokens marked 43, 45 and 61, whoever wrote them, are read as the insertions, deletions and equalities they stand for |
| DeltaText.TokensRead | 3rdparty/diff-match-patch/diff_match_patch.cpp:1380-1416 | a list of tokens each of which stands for a diff reads as those diffs |
| DeltaText.AcceptedSource | 3rdparty/diff-match-patch/diff_match_patch.cpp:1397-1416 | what is accepted covers the source text exactly |
| DeltaText.AcceptedIff | 3rdparty/diff-match-patch/diff_match_patch.cpp:1380-1416 | a list of tokens reads exactly when every operation is known, no length is negative and the total length is that of the source |
| DeltaText.DeltaRoundTrip | 3rdparty/diff-match-patch/diff_match_patch.cpp:1345-1418 | reading a delta against its source gives back the diffs |
| PatchText.ToString | 3rdparty/diff-match-patch/diff_match_patch.cpp:116-155 | a header line and a line for each diff, each ended by a newline; the header is 64 64 32 45, a range, 32 43, a range, 32 64 64, and the line of a diff starts with 43 exactly for an insertion, 45 for a deletion and 32 for an equality |
| PatchText.HeaderFormed | 3rdparty/diff-match-patch/diff_match_patch.cpp:116-136 | the header has that form, the first numeral of a range being the start if the length is 0 and one more otherwise, the second one the length, left out if it is 1 |
| PatchText.FormReads | 3rdparty/diff-match-patch/diff_match_patch.cpp:2046-2078 | any line of that form, however its numbers are spelled, reads as the ranges it states |
| PatchText.LineStands | 3rdparty/diff-match-patch/diff_match_patch.cpp:2082-2104 | a line reads as a deletion after 45, an insertion after 43, an equality after 32, and as nothing otherwise |
| PatchText.HeaderReads | 3rdparty/diff-match-patch/diff_match_patch.cpp:2046-2078 | a header with ranges that are not negative reads back as written, in all three spellings of a length |
| PatchText.PatchToText | 3rdparty/diff-match-patch/diff_match_patch.cpp:2024-2030 | the lines of all patches in order |
| PatchText.PatchFromText | 3rdparty/diff-match-patch/diff_match_patch.cpp:2033-2110 | the loops read what the grammar of headers and lines says, errors included; any lines of the format, whoever wrote them, are read as the patches they stand for |
| PatchText.PatchTextRoundTrip | 3rdparty/diff-match-patch/diff_match_patch.cpp:2024-2110 | reading gives back the patches that were written |
| PatchExchange.RoundTrip | 3rdparty/diff-match-patch/diff_match_patch.cpp:1659-1860 | patches made from diffs and applied to their source give the target with every flag true when the echoes are harmless; wherever the patches apply exactly every flag is true, and the text is the target if and only if the echoes are harmless |
| PatchExchange.InsertingAstray | 3rdparty/diff-match-patch/diff_match_patch.cpp:1659-1860 | the patches made for two insertions into xx apply exactly and give abxx in place of axbx |
| PatchExchange.PatchDiffs | 3rdparty/diff-match-patch/diff_match_patch.cpp:1624-1640 | what is handed to making patches is a diff as the search gives it, with the semantic and then the efficiency cleanup run on it when it has more than two entries |
| PatchExchange.PatchMakeTexts | 3rdparty/diff-match-patch/diff_match_patch.cpp:1624-1640 | the cleaned-up diffs of any two texts, both cleanups having run on more than two of them, are right exactly when the encoded lines fit; then the patches chain from one text to the other exactly when the echoes are harmless, as they are whenever the texts do not end alike |
| PatchExchange.SendPatches | 3rdparty/diff-match-patch/diff_match_patch.h:45-59 | the sample program: what is read is what was written, as far as 32 bits and percent-encoding carry it, and with harmless echoes the second text comes out; so it does, with every flag true, for all texts that do not end alike and whose lines fit |

## Left out

- PatchExchange.RoundTrip: where the patches do not apply exactly, what the fuzzy branch makes of the text is not modelled.
- PatchExchange.SendPatches: when reading fails the model returns the first text in place of the exception. Texts that end alike are covered by the condition on the diffs, which under a time limit may depend on the clock.
- Bitap.MatchBitap: which of several matches with errors is returned is not characterised; negative distances are excluded.
- DiffSearch.DiffCompute: the steps of line mode are stated of the texts it is called with; of line mode inside half matches its caller is told only the texts, the normal form and the ceiling.
- DiffSearch.DiffTexts: a second has 1000000 clock ticks, as POSIX has it.
- Bitap.StartThreshold: searching back from the very end of the text may or may not see a match there, depending on the library version; the model allows both.
- DiffMetrics.DiffXIndex: past the source text, where the code reads an operation that was never set, only that it is not negative.
- PatchApplying.ApplyImperfect: once earlier deletions and insertions put an edit past the source text its place is not specified, and then only what is before the match is sure to stay.
- PatchApplying.ApplyPatch: likewise; where the edits of a long imperfect match go is stated for `ApplyImperfect` only.
- Settings: patches are made and applied with a positive margin, room for more than two margins in a word, words of at most 32 bits and a distance that is not negative; any thresholds and edit cost. A search needs a distance that is not negative and a pattern that fits a word, if it gets as far as the words.
- DeltaText.DeltaRoundTrip: for inserted texts that percent-encoding carries and lengths that fit 32 bits.
- PatchText.PatchTextRoundTrip: for texts that percent-encoding carries and ranges that are not negative and fit 32 bits.
- Percent-encoding (section 2.1 of RFC 3986) is any pair of functions; which texts it carries is stated where it matters. White space around a number, which the library ignores, is not modelled.
- The scores of semantic alignment (lines 937-978) are a parameter.
- Display (`diff_prettyHtml`, `toString` of a diff) and the overloads that only fill in an argument.
- Null texts are treated as empty ones; the last equality that may be null is an option.
- Heap release, pointers into list nodes beyond the positions they denote, 32-bit overflow of lengths, rounding of floats, and real time.
- Patches and diffs are values, so copying patches before applying them is implicit.
