# NEAR/n, OR and score lists, in Dafny

This project models the core of a document-at-a-time query evaluator: the
proximity operator `NEAR/n` over inverted lists (`QryopIlNear`), the union
operator `OR` over score lists (`QryopSlOr`) and the score list the operators
write into (`ScoreList`).

- `index.dfy` (module `Index`) holds the shared vocabulary:
  - Java `int` docids, as the subset type `Int32`, and `Integer.MAX_VALUE`;
  - the retrieval-model tag;
  - postings and inverted lists, each a `datatype`;
  - the measure that bounds every cursor loop.
- `near.dfy` (module `NearOp`) models `QryopIlNear.evaluate` and
  `getSmallestCurrentDocid`.
  - The DAAT cursors are an `array<int>` of `nextDoc` indices. The per-document
    position indices are a second `array<int>` (`positionIdx`).
  - Both loops of the source are kept as `while` loops with invariants.
  - The result is specified by `NearWindow`: for every argument in order, one
    occurrence in the document, each at least the previous one and at most `n`
    beyond it. Every position in a result posting is the argument-0 position
    that starts such a window.
- `score_list.dfy` (module `ScoreLists`) models the score list.
  - `ScoreList` is a `class` whose entry list `scores` is reassigned by `Add`.
  - `ScoreListEntry` is a `datatype`. Its `CompareTo` is the comparator as
    written, including Java's truncating `(int)` cast and `String.compareTo`.
- `or.dfy` (module `OrOp`) models `QryopSlOr.evaluate`, `evaluateBoolean` and
  `getDefaultScore`.
  - The merge loop is a method over the `nextDoc` array.
  - Each loop is proved against a recursive specification function:
    - `OrRun` for the loop as written;
    - `OrUnion` for the evidently intended loop.
  - `ScoreAt` and `MaxScore` are an independent reference definition of the
    union's scores.

Scores are `real`. The external-id lookup of the index
(`QryEval.getExternalDocid`) is a function parameter stored in the score list.

## Model

| member | source | states |
|---|---|---|
| NearOp.SmallestCurrentDocid | QryopIlNear.java:228-239 | the result is at most every cursor's current docid and equal to one of them; with no arguments it is Integer.MAX_VALUE |
| NearOp.SkipBelow | QryopIlNear.java:74-77 | only cursor i moves, forward over entries whose docid is below the candidate, and it stops past the end of its list or on the first docid not below the candidate |
| NearOp.CheckCandidate | QryopIlNear.java:70-90 | cursors only move forward, passing only docids below the candidate; the cursors scanned stop past their list or on a docid not below the candidate, and the rest stay; every scanned cursor but the last sits on the candidate, and the scan stops early only at a cursor that is off the candidate or exhausted; the exhausted flag holds exactly when the last scanned cursor ran off its list; the found flag holds exactly when every cursor sits on the candidate |
| NearOp.SkipBefore | QryopIlNear.java:119-122 | only argument i's position index moves, forward past exactly the positions below the current position, stopping on the first position not below it or at the end |
| NearOp.WalkForward | QryopIlNear.java:115-157 | a walk only moves indices forward and keeps them in range, and a broken walk moves at least one |
| NearOp.WalkExhausted | QryopIlNear.java:119-126 | an exhausted walk left some argument t (t at least the one the walk started from, so t >= 1) out of positions, with every later index unchanged |
| NearOp.WalkBroken | QryopIlNear.java:152-156 | a broken walk stopped at some argument t >= 1 whose position lies more than n beyond the position linked for argument t-1, whose index is now one past that linked position; every later index is unchanged |
| NearOp.WalkLinked | QryopIlNear.java:129-133 | a matched walk keeps the indices before its start and links every later argument to its predecessor: each position at least the previous one and at most n beyond it |
| NearOp.WalkOutcomes | QryopIlNear.java:111-158 | the walk from argument 0's position: exhausted means some argument t >= 1 ran out of positions; broken means argument t-1's index moved one past its linked position; matched means a full chain starting at that position |
| NearOp.LinkStep | QryopIlNear.java:116-157 | one link either ends the walk with the outcome the walk function gives, or links argument i to a position within n of the previous one and leaves the rest of the walk unchanged |
| NearOp.WalkChain | QryopIlNear.java:111-158 | the walk the loop performs is exactly the walk function's from the same indices, so it has the meaning `WalkOutcomes` states; indices only move forward; a match returns a full chain whose argument-0 position is the anchor |
| NearOp.BumpChain | QryopIlNear.java:140-148 | every index is bumped in turn until one runs out: exhausted holds exactly when some argument's chain index is its last position; otherwise every index is one past its chain index, and if exhausted the indices up to the first that ran out are one past the chain and the rest are unchanged |
| NearOp.RecordChain | QryopIlNear.java:136-148 | the anchor of a full chain is recorded after every earlier anchor and the recorded chains stay strictly ordered; unless an argument runs out, the indices move one past the chain, and exhausted holds exactly when one runs out |
| NearOp.FoundAppend | QryopIlNear.java:138 | a full chain after every recorded chain can be recorded: the chains stay strictly ordered in every argument |
| NearOp.MatchFromStep | QryopIlNear.java:106-159 | one round of the position loop, as a function: an exhausted walk ends it, a broken walk retries from the indices it left, a match records the anchor and continues one past the chain unless some argument runs out |
| NearOp.MatchFromFound | QryopIlNear.java:106-159 | every anchor the position loop records is the argument-0 position of a full chain, and those chains are strictly ordered in every argument |
| NearOp.MatchRound | QryopIlNear.java:106-159 | one round of the loop as a method leaves the anchors equal to what the loop function gives from the old indices, and shortens what is left to scan unless it ends the loop |
| NearOp.MatchPositions | QryopIlNear.java:94-159 | the anchors are exactly `Anchors` of the document's positions; each is a position of argument 0 and the anchor of a full chain, and the chains are strictly ordered in every argument (anchors strictly increase, no position is reused) |
| NearOp.PositionsFromAt | QryopIlNear.java:108-111 | in a valid list the positions looked up for a document are those of its posting |
| NearOp.DocPositionsAt | QryopIlNear.java:119-120 | argument i's positions in document d are those of argument i's posting for d |
| NearOp.PositionsAtDoc | QryopIlNear.java:107-131 | with every cursor on document d, the positions under the cursors are d's positions in every argument |
| NearOp.ChainWindow | QryopIlNear.java:129-138 | the positions a full chain picks form a NEAR/n window of the document starting at its anchor |
| NearOp.AnchorsStartWindows | QryopIlNear.java:136-138 | the recorded anchors form a posting of strictly increasing positions, each the start of a NEAR/n window of the document |
| NearOp.SearchDocument | QryopIlNear.java:97-159 | the candidate is in every argument; the anchors found are exactly those of the source's non-overlapping search (`Anchors`), each the start of a NEAR/n window; a non-empty anchor list is a valid NEAR/n posting for the candidate |
| NearOp.NotEverywhere | QryopIlNear.java:79-89 | a document missing from some argument contributes no posting |
| NearOp.NearSpecSkip | QryopIlNear.java:79-89 | argument 0's document that is missing from some argument adds nothing to the result |
| NearOp.NearSpecTail | QryopIlNear.java:66-67 | argument 0's documents that some argument cannot contain add nothing, so the loop may stop once that argument is exhausted |
| NearOp.NearSpecMember | QryopIlNear.java:67-177 | a posting is among those for argument 0's first j documents exactly when its docid is one of them, is in every argument, and its positions are that document's non-empty list of anchors |
| NearOp.NearPostingsMember | QryopIlNear.java:53-184 | a posting is in the NEAR/n result exactly when its document is in every argument and its positions are that document's non-empty list of window anchors |
| NearOp.NearPostingForIsNear | QryopIlNear.java:97-163 | the posting a document contributes, if any, is for that document, which is in every argument, and each of its positions starts a window |
| NearOp.NearSpecValid | QryopIlNear.java:62-163 | the postings for argument 0's first j documents form a valid inverted list in argument 0's field, every document in every argument, every position an anchor, every docid at most argument 0's j-th |
| NearOp.NearAppend | QryopIlNear.java:162-163 | appending at most one posting, for a docid above every docid already in the result, keeps the result valid and made of NEAR/n postings |
| NearOp.ExamineCandidate | QryopIlNear.java:70-164 | the cursors move exactly as the check loop says: forward over docids below the candidate; each scanned cursor stops past its list or on a docid not below the candidate; every scanned cursor but the last sits on the candidate; the scan stops early only at a cursor that is exhausted or off the candidate; the cursors after that stay where they were; exhausted holds exactly when the last scanned cursor ran off its list. When every cursor is on the candidate the result grows by exactly the candidate's posting (nothing if it has no windows); otherwise the result is unchanged |
| NearOp.NothingBelow | QryopIlNear.java:74-77 | a scan past docids below the smallest current docid moves no cursor |
| NearOp.CandidateStep | QryopIlNear.java:79-163 | examining the smallest current docid appends its posting exactly when argument 0's cursor is on it: if some other argument is not on it, that argument does not contain it |
| NearOp.ExamineSmallest | QryopIlNear.java:68-164 | on the smallest current docid the check loop moves no cursor and exhausts none, and the result grows by that document's posting exactly when argument 0's cursor is on it |
| NearOp.SkipPast | QryopIlNear.java:168-171 | only cursor i moves, forward over entries whose docid is at most the candidate, and it stops past the end of its list or on the first larger docid |
| NearOp.AdvancePast | QryopIlNear.java:166-176 | every cursor moves forward over docids at most the candidate; the cursors scanned end past their list or beyond the candidate, all but the last inside their lists; the rest stay; exhausted holds exactly when the last scanned cursor ran off its list, and otherwise every cursor was scanned |
| NearOp.PassHead | QryopIlNear.java:166-171 | after the advance, the result is the postings of argument 0's documents before its new cursor |
| NearOp.PassedUpTo | QryopIlNear.java:166-176 | after the advance every passed entry is at most the candidate; unless the last scanned cursor ran out, every cursor is on an entry and every passed docid is below every current one |
| NearOp.PassTail | QryopIlNear.java:172-175 | once an argument holds nothing above the candidate and argument 0's cursor is past it, argument 0's remaining documents add nothing |
| NearOp.PassExhausted | QryopIlNear.java:172-175 | once the advance exhausts a cursor, the result so far is the whole result |
| NearOp.PassCandidate | QryopIlNear.java:166-176 | the advance moves the cursors forward; unless a cursor ran out, some cursor moved, all are on entries, and the result is the postings of argument 0's documents before its cursor; if one ran out, the result is complete |
| NearOp.DocumentPass | QryopIlNear.java:67-177 | one round extends the result; while daatAvailable is unchanged some cursor moved, all are on entries, nothing below them is left, and the result is the postings of argument 0's documents before its cursor; once it drops, some cursor is exhausted and the result is the whole NEAR/n result |
| NearOp.Evaluate | QryopIlNear.java:53-184 | the result is exactly the NEAR/n result: argument 0's field, strictly increasing docids, every document in every argument and every posting a non-empty list of window anchors, and no such document left out; the loop ends with some cursor exhausted |
| OrOp.Evaluate | QryopSlOr.java:42-49 | the result is null exactly when the model is neither boolean model; otherwise it is a fresh score list holding the corrected union of the arguments |
| OrOp.EvaluateBoolean | QryopSlOr.java:58-113 | the new score list holds exactly what the loop as written emits from cursors at the start of every argument and daatAvailable equal to the argument count |
| OrOp.Passes | QryopSlOr.java:76-108 | the as-written loop, run from any state satisfying its invariant, leaves the result holding everything the specification says it emits |
| OrOp.Pass | QryopSlOr.java:77-107 | one pass moves the cursors, daatAvailable and the result exactly as one step of the loop's specification |
| OrOp.ScanSmallest | QryopSlOr.java:79-88 | the result is the smallest current docid over unexhausted cursors (MAX_VALUE if none), and daatAvailable drops by the number of exhausted cursors |
| OrOp.PassDocid | QryopSlOr.java:90-98 | exactly the cursors on the smallest docid move one entry on, and the folded score is the maximum of 0.0 and their scores |
| OrOp.AddMatch | QryopSlOr.java:100-107 | the result gains one entry exactly when the folded score is positive: that score under ranked boolean, 1.0 under unranked boolean |
| OrOp.MinCurrentLeast | QryopSlOr.java:80-88 | the smallest current docid is at most the docid under every unexhausted cursor |
| OrOp.MinCurrentAttained | QryopSlOr.java:80-88 | the smallest current docid is the docid under some unexhausted cursor, or MAX_VALUE when all are exhausted |
| OrOp.ExhaustedAll | QryopSlOr.java:81-85 | the exhausted count equals the number of cursors exactly when every cursor is at the end of its list |
| OrOp.FoldScoreNone | QryopSlOr.java:90-98 | when no cursor is on the docid, the folded score is 0.0 |
| OrOp.AdvanceAt | QryopSlOr.java:90-98 | after a pass each cursor is where one step of its own leaves it, still inside its list |
| OrOp.PassProgress | QryopSlOr.java:90-98 | a pass moves some cursor forward unless every cursor is exhausted, in which case it moves none |
| OrOp.PassDecreases | QryopSlOr.java:76-108 | every pass shortens what the cursors still have to pass, or leaves the cursors and lowers daatAvailable, so the loop terminates |
| OrOp.OrRunLoopStep | QryopSlOr.java:76-108 | one pass preserves the as-written loop's invariant: emitted output plus what the loop still emits is the whole result |
| OrOp.FoldIsMaxScore | QryopSlOr.java:90-98 | with the cursors past every smaller docid, the folded score of d is the best score any argument gives d (or 0.0) |
| OrOp.PassKeeps | QryopSlOr.java:79-98 | a pass handles a docid d above every docid already handled; afterwards every passed entry is at most d and every current docid is above d |
| OrOp.HeadSound | QryopSlOr.java:79-107 | what one pass emits is for the smallest current docid, which exceeds every docid already handled, with the reference score |
| OrOp.OrUnionSoundFrom | QryopSlOr.java:76-108 | the intended union emits strictly increasing docids above those already handled, each with a positive reference score, scored by that score (ranked) or 1.0 (unranked) |
| OrOp.OrUnionCompleteFrom | QryopSlOr.java:76-108 | the intended union emits every not yet handled docid to which some argument gives a positive score |
| OrOp.OrUnionCorrect | QryopSlOr.java:58-113 | the intended union emits, in strictly increasing order, exactly the docids some argument scores positively, each in some argument, with the best score (ranked) or 1.0 (unranked) |
| OrOp.MaxScorePositive | QryopSlOr.java:100-107 | a docid with a positive best score is in some argument |
| OrOp.OrRunPrefix | QryopSlOr.java:76-108 | what the loop as written emits is a prefix of the intended union: it can stop early but never emits anything different |
| OrOp.OrRunSound | QryopSlOr.java:58-113 | the as-written output is strictly increasing, and every entry is in some argument with a positive best score, scored as the model says |
| OrOp.OrRunOtherEmpty | QryopSlOr.java:100-107 | under any non-boolean model the loop adds nothing |
| OrOp.OrRunDropsTail | QryopSlOr.java:81-85 | for A = [1], B = [1, 2, 3, 4], the loop as written emits docids 1, 2 and 3 while the union is 1, 2, 3 and 4 |
| OrOp.UnionLoopStep | QryopSlOr.java:76-108 | a pass that starts from a full daatAvailable keeps the corrected loop's invariant and makes progress |
| OrOp.UnionPasses | QryopSlOr.java:76-108 | the corrected loop leaves the result holding the whole intended union |
| OrOp.EvaluateBooleanCorrected | QryopSlOr.java:58-113 | the new score list holds exactly the intended union of the arguments |
| OrOp.DefaultScore | QryopSlOr.java:123-129 | the default score is 0.0 under every model |
| OrOp.OrRunLength | QryopSlOr.java:76-108 | the loop as written emits at most one entry per posting its cursors still have to pass |
| OrOp.OrUnionLength | QryopSlOr.java:76-108 | the intended loop emits at most one entry per posting its cursors still have to pass |
| OrOp.NothingLeftEmitsNothing | QryopSlOr.java:90-107 | a pass over cursors that are all exhausted emits nothing |
| ScoreLists.ScoreList.constructor | ScoreList.java:38 | a new score list is empty |
| ScoreLists.ScoreList.Add | ScoreList.java:46-66 | exactly one entry is appended, carrying the docid, the score and the docid's external id looked up once; every earlier entry stays as it was; getDocid and getDocidScore of the new last index return the added docid and score, and of every earlier index what they returned before |
| ScoreLists.DoubleToInt | ScoreList.java:33 | the cast rounds toward zero and clamps to the int range; a difference strictly between -1 and 1 becomes 0 |
| ScoreLists.JavaStringCompare | ScoreList.java:34 | the string comparison is zero exactly when the external ids are equal |
| ScoreLists.JavaStringCompareAntisymmetric | ScoreList.java:34 | swapping the external ids negates the string comparison |
| ScoreLists.JavaStringCompareTransitive | ScoreList.java:34 | the string order is transitive |
| ScoreLists.ScoreListEntry.CompareTo | ScoreList.java:31-35 | a score higher by at least 1.0 sorts first; different scores less than 1.0 apart compare equal, whatever the external ids; equal scores compare equal exactly when the external ids are equal |
| ScoreLists.CompareToFlip | ScoreList.java:31-35 | swapping the entries flips the sign of the comparison |
| ScoreLists.CompareToNotConsistent | ScoreList.java:33 | scores 0.0, 0.5 and 1.0 compare equal pairwise in sequence, yet the first and last do not compare equal |
| ScoreLists.ScoreListEntry.CompareToIntended | ScoreList.java:31-35 | the intended comparator is zero exactly for equal scores and equal external ids |
| ScoreLists.CompareToIntendedFlip | ScoreList.java:31-35 | swapping the entries flips the sign of the intended comparison |
| ScoreLists.CompareToIntendedTransitive | ScoreList.java:31-35 | the intended comparator is transitive |
| ScoreLists.CompareToIntendedAgrees | ScoreList.java:31-35 | when the scores are equal or at least 1.0 apart, the comparator as written and the intended one have the same sign |

## Left out

- Allocating and freeing the DAAT cursors (`allocDaaTPtrs`, `freeDaaTPtrs`) is not modelled.
  - The arguments arrive already evaluated.
  - NEAR takes them as `InvList` values; OR takes them as `ScoreList` objects.
  - The cursors are a fresh `array<int>` of `nextDoc` indices.
  - `NearOp.Evaluate` returns its cursor array as the loop leaves it, where the source frees them at QryopIlNear.java:179.
- `syntaxCheckArgResults` and `QryEval.fatalError` are not modelled. `NearOp.Evaluate` requires instead that:
  - there are at least two arguments;
  - all share argument 0's field;
  - all are valid and non-empty.
- `NearOp.Evaluate` with an empty argument list is left out. The source reads `daatPtrs.get(0)` and `getDocid(nextDoc)` without bounds checks, so that case fails there.
- `NearOp.Evaluate` with a single argument is left out. The source's position loop (QryopIlNear.java:106-159) never advances `positionIdx[0]` in that case and does not terminate.
- The NEAR/n search reports only the anchors of non-overlapping windows. Once a window is found, every argument's index moves past it (QryopIlNear.java:140-148), so a window that reuses one of its positions is not reported: for argument positions A = [1, 2], B = [2] and n = 1 the search reports 1, although 2 also starts a window. `NearOp.SearchDocument` and `NearOp.NearPostings` state the anchors of that search, not every window start.
- NEAR windows allow equal positions in consecutive arguments. The source skips only positions strictly below the current one (QryopIlNear.java:120), so the model follows the code rather than a strictly increasing reading of the operator.
- The `IOException` paths are not modelled: argument evaluation is outside the model.
- The exception path of the external-id lookup is not modelled. The lookup is a total function parameter.
- `ConvertToScoreList` and `toString` are not modelled. Neither is reached by the modelled operators.
- `QryResult` is not modelled as a whole. NEAR returns its inverted list and OR returns its score list.
- Scores are real numbers, not IEEE doubles: no rounding, NaN or infinities.
- ScoreLists.JavaStringCompare: the external ids are sequences of Dafny characters compared character by character. `String.compareTo` compares UTF-16 code units, so an id holding a supplementary character (a surrogate pair) can compare with the opposite sign to the model's comparison.
- The retrieval-model class hierarchy is the tag `UnrankedBoolean | RankedBoolean | Other`.
- The comment at QryopSlOr.java:65-67 describes an exact-match operator. The code below it computes a union, and the model follows the code.
- OrOp.Evaluate calls the corrected loop (`EvaluateBooleanCorrected`), not the loop as written. The as-written loop is kept as `OrOp.EvaluateBoolean`; see Findings.
- Positions are unbounded integers. With the non-negative `int` positions an index stores, the subtraction `p - curPos` at QryopIlNear.java:129-130 cannot overflow.

## Findings

| source | as written | input that shows it | evidently intended | confidence | as-written member | corrected member |
|---|---|---|---|---|---|---|
| QryopSlOr.java:81-85 | every pass lowers `daatAvailable` once for each exhausted cursor, including cursors already counted in earlier passes, so the loop stops while other lists still have entries | two arguments A = [1], B = [1, 2, 3, 4], all scores 1.0: the result holds docids 1, 2, 3 and drops 4 | the loop runs until every cursor is exhausted, giving the full union of the arguments | not executed | OrOp.OrRunDropsTail | OrOp.EvaluateBooleanCorrected |
| ScoreList.java:33 | the score difference is cast to `int`, so scores less than 1.0 apart compare as equal and the ordering is not transitive | entries scored 0.0, 0.5 and 1.0: the first two compare equal, so do the last two, but the first and last do not | higher score first, equal scores ordered by external id | not executed | ScoreLists.CompareToNotConsistent | ScoreLists.CompareToIntendedTransitive |
