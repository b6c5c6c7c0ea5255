# Advertisement selection and targeting verdict, modelled in Dafny

This project models the core of an advertising service that decides which
advertisement a customer sees on a marketplace. It has two cooperating parts.

- **Targeting verdict** (`TargetingEvaluator.evaluate`, module `Targeting`).
  Each targeting predicate answers TRUE, FALSE or INDETERMINATE for a request
  context. The evaluator folds the answers of one targeting group into TRUE or
  FALSE through its accumulator field `allTruePredicates`. The field is reset to
  true on every call and cleared by any FALSE answer. The class
  `Targeting.TargetingEvaluator` keeps the context as a constant, keeps the
  accumulator as a mutable field, and runs the fold in a `while` loop. The loop
  is proved against the specification function `Targeting.Verdict`.
- **Advertisement selection** (`AdvertisementSelectionLogic.selectAdvertisement`,
  modules `Selection` and `Streams`). The method works as follows:
  - an empty marketplace id gives the empty advertisement;
  - otherwise it takes the distinct content ids of the marketplace's contents;
  - it appends the targeting groups of each id into one pool;
  - it keeps the groups the evaluator calls TRUE;
  - it stable-sorts them by click-through rate (CTR), highest first, and takes the head;
  - it returns the first content whose id matches that group, or the empty advertisement.

  The class `Selection.AdvertisementSelectionLogic` holds the two lookups as
  constants. Its method `SelectAdvertisement` builds the pool with a loop and
  searches the contents with an early-return loop, as the original does. The
  original filters with a stream; the model filters with a loop, because each
  call to the evaluator changes the evaluator's field. The method is proved equal
  to the specification function `Selection.Select`. The stream stages are in
  `Streams`: `Distinct`, the filter `Eligible` and the stable sort
  `SortByCtrDescending`. `Selection.Pool` is the value that the `for`/`addAll`
  loop builds; the method's loop is proved to build exactly it.

Types: Java `null` strings are `Option<string>` (`Wrappers.Option`). The
result `GeneratedAdvertisement` is `Empty | Ad(content)`. CTR is a `real`,
because the code only compares CTRs. A predicate is a datatype that wraps a
total function `RequestContext -> PredicateResult`. The content lookup and the
targeting-group lookup are total functions passed in: `string ->
seq<AdvertisementContent>` and `string -> seq<TargetingGroup>`.

The source differs from its own documentation in three places, and the model
follows the code in each.

- Random versus top CTR. The comments inside `selectAdvertisement`
  (AdvertisementSelectionLogic.java:71, 74 and 109) say that a random eligible
  advertisement is chosen. Lines 104-113 always take the eligible group with the
  highest CTR, the earliest one among equal CTRs. `Selection.TopEligibleDecides`
  and `Selection.WinnerIsTopEligible` state the code's behaviour.
- No fallback. The Javadoc (lines 56-58) says the method returns the eligible
  content with the highest CTR, and the empty advertisement only when nothing is
  available or eligible. The code returns the empty advertisement whenever the
  top group's content id matches no content, even when a lower-ranked eligible
  group's content exists. `Selection.EmptyResultCases` states this, and
  `Selection.NoFallbackToNextRanked` builds such a case. This can happen only
  when the targeting-group lookup returns a group whose content id is not the
  id it was asked for. Every pool group comes from a lookup of a content id
  (line 92), and every such id is carried by some content (lines 83-86). When
  the lookup returns only groups of the requested id, the code keeps the
  Javadoc's promise: `Selection.ConsistentLookupYieldsAd` proves that an
  eligible group then always yields an advertisement.
- INDETERMINATE. The doc comment of `evaluate` (TargetingEvaluator.java:35) and
  the older commented-out loop (lines 99-105) say the verdict is TRUE only when
  every predicate is TRUE. The code clears the accumulator only on FALSE
  (lines 48-50), so INDETERMINATE answers leave the group TRUE.
  `Targeting.ReadingsAgreeWithoutIndeterminate` proves that the two readings
  agree when no predicate is INDETERMINATE.
  `Targeting.ReadingsDifferOnIndeterminate` gives a one-predicate group on
  which they differ.

## Model

| member | source | states |
|---|---|---|
| `Targeting.Accumulate` | src/com/amazon/ata/advertising/service/targeting/TargetingEvaluator.java:38-55 | the value of `allTruePredicates` after the predicates have run in order: it starts at true, and a FALSE answer clears it (definition; its meaning is `AccumulateIsNoneFalse`) |
| `Targeting.AccumulateIsNoneFalse` | src/com/amazon/ata/advertising/service/targeting/TargetingEvaluator.java:38-55 | the accumulator, started at true and cleared by every FALSE answer, ends true exactly when no predicate answers FALSE |
| `Targeting.Verdict` | src/com/amazon/ata/advertising/service/targeting/TargetingEvaluator.java:75-108 | the verdict is never INDETERMINATE, and it is TRUE exactly when no predicate of the group answers FALSE |
| `Targeting.TargetingEvaluator.constructor` | src/com/amazon/ata/advertising/service/targeting/TargetingEvaluator.java:20-29 | the evaluator keeps the given request context; the accumulator starts at Java's default, false |
| `Targeting.TargetingEvaluator.Evaluate` | src/com/amazon/ata/advertising/service/targeting/TargetingEvaluator.java:37-110 | the sequential fold returns the verdict of the group's predicates for the evaluator's context, whatever the accumulator held before; afterwards the field is set exactly when the verdict is TRUE |
| `Targeting.EvaluateAfterEarlierCall` | src/com/amazon/ata/advertising/service/targeting/TargetingEvaluator.java:38 | an evaluator that has already judged another group answers exactly as a new evaluator for the same context |
| `Targeting.EmptyGroupIsTrue` | src/com/amazon/ata/advertising/service/targeting/TargetingEvaluator.java:37-108 | a group without predicates is TRUE |
| `Targeting.FalseDominates` | src/com/amazon/ata/advertising/service/targeting/TargetingEvaluator.java:47-79 | one predicate answering FALSE makes the group FALSE, whatever the others answer |
| `Targeting.AllTrueIsTrue` | src/com/amazon/ata/advertising/service/targeting/TargetingEvaluator.java:31-108 | a group whose predicates all answer TRUE is TRUE |
| `Targeting.IndeterminateDoesNotClear` | src/com/amazon/ata/advertising/service/targeting/TargetingEvaluator.java:48-50 | a group whose predicates answer only TRUE or INDETERMINATE is TRUE |
| `Targeting.StrictVerdict` | src/com/amazon/ata/advertising/service/targeting/TargetingEvaluator.java:99-105 | the commented-out loop, which answers FALSE at the first predicate that is not TRUE (definition; its meaning is `StrictVerdictIsAllTrue`) |
| `Targeting.StrictVerdictIsAllTrue` | src/com/amazon/ata/advertising/service/targeting/TargetingEvaluator.java:99-105 | the strict loop, which stops at the first answer that is not TRUE, yields TRUE exactly when every predicate answers TRUE, and never yields INDETERMINATE |
| `Targeting.ReadingsAgreeWithoutIndeterminate` | src/com/amazon/ata/advertising/service/targeting/TargetingEvaluator.java:35-105 | when no predicate answers INDETERMINATE, the accumulator's verdict equals the strict all-TRUE reading of the doc comment |
| `Targeting.ReadingsDifferOnIndeterminate` | src/com/amazon/ata/advertising/service/targeting/TargetingEvaluator.java:35-50 | a group of one INDETERMINATE predicate is TRUE as written, and FALSE under the strict reading |
| `Targeting.VerdictIgnoresOrder` | src/com/amazon/ata/advertising/service/targeting/TargetingEvaluator.java:41-55 | any permutation of the predicate list gives the same verdict, so the order in which tasks run does not matter |
| `Selection.IdsOf` | src/com/amazon/ata/advertising/service/businesslogic/AdvertisementSelectionLogic.java:84 | the content id of each content, in order (definition of the `map` step; the contract on the id list is `ContentIds`) |
| `Streams.Distinct` | src/com/amazon/ata/advertising/service/businesslogic/AdvertisementSelectionLogic.java:85 | drops every value that already occurred earlier (definition; its contract is `DistinctProperties`) |
| `Streams.DistinctProperties` | src/com/amazon/ata/advertising/service/businesslogic/AdvertisementSelectionLogic.java:85 | `distinct` keeps every value of its input exactly once, with nothing else, ordered by first occurrence |
| `Streams.FirstIndex` | src/com/amazon/ata/advertising/service/businesslogic/AdvertisementSelectionLogic.java:85 | the position returned holds the value, and no earlier position does |
| `Selection.ContentIds` | src/com/amazon/ata/advertising/service/businesslogic/AdvertisementSelectionLogic.java:83-86 | the content-id list has no duplicates, contains exactly the ids present in the contents, and orders them by first occurrence |
| `Selection.Pool` | src/com/amazon/ata/advertising/service/businesslogic/AdvertisementSelectionLogic.java:90-93 | the groups of each content id, concatenated in id order (definition; its properties are `PoolAppend` and `PoolMembers`) |
| `Selection.PoolAppend` | src/com/amazon/ata/advertising/service/businesslogic/AdvertisementSelectionLogic.java:90-93 | one more `addAll` of an id's groups extends the pool of the earlier ids by exactly those groups, at the end |
| `Selection.PoolMembers` | src/com/amazon/ata/advertising/service/businesslogic/AdvertisementSelectionLogic.java:90-93 | a group is in the pool exactly when the lookup of one of the content ids returns it |
| `Streams.Eligible` | src/com/amazon/ata/advertising/service/businesslogic/AdvertisementSelectionLogic.java:105 | the filtered list is no longer than the pool, and every group in it has verdict TRUE (that it is the in-order subsequence of the eligible groups is `EligibleIsSubsequence`) |
| `Streams.EligibleTakesFromInput` | src/com/amazon/ata/advertising/service/businesslogic/AdvertisementSelectionLogic.java:105 | the filter only keeps groups taken from its input, each at most as often as it occurs there |
| `Streams.EligiblePositions` | src/com/amazon/ata/advertising/service/businesslogic/AdvertisementSelectionLogic.java:105 | the eligible positions of the pool, strictly increasing, each eligible, and every eligible position included |
| `Streams.EligibleIsSubsequence` | src/com/amazon/ata/advertising/service/businesslogic/AdvertisementSelectionLogic.java:105 | the filter keeps exactly the groups at the eligible positions, in pool order |
| `Streams.EligibleComplete` | src/com/amazon/ata/advertising/service/businesslogic/AdvertisementSelectionLogic.java:105 | every group of the pool with verdict TRUE survives the filter |
| `Streams.EligibleEmpty` | src/com/amazon/ata/advertising/service/businesslogic/AdvertisementSelectionLogic.java:105-110 | the filter leaves nothing exactly when no group of the pool has verdict TRUE |
| `Streams.InsertByCtr` | src/com/amazon/ata/advertising/service/businesslogic/AdvertisementSelectionLogic.java:106 | one step of the stable sort: the group goes before the first group whose CTR is not above its own (definition; its properties are `InsertPermutes`, `InsertKeepsDescending` and `InsertIsStable`) |
| `Streams.SortByCtrDescending` | src/com/amazon/ata/advertising/service/businesslogic/AdvertisementSelectionLogic.java:106 | the sort by CTR, reversed, as a stable insertion sort (definition; its contract is `SortProperties`) |
| `Streams.InsertPermutes` | src/com/amazon/ata/advertising/service/businesslogic/AdvertisementSelectionLogic.java:106 | one insertion step of the sort adds exactly the inserted group |
| `Streams.InsertKeepsDescending` | src/com/amazon/ata/advertising/service/businesslogic/AdvertisementSelectionLogic.java:106 | inserting into a list ordered by CTR, highest first, keeps it ordered |
| `Streams.InsertIsStable` | src/com/amazon/ata/advertising/service/businesslogic/AdvertisementSelectionLogic.java:106 | an inserted group lands before every group of the same CTR that follows it in the input |
| `Streams.SortProperties` | src/com/amazon/ata/advertising/service/businesslogic/AdvertisementSelectionLogic.java:106 | the sort by CTR, reversed, yields a permutation of its input, ordered highest CTR first, and keeps the input order among groups of equal CTR |
| `Streams.FirstMaxIndex` | src/com/amazon/ata/advertising/service/businesslogic/AdvertisementSelectionLogic.java:106-107 | the position returned carries the largest CTR of the list, and every earlier position a strictly smaller one |
| `Streams.SortHeadIsFirstMax` | src/com/amazon/ata/advertising/service/businesslogic/AdvertisementSelectionLogic.java:106-107 | `findFirst` after the stable sort yields the earliest group of largest CTR |
| `Streams.FirstMaxOfEligible` | src/com/amazon/ata/advertising/service/businesslogic/AdvertisementSelectionLogic.java:104-107 | the earliest largest-CTR group of the filtered list is the top eligible group of the pool: TRUE verdict, no eligible group with higher CTR, every earlier eligible group strictly lower |
| `Streams.TopEligibleUnique` | src/com/amazon/ata/advertising/service/businesslogic/AdvertisementSelectionLogic.java:104-107 | at most one position of the pool is the top eligible group, so the tie-break is deterministic |
| `Streams.TopEligibleExists` | src/com/amazon/ata/advertising/service/businesslogic/AdvertisementSelectionLogic.java:104-110 | a top eligible group exists exactly when the filter leaves something |
| `Selection.IsEmpty` | src/com/amazon/ata/advertising/service/businesslogic/AdvertisementSelectionLogic.java:77 | `StringUtils.isEmpty`: true exactly for null or a string of length zero, so a blank " " is not empty |
| `Selection.BlankIsNotEmpty` | src/com/amazon/ata/advertising/service/businesslogic/AdvertisementSelectionLogic.java:77 | null and "" count as empty; a blank " " does not |
| `Selection.Select` | src/com/amazon/ata/advertising/service/businesslogic/AdvertisementSelectionLogic.java:65-127 | the specification of the selection: an empty marketplace id gives the empty advertisement, and a returned advertisement is one of the marketplace's contents (the lemmas below state the rest) |
| `Selection.FindContent` | src/com/amazon/ata/advertising/service/businesslogic/AdvertisementSelectionLogic.java:110-117 | the content search yields the empty advertisement exactly when no content carries the id, and a returned content is one of the contents and carries the id |
| `Selection.FindContentIsFirstMatch` | src/com/amazon/ata/advertising/service/businesslogic/AdvertisementSelectionLogic.java:111-115 | the content search returns the content at the first position carrying the id |
| `Selection.EmptyMarketplaceYieldsEmpty` | src/com/amazon/ata/advertising/service/businesslogic/AdvertisementSelectionLogic.java:65-126 | a null or "" marketplace id yields the empty advertisement, whatever either lookup would return |
| `Selection.NoEligibleYieldsEmpty` | src/com/amazon/ata/advertising/service/businesslogic/AdvertisementSelectionLogic.java:104-126 | when no group of the pool is eligible, the result is the empty advertisement |
| `Selection.TopEligibleDecides` | src/com/amazon/ata/advertising/service/businesslogic/AdvertisementSelectionLogic.java:104-115 | the result is the content search for the top eligible group's content id: highest CTR, earliest among equal CTRs |
| `Selection.WinnerIsTopEligible` | src/com/amazon/ata/advertising/service/businesslogic/AdvertisementSelectionLogic.java:104-113 | a returned advertisement comes from the top eligible group of the pool and wraps the first content whose id equals that group's content id |
| `Selection.EmptyResultCases` | src/com/amazon/ata/advertising/service/businesslogic/AdvertisementSelectionLogic.java:77-126 | the result is empty exactly when the marketplace id is empty, no group is eligible, or no content carries the top eligible group's id |
| `Selection.ConsistentLookupYieldsAd` | src/com/amazon/ata/advertising/service/businesslogic/AdvertisementSelectionLogic.java:56-58 | when every group the lookup returns carries the requested content id, a non-empty marketplace id with some eligible pool group yields an advertisement, as the Javadoc promises |
| `Selection.NoFallbackToNextRanked` | src/com/amazon/ata/advertising/service/businesslogic/AdvertisementSelectionLogic.java:110-117 | a concrete pool whose top group names a missing content gives the empty advertisement, although the next eligible group's content exists |
| `Selection.AdvertisementSelectionLogic.constructor` | src/com/amazon/ata/advertising/service/businesslogic/AdvertisementSelectionLogic.java:29-43 | the selector keeps the two lookups it is given |
| `Selection.AdvertisementSelectionLogic.SelectAdvertisement` | src/com/amazon/ata/advertising/service/businesslogic/AdvertisementSelectionLogic.java:65-127 | the loops build the pool, filter it through one evaluator for (customer, marketplace) and search the contents; the result equals the selection specified by `Select`, about which the lemmas above are proved |

## Left out

- The worker pool of `evaluate` is not modelled: `newCachedThreadPool`, `submit`, `shutdown`/`shutdownNow`, the 5-second `awaitTermination`, the `InterruptedException` handler and its console output (TargetingEvaluator.java:40,53,82-92). The model runs the predicates one after another.
- Targeting.TargetingEvaluator.Evaluate: does not model the data race on `allTruePredicates` (TargetingEvaluator.java:21,50). Within one call, line 78 may read the flag before any task has run, and line 108 answers TRUE without reading it again after the wait. The race also crosses calls. The FALSE return at line 79 does not wait for the other tasks; `shutdownNow` at line 53 only interrupts them. The TRUE path gives up waiting after 5 seconds (lines 87 and 92). A task still running can therefore execute line 50 during a later `evaluate`, after that call's reset at line 38, and turn the later group FALSE. `selectAdvertisement` uses one evaluator for every group (AdvertisementSelectionLogic.java:99-105), so this can happen between groups of one selection. The model gives the intended semantics: every predicate of a call runs within that call, then the flag is read. Timeouts of slow predicates are not modelled either.
- Targeting.EvaluateAfterEarlierCall: its promise, that a reused evaluator answers like a new one, holds for the sequential model only. In the original, a late task from an earlier call can clear the flag during a later call, as described in the line above.
- Early cancellation after the first FALSE is not modelled. In the original, a task that sees FALSE calls `shutdownNow` (TargetingEvaluator.java:53), possibly while the submit loop (lines 41-56) is still running. The next `submit` is then refused with `RejectedExecutionException`, the default policy of the cached thread pool. That exception escapes `evaluate` and, through the filter at AdvertisementSelectionLogic.java:105, escapes `selectAdvertisement`. The model has no such exception: every group gets a verdict.
- The unused `Random` field and `setRandom` (AdvertisementSelectionLogic.java:31,49-51) are left out, as is the commented-out random pick (lines 120-124).
- Logging (AdvertisementSelectionLogic.java:78) is left out.
- The lookups are total functions. Their implementations are not part of this model, and neither are their failures. An exception thrown by a lookup would propagate unchanged in the original.
- Concrete targeting predicates are not part of this model. A predicate is any total function from the request context to a result.
- Failing predicates are not modelled. In the original, a predicate whose `evaluate` throws fails inside the task submitted at TargetingEvaluator.java:42. So does one that returns null, which throws `NullPointerException` at `.equals` on lines 48-49. `submit` keeps the exception in a `Future` that nothing reads, so it is swallowed. The flag is not cleared, so the group stays TRUE unless another predicate answers FALSE: such a predicate behaves like one answering INDETERMINATE. The model's predicates are total functions and cannot fail.
- CTR is a `real`. Java `double` semantics are not modelled: NaN ordering and rounding are absent.
- The sort is modelled as a stable insertion sort rather than Java's merge sort. Only its observable contract is used: a stable permutation ordered by CTR, highest first.
- A null content id on the winning group would throw `NullPointerException` at AdvertisementSelectionLogic.java:112. A null content id on a content does not throw there, because `String.equals(null)` is false. The model has no null content ids.
- Three null lists would throw `NullPointerException`, and the model has none of them: a null `contents` list from the content lookup (AdvertisementSelectionLogic.java:83), a null group list from the targeting-group lookup passed to `addAll` (line 92), and a null predicate list in a targeting group (TargetingEvaluator.java:41). Lookups and groups always give sequences here.
- Null entries inside those lists are not modelled either: the model's sequences cannot hold null, so each of the following inputs still gets a result in the model. A null entry in `contents` throws `NullPointerException` in `.map(AdvertisementContent::getContentId)` (AdvertisementSelectionLogic.java:84), which escapes `selectAdvertisement`. A null entry in a list returned by the targeting-group lookup enters the pool through `addAll` (line 92). The filter at line 105 then passes it to `evaluate`, which throws at `targetingGroup.getTargetingPredicates()` (TargetingEvaluator.java:39), and that exception escapes `selectAdvertisement`. A null entry in a group's predicate list fails inside its task (TargetingEvaluator.java:48). That failure is swallowed in the unread `Future`, so the entry behaves like a predicate answering INDETERMINATE.
