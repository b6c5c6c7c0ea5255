/**
 * The targeting verdict of one targeting group for one request context
 * (class TargetingEvaluator). Each predicate of the group yields one of three
 * results; the evaluator folds them into TRUE or FALSE through the one-field
 * accumulator `allTruePredicates`, which starts out true and is cleared by any
 * predicate that yields FALSE.
 *
 * The predicates are evaluated here one after another; the worker pool of the
 * original is abstracted away (see the README).
 */
module Targeting {
  import opened Wrappers

  /** Three-valued outcome of a targeting predicate. */
  datatype PredicateResult = TRUE | FALSE | INDETERMINATE {
    /** The strict reading: only TRUE is TRUE. */
    predicate IsTrue() { this == TRUE }
  }

  /** Who is asking (customer) and where (marketplace); either may be null. */
  datatype RequestContext = RequestContext(customerId: Option<string>, marketplaceId: Option<string>)

  /** A targeting predicate is only known through its evaluation contract. */
  datatype TargetingPredicate = TargetingPredicate(evaluate: RequestContext -> PredicateResult)

  /** A targeting group qualifies one content, with a click-through rate and its predicates. */
  datatype TargetingGroup = TargetingGroup(
    targetingGroupId: string,
    contentId: string,
    clickThroughRate: real,
    targetingPredicates: seq<TargetingPredicate>)

  /** No predicate of `ps` yields FALSE for `ctx`. */
  ghost predicate NoneFalse(ctx: RequestContext, ps: seq<TargetingPredicate>) {
    forall i | 0 <= i < |ps| :: ps[i].evaluate(ctx) != FALSE
  }

  /** Every predicate of `ps` yields TRUE for `ctx`: what the doc comment of evaluate promises. */
  ghost predicate AllTrue(ctx: RequestContext, ps: seq<TargetingPredicate>) {
    forall i | 0 <= i < |ps| :: ps[i].evaluate(ctx) == TRUE
  }

  /** One step of the accumulator: a FALSE result clears it, anything else leaves it alone. */
  function Step(allTrue: bool, result: PredicateResult): bool {
    if result == FALSE then false else allTrue
  }

  /** The accumulator after the predicates of `ps` have run in order, starting from true. */
  function Accumulate(ctx: RequestContext, ps: seq<TargetingPredicate>): bool
    decreases |ps|
  {
    if ps == [] then true
    else Step(Accumulate(ctx, ps[..|ps| - 1]), ps[|ps| - 1].evaluate(ctx))
  }

  /** The accumulator stays set exactly when no predicate has yielded FALSE. */
  lemma {:induction false} AccumulateIsNoneFalse(ctx: RequestContext, ps: seq<TargetingPredicate>)
    ensures Accumulate(ctx, ps) <==> NoneFalse(ctx, ps)
    decreases |ps|
  {
    if ps != [] {
      var init := ps[..|ps| - 1];
      AccumulateIsNoneFalse(ctx, init);
      assert forall i | 0 <= i < |init| :: init[i] == ps[i];
    }
  }

  /**
   * The verdict of evaluate for a group with predicates `ps`: FALSE when the
   * accumulator was cleared, TRUE otherwise. It is never INDETERMINATE, and it
   * is TRUE exactly when no predicate yields FALSE.
   */
  function Verdict(ctx: RequestContext, ps: seq<TargetingPredicate>): (r: PredicateResult)
    ensures r != INDETERMINATE
    ensures r == TRUE <==> NoneFalse(ctx, ps)
  {
    AccumulateIsNoneFalse(ctx, ps);
    if Accumulate(ctx, ps) then TRUE else FALSE
  }

  /**
   * The strict reading found in the older, commented-out loop: stop at the first
   * predicate that is not TRUE and answer FALSE, otherwise TRUE.
   */
  function StrictVerdict(ctx: RequestContext, ps: seq<TargetingPredicate>): PredicateResult
    decreases |ps|
  {
    if ps == [] then TRUE
    else if !ps[0].evaluate(ctx).IsTrue() then FALSE
    else StrictVerdict(ctx, ps[1..])
  }

  /** The strict reading is TRUE exactly when every predicate yields TRUE. */
  lemma {:induction false} StrictVerdictIsAllTrue(ctx: RequestContext, ps: seq<TargetingPredicate>)
    ensures StrictVerdict(ctx, ps) != INDETERMINATE
    ensures StrictVerdict(ctx, ps) == TRUE <==> AllTrue(ctx, ps)
    decreases |ps|
  {
    if ps != [] && ps[0].evaluate(ctx).IsTrue() {
      StrictVerdictIsAllTrue(ctx, ps[1..]);
      assert forall i | 1 <= i < |ps| :: ps[i] == ps[1..][i - 1];
    }
  }

  /** A group without predicates is vacuously satisfied. */
  lemma EmptyGroupIsTrue(ctx: RequestContext)
    ensures Verdict(ctx, []) == TRUE
  {
  }

  /** One FALSE predicate makes the whole group FALSE, whatever the others yield. */
  lemma FalseDominates(ctx: RequestContext, ps: seq<TargetingPredicate>, i: int)
    requires 0 <= i < |ps| && ps[i].evaluate(ctx) == FALSE
    ensures Verdict(ctx, ps) == FALSE
  {
  }

  /** A group whose predicates all yield TRUE is TRUE. */
  lemma AllTrueIsTrue(ctx: RequestContext, ps: seq<TargetingPredicate>)
    requires AllTrue(ctx, ps)
    ensures Verdict(ctx, ps) == TRUE
  {
  }

  /**
   * INDETERMINATE never clears the accumulator: a group whose predicates yield
   * only TRUE and INDETERMINATE is TRUE, even when some of them are INDETERMINATE.
   */
  lemma IndeterminateDoesNotClear(ctx: RequestContext, ps: seq<TargetingPredicate>)
    requires forall i | 0 <= i < |ps| :: ps[i].evaluate(ctx) == TRUE || ps[i].evaluate(ctx) == INDETERMINATE
    ensures Verdict(ctx, ps) == TRUE
  {
  }

  /** Without INDETERMINATE results, the accumulator agrees with the strict reading. */
  lemma ReadingsAgreeWithoutIndeterminate(ctx: RequestContext, ps: seq<TargetingPredicate>)
    requires forall i | 0 <= i < |ps| :: ps[i].evaluate(ctx) != INDETERMINATE
    ensures Verdict(ctx, ps) == StrictVerdict(ctx, ps)
  {
    StrictVerdictIsAllTrue(ctx, ps);
  }

  /** A single INDETERMINATE predicate separates the two readings. */
  lemma ReadingsDifferOnIndeterminate(ctx: RequestContext)
    ensures var ps := [TargetingPredicate(_ => INDETERMINATE)];
            Verdict(ctx, ps) == TRUE && StrictVerdict(ctx, ps) == FALSE
  {
    var ps := [TargetingPredicate(_ => INDETERMINATE)];
    assert ps[0].evaluate(ctx) == INDETERMINATE;
  }

  /** The verdict does not depend on the order in which the predicates are listed (or run). */
  lemma VerdictIgnoresOrder(ctx: RequestContext, ps: seq<TargetingPredicate>, qs: seq<TargetingPredicate>)
    requires multiset(ps) == multiset(qs)
    ensures Verdict(ctx, ps) == Verdict(ctx, qs)
  {
    forall i | 0 <= i < |qs| && NoneFalse(ctx, ps) ensures qs[i].evaluate(ctx) != FALSE {
      assert qs[i] in multiset(ps);
    }
    forall i | 0 <= i < |ps| && NoneFalse(ctx, qs) ensures ps[i].evaluate(ctx) != FALSE {
      assert ps[i] in multiset(qs);
    }
  }

  /**
   * Evaluates targeting groups for one request context. `allTruePredicates` is
   * the accumulator; it is an instance field, as in the original.
   */
  class TargetingEvaluator {
    const requestContext: RequestContext
    var allTruePredicates: bool

    /** An evaluator for `requestContext`; the accumulator starts at Java's default, false. */
    constructor (requestContext: RequestContext)
      ensures this.requestContext == requestContext
      ensures !allTruePredicates
    {
      this.requestContext := requestContext;
      allTruePredicates := false;
    }

    /**
     * The verdict of `targetingGroup` for the request context. The accumulator is
     * reset on entry, so the result depends on the group and the context only,
     * never on earlier calls; afterwards the field holds the verdict.
     */
    method Evaluate(targetingGroup: TargetingGroup) returns (r: PredicateResult)
      modifies this
      ensures r == Verdict(requestContext, targetingGroup.targetingPredicates)
      ensures allTruePredicates <==> r == TRUE
    {
      allTruePredicates := true;
      var targetingPredicates := targetingGroup.targetingPredicates;
      var i := 0;
      while i < |targetingPredicates|
        invariant 0 <= i <= |targetingPredicates|
        invariant allTruePredicates == Accumulate(requestContext, targetingPredicates[..i])
      {
        if targetingPredicates[i].evaluate(requestContext) == FALSE {
          allTruePredicates := false;
        }
        assert targetingPredicates[..i + 1][..i] == targetingPredicates[..i];
        i := i + 1;
      }
      assert targetingPredicates[..i] == targetingPredicates;
      if !allTruePredicates {
        return FALSE;
      }
      return TRUE;
    }
  }

  /**
   * An evaluator that has already judged another group answers exactly as a
   * new evaluator for the same context: the accumulator carries nothing over.
   */
  method EvaluateAfterEarlierCall(ctx: RequestContext, earlier: TargetingGroup, group: TargetingGroup)
    returns (reused: PredicateResult, unused: PredicateResult)
    ensures reused == unused
    ensures reused == Verdict(ctx, group.targetingPredicates)
  {
    var evaluator := new TargetingEvaluator(ctx);
    var first := evaluator.Evaluate(earlier);
    reused := evaluator.Evaluate(group);
    var other := new TargetingEvaluator(ctx);
    unused := other.Evaluate(group);
  }
}
