/**
 * The targeting evaluator: reduces the verdicts of a targeting group's
 * predicates, all taken against one request context, to TRUE or FALSE.
 */
module Targeting {
  import opened Model

  /** `anyMatch(x -> !x.isTrue())` over a list of verdicts. */
  function AnyNotTrue(results: seq<TargetingPredicateResult>): (r: bool)
    ensures r <==> exists i :: 0 <= i < |results| && !results[i].IsTrue()
  {
    if results == [] then false
    else !results[0].IsTrue() || AnyNotTrue(results[1..])
  }

  /** An evaluator is built for one request context, which it never changes. */
  datatype TargetingEvaluator = TargetingEvaluator(requestContext: RequestContext)
  {
    /** `map(x -> x.evaluate(requestContext))` over the group's predicates. */
    function Results(group: TargetingGroup): seq<TargetingPredicateResult>
    {
      var ps := group.targetingPredicates;
      seq(|ps|, i requires 0 <= i < |ps| => ps[i](requestContext))
    }

    /** TRUE when every predicate of the group is TRUE, FALSE otherwise. */
    function Evaluate(group: TargetingGroup): (r: TargetingPredicateResult)
      ensures r == TRUE <==>
        forall i :: 0 <= i < |group.targetingPredicates| ==> group.targetingPredicates[i](requestContext) == TRUE
      ensures r != INDETERMINATE
    {
      var results := Results(group);
      assert forall i :: 0 <= i < |results| ==> results[i] == group.targetingPredicates[i](requestContext);
      if AnyNotTrue(results) then FALSE else TRUE
    }
  }

  /** A group without predicates is eligible. */
  lemma EmptyGroupIsTrue(evaluator: TargetingEvaluator, group: TargetingGroup)
    requires group.targetingPredicates == []
    ensures evaluator.Evaluate(group) == TRUE
  {
  }

  /** One FALSE predicate makes the group FALSE, whatever the others say. */
  lemma FalsePredicateMakesGroupFalse(evaluator: TargetingEvaluator, group: TargetingGroup, i: nat)
    requires i < |group.targetingPredicates|
    requires group.targetingPredicates[i](evaluator.requestContext) == FALSE
    ensures evaluator.Evaluate(group) == FALSE
  {
  }

  /** One INDETERMINATE predicate also makes the group FALSE: it is never upgraded to TRUE. */
  lemma IndeterminatePredicateMakesGroupFalse(evaluator: TargetingEvaluator, group: TargetingGroup, i: nat)
    requires i < |group.targetingPredicates|
    requires group.targetingPredicates[i](evaluator.requestContext) == INDETERMINATE
    ensures evaluator.Evaluate(group) == FALSE
  {
  }

  /** Reordering (or permuting) the predicates of a group does not change its verdict. */
  lemma {:induction false} OrderDoesNotMatter(evaluator: TargetingEvaluator, g1: TargetingGroup, g2: TargetingGroup)
    requires multiset(g1.targetingPredicates) == multiset(g2.targetingPredicates)
    ensures evaluator.Evaluate(g1) == evaluator.Evaluate(g2)
  {
    var ctx := evaluator.requestContext;
    var ps1, ps2 := g1.targetingPredicates, g2.targetingPredicates;
    if evaluator.Evaluate(g1) == TRUE {
      forall j | 0 <= j < |ps2| ensures ps2[j](ctx) == TRUE {
        assert ps2[j] in multiset(ps1);
        var i :| 0 <= i < |ps1| && ps1[i] == ps2[j];
      }
    } else {
      var i :| 0 <= i < |ps1| && ps1[i](ctx) != TRUE;
      assert ps1[i] in multiset(ps2);
      var j :| 0 <= j < |ps2| && ps2[j] == ps1[i];
    }
  }

  /**
   * Only the verdicts at the evaluator's own context matter: two groups whose
   * predicates agree there, position by position, get the same verdict.
   */
  lemma {:induction false} OnlyFixedContextMatters(evaluator: TargetingEvaluator, g1: TargetingGroup, g2: TargetingGroup)
    requires |g1.targetingPredicates| == |g2.targetingPredicates|
    requires forall i :: 0 <= i < |g1.targetingPredicates| ==>
      g1.targetingPredicates[i](evaluator.requestContext) == g2.targetingPredicates[i](evaluator.requestContext)
    ensures evaluator.Evaluate(g1) == evaluator.Evaluate(g2)
  {
    assert evaluator.Results(g1) == evaluator.Results(g2);
  }
}
