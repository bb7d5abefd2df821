/**
 * The category-spend targeting predicate, as far as its tests pin it down:
 * the customer's spend in one category is compared with a threshold, an
 * inversion flag swaps TRUE and FALSE, a request without a customer is
 * INDETERMINATE in both polarities, and a category the customer has no spend
 * in passes a positive less-than threshold.
 */
module CategorySpend {
  import opened Model

  /** The comparisons the predicate is tested with. */
  datatype Comparison = LT | GT

  /** `comparison` applied to the spend (left) and the threshold (right). */
  function Compare(comparison: Comparison, spend: int, threshold: int): bool
  {
    match comparison
    case LT => spend < threshold
    case GT => spend > threshold
  }

  /** What a customer spent in one category. */
  datatype Spend = Spend(numberOfPurchases: int, usdSpent: int)

  /** The spend lookup, keyed by request context, giving a map from category to spend. */
  type SpendDao = RequestContext -> map<string, Spend>

  datatype CategorySpendValueTargetingPredicate = CategorySpendValueTargetingPredicate(
    targetedCategory: string,
    comparison: Comparison,
    targetedValue: int,
    inverse: bool)

  /** Inversion swaps TRUE and FALSE and leaves INDETERMINATE alone. */
  function Invert(result: TargetingPredicateResult): (r: TargetingPredicateResult)
    ensures r == INDETERMINATE <==> result == INDETERMINATE
    ensures r != INDETERMINATE ==> r != result
  {
    match result
    case TRUE => FALSE
    case FALSE => TRUE
    case INDETERMINATE => INDETERMINATE
  }

  /** A verdict the tests fix, or Unfixed where no test says what the predicate answers. */
  datatype TestedVerdict = Unfixed | Fixed(verdict: TargetingPredicateResult)

  function FromBool(b: bool): TargetingPredicateResult
  {
    if b then TRUE else FALSE
  }

  /**
   * The verdict of `spendPredicate.evaluate(requestContext)`, or Unfixed where
   * the tests do not fix it: a category without spend under any setting other
   * than a non-inverted LT with a positive threshold.
   */
  function Evaluate(spendPredicate: CategorySpendValueTargetingPredicate, requestContext: RequestContext,
                    spendDao: SpendDao): (r: TestedVerdict)
    ensures r == Fixed(INDETERMINATE) <==> requestContext.customerId.None?
    ensures r.Unfixed? <==>
      && requestContext.customerId.Some?
      && spendPredicate.targetedCategory !in spendDao(requestContext)
      && !(spendPredicate.comparison == LT && !spendPredicate.inverse && 0 < spendPredicate.targetedValue)
    ensures requestContext.customerId.Some? && spendPredicate.targetedCategory !in spendDao(requestContext) ==>
      (r == Fixed(TRUE) <==> spendPredicate.comparison == LT && !spendPredicate.inverse && 0 < spendPredicate.targetedValue)
    ensures requestContext.customerId.Some? && spendPredicate.targetedCategory in spendDao(requestContext) ==>
      r.Fixed? &&
      (r.verdict == TRUE <==>
        Compare(spendPredicate.comparison, spendDao(requestContext)[spendPredicate.targetedCategory].usdSpent, spendPredicate.targetedValue)
          != spendPredicate.inverse)
  {
    if requestContext.customerId.None? then Fixed(INDETERMINATE)
    else
      var spends := spendDao(requestContext);
      if spendPredicate.targetedCategory in spends then
        var result := FromBool(Compare(spendPredicate.comparison, spends[spendPredicate.targetedCategory].usdSpent,
                                       spendPredicate.targetedValue));
        Fixed(if spendPredicate.inverse then Invert(result) else result)
      else if spendPredicate.comparison == LT && !spendPredicate.inverse && 0 < spendPredicate.targetedValue then Fixed(TRUE)
      else Unfixed
  }

  /**
   * Setting the inversion flag turns TRUE into FALSE and FALSE into TRUE, and
   * keeps INDETERMINATE, wherever the verdict is known.
   */
  lemma InversionFlipsOnlyTrueAndFalse(spendPredicate: CategorySpendValueTargetingPredicate, requestContext: RequestContext,
                                       spendDao: SpendDao)
    requires requestContext.customerId.None? || spendPredicate.targetedCategory in spendDao(requestContext)
    ensures var plain := Evaluate(spendPredicate.(inverse := false), requestContext, spendDao);
            var inverted := Evaluate(spendPredicate.(inverse := true), requestContext, spendDao);
            plain.Fixed? && inverted.Fixed? && inverted.verdict == Invert(plain.verdict)
  {
  }

  /** A request without a customer is INDETERMINATE, inverted or not. */
  lemma MissingCustomerIsIndeterminate(spendPredicate: CategorySpendValueTargetingPredicate, requestContext: RequestContext,
                                       spendDao: SpendDao)
    requires requestContext.customerId.None?
    ensures Evaluate(spendPredicate.(inverse := false), requestContext, spendDao) == Fixed(INDETERMINATE)
    ensures Evaluate(spendPredicate.(inverse := true), requestContext, spendDao) == Fixed(INDETERMINATE)
  {
  }

  // The test fixture: customer "1" in marketplace "2" spent 1000 in one purchase
  // in the targeted category. The two category names are placeholders for the
  // constants of the category catalogue, which is not part of this model.

  const CUSTOMER_ID: string := "1"
  const MARKETPLACE_ID: string := "2"
  const REQUEST_CONTEXT: RequestContext := RequestContext(Some(CUSTOMER_ID), Some(MARKETPLACE_ID))
  const COMPUTERS: string := "COMPUTERS"
  const AMAZON_MUSIC: string := "AMAZON_MUSIC"
  const USD_SPENT: int := 1000
  const SPEND: Spend := Spend(1, USD_SPENT)

  /** The mocked spend lookup: `answer` for the fixture's context, an empty map for any other. */
  function MockSpendDao(answer: map<string, Spend>): SpendDao
  {
    requestContext => if requestContext == REQUEST_CONTEXT then answer else map[]
  }

  lemma PredicatePass()
    ensures Evaluate(CategorySpendValueTargetingPredicate(COMPUTERS, LT, USD_SPENT + 100, false),
                     REQUEST_CONTEXT, MockSpendDao(map[COMPUTERS := SPEND])) == Fixed(TRUE)
  {
  }

  lemma PredicateFail()
    ensures Evaluate(CategorySpendValueTargetingPredicate(COMPUTERS, GT, USD_SPENT + 100, false),
                     REQUEST_CONTEXT, MockSpendDao(map[COMPUTERS := SPEND])) == Fixed(FALSE)
  {
  }

  lemma PredicatePassInverse()
    ensures Evaluate(CategorySpendValueTargetingPredicate(COMPUTERS, GT, USD_SPENT + 100, true),
                     REQUEST_CONTEXT, MockSpendDao(map[COMPUTERS := SPEND])) == Fixed(TRUE)
  {
  }

  lemma PredicateFailInverse()
    ensures Evaluate(CategorySpendValueTargetingPredicate(COMPUTERS, LT, USD_SPENT + 100, true),
                     REQUEST_CONTEXT, MockSpendDao(map[COMPUTERS := SPEND])) == Fixed(FALSE)
  {
  }

  lemma CategoryNotPresentInMap()
    ensures Evaluate(CategorySpendValueTargetingPredicate(COMPUTERS, LT, USD_SPENT + 100, false),
                     REQUEST_CONTEXT, MockSpendDao(map[AMAZON_MUSIC := SPEND])) == Fixed(TRUE)
  {
  }

  lemma Unrecognized()
    ensures Evaluate(CategorySpendValueTargetingPredicate(COMPUTERS, LT, USD_SPENT + 100, false),
                     RequestContext(None, Some(MARKETPLACE_ID)), MockSpendDao(map[COMPUTERS := SPEND]))
         == Fixed(INDETERMINATE)
  {
  }

  lemma UnrecognizedInverse()
    ensures Evaluate(CategorySpendValueTargetingPredicate(COMPUTERS, LT, USD_SPENT + 100, true),
                     RequestContext(None, Some(MARKETPLACE_ID)), MockSpendDao(map[COMPUTERS := SPEND]))
         == Fixed(INDETERMINATE)
  {
  }
}
