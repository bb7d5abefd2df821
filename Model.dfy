/**
 * Values shared by the targeting evaluator, the predicates and the selection
 * logic: request contexts, three-valued predicate results, targeting groups,
 * advertisement content and the generated advertisement.
 */
module Model {

  /** A Java reference that may be null. */
  datatype Option<+T> = None | Some(value: T)

  /** TargetingPredicateResult: the verdict of one targeting predicate. */
  datatype TargetingPredicateResult = TRUE | FALSE | INDETERMINATE
  {
    predicate IsTrue() { this == TRUE }
  }

  /** The identity a request is made for; either identifier may be null. */
  datatype RequestContext = RequestContext(customerId: Option<string>, marketplaceId: Option<string>)

  /**
   * A targeting predicate is known to the evaluator only through its
   * `evaluate(RequestContext)` method, so it is modelled as that function.
   */
  type TargetingPredicate = RequestContext -> TargetingPredicateResult

  /** A rule set for one content, with the click-through rate used to rank it. */
  datatype TargetingGroup = TargetingGroup(
    targetingGroupId: string,
    contentId: string,
    clickThroughRate: real,
    targetingPredicates: seq<TargetingPredicate>)

  /** A candidate advertisement; only its identifier matters to selection. */
  datatype AdvertisementContent = AdvertisementContent(contentId: string)

  /** The selection result: the empty advertisement or one wrapping a content. */
  datatype GeneratedAdvertisement = Empty | Ad(content: AdvertisementContent)
}
