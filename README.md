# Advertisement selection: targeting evaluation and highest-rate selection

This project models the decision core of an advertising service that picks,
for a customer in a marketplace, the advertisement to render.

- **Targeting evaluation** (`Targeting`, TargetingEvaluator.dfy). A targeting
  group holds a list of targeting predicates. Each predicate gives a
  three-valued verdict (TRUE, FALSE, INDETERMINATE) for a request context. An
  evaluator is built for one request context and reduces a group to TRUE when
  every predicate is TRUE, and to FALSE otherwise. INDETERMINATE therefore
  counts against eligibility, and the group verdict is never INDETERMINATE.
  A predicate is modelled by its `evaluate` capability, a function from request
  context to verdict.
- **Advertisement selection** (`BusinessLogic`, AdvertisementSelectionLogic.dfy).
  A null or empty marketplace gives the empty advertisement. Otherwise the
  contents of the marketplace are walked in retrieval order, and each content's
  targeting groups in order. Every group that evaluates TRUE puts
  (group click-through rate, content) into a map ordered from the highest rate
  down; an equal rate overwrites the earlier entry. The first value of that map
  is returned, or the empty advertisement when the map is empty. The map is the
  specification (`RankingMap`, `FirstValue`, `Selection`). The method
  `SelectAdvertisement` is a nested loop that keeps the best candidate so far,
  replacing it on a rate at least as high, and is proved to return `Selection`.
  The lemmas show what that means: the last eligible pair with the highest rate
  wins, the result is empty exactly when nothing is eligible, and ineligible
  groups have no influence.
- **Category-spend predicate** (`CategorySpend`,
  CategorySpendValueTargetingPredicate.dfy). Only its test suite is part of
  this model. The tests fix the following behaviour. The customer's spend in
  the targeted category is compared with a threshold (LT or GT). An inversion
  flag swaps TRUE and FALSE. A request without a customer is INDETERMINATE in
  both polarities. A category without spend passes a non-inverted LT with a
  positive threshold. Each test is a lemma over the test's own fixture.

The two data sources (content by marketplace, targeting groups by content id)
are fields of function type of the selection class. The spend source is a
function parameter. Click-through rates are `real`. A Java `null` is `None`.
Where the category-spend tests leave a verdict open, the model answers
`Unfixed` rather than guessing one.

Two behaviours of the code are easy to miss, and the model keeps both.

- TargetingEvaluator.java:49-53 gives FALSE for any verdict that is not TRUE,
  so an INDETERMINATE predicate makes its group ineligible.
- The `put` at AdvertisementSelectionLogic.java:75 overwrites an equal key, so
  among pairs with the same highest rate the last eligible pair in retrieval
  order wins (content by content, and group by group within a content).

## Model

| member | source | states |
|---|---|---|
| Targeting.AnyNotTrue | src/com/amazon/ata/advertising/service/targeting/TargetingEvaluator.java:52 | `anyMatch(x -> !x.isTrue())` holds exactly when some verdict in the list is not TRUE |
| Targeting.TargetingEvaluator.Results | src/com/amazon/ata/advertising/service/targeting/TargetingEvaluator.java:51 | one verdict per predicate, each taken at the evaluator's context, in list order; characterised through `Targeting.TargetingEvaluator.Evaluate` and `Targeting.OnlyFixedContextMatters` |
| Targeting.TargetingEvaluator.Evaluate | src/com/amazon/ata/advertising/service/targeting/TargetingEvaluator.java:27-53 | the group verdict is TRUE exactly when every predicate is TRUE at the evaluator's context, and it is never INDETERMINATE |
| Targeting.EmptyGroupIsTrue | src/com/amazon/ata/advertising/service/targeting/TargetingEvaluator.java:49-53 | a group with no predicates evaluates to TRUE |
| Targeting.FalsePredicateMakesGroupFalse | src/com/amazon/ata/advertising/service/targeting/TargetingEvaluator.java:52-53 | one FALSE predicate makes the group FALSE, whatever the others give |
| Targeting.IndeterminatePredicateMakesGroupFalse | src/com/amazon/ata/advertising/service/targeting/TargetingEvaluator.java:52-53 | one INDETERMINATE predicate makes the group FALSE; it is never upgraded to TRUE |
| Targeting.OrderDoesNotMatter | src/com/amazon/ata/advertising/service/targeting/TargetingEvaluator.java:49-53 | two groups whose predicate lists are permutations of each other get the same verdict |
| Targeting.OnlyFixedContextMatters | src/com/amazon/ata/advertising/service/targeting/TargetingEvaluator.java:17-25 | every predicate is evaluated at the context fixed at construction: groups whose predicates agree there get the same verdict |
| BusinessLogic.IsEmpty | src/com/amazon/ata/advertising/service/businesslogic/AdvertisementSelectionLogic.java:66 | `StringUtils.isEmpty`: null or the empty string; characterised by `BusinessLogic.EmptyMarketplaceSelectsNothing` |
| BusinessLogic.EvaluatorFor | src/com/amazon/ata/advertising/service/businesslogic/AdvertisementSelectionLogic.java:61 | the evaluator is built for the request context of the customer and marketplace; characterised by `BusinessLogic.SelectionNonEmptyIffEligible` |
| BusinessLogic.ContentCandidates | src/com/amazon/ata/advertising/service/businesslogic/AdvertisementSelectionLogic.java:71-75 | the pairs one content puts, in group order; characterised by `BusinessLogic.ContentCandidatesMember` and `BusinessLogic.GroupAtPosition` |
| BusinessLogic.Candidates | src/com/amazon/ata/advertising/service/businesslogic/AdvertisementSelectionLogic.java:70-75 | the pairs put over all contents, in retrieval order; characterised by `BusinessLogic.EligibleIsCandidate`, `BusinessLogic.CandidateIsEligible`, `BusinessLogic.PairAtPosition` and `BusinessLogic.PositionOfEveryCandidate` |
| BusinessLogic.RankingMap | src/com/amazon/ata/advertising/service/businesslogic/AdvertisementSelectionLogic.java:69-75 | the `TreeMap` after every `put`; characterised by `BusinessLogic.RankingMapEntry` |
| BusinessLogic.Selection | src/com/amazon/ata/advertising/service/businesslogic/AdvertisementSelectionLogic.java:59-80 | the advertisement `selectAdvertisement` returns; characterised by `BusinessLogic.SelectionIsLastHighest`, `BusinessLogic.SelectedIsLastHighestPair` and `BusinessLogic.AdvertisementSelectionLogic.SelectAdvertisement` |
| BusinessLogic.EligibleGroups | src/com/amazon/ata/advertising/service/businesslogic/AdvertisementSelectionLogic.java:73-74 | the groups of a content that evaluate TRUE, in order; characterised by `BusinessLogic.ContentCandidatesOfEligible` |
| BusinessLogic.FirstValue | src/com/amazon/ata/advertising/service/businesslogic/AdvertisementSelectionLogic.java:76-80 | the first value of a map in descending key order is absent exactly for the empty map, and otherwise is the value under the greatest key |
| BusinessLogic.RankingMapEntry | src/com/amazon/ata/advertising/service/businesslogic/AdvertisementSelectionLogic.java:69-75 | after the puts, the map's keys are exactly the rates put, and each key holds the content of the last candidate put with that rate |
| BusinessLogic.ContentCandidatesMember | src/com/amazon/ata/advertising/service/businesslogic/AdvertisementSelectionLogic.java:71-75 | one content contributes exactly its groups that evaluate TRUE, each with that group's rate |
| BusinessLogic.EligibleIsCandidate | src/com/amazon/ata/advertising/service/businesslogic/AdvertisementSelectionLogic.java:70-75 | every content's group that evaluates TRUE is put, with the group's rate and that content |
| BusinessLogic.CandidateIsEligible | src/com/amazon/ata/advertising/service/businesslogic/AdvertisementSelectionLogic.java:70-75 | everything put comes from a content of the marketplace and one of its groups that evaluates TRUE |
| BusinessLogic.FirstValueIsLastHighest | src/com/amazon/ata/advertising/service/businesslogic/AdvertisementSelectionLogic.java:69-80 | putting candidates in order and taking the first value yields nothing for no candidates, else the content of the candidate with the highest rate after which every rate is lower |
| BusinessLogic.SelectionIsLastHighest | src/com/amazon/ata/advertising/service/businesslogic/AdvertisementSelectionLogic.java:59-80 | for a non-empty marketplace the result is empty exactly when there are no eligible pairs, and otherwise is the content of the last eligible pair with the highest rate |
| BusinessLogic.AdvertisementSelectionLogic.SelectAdvertisement | src/com/amazon/ata/advertising/service/businesslogic/AdvertisementSelectionLogic.java:59-80 | the nested scan with a best-so-far replaced on a rate at least as high returns exactly what the ordered map would (the `return` at line 108 hands back that value); being a function of its inputs, the selection is deterministic |
| BusinessLogic.AdvertisementSelectionLogic.constructor | src/com/amazon/ata/advertising/service/businesslogic/AdvertisementSelectionLogic.java:29-38 | the selection logic keeps the two data sources it is given |
| BusinessLogic.EmptyMarketplaceSelectsNothing | src/com/amazon/ata/advertising/service/businesslogic/AdvertisementSelectionLogic.java:60-67 | a null or empty marketplace gives the empty advertisement, whatever either data source holds |
| BusinessLogic.SelectionNonEmptyIffEligible | src/com/amazon/ata/advertising/service/businesslogic/AdvertisementSelectionLogic.java:70-80 | an advertisement is returned exactly when some content of the marketplace has a group evaluating TRUE |
| BusinessLogic.SelectedHasHighestEligibleRate | src/com/amazon/ata/advertising/service/businesslogic/AdvertisementSelectionLogic.java:63-80 | a returned content has a group evaluating TRUE whose rate is at least that of every TRUE group of every content |
| BusinessLogic.ContentCandidatesPrefix | src/com/amazon/ata/advertising/service/businesslogic/AdvertisementSelectionLogic.java:71-75 | the inner loop only appends: the pairs of the first groups of a content open the pairs of more of its groups |
| BusinessLogic.CandidatesPrefix | src/com/amazon/ata/advertising/service/businesslogic/AdvertisementSelectionLogic.java:70-75 | the outer loop only appends: the pairs of the first contents open the pairs of more contents |
| BusinessLogic.GroupAtPosition | src/com/amazon/ata/advertising/service/businesslogic/AdvertisementSelectionLogic.java:71-75 | a TRUE group's pair comes right after the pairs of the groups before it |
| BusinessLogic.ContentAtPosition | src/com/amazon/ata/advertising/service/businesslogic/AdvertisementSelectionLogic.java:70-75 | a content's pairs come right after the pairs of the contents before it |
| BusinessLogic.PairAtPosition | src/com/amazon/ata/advertising/service/businesslogic/AdvertisementSelectionLogic.java:70-75 | every eligible (content, group) pair is put at the position counting the eligible pairs before it in loop order |
| BusinessLogic.GroupOfCandidate | src/com/amazon/ata/advertising/service/businesslogic/AdvertisementSelectionLogic.java:71-75 | every pair one content puts comes from one of its TRUE groups, preceded by exactly as many pairs as its index |
| BusinessLogic.ContentOfCandidate | src/com/amazon/ata/advertising/service/businesslogic/AdvertisementSelectionLogic.java:70-75 | every pair put falls within the pairs of some content |
| BusinessLogic.PositionOfEveryCandidate | src/com/amazon/ata/advertising/service/businesslogic/AdvertisementSelectionLogic.java:70-75 | every position among the pairs put is the position of an eligible (content, group) pair |
| BusinessLogic.PositionIncreasing | src/com/amazon/ata/advertising/service/businesslogic/AdvertisementSelectionLogic.java:70-75 | a pair later in loop order (a later content, or a later group of the same content) is put later |
| BusinessLogic.SelectedIsLastHighestPair | src/com/amazon/ata/advertising/service/businesslogic/AdvertisementSelectionLogic.java:70-80 | a returned content belongs to an eligible (content, group) pair whose rate is at least every eligible rate and strictly above the rate of every eligible pair after it in loop order |
| BusinessLogic.SelectedComesFromContentDao | src/com/amazon/ata/advertising/service/businesslogic/AdvertisementSelectionLogic.java:70-79 | a returned content is one of those the content source gave for the marketplace |
| BusinessLogic.ContentWithoutGroupsNeverSelected | src/com/amazon/ata/advertising/service/businesslogic/AdvertisementSelectionLogic.java:71-75 | a content with no targeting groups is never returned |
| BusinessLogic.ContentCandidatesOfEligible | src/com/amazon/ata/advertising/service/businesslogic/AdvertisementSelectionLogic.java:72-75 | filtering a content's groups down to the TRUE ones first leaves its contribution unchanged |
| BusinessLogic.CandidatesOfEligible | src/com/amazon/ata/advertising/service/businesslogic/AdvertisementSelectionLogic.java:70-75 | filtering every content's groups down to the TRUE ones first leaves the pairs put unchanged |
| BusinessLogic.IneligibleGroupsIgnored | src/com/amazon/ata/advertising/service/businesslogic/AdvertisementSelectionLogic.java:73-75 | removing every group that does not evaluate TRUE leaves the selection unchanged |
| BusinessLogic.TieGoesToLaterContent | src/com/amazon/ata/advertising/service/businesslogic/AdvertisementSelectionLogic.java:75 | two eligible contents tied at rate 0.8: the one retrieved later is returned |
| BusinessLogic.HighestEligibleCandidates | src/com/amazon/ata/advertising/service/businesslogic/AdvertisementSelectionLogic.java:70-75 | contents A (0.3, eligible), B (0.9, a FALSE predicate) and C (0.6, eligible): only A and C are put, in that order |
| BusinessLogic.HighestEligibleWins | src/com/amazon/ata/advertising/service/businesslogic/AdvertisementSelectionLogic.java:70-80 | contents A (0.3, eligible), B (0.9, a FALSE predicate) and C (0.6, eligible): C is returned |
| CategorySpend.Compare | tst/com/amazon/ata/advertising/service/targeting/predicate/CategorySpendValueTargetingPredicateTest.java:41-79 | the comparison of the spend (left) with the threshold (right), LT or GT as the tests set it; characterised by `CategorySpend.Evaluate` and the four pass/fail lemmas |
| CategorySpend.Invert | tst/com/amazon/ata/advertising/service/targeting/predicate/CategorySpendValueTargetingPredicateTest.java:61-79 | inversion swaps TRUE and FALSE and keeps INDETERMINATE |
| CategorySpend.Evaluate | tst/com/amazon/ata/advertising/service/targeting/predicate/CategorySpendValueTargetingPredicateTest.java:41-112 | INDETERMINATE exactly when the customer is absent; with the category present, TRUE exactly when the comparison of spend with threshold differs from the inversion flag; with a customer but a category without spend, TRUE exactly under a non-inverted LT with a positive threshold; `Unfixed` exactly in the remaining missing-category cases |
| CategorySpend.InversionFlipsOnlyTrueAndFalse | tst/com/amazon/ata/advertising/service/targeting/predicate/CategorySpendValueTargetingPredicateTest.java:61-79 | where the verdict is known, the inverted predicate gives the inverted verdict of the plain one |
| CategorySpend.MissingCustomerIsIndeterminate | tst/com/amazon/ata/advertising/service/targeting/predicate/CategorySpendValueTargetingPredicateTest.java:92-112 | without a customer the verdict is INDETERMINATE, inverted or not |
| CategorySpend.MockSpendDao | tst/com/amazon/ata/advertising/service/targeting/predicate/CategorySpendValueTargetingPredicateTest.java:37 | the stubbed spend lookup answers the fixture's request context with the given map; characterised by the seven test lemmas |
| CategorySpend.PredicatePass | tst/com/amazon/ata/advertising/service/targeting/predicate/CategorySpendValueTargetingPredicateTest.java:41-49 | spend 1000, LT 1100: TRUE |
| CategorySpend.PredicateFail | tst/com/amazon/ata/advertising/service/targeting/predicate/CategorySpendValueTargetingPredicateTest.java:51-59 | spend 1000, GT 1100: FALSE |
| CategorySpend.PredicatePassInverse | tst/com/amazon/ata/advertising/service/targeting/predicate/CategorySpendValueTargetingPredicateTest.java:61-69 | spend 1000, GT 1100, inverted: TRUE |
| CategorySpend.PredicateFailInverse | tst/com/amazon/ata/advertising/service/targeting/predicate/CategorySpendValueTargetingPredicateTest.java:71-79 | spend 1000, LT 1100, inverted: FALSE |
| CategorySpend.CategoryNotPresentInMap | tst/com/amazon/ata/advertising/service/targeting/predicate/CategorySpendValueTargetingPredicateTest.java:81-90 | spend only in another category, LT 1100: TRUE |
| CategorySpend.Unrecognized | tst/com/amazon/ata/advertising/service/targeting/predicate/CategorySpendValueTargetingPredicateTest.java:92-101 | no customer, LT 1100: INDETERMINATE |
| CategorySpend.UnrecognizedInverse | tst/com/amazon/ata/advertising/service/targeting/predicate/CategorySpendValueTargetingPredicateTest.java:103-112 | no customer, LT 1100, inverted: INDETERMINATE |

## Left out

- Logging: the warning on a null or empty marketplace has no effect on the result.
- The random number source, `setRandom`, and the commented-out uniform random choice among eligible contents are not current behaviour.
- The commented-out loop and `allMatch` variants of the evaluator are not current behaviour.
- The unused map built before the marketplace check (lines 63-64) has no effect.
- The `IMPLEMENTED_STREAMS` and `IMPLEMENTED_CONCURRENCY` flags are constants only; nothing concurrent happens.
- Data-source implementations, caching and dependency injection: the sources are given pure functions. A failing read is not modelled.
- Click-through rates are `real`: NaN and signed zero of Java `Double` keys are not modelled.
- The payload and rendering of the generated advertisement are not modelled; only "empty" versus "wraps this content". Content fields other than its id are not modelled.
- The implementation of the category-spend predicate is not part of this model, only its tests; the Mockito set-up becomes a spend lookup that answers the fixture's context and gives an empty map otherwise.
- The comparisons LE, GE, EQ and NE are not modelled: no test exercises them.
- CategorySpend.Evaluate: gives `Unfixed` for a category without spend under GT, under an inverted LT, or under an LT threshold of zero or below, because no test fixes those verdicts.
- The category constants' string values are not part of this model; two distinct placeholder names stand for them.
