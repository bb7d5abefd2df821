/**
 * Advertisement selection: among the targeting groups of every content of a
 * marketplace, keep those that evaluate TRUE and return the content of the one
 * with the highest click-through rate.
 *
 * The source ranks the eligible (group, content) pairs by `put`ting them, in
 * retrieval order, into a map keyed by the group's rate and ordered from the
 * highest rate down, and then takes the first value. That map is the
 * specification here (RankingMap, FirstValue); the method scans the pairs once,
 * keeping the best so far.
 */
module BusinessLogic {
  import opened Model
  import opened Targeting

  /** An entry put into the ranking map: an eligible group's rate and its content. */
  datatype Candidate = Candidate(clickThroughRate: real, content: AdvertisementContent)

  /** `StringUtils.isEmpty`: null or the empty string. */
  predicate IsEmpty(s: Option<string>)
  {
    s.None? || s.value == ""
  }

  /** The candidates of one content: its TRUE groups, in the order of the list. */
  function ContentCandidates(evaluator: TargetingEvaluator, content: AdvertisementContent, groups: seq<TargetingGroup>): seq<Candidate>
  {
    if groups == [] then []
    else
      var last := groups[|groups| - 1];
      ContentCandidates(evaluator, content, groups[..|groups| - 1]) +
      (if evaluator.Evaluate(last).IsTrue() then [Candidate(last.clickThroughRate, content)] else [])
  }

  /** The candidates of all contents, in retrieval order. */
  function Candidates(evaluator: TargetingEvaluator, contents: seq<AdvertisementContent>,
                      targetingGroupDao: string -> seq<TargetingGroup>): seq<Candidate>
  {
    if contents == [] then []
    else
      var last := contents[|contents| - 1];
      Candidates(evaluator, contents[..|contents| - 1], targetingGroupDao) +
      ContentCandidates(evaluator, last, targetingGroupDao(last.contentId))
  }

  /** The map after `put(rate, content)` for every candidate in order: an equal rate overwrites. */
  function RankingMap(candidates: seq<Candidate>): map<real, AdvertisementContent>
  {
    if candidates == [] then map[]
    else
      var last := candidates[|candidates| - 1];
      RankingMap(candidates[..|candidates| - 1])[last.clickThroughRate := last.content]
  }

  ghost predicate IsGreatest(keys: set<real>, k: real)
  {
    k in keys && forall k' :: k' in keys ==> k' <= k
  }

  lemma NonEmptyHasElement(keys: set<real>)
    ensures keys != {} ==> exists x :: x in keys
  {
    if forall x :: x !in keys {
      assert keys == {};
    }
  }

  lemma GreatestExists(keys: set<real>)
    requires keys != {}
    ensures exists k :: IsGreatest(keys, k)
    decreases keys
  {
    NonEmptyHasElement(keys);
    var x :| x in keys;
    var rest := keys - {x};
    if rest == {} {
      forall k' | k' in keys ensures k' <= x {
        assert k' !in rest;
      }
      assert IsGreatest(keys, x);
    } else {
      GreatestExists(rest);
      var k :| IsGreatest(rest, k);
      var top := if x <= k then k else x;
      forall k' | k' in keys ensures k' <= top {
        if k' != x { assert k' in rest; }
      }
      assert IsGreatest(keys, top);
    }
  }

  lemma GreatestIsUnique(keys: set<real>, a: real, b: real)
    requires IsGreatest(keys, a) && IsGreatest(keys, b)
    ensures a == b
  {
    assert a <= b && b <= a;
  }

  /**
   * `values().stream().findFirst()` on a map ordered by `Comparator.reverseOrder()`:
   * the value stored under the greatest key, if any.
   */
  ghost function FirstValue(m: map<real, AdvertisementContent>): (r: Option<AdvertisementContent>)
    ensures r.None? <==> m.Keys == {}
    ensures r.Some? ==> exists k :: IsGreatest(m.Keys, k) && m[k] == r.value
  {
    if m.Keys == {} then None
    else
      GreatestExists(m.Keys);
      var k :| IsGreatest(m.Keys, k);
      Some(m[k])
  }

  /** The evaluator `selectAdvertisement` builds for the request. */
  function EvaluatorFor(customerId: Option<string>, marketplaceId: Option<string>): TargetingEvaluator
  {
    TargetingEvaluator(RequestContext(customerId, marketplaceId))
  }

  /** The advertisement `selectAdvertisement(customerId, marketplaceId)` returns. */
  ghost function Selection(customerId: Option<string>, marketplaceId: Option<string>,
                           contentDao: string -> seq<AdvertisementContent>,
                           targetingGroupDao: string -> seq<TargetingGroup>): GeneratedAdvertisement
  {
    if IsEmpty(marketplaceId) then Empty
    else
      var evaluator := EvaluatorFor(customerId, marketplaceId);
      match FirstValue(RankingMap(Candidates(evaluator, contentDao(marketplaceId.value), targetingGroupDao)))
      case None => Empty
      case Some(content) => Ad(content)
  }

  lemma ContentCandidatesStep(evaluator: TargetingEvaluator, content: AdvertisementContent,
                              groups: seq<TargetingGroup>, j: int)
    requires 0 <= j < |groups|
    ensures ContentCandidates(evaluator, content, groups[..j + 1])
         == ContentCandidates(evaluator, content, groups[..j]) +
            (if evaluator.Evaluate(groups[j]).IsTrue() then [Candidate(groups[j].clickThroughRate, content)] else [])
  {
    assert groups[..j + 1][..j] == groups[..j];
  }

  lemma CandidatesStep(evaluator: TargetingEvaluator, contents: seq<AdvertisementContent>,
                       targetingGroupDao: string -> seq<TargetingGroup>, i: int)
    requires 0 <= i < |contents|
    ensures Candidates(evaluator, contents[..i + 1], targetingGroupDao)
         == Candidates(evaluator, contents[..i], targetingGroupDao) +
            ContentCandidates(evaluator, contents[i], targetingGroupDao(contents[i].contentId))
  {
    assert contents[..i + 1][..i] == contents[..i];
  }

  lemma RankingMapStep(candidates: seq<Candidate>, c: Candidate)
    ensures RankingMap(candidates + [c]) == RankingMap(candidates)[c.clickThroughRate := c.content]
  {
    assert (candidates + [c])[..|candidates|] == candidates;
  }

  /** `best` is the entry that is first in the ranking map `m`: its greatest key and the value there. */
  ghost predicate Tracks(best: Option<Candidate>, m: map<real, AdvertisementContent>)
  {
    match best
    case None => m.Keys == {}
    case Some(c) => IsGreatest(m.Keys, c.clickThroughRate) && m[c.clickThroughRate] == c.content
  }

  /** Putting a candidate keeps Tracks when the best so far is replaced on a rate at least as high. */
  lemma TracksPut(best: Option<Candidate>, m: map<real, AdvertisementContent>, c: Candidate)
    requires Tracks(best, m)
    ensures Tracks(if best.None? || best.value.clickThroughRate <= c.clickThroughRate then Some(c) else best,
                   m[c.clickThroughRate := c.content])
  {
  }

  lemma TracksFirstValue(best: Option<Candidate>, m: map<real, AdvertisementContent>)
    requires Tracks(best, m)
    ensures FirstValue(m) == if best.None? then None else Some(best.value.content)
  {
    if best.Some? {
      var b := best.value.clickThroughRate;
      assert IsGreatest(m.Keys, b);
      var k :| IsGreatest(m.Keys, k) && m[k] == FirstValue(m).value;
      GreatestIsUnique(m.Keys, k, b);
    }
  }

  class AdvertisementSelectionLogic {
    /** Source of the advertising content of a marketplace. */
    const contentDao: string -> seq<AdvertisementContent>
    /** Source of the targeting groups of a content. */
    const targetingGroupDao: string -> seq<TargetingGroup>

    constructor(contentDao: string -> seq<AdvertisementContent>, targetingGroupDao: string -> seq<TargetingGroup>)
      ensures this.contentDao == contentDao && this.targetingGroupDao == targetingGroupDao
    {
      this.contentDao := contentDao;
      this.targetingGroupDao := targetingGroupDao;
    }

    /**
     * Returns the content of the eligible targeting group with the highest
     * click-through rate (the last such group on a tie), or the empty
     * advertisement when the marketplace is null or empty or nothing is eligible.
     */
    method SelectAdvertisement(customerId: Option<string>, marketplaceId: Option<string>)
      returns (ad: GeneratedAdvertisement)
      ensures ad == Selection(customerId, marketplaceId, contentDao, targetingGroupDao)
    {
      ad := Empty;
      var evaluator := EvaluatorFor(customerId, marketplaceId);
      if IsEmpty(marketplaceId) {
        return;
      }
      var contents := contentDao(marketplaceId.value);
      var best: Option<Candidate> := None;
      ghost var seen: seq<Candidate> := [];
      var i := 0;
      while i < |contents|
        invariant 0 <= i <= |contents|
        invariant seen == Candidates(evaluator, contents[..i], targetingGroupDao)
        invariant Tracks(best, RankingMap(seen))
      {
        var content := contents[i];
        var groups := targetingGroupDao(content.contentId);
        ghost var before := seen;
        var j := 0;
        while j < |groups|
          invariant 0 <= j <= |groups|
          invariant seen == before + ContentCandidates(evaluator, content, groups[..j])
          invariant Tracks(best, RankingMap(seen))
        {
          var group := groups[j];
          ContentCandidatesStep(evaluator, content, groups, j);
          if evaluator.Evaluate(group).IsTrue() {
            var candidate := Candidate(group.clickThroughRate, content);
            TracksPut(best, RankingMap(seen), candidate);
            RankingMapStep(seen, candidate);
            // an equal rate overwrites the earlier entry, so the later candidate wins a tie
            if best.None? || best.value.clickThroughRate <= candidate.clickThroughRate {
              best := Some(candidate);
            }
            seen := seen + [candidate];
          }
          j := j + 1;
        }
        assert groups[..j] == groups;
        CandidatesStep(evaluator, contents, targetingGroupDao, i);
        i := i + 1;
      }
      assert contents[..i] == contents;
      TracksFirstValue(best, RankingMap(seen));
      if best.Some? {
        ad := Ad(best.value.content);
      }
    }
  }

  // Properties of the specification

  /** Group `j` of content `i` exists and evaluates TRUE. */
  ghost predicate Eligible(evaluator: TargetingEvaluator, contents: seq<AdvertisementContent>,
                           targetingGroupDao: string -> seq<TargetingGroup>, i: int, j: int)
  {
    && 0 <= i < |contents|
    && 0 <= j < |targetingGroupDao(contents[i].contentId)|
    && evaluator.Evaluate(targetingGroupDao(contents[i].contentId)[j]) == TRUE
  }

  /** `candidates[n]` has the highest rate and every later candidate a lower one. */
  ghost predicate LastHighest(candidates: seq<Candidate>, n: int)
  {
    && 0 <= n < |candidates|
    && (forall p :: 0 <= p < |candidates| ==> candidates[p].clickThroughRate <= candidates[n].clickThroughRate)
    && (forall p :: n < p < |candidates| ==> candidates[p].clickThroughRate < candidates[n].clickThroughRate)
  }

  /** `candidates[i]` has rate `k` and no later candidate has. */
  ghost predicate LastWithRate(candidates: seq<Candidate>, i: int, k: real)
  {
    && 0 <= i < |candidates|
    && candidates[i].clickThroughRate == k
    && forall j :: i < j < |candidates| ==> candidates[j].clickThroughRate != k
  }

  /** The ranking map holds exactly the rates put into it, each with the content put last under it. */
  lemma {:induction false} RankingMapEntry(candidates: seq<Candidate>, k: real)
    ensures k in RankingMap(candidates) <==> exists i :: 0 <= i < |candidates| && candidates[i].clickThroughRate == k
    ensures k in RankingMap(candidates) ==>
      exists i :: LastWithRate(candidates, i, k) && candidates[i].content == RankingMap(candidates)[k]
  {
    if candidates != [] {
      var n := |candidates| - 1;
      var init, last := candidates[..n], candidates[n];
      RankingMapEntry(init, k);
      if last.clickThroughRate == k {
        assert LastWithRate(candidates, n, k);
      } else {
        if k in RankingMap(init) {
          var i :| LastWithRate(init, i, k) && init[i].content == RankingMap(init)[k];
          assert LastWithRate(candidates, i, k);
        }
        if exists i :: 0 <= i < |candidates| && candidates[i].clickThroughRate == k {
          var i :| 0 <= i < |candidates| && candidates[i].clickThroughRate == k;
          assert init[i].clickThroughRate == k;
        }
      }
    }
  }

  /** The candidates of one content are its TRUE groups' rates, paired with it. */
  lemma {:induction false} ContentCandidatesMember(evaluator: TargetingEvaluator, content: AdvertisementContent,
                                                   groups: seq<TargetingGroup>, x: Candidate)
    ensures x in ContentCandidates(evaluator, content, groups) <==>
      exists j :: 0 <= j < |groups| && evaluator.Evaluate(groups[j]) == TRUE
                  && x == Candidate(groups[j].clickThroughRate, content)
  {
    if groups != [] {
      var n := |groups| - 1;
      var init := groups[..n];
      ContentCandidatesMember(evaluator, content, init, x);
      if x in ContentCandidates(evaluator, content, init) {
        var j :| 0 <= j < |init| && evaluator.Evaluate(init[j]) == TRUE
                 && x == Candidate(init[j].clickThroughRate, content);
        assert groups[j] == init[j];
      }
      if exists j :: 0 <= j < |groups| && evaluator.Evaluate(groups[j]) == TRUE
                     && x == Candidate(groups[j].clickThroughRate, content) {
        var j :| 0 <= j < |groups| && evaluator.Evaluate(groups[j]) == TRUE
                 && x == Candidate(groups[j].clickThroughRate, content);
        if j < n {
          assert init[j] == groups[j];
        }
      }
    }
  }

  /** The candidate of group `j` of content `i`. */
  function PairCandidate(contents: seq<AdvertisementContent>, targetingGroupDao: string -> seq<TargetingGroup>,
                         i: int, j: int): Candidate
    requires 0 <= i < |contents| && 0 <= j < |targetingGroupDao(contents[i].contentId)|
  {
    Candidate(targetingGroupDao(contents[i].contentId)[j].clickThroughRate, contents[i])
  }

  /** Every eligible (group, content) pair is a candidate. */
  lemma {:induction false} EligibleIsCandidate(evaluator: TargetingEvaluator, contents: seq<AdvertisementContent>,
                                               targetingGroupDao: string -> seq<TargetingGroup>, i: int, j: int)
    requires Eligible(evaluator, contents, targetingGroupDao, i, j)
    ensures PairCandidate(contents, targetingGroupDao, i, j) in Candidates(evaluator, contents, targetingGroupDao)
  {
    var n := |contents| - 1;
    var init, last := contents[..n], contents[n];
    var x := PairCandidate(contents, targetingGroupDao, i, j);
    if i < n {
      assert init[i] == contents[i];
      assert Eligible(evaluator, init, targetingGroupDao, i, j);
      EligibleIsCandidate(evaluator, init, targetingGroupDao, i, j);
      assert x == PairCandidate(init, targetingGroupDao, i, j);
    } else {
      ContentCandidatesMember(evaluator, last, targetingGroupDao(last.contentId), x);
    }
  }

  /** Every candidate is an eligible (group, content) pair. */
  lemma {:induction false} CandidateIsEligible(evaluator: TargetingEvaluator, contents: seq<AdvertisementContent>,
                                               targetingGroupDao: string -> seq<TargetingGroup>, x: Candidate)
    requires x in Candidates(evaluator, contents, targetingGroupDao)
    ensures exists i, j :: Eligible(evaluator, contents, targetingGroupDao, i, j)
                           && x == PairCandidate(contents, targetingGroupDao, i, j)
  {
    var n := |contents| - 1;
    var init, last := contents[..n], contents[n];
    if x in Candidates(evaluator, init, targetingGroupDao) {
      CandidateIsEligible(evaluator, init, targetingGroupDao, x);
      var i, j :| Eligible(evaluator, init, targetingGroupDao, i, j)
                  && x == PairCandidate(init, targetingGroupDao, i, j);
      assert init[i] == contents[i];
      assert Eligible(evaluator, contents, targetingGroupDao, i, j);
      assert x == PairCandidate(contents, targetingGroupDao, i, j);
    } else {
      ContentCandidatesMember(evaluator, last, targetingGroupDao(last.contentId), x);
      var j :| 0 <= j < |targetingGroupDao(last.contentId)|
               && evaluator.Evaluate(targetingGroupDao(last.contentId)[j]) == TRUE
               && x == Candidate(targetingGroupDao(last.contentId)[j].clickThroughRate, last);
      assert Eligible(evaluator, contents, targetingGroupDao, n, j);
      assert x == PairCandidate(contents, targetingGroupDao, n, j);
    }
  }

  /**
   * What the ranking map yields: nothing when no candidate was put, otherwise the
   * content of a candidate whose rate is at least every candidate's rate and
   * strictly above the rate of every later candidate.
   */
  lemma FirstValueIsLastHighest(candidates: seq<Candidate>)
    ensures FirstValue(RankingMap(candidates)).None? <==> candidates == []
    ensures FirstValue(RankingMap(candidates)).Some? ==>
      exists n :: LastHighest(candidates, n) && candidates[n].content == FirstValue(RankingMap(candidates)).value
  {
    var m := RankingMap(candidates);
    if candidates != [] {
      CandidateRateIsKey(candidates, 0);
      assert candidates[0].clickThroughRate in m.Keys;
      assert m.Keys != {};
      var r := FirstValue(m);
      assert r.Some?;
      var k :| IsGreatest(m.Keys, k) && m[k] == FirstValue(m).value;
      RankingMapEntry(candidates, k);
      var n :| LastWithRate(candidates, n, k) && candidates[n].content == m[k];
      forall p | 0 <= p < |candidates| ensures candidates[p].clickThroughRate <= k {
        CandidateRateIsKey(candidates, p);
      }
      assert LastHighest(candidates, n);
    } else {
      assert m.Keys == {};
    }
  }

  lemma CandidateRateIsKey(candidates: seq<Candidate>, p: int)
    requires 0 <= p < |candidates|
    ensures candidates[p].clickThroughRate in RankingMap(candidates)
  {
    RankingMapEntry(candidates, candidates[p].clickThroughRate);
  }

  /**
   * The selection over the eligible candidates in retrieval order: empty when
   * there are none, otherwise the content of the last candidate with the
   * highest rate.
   */
  lemma SelectionIsLastHighest(customerId: Option<string>, marketplaceId: Option<string>,
                               contentDao: string -> seq<AdvertisementContent>,
                               targetingGroupDao: string -> seq<TargetingGroup>)
    requires !IsEmpty(marketplaceId)
    ensures var candidates := Candidates(EvaluatorFor(customerId, marketplaceId), contentDao(marketplaceId.value), targetingGroupDao);
            var ad := Selection(customerId, marketplaceId, contentDao, targetingGroupDao);
            && (ad.Empty? <==> candidates == [])
            && (ad.Ad? ==> (exists n :: LastHighest(candidates, n) && candidates[n].content == ad.content))
  {
    FirstValueIsLastHighest(Candidates(EvaluatorFor(customerId, marketplaceId), contentDao(marketplaceId.value), targetingGroupDao));
  }

  /** A null or empty marketplace gives the empty advertisement, whatever the two sources hold. */
  lemma EmptyMarketplaceSelectsNothing(customerId: Option<string>, marketplaceId: Option<string>,
                                       contentDao: string -> seq<AdvertisementContent>,
                                       targetingGroupDao: string -> seq<TargetingGroup>)
    requires IsEmpty(marketplaceId)
    ensures Selection(customerId, marketplaceId, contentDao, targetingGroupDao) == Empty
  {
  }

  /** An advertisement is returned exactly when some content has a group evaluating TRUE. */
  lemma SelectionNonEmptyIffEligible(customerId: Option<string>, marketplaceId: Option<string>,
                                     contentDao: string -> seq<AdvertisementContent>,
                                     targetingGroupDao: string -> seq<TargetingGroup>)
    requires !IsEmpty(marketplaceId)
    ensures Selection(customerId, marketplaceId, contentDao, targetingGroupDao).Ad? <==>
      exists i, j :: Eligible(EvaluatorFor(customerId, marketplaceId), contentDao(marketplaceId.value), targetingGroupDao, i, j)
  {
    var evaluator, contents := EvaluatorFor(customerId, marketplaceId), contentDao(marketplaceId.value);
    var candidates := Candidates(evaluator, contents, targetingGroupDao);
    SelectionIsLastHighest(customerId, marketplaceId, contentDao, targetingGroupDao);
    if candidates != [] {
      CandidateIsEligible(evaluator, contents, targetingGroupDao, candidates[0]);
    }
    if exists i, j :: Eligible(evaluator, contents, targetingGroupDao, i, j) {
      var i, j :| Eligible(evaluator, contents, targetingGroupDao, i, j);
      EligibleIsCandidate(evaluator, contents, targetingGroupDao, i, j);
    }
  }

  /**
   * A returned advertisement wraps a content of the marketplace that has a TRUE
   * group whose rate is at least the rate of every TRUE group of every content.
   */
  lemma SelectedHasHighestEligibleRate(customerId: Option<string>, marketplaceId: Option<string>,
                                       contentDao: string -> seq<AdvertisementContent>,
                                       targetingGroupDao: string -> seq<TargetingGroup>)
    requires !IsEmpty(marketplaceId)
    ensures var evaluator, contents := EvaluatorFor(customerId, marketplaceId), contentDao(marketplaceId.value);
            var ad := Selection(customerId, marketplaceId, contentDao, targetingGroupDao);
            ad.Ad? ==>
              (exists i, j :: Eligible(evaluator, contents, targetingGroupDao, i, j) && contents[i] == ad.content
                 && forall i', j' :: Eligible(evaluator, contents, targetingGroupDao, i', j') ==>
                      PairCandidate(contents, targetingGroupDao, i', j').clickThroughRate
                        <= PairCandidate(contents, targetingGroupDao, i, j).clickThroughRate)
  {
    var evaluator, contents := EvaluatorFor(customerId, marketplaceId), contentDao(marketplaceId.value);
    var candidates := Candidates(evaluator, contents, targetingGroupDao);
    var ad := Selection(customerId, marketplaceId, contentDao, targetingGroupDao);
    SelectionIsLastHighest(customerId, marketplaceId, contentDao, targetingGroupDao);
    if ad.Ad? {
      var n :| LastHighest(candidates, n) && candidates[n].content == ad.content;
      CandidateIsEligible(evaluator, contents, targetingGroupDao, candidates[n]);
      var i, j :| Eligible(evaluator, contents, targetingGroupDao, i, j)
                  && candidates[n] == PairCandidate(contents, targetingGroupDao, i, j);
      forall i', j' | Eligible(evaluator, contents, targetingGroupDao, i', j')
        ensures PairCandidate(contents, targetingGroupDao, i', j').clickThroughRate <= candidates[n].clickThroughRate
      {
        EligibleIsCandidate(evaluator, contents, targetingGroupDao, i', j');
        var x := PairCandidate(contents, targetingGroupDao, i', j');
        var p :| 0 <= p < |candidates| && candidates[p] == x;
      }
    }
  }

  /** Where group `j` of content `i` falls among the candidates, counting only eligible pairs before it. */
  ghost function Position(evaluator: TargetingEvaluator, contents: seq<AdvertisementContent>,
                          targetingGroupDao: string -> seq<TargetingGroup>, i: int, j: int): int
    requires 0 <= i < |contents| && 0 <= j <= |targetingGroupDao(contents[i].contentId)|
  {
    |Candidates(evaluator, contents[..i], targetingGroupDao)| +
    |ContentCandidates(evaluator, contents[i], targetingGroupDao(contents[i].contentId)[..j])|
  }

  /** The candidates of a shorter prefix of the groups open those of a longer one. */
  lemma {:induction false} ContentCandidatesPrefix(evaluator: TargetingEvaluator, content: AdvertisementContent,
                                                   groups: seq<TargetingGroup>, j: int, k: int)
    requires 0 <= j <= k <= |groups|
    ensures var short, long := ContentCandidates(evaluator, content, groups[..j]), ContentCandidates(evaluator, content, groups[..k]);
            |short| <= |long| && long[..|short|] == short
    decreases k - j
  {
    if j < k {
      ContentCandidatesPrefix(evaluator, content, groups, j, k - 1);
      ContentCandidatesStep(evaluator, content, groups, k - 1);
    }
  }

  /** The candidates of a shorter prefix of the contents open those of a longer one. */
  lemma {:induction false} CandidatesPrefix(evaluator: TargetingEvaluator, contents: seq<AdvertisementContent>,
                                            targetingGroupDao: string -> seq<TargetingGroup>, i: int, k: int)
    requires 0 <= i <= k <= |contents|
    ensures var short, long := Candidates(evaluator, contents[..i], targetingGroupDao), Candidates(evaluator, contents[..k], targetingGroupDao);
            |short| <= |long| && long[..|short|] == short
    decreases k - i
  {
    if i < k {
      CandidatesPrefix(evaluator, contents, targetingGroupDao, i, k - 1);
      CandidatesStep(evaluator, contents, targetingGroupDao, k - 1);
    }
  }

  /** An element of the part `own` of a sequence that opens with `front + own`. */
  lemma PrefixIndex<T>(whole: seq<T>, front: seq<T>, own: seq<T>, q: int)
    requires |front| + |own| <= |whole| && whole[..|front| + |own|] == front + own
    requires 0 <= q < |own|
    ensures whole[|front| + q] == own[q]
  {
    assert whole[|front| + q] == whole[..|front| + |own|][|front| + q];
  }

  /** A TRUE group's candidate follows the candidates of the groups before it. */
  lemma GroupAtPosition(evaluator: TargetingEvaluator, content: AdvertisementContent, groups: seq<TargetingGroup>, j: int)
    requires 0 <= j < |groups| && evaluator.Evaluate(groups[j]) == TRUE
    ensures |ContentCandidates(evaluator, content, groups[..j])| < |ContentCandidates(evaluator, content, groups)|
    ensures ContentCandidates(evaluator, content, groups)[|ContentCandidates(evaluator, content, groups[..j])|]
         == Candidate(groups[j].clickThroughRate, content)
  {
    var before := ContentCandidates(evaluator, content, groups[..j]);
    var own := ContentCandidates(evaluator, content, groups);
    var x := Candidate(groups[j].clickThroughRate, content);
    ContentCandidatesStep(evaluator, content, groups, j);
    ContentCandidatesPrefix(evaluator, content, groups, j + 1, |groups|);
    assert groups[..|groups|] == groups;
    PrefixIndex(own, before, [x], 0);
  }

  /** The candidates of content `i` follow those of the contents before it. */
  lemma ContentAtPosition(evaluator: TargetingEvaluator, contents: seq<AdvertisementContent>,
                          targetingGroupDao: string -> seq<TargetingGroup>, i: int, q: int)
    requires 0 <= i < |contents|
    requires 0 <= q < |ContentCandidates(evaluator, contents[i], targetingGroupDao(contents[i].contentId))|
    ensures |Candidates(evaluator, contents[..i], targetingGroupDao)| + q < |Candidates(evaluator, contents, targetingGroupDao)|
    ensures Candidates(evaluator, contents, targetingGroupDao)[|Candidates(evaluator, contents[..i], targetingGroupDao)| + q]
         == ContentCandidates(evaluator, contents[i], targetingGroupDao(contents[i].contentId))[q]
  {
    var earlier := Candidates(evaluator, contents[..i], targetingGroupDao);
    var own := ContentCandidates(evaluator, contents[i], targetingGroupDao(contents[i].contentId));
    CandidatesStep(evaluator, contents, targetingGroupDao, i);
    CandidatesPrefix(evaluator, contents, targetingGroupDao, i + 1, |contents|);
    assert contents[..|contents|] == contents;
    PrefixIndex(Candidates(evaluator, contents, targetingGroupDao), earlier, own, q);
  }

  /** An eligible pair is put at its position: the candidates follow the nested loops' order. */
  lemma PairAtPosition(evaluator: TargetingEvaluator, contents: seq<AdvertisementContent>,
                       targetingGroupDao: string -> seq<TargetingGroup>, i: int, j: int)
    requires Eligible(evaluator, contents, targetingGroupDao, i, j)
    ensures Position(evaluator, contents, targetingGroupDao, i, j) < |Candidates(evaluator, contents, targetingGroupDao)|
    ensures Candidates(evaluator, contents, targetingGroupDao)[Position(evaluator, contents, targetingGroupDao, i, j)]
         == PairCandidate(contents, targetingGroupDao, i, j)
  {
    var groups := targetingGroupDao(contents[i].contentId);
    GroupAtPosition(evaluator, contents[i], groups, j);
    ContentAtPosition(evaluator, contents, targetingGroupDao, i, |ContentCandidates(evaluator, contents[i], groups[..j])|);
  }

  /** Candidate `p` of one content comes from a TRUE group preceded by exactly `p` candidates. */
  lemma {:induction false} GroupOfCandidate(evaluator: TargetingEvaluator, content: AdvertisementContent,
                                            groups: seq<TargetingGroup>, p: int)
    requires 0 <= p < |ContentCandidates(evaluator, content, groups)|
    ensures exists j :: 0 <= j < |groups| && evaluator.Evaluate(groups[j]) == TRUE
                        && |ContentCandidates(evaluator, content, groups[..j])| == p
  {
    var n := |groups| - 1;
    var init := groups[..n];
    if p < |ContentCandidates(evaluator, content, init)| {
      GroupOfCandidate(evaluator, content, init, p);
      var j :| 0 <= j < |init| && evaluator.Evaluate(init[j]) == TRUE
               && |ContentCandidates(evaluator, content, init[..j])| == p;
      assert init[..j] == groups[..j];
    } else {
      assert evaluator.Evaluate(groups[n]) == TRUE;
    }
  }

  /** Candidate `p` falls within the candidates of some content `i`. */
  lemma {:induction false} ContentOfCandidate(evaluator: TargetingEvaluator, contents: seq<AdvertisementContent>,
                                              targetingGroupDao: string -> seq<TargetingGroup>, p: int)
    requires 0 <= p < |Candidates(evaluator, contents, targetingGroupDao)|
    ensures exists i :: 0 <= i < |contents|
                        && |Candidates(evaluator, contents[..i], targetingGroupDao)| <= p
                        && p - |Candidates(evaluator, contents[..i], targetingGroupDao)|
                             < |ContentCandidates(evaluator, contents[i], targetingGroupDao(contents[i].contentId))|
  {
    var n := |contents| - 1;
    var init := contents[..n];
    if p < |Candidates(evaluator, init, targetingGroupDao)| {
      ContentOfCandidate(evaluator, init, targetingGroupDao, p);
      var i :| 0 <= i < |init|
               && |Candidates(evaluator, init[..i], targetingGroupDao)| <= p
               && p - |Candidates(evaluator, init[..i], targetingGroupDao)|
                    < |ContentCandidates(evaluator, init[i], targetingGroupDao(init[i].contentId))|;
      assert init[..i] == contents[..i] && init[i] == contents[i];
    }
  }

  /** Every candidate position is the position of an eligible pair. */
  lemma PositionOfEveryCandidate(evaluator: TargetingEvaluator, contents: seq<AdvertisementContent>,
                                 targetingGroupDao: string -> seq<TargetingGroup>, p: int)
    requires 0 <= p < |Candidates(evaluator, contents, targetingGroupDao)|
    ensures exists i, j :: Eligible(evaluator, contents, targetingGroupDao, i, j)
                           && Position(evaluator, contents, targetingGroupDao, i, j) == p
  {
    ContentOfCandidate(evaluator, contents, targetingGroupDao, p);
    var i :| 0 <= i < |contents|
             && |Candidates(evaluator, contents[..i], targetingGroupDao)| <= p
             && p - |Candidates(evaluator, contents[..i], targetingGroupDao)|
                  < |ContentCandidates(evaluator, contents[i], targetingGroupDao(contents[i].contentId))|;
    var groups := targetingGroupDao(contents[i].contentId);
    GroupOfCandidate(evaluator, contents[i], groups, p - |Candidates(evaluator, contents[..i], targetingGroupDao)|);
    var j :| 0 <= j < |groups| && evaluator.Evaluate(groups[j]) == TRUE
             && |ContentCandidates(evaluator, contents[i], groups[..j])| == p - |Candidates(evaluator, contents[..i], targetingGroupDao)|;
    assert Eligible(evaluator, contents, targetingGroupDao, i, j);
  }

  /** Positions grow with the pair: by content first, then by group within a content. */
  lemma PositionIncreasing(evaluator: TargetingEvaluator, contents: seq<AdvertisementContent>,
                           targetingGroupDao: string -> seq<TargetingGroup>, i: int, j: int, i': int, j': int)
    requires Eligible(evaluator, contents, targetingGroupDao, i, j)
    requires 0 <= i' < |contents| && 0 <= j' <= |targetingGroupDao(contents[i'].contentId)|
    requires i < i' || (i == i' && j < j')
    ensures Position(evaluator, contents, targetingGroupDao, i, j) < Position(evaluator, contents, targetingGroupDao, i', j')
  {
    var groups := targetingGroupDao(contents[i].contentId);
    ContentCandidatesStep(evaluator, contents[i], groups, j);
    if i == i' {
      ContentCandidatesPrefix(evaluator, contents[i], groups, j + 1, j');
    } else {
      ContentCandidatesPrefix(evaluator, contents[i], groups, j + 1, |groups|);
      assert groups[..|groups|] == groups;
      CandidatesStep(evaluator, contents, targetingGroupDao, i);
      CandidatesPrefix(evaluator, contents, targetingGroupDao, i + 1, i');
    }
  }

  /**
   * The tie-break in the loops' own order: a returned advertisement is the
   * content of an eligible pair (content `i`, group `j`) whose rate is at least
   * every eligible rate and strictly above the rate of every eligible pair after
   * it, that is, of a later content or of a later group of the same content.
   */
  lemma SelectedIsLastHighestPair(customerId: Option<string>, marketplaceId: Option<string>,
                                  contentDao: string -> seq<AdvertisementContent>,
                                  targetingGroupDao: string -> seq<TargetingGroup>)
    requires !IsEmpty(marketplaceId)
    ensures var evaluator, contents := EvaluatorFor(customerId, marketplaceId), contentDao(marketplaceId.value);
            var ad := Selection(customerId, marketplaceId, contentDao, targetingGroupDao);
            ad.Ad? ==>
              (exists i, j :: Eligible(evaluator, contents, targetingGroupDao, i, j) && contents[i] == ad.content
                 && (forall i', j' :: Eligible(evaluator, contents, targetingGroupDao, i', j') ==>
                      PairCandidate(contents, targetingGroupDao, i', j').clickThroughRate
                        <= PairCandidate(contents, targetingGroupDao, i, j).clickThroughRate)
                 && (forall i', j' :: Eligible(evaluator, contents, targetingGroupDao, i', j') && (i < i' || (i == i' && j < j')) ==>
                      PairCandidate(contents, targetingGroupDao, i', j').clickThroughRate
                        < PairCandidate(contents, targetingGroupDao, i, j).clickThroughRate))
  {
    var evaluator, contents := EvaluatorFor(customerId, marketplaceId), contentDao(marketplaceId.value);
    var candidates := Candidates(evaluator, contents, targetingGroupDao);
    var ad := Selection(customerId, marketplaceId, contentDao, targetingGroupDao);
    SelectionIsLastHighest(customerId, marketplaceId, contentDao, targetingGroupDao);
    if ad.Ad? {
      var n :| LastHighest(candidates, n) && candidates[n].content == ad.content;
      PositionOfEveryCandidate(evaluator, contents, targetingGroupDao, n);
      var i, j :| Eligible(evaluator, contents, targetingGroupDao, i, j)
                  && Position(evaluator, contents, targetingGroupDao, i, j) == n;
      PairAtPosition(evaluator, contents, targetingGroupDao, i, j);
      var best := PairCandidate(contents, targetingGroupDao, i, j);
      assert candidates[n] == best;
      forall i', j' | Eligible(evaluator, contents, targetingGroupDao, i', j')
        ensures PairCandidate(contents, targetingGroupDao, i', j').clickThroughRate <= best.clickThroughRate
        ensures (i < i' || (i == i' && j < j')) ==>
                  PairCandidate(contents, targetingGroupDao, i', j').clickThroughRate < best.clickThroughRate
      {
        PairAtPosition(evaluator, contents, targetingGroupDao, i', j');
        if i < i' || (i == i' && j < j') {
          PositionIncreasing(evaluator, contents, targetingGroupDao, i, j, i', j');
        }
      }
    }
  }

  /** A returned advertisement wraps one of the contents the content source gave for the marketplace. */
  lemma SelectedComesFromContentDao(customerId: Option<string>, marketplaceId: Option<string>,
                                    contentDao: string -> seq<AdvertisementContent>,
                                    targetingGroupDao: string -> seq<TargetingGroup>)
    requires Selection(customerId, marketplaceId, contentDao, targetingGroupDao).Ad?
    ensures Selection(customerId, marketplaceId, contentDao, targetingGroupDao).content in contentDao(marketplaceId.value)
  {
    SelectedHasHighestEligibleRate(customerId, marketplaceId, contentDao, targetingGroupDao);
  }

  /** A content without targeting groups is never returned. */
  lemma ContentWithoutGroupsNeverSelected(customerId: Option<string>, marketplaceId: Option<string>,
                                          contentDao: string -> seq<AdvertisementContent>,
                                          targetingGroupDao: string -> seq<TargetingGroup>,
                                          content: AdvertisementContent)
    requires targetingGroupDao(content.contentId) == []
    ensures Selection(customerId, marketplaceId, contentDao, targetingGroupDao) != Ad(content)
  {
    if !IsEmpty(marketplaceId) {
      SelectedHasHighestEligibleRate(customerId, marketplaceId, contentDao, targetingGroupDao);
    }
  }

  /** The groups of a list that evaluate TRUE, in order. */
  function EligibleGroups(evaluator: TargetingEvaluator, groups: seq<TargetingGroup>): seq<TargetingGroup>
  {
    if groups == [] then []
    else
      var last := groups[|groups| - 1];
      EligibleGroups(evaluator, groups[..|groups| - 1]) + (if evaluator.Evaluate(last).IsTrue() then [last] else [])
  }

  lemma {:induction false} ContentCandidatesOfEligible(evaluator: TargetingEvaluator, content: AdvertisementContent,
                                                       groups: seq<TargetingGroup>)
    ensures ContentCandidates(evaluator, content, EligibleGroups(evaluator, groups))
         == ContentCandidates(evaluator, content, groups)
  {
    if groups != [] {
      var n := |groups| - 1;
      var kept := EligibleGroups(evaluator, groups);
      ContentCandidatesOfEligible(evaluator, content, groups[..n]);
      if evaluator.Evaluate(groups[n]).IsTrue() {
        assert kept[..|kept| - 1] == EligibleGroups(evaluator, groups[..n]);
        assert kept[|kept| - 1] == groups[n];
      } else {
        assert kept == EligibleGroups(evaluator, groups[..n]);
      }
    }
  }

  lemma {:induction false} CandidatesOfEligible(evaluator: TargetingEvaluator, contents: seq<AdvertisementContent>,
                                                targetingGroupDao: string -> seq<TargetingGroup>)
    ensures Candidates(evaluator, contents, contentId => EligibleGroups(evaluator, targetingGroupDao(contentId)))
         == Candidates(evaluator, contents, targetingGroupDao)
  {
    if contents != [] {
      var n := |contents| - 1;
      CandidatesOfEligible(evaluator, contents[..n], targetingGroupDao);
      ContentCandidatesOfEligible(evaluator, contents[n], targetingGroupDao(contents[n].contentId));
    }
  }

  /** Groups that do not evaluate TRUE have no influence: dropping them all changes nothing. */
  lemma IneligibleGroupsIgnored(customerId: Option<string>, marketplaceId: Option<string>,
                                contentDao: string -> seq<AdvertisementContent>,
                                targetingGroupDao: string -> seq<TargetingGroup>)
    ensures Selection(customerId, marketplaceId, contentDao,
                      contentId => EligibleGroups(EvaluatorFor(customerId, marketplaceId), targetingGroupDao(contentId)))
         == Selection(customerId, marketplaceId, contentDao, targetingGroupDao)
  {
    if !IsEmpty(marketplaceId) {
      CandidatesOfEligible(EvaluatorFor(customerId, marketplaceId), contentDao(marketplaceId.value), targetingGroupDao);
    }
  }

  // Concrete scenarios

  /** Two contents whose only groups are eligible and tied at 0.8: the later content wins. */
  lemma TieGoesToLaterContent(a: AdvertisementContent, b: AdvertisementContent,
                              contentDao: string -> seq<AdvertisementContent>,
                              targetingGroupDao: string -> seq<TargetingGroup>)
    requires contentDao("2") == [a, b]
    requires forall contentId :: targetingGroupDao(contentId) == [TargetingGroup("group", contentId, 0.8, [])]
    ensures Selection(Some("1"), Some("2"), contentDao, targetingGroupDao) == Ad(b)
  {
    var evaluator := EvaluatorFor(Some("1"), Some("2"));
    assert [a, b][..1] == [a] && [a][..0] == [];
    var ga, gb := targetingGroupDao(a.contentId), targetingGroupDao(b.contentId);
    assert ga[..0] == [] && gb[..0] == [];
    assert ContentCandidates(evaluator, a, ga) == [Candidate(0.8, a)];
    assert ContentCandidates(evaluator, b, gb) == [Candidate(0.8, b)];
    assert Candidates(evaluator, [a], targetingGroupDao) == [Candidate(0.8, a)];
    var candidates := Candidates(evaluator, [a, b], targetingGroupDao);
    assert candidates == [Candidate(0.8, a), Candidate(0.8, b)];
    SelectionIsLastHighest(Some("1"), Some("2"), contentDao, targetingGroupDao);
    var n :| LastHighest(candidates, n) && candidates[n].content == Selection(Some("1"), Some("2"), contentDao, targetingGroupDao).content;
    assert n == 1;
  }

  /**
   * Content A (rate 0.3, eligible), B (rate 0.9, a FALSE predicate) and C
   * (rate 0.6, eligible): only A and C become candidates, in that order.
   */
  lemma HighestEligibleCandidates(a: AdvertisementContent, b: AdvertisementContent, c: AdvertisementContent,
                                  contentDao: string -> seq<AdvertisementContent>,
                                  targetingGroupDao: string -> seq<TargetingGroup>)
    requires contentDao("2") == [a, b, c]
    requires targetingGroupDao(a.contentId) == [TargetingGroup("ga", a.contentId, 0.3, [])]
    requires targetingGroupDao(b.contentId) == [TargetingGroup("gb", b.contentId, 0.9, [_ => FALSE])]
    requires targetingGroupDao(c.contentId) == [TargetingGroup("gc", c.contentId, 0.6, [])]
    ensures Candidates(EvaluatorFor(Some("1"), Some("2")), [a, b, c], targetingGroupDao) == [Candidate(0.3, a), Candidate(0.6, c)]
  {
    var evaluator := EvaluatorFor(Some("1"), Some("2"));
    var contents := [a, b, c];
    var ga, gb, gc := targetingGroupDao(a.contentId), targetingGroupDao(b.contentId), targetingGroupDao(c.contentId);
    assert !evaluator.Evaluate(gb[0]).IsTrue() by {
      assert gb[0].targetingPredicates[0](evaluator.requestContext) == FALSE;
    }
    ContentCandidatesStep(evaluator, a, ga, 0);
    ContentCandidatesStep(evaluator, b, gb, 0);
    ContentCandidatesStep(evaluator, c, gc, 0);
    assert ga[..1] == ga && gb[..1] == gb && gc[..1] == gc;
    CandidatesStep(evaluator, contents, targetingGroupDao, 0);
    CandidatesStep(evaluator, contents, targetingGroupDao, 1);
    CandidatesStep(evaluator, contents, targetingGroupDao, 2);
    assert contents[..3] == contents;
  }

  /** In the same setting C is returned, the highest among the eligible. */
  lemma HighestEligibleWins(a: AdvertisementContent, b: AdvertisementContent, c: AdvertisementContent,
                            contentDao: string -> seq<AdvertisementContent>,
                            targetingGroupDao: string -> seq<TargetingGroup>)
    requires contentDao("2") == [a, b, c]
    requires targetingGroupDao(a.contentId) == [TargetingGroup("ga", a.contentId, 0.3, [])]
    requires targetingGroupDao(b.contentId) == [TargetingGroup("gb", b.contentId, 0.9, [_ => FALSE])]
    requires targetingGroupDao(c.contentId) == [TargetingGroup("gc", c.contentId, 0.6, [])]
    ensures Selection(Some("1"), Some("2"), contentDao, targetingGroupDao) == Ad(c)
  {
    HighestEligibleCandidates(a, b, c, contentDao, targetingGroupDao);
    var candidates := [Candidate(0.3, a), Candidate(0.6, c)];
    SelectionIsLastHighest(Some("1"), Some("2"), contentDao, targetingGroupDao);
    var n :| LastHighest(candidates, n) && candidates[n].content == Selection(Some("1"), Some("2"), contentDao, targetingGroupDao).content;
    assert n == 1;
  }
}
