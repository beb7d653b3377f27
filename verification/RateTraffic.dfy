/** What the requests to a service with one RATE rule are told: the tags that n calls of Route set, and how often. */
module RateTraffic {
  import opened Base
  import opened RouteModel
  import opened RouteMatch
  import opened DarkLaunch
  import opened WeightPool
  import opened WeightScaling
  import opened TrafficSplit
  import opened Routing
  import opened WeightConservation

  /** The tags a request gets that is answered with entry k of the service's pool. */
  function TagsAt(routes: seq<RouteTag>, k: nat): (t: Tags)
    requires k < |PoolTags(routes)|
  {
    RouteTagToTags(Some(PoolTags(routes)[k]))
  }

  /** A request is told the tags and the label of its entry; the entry added for the rest is the latest version. */
  lemma ToldAsWritten(routes: seq<RouteTag>, k: nat)
    requires k < |PoolTags(routes)|
    ensures k < |routes| ==> TagsAt(routes, k) == Tags(routes[k].tags, routes[k].tagLabel)
    ensures k >= |routes| ==>
              && k == |routes| && TagsAt(routes, k) == Tags(map["version" := "latest"], "version:latest")
              && PoolTags(routes)[k].weight == 100 - PositiveTotal(Weights(routes))
    ensures RouteTagToTags(None) == Tags(map[], "")
  {
    hide PositiveTotal, Weights;
  }

  /** The traffic state and the pool's tags after n requests. */
  ghost predicate TrafficAfter(routes: seq<RouteTag>, n: nat, s: FitState, pooled: seq<RouteTag>)
    requires routes != []
  {
    && s == StateAfter(Weights(routes), n)
    && (s.Pooled? ==> s.wheel == NewWheel(Weights(routes)) && pooled == PoolTags(routes))
  }

  /** tags are what the first |tags| requests get. */
  ghost predicate ToldInTurn(routes: seq<RouteTag>, tags: seq<Tags>)
    requires routes != []
  {
    forall i :: 0 <= i < |tags| ==>
      var k := FitAnswers(Weights(routes), |tags|)[i];
      k < |PoolTags(routes)| && tags[i] == TagsAt(routes, k)
  }

  /** One request carries both on. */
  lemma NextTold(rule: RouteRule, tags: seq<Tags>, before: FitState, after: FitState, was: seq<RouteTag>,
                 now: seq<RouteTag>, told: Tags)
    requires rule.routes != [] && ToldInTurn(rule.routes, tags) && TrafficAfter(rule.routes, |tags|, before, was)
    requires ValidState(before) && Applied(rule, before, after, was, now, told)
    ensures TrafficAfter(rule.routes, |tags| + 1, after, now) && ToldInTurn(rule.routes, tags + [told])
  {
    hide Sound, ValidHand, NewWheel, FitStep, Weights, PoolTags, TagsAt, RouteTagToTags, Fits;
    var ws := Weights(rule.routes);
    var k := FitStep(before, ws).1;
    var tag :| Fits(rule.routes, before, was, now, tag) && told == RouteTagToTags(tag);
    Answered(rule.routes, before, was, now, tag);
    assert StateAfter(ws, |tags| + 1) == after;
    assert FitAnswers(ws, |tags| + 1) == FitAnswers(ws, |tags|) + [k];
  }

  /** What one request is answered, and what it leaves of the pool. */
  lemma Answered(routes: seq<RouteTag>, before: FitState, was: seq<RouteTag>, now: seq<RouteTag>, tag: Option<RouteTag>)
    requires routes != [] && ValidState(before) && Fits(routes, before, was, now, tag)
    requires before.Pooled? ==> before.wheel == NewWheel(Weights(routes)) && was == PoolTags(routes)
    ensures var (after, k) := FitStep(before, Weights(routes));
            && k < |PoolTags(routes)| && RouteTagToTags(tag) == TagsAt(routes, k)
            && (after.Pooled? ==> after.wheel == NewWheel(Weights(routes)) && now == PoolTags(routes))
  {
    hide Sound, ValidHand, NewWheel, NextHand, NextTag, Weights, PoolTags;
    FirstKept(routes);
  }

  lemma FirstKept(routes: seq<RouteTag>)
    requires routes != []
    ensures PoolTags(routes) != [] && PoolTags(routes)[0] == routes[0]
  {
  }

  /** A service with one rule that matches everything always has it applied. */
  lemma OneRule(rule: RouteRule, templates: map<string, Match>, r: Request)
    requires rule.matching == NO_MATCH && rule.routes != []
    ensures AnswerableSorted([rule], templates, r)
    ensures forall now, k :: Decided([rule], now, templates, r, k) ==> now == [rule] && k == 0
  {
    assert Accepts(rule.matching, templates, r);
  }

  /** Requests to one service with one such rule, the first of them without a pool. */
  method RouteAll(rs: seq<Request>, name: string, ghost rule: RouteRule, router: Router, pools: SafePool)
    returns (tags: seq<Tags>)
    requires pools.Valid() && pools.State(name) == NoPool && name in router.dests
    requires router.RulesOf(name) == [rule] && rule.matching == NO_MATCH && rule.routes != []
    modifies pools, pools.pool.Values, router.dests[name]
    ensures pools.Valid() && |tags| == |rs| && ToldInTurn(rule.routes, tags)
  {
    hide SafePool.Valid, SafePool.State, SafePool.TagsOf, Decided, Applied, AnswerableSorted, ToldInTurn, TrafficAfter;
    tags := [];
    assert ToldInTurn(rule.routes, tags) && TrafficAfter(rule.routes, 0, NoPool, pools.TagsOf(name)) by {
      NobodyTold(rule.routes, pools.TagsOf(name));
    }
    for i := 0 to |rs|
      invariant pools.Valid() && fresh(pools.pool.Values - old(pools.pool.Values))
      invariant router.RulesOf(name) == [rule] && |tags| == i
      invariant TrafficAfter(rule.routes, i, pools.State(name), pools.TagsOf(name)) && ToldInTurn(rule.routes, tags)
    {
      var inv := new Invocation(name);
      OneRule(rule, router.templates, rs[i]);
      ghost var before, was := pools.State(name), pools.TagsOf(name);
      ghost var k := Route(rs[i], inv, router, pools);
      NextTold(rule, tags, before, pools.State(name), was, pools.TagsOf(name), inv.routeTags);
      tags := tags + [inv.routeTags];
    }
  }

  lemma NobodyTold(routes: seq<RouteTag>, pooled: seq<RouteTag>)
    requires routes != []
    ensures ToldInTurn(routes, []) && TrafficAfter(routes, 0, NoPool, pooled)
  {
  }

  /** No other entry of the pool has the tags of entry k. */
  ghost predicate OwnTags(routes: seq<RouteTag>, k: nat)
    requires k < |PoolTags(routes)|
  {
    forall j :: 0 <= j < |PoolTags(routes)| && j != k ==> TagsAt(routes, j) != TagsAt(routes, k)
  }

  lemma {:induction false} SameCount(routes: seq<RouteTag>, answers: seq<nat>, tags: seq<Tags>, k: nat)
    requires k < |PoolTags(routes)| && OwnTags(routes, k) && |tags| == |answers|
    requires forall i :: 0 <= i < |tags| ==> answers[i] < |PoolTags(routes)| && tags[i] == TagsAt(routes, answers[i])
    ensures Count(tags, TagsAt(routes, k)) == Count(answers, k)
  {
    hide PoolTags, TagsAt;
    if tags != [] {
      SameCount(routes, answers[..|tags| - 1], tags[..|tags| - 1], k);
    }
  }

  /**
    End to end: of n requests to a service with the rule of a RATE policy, those told to go to version k, of a policy of
    non-negative weights that total at most 100, are its translated percentage of n up to the drift bound.
   */
  lemma RequestsReceive(items: seq<RuleItem>, tags: seq<Tags>, k: nat)
    requires NonNegative(items) && PolicyWeight(items) <= 100 && items != [] && RateTags(items) != []
    requires ToldInTurn(RateTags(items), tags) && k < |PoolTags(RateTags(items))| && OwnTags(RateTags(items), k)
    ensures var routes := RateTags(items);
            TagsAt(routes, k).kv == if k < |routes| then routes[k].tags else map["version" := "latest"]
    ensures var routes := RateTags(items);
            var w := NewWheel(Weights(routes));
            && w.gcd > 0 && k < |w.weights|
            && DriftWithin(Count(tags, TagsAt(routes, k)), |tags|, PoolTags(routes)[k].weight, |w.weights| + Unit(w, k))
  {
    var routes := RateTags(items);
    hide RateTags, Weights, PoolTags, NewWheel, TagsAt, OwnTags, FitAnswers, Count, DriftWithin, Unit, PolicyWeight,
         NonNegative, PositiveTotal;
    ToldAsWritten(routes, k);
    RateDelivered(items, |tags|, k);
    SameCount(routes, FitAnswers(Weights(routes), |tags|), tags, k);
  }
}
