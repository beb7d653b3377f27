/** Route of core/router/router.go: which rule decides a request, and what it does to the invocation. */
module Routing {
  import opened Base
  import opened RouteModel
  import opened RouteMatch
  import opened RuleSort
  import opened TrafficSplit

  datatype Tags = Tags(kv: map<string, string>, tagLabel: string)

  /** routeTagToTags: no tag gives no tags. */
  function RouteTagToTags(t: Option<RouteTag>): (tags: Tags) {
    if t.Some? then Tags(t.value.tags, t.value.tagLabel) else Tags(map[], "")
  }

  class Invocation {
    const microServiceName: string
    var routeTags: Tags

    constructor (name: string)
      ensures microServiceName == name && routeTags == Tags(map[], "")
    {
      microServiceName := name;
      routeTags := Tags(map[], "");
    }
  }

  /** The rules of each service, one shared slice per service, and the source templates. */
  class Router {
    var dests: map<string, array<RouteRule>>
    var templates: map<string, Match>

    ghost function RulesOf(service: string): (rules: seq<RouteRule>)
      reads this, if service in dests then {dests[service]} else {}
    {
      if service in dests then dests[service][..] else []
    }

    constructor ()
      ensures dests == map[] && templates == map[]
    {
      dests, templates := map[], map[];
    }
  }

  /** The match can be decided, and accepts the request. */
  predicate Accepts(m: Match, templates: map<string, Match>, r: Request) {
    Decidable(m, templates, r) && Matches(m, templates, r)
  }

  predicate Rejects(m: Match, templates: map<string, Match>, r: Request) {
    Decidable(m, templates, r) && !Matches(m, templates, r)
  }

  /**
    The loop of Route over the list ends without a panic: each rule it comes to can be decided, and the one it stops at
    has routes. It looks no further than the first match.
   */
  ghost predicate Answerable(rules: seq<RouteRule>, templates: map<string, Match>, r: Request) {
    forall k: nat :: k < |rules| && AllReject(rules[..k], templates, r) ==>
      Decidable(rules[k].matching, templates, r) && (Matches(rules[k].matching, templates, r) ==> rules[k].routes != [])
  }

  ghost predicate AllReject(rules: seq<RouteRule>, templates: map<string, Match>, r: Request) {
    forall j :: 0 <= j < |rules| ==> Rejects(rules[j].matching, templates, r)
  }

  /** What SortRules may make of the list: equal precedences can come in any order, unless it is sorted already. */
  ghost predicate SortedFrom(was: seq<RouteRule>, now: seq<RouteRule>) {
    && |now| == |was| && Rearranged(was, now, 0, |was|) && NonIncreasing(now, 0, |now|)
    && (NonIncreasing(was, 0, |was|) ==> now == was)
  }

  ghost predicate AnswerableSorted(rules: seq<RouteRule>, templates: map<string, Match>, r: Request) {
    forall now :: SortedFrom(rules, now) ==> Answerable(now, templates, r)
  }

  /** rule matches and no matching rule of the list has a higher precedence. */
  ghost predicate BestMatch(rule: RouteRule, rules: seq<RouteRule>, templates: map<string, Match>, r: Request) {
    && rule in rules
    && Accepts(rule.matching, templates, r)
    && forall k :: 0 <= k < |rules| && Accepts(rules[k].matching, templates, r) ==>
         rules[k].precedence <= rule.precedence
  }

  ghost predicate NoMatch(rules: seq<RouteRule>, templates: map<string, Match>, r: Request) {
    AllReject(rules, templates, r)
  }

  /** k is the first matching rule, or the length of the list when none matches. */
  ghost predicate FirstMatch(k: nat, rules: seq<RouteRule>, templates: map<string, Match>, r: Request) {
    && k <= |rules|
    && AllReject(rules[..k], templates, r)
    && (k < |rules| ==> Accepts(rules[k].matching, templates, r))
  }

  /** Sorting moves rules but loses and invents none. */
  lemma SortedSame(sorted: seq<RouteRule>, rules: seq<RouteRule>)
    requires Rearranged(rules, sorted, 0, |rules|)
    ensures forall k :: 0 <= k < |sorted| ==> sorted[k] in rules
    ensures forall k :: 0 <= k < |rules| ==> rules[k] in sorted
  {
    forall k | 0 <= k < |sorted|
      ensures sorted[k] in rules
    {
      var i := RearrangedFrom(rules, sorted, 0, |rules|, k);
    }
    assert Rearranged(sorted, rules, 0, |rules|);
    forall k | 0 <= k < |rules|
      ensures rules[k] in sorted
    {
      var i := RearrangedFrom(sorted, rules, 0, |rules|, k);
    }
  }

  /** The first match of the sorted rules is a best match of the rules; when it has none, the rules have none. */
  lemma FirstOfSortedIsBest(k: nat, sorted: seq<RouteRule>, rules: seq<RouteRule>, templates: map<string, Match>,
                            r: Request)
    requires SortedFrom(rules, sorted) && FirstMatch(k, sorted, templates, r)
    ensures k < |sorted| ==> BestMatch(sorted[k], rules, templates, r)
    ensures k == |sorted| ==> NoMatch(rules, templates, r)
  {
    hide Matches, Decidable, Rearranged;
    SortedSame(sorted, rules);
    assert forall i :: 0 <= i < k ==> sorted[..k][i] == sorted[i];
    forall j | 0 <= j < |rules| && !Rejects(rules[j].matching, templates, r)
      ensures k < |sorted| && rules[j].precedence <= sorted[k].precedence
    {
      var i :| 0 <= i < |sorted| && sorted[i] == rules[j];
      assert k <= i;
    }
  }

  /** The loop of Route. */
  method FindMatch(rules: array<RouteRule>, templates: map<string, Match>, r: Request) returns (k: nat)
    requires Answerable(rules[..], templates, r)
    ensures FirstMatch(k, rules[..], templates, r)
    ensures k < rules.Length ==> rules[k].routes != []
  {
    hide Matches, Decidable;
    k := 0;
    while k < rules.Length
      invariant k <= rules.Length && AllReject(rules[..][..k], templates, r)
    {
      assert rules[..][k] == rules[k];
      if Matches(rules[k].matching, templates, r) {
        break;
      }
      assert rules[..][..k + 1] == rules[..][..k] + [rules[k]];
      k := k + 1;
    }
  }

  /** SortRules: the service's shared slice, sorted in place. */
  method SortRules(service: string, router: Router) returns (rules: array<RouteRule>)
    modifies if service in router.dests then {router.dests[service]} else {}
    ensures rules[..] == router.RulesOf(service)
    ensures SortedFrom(old(router.RulesOf(service)), rules[..])
  {
    if service !in router.dests {
      rules := new RouteRule[0];
    } else {
      rules := router.dests[service];
      QuickSort(0, rules.Length - 1, rules);
    }
  }

  /**
    What a request that matched rule does to the invocation, and to its service's traffic state and pool, whose tags
    are was before and now after it.
   */
  ghost predicate Applied(rule: RouteRule, before: FitState, after: FitState, was: seq<RouteTag>, now: seq<RouteTag>,
                          routeTags: Tags)
    requires rule.routes != [] && ValidState(before)
  {
    && after == FitStep(before, Weights(rule.routes)).0
    && exists tag :: Fits(rule.routes, before, was, now, tag) && routeTags == RouteTagToTags(tag)
  }

  method Apply(rule: RouteRule, inv: Invocation, pools: SafePool)
    requires pools.Valid() && rule.routes != []
    modifies inv, pools, pools.pool.Values
    ensures pools.Valid() && fresh(pools.pool.Values - old(pools.pool.Values))
    ensures forall d :: d != inv.microServiceName ==>
              pools.State(d) == old(pools.State(d)) && pools.TagsOf(d) == old(pools.TagsOf(d))
    ensures var service := inv.microServiceName;
            Applied(rule, old(pools.State(service)), pools.State(service),
                    old(pools.TagsOf(service)), pools.TagsOf(service), inv.routeTags)
  {
    hide FitStep, Fits;
    var tag := FitRate(rule.routes, inv.microServiceName, pools);
    inv.routeTags := RouteTagToTags(tag);
  }

  /** now is was sorted, and k is its first match: a best match of was, or the length if was has none. */
  ghost predicate Decided(was: seq<RouteRule>, now: seq<RouteRule>, templates: map<string, Match>, r: Request, k: nat) {
    && SortedFrom(was, now)
    && FirstMatch(k, now, templates, r)
    && (k < |now| ==> BestMatch(now[k], was, templates, r) && now[k].routes != [])
    && (k == |now| ==> NoMatch(was, templates, r))
  }

  method Decide(service: string, r: Request, router: Router) returns (rules: array<RouteRule>, k: nat)
    requires AnswerableSorted(router.RulesOf(service), router.templates, r)
    modifies if service in router.dests then {router.dests[service]} else {}
    ensures rules[..] == router.RulesOf(service)
    ensures Decided(old(router.RulesOf(service)), rules[..], router.templates, r, k)
    ensures k <= rules.Length && (k < rules.Length ==> rules[k].routes != [])
  {
    hide SortedFrom, BestMatch, NoMatch, AllReject, Answerable, Accepts;
    ghost var was := router.RulesOf(service);
    rules := SortRules(service, router);
    assert SortedFrom(was, rules[..]);
    k := FindMatch(rules, router.templates, r);
    FirstOfSortedIsBest(k, rules[..], was, router.templates, r);
  }

  /**
    Sorts the service's slice in place, then applies the first rule that matches, which is a best match; k is its place
    in the sorted slice. When no rule matches, neither RouteTags nor any traffic state changes.
   */
  method Route(r: Request, inv: Invocation, router: Router, pools: SafePool) returns (ghost k: nat)
    requires pools.Valid()
    requires AnswerableSorted(router.RulesOf(inv.microServiceName), router.templates, r)
    modifies inv, pools, pools.pool.Values
    modifies if inv.microServiceName in router.dests then {router.dests[inv.microServiceName]} else {}
    ensures pools.Valid() && fresh(pools.pool.Values - old(pools.pool.Values))
    ensures forall d :: d != inv.microServiceName ==>
              pools.State(d) == old(pools.State(d)) && pools.TagsOf(d) == old(pools.TagsOf(d))
    ensures Decided(old(router.RulesOf(inv.microServiceName)), router.RulesOf(inv.microServiceName),
                    router.templates, r, k)
    ensures var rules, service := router.RulesOf(inv.microServiceName), inv.microServiceName;
            if k < |rules| then
              rules[k].routes != [] &&
              Applied(rules[k], old(pools.State(service)), pools.State(service),
                      old(pools.TagsOf(service)), pools.TagsOf(service), inv.routeTags)
            else inv.routeTags == old(inv.routeTags) && pools.State(service) == old(pools.State(service)) &&
                 pools.TagsOf(service) == old(pools.TagsOf(service))
  {
    hide Decided, Applied, SafePool.Valid, SafePool.State, SafePool.TagsOf;
    var rules, i := Decide(inv.microServiceName, r, router);
    k := i;
    if i < rules.Length {
      Apply(rules[i], inv, pools);
    }
  }
}
