/** Weight through the three stages of a RATE policy: translation, validation, and the pool. */
module WeightConservation {
  import opened Base
  import opened GoStrings
  import opened RouteModel
  import opened DarkLaunch
  import opened WeightPool
  import opened WeightScaling
  import opened TrafficSplit

  /** allWeight of ValidateRule. */
  function TotalWeight(tags: seq<RouteTag>): (total: int) {
    if tags == [] then 0 else TotalWeight(tags[..|tags| - 1]) + tags[|tags| - 1].weight
  }

  /** ValidateRule of core/router/router_config.go: valid iff no rule of any service weighs over 100. */
  method ValidateRule(rules: map<string, seq<RouteRule>>) returns (ok: bool)
    ensures ok <==> forall name, k :: name in rules && 0 <= k < |rules[name]| ==>
                      TotalWeight(rules[name][k].routes) <= 100
  {
    var left := rules.Keys;
    while left != {}
      invariant left <= rules.Keys
      invariant forall name, k :: name in rules && name !in left && 0 <= k < |rules[name]| ==>
                  TotalWeight(rules[name][k].routes) <= 100
      decreases |left|
    {
      var name :| name in left;
      for i := 0 to |rules[name]|
        invariant forall k :: 0 <= k < i ==> TotalWeight(rules[name][k].routes) <= 100
      {
        var allWeight := AllWeight(rules[name][i].routes);
        if allWeight > 100 {
          return false;
        }
      }
      left := left - {name};
    }
    return true;
  }

  method AllWeight(routes: seq<RouteTag>) returns (total: int)
    ensures total == TotalWeight(routes)
  {
    total := 0;
    for k := 0 to |routes|
      invariant total == TotalWeight(routes[..k])
    {
      assert routes[..k + 1][..k] == routes[..k];
      total := total + routes[k].weight;
    }
    assert routes[..|routes|] == routes;
  }

  lemma {:induction false} TotalConcat(s: seq<RouteTag>, t: seq<RouteTag>)
    ensures TotalWeight(s + t) == TotalWeight(s) + TotalWeight(t)
  {
    if t == [] {
      assert s + t == s;
    } else {
      var front, last := t[..|t| - 1], t[|t| - 1];
      TotalConcat(s, front);
      assert (s + t)[..|s + t| - 1] == s + front;
    }
  }

  lemma {:induction false} TotalUniform(tags: seq<RouteTag>, w: int)
    requires forall k :: 0 <= k < |tags| ==> tags[k].weight == w
    ensures TotalWeight(tags) == |tags| * w
  {
    if tags != [] {
      TotalUniform(tags[..|tags| - 1], w);
      Distribute(w, |tags| - 1, 1);
    }
  }

  /** A group keeps its weight up to fewer units than it has versions, and gives every version the same. */
  lemma GroupLoss(weight: nat, versions: seq<string>)
    requires |versions| >= 1
    ensures var tags := SplitWeight(weight, versions);
            && |tags| == |versions|
            && weight - |versions| < TotalWeight(tags) <= weight
            && (forall k :: 0 <= k < |tags| ==> tags[k].weight >= 0 && tags[k].tags == map["version" := versions[k]])
            && (forall j, k :: 0 <= j < |tags| && 0 <= k < |tags| ==> tags[j].weight == tags[k].weight)
  {
    var tags := SplitWeight(weight, versions);
    if |versions| == 1 {
      assert tags[..0] == [];
    } else {
      TotalUniform(tags, weight / |versions|);
      assert |versions| * (weight / |versions|) + weight % |versions| == weight;
    }
  }

  // ---------- whole policies ----------

  function ItemWeight(item: RuleItem): (w: int) {
    Atoi(item.policyCondition).value
  }

  function PolicyWeight(items: seq<RuleItem>): (total: int) {
    if items == [] then 0 else PolicyWeight(items[..|items| - 1]) + ItemWeight(items[|items| - 1])
  }

  function VersionCount(items: seq<RuleItem>): (n: nat) {
    if items == [] then 0 else VersionCount(items[..|items| - 1]) + |Versions(items[|items| - 1].groupCondition)|
  }

  ghost predicate NonNegative(items: seq<RuleItem>) {
    forall k :: 0 <= k < |items| ==> ItemWeight(items[k]) >= 0
  }

  /** Translation loses weight only to rounding: less than one unit per version. */
  lemma {:induction false} RateLoss(items: seq<RuleItem>)
    requires NonNegative(items)
    ensures PolicyWeight(items) - VersionCount(items) <= TotalWeight(RateTags(items)) <= PolicyWeight(items)
    ensures items != [] ==> PolicyWeight(items) - TotalWeight(RateTags(items)) < VersionCount(items)
    ensures |RateTags(items)| == VersionCount(items)
    ensures forall k :: 0 <= k < |RateTags(items)| ==> RateTags(items)[k].weight >= 0
  {
    hide ItemWeight, Versions, SplitWeight, Atoi;
    if items != [] {
      var front, last := items[..|items| - 1], items[|items| - 1];
      RateLoss(front);
      var w := Atoi(last.policyCondition).value;
      assert w >= 0 by { ItemWeightIs(items[|items| - 1]); }
      GroupLoss(w, Versions(last.groupCondition));
      TotalConcat(RateTags(front), SplitWeight(w, Versions(last.groupCondition)));
      ItemWeightIs(last);
    }
  }

  lemma ItemWeightIs(item: RuleItem)
    ensures ItemWeight(item) == Atoi(item.policyCondition).value
  {
  }

  lemma NoWeights()
    ensures PositiveTotal(Weights([])) == 0
  {
  }

  lemma {:induction false} PositiveIsTotal(tags: seq<RouteTag>)
    requires forall k :: 0 <= k < |tags| ==> tags[k].weight >= 0
    ensures PositiveTotal(Weights(tags)) == TotalWeight(tags)
  {
    hide Weights, PositiveTotal;
    if tags == [] {
      NoWeights();
    } else {
      var front := tags[..|tags| - 1];
      PositiveIsTotal(front);
      WeightsSnoc(front, tags[|tags| - 1]);
      assert tags == front + [tags[|tags| - 1]];
    }
  }

  /**
    Conservation: a RATE policy of non-negative weights that total at most 100 still validates after translation, and
    its pool totals exactly 100, the latest version taking what the policy and the rounding left over.
   */
  lemma WeightConserved(items: seq<RuleItem>)
    requires NonNegative(items) && PolicyWeight(items) <= 100
    ensures var tags := RateTags(items);
            var rest := 100 - TotalWeight(tags);
            && TotalWeight(tags) <= 100
            && PositiveTotal(Weights(PoolTags(tags))) == 100
            && 100 - PolicyWeight(items) <= rest <= 100 - PolicyWeight(items) + VersionCount(items)
            && PoolTags(tags) == if rest > 0 then tags + [LatestTag(rest)] else tags
  {
    hide RateTags, Weights, PositiveTotal, TotalWeight, PolicyWeight, VersionCount;
    RateLoss(items);
    PositiveIsTotal(RateTags(items));
    PoolFills(RateTags(items));
  }

  /** A pool completes tags of total at most 100 to exactly 100. */
  lemma PoolFills(tags: seq<RouteTag>)
    requires PositiveTotal(Weights(tags)) <= 100
    ensures PositiveTotal(Weights(PoolTags(tags))) == 100
  {
    WeightsSnoc(tags, LatestTag(100 - PositiveTotal(Weights(tags))));
  }

  /**
    After n requests of a service with these tags, the requests routed to tag k differ from n * weight(k) / 100 by at
    most the size of the pool plus weight(k) / gcd.
   */
  ghost predicate Delivered(tags: seq<RouteTag>, n: nat, k: nat)
    requires tags != [] && k < |PoolTags(tags)|
  {
    var w := NewWheel(Weights(tags));
    && w.gcd > 0 && k < |w.weights|
    && DriftWithin(Count(FitAnswers(Weights(tags), n), k), n, PoolTags(tags)[k].weight, |w.weights| + Unit(w, k))
  }

  lemma TagsDelivered(tags: seq<RouteTag>, n: nat, k: nat)
    requires tags != [] && k < |PoolTags(tags)| && (forall j :: 0 <= j < |tags| ==> tags[j].weight >= 0)
    requires PositiveTotal(Weights(tags)) <= 100
    ensures Delivered(tags, n, k)
  {
    hide Weights, PositiveTotal, NewWheel, PoolWeights, PoolTags, DriftWithin, Count, Unit;
    PoolTagWeight(tags, k);
    BoundedDrift(Weights(tags), n, k);
  }

  /**
    End to end: a policy of non-negative weights that total at most 100 delivers the percentages translation gave, and
    to the latest version what they leave.
   */
  lemma RateDelivered(items: seq<RuleItem>, n: nat, k: nat)
    requires NonNegative(items) && PolicyWeight(items) <= 100 && items != [] && k < |PoolTags(RateTags(items))|
    ensures RateTags(items) != [] && Delivered(RateTags(items), n, k)
  {
    assert VersionCount(items) > 0;
    hide RateTags, Weights, PositiveTotal, TotalWeight, PolicyWeight, Delivered, VersionCount;
    RateLoss(items);
    PositiveIsTotal(RateTags(items));
    TagsDelivered(RateTags(items), n, k);
  }

  lemma PoolTagWeight(tags: seq<RouteTag>, k: nat)
    requires k < |PoolTags(tags)|
    ensures k < |PoolWeights(Weights(tags))| == |NewWheel(Weights(tags)).weights|
    ensures NewWheel(Weights(tags)).weights[k] == PoolTags(tags)[k].weight
  {
  }
}
