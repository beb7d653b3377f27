/** The records of core/config/model/router.go. */
module RouteModel {

  datatype RouteTag = RouteTag(tags: map<string, string>, weight: int, tagLabel: string)

  /** A nil Go map is Unset: Match distinguishes it from an empty one. */
  datatype Match = Match(
    refer: string,
    source: string,
    sourceTags: map<string, string>,
    httpHeaders: HeaderConditions,
    headers: HeaderConditions)

  datatype HeaderConditions = Unset | Conditions(byName: map<string, map<string, string>>)

  datatype RouteRule = RouteRule(precedence: int, routes: seq<RouteTag>, matching: Match)

  datatype RuleItem = RuleItem(groupName: string, groupCondition: string, policyCondition: string)

  datatype DarkLaunchRule = DarkLaunchRule(policyType: string, items: seq<RuleItem>)

  function Weights(tags: seq<RouteTag>): (ws: seq<int>)
    ensures |ws| == |tags|
    ensures forall k :: 0 <= k < |tags| ==> ws[k] == tags[k].weight
  {
    seq(|tags|, k requires 0 <= k < |tags| => tags[k].weight)
  }
}
