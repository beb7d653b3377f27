/** core/router/cse/translate.go: dark-launch policies become route rules. */
module DarkLaunch {
  import opened Base
  import opened GoStrings
  import opened RouteModel

  const TYPE_RULE := "RULE"
  const TYPE_RATE := "RATE"

  // ---------- conditions ----------

  /** The operators, in the order in which the translator looks for them. */
  datatype Operator = NoEqu | NoLess | NoGreater | Exact | Greater | Less | Regex

  function Symbol(op: Operator): (s: string)
    ensures 1 <= |s| <= 2
  {
    match op
    case NoEqu => "!="
    case NoLess => ">="
    case NoGreater => "<="
    case Exact => "="
    case Greater => ">"
    case Less => "<"
    case Regex => "~"
  }

  function Keyword(op: Operator): string {
    match op
    case NoEqu => "noEqu"
    case NoLess => "noLess"
    case NoGreater => "noGreater"
    case Exact => "exact"
    case Greater => "greater"
    case Less => "less"
    case Regex => "regex"
  }

  function OperatorIn(con: string): (op: Option<Operator>) {
    if Contains(con, Symbol(NoEqu)) then Some(NoEqu)
    else if Contains(con, Symbol(NoLess)) then Some(NoLess)
    else if Contains(con, Symbol(NoGreater)) then Some(NoGreater)
    else if Contains(con, Symbol(Exact)) then Some(Exact)
    else if Contains(con, Symbol(Greater)) then Some(Greater)
    else if Contains(con, Symbol(Less)) then Some(Less)
    else if Contains(con, Symbol(Regex)) then Some(Regex)
    else None
  }

  /** The header conditions of one policy item; none at all when no operator is found. */
  function ConditionsOf(con: string): (c: map<string, map<string, string>>) {
    var op := OperatorIn(con);
    if op == None then map[]
    else
      var parts := Split(con, Symbol(op.value));
      map[parts[0] := map[Keyword(op.value) := parts[1]]]
  }

  function MatchOf(con: string): (m: Match) {
    Match("", "", map[], Conditions(ConditionsOf(con)), Conditions(ConditionsOf(con)))
  }

  // ---------- versions and weights ----------

  function Versions(groupCondition: string): (vs: seq<string>)
    ensures |vs| >= 1
  {
    Split(ReplaceFirst(groupCondition, "version=", ""), ",")
  }

  /** A group condition that lists these versions, with or without its prefix. */
  predicate Lists(groupCondition: string, versions: seq<string>) {
    && versions != []
    && (forall k :: 0 <= k < |versions| ==> ',' !in versions[k])
    && (groupCondition == "version=" + Join(versions, ",") ||
        (groupCondition == Join(versions, ",") &&
         forall k :: 0 <= k < |versions| ==> !Contains(versions[k], "version=")))
  }

  /** The versions listed are read back, in order. */
  lemma VersionsRead(groupCondition: string, versions: seq<string>)
    requires Lists(groupCondition, versions)
    ensures Versions(groupCondition) == versions
  {
    hide Find, Split, ReplaceFirst;
    var list := Join(versions, ",");
    if groupCondition == "version=" + list {
      assert "" + "version=" + list == groupCondition && "" + "" + list == list;
      Replaced("", "version=", list, "");
    } else {
      JoinFree(versions, ',', "version=");
      NotReplaced(list, "version=", "");
    }
    SplitJoin(versions, ',');
  }

  function VersionTag(version: string, weight: int): (t: RouteTag) {
    RouteTag(map["version" := version], weight, "")
  }

  /** Go's integer division truncates towards zero. */
  function Quotient(a: int, n: nat): (q: int)
    requires n > 0
  {
    if a >= 0 then a / n else -(-a / n)
  }

  function SplitWeight(weight: int, versions: seq<string>): (tags: seq<RouteTag>)
    requires |versions| >= 1
  {
    if |versions| == 1 then [VersionTag(versions[0], weight)]
    else seq(|versions|, k requires 0 <= k < |versions| => VersionTag(versions[k], Quotient(weight, |versions|)))
  }

  method GenerateRouteTags(weights: int, versions: seq<string>) returns (tags: seq<RouteTag>)
    requires |versions| >= 1
    ensures tags == SplitWeight(weights, versions)
  {
    if |versions| == 1 {
      return [VersionTag(versions[0], weights)];
    }
    tags := [];
    for i := 0 to |versions|
      invariant |tags| == i
      invariant forall k :: 0 <= k < i ==> tags[k] == VersionTag(versions[k], Quotient(weights, |versions|))
    {
      tags := tags + [VersionTag(versions[i], Quotient(weights, |versions|))];
    }
  }

  // ---------- policies ----------

  function RateTags(items: seq<RuleItem>): (tags: seq<RouteTag>) {
    if items == [] then []
    else
      var last := items[|items| - 1];
      RateTags(items[..|items| - 1]) + SplitWeight(Atoi(last.policyCondition).value, Versions(last.groupCondition))
  }

  function RuleOf(item: RuleItem): (r: RouteRule) {
    RouteRule(1, SplitWeight(100, Versions(item.groupCondition)), MatchOf(item.policyCondition))
  }

  const NO_MATCH := Match("", "", map[], Unset, Unset)

  method RateRoutes(items: seq<RuleItem>) returns (routes: seq<RouteTag>)
    ensures routes == RateTags(items)
  {
    hide Atoi, Versions, SplitWeight;
    routes := [];
    for i := 0 to |items|
      invariant routes == RateTags(items[..i])
    {
      var v := items[i];
      var newTag := GenerateRouteTags(Atoi(v.policyCondition).value, Versions(v.groupCondition));
      routes := routes + newTag;
      assert items[..i + 1][..i] == items[..i];
    }
    assert items[..|items|] == items;
  }

  method RuleRules(items: seq<RuleItem>) returns (rules: seq<RouteRule>)
    ensures |rules| == |items| && forall i :: 0 <= i < |rules| ==> rules[i] == RuleOf(items[i])
  {
    hide Versions, SplitWeight, MatchOf;
    rules := [];
    for i := 0 to |items|
      invariant |rules| == i
      invariant forall k :: 0 <= k < i ==> rules[k] == RuleOf(items[k])
    {
      var routes := GenerateRouteTags(100, Versions(items[i].groupCondition));
      rules := rules + [RouteRule(1, routes, MatchOf(items[i].policyCondition))];
    }
  }

  /** The tags of one item: one for each version, and nothing else in them. */
  ghost predicate TagsFor(tags: seq<RouteTag>, versions: seq<string>) {
    && |tags| == |versions|
    && forall k :: 0 <= k < |tags| ==> tags[k].tags == map["version" := versions[k]] && tags[k].tagLabel == ""
  }

  /** The weight is kept whole by one version and shared alike, rounded towards nothing, by several. */
  ghost predicate Shared(tags: seq<RouteTag>, weight: int) {
    && (|tags| == 1 ==> tags[0].weight == weight)
    && (|tags| > 1 && weight >= 0 ==>
          forall k :: 0 <= k < |tags| ==> |tags| * tags[k].weight <= weight < |tags| * (tags[k].weight + 1))
    && (|tags| > 1 && weight < 0 ==>
          forall k :: 0 <= k < |tags| ==> |tags| * (tags[k].weight - 1) < weight <= |tags| * tags[k].weight)
  }

  lemma QuotientShares(weight: int, n: nat)
    requires n > 0
    ensures var q := Quotient(weight, n);
            && (weight >= 0 ==> n * q <= weight < n * (q + 1))
            && (weight < 0 ==> n * (q - 1) < weight <= n * q)
  {
    var a := if weight >= 0 then weight else -weight;
    assert n * (a / n) + a % n == a;
    Distribute(n, a / n, 1);
    var q := Quotient(weight, n);
    if weight < 0 {
      assert n * q == -(n * (a / n));
      assert n * (q - 1) == n * q - n;
    }
  }

  lemma WeightShared(weight: int, versions: seq<string>)
    requires |versions| >= 1
    ensures TagsFor(SplitWeight(weight, versions), versions) && Shared(SplitWeight(weight, versions), weight)
  {
    QuotientShares(weight, |versions|);
    hide Quotient;
  }

  ghost predicate AllList(items: seq<RuleItem>, lists: seq<seq<string>>) {
    |lists| == |items| && forall i :: 0 <= i < |items| ==> Lists(items[i].groupCondition, lists[i])
  }

  ghost function Flatten(groups: seq<seq<RouteTag>>): (tags: seq<RouteTag>) {
    if groups == [] then [] else Flatten(groups[..|groups| - 1]) + groups[|groups| - 1]
  }

  /** groups are the tags of the items, each with the versions of its item and a share of the item's weight. */
  ghost predicate GroupsRead(groups: seq<seq<RouteTag>>, items: seq<RuleItem>, lists: seq<seq<string>>) {
    && |groups| == |items| == |lists|
    && forall i :: 0 <= i < |items| ==>
         TagsFor(groups[i], lists[i]) && Shared(groups[i], Atoi(items[i].policyCondition).value)
  }

  /** routes are the tags of all items, one item after another. */
  ghost predicate RateRead(routes: seq<RouteTag>, items: seq<RuleItem>, lists: seq<seq<string>>) {
    exists groups :: GroupsRead(groups, items, lists) && routes == Flatten(groups)
  }

  lemma {:induction false} RateTagsRead(items: seq<RuleItem>, lists: seq<seq<string>>)
    returns (groups: seq<seq<RouteTag>>)
    requires AllList(items, lists)
    ensures GroupsRead(groups, items, lists) && RateTags(items) == Flatten(groups)
  {
    hide Lists, Versions, Atoi, SplitWeight, TagsFor, Shared;
    groups := [];
    if items != [] {
      var n := |items| - 1;
      var front := RateTagsRead(items[..n], lists[..n]);
      VersionsRead(items[n].groupCondition, lists[n]);
      ListsSome(items[n].groupCondition, lists[n]);
      var last := SplitWeight(Atoi(items[n].policyCondition).value, lists[n]);
      WeightShared(Atoi(items[n].policyCondition).value, lists[n]);
      groups := front + [last];
      assert groups[..n] == front;
    }
  }

  /** The rule of an item that lists versions sends to exactly these, one with weight 100 or several sharing it. */
  ghost predicate RuleRead(rule: RouteRule, versions: seq<string>) {
    TagsFor(rule.routes, versions) && Shared(rule.routes, 100)
  }

  lemma RuleOfRead(item: RuleItem, versions: seq<string>)
    requires Lists(item.groupCondition, versions)
    ensures RuleRead(RuleOf(item), versions)
  {
    hide Lists, Versions, SplitWeight, TagsFor, Shared;
    VersionsRead(item.groupCondition, versions);
    assert versions != [] by { ListsSome(item.groupCondition, versions); }
    WeightShared(100, versions);
  }

  lemma ListsSome(groupCondition: string, versions: seq<string>)
    requires Lists(groupCondition, versions)
    ensures versions != []
  {
  }

  lemma ItemsRead(items: seq<RuleItem>, lists: seq<seq<string>>)
    requires AllList(items, lists)
    ensures RateRead(RateTags(items), items, lists)
    ensures forall i :: 0 <= i < |lists| ==> RuleRead(RuleOf(items[i]), lists[i])
  {
    var groups := RateTagsRead(items, lists);
    assert RateRead(RateTags(items), items, lists);
    hide Lists, RuleOf, RateTags, RateRead, RuleRead;
    forall i | 0 <= i < |lists|
      ensures RuleRead(RuleOf(items[i]), lists[i])
    {
      RuleOfRead(items[i], lists[i]);
    }
  }

  /** A RATE policy is one rule with all the tags; a RULE policy is one rule per item, in the same order. */
  method DarkLaunchRule2RouteRule(rule: DarkLaunchRule) returns (rules: seq<RouteRule>)
    ensures rule.policyType == TYPE_RATE ==> rules == [RouteRule(1, RateTags(rule.items), NO_MATCH)]
    ensures rule.policyType == TYPE_RULE ==>
              |rules| == |rule.items| && forall i :: 0 <= i < |rules| ==> rules[i] == RuleOf(rule.items[i])
    ensures rule.policyType != TYPE_RATE && rule.policyType != TYPE_RULE ==> rules == []
    ensures forall lists :: AllList(rule.items, lists) ==>
              && (rule.policyType == "RATE" ==> |rules| == 1 && RateRead(rules[0].routes, rule.items, lists))
              && (rule.policyType == "RULE" ==>
                    |rules| == |lists| && forall i :: 0 <= i < |rules| ==> RuleRead(rules[i], lists[i]))
  {
    forall lists | AllList(rule.items, lists)
      ensures RateRead(RateTags(rule.items), rule.items, lists)
      ensures forall i :: 0 <= i < |lists| ==> RuleRead(RuleOf(rule.items[i]), lists[i])
    {
      ItemsRead(rule.items, lists);
    }
    hide RuleOf, RateTags, AllList, RateRead, RuleRead;
    if rule.policyType == TYPE_RATE {
      var routes := RateRoutes(rule.items);
      return [RouteRule(1, routes, NO_MATCH)];
    }
    if rule.policyType == TYPE_RULE {
      rules := RuleRules(rule.items);
      return;
    }
    return [];
  }

  // ---------- reading a condition back ----------

  predicate IsOperatorChar(c: char) {
    c == '=' || c == '<' || c == '>' || c == '~'
  }

  predicate OperatorFree(s: string) {
    forall i :: 0 <= i < |s| ==> !IsOperatorChar(s[i])
  }

  /** header OP value with operator-free operands; "header!" followed by "=value" reads as "header" "!=" "value". */
  predicate WellFormed(header: string, op: Operator, value: string) {
    OperatorFree(header) && OperatorFree(value) && (op.Exact? && header != "" ==> header[|header| - 1] != '!')
  }

  /** An operator character of a well-formed condition belongs to its operator. */
  lemma OperatorCharAt(header: string, op: Operator, value: string, j: nat)
    requires OperatorFree(header) && OperatorFree(value)
    requires var con := header + Symbol(op) + value; j < |con| && IsOperatorChar(con[j])
    ensures var con := header + Symbol(op) + value;
            |header| <= j < |header| + |Symbol(op)| && con[j] == Symbol(op)[j - |header|]
  {
  }

  /** Where a symbol can occur in a well-formed condition: nowhere before the operator's place, and an earlier one nowhere. */
  lemma SymbolAt(header: string, op: Operator, value: string, other: Operator, j: nat)
    requires WellFormed(header, op, value)
    requires var con := header + Symbol(op) + value; j < |con| && Symbol(other) <= con[j..]
    ensures j >= |header|
    ensures other == op ==> j == |header|
    ensures Rank(other) >= Rank(op)
  {
    var con := header + Symbol(op) + value;
    var o := |Symbol(other)| - 1;
    PrefixAt(con, j, Symbol(other), 0);
    PrefixAt(con, j, Symbol(other), o);
    OperatorCharAt(header, op, value, j + o);
  }

  /** The position of an operator in the translator's search order. */
  function Rank(op: Operator): (r: nat) {
    match op
    case NoEqu => 0
    case NoLess => 1
    case NoGreater => 2
    case Exact => 3
    case Greater => 4
    case Less => 5
    case Regex => 6
  }

  lemma SymbolFound(header: string, op: Operator, value: string)
    requires WellFormed(header, op, value)
    ensures Find(header + Symbol(op) + value, Symbol(op)) == |header|
    ensures OperatorIn(header + Symbol(op) + value) == Some(op)
  {
    var con := header + Symbol(op) + value;
    assert con[|header|..] == Symbol(op) + value;
    forall j | 0 <= j < |header|
      ensures !(Symbol(op) <= con[j..])
    {
      if Symbol(op) <= con[j..] { SymbolAt(header, op, value, op, j); }
    }
    FindAt(con, Symbol(op), |header|);
    forall other: Operator | Rank(other) < Rank(op)
      ensures !Contains(con, Symbol(other))
    {
      EarlierAbsent(header, op, value, other);
    }
    OperatorInOrder(con, op);
  }

  lemma EarlierAbsent(header: string, op: Operator, value: string, other: Operator)
    requires WellFormed(header, op, value) && Rank(other) < Rank(op)
    ensures !Contains(header + Symbol(op) + value, Symbol(other))
  {
    var con := header + Symbol(op) + value;
    forall j | 0 <= j < |con|
      ensures !(Symbol(other) <= con[j..])
    {
      if Symbol(other) <= con[j..] { SymbolAt(header, op, value, other, j); }
    }
    FindNone(con, Symbol(other));
  }

  lemma OperatorInOrder(con: string, op: Operator)
    requires Contains(con, Symbol(op))
    requires forall other: Operator :: Rank(other) < Rank(op) ==> !Contains(con, Symbol(other))
    ensures OperatorIn(con) == Some(op)
  {
    hide Contains, Symbol;
    assert Rank(NoEqu) < 1 && Rank(NoLess) < 2 && Rank(NoGreater) < 3 && Rank(Exact) < 4;
    assert Rank(Greater) < 5 && Rank(Less) < 6;
  }

  lemma ValueWhole(value: string, op: Operator)
    requires OperatorFree(value)
    ensures Split(value, Symbol(op)) == [value]
  {
    forall j | 0 <= j < |value|
      ensures !(Symbol(op) <= value[j..])
    {
      if Symbol(op) <= value[j..] { PrefixAt(value, j, Symbol(op), |Symbol(op)| - 1); }
    }
    FindNone(value, Symbol(op));
  }

  /**
    Where the symbols may occur for "header OP value" to be read as written: none of an earlier rank anywhere, that of
    op nowhere before its place, and nowhere in value.
   */
  predicate Readable(header: string, op: Operator, value: string) {
    var con := header + Symbol(op) + value;
    && (forall other: Operator :: Rank(other) < Rank(op) ==> !Contains(con, Symbol(other)))
    && Find(con, Symbol(op)) == |header|
    && !Contains(value, Symbol(op))
  }

  /** Operator-free operands are enough. */
  lemma WellFormedReadable(header: string, op: Operator, value: string)
    requires WellFormed(header, op, value)
    ensures Readable(header, op, value)
  {
    hide Symbol, Find, OperatorIn, WellFormed, OperatorFree;
    SymbolFound(header, op, value);
    assert OperatorFree(value) by { WellFormedValue(header, op, value); }
    ValueWhole(value, op);
    forall other: Operator | Rank(other) < Rank(op)
      ensures !Contains(header + Symbol(op) + value, Symbol(other))
    {
      EarlierAbsent(header, op, value, other);
    }
  }

  lemma WellFormedValue(header: string, op: Operator, value: string)
    requires WellFormed(header, op, value)
    ensures OperatorFree(value)
  {
  }

  /** The translator reads a condition as that header, operator and value iff the symbols occur so. */
  lemma ConditionRead(header: string, op: Operator, value: string)
    ensures ConditionsOf(header + Symbol(op) + value) == map[header := map[Keyword(op) := value]]
            <==> Readable(header, op, value)
  {
    var con := header + Symbol(op) + value;
    hide Symbol, Keyword, Find, OperatorIn, Rank, Split;
    assert con[|header|..] == Symbol(op) + value;
    if Readable(header, op, value) {
      ReadAsWritten(header, op, value);
    }
    if ConditionsOf(con) == map[header := map[Keyword(op) := value]] {
      OnlyAsWritten(header, op, value);
    }
  }

  /** The condition goes into both header maps, and the match asks for nothing else. */
  lemma ConditionInBoth(header: string, op: Operator, value: string)
    requires Readable(header, op, value)
    ensures var c := Conditions(map[header := map[Keyword(op) := value]]);
            MatchOf(header + Symbol(op) + value) == Match("", "", map[], c, c)
  {
    hide Readable, ConditionsOf;
    ConditionRead(header, op, value);
  }

  lemma ReadAsWritten(header: string, op: Operator, value: string)
    requires Readable(header, op, value)
    ensures ConditionsOf(header + Symbol(op) + value) == map[header := map[Keyword(op) := value]]
  {
    hide Symbol, Keyword, Find, OperatorIn, Rank;
    var con := header + Symbol(op) + value;
    OperatorInOrder(con, op);
    assert con[..|header|] == header;
    assert con[|header| + |Symbol(op)|..] == value;
    assert Split(con, Symbol(op)) == [header] + Split(value, Symbol(op));
  }

  lemma OnlyAsWritten(header: string, op: Operator, value: string)
    requires ConditionsOf(header + Symbol(op) + value) == map[header := map[Keyword(op) := value]]
    ensures Readable(header, op, value)
  {
    hide Symbol, Keyword, Find, OperatorIn, Rank;
    var con := header + Symbol(op) + value;
    var c := ConditionsOf(con);
    assert header in c && c[header] == map[Keyword(op) := value];
    var found := OperatorIn(con);
    assert found.Some?;
    var parts := Split(con, Symbol(found.value));
    assert parts[0] == header && Keyword(op) in map[Keyword(found.value) := parts[1]];
    if found.value != op { KeywordsDiffer(found.value, op); }
    FoundInOrder(con, op);
    assert map[Keyword(op) := value][Keyword(op)] == value == parts[1];
    var i := Find(con, Symbol(op));
    assert con[..i] == header;
    assert con[|header| + |Symbol(op)|..] == value;
    assert parts == [header] + Split(value, Symbol(op));
    assert Split(value, Symbol(op))[0] == value;
  }

  lemma FoundInOrder(con: string, op: Operator)
    requires OperatorIn(con) == Some(op)
    ensures Contains(con, Symbol(op))
    ensures forall other: Operator :: Rank(other) < Rank(op) ==> !Contains(con, Symbol(other))
  {
    hide Contains, Symbol;
  }

  lemma KeywordsDiffer(a: Operator, b: Operator)
    requires a != b
    ensures Keyword(a) != Keyword(b)
  {
    assert Keyword(NoEqu)[2] == 'E' && Keyword(NoLess)[2] == 'L' && Keyword(NoGreater)[2] == 'G';
    assert Keyword(Exact)[0] == 'e' && Keyword(Greater)[0] == 'g' && Keyword(Less)[0] == 'l' && Keyword(Regex)[0] == 'r';
    assert Keyword(NoEqu)[0] == 'n' && Keyword(NoLess)[0] == 'n' && Keyword(NoGreater)[0] == 'n';
  }

  /** A regular expression with an equals sign in it is never read as one. */
  lemma RegexMisread(header: string, value: string)
    requires '=' in value
    ensures !Readable(header, Regex, value)
    ensures ConditionsOf(header + Symbol(Regex) + value) != map[header := map[Keyword(Regex) := value]]
  {
    var con := header + Symbol(Regex) + value;
    var j :| 0 <= j < |value| && value[j] == '=';
    assert con[|header| + 1 + j] == '=';
    assert Symbol(Exact) <= con[|header| + 1 + j..];
    assert Contains(con, Symbol(Exact));
    assert Rank(Exact) < Rank(Regex);
    ConditionRead(header, Regex, value);
  }
}
