/** What a translated RULE policy means for requests, from its text to the rule that Route applies. */
module PolicyMeaning {
  import opened Base
  import opened GoStrings
  import opened RouteModel
  import opened RouteMatch
  import opened DarkLaunch
  import opened RuleSort
  import opened Routing

  /** What "header OP value" says about a request. A header that is not an integer satisfies no ordering. */
  ghost predicate Holds(r: Request, header: string, op: Operator, value: string) {
    var h := At(r.headers, header);
    match op
    case NoEqu => h != value
    case Exact => h == value
    case Regex => r.regex(value, h)
    case NoLess => Atoi(h).ok && Atoi(h).value >= Atoi(value).value
    case NoGreater => Atoi(h).ok && Atoi(h).value <= Atoi(value).value
    case Greater => Atoi(h).ok && Atoi(h).value > Atoi(value).value
    case Less => Atoi(h).ok && Atoi(h).value < Atoi(value).value
  }

  /** The place of an operator in the matcher's order, which is not the translator's. */
  function MatchRank(op: Operator): (r: nat) {
    match op
    case Regex => 0
    case Exact => 1
    case NoEqu => 2
    case NoLess => 3
    case NoGreater => 4
    case Greater => 5
    case Less => 6
  }

  /** Of several conditions on one header the first in the matcher's order decides, and the others do not matter. */
  lemma FirstKeywordDecides(r: Request, header: string, v: map<string, string>, op: Operator)
    requires Keyword(op) in v
    requires forall o: Operator :: MatchRank(o) < MatchRank(op) ==> Keyword(o) !in v
    ensures IsMatch(r, header, v) <==> Holds(r, header, op, v[Keyword(op)])
  {
    hide Atoi;
    assert MatchRank(Regex) < 1 && MatchRank(Exact) < 2 && MatchRank(NoEqu) < 3 && MatchRank(NoLess) < 4;
    assert MatchRank(NoGreater) < 5 && MatchRank(Greater) < 6 && MatchRank(Less) < 7;
  }

  lemma KeywordMatch(r: Request, header: string, op: Operator, value: string)
    ensures IsMatch(r, header, map[Keyword(op) := value]) <==> Holds(r, header, op, value)
  {
    var v := map[Keyword(op) := value];
    forall o: Operator | MatchRank(o) < MatchRank(op)
      ensures Keyword(o) !in v
    {
      KeywordsDiffer(o, op);
    }
    FirstKeywordDecides(r, header, v, op);
  }

  // ---------- what a match asks of a request ----------

  /** Of the conditions on one header, op is the one that decides. */
  ghost predicate Decides(v: map<string, string>, op: Operator) {
    Keyword(op) in v && forall o: Operator :: MatchRank(o) < MatchRank(op) ==> Keyword(o) !in v
  }

  /** The deciding condition holds; without any known keyword the header has to be an integer. */
  ghost predicate HeaderHolds(r: Request, header: string, v: map<string, string>) {
    && (forall op: Operator :: Decides(v, op) ==> Holds(r, header, op, v[Keyword(op)]))
    && ((forall op: Operator :: Keyword(op) !in v) ==> Atoi(At(r.headers, header)).ok)
  }

  lemma HeaderMeans(r: Request, header: string, v: map<string, string>)
    ensures IsMatch(r, header, v) <==> HeaderHolds(r, header, v)
  {
    hide Atoi;
    if op: Operator :| Decides(v, op) {
      FirstKeywordDecides(r, header, v, op);
      forall o: Operator | Decides(v, o)
        ensures Holds(r, header, o, v[Keyword(o)]) <==> IsMatch(r, header, v)
      {
        FirstKeywordDecides(r, header, v, o);
      }
    } else {
      forall o: Operator
        ensures Keyword(o) !in v
      {
        NoneDecides(v, o);
      }
      assert Keyword(Regex) !in v && Keyword(Exact) !in v && Keyword(NoEqu) !in v && Keyword(NoLess) !in v;
      assert Keyword(NoGreater) !in v && Keyword(Greater) !in v && Keyword(Less) !in v;
    }
  }

  /** If no operator decides, there is none. */
  lemma {:induction false} NoneDecides(v: map<string, string>, op: Operator)
    requires forall o: Operator :: !Decides(v, o)
    ensures Keyword(op) !in v
    decreases MatchRank(op)
  {
    hide Keyword;
    if Keyword(op) in v {
      assert !Decides(v, op);
      var o: Operator :| MatchRank(o) < MatchRank(op) && Keyword(o) in v;
      NoneDecides(v, o);
    }
  }

  /** The conditions of one of the two header maps hold; an unset map has none. */
  ghost predicate HeadersHold(r: Request, c: HeaderConditions) {
    c.Conditions? ==> forall k :: k in c.byName ==> HeaderHolds(r, k, c.byName[k])
  }

  lemma HeadersMean(r: Request, c: HeaderConditions)
    ensures AllMatch(r, c) <==> HeadersHold(r, c)
  {
    hide IsMatch, HeaderHolds;
    if c.Conditions? {
      forall k | k in c.byName
        ensures IsMatch(r, k, c.byName[k]) <==> HeaderHolds(r, k, c.byName[k])
      {
        HeaderMeans(r, k, c.byName[k]);
      }
    }
  }

  /** What is asked: the match itself, or the template it refers to. */
  function Asked(m: Match, templates: map<string, Match>): (t: Match)
    requires m.refer != "" ==> m.refer in templates
  {
    if m.refer != "" then templates[m.refer] else m
  }

  /** The caller's value of a tag, the empty string for one it does not have. */
  function CallerTag(r: Request, k: string): (v: string)
    requires r.source.Some?
  {
    if k in r.source.value.tags then r.source.value.tags[k] else ""
  }

  /** The request gives the match no reason to refuse it. */
  ghost predicate Agrees(t: Match, r: Request) {
    && (t.source != "" ==> r.source.Some? && t.source == r.source.value.name)
    && (forall k :: k in t.sourceTags ==> r.source.Some? && t.sourceTags[k] == CallerTag(r, k))
    && HeadersHold(r, t.headers) && HeadersHold(r, t.httpHeaders)
  }

  /** A match refuses another caller, and for any source tag, header or HTTP header that does not agree. */
  lemma MatchRefuses(r: Request, templates: map<string, Match>, m: Match)
    requires Decidable(m, templates, r) && (m.refer != "" || !NotSet(m))
    ensures var t := Asked(m, templates);
            && (t.source != "" && t.source != r.source.value.name ==> !Matches(m, templates, r))
            && (forall k :: k in t.sourceTags && t.sourceTags[k] != CallerTag(r, k) ==> !Matches(m, templates, r))
            && (!HeadersHold(r, t.headers) ==> !Matches(m, templates, r))
            && (!HeadersHold(r, t.httpHeaders) ==> !Matches(m, templates, r))
  {
    hide AllMatch, HeadersHold;
    HeadersMean(r, Asked(m, templates).headers);
    HeadersMean(r, Asked(m, templates).httpHeaders);
  }

  /** And it accepts a request that gives it no reason to refuse; one written out with nothing set accepts all. */
  lemma MatchAccepts(r: Request, templates: map<string, Match>, m: Match)
    requires Decidable(m, templates, r)
    ensures m.refer == "" && m.source == "" && m.headers.Unset? && m.httpHeaders.Unset? ==> Matches(m, templates, r)
    ensures Agrees(Asked(m, templates), r) ==> Matches(m, templates, r)
  {
    hide AllMatch, HeadersHold;
    HeadersMean(r, Asked(m, templates).headers);
    HeadersMean(r, Asked(m, templates).httpHeaders);
  }

  /** A single condition that does not hold is enough, whichever of the two maps it is in. */
  lemma ConditionRefuses(r: Request, c: HeaderConditions, header: string, op: Operator, value: string)
    requires c.Conditions? && header in c.byName && c.byName[header] == map[Keyword(op) := value]
    requires !Holds(r, header, op, value)
    ensures !HeadersHold(r, c)
  {
    forall o: Operator | MatchRank(o) < MatchRank(op)
      ensures Keyword(o) !in c.byName[header]
    {
      KeywordsDiffer(o, op);
    }
    hide Holds, Keyword;
    assert Decides(c.byName[header], op);
  }

  /** The rule that Route applies agrees with the request in everything it asks. */
  lemma AppliedAgrees(was: seq<RouteRule>, now: seq<RouteRule>, templates: map<string, Match>, r: Request, k: nat)
    requires Decided(was, now, templates, r, k) && k < |now|
    ensures var m := now[k].matching;
            && Decidable(m, templates, r)
            && (m.refer != "" || m.source != "" || m.headers.Conditions? || m.httpHeaders.Conditions? ==>
                  Agrees(Asked(m, templates), r))
  {
    var m := now[k].matching;
    hide HeadersHold, SortedFrom, BestMatch, AllReject, NoMatch, AllMatch;
    if m.refer != "" || !NotSet(m) { MatchRefuses(r, templates, m); }
  }

  /** The caller has the source tags that a match asks for. */
  ghost predicate TagsHold(m: Match, r: Request)
    requires NeedsSource(m) ==> r.source.Some?
  {
    forall k :: k in m.sourceTags ==> m.sourceTags[k] == CallerTag(r, k)
  }

  /**
    Referring to a template and writing it out in the rule decide alike iff the template sets a source or headers, or
    the caller has its source tags: written out, source tags alone are ignored.
   */
  lemma ReferLikeInlineIff(r: Request, templates: map<string, Match>, m: Match)
    requires m.refer != "" && m.refer in templates && Decidable(m, templates, r)
    ensures var inline := templates[m.refer].(refer := "");
            Decidable(inline, templates, r) &&
            ((Matches(m, templates, r) <==> Matches(inline, templates, r)) <==>
             !NotSet(inline) || TagsHold(inline, r))
  {
    hide IsMatch;
  }

  /** A caller tagged as a development one is refused by a template for production callers, but not written out. */
  lemma ReferDiffersFromInline(regex: (string, string) -> bool)
    ensures var r := Request(map[], Some(SourceInfo("shop", map["env" := "dev"])), regex);
            var template := Match("", "", map["env" := "prod"], Unset, Unset);
            var templates, m := map["t" := template], Match("t", "", map[], Unset, Unset);
            && Decidable(m, templates, r) && !Matches(m, templates, r)
            && Decidable(template, templates, r) && Matches(template, templates, r)
  {
    var template := Match("", "", map["env" := "prod"], Unset, Unset);
    assert "env" in template.sourceTags;
    assert "prod"[0] != "dev"[0];
  }

  /** Translation preserves meaning: the translated match accepts a request iff the condition holds of it. */
  lemma TranslationMeans(r: Request, templates: map<string, Match>, header: string, op: Operator, value: string)
    requires Readable(header, op, value)
    ensures var m := MatchOf(header + Symbol(op) + value);
            Decidable(m, templates, r) && (Matches(m, templates, r) <==> Holds(r, header, op, value))
  {
    hide ConditionsOf, Holds, IsMatch, Readable, Keyword, Symbol;
    ConditionRead(header, op, value);
    KeywordMatch(r, header, op, value);
    var c := ConditionsOf(header + Symbol(op) + value);
    assert c[header] == map[Keyword(op) := value];
  }

  /** For integers the ordering operators compare the integers. */
  lemma OrderingOfIntegers(r: Request, header: string, m: int, n: int)
    requires MIN_INT <= m <= MAX_INT && MIN_INT <= n <= MAX_INT && At(r.headers, header) == Decimal(m)
    ensures Holds(r, header, NoLess, Decimal(n)) <==> m >= n
    ensures Holds(r, header, NoGreater, Decimal(n)) <==> m <= n
    ensures Holds(r, header, Greater, Decimal(n)) <==> m > n
    ensures Holds(r, header, Less, Decimal(n)) <==> m < n
  {
    AtoiDecimal(m);
    AtoiDecimal(n);
    hide Atoi, Decimal;
  }

  // ---------- whole policies ----------

  datatype Condition = Condition(header: string, op: Operator, value: string)

  /** The items of a RULE policy say conds, in order. */
  ghost predicate Says(items: seq<RuleItem>, conds: seq<Condition>) {
    && |items| == |conds|
    && forall i :: 0 <= i < |items| ==>
         && Readable(conds[i].header, conds[i].op, conds[i].value)
         && items[i].policyCondition == conds[i].header + Symbol(conds[i].op) + conds[i].value
  }

  ghost predicate Translated(rules: seq<RouteRule>, items: seq<RuleItem>) {
    |rules| == |items| && forall i :: 0 <= i < |rules| ==> rules[i] == RuleOf(items[i])
  }

  lemma RoutesNonEmpty(item: RuleItem)
    ensures RuleOf(item).routes != [] && RuleOf(item).precedence == 1
    ensures RuleOf(item).matching == MatchOf(item.policyCondition)
  {
  }

  ghost predicate ConditionHolds(r: Request, c: Condition) {
    Holds(r, c.header, c.op, c.value)
  }

  /** k is the first condition that holds, or their number when none does. */
  ghost predicate FirstHolding(k: nat, conds: seq<Condition>, r: Request) {
    && k <= |conds|
    && (forall j :: 0 <= j < k ==> !ConditionHolds(r, conds[j]))
    && (k < |conds| ==> ConditionHolds(r, conds[k]))
  }

  /** The rule of each item accepts a request iff its condition holds, and has routes. */
  lemma RuleMeans(r: Request, templates: map<string, Match>, item: RuleItem, c: Condition)
    requires Readable(c.header, c.op, c.value) && item.policyCondition == c.header + Symbol(c.op) + c.value
    ensures RuleOf(item).precedence == 1 && RuleOf(item).routes != []
    ensures Accepts(RuleOf(item).matching, templates, r) <==> ConditionHolds(r, c)
    ensures Rejects(RuleOf(item).matching, templates, r) <==> !ConditionHolds(r, c)
  {
    RoutesNonEmpty(item);
    hide Holds, RuleOf, MatchOf, Matches, Decidable, Readable, Symbol;
    TranslationMeans(r, templates, c.header, c.op, c.value);
  }

  /** Routing on a translated RULE policy never panics, and its first match is the first condition that holds. */
  lemma PolicyMatches(r: Request, templates: map<string, Match>, items: seq<RuleItem>, conds: seq<Condition>,
                      rules: seq<RouteRule>)
    requires Says(items, conds) && Translated(rules, items)
    ensures NonIncreasing(rules, 0, |rules|) && Answerable(rules, templates, r)
    ensures forall k: nat :: FirstMatch(k, rules, templates, r) <==> FirstHolding(k, conds, r)
  {
    hide RuleOf, Readable, Symbol, ConditionHolds, Matches, Decidable;
    forall i | 0 <= i < |rules|
      ensures rules[i].precedence == 1 && rules[i].routes != []
      ensures Accepts(rules[i].matching, templates, r) <==> ConditionHolds(r, conds[i])
      ensures Rejects(rules[i].matching, templates, r) <==> !ConditionHolds(r, conds[i])
    {
      RuleMeans(r, templates, items[i], conds[i]);
    }
    forall k: nat | k <= |rules|
      ensures AllReject(rules[..k], templates, r) <==> forall j :: 0 <= j < k ==> !ConditionHolds(r, conds[j])
    {
      assert forall j :: 0 <= j < k ==> rules[..k][j] == rules[j];
    }
  }

  /**
    Route on a translated RULE policy: it always answers, leaves the slice in policy order, and applies the rule of
    item k iff the condition of item k is the first that holds, or no rule, with k their number, iff none holds.
   */
  lemma PolicyOrder(r: Request, templates: map<string, Match>, items: seq<RuleItem>, conds: seq<Condition>,
                    rules: seq<RouteRule>, now: seq<RouteRule>, k: nat)
    requires Says(items, conds) && Translated(rules, items)
    ensures AnswerableSorted(rules, templates, r)
    ensures Decided(rules, now, templates, r, k) <==> now == rules && FirstHolding(k, conds, r)
  {
    hide RuleOf, Readable, Symbol, ConditionHolds, Answerable, BestMatch, NoMatch, AllReject, Accepts, NonIncreasing,
         FirstHolding, Rearranged;
    PolicyMatches(r, templates, items, conds, rules);
    RearrangedSelf(rules);
    if now == rules && FirstHolding(k, conds, r) {
      FirstOfSortedIsBest(k, now, rules, templates, r);
      if k < |rules| { RoutesNonEmpty(items[k]); }
    }
  }

  lemma RearrangedSelf(rules: seq<RouteRule>)
    ensures Rearranged(rules, rules, 0, |rules|)
  {
  }
}
