/** Match, SourceMatch and isMatch of core/router/router.go. Regular expressions are a parameter. */
module RouteMatch {
  import opened Base
  import opened GoStrings
  import opened RouteModel

  datatype SourceInfo = SourceInfo(name: string, tags: map<string, string>)

  /** One request: its headers, the caller (nil is None), and how a POSIX expression matches a header value. */
  datatype Request = Request(headers: map<string, string>, source: Option<SourceInfo>, regex: (string, string) -> bool)

  /** The conditions on one header are looked up in this order and the first one present decides. */
  predicate IsMatch(r: Request, k: string, v: map<string, string>) {
    var header := At(r.headers, k);
    if "regex" in v then r.regex(v["regex"], header)
    else if "exact" in v then v["exact"] == header
    else if "noEqu" in v then v["noEqu"] != header
    else if !Atoi(header).ok then false
    else
      var h := Atoi(header).value;
      if "noLess" in v then h >= Atoi(v["noLess"]).value
      else if "noGreater" in v then h <= Atoi(v["noGreater"]).value
      else if "greater" in v then h > Atoi(v["greater"]).value
      else if "less" in v then h < Atoi(v["less"]).value
      else true
  }

  predicate AllMatch(r: Request, c: HeaderConditions) {
    c.Conditions? ==> forall k :: k in c.byName ==> IsMatch(r, k, c.byName[k])
  }

  /** The source is looked at only when the match names one. */
  predicate NeedsSource(m: Match) {
    m.source != "" || m.sourceTags != map[]
  }

  predicate SourceMatch(m: Match, r: Request)
    requires NeedsSource(m) ==> r.source.Some?
  {
    && (m.source != "" ==> m.source == r.source.value.name)
    && (forall k :: k in m.sourceTags ==> m.sourceTags[k] == At(r.source.value.tags, k))
    && AllMatch(r, m.headers)
    && AllMatch(r, m.httpHeaders)
  }

  /** Such a match accepts every request; sourceTags alone do not count as set. */
  predicate NotSet(m: Match) {
    m.source == "" && m.httpHeaders.Unset? && m.headers.Unset?
  }

  /** The template a match refers to exists, and a source is given where one is compared; the source panics otherwise. */
  predicate Decidable(m: Match, templates: map<string, Match>, r: Request) {
    if m.refer != "" then m.refer in templates && (NeedsSource(templates[m.refer]) ==> r.source.Some?)
    else NotSet(m) || (NeedsSource(m) ==> r.source.Some?)
  }

  predicate Matches(m: Match, templates: map<string, Match>, r: Request)
    requires Decidable(m, templates, r)
  {
    if m.refer != "" then SourceMatch(templates[m.refer], r)
    else if NotSet(m) then true
    else SourceMatch(m, r)
  }
}
