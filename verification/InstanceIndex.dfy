/** IndexCache of core/registry/cache_index.go, and its answers over whole runs of Set, Delete and Get. */
module InstanceIndex {
  import opened Base
  import opened Registry

  const VERSION := "version"
  const LATEST := "latest"

  // ---------- one operation on values ----------

  /** Set and Delete touch simple; latest is only ever written by Set. */
  datatype Cache = Cache(simple: map<string, Slice>, latest: map<string, string>)

  const EMPTY := Cache(map[], map[])

  ghost function SetStep(rank: Ranking, c: Cache, k: string, s: Slice): (r: Cache) {
    var v := Best(rank, Items(s)).version;
    Cache(c.simple[k := s], if v.Some? then c.latest[k := v.value] else c.latest)
  }

  function DeleteStep(c: Cache, k: string): (r: Cache) {
    Cache(c.simple - {k}, c.latest)
  }

  predicate AsksLatest(tags: map<string, string>) {
    VERSION in tags && tags[VERSION] == LATEST
  }

  /** The tags Get queries with: "latest" is replaced by the recorded latest version, if there is one. */
  function Resolve(c: Cache, k: string, tags: map<string, string>): (r: map<string, string>) {
    if AsksLatest(tags) && At(c.latest, k) != "" then tags[VERSION := At(c.latest, k)] else tags
  }

  /** What Get answers for the instances of a service and the tags it queries with. */
  function Answer(s: Slice, tags: map<string, string>): (r: (Slice, bool)) {
    if tags == map[] then (s, true)
    else
      var q := Filter(Items(s), tags);
      if q == [] then (Nil, false) else (Of(q), true)
  }

  function Lookup(c: Cache, k: string, tags: map<string, string>): (r: (Slice, bool)) {
    if k !in c.simple then (Nil, false) else Answer(c.simple[k], Resolve(c, k, tags))
  }

  // ---------- the cache object ----------

  /** The caller's map of tags, which Get may rewrite. */
  class TagMap {
    var kv: map<string, string>

    constructor (kv: map<string, string>)
      ensures this.kv == kv
    {
      this.kv := kv;
    }
  }

  class IndexCache {
    const rank: Ranking
    var latestV: map<string, string>
    var simpleCache: map<string, Slice>

    constructor (rank: Ranking)
      ensures this.rank == rank && View() == EMPTY
    {
      this.rank := rank;
      latestV, simpleCache := map[], map[];
    }

    ghost function View(): (c: Cache)
      reads this
    {
      Cache(simpleCache, latestV)
    }

    method Set(k: string, instances: Slice)
      modifies this
      ensures View() == SetStep(rank, old(View()), k, instances)
    {
      var items := Items(instances);
      var latest := 0.0;
      for i := 0 to |items|
        invariant simpleCache == old(simpleCache)
        invariant latest == Best(rank, items[..i]).rank
        invariant var v := Best(rank, items[..i]).version;
                  latestV == if v.Some? then old(latestV)[k := v.value] else old(latestV)
      {
        assert items[..i + 1][..i] == items[..i];
        var v := rank(VersionOf(items[i]));
        if v.Some? && latest < v.value {
          latestV := latestV[k := VersionOf(items[i])];
          latest := v.value;
        }
      }
      assert items[..|items|] == items;
      simpleCache := simpleCache[k := instances];
    }

    method Delete(k: string)
      modifies this
      ensures View() == DeleteStep(old(View()), k)
    {
      simpleCache := simpleCache - {k};
    }

    /** A nil map of tags is an empty one. The tags are rewritten only when the service is cached. */
    method Get(k: string, tags: TagMap) returns (instances: Slice, ok: bool)
      modifies tags
      ensures (instances, ok) == Lookup(View(), k, old(tags.kv))
      ensures tags.kv == if k in simpleCache then Resolve(View(), k, old(tags.kv)) else old(tags.kv)
    {
      if k !in simpleCache {
        return Nil, false;
      }
      var value := simpleCache[k];
      if tags.kv == map[] {
        return value, true;
      }
      SetTagsBeforeQuery(k, tags);
      var items, queryResult := Items(value), [];
      for i := 0 to |items|
        invariant queryResult == Filter(items[..i], tags.kv)
      {
        assert items[..i + 1][..i] == items[..i];
        if Has(items[i], tags.kv) {
          queryResult := queryResult + [items[i]];
        }
      }
      assert items[..|items|] == items;
      if queryResult == [] {
        return Nil, false;
      }
      return Of(queryResult), true;
    }

    method SetTagsBeforeQuery(k: string, tags: TagMap)
      modifies tags
      ensures tags.kv == Resolve(View(), k, old(tags.kv))
    {
      if VERSION in tags.kv && tags.kv[VERSION] == LATEST && k in latestV && latestV[k] != "" {
        tags.kv := tags.kv[VERSION := latestV[k]];
      }
    }

    /** Get with no tags, as the cache's own users call it. */
    method GetAll(k: string) returns (instances: Slice, ok: bool)
      ensures (instances, ok) == Lookup(View(), k, map[])
    {
      if k in simpleCache {
        return simpleCache[k], true;
      }
      return Nil, false;
    }
  }

  // ---------- runs ----------

  datatype Op = Set(key: string, instances: Slice) | Delete(key: string) | Get(key: string, tags: map<string, string>)

  ghost function Step(rank: Ranking, c: Cache, op: Op): (r: Cache) {
    match op
    case Set(k, s) => SetStep(rank, c, k, s)
    case Delete(k) => DeleteStep(c, k)
    case Get(_, _) => c
  }

  ghost function Run(rank: Ranking, ops: seq<Op>): (c: Cache) {
    if ops == [] then EMPTY else Step(rank, Run(rank, ops[..|ops| - 1]), ops[|ops| - 1])
  }

  /** What the last Set or Delete of k left: nothing if there was none, or it was a Delete. */
  ghost function LastSet(ops: seq<Op>, k: string): (s: Option<Slice>) {
    if ops == [] then None
    else
      var op := ops[|ops| - 1];
      if op.Get? || op.key != k then LastSet(ops[..|ops| - 1], k)
      else if op.Set? then Some(op.instances) else None
  }

  /** The latest version found by the last Set of k that found any; later Sets without one, and Deletes, keep it. */
  ghost function LastVersion(rank: Ranking, ops: seq<Op>, k: string): (v: Option<string>) {
    if ops == [] then None
    else
      var op := ops[|ops| - 1];
      if op.Set? && op.key == k && Best(rank, Items(op.instances)).version.Some?
      then Best(rank, Items(op.instances)).version
      else LastVersion(rank, ops[..|ops| - 1], k)
  }

  lemma {:induction false} RunState(rank: Ranking, ops: seq<Op>, k: string)
    ensures var c := Run(rank, ops);
            && (k in c.simple <==> LastSet(ops, k).Some?)
            && (k in c.simple ==> LastSet(ops, k) == Some(c.simple[k]))
            && (k in c.latest <==> LastVersion(rank, ops, k).Some?)
            && (k in c.latest ==> LastVersion(rank, ops, k) == Some(c.latest[k]))
  {
    hide Best;
    if ops != [] { RunState(rank, ops[..|ops| - 1], k); }
  }

  /** Over every run, a query that does not ask for the latest version is the plain filter of the last Set. */
  lemma GetIsFilter(rank: Ranking, ops: seq<Op>, k: string, tags: map<string, string>)
    requires !AsksLatest(tags)
    ensures Lookup(Run(rank, ops), k, tags) ==
            if LastSet(ops, k).Some? then Answer(LastSet(ops, k).value, tags) else (Nil, false)
  {
    RunState(rank, ops, k);
  }

  /** The instance has every queried tag, with the queried value. */
  ghost predicate Carries(i: Instance, tags: map<string, string>) {
    forall t :: t in tags ==> t in i.metadata && i.metadata[t] == tags[t]
  }

  /** found are the instances of items at increasing places at, which are all those that carry the tags. */
  ghost predicate SelectedAt(found: seq<Instance>, at: seq<nat>, items: seq<Instance>, tags: map<string, string>) {
    && |at| == |found|
    && (forall j :: 0 <= j < |at| ==> at[j] < |items| && found[j] == items[at[j]] && Carries(found[j], tags))
    && (forall i, j :: 0 <= i < j < |at| ==> at[i] < at[j])
    && (forall m :: 0 <= m < |items| && Carries(items[m], tags) ==> m in at)
  }

  lemma HasCarries(i: Instance, tags: map<string, string>)
    ensures Has(i, tags) <==> Carries(i, tags)
  {
  }

  lemma {:induction false} FilterSelects(items: seq<Instance>, tags: map<string, string>) returns (at: seq<nat>)
    ensures SelectedAt(Filter(items, tags), at, items, tags)
  {
    at := [];
    if items != [] {
      hide SelectedAt, Has, Carries;
      var n := |items| - 1;
      var found := Filter(items[..n], tags);
      at := FilterSelects(items[..n], tags);
      HasCarries(items[n], tags);
      if Has(items[n], tags) {
        SelectedMore(found, at, items, tags);
        at := at + [n];
      } else {
        SelectedSame(found, at, items, tags);
        assert found + [] == found;
      }
    }
  }

  lemma SelectedMore(found: seq<Instance>, at: seq<nat>, items: seq<Instance>, tags: map<string, string>)
    requires items != [] && SelectedAt(found, at, items[..|items| - 1], tags) && Carries(items[|items| - 1], tags)
    ensures SelectedAt(found + [items[|items| - 1]], at + [|items| - 1], items, tags)
  {
    hide Carries;
    var n := |items| - 1;
    assert forall m :: 0 <= m < n ==> items[..n][m] == items[m];
    assert n in at + [n];
  }

  lemma SelectedSame(found: seq<Instance>, at: seq<nat>, items: seq<Instance>, tags: map<string, string>)
    requires items != [] && SelectedAt(found, at, items[..|items| - 1], tags) && !Carries(items[|items| - 1], tags)
    ensures SelectedAt(found, at, items, tags)
  {
    hide Carries;
    var n := |items| - 1;
    assert forall m :: 0 <= m < n ==> items[..n][m] == items[m];
  }

  /**
    What a query with these tags answers for the instances s: all of them for no tags; otherwise exactly those that
    carry all the tags, in order, and it fails iff there are none.
   */
  ghost predicate AnswersQuery(answer: (Slice, bool), s: Slice, tags: map<string, string>) {
    if tags == map[] then answer == (s, true)
    else
      && (exists at :: SelectedAt(Items(answer.0), at, Items(s), tags))
      && (answer.1 <==> exists m :: 0 <= m < |Items(s)| && Carries(Items(s)[m], tags))
      && (!answer.1 ==> answer.0 == Nil)
  }

  lemma AnswerSelects(s: Slice, tags: map<string, string>)
    ensures AnswersQuery(Answer(s, tags), s, tags)
  {
    hide Carries, Filter, Has;
    var at := FilterSelects(Items(s), tags);
    if tags != map[] {
      assert SelectedAt(Items(Answer(s, tags).0), at, Items(s), tags);
      if at != [] { assert at[0] < |Items(s)| && Carries(Items(s)[at[0]], tags); }
    }
  }

  /** Over every run, a query that does not ask for the latest version selects from the last Set by its tags. */
  lemma GetSelects(rank: Ranking, ops: seq<Op>, k: string, tags: map<string, string>)
    requires "version" in tags ==> tags["version"] != "latest"
    ensures match LastSet(ops, k)
            case Some(s) => AnswersQuery(Lookup(Run(rank, ops), k, tags), s, tags)
            case None => Lookup(Run(rank, ops), k, tags) == (Nil, false)
  {
    hide AnswersQuery, Answer, Run, Lookup;
    GetIsFilter(rank, ops, k, tags);
    if LastSet(ops, k).Some? { AnswerSelects(LastSet(ops, k).value, tags); }
  }

  /** The cached instances of a last Set that found a version decide what is latest. */
  lemma {:induction false} LastSetDecides(rank: Ranking, ops: seq<Op>, k: string)
    requires LastSet(ops, k).Some? && Ranked(rank, Items(LastSet(ops, k).value))
    ensures LastVersion(rank, ops, k) == Best(rank, Items(LastSet(ops, k).value)).version
    ensures LastVersion(rank, ops, k).Some?
  {
    hide Best;
    BestIsFirstMaximum(rank, Items(LastSet(ops, k).value));
    var op := ops[|ops| - 1];
    if op.Get? || op.key != k { LastSetDecides(rank, ops[..|ops| - 1], k); }
  }

  /**
    After a last Set with some version above 0.0.0, asking for the latest version answers exactly the cached instances
    that have the other tags and the version of the first instance of maximal version.
   */
  lemma LatestIsFirstMaximum(rank: Ranking, ops: seq<Op>, k: string, tags: map<string, string>)
    requires rank("") == None && AsksLatest(tags)
    requires LastSet(ops, k).Some? && Ranked(rank, Items(LastSet(ops, k).value))
    ensures var s := LastSet(ops, k).value;
            exists m: nat :: FirstMaximum(rank, Items(s), m) &&
              Lookup(Run(rank, ops), k, tags) == Answer(s, tags[VERSION := VersionOf(Items(s)[m])])
  {
    hide Best;
    RunState(rank, ops, k);
    LastSetDecides(rank, ops, k);
    var items := Items(LastSet(ops, k).value);
    BestIsFirstMaximum(rank, items);
    var m: nat :| FirstMaximum(rank, items, m) && Best(rank, items) == LatestAt(rank, items, m);
    assert VersionOf(items[m]) != "";
  }

  /** So it selects from the last Set by the other tags and by that version. */
  lemma LatestSelects(rank: Ranking, ops: seq<Op>, k: string, tags: map<string, string>) returns (m: nat)
    requires rank("") == None && "version" in tags && tags["version"] == "latest"
    requires LastSet(ops, k).Some? && Ranked(rank, Items(LastSet(ops, k).value))
    ensures var s := LastSet(ops, k).value;
            FirstMaximum(rank, Items(s), m) &&
            AnswersQuery(Lookup(Run(rank, ops), k, tags), s, tags["version" := VersionOf(Items(s)[m])])
  {
    hide AnswersQuery, Answer, Run, Lookup, Ranked, LastSet, AllWithin;
    LatestIsFirstMaximum(rank, ops, k, tags);
    var s := LastSet(ops, k).value;
    m :| FirstMaximum(rank, Items(s), m) &&
         Lookup(Run(rank, ops), k, tags) == Answer(s, tags[VERSION := VersionOf(Items(s)[m])]);
    AnswerSelects(s, tags[VERSION := VersionOf(Items(s)[m])]);
  }

  /** Querying with a given version asks for the other tags and for that version. */
  lemma HasVersion(i: Instance, tags: map<string, string>, v: string)
    requires v != ""
    ensures Has(i, tags[VERSION := v]) <==> Has(i, tags - {VERSION}) && VersionOf(i) == v
  {
  }

  /** A recorded version ranks above 0.0.0. */
  lemma {:induction false} RecordedRanks(rank: Ranking, ops: seq<Op>, k: string)
    requires LastVersion(rank, ops, k).Some?
    ensures var v := LastVersion(rank, ops, k).value; rank(v).Some? && rank(v).value > 0.0
  {
    hide Best;
    var op := ops[|ops| - 1];
    if op.Set? && op.key == k && Best(rank, Items(op.instances)).version.Some? {
      BestIsFirstMaximum(rank, Items(op.instances));
    } else {
      RecordedRanks(rank, ops[..|ops| - 1], k);
    }
  }

  /** No instance of a list without a version above 0.0.0 has a version that is. */
  lemma {:induction false} NoneRanked(rank: Ranking, items: seq<Instance>, tags: map<string, string>)
    requires !Ranked(rank, items) && VERSION in tags && rank(tags[VERSION]).Some? && rank(tags[VERSION]).value > 0.0
    ensures Filter(items, tags) == []
  {
    if items != [] {
      var front, m := items[..|items| - 1], |items| - 1;
      assert forall j: nat :: j < |front| ==> RankAt(rank, front, j) == RankAt(rank, items, j);
      assert RankAt(rank, items, m) == rank(VersionOf(items[m]));
      NoneRanked(rank, front, tags);
    }
  }

  /**
    What a query for the latest version answers when the last Set has no version above 0.0.0: nothing once an earlier
    Set had one, whose version is still recorded; otherwise the instances literally tagged "latest".
   */
  lemma LatestUnranked(rank: Ranking, ops: seq<Op>, k: string, tags: map<string, string>)
    requires rank("") == None && AsksLatest(tags)
    requires LastSet(ops, k).Some? && !Ranked(rank, Items(LastSet(ops, k).value))
    ensures Lookup(Run(rank, ops), k, tags) ==
            if LastVersion(rank, ops, k).Some? then (Nil, false) else Answer(LastSet(ops, k).value, tags)
  {
    hide Best, Ranked, Filter;
    RunState(rank, ops, k);
    if LastVersion(rank, ops, k).Some? {
      RecordedRanks(rank, ops, k);
      var v := LastVersion(rank, ops, k).value;
      NoneRanked(rank, Items(LastSet(ops, k).value), tags[VERSION := v]);
    }
  }

  /**
    Earlier Sets do not show: a query for the latest version answers as if the last Set had been the only one, iff that
    Set has a version above 0.0.0, or none is recorded from before, or it has no instance literally tagged "latest".
   */
  lemma LatestIsCurrentIff(rank: Ranking, ops: seq<Op>, k: string, tags: map<string, string>)
    requires rank("") == None && AsksLatest(tags) && LastSet(ops, k).Some?
    ensures var s := LastSet(ops, k).value;
            Lookup(Run(rank, ops), k, tags) == Lookup(Run(rank, [Set(k, s)]), k, tags) <==>
            Ranked(rank, Items(s)) || LastVersion(rank, ops, k).None? || Filter(Items(s), tags) == []
  {
    var s := LastSet(ops, k).value;
    var once := [Set(k, s)];
    OneSet(rank, k, s);
    hide Best, Ranked, Filter, LastVersion, LastSet, Run, Lookup;
    if Ranked(rank, Items(s)) {
      LatestBest(rank, ops, k, tags);
      LatestBest(rank, once, k, tags);
    } else {
      LatestUnranked(rank, ops, k, tags);
      LatestUnranked(rank, once, k, tags);
    }
  }

  lemma OneSet(rank: Ranking, k: string, s: Slice)
    ensures LastSet([Set(k, s)], k) == Some(s)
    ensures !Ranked(rank, Items(s)) ==> LastVersion(rank, [Set(k, s)], k) == None
  {
    hide Best, Ranked;
    BestIsFirstMaximum(rank, Items(s));
    assert [Set(k, s)][..0] == [];
  }

  /** The version a ranked last Set makes latest does not depend on what came before. */
  lemma LatestBest(rank: Ranking, ops: seq<Op>, k: string, tags: map<string, string>)
    requires rank("") == None && AsksLatest(tags)
    requires LastSet(ops, k).Some? && Ranked(rank, Items(LastSet(ops, k).value))
    ensures var s := LastSet(ops, k).value;
            Best(rank, Items(s)).version.Some? &&
            Lookup(Run(rank, ops), k, tags) == Answer(s, tags[VERSION := Best(rank, Items(s)).version.value])
  {
    hide Best, Ranked;
    RunState(rank, ops, k);
    LastSetDecides(rank, ops, k);
    RecordedRanks(rank, ops, k);
  }

  /** An instance tagged "latest" is found by itself, but not after an instance of version 1.0. */
  lemma TaggedLatestHidden(k: string)
    ensures var rank: Ranking := v => if v == "1.0" then Some(1.0) else None;
            var numbered, tagged := Instance("a", map[VERSION := "1.0"], "UP"), Instance("b", map[VERSION := LATEST], "UP");
            var tags := map[VERSION := LATEST];
            && Lookup(Run(rank, [Set(k, Of([tagged]))]), k, tags) == (Of([tagged]), true)
            && Lookup(Run(rank, [Set(k, Of([numbered])), Set(k, Of([tagged]))]), k, tags) == (Nil, false)
  {
    var rank: Ranking := v => if v == "1.0" then Some(1.0) else None;
    var numbered, tagged := Instance("a", map[VERSION := "1.0"], "UP"), Instance("b", map[VERSION := LATEST], "UP");
    var tags := map[VERSION := LATEST];
    var once, twice := [Set(k, Of([tagged]))], [Set(k, Of([numbered])), Set(k, Of([tagged]))];
    assert "1.0"[0] != LATEST[0] && |""| != |"1.0"|;
    assert Filter([tagged], tags) == [tagged] by { assert [tagged][..0] == []; }
    OneRanked(rank, numbered);
    OneRanked(rank, tagged);
    hide Best, Ranked, Filter, Run, Lookup;
    OneSet(rank, k, Of([tagged]));
    assert twice[..1] == [Set(k, Of([numbered]))];
    OneSet(rank, k, Of([numbered]));
    BestIsFirstMaximum(rank, [numbered]);
    BestIsFirstMaximum(rank, [tagged]);
    LatestUnranked(rank, once, k, tags);
    LatestUnranked(rank, twice, k, tags);
  }

  lemma OneRanked(rank: Ranking, i: Instance)
    ensures Ranked(rank, [i]) <==> rank(VersionOf(i)).Some? && rank(VersionOf(i)).value > 0.0
  {
    assert RankAt(rank, [i], 0) == rank(VersionOf(i));
  }
}
