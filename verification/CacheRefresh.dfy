/** RefreshCache of core/registry/healthz.go: merging pulled instances into the cached ones of a service. */
module CacheRefresh {
  import opened Base
  import opened Registry
  import opened InstanceIndex

  /** WrapInstance: an instance handed to the health checker. */
  datatype Wrap = Wrap(service: string, version: string, app: string, instance: Instance)

  /** HealthCheck: whether the checker took an instance is its own affair when it is enabled (Add may time out). */
  class HealthGate {
    const enabled: bool
    var added: seq<Wrap>

    constructor (enabled: bool)
      ensures this.enabled == enabled && added == []
    {
      this.enabled := enabled;
      added := [];
    }

    method HealthCheck(w: Wrap) returns (ok: bool)
      modifies this`added
      ensures !enabled ==> !ok
      ensures added == old(added) + if ok then [w] else []
    {
      if !enabled {
        return false;
      }
      ok := *;
      if ok {
        added := added + [w];
      }
    }
  }

  // ---------- specification ----------

  ghost predicate DistinctIds(items: seq<Instance>) {
    forall i, j :: 0 <= i < j < |items| ==> items[i].id != items[j].id
  }

  /** The map a loop over the slice builds: a later record with the same ID wins. */
  function ById(items: seq<Instance>): (m: map<string, Instance>)
    ensures forall id :: id in m ==> m[id].id == id && m[id] in items
  {
    if items == [] then map[]
    else
      var last := items[|items| - 1];
      ById(items[..|items| - 1])[last.id := last]
  }

  lemma {:induction false} ByIdKeys(items: seq<Instance>)
    ensures ById(items).Keys == Ids(items)
  {
    if items != [] {
      var front := items[..|items| - 1];
      ByIdKeys(front);
      assert Ids(items) == Ids(front) + {items[|items| - 1].id} by {
        assert forall k :: 0 <= k < |front| ==> front[k] == items[k];
        assert items == front + [items[|items| - 1]];
      }
    }
  }

  /** The pulled instances the cache does not know, in their order. */
  function Newcomers(ups: seq<Instance>, known: map<string, Instance>): (r: seq<Instance>)
    ensures forall k :: 0 <= k < |r| ==> r[k] in ups && r[k].id !in known
  {
    if ups == [] then []
    else
      var last := ups[|ups| - 1];
      Newcomers(ups[..|ups| - 1], known) + if last.id in known then [] else [last]
  }

  /** The IDs the health checker took. */
  ghost function TakenIds(added: seq<Wrap>): (ids: set<string>) {
    set k | 0 <= k < |added| :: added[k].instance.id
  }

  /** Of the cached IDs in done, those that stay: still up, or neither up nor down and taken for a health check. */
  ghost predicate Kept(kept: seq<Instance>, exps: map<string, Instance>, done: set<string>, ups: set<string>,
                       downs: set<string>, taken: set<string>)
  {
    && DistinctIds(kept)
    && (forall k :: 0 <= k < |kept| ==> kept[k].id in exps && kept[k] == exps[kept[k].id])
    && (forall id :: id in Ids(kept) <==> id in done && (id in ups || (id !in downs && id in taken)))
  }

  /** Only instances whose fate is open are offered to the health checker, each at most once. */
  ghost predicate Offered(added: seq<Wrap>, service: string, exps: map<string, Instance>, done: set<string>,
                          ups: set<string>, downs: set<string>)
  {
    && (forall k :: 0 <= k < |added| ==> OpenOffer(added[k], service, exps, done, ups, downs))
    && (forall j, k :: 0 <= j < k < |added| ==> added[j].instance.id != added[k].instance.id)
  }

  ghost predicate OpenOffer(w: Wrap, service: string, exps: map<string, Instance>, done: set<string>, ups: set<string>,
                            downs: set<string>)
  {
    var id := w.instance.id;
    id in done && id !in ups && id !in downs && id in exps && w == WrapOf(service, exps[id])
  }

  function WrapOf(service: string, i: Instance): (w: Wrap) {
    Wrap(service, VersionOf(i), At(i.metadata, "app"), i)
  }

  /** An instance is offered under its service and with the version and application of its own metadata. */
  lemma OfferedAs(w: Wrap, service: string, exps: map<string, Instance>, done: set<string>, ups: set<string>,
                  downs: set<string>)
    requires OpenOffer(w, service, exps, done, ups, downs)
    ensures var i := w.instance;
            && w.service == service && i.id in exps && i == exps[i.id]
            && w.version == (if "version" in i.metadata then i.metadata["version"] else "")
            && w.app == (if "app" in i.metadata then i.metadata["app"] else "")
  {
  }

  // ---------- the loops ----------

  method CollectById(items: seq<Instance>) returns (m: map<string, Instance>)
    ensures m == ById(items)
  {
    m := map[];
    for i := 0 to |items|
      invariant m == ById(items[..i])
    {
      assert items[..i + 1][..i] == items[..i];
      m := m[items[i].id := items[i]];
    }
    assert items[..|items|] == items;
  }

  lemma IdsSnoc(items: seq<Instance>, x: Instance)
    ensures Ids(items + [x]) == Ids(items) + {x.id}
  {
    var t := items + [x];
    assert forall k :: 0 <= k < |items| ==> t[k] == items[k];
    assert t[|items|] == x;
  }

  lemma TakenSnoc(added: seq<Wrap>, w: Wrap)
    ensures TakenIds(added + [w]) == TakenIds(added) + {w.instance.id}
  {
    var t := added + [w];
    assert forall k :: 0 <= k < |added| ==> t[k] == added[k];
    assert t[|added|] == w;
  }

  /** Deciding one more cached instance. */
  lemma KeptNext(kept: seq<Instance>, exps: map<string, Instance>, done: set<string>, exp: Instance, ups: set<string>,
                 downs: set<string>, taken: set<string>, taken': set<string>, keep: bool)
    requires Kept(kept, exps, done, ups, downs, taken)
    requires exp.id !in done && exp.id in exps && exps[exp.id] == exp
    requires taken <= taken' <= taken + {exp.id}
    requires keep <==> exp.id in ups || (exp.id !in downs && exp.id in taken')
    ensures Kept(if keep then kept + [exp] else kept, exps, done + {exp.id}, ups, downs, taken')
  {
    IdsSnoc(kept, exp);
    forall k | 0 <= k < |kept|
      ensures kept[k].id != exp.id
    {
      assert kept[k].id in Ids(kept);
    }
  }

  lemma OfferedNext(added: seq<Wrap>, service: string, exps: map<string, Instance>, done: set<string>, exp: Instance,
                    ups: set<string>, downs: set<string>, more: bool)
    requires Offered(added, service, exps, done, ups, downs)
    requires exp.id !in done && exp.id in exps && exps[exp.id] == exp
    requires more ==> exp.id !in ups && exp.id !in downs
    ensures Offered(if more then added + [WrapOf(service, exp)] else added, service, exps, done + {exp.id}, ups, downs)
    ensures exp.id !in TakenIds(added)
  {
  }

  lemma Decided(service: string, kept: seq<Instance>, exps: map<string, Instance>, done: set<string>, exp: Instance,
                ups: set<string>, downs: set<string>, was: seq<Wrap>, offer: seq<Wrap>, keep: bool)
    requires Kept(kept, exps, done, ups, downs, TakenIds(was)) && Offered(was, service, exps, done, ups, downs)
    requires exp.id !in done && exp.id in exps && exps[exp.id] == exp
    requires offer == [] || (offer == [WrapOf(service, exp)] && exp.id !in ups && exp.id !in downs)
    requires keep <==> exp.id in ups || (exp.id !in downs && offer != [])
    ensures Kept(if keep then kept + [exp] else kept, exps, done + {exp.id}, ups, downs, TakenIds(was + offer))
    ensures Offered(was + offer, service, exps, done + {exp.id}, ups, downs)
  {
    hide Kept, Offered, TakenIds;
    OfferedNext(was, service, exps, done, exp, ups, downs, offer != []);
    TakenSnoc(was, WrapOf(service, exp));
    assert offer == [] ==> was + offer == was;
    KeptNext(kept, exps, done, exp, ups, downs, TakenIds(was), TakenIds(was + offer), keep);
  }

  /** done and rest are the two parts of all. */
  ghost predicate Parts(done: set<string>, rest: set<string>, all: set<string>) {
    done + rest == all && done !! rest
  }

  lemma NextPart(done: set<string>, rest: set<string>, all: set<string>, id: string)
    requires Parts(done, rest, all) && id in rest
    ensures id in all && id !in done && Parts(done + {id}, rest - {id}, all)
  {
  }

  lemma AllDone(done: set<string>, all: set<string>)
    requires Parts(done, {}, all)
    ensures done == all
  {
  }

  lemma NothingDecided(service: string, exps: map<string, Instance>, ups: set<string>, downs: set<string>)
    ensures Kept([], exps, {}, ups, downs, TakenIds([])) && Offered([], service, exps, {}, ups, downs)
    ensures Parts({}, exps.Keys, exps.Keys)
  {
  }

  lemma Associative(a: seq<Wrap>, b: seq<Wrap>, c: seq<Wrap>)
    ensures (a + b) + c == a + (b + c)
  {
  }

  /** The body of that loop: whether the instance stays. */
  method KeepOne(service: string, exp: Instance, ups: map<string, Instance>, downs: set<string>, gate: HealthGate)
    returns (ok: bool, ghost offer: seq<Wrap>)
    modifies gate`added
    ensures gate.added == old(gate.added) + offer && (!gate.enabled ==> offer == [])
    ensures offer == [] || (offer == [WrapOf(service, exp)] && exp.id !in ups && exp.id !in downs)
    ensures ok <==> exp.id in ups || (exp.id !in downs && offer != [])
  {
    offer := [];
    if exp.id in ups {
      return true, [];
    }
    if exp.id in downs {
      return false, [];
    }
    ok := gate.HealthCheck(WrapOf(service, exp));
    offer := if ok then [WrapOf(service, exp)] else [];
  }

  /** The loop over mapExps, in whatever order the map yields its entries. */
  method KeepOld(service: string, exps: map<string, Instance>, ups: map<string, Instance>, downs: set<string>,
                 gate: HealthGate)
    returns (lefts: seq<Instance>, ghost taken: seq<Wrap>)
    requires forall id :: id in exps ==> exps[id].id == id
    modifies gate`added
    ensures gate.added == old(gate.added) + taken && (!gate.enabled ==> taken == [])
    ensures Kept(lefts, exps, exps.Keys, ups.Keys, downs, TakenIds(taken))
    ensures Offered(taken, service, exps, exps.Keys, ups.Keys, downs)
  {
    lefts, taken := [], [];
    var rest := exps.Keys;
    ghost var done: set<string> := {};
    hide Kept, Offered, TakenIds, Parts;
    NothingDecided(service, exps, ups.Keys, downs);
    while rest != {}
      invariant Parts(done, rest, exps.Keys)
      invariant gate.added == old(gate.added) + taken && (!gate.enabled ==> taken == [])
      invariant Kept(lefts, exps, done, ups.Keys, downs, TakenIds(taken))
      invariant Offered(taken, service, exps, done, ups.Keys, downs)
      decreases |rest|
    {
      var id :| id in rest;
      NextPart(done, rest, exps.Keys, id);
      var exp := exps[id];
      ghost var was := taken;
      var ok; ghost var offer;
      ok, offer := KeepOne(service, exp, ups, downs, gate);
      taken := was + offer;
      Associative(old(gate.added), was, offer);
      Decided(service, lefts, exps, done, exp, ups.Keys, downs, was, offer, ok);
      if ok {
        lefts := lefts + [exp];
      }
      rest, done := rest - {id}, done + {id};
    }
    AllDone(done, exps.Keys);
  }

  method AddNew(ups: seq<Instance>, exps: map<string, Instance>) returns (saves: seq<Instance>)
    ensures saves == Newcomers(ups, exps)
  {
    saves := [];
    for i := 0 to |ups|
      invariant saves == Newcomers(ups[..i], exps)
    {
      assert ups[..i + 1][..i] == ups[..i];
      if ups[i].id !in exps {
        saves := saves + [ups[i]];
      }
    }
    assert ups[..|ups|] == ups;
  }

  /** What RefreshCache leaves cached for a service that had a non-nil entry. */
  ghost predicate Merged(now: seq<Instance>, was: seq<Instance>, ups: seq<Instance>, downs: set<string>, taken: set<string>)
  {
    exists kept :: Kept(kept, ById(was), ById(was).Keys, ById(ups).Keys, downs, taken) &&
                   now == kept + Newcomers(ups, ById(was))
  }

  /** A service that is not cached, or cached as nil, takes the pulled instances as they are. */
  method RefreshCache(service: string, ups: Slice, downs: set<string>, cache: IndexCache, gate: HealthGate)
    returns (ghost now: seq<Instance>, ghost taken: seq<Wrap>)
    modifies cache, gate`added
    ensures gate.added == old(gate.added) + taken && (!gate.enabled ==> taken == [])
    ensures var was := Lookup(old(cache.View()), service, map[]).0;
            if was.Nil? then
              taken == [] && cache.View() == SetStep(cache.rank, old(cache.View()), service, ups)
            else
              && Offered(taken, service, ById(was.list), ById(was.list).Keys, ById(Items(ups)).Keys, downs)
              && Merged(now, was.list, Items(ups), downs, TakenIds(taken))
              && cache.View() == (if now == [] then DeleteStep(old(cache.View()), service)
                                  else SetStep(cache.rank, old(cache.View()), service, Of(now)))
  {
    hide Kept, Offered, TakenIds, SetStep;
    now, taken := [], [];
    var c, ok := cache.GetAll(service);
    if !ok || c.Nil? {
      cache.Set(service, ups);
      return;
    }
    var mapUps := CollectById(Items(ups));
    var mapExps := CollectById(c.list);
    var lefts;
    lefts, taken := KeepOld(service, mapExps, mapUps, downs, gate);
    var saves := AddNew(Items(ups), mapExps);
    lefts := lefts + saves;
    now := lefts;
    if |lefts| == 0 {
      cache.Delete(service);
    } else {
      cache.Set(service, Of(lefts));
    }
  }

  // ---------- what the merge means ----------

  lemma {:induction false} NewcomerIds(ups: seq<Instance>, known: map<string, Instance>, id: string)
    ensures id in Ids(Newcomers(ups, known)) <==> id in Ids(ups) && id !in known
  {
    if ups != [] {
      var front, last := ups[..|ups| - 1], ups[|ups| - 1];
      NewcomerIds(front, known, id);
      IdsSnoc(front, last);
      assert ups == front + [last];
      IdsSnoc(Newcomers(front, known), last);
      assert Newcomers(front, known) + [] == Newcomers(front, known);
    }
  }

  /** Only IDs that the cache knows already occur more than once. */
  ghost predicate DistinctOutside(ups: seq<Instance>, known: map<string, Instance>) {
    forall a, b :: 0 <= a < b < |ups| && ups[a].id == ups[b].id ==> ups[a].id in known
  }

  lemma {:induction false} NewcomersDistinctIff(ups: seq<Instance>, known: map<string, Instance>)
    ensures DistinctIds(Newcomers(ups, known)) <==> DistinctOutside(ups, known)
  {
    if ups != [] {
      var front, last := ups[..|ups| - 1], ups[|ups| - 1];
      hide DistinctIds, DistinctOutside, Ids;
      NewcomersDistinctIff(front, known);
      assert Newcomers(front, known) + [] == Newcomers(front, known);
      NewcomerIds(front, known, last.id);
      DistinctSnoc(Newcomers(front, known), last);
      OutsideSnoc(front, last, known);
      assert ups == front + [last];
    }
  }

  lemma DistinctSnoc(s: seq<Instance>, x: Instance)
    ensures DistinctIds(s + [x]) <==> DistinctIds(s) && x.id !in Ids(s)
  {
    var u := s + [x];
    assert u[|s|] == x && forall k :: 0 <= k < |s| ==> u[k] == s[k];
  }

  lemma OutsideSnoc(s: seq<Instance>, x: Instance, known: map<string, Instance>)
    ensures DistinctOutside(s + [x], known) <==> DistinctOutside(s, known) && (x.id in Ids(s) ==> x.id in known)
  {
    var u := s + [x];
    assert u[|s|] == x && forall k :: 0 <= k < |s| ==> u[k] == s[k];
  }

  lemma IdsConcat(s: seq<Instance>, t: seq<Instance>)
    ensures Ids(s + t) == Ids(s) + Ids(t)
  {
    var u := s + t;
    assert forall k :: 0 <= k < |s| ==> u[k] == s[k];
    assert forall k :: 0 <= k < |t| ==> u[|s| + k] == t[k];
    forall id | id in Ids(u)
      ensures id in Ids(s) + Ids(t)
    {
      var k :| 0 <= k < |u| && u[k].id == id;
      if k >= |s| { assert t[k - |s|].id == id; }
    }
  }

  /**
    The merge refines its set specification: an ID is cached afterwards iff it was pulled, or it was cached, is not
    reported down and was taken by the health checker; no ID is cached twice, even if the old list had duplicates,
    unless one the cache does not know was pulled twice; and an ID that was cached keeps the (last) record it had.
   */
  lemma MergeRefinesSets(now: seq<Instance>, was: seq<Instance>, ups: seq<Instance>, downs: set<string>, taken: set<string>)
    requires Merged(now, was, ups, downs, taken)
    ensures forall id :: id in Ids(now) <==> id in Ids(ups) || (id in Ids(was) && id !in downs && id in taken)
    ensures DistinctIds(now) <==> DistinctOutside(ups, ById(was))
    ensures forall k :: 0 <= k < |now| && now[k].id in ById(was) ==> now[k] == ById(was)[now[k].id]
    ensures forall k :: 0 <= k < |now| && now[k].id !in ById(was) ==> now[k] in ups
  {
    var kept :| Kept(kept, ById(was), ById(was).Keys, ById(ups).Keys, downs, taken) &&
                now == kept + Newcomers(ups, ById(was));
    hide DistinctIds, DistinctOutside, Newcomers, ById, Ids;
    MergedIds(kept, was, ups, downs, taken);
    MergedDistinctIff(kept, ups, ById(was));
  }

  lemma MergedIds(kept: seq<Instance>, was: seq<Instance>, ups: seq<Instance>, downs: set<string>, taken: set<string>)
    requires Kept(kept, ById(was), ById(was).Keys, ById(ups).Keys, downs, taken)
    ensures forall id :: id in Ids(kept + Newcomers(ups, ById(was))) <==>
                         id in Ids(ups) || (id in Ids(was) && id !in downs && id in taken)
  {
    ByIdKeys(was);
    ByIdKeys(ups);
    hide DistinctIds, Newcomers, ById, Ids;
    IdsConcat(kept, Newcomers(ups, ById(was)));
    forall id ensures id in Ids(Newcomers(ups, ById(was))) <==> id in Ids(ups) && id !in ById(was) {
      NewcomerIds(ups, ById(was), id);
    }
  }

  lemma MergedDistinctIff(kept: seq<Instance>, ups: seq<Instance>, known: map<string, Instance>)
    requires DistinctIds(kept) && forall k :: 0 <= k < |kept| ==> kept[k].id in known
    ensures DistinctIds(kept + Newcomers(ups, known)) <==> DistinctOutside(ups, known)
  {
    hide DistinctIds, DistinctOutside;
    NewcomersDistinctIff(ups, known);
    JoinedDistinct(kept, Newcomers(ups, known), known);
  }

  lemma JoinedDistinct(s: seq<Instance>, t: seq<Instance>, known: map<string, Instance>)
    requires DistinctIds(s)
    requires (forall k :: 0 <= k < |s| ==> s[k].id in known) && (forall k :: 0 <= k < |t| ==> t[k].id !in known)
    ensures DistinctIds(s + t) <==> DistinctIds(t)
  {
    var u := s + t;
    assert forall k :: 0 <= k < |s| ==> u[k] == s[k];
    assert forall k :: 0 <= k < |t| ==> t[k] == u[|s| + k];
  }
}
