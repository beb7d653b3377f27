/** The watch handlers of core/registry/servicecenter/cache.go. */
module WatchEvents {
  import opened Base
  import opened Registry
  import opened InstanceIndex
  import opened CacheRefresh

  datatype Action = Create | Update | Delete | Error | Unknown

  /** instance is the record after conversion; its status tells whether the registry reports it up. */
  datatype Event = Event(action: Action, service: string, version: string, app: string, instance: Instance)

  const UP := "UP"

  /** An instance that is not up is deleted whatever the event says. */
  function EffectiveAction(e: Event): (a: Action) {
    if e.instance.status != UP then Action.Delete else e.action
  }

  /** WithAppID. */
  function Record(e: Event): (i: Instance)
    ensures i.id == e.instance.id
  {
    e.instance.(metadata := e.instance.metadata["app" := e.app])
  }

  // ---------- one event on the cached list of its service ----------

  function Without(items: seq<Instance>, id: string): (r: seq<Instance>) {
    if items == [] then []
    else
      var last := items[|items| - 1];
      Without(items[..|items| - 1], id) + if last.id != id then [last] else []
  }

  /** The last copy is replaced; a new instance is appended. */
  function Replace(items: seq<Instance>, i: Instance): (r: seq<Instance>) {
    if LastIndex(items, i.id) < |items| then items[LastIndex(items, i.id) := i] else items + [i]
  }

  /** The last index holding the ID, or the length of the list. */
  function LastIndex(items: seq<Instance>, id: string): (k: nat)
    ensures k <= |items|
    ensures k < |items| ==> items[k].id == id
    ensures forall j :: (if k < |items| then k else -1) < j < |items| ==> items[j].id != id
  {
    if items == [] then 0
    else if items[|items| - 1].id == id then |items| - 1
    else
      var k := LastIndex(items[..|items| - 1], id);
      if k == |items| - 1 then |items| else k
  }

  /** taken: the event was a delete that the health checker took over. */
  function Handle(items: seq<Instance>, e: Event, taken: bool): (r: seq<Instance>) {
    match EffectiveAction(e)
    case Create => items + [Record(e)]
    case Update => Replace(items, Record(e))
    case Delete => if taken then items else Without(items, e.instance.id)
    case _ => items
  }

  // ---------- the handlers ----------

  /** Writes happen only for a cached service, and for a create, an update or a delete that was not taken over. */
  ghost predicate Writes(c: Cache, e: Event, taken: bool) {
    e.service in c.simple && match EffectiveAction(e)
                             case Create => true
                             case Update => true
                             case Delete => !taken
                             case _ => false
  }

  ghost function WatchStep(rank: Ranking, c: Cache, e: Event, taken: bool): (r: Cache) {
    if Writes(c, e, taken) then SetStep(rank, c, e.service, Of(Handle(Items(c.simple[e.service]), e, taken))) else c
  }

  method Watch(e: Event, cache: IndexCache, gate: HealthGate) returns (ghost taken: bool)
    modifies cache, gate`added
    ensures cache.View() == WatchStep(cache.rank, old(cache.View()), e, taken)
    ensures taken ==> gate.enabled && EffectiveAction(e).Delete?
    ensures gate.added == old(gate.added) + if taken then [Wrap(e.service, e.version, e.app, e.instance)] else []
  {
    taken := false;
    var action := EffectiveAction(e);
    if action.Create? {
      CreateAction(e, cache);
    } else if action.Delete? {
      taken := DeleteAction(e, cache, gate);
    } else if action.Update? {
      UpdateAction(e, cache);
    }
  }

  method CreateAction(e: Event, cache: IndexCache)
    requires EffectiveAction(e).Create?
    modifies cache
    ensures cache.View() == WatchStep(cache.rank, old(cache.View()), e, false)
  {
    var c, ok := cache.GetAll(e.service);
    if ok {
      cache.Set(e.service, Of(Items(c) + [Record(e)]));
    }
  }

  method DeleteAction(e: Event, cache: IndexCache, gate: HealthGate) returns (taken: bool)
    requires EffectiveAction(e).Delete?
    modifies cache, gate`added
    ensures cache.View() == WatchStep(cache.rank, old(cache.View()), e, taken)
    ensures taken ==> gate.enabled
    ensures gate.added == old(gate.added) + if taken then [Wrap(e.service, e.version, e.app, e.instance)] else []
  {
    taken := gate.HealthCheck(Wrap(e.service, e.version, e.app, e.instance));
    if taken {
      return;
    }
    var c, ok := cache.GetAll(e.service);
    if !ok {
      return;
    }
    var items, newInstances := Items(c), [];
    for i := 0 to |items|
      invariant newInstances == Without(items[..i], e.instance.id)
      invariant cache.View() == old(cache.View())
    {
      assert items[..i + 1][..i] == items[..i];
      if items[i].id != e.instance.id {
        newInstances := newInstances + [items[i]];
      }
    }
    assert items[..|items|] == items;
    cache.Set(e.service, Of(newInstances));
  }

  method UpdateAction(e: Event, cache: IndexCache)
    requires EffectiveAction(e).Update?
    modifies cache
    ensures cache.View() == WatchStep(cache.rank, old(cache.View()), e, false)
  {
    var c, ok := cache.GetAll(e.service);
    if !ok {
      return;
    }
    var items := Items(c);
    var present, arrayNum := FindLast(items, e.instance.id);
    if present {
      cache.Set(e.service, Of(items[arrayNum := Record(e)]));
    } else {
      cache.Set(e.service, Of(items + [Record(e)]));
    }
  }

  method FindLast(items: seq<Instance>, id: string) returns (found: bool, arrayNum: nat)
    ensures found <==> LastIndex(items, id) < |items|
    ensures found ==> arrayNum == LastIndex(items, id)
  {
    found, arrayNum := false, 0;
    for k := 0 to |items|
      invariant found ==> arrayNum < k && items[arrayNum].id == id
      invariant forall j :: (if found then arrayNum else -1) < j < k ==> items[j].id != id
    {
      if items[k].id == id {
        found, arrayNum := true, k;
      }
    }
  }

  // ---------- the cache over runs ----------

  /** The last record cached for the ID. */
  function LastCopy(items: seq<Instance>, id: string): (r: Option<Instance>) {
    if items == [] then None
    else if items[|items| - 1].id == id then Some(items[|items| - 1])
    else LastCopy(items[..|items| - 1], id)
  }

  lemma {:induction false} CopyMembership(items: seq<Instance>, id: string)
    ensures id in Ids(items) <==> LastCopy(items, id).Some?
  {
    if items != [] {
      var front, last := items[..|items| - 1], items[|items| - 1];
      CopyMembership(front, id);
      IdsSnoc(front, last);
      assert items == front + [last];
    }
  }

  lemma CopySnoc(items: seq<Instance>, i: Instance, id: string)
    ensures LastCopy(items + [i], id) == if i.id == id then Some(i) else LastCopy(items, id)
  {
    assert (items + [i])[..|items|] == items;
  }

  lemma {:induction false} CopyWithout(items: seq<Instance>, gone: string, id: string)
    ensures LastCopy(Without(items, gone), id) == if id == gone then None else LastCopy(items, id)
  {
    if items != [] {
      var front, last := items[..|items| - 1], items[|items| - 1];
      CopyWithout(front, gone, id);
      CopySnoc(Without(front, gone), last, id);
      assert Without(front, gone) + [] == Without(front, gone);
    }
  }

  lemma {:induction false} CopyUpdated(items: seq<Instance>, i: Instance, id: string)
    requires LastIndex(items, i.id) < |items|
    ensures LastCopy(items[LastIndex(items, i.id) := i], id) == if i.id == id then Some(i) else LastCopy(items, id)
  {
    var front, k := items[..|items| - 1], LastIndex(items, i.id);
    var r := items[k := i];
    if k == |items| - 1 {
      assert r[..|r| - 1] == front;
    } else {
      CopyUpdated(front, i, id);
      assert r[..|r| - 1] == front[k := i];
    }
  }

  /** What an event does to one ID's place in the cache: nothing, put a record there, or take all copies away. */
  datatype Effect = Neutral | Present(record: Instance) | Absent

  function EffectOn(e: Event, taken: bool, service: string, id: string): (f: Effect) {
    if e.service != service || e.instance.id != id then Neutral
    else
      match EffectiveAction(e)
      case Create => Present(Record(e))
      case Update => Present(Record(e))
      case Delete => if taken then Neutral else Absent
      case _ => Neutral
  }

  function Outcome(f: Effect, before: Option<Instance>): (after: Option<Instance>) {
    match f
    case Present(i) => Some(i)
    case Absent => None
    case Neutral => before
  }

  lemma HandleCopy(items: seq<Instance>, e: Event, taken: bool, id: string)
    ensures LastCopy(Handle(items, e, taken), id) == Outcome(EffectOn(e, taken, e.service, id), LastCopy(items, id))
  {
    hide LastCopy, LastIndex, Without;
    CopyWithout(items, e.instance.id, id);
    CopySnoc(items, Record(e), id);
    if LastIndex(items, e.instance.id) < |items| { CopyUpdated(items, Record(e), id); }
  }

  /** An event, and whether the health checker took it over. */
  datatype Seen = Seen(event: Event, taken: bool)

  ghost function Run(rank: Ranking, c: Cache, events: seq<Seen>): (r: Cache) {
    if events == [] then c
    else
      var last := events[|events| - 1];
      WatchStep(rank, Run(rank, c, events[..|events| - 1]), last.event, last.taken)
  }

  /** The effect of the last event that decided about the ID. */
  function LastEffect(events: seq<Seen>, service: string, id: string): (f: Effect) {
    if events == [] then Neutral
    else
      var last := events[|events| - 1];
      var f := EffectOn(last.event, last.taken, service, id);
      if f.Neutral? then LastEffect(events[..|events| - 1], service, id) else f
  }

  /**
    The last event decides: for a cached service, after any events of any services, an ID is cached iff its last
    deciding event left it up, or it had none and was cached before; and its last copy is the record of that event.
   */
  lemma {:induction false} LastEventDecides(rank: Ranking, c: Cache, events: seq<Seen>, service: string, id: string)
    requires service in c.simple
    ensures var r := Run(rank, c, events);
            && service in r.simple
            && LastCopy(Items(r.simple[service]), id)
               == Outcome(LastEffect(events, service, id), LastCopy(Items(c.simple[service]), id))
            && (id in Ids(Items(r.simple[service])) <==>
                LastEffect(events, service, id).Present? ||
                (LastEffect(events, service, id).Neutral? && id in Ids(Items(c.simple[service]))))
  {
    hide Handle, Ids, EffectiveAction, LastCopy;
    if events != [] {
      var front, last := events[..|events| - 1], events[|events| - 1];
      LastEventDecides(rank, c, front, service, id);
      var r := Run(rank, c, front);
      if last.event.service == service {
        HandleCopy(Items(r.simple[service]), last.event, last.taken, id);
      }
    }
    CopyMembership(Items(Run(rank, c, events).simple[service]), id);
    CopyMembership(Items(c.simple[service]), id);
  }

  /** Event n is the last one about the ID of the service. */
  ghost predicate LastAbout(events: seq<Seen>, n: nat, service: string, id: string) {
    && n < |events|
    && events[n].event.service == service && events[n].event.instance.id == id
    && forall m :: n < m < |events| ==> events[m].event.service != service || events[m].event.instance.id != id
  }

  lemma {:induction false} LastAboutDecides(events: seq<Seen>, n: nat, service: string, id: string)
    requires LastAbout(events, n, service, id)
    ensures var f := EffectOn(events[n].event, events[n].taken, service, id);
            LastEffect(events, service, id) == if f.Neutral? then LastEffect(events[..n], service, id) else f
  {
    hide EffectiveAction;
    if n < |events| - 1 {
      var front := events[..|events| - 1];
      LastAboutDecides(front, n, service, id);
      assert front[..n] == events[..n];
    }
  }

  /** i is the instance of the event as it is cached: tagged with the application of the event, otherwise as sent. */
  ghost predicate AsSent(i: Instance, e: Event) {
    && i.id == e.instance.id && i.status == e.instance.status
    && i.metadata.Keys == e.instance.metadata.Keys + {"app"}
    && forall k :: k in i.metadata ==> i.metadata[k] == if k == "app" then e.app else e.instance.metadata[k]
  }

  /** The copies of the ID in a cached service after the events, and the last record among them. */
  ghost function CachedAs(rank: Ranking, c: Cache, events: seq<Seen>, service: string, id: string): (r: Option<Instance>)
    requires service in c.simple
  {
    LastEventDecides(rank, c, events, service, id);
    LastCopy(Items(Run(rank, c, events).simple[service]), id)
  }

  lemma CachedIff(rank: Ranking, c: Cache, events: seq<Seen>, service: string, id: string)
    requires service in c.simple
    ensures service in Run(rank, c, events).simple
    ensures CachedAs(rank, c, events, service, id).Some? <==> id in Ids(Items(Run(rank, c, events).simple[service]))
  {
    LastEventDecides(rank, c, events, service, id);
    CopyMembership(Items(Run(rank, c, events).simple[service]), id);
  }

  /**
    What the last event about an ID leaves, from its status and action alone. One reported as not up is gone whatever
    the action, and so is one deleted; one created or updated while up is cached as sent; any other event, and one
    whose instance the health checker took, leaves the ID as the events before it left it.
   */
  lemma LastStatusDecides(rank: Ranking, c: Cache, events: seq<Seen>, n: nat, service: string, id: string)
    requires service in c.simple && LastAbout(events, n, service, id)
    ensures var e, taken, now := events[n].event, events[n].taken, CachedAs(rank, c, events, service, id);
            var gone := e.instance.status != "UP" || e.action == Action.Delete;
            && (gone && !taken ==> now == None)
            && (!gone && (e.action == Create || e.action == Update) ==> now.Some? && AsSent(now.value, e))
            && ((gone && taken) || (!gone && (e.action == Error || e.action == Unknown)) ==>
                  now == CachedAs(rank, c, events[..n], service, id))
  {
    hide Run, LastCopy, LastEffect, LastAbout, EffectOn, EffectiveAction, AsSent, Ids;
    LastAboutIs(events, n, service, id);
    LastEventDecides(rank, c, events, service, id);
    LastEventDecides(rank, c, events[..n], service, id);
    LastAboutDecides(events, n, service, id);
    EffectByStatus(events[n].event, events[n].taken);
  }

  lemma LastAboutIs(events: seq<Seen>, n: nat, service: string, id: string)
    requires LastAbout(events, n, service, id)
    ensures n < |events| && events[n].event.service == service && events[n].event.instance.id == id
  {
  }

  /** What an event does to the place of its own instance, from its status and action alone. */
  lemma EffectByStatus(e: Event, taken: bool)
    ensures var f := EffectOn(e, taken, e.service, e.instance.id);
            var gone := e.instance.status != "UP" || e.action == Action.Delete;
            && (gone ==> f == if taken then Neutral else Absent)
            && (!gone && (e.action == Create || e.action == Update) ==> f.Present? && AsSent(f.record, e))
            && (!gone && (e.action == Error || e.action == Unknown) ==> f == Neutral)
  {
  }

  /** Events keep the cached IDs distinct, except a create for an ID that is already cached, which stores a second copy. */
  lemma DistinctKeptIff(items: seq<Instance>, e: Event, taken: bool)
    requires DistinctIds(items)
    ensures DistinctIds(Handle(items, e, taken)) <==> !(EffectiveAction(e).Create? && e.instance.id in Ids(items))
  {
    WithoutDistinct(items, e.instance.id);
    var i, k := Record(e), LastIndex(items, e.instance.id);
    if k < |items| {
      var r := items[k := i];
      assert forall j :: 0 <= j < |items| ==> r[j].id == items[j].id;
    }
    if i.id in Ids(items) {
      var j :| 0 <= j < |items| && items[j].id == i.id;
      assert (items + [i])[j].id == (items + [i])[|items|].id;
    }
  }

  lemma {:induction false} WithoutDistinct(items: seq<Instance>, id: string)
    requires DistinctIds(items)
    ensures DistinctIds(Without(items, id))
    ensures forall k :: 0 <= k < |Without(items, id)| ==> Without(items, id)[k] in items
  {
    if items != [] {
      var front, last := items[..|items| - 1], items[|items| - 1];
      assert forall k :: 0 <= k < |front| ==> front[k] == items[k] && front[k].id != last.id;
      WithoutDistinct(front, id);
    }
  }
}
