/**
  The asynchronous health checker of core/registry/healthz.go as a state machine.

  Add sends to pendingCh, wait collects a pack keyed by WrapInstance.String() and sends it to delCh, check starts one
  check per entry and takes the results, removing failed instances from the cache. Each step below is one of these
  actions; a Get-then-Set on the cache is one step, as is any write to the cache by others.
 */
module HealthPipeline {
  import opened Base
  import opened Registry
  import opened InstanceIndex
  import opened CacheRefresh
  import opened WatchEvents

  // ---------- keys ----------

  /** WrapInstance.String(). */
  function Key(w: Wrap): (k: string) {
    w.service + ":" + (w.version + ":" + (w.app + ":" + w.instance.id))
  }

  /** The key spelled out: service, version, application and instance ID, with colons between them. */
  lemma KeySpelled(w: Wrap)
    ensures Key(w) == w.service + ":" + w.version + ":" + w.app + ":" + w.instance.id
  {
    assert w.service + ":" + w.version + ":" + w.app + ":" + w.instance.id == Key(w);
  }

  /** What the key is meant to identify. */
  datatype Identity = Identity(service: string, version: string, app: string, id: string)

  function IdentityOf(w: Wrap): (i: Identity) {
    Identity(w.service, w.version, w.app, w.instance.id)
  }

  predicate ColonFree(s: string) {
    ':' !in s
  }

  predicate Plain(w: Wrap) {
    ColonFree(w.service) && ColonFree(w.version) && ColonFree(w.app) && ColonFree(w.instance.id)
  }

  function Colons(s: string): (n: nat) {
    Count(s, ':')
  }

  lemma {:induction false} ColonFreeCount(s: string)
    ensures ColonFree(s) <==> Colons(s) == 0
  {
    if s != "" {
      ColonFreeCount(s[..|s| - 1]);
      assert s == s[..|s| - 1] + [s[|s| - 1]];
    }
  }

  lemma KeyColons(w: Wrap)
    ensures Colons(Key(w)) == 3 + Colons(w.service) + Colons(w.version) + Colons(w.app) + Colons(w.instance.id)
  {
    var c := w.app + ":" + w.instance.id;
    var b := w.version + ":" + c;
    CountConcat(w.app + ":", w.instance.id, ':');
    CountConcat(w.app, ":", ':');
    CountConcat(w.version + ":", c, ':');
    CountConcat(w.version, ":", ':');
    CountConcat(w.service + ":", b, ':');
    CountConcat(w.service, ":", ':');
    assert Count(":", ':') == 1 by { CountSnoc("", ':', ':'); assert "" + ":" == ":"; }
  }

  lemma SplitUnique(a: string, r: string, b: string, t: string)
    requires ColonFree(a) && ColonFree(b) && a + ":" + r == b + ":" + t
    ensures a == b && r == t
  {
    var s := a + ":" + r;
    assert s[|a|] == ':' && s[|b|] == ':';
    assert forall i :: 0 <= i < |a| ==> s[i] == a[i];
    assert forall i :: 0 <= i < |b| ==> s[i] == b[i];
    assert |a| == |b|;
    assert a == s[..|a|] && b == s[..|b|];
    assert r == s[|a| + 1..] && t == s[|b| + 1..];
  }

  /** An instance whose fields are colon-free shares its key with no other identity. */
  lemma KeyIdentifies(a: Wrap, b: Wrap)
    requires Plain(a) && Key(a) == Key(b)
    ensures IdentityOf(a) == IdentityOf(b)
  {
    KeyColons(a);
    KeyColons(b);
    ColonFreeCount(a.service); ColonFreeCount(a.version); ColonFreeCount(a.app); ColonFreeCount(a.instance.id);
    ColonFreeCount(b.service); ColonFreeCount(b.version); ColonFreeCount(b.app); ColonFreeCount(b.instance.id);
    SplitUnique(a.service, a.version + ":" + (a.app + ":" + a.instance.id),
                b.service, b.version + ":" + (b.app + ":" + b.instance.id));
    SplitUnique(a.version, a.app + ":" + a.instance.id, b.version, b.app + ":" + b.instance.id);
    SplitUnique(a.app, a.instance.id, b.app, b.instance.id);
  }

  // ---------- states and steps ----------

  const CAPACITY: nat := 1000

  /** The result of a check, and in which round of checks it was made. */
  datatype Result = Result(item: Wrap, ok: bool, round: nat)

  /** added, started and results record the history: successful Adds, rounds of checks begun, and check results. */
  datatype State = State(
    pending: seq<Wrap>,
    pack: map<string, Wrap>,
    queue: seq<map<string, Wrap>>,
    checking: map<string, Wrap>,
    cache: map<string, seq<Instance>>,
    added: set<Wrap>,
    started: nat,
    results: seq<Result>)

  const START := State([], map[], [], map[], map[], {}, 0, [])

  datatype Step =
    | Add(w: Wrap)
    | Take
    | Flush
    | StartChecks
    | Receive(key: string, ok: bool)
    | OthersSet(service: string, items: seq<Instance>)
    | OthersDelete(service: string)

  ghost predicate Enabled(s: State, step: Step) {
    match step
    case Add(_) => |s.pending| < CAPACITY
    case Take => s.pending != []
    case Flush => s.pack != map[] && |s.queue| < CAPACITY
    case StartChecks => s.checking == map[] && s.queue != []
    case Receive(key, _) => key in s.checking
    case OthersSet(_, _) => true
    case OthersDelete(_) => true
  }

  /** removeFromCache. */
  function RemoveFrom(cache: map<string, seq<Instance>>, w: Wrap): (r: map<string, seq<Instance>>) {
    if w.service in cache then cache[w.service := Without(cache[w.service], w.instance.id)] else cache
  }

  ghost function Next(s: State, step: Step): (t: State)
    requires Enabled(s, step)
  {
    match step
    case Add(w) => s.(pending := s.pending + [w], added := s.added + {w})
    case Take => s.(pending := s.pending[1..], pack := s.pack[Key(s.pending[0]) := s.pending[0]])
    case Flush => s.(queue := s.queue + [s.pack], pack := map[])
    case StartChecks => s.(queue := s.queue[1..], checking := s.queue[0], started := s.started + 1)
    case Receive(key, ok) =>
      var w := s.checking[key];
      var t := s.(checking := s.checking - {key}, results := s.results + [Result(w, ok, s.started)]);
      if ok then t else t.(cache := RemoveFrom(s.cache, w))
    case OthersSet(service, items) => s.(cache := s.cache[service := items])
    case OthersDelete(service) => s.(cache := s.cache - {service})
  }

  ghost predicate IsRun(s: State, steps: seq<Step>, t: State)
    decreases |steps|
  {
    if steps == [] then s == t
    else Enabled(s, steps[0]) && IsRun(Next(s, steps[0]), steps[1..], t)
  }

  /** removeFromCache on the index cache; a service left without instances is cached as nil. */
  method RemoveFromCache(w: Wrap, cache: IndexCache)
    modifies cache
    ensures var was := old(cache.View());
            if w.service !in was.simple then cache.View() == was
            else
              var left := Without(Items(was.simple[w.service]), w.instance.id);
              cache.View() == SetStep(cache.rank, was, w.service, if left == [] then Nil else Of(left))
  {
    var c, ok := cache.GetAll(w.service);
    if !ok {
      return;
    }
    var items, left := Items(c), [];
    for n := 0 to |items|
      invariant left == Without(items[..n], w.instance.id) && cache.View() == old(cache.View())
    {
      assert items[..n + 1][..n] == items[..n];
      if items[n].id != w.instance.id {
        left := left + [items[n]];
      }
    }
    assert items[..|items|] == items;
    cache.Set(w.service, if left == [] then Nil else Of(left));
  }

  // ---------- no lost checks ----------

  ghost predicate Keyed(m: map<string, Wrap>) {
    forall k :: k in m ==> Key(m[k]) == k
  }

  ghost predicate InPack(m: map<string, Wrap>, i: Identity) {
    exists k :: k in m && IdentityOf(m[k]) == i
  }

  ghost predicate InPending(s: State, i: Identity) {
    exists n :: 0 <= n < |s.pending| && IdentityOf(s.pending[n]) == i
  }

  ghost predicate InQueue(s: State, i: Identity) {
    exists n :: 0 <= n < |s.queue| && InPack(s.queue[n], i)
  }

  /** There is a result of a check begun after round since. */
  ghost predicate Answered(s: State, i: Identity, since: nat) {
    exists n :: 0 <= n < |s.results| && s.results[n].round > since && IdentityOf(s.results[n].item) == i
  }

  /** It still is to be checked, or is being checked or has its result in a round after since. */
  ghost predicate Located(s: State, i: Identity, since: nat) {
    || InPending(s, i) || InPack(s.pack, i) || InQueue(s, i)
    || (s.started > since && InPack(s.checking, i))
    || Answered(s, i, since)
  }

  /** Every instance in the pipeline was added, under its own key, and every result is of a round begun. */
  ghost predicate Inv(s: State) {
    && (forall n :: 0 <= n < |s.pending| ==> s.pending[n] in s.added)
    && PackSourced(s, s.pack)
    && (forall n :: 0 <= n < |s.queue| ==> PackSourced(s, s.queue[n]))
    && PackSourced(s, s.checking)
    && (forall n :: 0 <= n < |s.results| ==> s.results[n].item in s.added && s.results[n].round <= s.started)
  }

  ghost predicate PackSourced(s: State, m: map<string, Wrap>) {
    Keyed(m) && forall k :: k in m ==> m[k] in s.added
  }

  /** No other identity that was added has the key of w. */
  ghost predicate Unambiguous(w: Wrap, added: set<Wrap>) {
    forall v :: v in added && Key(v) == Key(w) ==> IdentityOf(v) == IdentityOf(w)
  }

  lemma PlainIsUnambiguous(w: Wrap, added: set<Wrap>)
    requires Plain(w)
    ensures Unambiguous(w, added)
  {
    forall v | v in added && Key(v) == Key(w)
      ensures IdentityOf(v) == IdentityOf(w)
    {
      KeyIdentifies(w, v);
    }
  }

  lemma InvNext(s: State, step: Step)
    requires Inv(s) && Enabled(s, step)
    ensures Inv(Next(s, step))
  {
    hide Key, RemoveFrom;
    var t := Next(s, step);
    assert forall m :: PackSourced(s, m) ==> PackSourced(t, m);
    if step.Take? {
      assert s.pending[0] in s.added;
    }
  }

  /** Taking an instance into the pack may overwrite an entry, but only by one of the same identity. */
  lemma TakeKeeps(m: map<string, Wrap>, p: Wrap, w: Wrap)
    requires Keyed(m) && InPack(m, IdentityOf(w)) && (Key(p) == Key(w) ==> IdentityOf(p) == IdentityOf(w))
    ensures InPack(m[Key(p) := p], IdentityOf(w))
  {
    var k :| k in m && IdentityOf(m[k]) == IdentityOf(w);
    assert Key(m[k]) == Key(w);
    var m' := m[Key(p) := p];
    assert k in m' && IdentityOf(m'[k]) == IdentityOf(w);
  }

  lemma PendingNext(s: State, step: Step, i: Identity)
    requires Enabled(s, step) && InPending(s, i)
    ensures InPending(Next(s, step), i) || InPack(Next(s, step).pack, i)
  {
    hide Key, RemoveFrom;
    var t := Next(s, step);
    var n :| 0 <= n < |s.pending| && IdentityOf(s.pending[n]) == i;
    if step.Take? {
      if n == 0 { assert t.pack[Key(s.pending[0])] == s.pending[0]; } else { assert t.pending[n - 1] == s.pending[n]; }
    } else {
      assert t.pending[n] == s.pending[n];
    }
  }

  lemma PackNext(s: State, step: Step, w: Wrap)
    requires Enabled(s, step) && Inv(s) && Unambiguous(w, s.added) && InPack(s.pack, IdentityOf(w))
    ensures InPack(Next(s, step).pack, IdentityOf(w)) || InQueue(Next(s, step), IdentityOf(w))
  {
    hide Key, RemoveFrom;
    if step.Take? {
      assert s.pending[0] in s.added;
      TakeKeeps(s.pack, s.pending[0], w);
    }
    if step.Flush? { assert Next(s, step).queue[|s.queue|] == s.pack; }
  }

  lemma QueueNext(s: State, step: Step, i: Identity)
    requires Enabled(s, step) && InQueue(s, i)
    ensures InQueue(Next(s, step), i) || (Next(s, step).started == s.started + 1 && InPack(Next(s, step).checking, i))
  {
    hide Key, RemoveFrom, InPack;
    var t := Next(s, step);
    var n :| 0 <= n < |s.queue| && InPack(s.queue[n], i);
    if step.StartChecks? {
      if n > 0 { assert t.queue[n - 1] == s.queue[n]; }
    } else {
      assert t.queue[n] == s.queue[n];
    }
  }

  lemma CheckingNext(s: State, step: Step, i: Identity, since: nat)
    requires Enabled(s, step) && InPack(s.checking, i) && s.started > since
    ensures Next(s, step).started > since
    ensures InPack(Next(s, step).checking, i) || Answered(Next(s, step), i, since)
  {
    hide Key, RemoveFrom;
    var t := Next(s, step);
    var k :| k in s.checking && IdentityOf(s.checking[k]) == i;
    if step.Receive? && step.key == k {
      assert t.results[|s.results|] == Result(s.checking[k], step.ok, s.started);
    } else {
      assert t.checking[k] == s.checking[k];
    }
  }

  lemma AnsweredNext(s: State, step: Step, i: Identity, since: nat)
    requires Enabled(s, step) && Answered(s, i, since)
    ensures Answered(Next(s, step), i, since)
  {
    hide Key, RemoveFrom;
    var n :| 0 <= n < |s.results| && s.results[n].round > since && IdentityOf(s.results[n].item) == i;
    assert Next(s, step).results[n] == s.results[n];
  }

  lemma LocatedNext(s: State, step: Step, w: Wrap, since: nat)
    requires Inv(s) && Enabled(s, step) && Unambiguous(w, s.added)
    requires since <= s.started && Located(s, IdentityOf(w), since)
    ensures Located(Next(s, step), IdentityOf(w), since)
  {
    hide Inv, Unambiguous, Next, Enabled, InPack, InPending, InQueue, Answered;
    var i := IdentityOf(w);
    if InPending(s, i) { PendingNext(s, step, i); }
    if InPack(s.pack, i) { PackNext(s, step, w); }
    if InQueue(s, i) { QueueNext(s, step, i); }
    if InPack(s.checking, i) && s.started > since { CheckingNext(s, step, i, since); }
    if Answered(s, i, since) { AnsweredNext(s, step, i, since); }
  }

  lemma JustAdded(s: State, w: Wrap, since: nat)
    requires Enabled(s, Add(w))
    ensures Located(Next(s, Add(w)), IdentityOf(w), since)
  {
    assert Next(s, Add(w)).pending[|s.pending|] == w;
  }

  // ---------- over whole runs ----------

  lemma HistoryGrows(s: State, step: Step)
    requires Enabled(s, step)
    ensures var t := Next(s, step); s.added <= t.added && s.started <= t.started && s.results <= t.results
  {
  }

  lemma {:induction false} HistoryRun(s: State, steps: seq<Step>, t: State)
    requires IsRun(s, steps, t)
    ensures s.added <= t.added && s.started <= t.started && s.results <= t.results
    decreases |steps|
  {
    if steps != [] {
      hide Next, Enabled;
      HistoryGrows(s, steps[0]);
      HistoryRun(Next(s, steps[0]), steps[1..], t);
    }
  }

  lemma {:induction false} InvRun(s: State, steps: seq<Step>, t: State)
    requires Inv(s) && IsRun(s, steps, t)
    ensures Inv(t)
    decreases |steps|
  {
    if steps != [] {
      hide Inv, Next, Enabled;
      InvNext(s, steps[0]);
      InvRun(Next(s, steps[0]), steps[1..], t);
    }
  }

  lemma {:induction false} LocatedRun(s: State, steps: seq<Step>, t: State, w: Wrap, since: nat)
    requires Inv(s) && IsRun(s, steps, t) && Unambiguous(w, t.added)
    requires since <= s.started && Located(s, IdentityOf(w), since)
    ensures Located(t, IdentityOf(w), since)
    decreases |steps|
  {
    if steps != [] {
      assert Unambiguous(w, s.added) by { HistoryRun(s, steps, t); }
      hide Inv, Next, Enabled, Located, Unambiguous;
      InvNext(s, steps[0]);
      HistoryGrows(s, steps[0]);
      LocatedNext(s, steps[0], w, since);
      LocatedRun(Next(s, steps[0]), steps[1..], t, w, since);
    }
  }

  /**
    No lost health checks, for every single Add: after any interleaving before and after it, an instance successfully
    added, whose key no other identity shares, in particular one with colon-free key fields, is pending, in the current
    pack, in a queued pack, or being checked or answered in a round of checks begun after that Add.
   */
  lemma NoLostChecks(before: seq<Step>, s: State, w: Wrap, steps: seq<Step>, t: State)
    requires IsRun(START, before, s) && Enabled(s, Add(w)) && IsRun(Next(s, Add(w)), steps, t)
    requires Plain(w) || Unambiguous(w, t.added)
    ensures Located(t, IdentityOf(w), s.started)
    ensures Answered(t, IdentityOf(w), s.started) ==>
              exists n :: |s.results| <= n < |t.results| && IdentityOf(t.results[n].item) == IdentityOf(w)
  {
    InvRun(START, before, s);
    if Plain(w) { PlainIsUnambiguous(w, t.added); }
    var m := Next(s, Add(w));
    InvNext(s, Add(w));
    JustAdded(s, w, s.started);
    HistoryRun(m, steps, t);
    hide Located, Unambiguous, Key, IsRun;
    LocatedRun(m, steps, t, w, s.started);
    assert forall n :: 0 <= n < |s.results| ==> t.results[n] == s.results[n];
    if Answered(t, IdentityOf(w), s.started) {
      var n :| 0 <= n < |t.results| && t.results[n].round > s.started && IdentityOf(t.results[n].item) == IdentityOf(w);
      assert n >= |s.results|;
    }
  }

  /** The two channels hold at most 1000 entries each; an instance can be added while the first has room. */
  lemma {:induction false} ChannelsBounded(s: State, steps: seq<Step>, t: State, w: Wrap)
    requires IsRun(s, steps, t) && |s.pending| <= 1000 && |s.queue| <= 1000
    ensures |t.pending| <= 1000 && |t.queue| <= 1000
    ensures Enabled(t, Add(w)) <==> |t.pending| < 1000
    decreases |steps|
  {
    hide Key, RemoveFrom;
    if steps != [] { ChannelsBounded(Next(s, steps[0]), steps[1..], t, w); }
  }

  /** The only thing a result does to the cache: a failed one takes that ID, and no other, out of that service. */
  lemma RemovalExact(s: State, key: string, ok: bool, service: string, id: string)
    requires Enabled(s, Receive(key, ok)) && service in s.cache
    ensures var t, w := Next(s, Receive(key, ok)), s.checking[key];
            && t.cache.Keys == s.cache.Keys
            && (id in Ids(t.cache[service]) <==>
                id in Ids(s.cache[service]) && !(!ok && service == w.service && id == w.instance.id))
  {
    var w := s.checking[key];
    if !ok && service == w.service {
      CopyMembership(s.cache[service], id);
      CopyMembership(Without(s.cache[service], w.instance.id), id);
      CopyWithout(s.cache[service], w.instance.id, id);
    }
  }

  /**
    The checker removes only what failed a check: whenever, after any run, an ID is gone from the cache of a service
    after a step not made by others, that step received a failed check of that ID of that service, of an instance that
    was added.
   */
  lemma OnlyFailuresRemove(steps: seq<Step>, s: State, step: Step, service: string, id: string)
    requires IsRun(START, steps, s) && Enabled(s, step) && !step.OthersSet? && !step.OthersDelete?
    requires service in s.cache && id in Ids(s.cache[service])
    requires var t := Next(s, step); service !in t.cache || id !in Ids(t.cache[service])
    ensures step.Receive? && !step.ok
    ensures var w := s.checking[step.key]; w in s.added && w.service == service && w.instance.id == id
  {
    InvRun(START, steps, s);
    hide Key, RemoveFrom, IsRun;
    if step.Receive? {
      RemovalExact(s, step.key, step.ok, service, id);
    }
  }

  // ---------- progress ----------

  /** The steps of the checker itself. */
  predicate IsPipelineStep(step: Step) {
    step.Take? || step.Flush? || step.StartChecks? || step.Receive?
  }

  ghost predicate Drained(s: State) {
    s.pending == [] && s.pack == map[] && s.queue == [] && s.checking == map[]
  }

  ghost function QueueWork(queue: seq<map<string, Wrap>>): (n: nat) {
    if queue == [] then 0 else 3 * |queue[0]| + 1 + QueueWork(queue[1..])
  }

  /** Work left in the pipeline: an upper bound on the checker's remaining steps. */
  ghost function Work(s: State): (n: nat) {
    6 * |s.pending| + 5 * |s.pack| + QueueWork(s.queue) + 2 * |s.checking|
  }

  lemma {:induction false} QueueWorkSnoc(queue: seq<map<string, Wrap>>, m: map<string, Wrap>)
    ensures QueueWork(queue + [m]) == QueueWork(queue) + 3 * |m| + 1
  {
    if queue == [] {
      assert ([] + [m])[1..] == [];
    } else {
      QueueWorkSnoc(queue[1..], m);
      assert (queue + [m])[1..] == queue[1..] + [m];
    }
  }

  lemma UpdateSize(m: map<string, Wrap>, k: string, w: Wrap)
    ensures |m[k := w]| <= |m| + 1
  {
  }

  lemma RemoveSize(m: map<string, Wrap>, k: string)
    requires k in m
    ensures |m - {k}| == |m| - 1
  {
    assert (m - {k}).Keys == m.Keys - {k};
  }

  /** Every step of the checker uses up work. */
  lemma WorkDecreases(s: State, step: Step)
    requires Enabled(s, step) && IsPipelineStep(step)
    ensures Work(Next(s, step)) < Work(s)
  {
    hide Key, RemoveFrom;
    match step
    case Take => UpdateSize(s.pack, Key(s.pending[0]), s.pending[0]);
    case Flush =>
      QueueWorkSnoc(s.queue, s.pack);
      assert |s.pack| >= 1;
    case StartChecks =>
    case Receive(key, ok) => RemoveSize(s.checking, key);
  }

  /** The checker is never stuck while there is something in it, however full its channels are. */
  lemma NeverStuck(s: State) returns (step: Step)
    requires !Drained(s)
    ensures IsPipelineStep(step) && Enabled(s, step)
  {
    if s.checking != map[] {
      var key :| key in s.checking;
      step := Receive(key, true);
    } else if s.queue != [] {
      step := StartChecks;
    } else if s.pack != map[] {
      step := Flush;
    } else {
      step := Take;
    }
  }

  /** Nothing the checker itself could do is left to do. */
  ghost predicate AtRest(s: State) {
    forall step :: IsPipelineStep(step) ==> !Enabled(s, step)
  }

  lemma AtRestIffDrained(s: State)
    ensures AtRest(s) <==> Drained(s)
  {
    if !Drained(s) {
      var step := NeverStuck(s);
    }
  }

  ghost predicate IsCheckerRun(s: State, steps: seq<Step>, t: State) {
    IsRun(s, steps, t) && forall k :: 0 <= k < |steps| ==> IsPipelineStep(steps[k])
  }

  /** Left to itself the checker comes to rest: no run of its own steps is longer than the work there is. */
  lemma {:induction false} ComesToRest(s: State, steps: seq<Step>, t: State)
    requires IsCheckerRun(s, steps, t)
    ensures |steps| + Work(t) <= Work(s)
    decreases |steps|
  {
    if steps != [] {
      hide Next, Enabled, Work;
      WorkDecreases(s, steps[0]);
      ComesToRest(Next(s, steps[0]), steps[1..], t);
    }
  }

  /** Whatever it does and whenever it comes to rest, the checker has then answered every Add with a key of its own. */
  lemma EveryCheckIsAnswered(before: seq<Step>, s: State, w: Wrap, steps: seq<Step>, t: State)
    requires IsRun(START, before, s) && Enabled(s, Add(w)) && IsRun(Next(s, Add(w)), steps, t)
    requires (Plain(w) || Unambiguous(w, t.added)) && AtRest(t)
    ensures Answered(t, IdentityOf(w), s.started)
  {
    hide AtRest, Answered, Unambiguous, Plain, IsRun;
    NoLostChecks(before, s, w, steps, t);
    AtRestIffDrained(t);
  }

  /** It can be brought to rest from every state. */
  lemma {:induction false} CanRest(s: State) returns (steps: seq<Step>, t: State)
    ensures IsCheckerRun(s, steps, t) && AtRest(t)
    decreases Work(s)
  {
    AtRestIffDrained(s);
    if Drained(s) {
      steps, t := [], s;
    } else {
      hide Enabled, Work, Next, AtRest;
      var step := NeverStuck(s);
      WorkDecreases(s, step);
      var rest;
      rest, t := CanRest(Next(s, step));
      steps := RunCons(s, step, rest, t);
    }
  }

  // ---------- colons ----------

  /** The condition is exact: an instance whose key another identity shares can be lost without ever being checked. */
  lemma CollisionLosesCheck(w: Wrap, other: Wrap) returns (steps: seq<Step>, t: State)
    requires Key(w) == Key(other) && IdentityOf(w) != IdentityOf(other)
    ensures Enabled(START, Add(w)) && IsRun(Next(START, Add(w)), steps, t)
    ensures AtRest(t) && !Located(t, IdentityOf(w), START.started)
  {
    var s4, toPack := CollidingTakes(w, other);
    var s5 := Next(s4, Flush);
    var s6 := Next(s5, StartChecks);
    t := Next(s6, Receive(Key(w), true));
    assert t.checking == map[] && t.results == [Result(other, true, 1)] && t.queue == [] && t.pack == map[];
    assert !Located(t, IdentityOf(w), 0);
    AtRestIffDrained(t);
    hide Next, Enabled, Located, Key, AtRest;
    steps := RunCons(s6, Receive(Key(w), true), [], t);
    steps := RunCons(s5, StartChecks, steps, t);
    steps := RunCons(s4, Flush, steps, t);
    RunAppend(Next(START, Add(w)), toPack, s4, steps, t);
    steps := toPack + steps;
  }

  /** Both are added and taken; the pack then holds only the other one. */
  lemma CollidingTakes(w: Wrap, other: Wrap) returns (s4: State, steps: seq<Step>)
    requires Key(w) == Key(other)
    ensures IsRun(Next(START, Add(w)), steps, s4)
    ensures s4 == START.(added := {w, other}, pack := map[Key(w) := other]) && Key(w) in s4.pack
  {
    hide Key;
    var s1 := Next(START, Add(w));
    var s2 := Next(s1, Add(other));
    var s3 := Next(s2, Take);
    s4 := Next(s3, Take);
    assert s4.pending == [] && s4.added == {w, other};
    steps := RunCons(s3, Take, [], s4);
    steps := RunCons(s2, Take, steps, s4);
    steps := RunCons(s1, Add(other), steps, s4);
  }

  lemma {:induction false} RunAppend(s: State, first: seq<Step>, m: State, second: seq<Step>, t: State)
    requires IsRun(s, first, m) && IsRun(m, second, t)
    ensures IsRun(s, first + second, t)
    decreases |first|
  {
    hide Enabled, Next;
    if first == [] {
      assert first + second == second;
    } else {
      RunAppend(Next(s, first[0]), first[1..], m, second, t);
      assert (first + second)[1..] == first[1..] + second;
    }
  }

  lemma RunCons(s: State, step: Step, rest: seq<Step>, t: State) returns (steps: seq<Step>)
    requires Enabled(s, step) && IsRun(Next(s, step), rest, t)
    ensures steps == [step] + rest && IsRun(s, steps, t)
  {
    steps := [step] + rest;
    assert steps[1..] == rest;
  }

  /** Colons in the fields do make such pairs. */
  lemma CollidingPair(i: Instance) returns (w: Wrap, other: Wrap)
    ensures Key(w) == Key(other) && IdentityOf(w) != IdentityOf(other)
  {
    w, other := Wrap("svc", "1", "a:b", i), Wrap("svc", "1:a", "b", i);
    assert "1" + ":" + ("a:b" + ":" + i.id) == "1:a" + ":" + ("b" + ":" + i.id);
    assert |w.app| != |other.app|;
  }
}
