/** What fault rules deliver over whole runs of requests, for any interleaving of services (keys). */
module FaultRuns {
  import opened Base
  import opened FaultInjection

  type Request = Keyed<Fault>

  /** The package state: counters per key and the two flags that all keys share. */
  datatype Package = Package(tallies: map<string, Tally>, abortNeeded: bool, delayApplied: bool) {
    ghost predicate Valid() {
      forall key :: key in tallies ==> ValidTally(tallies[key])
    }

    ghost function TallyOf(key: string): (t: Tally)
      requires Valid()
      ensures ValidTally(t)
    {
      if key in tallies then tallies[key] else FRESH
    }

    ghost function Seen(key: string): (w: World)
      requires Valid()
      ensures ValidTally(w.tally)
    {
      World(TallyOf(key), abortNeeded, delayApplied)
    }
  }

  ghost function Serve(p: Package, r: Request): (o: Outcome)
    requires p.Valid()
    ensures ValidTally(o.world.tally)
  {
    FaultStep(p.Seen(r.key), r.item)
  }

  ghost function Next(p: Package, r: Request): (q: Package)
    requires p.Valid()
    ensures q.Valid()
  {
    var w := Serve(p, r).world;
    Package(p.tallies[r.key := w.tally], w.abortNeeded, w.delayApplied)
  }

  ghost function After(p: Package, rs: seq<Request>): (q: Package)
    requires p.Valid()
    ensures q.Valid()
  {
    if rs == [] then p else Next(After(p, rs[..|rs| - 1]), rs[|rs| - 1])
  }

  /** Requests for key whose delay was injected. */
  ghost function Delayed(p: Package, rs: seq<Request>, key: string): (n: nat)
    requires p.Valid()
  {
    if rs == [] then 0
    else
      var front, r := rs[..|rs| - 1], rs[|rs| - 1];
      Delayed(p, front, key) + if r.key == key && Serve(After(p, front), r).delayed then 1 else 0
  }

  /** Requests for key answered with error e. */
  ghost function Failed(p: Package, rs: seq<Request>, key: string, e: FaultError): (n: nat)
    requires p.Valid()
  {
    if rs == [] then 0
    else
      var front, r := rs[..|rs| - 1], rs[|rs| - 1];
      Failed(p, front, key, e) + if r.key == key && Serve(After(p, front), r).error == Some(e) then 1 else 0
  }

  /** Requests for key answered as an abort: the fault handler takes either error for one. */
  ghost function Aborted(p: Package, rs: seq<Request>, key: string): (n: nat)
    requires p.Valid()
  {
    Failed(p, rs, key, InjectingAbort) + Failed(p, rs, key, InjectingAbortAndDelay)
  }

  /** What the last request of a run adds. */
  lemma RunSnoc(p: Package, rs: seq<Request>, key: string)
    requires p.Valid() && rs != []
    ensures var front, r := rs[..|rs| - 1], rs[|rs| - 1];
            var q := After(p, front);
            && After(p, rs) == Next(q, r)
            && Served(rs, key) == Served(front, key) + (if r.key == key then 1 else 0)
            && Delayed(p, rs, key) == Delayed(p, front, key) + (if r.key == key && Serve(q, r).delayed then 1 else 0)
            && forall e :: Failed(p, rs, key, e) ==
                           Failed(p, front, key, e) + if r.key == key && Serve(q, r).error == Some(e) then 1 else 0
  {
  }

  ghost predicate Combined(f: Fault) {
    CheckDelay(f.delay) == None && CheckAbort(f.abort) == None
  }

  ghost predicate AbortOnly(f: Fault) {
    f.delay == NO_DELAY && CheckAbort(f.abort) == None
  }

  ghost predicate DelayOnly(f: Fault) {
    CheckDelay(f.delay) == None && f.abort == NO_ABORT
  }

  // ---------- one service's rule, whatever rules the others have ----------

  /** Every request for key has a valid delay of this percentage, and any abort part. */
  ghost predicate OwnDelay(rs: seq<Request>, key: string, percent: int) {
    forall i :: 0 <= i < |rs| && rs[i].key == key ==>
      CheckDelay(rs[i].item.delay) == None && Effective(rs[i].item.delay.percent) == percent
  }

  ghost predicate OwnCombined(rs: seq<Request>, key: string) {
    forall i :: 0 <= i < |rs| && rs[i].key == key ==> Combined(rs[i].item)
  }

  ghost predicate OwnAbort(rs: seq<Request>, key: string, percent: int) {
    forall i :: 0 <= i < |rs| && rs[i].key == key ==>
      AbortOnly(rs[i].item) && Effective(rs[i].item.abort.percent) == percent
  }

  lemma OwnSnoc(rs: seq<Request>, key: string, percent: int)
    requires rs != []
    ensures var front, r := rs[..|rs| - 1], rs[|rs| - 1];
            && (OwnDelay(rs, key, percent) ==>
                  OwnDelay(front, key, percent) &&
                  (r.key == key ==> CheckDelay(r.item.delay) == None && Effective(r.item.delay.percent) == percent))
            && (OwnCombined(rs, key) ==> OwnCombined(front, key) && (r.key == key ==> Combined(r.item)))
            && (OwnAbort(rs, key, percent) ==>
                  OwnAbort(front, key, percent) &&
                  (r.key == key ==> AbortOnly(r.item) && Effective(r.item.abort.percent) == percent))
  {
    hide CheckDelay, CheckAbort, Effective;
    var front := rs[..|rs| - 1];
    assert forall i :: 0 <= i < |front| ==> front[i] == rs[i];
  }

  /** Requests for key that find delayApplied set and are not delayed themselves. */
  ghost function Leftover(p: Package, rs: seq<Request>, key: string): (n: nat)
    requires p.Valid()
  {
    if rs == [] then 0
    else
      var front, r := rs[..|rs| - 1], rs[|rs| - 1];
      var q := After(p, front);
      Leftover(p, front, key) + if r.key == key && q.delayApplied && !Serve(q, r).delayed then 1 else 0
  }

  /** Requests for key that find abortNeeded clear. */
  ghost function Unblocked(p: Package, rs: seq<Request>, key: string): (n: nat)
    requires p.Valid()
  {
    if rs == [] then 0
    else
      var front, r := rs[..|rs| - 1], rs[|rs| - 1];
      Unblocked(p, front, key) + if r.key == key && !After(p, front).abortNeeded then 1 else 0
  }

  /** Requests for key that find both flags set. */
  ghost function MeetingBoth(p: Package, rs: seq<Request>, key: string): (n: nat)
    requires p.Valid()
  {
    if rs == [] then 0
    else
      var front, r := rs[..|rs| - 1], rs[|rs| - 1];
      var q := After(p, front);
      MeetingBoth(p, front, key) + if r.key == key && q.abortNeeded && q.delayApplied then 1 else 0
  }

  /** A valid delay counts the call once, whatever the abort part and the flags are. */
  lemma DelayCall(w: World, f: Fault)
    requires ValidTally(w.tally) && CheckDelay(f.delay) == None
    ensures var o := FaultStep(w, f); (o.world.tally, o.delayed) == Tick(w.tally, Effective(f.delay.percent))
  {
    hide Tick;
  }

  /**
    A service whose requests have a valid delay of percentage p, with or without an abort part, has exactly
    floor(N * p / 100) of its N requests delayed, whatever rules the other services have and whatever the flags are.
   */
  lemma {:induction false} DelaySchedule(p: Package, rs: seq<Request>, key: string, percent: int)
    requires p.Valid() && p.TallyOf(key) == FRESH
    requires 1 <= percent <= 100 && OwnDelay(rs, key, percent)
    ensures OnSchedule(After(p, rs).TallyOf(key), Served(rs, key), percent)
    ensures Delayed(p, rs, key) == Due(Served(rs, key), percent)
  {
    if rs == [] {
      DueStep(0, percent);
    } else {
      var front, r := rs[..|rs| - 1], rs[|rs| - 1];
      hide After, Delayed, Failed, Next, Serve, OwnDelay, CheckDelay, Effective, Served, OnSchedule, Due,
           Package.TallyOf;
      OwnSnoc(rs, key, percent);
      DelaySchedule(p, front, key, percent);
      RunSnoc(p, rs, key);
      DelayNext(After(p, front), r, key, percent, Served(front, key));
    }
  }

  lemma DelayNext(p: Package, r: Request, key: string, percent: int, n: nat)
    requires p.Valid() && 1 <= percent <= 100 && OnSchedule(p.TallyOf(key), n, percent)
    requires r.key == key ==> CheckDelay(r.item.delay) == None && Effective(r.item.delay.percent) == percent
    ensures var m := if r.key == key then n + 1 else n;
            && OnSchedule(Next(p, r).TallyOf(key), m, percent)
            && Due(m, percent) == Due(n, percent) + (if r.key == key && Serve(p, r).delayed then 1 else 0)
  {
    hide Tick, FaultStep, Effective, CheckDelay, Due, OnSchedule;
    if r.key == key {
      DelayCall(p.Seen(key), r.item);
      TickOnSchedule(p.TallyOf(key), n, percent);
      DueStep(n, percent);
    }
  }

  /**
    A rule with both parts answers the abort error exactly when its delay was injected now or an earlier request left
    delayApplied set; either way delayApplied is clear afterwards.
   */
  lemma CombinedCall(w: World, f: Fault)
    requires ValidTally(w.tally) && Combined(f)
    ensures var o := FaultStep(w, f);
            && (o.world.tally, o.delayed) == Tick(w.tally, Effective(f.delay.percent))
            && o.error == (if o.delayed || w.delayApplied then Some(InjectingAbortAndDelay) else None)
            && !o.world.delayApplied
            && o.world.abortNeeded == o.error.None?
  {
  }

  /**
    A service whose requests have both parts has its delayed requests aborted, and besides them exactly those that find
    delayApplied left set by another service or an earlier rule, whatever rules the others have.
   */
  lemma {:induction false} CombinedSchedule(p: Package, rs: seq<Request>, key: string)
    requires p.Valid() && OwnCombined(rs, key)
    ensures Aborted(p, rs, key) == Delayed(p, rs, key) + Leftover(p, rs, key)
  {
    if rs != [] {
      var front, r := rs[..|rs| - 1], rs[|rs| - 1];
      OwnSnoc(rs, key, 0);
      CombinedSchedule(p, front, key);
      RunSnoc(p, rs, key);
      hide After, Delayed, Failed, OwnCombined, FaultStep, Combined;
      if r.key == key {
        CombinedCall(After(p, front).Seen(key), r.item);
      }
    }
  }

  /** With both flags set the call is aborted and clears them, uncounted; with abortNeeded alone it does nothing. */
  lemma AbortOnlyCall(w: World, f: Fault)
    requires ValidTally(w.tally) && AbortOnly(f)
    ensures var o := FaultStep(w, f);
            && o.world.abortNeeded == (w.abortNeeded && !w.delayApplied)
            && o.world.delayApplied == (w.delayApplied && !w.abortNeeded)
            && o.world.tally == (if w.abortNeeded then w.tally else Tick(w.tally, Effective(f.abort.percent)).0)
            && (o.error == Some(InjectingAbort) <==>
                  !w.abortNeeded && Tick(w.tally, Effective(f.abort.percent)).1)
            && (o.error == Some(InjectingAbortAndDelay) <==> w.abortNeeded && w.delayApplied)
  {
  }

  /**
    A service whose requests have an abort part only keeps the exact schedule over those of its requests that find
    abortNeeded clear; of the others exactly those that find both flags set are aborted. The flags are as other
    services, with whatever rules, leave them.
   */
  lemma {:induction false} AbortSchedule(p: Package, rs: seq<Request>, key: string, percent: int)
    requires p.Valid() && p.TallyOf(key) == FRESH
    requires 1 <= percent <= 100 && OwnAbort(rs, key, percent)
    ensures OnSchedule(After(p, rs).TallyOf(key), Unblocked(p, rs, key), percent)
    ensures Failed(p, rs, key, InjectingAbort) == Due(Unblocked(p, rs, key), percent)
    ensures Failed(p, rs, key, InjectingAbortAndDelay) == MeetingBoth(p, rs, key)
  {
    if rs == [] {
      DueStep(0, percent);
    } else {
      var front, r := rs[..|rs| - 1], rs[|rs| - 1];
      hide After, Delayed, Failed, Next, Serve, OwnAbort, AbortOnly, Effective, Served, OnSchedule, Due,
           Package.TallyOf;
      OwnSnoc(rs, key, percent);
      AbortSchedule(p, front, key, percent);
      RunSnoc(p, rs, key);
      AbortNext(After(p, front), r, key, percent, Unblocked(p, front, key));
    }
  }

  lemma AbortNext(p: Package, r: Request, key: string, percent: int, n: nat)
    requires p.Valid() && 1 <= percent <= 100 && OnSchedule(p.TallyOf(key), n, percent)
    requires r.key == key ==> AbortOnly(r.item) && Effective(r.item.abort.percent) == percent
    ensures var m := if r.key == key && !p.abortNeeded then n + 1 else n;
            && OnSchedule(Next(p, r).TallyOf(key), m, percent)
            && Due(m, percent) ==
               Due(n, percent) + (if r.key == key && Serve(p, r).error == Some(InjectingAbort) then 1 else 0)
            && (r.key == key ==>
                  (Serve(p, r).error == Some(InjectingAbortAndDelay) <==> p.abortNeeded && p.delayApplied))
  {
    hide Tick, FaultStep, Effective, AbortOnly, Due, OnSchedule;
    if r.key == key {
      AbortOnlyCall(p.Seen(key), r.item);
      if !p.abortNeeded {
        TickOnSchedule(p.TallyOf(key), n, percent);
        DueStep(n, percent);
      }
    }
  }

  // ---------- runs under one kind of rule ----------

  /** The first request of a run is aborted without its delay when an earlier rule left delayApplied set. */
  ghost function Surplus(p: Package, rs: seq<Request>, key: string, percent: int): (n: nat) {
    if p.delayApplied && rs != [] && rs[0].key == key && percent < 100 then 1 else 0
  }

  /** When all services have both parts, delayApplied is clear between requests and only the first can be surplus. */
  lemma {:induction false} AllCombined(p: Package, rs: seq<Request>, key: string, percent: int)
    requires p.Valid() && p.TallyOf(key) == FRESH && 1 <= percent <= 100 && OwnDelay(rs, key, percent)
    requires forall i :: 0 <= i < |rs| ==> Combined(rs[i].item)
    ensures After(p, rs).delayApplied == (rs == [] && p.delayApplied)
    ensures Leftover(p, rs, key) == Surplus(p, rs, key, percent)
  {
    if rs != [] {
      var front, r := rs[..|rs| - 1], rs[|rs| - 1];
      OwnSnoc(rs, key, percent);
      assert forall i :: 0 <= i < |front| ==> front[i] == rs[i];
      AllCombined(p, front, key, percent);
      assert front == [] ==> After(p, front) == p;
      var q := After(p, front);
      assert Leftover(p, rs, key) ==
             Leftover(p, front, key) + if r.key == key && q.delayApplied && !Serve(q, r).delayed then 1 else 0;
      assert Tick(FRESH, percent).1 <==> percent == 100 by { FirstTick(percent); }
      hide After, Leftover, Tick, FaultStep, Combined, OwnDelay, Effective;
      CombinedCall(q.Seen(r.key), r.item);
      RunSnoc(p, rs, key);
    }
  }

  lemma FirstTick(percent: nat)
    requires percent <= 100
    ensures Tick(FRESH, percent).1 <==> percent == 100
  {
    hide Tick, OnSchedule;
    assert OnSchedule(FRESH, 0, percent) by { FreshOnSchedule(percent); }
    TickOnSchedule(FRESH, 0, percent);
  }

  lemma FreshOnSchedule(percent: nat)
    ensures OnSchedule(FRESH, 0, percent)
  {
  }

  /** When all services have a delay part only, delayApplied stays set once a delay was injected. */
  lemma {:induction false} AllDelayOnly(p: Package, rs: seq<Request>, key: string)
    requires p.Valid() && forall i :: 0 <= i < |rs| ==> DelayOnly(rs[i].item)
    ensures Delayed(p, rs, key) > 0 || p.delayApplied ==> After(p, rs).delayApplied
    ensures After(p, rs).abortNeeded == p.abortNeeded
  {
    if rs != [] {
      var front, r := rs[..|rs| - 1], rs[|rs| - 1];
      AllDelayOnly(p, front, key);
      hide FaultStep, DelayOnly;
      DelayOnlyCall(After(p, front).Seen(r.key), r.item);
    }
  }

  lemma DelayOnlyCall(w: World, f: Fault)
    requires ValidTally(w.tally) && DelayOnly(f)
    ensures var o := FaultStep(w, f);
            && o.error == None && o.world.abortNeeded == w.abortNeeded
            && o.world.delayApplied == (w.delayApplied || o.delayed)
  {
  }

  /** Both flags are cleared by the first request under an abort rule, if both are set; otherwise they stay. */
  lemma {:induction false} AbortFlags(p: Package, rs: seq<Request>)
    requires p.Valid() && forall i :: 0 <= i < |rs| ==> AbortOnly(rs[i].item)
    ensures After(p, rs).abortNeeded == (p.abortNeeded && (rs == [] || !p.delayApplied))
    ensures After(p, rs).delayApplied == (p.delayApplied && (rs == [] || !p.abortNeeded))
  {
    if rs != [] {
      var front, r := rs[..|rs| - 1], rs[|rs| - 1];
      AbortFlags(p, front);
      hide FaultStep, AbortOnly;
      AbortOnlyCall(After(p, front).Seen(r.key), r.item);
    }
  }

  /** When all services have an abort part only, the flags p found decide which requests are counted. */
  lemma {:induction false} AllAbortOnly(p: Package, rs: seq<Request>, key: string)
    requires p.Valid() && forall i :: 0 <= i < |rs| ==> AbortOnly(rs[i].item)
    ensures Unblocked(p, rs, key) ==
            if !p.abortNeeded then Served(rs, key)
            else if p.delayApplied && rs != [] then Served(rs[1..], key)
            else 0
    ensures MeetingBoth(p, rs, key) ==
            if p.abortNeeded && p.delayApplied && rs != [] && rs[0].key == key then 1 else 0
  {
    if rs != [] {
      var front, r := rs[..|rs| - 1], rs[|rs| - 1];
      AllAbortOnly(p, front, key);
      AbortFlags(p, front);
      hide After, AbortOnly;
      if front != [] { assert rs[1..][..|rs| - 2] == front[1..]; }
    }
  }

  /** n requests for one key under one rule. */
  ghost function Repeated(r: Request, n: nat): (rs: seq<Request>)
    ensures |rs| == n && forall i :: 0 <= i < n ==> rs[i] == r
    ensures Served(rs, r.key) == n
  {
    if n == 0 then []
    else
      assert (Repeated(r, n - 1) + [r])[..n - 1] == Repeated(r, n - 1);
      Repeated(r, n - 1) + [r]
  }

  lemma RepeatedTail(r: Request, n: nat)
    requires n > 0
    ensures Repeated(r, n)[1..] == Repeated(r, n - 1)
  {
  }

  /** How many of n requests like r are aborted. */
  ghost function AbortedOf(p: Package, r: Request, n: nat): (a: nat)
    requires p.Valid()
  {
    Aborted(p, Repeated(r, n), r.key)
  }

  /** n requests under an abort rule: with both flags set the first is aborted and the schedule starts after it. */
  lemma AbortedByFlags(p: Package, r: Request, percent: int, n: nat)
    requires p.Valid() && p.TallyOf(r.key) == FRESH
    requires AbortOnly(r.item) && percent == Effective(r.item.abort.percent)
    ensures AbortedOf(p, r, n) ==
            if !p.abortNeeded then Due(n, percent)
            else if p.delayApplied && n > 0 then 1 + Due(n - 1, percent)
            else 0
  {
    assert 1 <= percent <= 100;
    hide Due, Failed, AbortOnly;
    DueStep(0, percent);
    AbortSchedule(p, Repeated(r, n), r.key, percent);
    AllAbortOnly(p, Repeated(r, n), r.key);
    if n > 0 { RepeatedTail(r, n); }
  }

  /**
    An abort rule aborts its percentage of every number of requests if and only if abortNeeded is clear when it starts,
    or delayApplied is set too and it aborts every request anyway.
   */
  lemma AbortDeliveredIff(p: Package, r: Request, percent: int)
    requires p.Valid() && p.TallyOf(r.key) == FRESH
    requires AbortOnly(r.item) && percent == Effective(r.item.abort.percent)
    ensures (forall n: nat :: AbortedOf(p, r, n) == Due(n, percent)) <==>
            !p.abortNeeded || (p.delayApplied && percent == 100)
  {
    hide AbortedOf, Due;
    DueMarks(percent);
    if !p.abortNeeded || (p.delayApplied && percent == 100) {
      forall n: nat
        ensures AbortedOf(p, r, n) == Due(n, percent)
      {
        AbortedByFlags(p, r, percent, n);
      }
    } else {
      AbortedByFlags(p, r, percent, 1);
      AbortedByFlags(p, r, percent, 100);
      assert AbortedOf(p, r, 1) != Due(1, percent) || AbortedOf(p, r, 100) != Due(100, percent);
    }
  }

  lemma DueMarks(percent: nat)
    requires 1 <= percent <= 100
    ensures Due(0, percent) == 0 && Due(100, percent) == percent
    ensures percent < 100 ==> Due(1, percent) == 0
    ensures percent == 100 ==> forall n: nat :: Due(n, percent) == n
  {
  }

  // ---------- in terms of the percentage written in the rule ----------

  /** N requests with a delay of percentage p have floor(N * p / 100) delayed, and all of them when p is left at 0. */
  lemma DelayAsConfigured(p: Package, rs: seq<Request>, key: string, percent: int)
    requires p.Valid() && p.TallyOf(key) == FRESH && 0 <= percent <= 100
    requires forall i :: 0 <= i < |rs| && rs[i].key == key ==>
               rs[i].item.delay.percent == percent && rs[i].item.delay.fixedDelay >= 1_000_000
    ensures Delayed(p, rs, key) == if percent == 0 then Served(rs, key) else Served(rs, key) * percent / 100
  {
    hide Delayed, Served;
    DelaySchedule(p, rs, key, Effective(percent));
  }

  /** The same for aborts, when abortNeeded is clear at the start. */
  lemma AbortAsConfigured(p: Package, r: Request, n: nat)
    requires p.Valid() && p.TallyOf(r.key) == FRESH && !p.abortNeeded
    requires r.item.delay == NO_DELAY && 100 <= r.item.abort.httpStatus <= 600 && 0 <= r.item.abort.percent <= 100
    ensures AbortedOf(p, r, n) == if r.item.abort.percent == 0 then n else n * r.item.abort.percent / 100
  {
    hide AbortedOf;
    AbortedByFlags(p, r, Effective(r.item.abort.percent), n);
  }

  // ---------- how the flags come to be set ----------

  const NEW := Package(map[], false, false)
  const HALF_COMBINED := Fault(Abort(50, 500), Delay(50, MILLISECOND))
  const ALWAYS_DELAY := Fault(NO_ABORT, Delay(100, MILLISECOND))

  /** An undelayed request of service a under a combined rule silences the abort rule of service b, whatever it says. */
  lemma AbortRuleSilenced(abort: Abort, n: nat)
    requires CheckAbort(abort) == None
    ensures var p := After(NEW, [Keyed("a", HALF_COMBINED)]);
            p.abortNeeded && !p.delayApplied &&
            AbortedOf(p, Keyed("b", Fault(abort, NO_DELAY)), n) == 0
  {
    var r: Request := Keyed("a", HALF_COMBINED);
    assert [r][..0] == [] && After(NEW, []) == NEW;
    assert Tick(FRESH, 50).1 == false;
    var p := After(NEW, [r]);
    assert p == Next(NEW, r);
    AbortedByFlags(p, Keyed("b", Fault(abort, NO_DELAY)), Effective(abort.percent), n);
  }

  /** A delay injected for service a makes service b abort its first request, which was not delayed. */
  lemma UndelayedAbort()
    ensures var p := After(NEW, [Keyed("a", ALWAYS_DELAY)]);
            var rs: seq<Request> := [Keyed("b", HALF_COMBINED)];
            p.delayApplied && Delayed(p, rs, "b") == 0 && Aborted(p, rs, "b") == 1
  {
    var r: Request := Keyed("a", ALWAYS_DELAY);
    assert [r][..0] == [] && After(NEW, []) == NEW;
    assert Tick(FRESH, 100).1;
    var p := After(NEW, [r]);
    assert p == Next(NEW, r);
    var rs: seq<Request> := [Keyed("b", HALF_COMBINED)];
    assert Served(rs, "b") == 1 by { assert rs[..0] == []; }
    DelaySchedule(p, rs, "b", 50);
    CombinedSchedule(p, rs, "b");
    AllCombined(p, rs, "b", 50);
  }
}
