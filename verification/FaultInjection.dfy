/**
  The fault injector of core/fault/fault_injection.go.

  Three counters per key decide when a delay or an abort is injected. Tally is one key's counters and Tick is what one
  call of ApplyFaultInjection does to them; FaultInjector is the package state, all keys and the two process-wide flags.
 */
module FaultInjection {
  import opened Base

  // ---------- one key's counters ----------

  /** None is a key the sync.Map does not hold. */
  datatype Tally = Tally(fault: Option<int>, initial: Option<int>, invoked: Option<int>)

  const FRESH := Tally(None, None, None)

  function OrZero(x: Option<int>): int {
    if x.Some? then x.value else 0
  }

  /** calculatePercentage: the quota of n calls, and how many faults an exact schedule has injected after them. */
  function Due(n: nat, percent: nat): (d: nat) {
    n * percent / 100
  }

  ghost predicate ValidTally(t: Tally) {
    t.invoked.Some? ==> t.invoked.value >= 0
  }

  /** The number of the call; a key's first call is counted as a failure in advance. */
  function CallNumber(t: Tally): (count: int) {
    if t.invoked.Some? then t.invoked.value else 1
  }

  function CountCall(t: Tally): (r: Tally) {
    if CallNumber(t) == 1 then t.(fault := Some(OrZero(t.fault) + 1)) else t
  }

  /** Inject when the percentage has just caught up with the counted failures, or gone past them. */
  function Decision(t: Tally, percentage: nat): (r: (Tally, bool)) {
    if t.fault == Some(percentage) && OrZero(t.initial) != 1 then (t.(initial := Some(OrZero(t.initial) + 1)), true)
    else if t.fault != Some(percentage) && percentage > 1 then (t.(fault := Some(OrZero(t.fault) + 1)), true)
    else (t, false)
  }

  /** One call of ApplyFaultInjection: the new counters and whether it injects. */
  function Tick(t: Tally, percent: nat): (r: (Tally, bool))
    requires ValidTally(t)
    ensures ValidTally(r.0)
  {
    var count := CallNumber(t);
    var (d, injected) := Decision(CountCall(t), Due(count, percent));
    (d.(invoked := Some(count + 1)), injected)
  }

  lemma DueStep(n: nat, percent: nat)
    requires percent <= 100
    ensures Due(n, percent) <= Due(n + 1, percent) <= Due(n, percent) + 1
    ensures Due(0, percent) == 0
  {
  }

  /** After n calls at a fixed percentage: the invariant behind the odd branching. */
  ghost predicate OnSchedule(t: Tally, n: nat, percent: nat) {
    if n == 0 then t == FRESH
    else
      && t.invoked == Some(n + 1)
      && if Due(n, percent) == 0 then t.fault == Some(1) && t.initial == None
         else t.fault == Some(Due(n, percent)) && t.initial == Some(1)
  }

  /** Call n + 1 injects exactly when the schedule falls due, and the counters stay on schedule. */
  lemma TickOnSchedule(t: Tally, n: nat, percent: nat)
    requires percent <= 100 && OnSchedule(t, n, percent)
    ensures OnSchedule(Tick(t, percent).0, n + 1, percent)
    ensures Tick(t, percent).1 <==> Due(n + 1, percent) > Due(n, percent)
  {
  }

  // ---------- interleaved keys ----------

  /** Something that happens to one key: a call with its percentage, or a request with its rule. */
  datatype Keyed<T> = Keyed(key: string, item: T)

  type Call = Keyed<nat>

  /** How many of them happen to key. */
  ghost function Served<T>(xs: seq<Keyed<T>>, key: string): (n: nat) {
    if xs == [] then 0 else Served(xs[..|xs| - 1], key) + if xs[|xs| - 1].key == key then 1 else 0
  }

  ghost function TallyAfter(calls: seq<Call>, key: string): (t: Tally)
    ensures ValidTally(t)
  {
    if calls == [] then FRESH
    else
      var last, t := calls[|calls| - 1], TallyAfter(calls[..|calls| - 1], key);
      if last.key == key then Tick(t, last.item).0 else t
  }

  /** How many of the calls for key injected a fault. */
  ghost function Injected(calls: seq<Call>, key: string): (n: nat) {
    if calls == [] then 0
    else
      var front, last := calls[..|calls| - 1], calls[|calls| - 1];
      Injected(front, key) +
      if last.key == key && Tick(TallyAfter(front, key), last.item).1 then 1 else 0
  }

  /**
    The exact schedule: however calls for different keys interleave, a key always called with the same percentage p in
    0..100 has had exactly floor(N * p / 100) faults injected in its N calls.
   */
  lemma {:induction false} ExactSchedule(calls: seq<Call>, key: string, percent: nat)
    requires percent <= 100
    requires forall i :: 0 <= i < |calls| && calls[i].key == key ==> calls[i].item == percent
    ensures Injected(calls, key) == Served(calls, key) * percent / 100
    ensures OnSchedule(TallyAfter(calls, key), Served(calls, key), percent)
  {
    if calls != [] {
      var front, last := calls[..|calls| - 1], calls[|calls| - 1];
      assert forall i :: 0 <= i < |front| ==> front[i] == calls[i];
      ExactSchedule(front, key, percent);
      DueStep(Served(front, key), percent);
      if last.key == key {
        TickOnSchedule(TallyAfter(front, key), Served(front, key), percent);
      }
    }
  }

  // ---------- rules ----------

  datatype Delay = Delay(percent: int, fixedDelay: int)

  datatype Abort = Abort(percent: int, httpStatus: int)

  datatype Fault = Fault(abort: Abort, delay: Delay)

  datatype FaultError =
    | InvalidStatus
    | InvalidAbortPercent
    | InvalidDelayPercent
    | InvalidDuration
    | InjectingAbort
    | InjectingAbortAndDelay

  const DEFAULT_PERCENT := 100
  const MILLISECOND := 1_000_000
  const NO_DELAY := Delay(0, 0)
  const NO_ABORT := Abort(0, 0)

  function CheckAbort(a: Abort): (e: Option<FaultError>)
    ensures e == None <==> 100 <= a.httpStatus <= 600 && 0 <= a.percent <= 100
  {
    if a.httpStatus < 100 || a.httpStatus > 600 then Some(InvalidStatus)
    else if a.percent < 0 || a.percent > 100 then Some(InvalidAbortPercent)
    else None
  }

  function CheckDelay(d: Delay): (e: Option<FaultError>)
    ensures e == None <==> d.fixedDelay >= MILLISECOND && 0 <= d.percent <= 100
  {
    if d.percent < 0 || d.percent > 100 then Some(InvalidDelayPercent)
    else if d.fixedDelay < MILLISECOND then Some(InvalidDuration)
    else None
  }

  /** An unset percentage means always. */
  function Effective(percent: int): (p: int)
    ensures 0 <= percent <= 100 ==> 1 <= p <= 100
  {
    if percent == 0 then DEFAULT_PERCENT else percent
  }

  // ---------- one call, as one key sees it ----------

  datatype World = World(tally: Tally, abortNeeded: bool, delayApplied: bool)

  /** delayed says whether the delay was injected in this call. */
  datatype Outcome = Outcome(world: World, error: Option<FaultError>, delayed: bool)

  ghost function DelayPart(w: World, f: Fault): (o: Outcome)
    requires ValidTally(w.tally)
    ensures ValidTally(o.world.tally)
  {
    if f.delay == NO_DELAY then Outcome(w, None, false)
    else if CheckDelay(f.delay).Some? then Outcome(w, CheckDelay(f.delay), false)
    else
      var (t, injected) := Tick(w.tally, Effective(f.delay.percent));
      Outcome(World(t, w.abortNeeded || f.abort != NO_ABORT, w.delayApplied || injected), None, injected)
  }

  ghost function AbortPart(w: World, f: Fault, delayed: bool): (o: Outcome)
    requires ValidTally(w.tally)
    ensures ValidTally(o.world.tally)
  {
    if f.abort == NO_ABORT then Outcome(w, None, delayed)
    else if CheckAbort(f.abort).Some? then Outcome(w, CheckAbort(f.abort), delayed)
    else if w.abortNeeded && w.delayApplied then
      Outcome(World(w.tally, false, false), Some(InjectingAbortAndDelay), delayed)
    else if !w.abortNeeded then
      var (t, injected) := Tick(w.tally, Effective(f.abort.percent));
      Outcome(World(t, w.abortNeeded, w.delayApplied), if injected then Some(InjectingAbort) else None, delayed)
    else Outcome(w, None, delayed)
  }

  ghost function FaultStep(w: World, f: Fault): (o: Outcome)
    requires ValidTally(w.tally)
    ensures ValidTally(o.world.tally)
  {
    var d := DelayPart(w, f);
    if d.error.Some? then d else AbortPart(d.world, f, d.delayed)
  }

  /** A rule with neither part set does nothing at all. */
  lemma UnsetRule(w: World)
    requires ValidTally(w.tally)
    ensures FaultStep(w, Fault(Abort(0, 0), Delay(0, 0))) == Outcome(w, None, false)
  {
  }

  /** A rule whose delay is set but out of range is an error and counts for nothing. */
  lemma InvalidDelayRefused(w: World, f: Fault)
    requires ValidTally(w.tally) && (f.delay.percent != 0 || f.delay.fixedDelay != 0)
    requires !(0 <= f.delay.percent <= 100) || f.delay.fixedDelay < 1_000_000
    ensures var o := FaultStep(w, f);
            o.world == w && !o.delayed && (o.error == Some(InvalidDelayPercent) || o.error == Some(InvalidDuration))
  {
  }

  /** So is one whose abort is set but out of range, once a delay part, if there is one, has been seen to. */
  lemma InvalidAbortRefused(w: World, f: Fault)
    requires ValidTally(w.tally) && (f.abort.percent != 0 || f.abort.httpStatus != 0)
    requires !(0 <= f.abort.percent <= 100) || !(100 <= f.abort.httpStatus <= 600)
    requires DelayPart(w, f).error == None
    ensures var o := FaultStep(w, f);
            o.world == DelayPart(w, f).world && (o.error == Some(InvalidStatus) || o.error == Some(InvalidAbortPercent))
  {
    hide Tick;
  }

  // ---------- the package state ----------

  datatype FaultType = DelayFault | AbortFault

  class FaultInjector {
    var faultKeyCount: map<string, int>
    var initialKeyCount: map<string, int>
    var invokedCount: map<string, int>
    var percenStore: map<string, int>
    var abortNeeded: bool
    var delayApplied: bool

    constructor ()
      ensures Valid() && forall key :: Counters(key) == FRESH
      ensures !abortNeeded && !delayApplied && percenStore == map[]
    {
      faultKeyCount, initialKeyCount, invokedCount, percenStore := map[], map[], map[], map[];
      abortNeeded, delayApplied := false, false;
    }

    ghost predicate Valid()
      reads this
    {
      forall key :: key in invokedCount ==> invokedCount[key] >= 1 && key in faultKeyCount
    }

    ghost function Counters(key: string): (t: Tally)
      reads this
    {
      Tally(Lookup(faultKeyCount, key), Lookup(initialKeyCount, key), Lookup(invokedCount, key))
    }

    /** No other key's counters have moved. */
    twostate predicate OthersKept(key: string)
      reads this
    {
      && faultKeyCount - {key} == old(faultKeyCount) - {key}
      && initialKeyCount - {key} == old(initialKeyCount) - {key}
      && invokedCount - {key} == old(invokedCount) - {key}
    }

    ghost function Seen(key: string): (w: World)
      reads this
    {
      World(Counters(key), abortNeeded, delayApplied)
    }

    method ApplyFaultInjection(key: string, configuredPercent: nat, faultType: FaultType)
      returns (err: Option<FaultError>, ghost injected: bool)
      requires Valid()
      modifies this
      ensures Valid()
      ensures (Counters(key), injected) == Tick(old(Counters(key)), configuredPercent)
      ensures OthersKept(key)
      ensures abortNeeded == old(abortNeeded)
      ensures delayApplied == (old(delayApplied) || (injected && faultType.DelayFault?))
      ensures err == if injected && faultType.AbortFault? then Some(InjectingAbort) else None
      ensures percenStore.Keys == old(percenStore.Keys)
    {
      hide Due, CountCall, Decision;
      StorePercent(key, configuredPercent);
      var count := CountFault(key);
      err, injected := Decide(key, Due(count, configuredPercent), faultType);
      IncrementKeyCount(key, count + 1);
    }

    /**
      A stored percentage is overwritten before it is compared with the configured one, so it never counts as changed
      and the reset of the counters never happens; a key not stored stays so.
     */
    method StorePercent(key: string, configuredPercent: nat)
      requires Valid()
      modifies this`percenStore, this`faultKeyCount, this`initialKeyCount, this`invokedCount
      ensures Valid() && Counters(key) == old(Counters(key)) && OthersKept(key)
      ensures percenStore.Keys == old(percenStore.Keys)
      ensures key in percenStore ==> percenStore[key] == configuredPercent
    {
      if key in percenStore {
        percenStore := percenStore[key := configuredPercent];
      }
      var changed := key in percenStore && configuredPercent != percenStore[key];
      ResetIf(changed, key, configuredPercent);
    }

    /** resetFaultKeyCount, and the new percentage stored, when it has changed. */
    method ResetIf(changed: bool, key: string, configuredPercent: nat)
      requires Valid()
      modifies this`percenStore, this`faultKeyCount, this`initialKeyCount, this`invokedCount
      ensures Valid() && OthersKept(key)
      ensures Counters(key) == if changed then FRESH else old(Counters(key))
      ensures percenStore == if changed then old(percenStore)[key := configuredPercent] else old(percenStore)
    {
      if changed {
        faultKeyCount, initialKeyCount := faultKeyCount - {key}, initialKeyCount - {key};
        invokedCount := invokedCount - {key};
        percenStore := percenStore[key := configuredPercent];
      }
    }

    method Decide(key: string, percentage: nat, faultType: FaultType)
      returns (err: Option<FaultError>, ghost injected: bool)
      requires Valid() && key in faultKeyCount
      modifies this`initialKeyCount, this`faultKeyCount, this`delayApplied
      ensures Valid() && key in faultKeyCount && OthersKept(key)
      ensures (Counters(key), injected) == Decision(old(Counters(key)), percentage)
      ensures delayApplied == (old(delayApplied) || (injected && faultType.DelayFault?))
      ensures err == if injected && faultType.AbortFault? then Some(InjectingAbort) else None
    {
      var failureCount := faultKeyCount[key];
      var initialCount := if key in initialKeyCount then initialKeyCount[key] else 0;
      if percentage == failureCount && initialCount != 1 {
        initialKeyCount := initialKeyCount[key := initialCount + 1];
        injected := true;
        err := InjectFault(faultType);
      } else if percentage != failureCount && percentage > 1 {
        faultKeyCount := faultKeyCount[key := failureCount + 1];
        injected := true;
        err := InjectFault(faultType);
      } else {
        injected := false;
        err := None;
      }
    }

    method CountFault(key: string) returns (count: nat)
      requires Valid()
      modifies this`faultKeyCount
      ensures Valid() && key in faultKeyCount && OthersKept(key)
      ensures count == CallNumber(old(Counters(key))) && Counters(key) == CountCall(old(Counters(key)))
    {
      if key !in invokedCount {
        count := 1;
        if key in faultKeyCount {
          faultKeyCount := faultKeyCount[key := faultKeyCount[key] + 1];
        } else {
          faultKeyCount := faultKeyCount[key := 1];
        }
      } else {
        count := invokedCount[key];
        if count == 1 {
          faultKeyCount := faultKeyCount[key := faultKeyCount[key] + 1];
        }
      }
    }

    method IncrementKeyCount(key: string, count: nat)
      requires Valid() && key in faultKeyCount && count >= 1
      modifies this`invokedCount
      ensures Valid() && OthersKept(key) && Counters(key) == old(Counters(key)).(invoked := Some(count))
    {
      invokedCount := invokedCount[key := count];
    }

    method InjectFault(faultType: FaultType) returns (err: Option<FaultError>)
      modifies this`delayApplied
      ensures delayApplied == (old(delayApplied) || faultType.DelayFault?)
      ensures err == if faultType.AbortFault? then Some(InjectingAbort) else None
    {
      if faultType.DelayFault? {
        delayApplied := true;
      }
      err := if faultType.AbortFault? then Some(InjectingAbort) else None;
    }

    method ValidateAndApplyFault(fault: Fault, key: string)
      returns (err: Option<FaultError>, ghost delayed: bool)
      requires Valid()
      modifies this
      ensures Valid()
      ensures Outcome(Seen(key), err, delayed) == FaultStep(old(Seen(key)), fault)
      ensures OthersKept(key)
    {
      delayed := false;
      if fault.delay != NO_DELAY {
        err := CheckDelay(fault.delay);
        if err.Some? {
          return;
        }
        if fault.abort != NO_ABORT {
          abortNeeded := true;
        }
        err, delayed := ApplyFaultInjection(key, Effective(fault.delay.percent), DelayFault);
        if err.Some? {
          return;
        }
      }
      if fault.abort != NO_ABORT {
        err := CheckAbort(fault.abort);
        if err.Some? {
          return;
        }
        if abortNeeded && delayApplied {
          abortNeeded := false;
          delayApplied := false;
          return Some(InjectingAbortAndDelay), delayed;
        }
        if !abortNeeded {
          ghost var aborted;
          err, aborted := ApplyFaultInjection(key, Effective(fault.abort.percent), AbortFault);
          return;
        }
      }
      err := None;
    }
  }

  function Lookup(m: map<string, int>, key: string): (v: Option<int>) {
    if key in m then Some(m[key]) else None
  }
}
