/**
  What becomes of a key whose percentage is changed to q after n calls. The counters are never reset (StorePercent),
  so the failures counted under earlier percentages are compared with the quota of q.
 */
module FaultChange {
  import opened Base
  import opened FaultInjection

  /** The counters after k more calls with percentage q. */
  ghost function Ticks(t: Tally, q: nat, k: nat): (r: Tally)
    requires ValidTally(t)
    ensures ValidTally(r)
    decreases k
  {
    if k == 0 then t else Ticks(Tick(t, q).0, q, k - 1)
  }

  ghost predicate InjectsAt(t: Tally, q: nat, k: nat)
    requires ValidTally(t)
  {
    Tick(Ticks(t, q, k), q).1
  }

  /** Call n + k + 1, the one after k more calls, is due. */
  ghost predicate DueAt(q: nat, n: nat, k: nat) {
    Due(n + k + 1, q) > Due(n + k, q)
  }

  /** From some call on, q is delivered: exactly the calls that are due inject. */
  ghost predicate DeliveredAgain(t: Tally, n: nat, q: nat)
    requires ValidTally(t)
  {
    exists k: nat :: DeliveredFrom(t, n, q, k)
  }

  ghost predicate DeliveredFrom(t: Tally, n: nat, q: nat, k: nat)
    requires ValidTally(t)
  {
    forall m: nat :: m >= k ==> (InjectsAt(t, q, m) <==> DueAt(q, n, m))
  }

  lemma {:induction false} TicksAdd(t: Tally, q: nat, j: nat, k: nat)
    requires ValidTally(t)
    ensures Ticks(t, q, j + k) == Ticks(Ticks(t, q, j), q, k)
    decreases j
  {
    hide Tick;
    if j > 0 { TicksAdd(Tick(t, q).0, q, j - 1, k); }
  }

  // ---------- back on schedule ----------

  lemma {:induction false} StaysOnSchedule(t: Tally, n: nat, q: nat, k: nat)
    requires q <= 100 && OnSchedule(t, n, q)
    ensures OnSchedule(Ticks(t, q, k), n + k, q) && (InjectsAt(t, q, k) <==> DueAt(q, n, k))
    decreases k
  {
    assert ValidTally(t);
    hide Tick, Due, OnSchedule;
    TickOnSchedule(t, n, q);
    if k > 0 { StaysOnSchedule(Tick(t, q).0, n + 1, q, k - 1); }
  }

  lemma OnScheduleDelivers(t: Tally, n: nat, q: nat, k: nat)
    requires ValidTally(t) && q <= 100 && OnSchedule(Ticks(t, q, k), n + k, q)
    ensures DeliveredFrom(t, n, q, k)
  {
    hide Tick, Due, OnSchedule, Ticks;
    forall m: nat | m >= k
      ensures InjectsAt(t, q, m) <==> DueAt(q, n, m)
    {
      TicksAdd(t, q, k, m - k);
      assert Ticks(t, q, m) == Ticks(Ticks(t, q, k), q, m - k) by { assert k + (m - k) == m; }
      StaysOnSchedule(Ticks(t, q, k), n + k, q, m - k);
      assert n + k + (m - k) == n + m;
    }
  }

  /** The counters after n >= 1 calls, with f failures counted. */
  ghost predicate Counted(t: Tally, n: nat, f: nat) {
    n >= 1 && f >= 1 && t.invoked == Some(n + 1) && t.fault == Some(f) && (t.initial == None || t.initial == Some(1))
  }

  /** One call while the failures counted are not those of the quota. */
  lemma OffQuota(t: Tally, n: nat, f: nat, q: nat)
    requires Counted(t, n, f) && f != Due(n + 1, q)
    ensures Tick(t, q).1 <==> Due(n + 1, q) > 1
    ensures Counted(Tick(t, q).0, n + 1, if Due(n + 1, q) > 1 then f + 1 else f)
  {
    hide Due;
  }

  /** Once the failures counted are those of the quota, the call puts the key back on schedule. */
  lemma AtQuota(t: Tally, n: nat, f: nat, q: nat)
    requires Counted(t, n, f) && f == Due(n + 1, q)
    ensures OnSchedule(Tick(t, q).0, n + 1, q)
  {
    hide Due;
  }

  lemma QuotaBy200(n: nat, q: nat)
    requires 1 <= q && n >= 200
    ensures Due(n, q) >= 2
  {
    assert n * q >= 200 by { MulOrder(1, q, n); }
  }

  lemma Gap(n: nat, f: nat, q: nat)
    requires f < Due(n + 1, q)
    ensures 100 * f < (n + 1) * q
  {
  }

  lemma GapStep(n: nat, f: nat, q: nat)
    requires q < 100
    ensures (n + 2) * q - 100 * (f + 1) < (n + 1) * q - 100 * f
  {
  }

  /** Failures at most the quota, or at most 2, meet the quota in time: it catches up with them, or they with it. */
  lemma {:induction false} Recovers(t: Tally, n: nat, f: nat, q: nat) returns (k: nat)
    requires Counted(t, n, f) && 1 <= q < 100 && (f <= 2 || f <= Due(n + 1, q))
    ensures OnSchedule(Ticks(t, q, k), n + k, q)
    decreases f > Due(n + 1, q), if f > Due(n + 1, q) then 200 - n else (n + 1) * q - 100 * f
  {
    hide Tick, OnSchedule, Due;
    DueStep(n + 1, q);
    var u := Tick(t, q).0;
    if f == Due(n + 1, q) {
      AtQuota(t, n, f, q);
      k := 1;
      assert Ticks(t, q, 1) == Ticks(u, q, 0) == u;
    } else {
      OffQuota(t, n, f, q);
      if f > Due(n + 1, q) {
        if n >= 199 { QuotaBy200(n + 1, q); }
        k := Recovers(u, n + 1, f, q);
      } else {
        Gap(n, f, q);
        GapStep(n, f, q);
        k := Recovers(u, n + 1, f + 1, q);
      }
      k := k + 1;
      assert n + 1 + (k - 1) == n + k;
    }
  }

  /** At 100 percent every call injects, and every call is due. */
  lemma {:induction false} AlwaysInjects(t: Tally, n: nat, f: nat, k: nat)
    requires Counted(t, n, f) && f <= n
    ensures InjectsAt(t, 100, k)
    decreases k
  {
    hide Tick;
    OffQuota(t, n, f, 100);
    if k > 0 { AlwaysInjects(Tick(t, 100).0, n + 1, f + 1, k - 1); }
  }

  // ---------- never again ----------

  /** Failures ahead of the quota, and of 2, stay ahead of it, and every call injects once the quota is above 1. */
  lemma {:induction false} RunsAway(t: Tally, n: nat, f: nat, q: nat, k: nat)
    requires Counted(t, n, f) && q <= 100 && f > 2 && f > Due(n + 1, q)
    ensures Due(n + k + 1, q) > 1 ==> InjectsAt(t, q, k)
    decreases k
  {
    hide Tick, Due;
    OffQuota(t, n, f, q);
    DueStep(n + 1, q);
    if k > 0 {
      RunsAway(Tick(t, q).0, n + 1, if Due(n + 1, q) > 1 then f + 1 else f, q, k - 1);
      assert n + 1 + (k - 1) + 1 == n + k + 1;
    }
  }

  /** Below 100 percent, some call after any other is not due. */
  lemma SomeNotDue(n: nat, k: nat, q: nat) returns (m: nat)
    requires q < 100
    ensures m >= k && n + m >= 200 && !DueAt(q, n, m)
  {
    m := 100 * (n + k + 2) - n;
    var h := n + k + 2;
    assert (100 * h) * q == 100 * (h * q);
    assert (100 * h + 1) * q == 100 * (h * q) + q;
  }

  lemma AheadNotDelivered(t: Tally, n: nat, f: nat, q: nat)
    requires Counted(t, n, f) && 1 <= q < 100 && f > 2 && f > Due(n + 1, q)
    ensures !DeliveredAgain(t, n, q)
  {
    hide Tick, Due, Ticks, DueAt, InjectsAt;
    forall k: nat
      ensures !DeliveredFrom(t, n, q, k)
    {
      var m := SomeNotDue(n, k, q);
      QuotaBy200(n + m + 1, q);
      RunsAway(t, n, f, q, m);
    }
  }

  // ---------- the exact condition ----------

  /** Every call for key has a percentage as rules can have it. */
  ghost predicate ValidPercents(calls: seq<Call>, key: string) {
    forall i :: 0 <= i < |calls| && calls[i].key == key ==> 1 <= calls[i].item <= 100
  }

  /** Whatever the percentages were, a key has at least one failure counted, and no more than calls. */
  lemma {:induction false} AnyHistory(calls: seq<Call>, key: string)
    requires ValidPercents(calls, key)
    ensures var t, n := TallyAfter(calls, key), Served(calls, key);
            if n == 0 then t == FRESH else t.fault.Some? && 1 <= t.fault.value <= n && Counted(t, n, t.fault.value)
  {
    if calls != [] {
      var front, last := calls[..|calls| - 1], calls[|calls| - 1];
      assert ValidPercents(front, key) by { assert forall i :: 0 <= i < |front| ==> front[i] == calls[i]; }
      AnyHistory(front, key);
      if last.key == key {
        HistoryTick(TallyAfter(front, key), Served(front, key), last.item);
      }
    }
  }

  lemma HistoryTick(t: Tally, n: nat, q: nat)
    requires 1 <= q <= 100
    requires if n == 0 then t == FRESH else t.fault.Some? && 1 <= t.fault.value <= n && Counted(t, n, t.fault.value)
    ensures var u := Tick(t, q).0; u.fault.Some? && 1 <= u.fault.value <= n + 1 && Counted(u, n + 1, u.fault.value)
  {
    if n == 0 {
      assert Due(1, q) <= 1;
    }
    hide Due;
  }

  /**
    After any calls with any percentages, however the keys interleave, a key delivers a new percentage q from some call
    on, if and only if the failures counted so far are at most 2 or at most the quota of q at the next call. Otherwise
    every call injects for good, as soon as the quota of q is above 1.
   */
  lemma ChangedPercentIff(calls: seq<Call>, key: string, q: nat)
    requires 1 <= q <= 100 && ValidPercents(calls, key)
    ensures var t, n := TallyAfter(calls, key), Served(calls, key);
            && (DeliveredAgain(t, n, q) <==> OrZero(t.fault) <= 2 || OrZero(t.fault) <= Due(n + 1, q))
            && (!DeliveredAgain(t, n, q) ==> forall k: nat :: Due(n + k + 1, q) > 1 ==> InjectsAt(t, q, k))
  {
    var t, n := TallyAfter(calls, key), Served(calls, key);
    AnyHistory(calls, key);
    hide Tick, Due, Ticks, OnSchedule, InjectsAt, DeliveredFrom, TallyAfter, Served, ValidPercents;
    if n == 0 {
      assert OnSchedule(Ticks(t, q, 0), 0, q) by { FreshStart(q); }
      OnScheduleDelivers(t, 0, q, 0);
    } else {
      CountedIff(t, n, t.fault.value, q);
    }
  }

  lemma FreshStart(q: nat)
    ensures OnSchedule(Ticks(FRESH, q, 0), 0, q)
  {
  }

  lemma CountedIff(t: Tally, n: nat, f: nat, q: nat)
    requires Counted(t, n, f) && f <= n && 1 <= q <= 100
    ensures DeliveredAgain(t, n, q) <==> f <= 2 || f <= Due(n + 1, q)
    ensures !DeliveredAgain(t, n, q) ==> forall k: nat :: Due(n + k + 1, q) > 1 ==> InjectsAt(t, q, k)
  {
    assert q == 100 ==> Due(n + 1, q) == n + 1;
    hide Tick, Due, Ticks, OnSchedule, InjectsAt, DeliveredFrom;
    if q == 100 {
      AlwaysDelivers(t, n, f);
    } else if f <= 2 || f <= Due(n + 1, q) {
      var k := Recovers(t, n, f, q);
      OnScheduleDelivers(t, n, q, k);
    } else {
      AheadNotDelivered(t, n, f, q);
      forall k: nat | Due(n + k + 1, q) > 1
        ensures InjectsAt(t, q, k)
      {
        RunsAway(t, n, f, q, k);
      }
    }
  }

  lemma AlwaysDelivers(t: Tally, n: nat, f: nat)
    requires Counted(t, n, f) && f <= n
    ensures DeliveredFrom(t, n, 100, 0)
  {
    hide Tick, Ticks, InjectsAt;
    forall m: nat
      ensures InjectsAt(t, 100, m) <==> DueAt(100, n, m)
    {
      AlwaysInjects(t, n, f, m);
    }
  }

  /** One change, after n calls of one percentage p: the failures counted are the quota of p. */
  lemma OneChangeIff(calls: seq<Call>, key: string, p: nat, q: nat)
    requires 1 <= p <= 100 && 1 <= q <= 100
    requires forall i :: 0 <= i < |calls| && calls[i].key == key ==> calls[i].item == p
    ensures var n := Served(calls, key);
            DeliveredAgain(TallyAfter(calls, key), n, q) <==> Due(n, p) <= 2 || Due(n, p) <= Due(n + 1, q)
  {
    ExactSchedule(calls, key, p);
    hide DeliveredAgain, TallyAfter, Served, Tick;
    ChangedPercentIff(calls, key, q);
  }

  /** After 100 calls at 50 percent, a change to 10 percent makes every call inject, for good. */
  lemma LoweredInjectsAlways(calls: seq<Call>, key: string, k: nat)
    requires Served(calls, key) == 100
    requires forall i :: 0 <= i < |calls| && calls[i].key == key ==> calls[i].item == 50
    ensures InjectsAt(TallyAfter(calls, key), 10, k) && !DeliveredAgain(TallyAfter(calls, key), 100, 10)
  {
    assert Due(100, 50) == 50 && Due(101, 10) == 10 && Due(100 + k + 1, 10) >= 10;
    hide DeliveredAgain, InjectsAt, TallyAfter, Served, Due;
    OneChangeIff(calls, key, 50, 10);
    ChangedPercentIff(calls, key, 10);
  }
}
