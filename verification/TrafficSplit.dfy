/**
  FitRate of core/router/router.go: the share of traffic each route tag of a rule receives over a whole run of
  requests to one service, counting the first request (answered without the pool) and the pool's warm-up.
 */
module TrafficSplit {
  import opened Base
  import opened Gcds
  import opened RouteModel
  import opened WeightPool
  import opened WeightFairness
  import opened WeightScaling

  // ---------- FitRate on values ----------

  datatype FitState = NoPool | Pooled(wheel: Wheel, hand: Hand)

  ghost predicate ValidState(s: FitState) {
    s.Pooled? ==> Sound(s.wheel) && ValidHand(s.wheel, s.hand)
  }

  /** One request: the next state and the index of the answered tag. */
  ghost function FitStep(s: FitState, ws: seq<int>): (r: (FitState, nat))
    requires |ws| > 0 && ValidState(s)
    ensures ValidState(r.0)
  {
    if ws[0] == 100 then (s, 0)
    else
      NewWheelSound(ws);
      match s
      case NoPool => (Pooled(NewWheel(ws), START), 0)
      case Pooled(w, h) => (Pooled(w, NextHand(w, h)), NextTag(w, h))
  }

  ghost function StateAfter(ws: seq<int>, n: nat): (s: FitState)
    requires |ws| > 0
    ensures ValidState(s)
  {
    if n == 0 then NoPool else FitStep(StateAfter(ws, n - 1), ws).0
  }

  /** The tags answered to the first n requests of a service whose rule has weights ws. */
  ghost function FitAnswers(ws: seq<int>, n: nat): (tags: seq<nat>)
    requires |ws| > 0
    ensures |tags| == n
  {
    if n == 0 then [] else FitAnswers(ws, n - 1) + [FitStep(StateAfter(ws, n - 1), ws).1]
  }

  // ---------- the pools of all services ----------

  class SafePool {
    var pool: map<string, Pool>

    ghost predicate Valid()
      reads this, pool.Values
    {
      && (forall k :: k in pool ==> pool[k].Valid() && pool[k].num > 0 && pool[k].max > 0)
      && (forall j, k :: j in pool && k in pool && j != k ==> pool[j] != pool[k])
    }

    ghost function State(dest: string): (s: FitState)
      requires Valid()
      reads this, pool.Values
      ensures ValidState(s)
    {
      if dest in pool then Pooled(pool[dest].View(), pool[dest].Position()) else NoPool
    }

    ghost function TagsOf(dest: string): (tags: seq<RouteTag>)
      reads this, pool.Values
    {
      if dest in pool then pool[dest].tags else []
    }

    constructor ()
      ensures Valid() && pool == map[]
    {
      pool := map[];
    }

    method Set(key: string, value: Pool)
      requires Valid() && value.Valid() && value.num > 0 && value.max > 0
      requires value !in pool.Values
      modifies this
      ensures pool == old(pool)[key := value] && Valid()
    {
      pool := pool[key := value];
    }

    /** A changed rule drops the pool of its service, so the next request starts over. */
    method Reset(key: string)
      requires Valid()
      modifies this
      ensures Valid() && State(key) == NoPool
      ensures forall k :: k != key ==> State(k) == old(State(k))
    {
      pool := pool - {key};
    }
  }

  /** What one request is answered, and which tags the pool of its service has before and after it. */
  ghost predicate Fits(tags: seq<RouteTag>, s: FitState, was: seq<RouteTag>, now: seq<RouteTag>, tag: Option<RouteTag>)
    requires |tags| > 0 && ValidState(s)
  {
    if tags[0].weight == 100 then now == was && tag == Some(tags[0])
    else if s.NoPool? then now == PoolTags(tags) && tag == Some(tags[0])
    else
      var k := FitStep(s, Weights(tags)).1;
      now == was && k < |was| && tag == Some(was[k])
  }

  /** Every service moves by FitStep on its own state; no other service's state moves. */
  method FitRate(tags: seq<RouteTag>, dest: string, pools: SafePool) returns (tag: Option<RouteTag>)
    requires |tags| > 0 && pools.Valid()
    modifies pools, pools.pool.Values
    ensures pools.Valid() && fresh(pools.pool.Values - old(pools.pool.Values))
    ensures pools.State(dest) == FitStep(old(pools.State(dest)), Weights(tags)).0
    ensures forall d :: d != dest ==> pools.State(d) == old(pools.State(d)) && pools.TagsOf(d) == old(pools.TagsOf(d))
    ensures Fits(tags, old(pools.State(dest)), old(pools.TagsOf(dest)), pools.TagsOf(dest), tag)
  {
    hide SafePool.Valid, SafePool.State, SafePool.TagsOf, Fits, FitStep, Weights;
    if tags[0].weight == 100 {
      WholeWeight(tags, pools.State(dest), pools.TagsOf(dest));
      return Some(tags[0]);
    }
    if dest !in pools.pool {
      CreatePool(tags, dest, pools);
      return Some(tags[0]);
    }
    tag := PickFrom(tags, dest, pools);
  }

  lemma WholeWeight(tags: seq<RouteTag>, s: FitState, was: seq<RouteTag>)
    requires |tags| > 0 && tags[0].weight == 100 && ValidState(s)
    ensures FitStep(s, Weights(tags)).0 == s && Fits(tags, s, was, was, Some(tags[0]))
  {
  }

  method CreatePool(tags: seq<RouteTag>, dest: string, pools: SafePool)
    requires |tags| > 0 && tags[0].weight != 100 && pools.Valid() && dest !in pools.pool
    modifies pools
    ensures pools.Valid() && fresh(pools.pool.Values - old(pools.pool.Values))
    ensures pools.State(dest) == FitStep(old(pools.State(dest)), Weights(tags)).0
    ensures forall d :: d != dest ==> pools.State(d) == old(pools.State(d)) && pools.TagsOf(d) == old(pools.TagsOf(d))
    ensures Fits(tags, old(pools.State(dest)), old(pools.TagsOf(dest)), pools.TagsOf(dest), Some(tags[0]))
  {
    hide Sound, ValidHand, NewWheel, PoolTags, Weights;
    var created := new Pool.NewPool(tags);
    pools.Set(dest, created);
  }

  method PickFrom(ghost tags: seq<RouteTag>, dest: string, pools: SafePool) returns (tag: Option<RouteTag>)
    requires |tags| > 0 && tags[0].weight != 100 && pools.Valid() && dest in pools.pool
    modifies pools.pool[dest]
    ensures pools.Valid() && pools.State(dest) == FitStep(old(pools.State(dest)), Weights(tags)).0
    ensures forall d :: d != dest ==> pools.State(d) == old(pools.State(d)) && pools.TagsOf(d) == old(pools.TagsOf(d))
    ensures Fits(tags, old(pools.State(dest)), old(pools.TagsOf(dest)), pools.TagsOf(dest), tag)
  {
    hide Sound, ValidHand, NextHand, NextTag, NewWheel, PoolTags;
    ghost var k, rounds;
    tag, k, rounds := pools.pool[dest].PickOne();
  }

  // ---------- bounded drift ----------

  /** count answers out of n are within bound of the exact share n * weight / 100. */
  ghost predicate DriftWithin(count: int, n: int, weight: int, bound: int) {
    -100 * bound <= 100 * count - n * weight <= 100 * bound
  }

  lemma DriftAdd(count: int, n: int, bound: int, count': int, n': int, bound': int, weight: int)
    requires DriftWithin(count, n, weight, bound) && DriftWithin(count', n', weight, bound')
    ensures DriftWithin(count + count', n + n', weight, bound + bound')
  {
    DistributeRight(n, n', weight);
  }

  lemma DriftWeaken(count: int, n: int, weight: int, bound: int, bound': int)
    requires DriftWithin(count, n, weight, bound) && bound <= bound'
    ensures DriftWithin(count, n, weight, bound')
  {
  }

  lemma NoDrift(count: int, n: int, weight: int, bound: int)
    requires bound >= 0
    requires n == 0 || weight == 0 ==> count == 0
    requires n != 0 && weight != 0 ==> weight == 100 && count == n
    ensures DriftWithin(count, n, weight, bound)
  {
  }

  /** No drift exceeds the number of requests. */
  lemma DriftTrivial(count: int, n: int, weight: int)
    requires 0 <= count <= n && 0 <= weight <= 100
    ensures DriftWithin(count, n, weight, n)
  {
    MulBetween(weight, 100, n);
  }

  lemma {:induction false} FitIsPoolRun(ws: seq<int>, n: nat)
    requires |ws| > 0 && ws[0] != 100 && |PoolWeights(ws)| >= 2
    requires Sound(NewWheel(ws)) && ValidHand(NewWheel(ws), START)
    ensures StateAfter(ws, n + 1) == Pooled(NewWheel(ws), After(NewWheel(ws), START, n))
    ensures FitAnswers(ws, n + 1) == [0] + Answers(NewWheel(ws), START, n)
  {
    hide Pick, Sound, GcdOf, MaxOf;
    if n == 0 {
      assert StateAfter(ws, 0) == NoPool;
      assert FitAnswers(ws, 0) == [];
    } else {
      FitIsPoolRun(ws, n - 1);
    }
  }

  /** Over any number of calls past the warm-up, the answers of tag k stay within Unit(k) of their exact share. */
  lemma CycleDrift(w: Wheel, n: nat, k: nat)
    requires Regular(w) && k < |w.weights| && w.weights[k] >= 0
    requires PositiveTotal(w.weights) == 100 && ValidHand(w, LapEnd(w))
    ensures DriftWithin(Count(Answers(w, LapEnd(w), n), k), n, w.weights[k], Unit(w, k))
  {
    hide Answers, Count, Times, PositiveTotal, Unit, DriftWithin, Divides, CommonDivisor;
    var share, total, laps := CycleBalance(w, n, k);
    PeriodOf(w);
    UnitExact(w, k);
    TimesIsProduct(laps, Unit(w, k));
    TimesIsProduct(laps, Period(Reduced(w)));
    DriftArithmetic(share, total, laps, Unit(w, k), Period(Reduced(w)), w.gcd, w.weights[k],
                    Count(Answers(w, LapEnd(w), n), k), n);
  }

  /** RunShare and RunTotal for a pool with any gcd, started at the end of a lap. */
  lemma CycleBalance(w: Wheel, n: nat, k: nat) returns (share: int, total: int, laps: nat)
    requires Regular(w) && k < |w.weights| && ValidHand(w, LapEnd(w))
    ensures 0 <= share <= Unit(w, k) && 0 <= total <= Period(Reduced(w))
    ensures share + Times(laps, Unit(w, k)) == Unit(w, k) + Count(Answers(w, LapEnd(w), n), k)
    ensures total + Times(laps, Period(Reduced(w))) == Period(Reduced(w)) + n
  {
    var r, h := Reduced(w), LapEnd(w);
    var s := Scale(w, h);
    ReducedUnitary(w);
    LapEndOnLevel(w);
    LevelExact(w, h);
    ScaleRun(w, h, n);
    AfterInCycle(r, s, n);
    var end := After(r, s, n);
    RunShare(r, s, n, k);
    RunTotal(r, s, n);
    TotalBounds(r, end);
    FullLap(w);
    share, total, laps := Share(r, end, k), Total(r, end), Laps(r, s, n);
  }

  /** At the end of a lap every tag has had its full share. */
  lemma FullLap(w: Wheel)
    requires Regular(w)
    ensures Total(Reduced(w), Scale(w, LapEnd(w))) == Period(Reduced(w))
    ensures forall k: nat :: k < |w.weights| ==> Share(Reduced(w), Scale(w, LapEnd(w)), k) == Unit(w, k)
  {
    LapEndOnLevel(w);
    ReducedUnitary(w);
    var r, s := Reduced(w), Scale(w, LapEnd(w));
    SumEqual(|r.weights|, ShareOf(r, s), WeightOf(r));
  }

  lemma DriftArithmetic(share: int, total: int, laps: int, unit: int, period: int, g: int, weight: int,
                        count: int, n: int)
    requires g > 0 && g * unit == weight && g * period == 100
    requires 0 <= share <= unit && 0 <= total <= period
    requires share + laps * unit == unit + count && total + laps * period == period + n
    ensures DriftWithin(count, n, weight, unit)
  {
    calc {
      n * weight;
      (total + (laps - 1) * period) * weight;
      { DistributeRight(total, (laps - 1) * period, weight); }
      total * weight + (laps - 1) * period * weight;
      { assert period * weight == 100 * unit by { Reassociate(period, g, unit); }
        Associate(laps - 1, period, weight); }
      total * weight + (laps - 1) * (100 * unit);
    }
    assert 100 * count == 100 * share + (laps - 1) * (100 * unit) by {
      Distribute(unit, laps, -1);
    }
    assert 0 <= total * weight <= 100 * unit by {
      assert period * weight == 100 * unit by { Reassociate(period, g, unit); }
      MulBetween(total, period, weight);
    }
  }

  /** The first n picks of a new pool: a warm-up of fewer than num picks, then picks as from the end of a lap. */
  lemma {:induction false} WarmUpThenCycle(w: Wheel, n: nat) returns (a: nat)
    requires Regular(w) && ValidHand(w, LapEnd(w))
    ensures a <= n && a < |w.weights|
    ensures a == n || After(w, START, n) == After(w, LapEnd(w), n - a)
    ensures Answers(w, START, n) == Answers(w, START, a) + Answers(w, LapEnd(w), n - a)
    ensures a == n <==> After(w, START, n).cw == 0
  {
    hide Pick;
    var h := After(w, START, n);
    WarmUpOrCycle(w, n);
    if h.cw == 0 {
      a := n;
    } else {
      WarmUpOrCycle(w, n - 1);
      a := WarmUpThenCycle(w, n - 1);
      if a == n - 1 {
        WarmUpPick(w, After(w, START, n - 1));
        assert After(w, LapEnd(w), 0) == LapEnd(w);
        assert Answers(w, LapEnd(w), 0) == [];
      }
      assert Answers(w, LapEnd(w), n - a) == Answers(w, LapEnd(w), n - 1 - a) + [h.i];
    }
  }

  lemma {:induction false} CountBound(s: seq<nat>, k: nat)
    ensures Count(s, k) <= |s|
  {
    if s != [] { CountBound(s[..|s| - 1], k); }
  }

  /** A weight is at most the total, and all of it only if the other weights are nothing. */
  lemma {:induction false} WeightInTotal(ws: seq<int>, j: nat, k: nat)
    requires j < |ws| && k < |ws|
    ensures Max0(ws[j]) <= PositiveTotal(ws)
    ensures j != k ==> Max0(ws[j]) + Max0(ws[k]) <= PositiveTotal(ws)
  {
    var front := ws[..|ws| - 1];
    if j < |front| { WeightInTotal(front, j, if k < |front| then k else j); }
    if k < |front| { WeightInTotal(front, k, k); }
  }

  lemma {:induction false} AlwaysFirst(ws: seq<int>, n: nat, k: nat)
    requires |ws| > 0 && ws[0] == 100
    ensures Count(FitAnswers(ws, n), k) == if k == 0 then n else 0
  {
    if n > 0 {
      AlwaysFirst(ws, n - 1, k);
      CountSnoc(FitAnswers(ws, n - 1), 0, k);
    }
  }

  /**
    Bounded drift: for a rule of non-negative weights that pass validation, after any number n of requests the answers
    of tag k differ from n * weight(k) / 100 by at most num + weight(k) / gcd, however large n is.
   */
  lemma BoundedDrift(ws: seq<int>, n: nat, k: nat)
    requires |ws| > 0 && (forall j :: 0 <= j < |ws| ==> ws[j] >= 0) && PositiveTotal(ws) <= 100
    requires k < |PoolWeights(ws)|
    ensures var w := NewWheel(ws);
            && w.gcd > 0
            && DriftWithin(Count(FitAnswers(ws, n), k), n, w.weights[k], |w.weights| + Unit(w, k))
  {
    hide Pick, Count, FitAnswers, NewWheel, PoolWeights, Divides, DriftWithin, Unit, PositiveTotal;
    var w := NewWheel(ws);
    NewWheelSound(ws);
    PoolShape(ws, k);
    if ws[0] == 100 {
      AlwaysFirst(ws, n, k);
      NoDrift(if k == 0 then n else 0, n, w.weights[k], |w.weights| + Unit(w, k));
    } else if n == 0 {
      NoAnswers(ws, k);
      NoDrift(0, 0, w.weights[k], |w.weights| + Unit(w, k));
    } else {
      LapEndOnLevel(w);
      FitIsPoolRun(ws, n - 1);
      SplitDrift(w, n - 1, k);
    }
  }

  /** The pool of a valid rule: weights from 0 to 100 in total 100, so one of 100 leaves nothing for the others. */
  lemma PoolShape(ws: seq<int>, k: nat)
    requires |ws| > 0 && (forall j :: 0 <= j < |ws| ==> ws[j] >= 0) && PositiveTotal(ws) <= 100
    requires k < |PoolWeights(ws)|
    ensures var w := NewWheel(ws);
            && |w.weights| == |PoolWeights(ws)|
            && PositiveTotal(w.weights) == 100 && 0 <= w.weights[k] <= 100
            && (ws[0] == 100 ==> w.weights[k] == if k == 0 then 100 else 0)
            && (ws[0] != 100 ==> |w.weights| >= 2)
  {
    hide GcdOf, MaxOf;
    NewWheelSound(ws);
    WeightInTotal(NewWheel(ws).weights, k, k);
    WeightInTotal(NewWheel(ws).weights, 0, k);
  }

  lemma NoAnswers(ws: seq<int>, k: nat)
    requires |ws| > 0
    ensures Count(FitAnswers(ws, 0), k) == 0
  {
  }

  /** The bound in terms of the pool alone: weight(k) / gcd is at most 100 / gcd. */
  lemma UnitBound(w: Wheel, k: nat)
    requires w.gcd > 0 && k < |w.weights| && w.weights[k] <= 100
    ensures Unit(w, k) <= 100 / w.gcd
  {
    var p, q := Unit(w, k), 100 / w.gcd;
    if p > q { MulOrder(w.gcd, p, q + 1); Distribute(w.gcd, q, 1); }
  }

  lemma SplitDrift(w: Wheel, m: nat, k: nat)
    requires Regular(w) && k < |w.weights| && 0 <= w.weights[k] <= 100
    requires PositiveTotal(w.weights) == 100 && ValidHand(w, LapEnd(w))
    ensures DriftWithin(Count([0] + Answers(w, START, m), k), m + 1, w.weights[k], |w.weights| + Unit(w, k))
  {
    hide Pick, After, Count, Unit, PositiveTotal, CommonDivisor, Divides, DriftWithin;
    var a := WarmUpThenCycle(w, m);
    var head, tail := [0] + Answers(w, START, a), Answers(w, LapEnd(w), m - a);
    assert [0] + Answers(w, START, m) == head + tail;
    CountConcat(head, tail, k);
    CountBound(head, k);
    DriftTrivial(Count(head, k), a + 1, w.weights[k]);
    CycleDrift(w, m - a, k);
    DriftAdd(Count(head, k), a + 1, a + 1, Count(tail, k), m - a, Unit(w, k), w.weights[k]);
    DriftWeaken(Count(head + tail, k), m + 1, w.weights[k], a + 1 + Unit(w, k), |w.weights| + Unit(w, k));
  }

  lemma DistributeRight(a: int, b: int, c: int)
    ensures (a + b) * c == a * c + b * c
  {
  }

  lemma Associate(a: int, b: int, c: int)
    ensures a * b * c == a * (b * c)
  {
  }

  lemma Reassociate(a: int, b: int, c: int)
    ensures a * (b * c) == (b * a) * c
  {
  }

  lemma MulBetween(a: int, b: int, c: int)
    requires 0 <= a <= b && c >= 0
    ensures 0 <= a * c <= b * c
  {
  }
}
