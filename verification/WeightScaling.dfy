/**
  Fairness of every pool, from its creation on.

  A pool with gcd g turns exactly like the pool of its weights divided by g; the warm-up pass with cw == 0, which
  every new pool makes first, ends in the state a completed lap ends in.
 */
module WeightScaling {
  import opened Base
  import opened Gcds
  import opened WeightPool
  import opened WeightFairness

  ghost predicate Regular(w: Wheel) {
    Sound(w) && CommonDivisor(w.gcd, w.weights) && Divides(w.gcd, w.max)
  }

  /** weight(k) / gcd, counting negative weights as none. */
  ghost function Unit(w: Wheel, k: nat): (u: nat)
    requires w.gcd > 0 && k < |w.weights|
  {
    Max0(w.weights[k]) / w.gcd
  }

  ghost function Reduced(w: Wheel): (r: Wheel)
    requires w.gcd > 0
    ensures |r.weights| == |w.weights|
    ensures forall k :: 0 <= k < |w.weights| ==> r.weights[k] == Unit(w, k)
  {
    Wheel(seq(|w.weights|, k requires 0 <= k < |w.weights| => Unit(w, k)), 1, w.max / w.gcd)
  }

  ghost predicate OnLevel(w: Wheel, h: Hand) {
    h.i < |w.weights| && 0 < h.cw <= w.max && Divides(w.gcd, h.cw)
  }

  ghost function Scale(w: Wheel, h: Hand): (s: Hand)
    requires w.gcd > 0
  {
    Hand(h.i, h.cw / w.gcd)
  }

  lemma UnitExact(w: Wheel, k: nat)
    requires Regular(w) && k < |w.weights|
    ensures w.gcd * Unit(w, k) == Max0(w.weights[k])
  {
  }

  lemma ReducedUnitary(w: Wheel)
    requires Regular(w)
    ensures Unitary(Reduced(w)) && w.gcd * Reduced(w).max == w.max
  {
    var r := Reduced(w);
    assert w.gcd * r.max == w.max;
    assert r.max > 0 by { if r.max == 0 { assert w.gcd * 0 == 0; } }
    forall k | 0 <= k < |w.weights|
      ensures r.weights[k] <= r.max
    {
      UnitExact(w, k);
      MulOrder(w.gcd, r.max, r.weights[k]);
    }
    var p := Peak(w);
    assert r.weights[p] == r.max;
  }

  lemma LevelExact(w: Wheel, h: Hand)
    requires Regular(w) && OnLevel(w, h)
    ensures w.gcd * Scale(w, h).cw == h.cw
    ensures InCycle(Reduced(w), Scale(w, h))
    ensures Hit(Reduced(w), Scale(w, h)) <==> Hit(w, h)
  {
  }

  lemma ScaleTurn(w: Wheel, h: Hand)
    requires Regular(w) && OnLevel(w, h)
    ensures OnLevel(w, Turn(w, h))
    ensures Scale(w, Turn(w, h)) == Turn(Reduced(w), Scale(w, h))
  {
    LevelExact(w, h);
    var c := Scale(w, h).cw;
    if h.i + 1 == |w.weights| {
      MulOrder(w.gcd, 1, c);
      assert h.cw - w.gcd == (c - 1) * w.gcd by { Distribute(w.gcd, c - 1, 1); }
      DividesWitness(w.gcd, c - 1);
    }
  }

  lemma {:induction false} ScalePick(w: Wheel, h: Hand)
    requires Regular(w) && OnLevel(w, h) && ValidHand(w, h)
    requires Unitary(Reduced(w)) && ValidHand(Reduced(w), Scale(w, h))
    ensures OnLevel(w, Pick(w, h))
    ensures Scale(w, Pick(w, h)) == Pick(Reduced(w), Scale(w, h))
    decreases ToPeak(w, h)
  {
    var t := Turn(w, h);
    ScaleTurn(w, h);
    LevelExact(w, t);
    if !Hit(w, t) { ScalePick(w, t); }
  }

  lemma {:induction false} ScaleRun(w: Wheel, h: Hand, n: nat)
    requires Regular(w) && OnLevel(w, h)
    requires Unitary(Reduced(w)) && ValidHand(Reduced(w), Scale(w, h))
    ensures OnLevel(w, After(w, h, n))
    ensures Scale(w, After(w, h, n)) == After(Reduced(w), Scale(w, h), n)
    ensures Answers(w, h, n) == Answers(Reduced(w), Scale(w, h), n)
  {
    if n > 0 {
      ScaleRun(w, h, n - 1);
      ScalePick(w, After(w, h, n - 1));
    }
  }

  /** Answers in one lap: the positive weights' sum over the gcd. */
  lemma PeriodOf(w: Wheel)
    requires Regular(w)
    ensures w.gcd * Period(Reduced(w)) == PositiveTotal(w.weights)
    ensures Period(Reduced(w)) == PositiveTotal(w.weights) / w.gcd
  {
    var f := (k: nat) => if k < |w.weights| then Max0(w.weights[k]) else 0;
    forall k: nat | k < |w.weights|
      ensures f(k) == w.gcd * WeightOf(Reduced(w))(k)
    {
      UnitExact(w, k);
    }
    SumScale(|w.weights|, f, WeightOf(Reduced(w)), w.gcd);
    PositiveTotalIsSum(w.weights, f);
    EuclidUnique(PositiveTotal(w.weights), w.gcd, Period(Reduced(w)), 0);
  }

  lemma {:induction false} PositiveTotalIsSum(ws: seq<int>, f: nat -> int)
    requires forall k: nat :: k < |ws| ==> f(k) == Max0(ws[k])
    ensures PositiveTotal(ws) == Sum(|ws|, f)
  {
    if ws != [] { PositiveTotalIsSum(ws[..|ws| - 1], f); }
  }

  // ---------- warm-up ----------

  const START := Hand(0, 0)

  /** Where a completed lap, and also the warm-up, leaves the hand. */
  ghost function LapEnd(w: Wheel): (h: Hand)
    requires |w.weights| > 0
  {
    Hand(|w.weights| - 1, w.gcd)
  }

  lemma LapEndOnLevel(w: Wheel)
    requires Regular(w)
    ensures OnLevel(w, LapEnd(w)) && ValidHand(w, LapEnd(w)) && Scale(w, LapEnd(w)).cw == 1
  {
  }

  /** A pick in the warm-up either moves on to a later tag or picks as if a lap had just ended. */
  lemma {:induction false} WarmUpPick(w: Wheel, h: Hand)
    requires Regular(w) && ValidHand(w, h) && h.cw == 0
    requires ValidHand(w, LapEnd(w))
    ensures var p := Pick(w, h);
            (p.cw == 0 && p.i > h.i) || (OnLevel(w, p) && p == Pick(w, LapEnd(w)))
    decreases |w.weights| - h.i
  {
    var t := Turn(w, h);
    if h.i + 1 < |w.weights| {
      if !Hit(w, t) { WarmUpPick(w, t); }
    } else {
      assert t == Turn(w, LapEnd(w));
      LapEndOnLevel(w);
      ReducedUnitary(w);
      LevelExact(w, LapEnd(w));
      ScalePick(w, LapEnd(w));
    }
  }

  /** After n calls the hand is in the warm-up, n tags on at least, or standing on an answered tag in the cycle. */
  lemma {:induction false} WarmUpOrCycle(w: Wheel, n: nat)
    requires Regular(w)
    ensures var h := After(w, START, n);
            (h.cw == 0 && h.i >= n) || (n > 0 && OnLevel(w, h) && Hit(w, h))
  {
    if n > 0 {
      var h := After(w, START, n - 1);
      WarmUpOrCycle(w, n - 1);
      if h.cw == 0 {
        LapEndOnLevel(w);
        WarmUpPick(w, h);
      } else {
        ReducedUnitary(w);
        LevelExact(w, h);
        ScalePick(w, h);
      }
    }
  }

  lemma {:induction false} RunSplit(w: Wheel, h: Hand, m: nat, n: nat)
    requires Sound(w) && ValidHand(w, h)
    ensures After(w, h, m + n) == After(w, After(w, h, m), n)
    ensures Answers(w, h, m + n) == Answers(w, h, m) + Answers(w, After(w, h, m), n)
  {
    if n > 0 {
      RunSplit(w, h, m, n - 1);
      assert m + n - 1 == m + (n - 1);
    }
  }

  // ---------- main result ----------

  /** From a hand left by an earlier pick outside the warm-up. */
  lemma WindowFrom(w: Wheel, h: Hand, k: nat)
    requires Regular(w) && OnLevel(w, h) && Hit(w, h) && k < |w.weights|
    ensures var p := PositiveTotal(w.weights) / w.gcd;
            p >= 1 && After(w, h, p) == h && Count(Answers(w, h, p), k) == Unit(w, k)
  {
    var r, s := Reduced(w), Scale(w, h);
    ReducedUnitary(w);
    LevelExact(w, h);
    PeriodOf(w);
    FairWindow(r, s, k);
    var p := Period(r);
    ScaleRun(w, h, p);
    LevelExact(w, After(w, h, p));
  }

  /** The hand after n calls of PickOne on a new pool. */
  ghost function HandAfter(w: Wheel, n: nat): (h: Hand)
    requires Sound(w)
    ensures ValidHand(w, h)
  {
    if n == 0 then START else NextHand(w, HandAfter(w, n - 1))
  }

  /** The tags those calls answer. */
  ghost function Picked(w: Wheel, n: nat): (tags: seq<nat>)
    requires Sound(w)
    ensures |tags| == n
  {
    if n == 0 then [] else Picked(w, n - 1) + [NextTag(w, HandAfter(w, n - 1))]
  }

  lemma {:induction false} PickedByTurns(w: Wheel, n: nat)
    requires Sound(w) && |w.weights| > 1
    ensures HandAfter(w, n) == After(w, START, n) && Picked(w, n) == Answers(w, START, n)
  {
    if n > 0 { PickedByTurns(w, n - 1); }
  }

  /** A pool with a single tag answers it every time, and its hand stays where it started. */
  lemma {:induction false} PickedSingle(w: Wheel, n: nat)
    requires Sound(w) && |w.weights| == 1
    ensures HandAfter(w, n) == START && forall j :: 0 <= j < n ==> Picked(w, n)[j] == 0
  {
    if n > 0 { PickedSingle(w, n - 1); }
  }

  /**
    The window of S/g calls that follows the first n calls of a new pool answers tag k exactly weight(k)/g times, and
    the hand that its first call leaves comes back S/g calls later.
   */
  ghost predicate ExactWindow(w: Wheel, n: nat, k: nat)
    requires Regular(w) && k < |w.weights|
  {
    var p := PositiveTotal(w.weights) / w.gcd;
    && p >= 1
    && Count(Picked(w, n + p)[n..], k) == Unit(w, k)
    && HandAfter(w, n + 1 + p) == HandAfter(w, n + 1)
  }

  /**
    Exact weighted fairness: once call n of a new pool is past the warm-up, the window of S/g calls that starts with
    it answers every tag k exactly weight(k)/g times, and the hand comes back after those calls. A pool with a single
    tag has no warm-up.
   */
  lemma ExactFairness(w: Wheel, n: nat, k: nat)
    requires Regular(w) && k < |w.weights|
    requires |w.weights| == 1 || HandAfter(w, n + 1).cw > 0
    ensures ExactWindow(w, n, k)
  {
    hide Pick, After, Count, Sound, PositiveTotal, HandAfter, Picked, Answers;
    var p := PositiveTotal(w.weights) / w.gcd;
    if |w.weights| == 1 {
      SingleWindow(w, n);
    } else {
      PickedByTurns(w, n + 1);
      WindowByTurns(w, n, k);
      PickedByTurns(w, n + p);
      PickedByTurns(w, n + 1 + p);
    }
  }

  lemma WindowByTurns(w: Wheel, n: nat, k: nat)
    requires Regular(w) && k < |w.weights| && After(w, START, n + 1).cw > 0
    ensures var p := PositiveTotal(w.weights) / w.gcd;
            && p >= 1
            && Count(Answers(w, START, n + p)[n..], k) == Unit(w, k)
            && After(w, START, n + 1 + p) == After(w, START, n + 1)
  {
    hide Pick, After, Count, Sound, PositiveTotal;
    var p := PositiveTotal(w.weights) / w.gcd;
    var h := After(w, START, n + 1);
    WarmUpOrCycle(w, n + 1);
    WindowFrom(w, h, k);
    RunSplit(w, START, n + 1, p);
    WindowShift(w, n, p);
    var tail := Answers(w, h, p - 1);
    assert Answers(w, h, p) == tail + [h.i];
    CountConcat(tail, [h.i], k);
    CountConcat([h.i], tail, k);
  }

  lemma SingleWindow(w: Wheel, n: nat)
    requires Regular(w) && |w.weights| == 1
    ensures ExactWindow(w, n, 0)
  {
    var p := PositiveTotal(w.weights) / w.gcd;
    UnitExact(w, 0);
    assert PositiveTotal(w.weights) == Max0(w.weights[0]) by { assert w.weights[..0] == []; }
    assert p == Unit(w, 0) && p >= 1;
    hide Sound, PositiveTotal, HandAfter, Picked;
    PickedSingle(w, n + p);
    PickedSingle(w, n + 1);
    PickedSingle(w, n + 1 + p);
    CountAll(Picked(w, n + p)[n..], 0);
  }

  lemma {:induction false} CountAll(s: seq<nat>, x: nat)
    requires forall j :: 0 <= j < |s| ==> s[j] == x
    ensures Count(s, x) == |s|
  {
    if s != [] { CountAll(s[..|s| - 1], x); }
  }

  lemma WindowShift(w: Wheel, n: nat, p: nat)
    requires Sound(w) && p >= 1
    ensures var h := After(w, START, n + 1);
            Answers(w, START, n + p)[n..] == [h.i] + Answers(w, h, p - 1)
  {
    RunSplit(w, START, n + 1, p - 1);
    assert n + 1 + (p - 1) == n + p;
    assert Answers(w, START, n + 1) == Answers(w, START, n) + [After(w, START, n + 1).i];
  }

  /** The warm-up is over after num calls at the latest. */
  lemma WarmUpEnds(w: Wheel, n: nat)
    requires Regular(w) && n >= |w.weights| > 1
    ensures HandAfter(w, n).cw > 0
  {
    PickedByTurns(w, n);
    WarmUpOrCycle(w, n);
  }

  /** The same for the pool NewPool builds from any configured weights: from call num on, every window is exact. */
  lemma PoolFairness(ws: seq<int>, n: nat, k: nat)
    requires k < |NewWheel(ws).weights| <= n + 1
    ensures var w := NewWheel(ws);
            Regular(w) && ExactWindow(w, n, k)
  {
    hide NewWheel, PositiveTotal, Picked, HandAfter, Sound, ExactWindow;
    NewWheelSound(ws);
    if |NewWheel(ws).weights| > 1 { WarmUpEnds(NewWheel(ws), n + 1); }
    ExactFairness(NewWheel(ws), n, k);
  }
}
