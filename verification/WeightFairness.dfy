/**
  Exact weighted fairness of a pool whose weights have gcd 1 (WeightScaling reduces every pool to this case).

  The hand (i, cw) walks down the levels max, ..., 2, 1 and visits every tag on each level. Share(k) is how often
  tag k has been answered since the hand last stood at the top: it has a closed form in the hand, every turn changes
  it by one exactly when the turn hits k, and starting the next lap takes weight(k) away.
 */
module WeightFairness {
  import opened Base
  import opened WeightPool

  ghost predicate Unitary(w: Wheel) {
    Sound(w) && w.gcd == 1 && forall k :: 0 <= k < |w.weights| ==> w.weights[k] >= 0
  }

  /** The warm-up with cw == 0 is over. */
  ghost predicate InCycle(w: Wheel, h: Hand) {
    h.i < |w.weights| && 1 <= h.cw <= w.max
  }

  ghost function Share(w: Wheel, h: Hand, k: nat): (s: int)
    requires k < |w.weights|
  {
    Max0(w.weights[k] - h.cw) + if k <= h.i && w.weights[k] >= h.cw then 1 else 0
  }

  ghost function ShareOf(w: Wheel, h: Hand): (f: nat -> int) {
    (k: nat) => if k < |w.weights| then Share(w, h, k) else 0
  }

  ghost function WeightOf(w: Wheel): (f: nat -> int) {
    (k: nat) => if k < |w.weights| then w.weights[k] else 0
  }

  /** Answers given since the top of the lap, all tags together. */
  ghost function Total(w: Wheel, h: Hand): (s: int) {
    Sum(|w.weights|, ShareOf(w, h))
  }

  /** Answers in a whole lap. */
  ghost function Period(w: Wheel): (p: int) {
    Sum(|w.weights|, WeightOf(w))
  }

  ghost predicate Wraps(w: Wheel, h: Hand) {
    h.i + 1 == |w.weights| && h.cw - w.gcd <= 0
  }

  lemma TurnShare(w: Wheel, h: Hand, k: nat)
    requires Unitary(w) && InCycle(w, h) && k < |w.weights|
    ensures var t := Turn(w, h);
            InCycle(w, t) &&
            Share(w, t, k) == Share(w, h, k) + (if k == t.i && Hit(w, t) then 1 else 0)
                              - (if Wraps(w, h) then w.weights[k] else 0)
  {
  }

  /** How often the hand starts a new lap during one pick. */
  ghost function LapsOfPick(w: Wheel, h: Hand): (laps: nat)
    requires Sound(w) && ValidHand(w, h)
    decreases ToPeak(w, h)
  {
    var t := Turn(w, h);
    (if Wraps(w, h) then 1 else 0) + if Hit(w, t) then 0 else LapsOfPick(w, t)
  }

  lemma {:induction false} PickShare(w: Wheel, h: Hand, k: nat)
    requires Unitary(w) && InCycle(w, h) && k < |w.weights|
    ensures var p := Pick(w, h);
            InCycle(w, p) &&
            Share(w, p, k) == Share(w, h, k) + (if k == p.i then 1 else 0) - Times(LapsOfPick(w, h), w.weights[k])
    decreases ToPeak(w, h)
  {
    var t := Turn(w, h);
    TurnShare(w, h, k);
    if !Hit(w, t) {
      PickShare(w, t, k);
      TimesAdd(if Wraps(w, h) then 1 else 0, LapsOfPick(w, t), w.weights[k]);
    }
  }

  lemma PickTotal(w: Wheel, h: Hand)
    requires Unitary(w) && InCycle(w, h)
    ensures InCycle(w, Pick(w, h))
    ensures Total(w, Pick(w, h)) == Total(w, h) + 1 - Times(LapsOfPick(w, h), Period(w))
  {
    var p := Pick(w, h);
    PickShare(w, h, 0);
    forall k: nat | k < |w.weights|
      ensures ShareOf(w, p)(k) == ShareOf(w, h)(k) + (if k == p.i then 1 else 0) - Times(LapsOfPick(w, h), WeightOf(w)(k))
    {
      PickShare(w, h, k);
    }
    SumShift(|w.weights|, ShareOf(w, p), ShareOf(w, h), WeightOf(w), p.i, LapsOfPick(w, h));
  }

  // ---------- runs ----------

  ghost function After(w: Wheel, h: Hand, n: nat): (r: Hand)
    requires Sound(w) && ValidHand(w, h)
    ensures ValidHand(w, r)
  {
    if n == 0 then h else Pick(w, After(w, h, n - 1))
  }

  /** The tags answered by n calls of PickOne on a pool of at least two tags, starting with the hand at h. */
  ghost function Answers(w: Wheel, h: Hand, n: nat): (tags: seq<nat>)
    requires Sound(w) && ValidHand(w, h)
    ensures |tags| == n
  {
    if n == 0 then [] else Answers(w, h, n - 1) + [After(w, h, n).i]
  }

  ghost function Laps(w: Wheel, h: Hand, n: nat): (laps: nat)
    requires Sound(w) && ValidHand(w, h)
  {
    if n == 0 then 0 else Laps(w, h, n - 1) + LapsOfPick(w, After(w, h, n - 1))
  }

  lemma {:induction false} AfterInCycle(w: Wheel, h: Hand, n: nat)
    requires Unitary(w) && InCycle(w, h)
    ensures InCycle(w, After(w, h, n))
    ensures n > 0 ==> Hit(w, After(w, h, n))
  {
    if n > 0 {
      AfterInCycle(w, h, n - 1);
      PickShare(w, After(w, h, n - 1), 0);
    }
  }

  /** Conservation: what a tag gained in share, plus what laps took away, is how often it was answered. */
  lemma {:induction false} RunShare(w: Wheel, h: Hand, n: nat, k: nat)
    requires Unitary(w) && InCycle(w, h) && k < |w.weights|
    ensures Share(w, After(w, h, n), k) + Times(Laps(w, h, n), w.weights[k])
         == Share(w, h, k) + Count(Answers(w, h, n), k)
  {
    if n > 0 {
      RunShare(w, h, n - 1, k);
      AfterInCycle(w, h, n - 1);
      RunStep(w, h, n, k);
    }
  }

  lemma RunStep(w: Wheel, h: Hand, n: nat, k: nat)
    requires Unitary(w) && InCycle(w, h) && k < |w.weights| && n > 0
    requires InCycle(w, After(w, h, n - 1))
    ensures Share(w, After(w, h, n), k) + Times(Laps(w, h, n), w.weights[k]) - Count(Answers(w, h, n), k)
         == Share(w, After(w, h, n - 1), k) + Times(Laps(w, h, n - 1), w.weights[k]) - Count(Answers(w, h, n - 1), k)
  {
    hide Pick, Share, Times, Count, LapsOfPick;
    var was := After(w, h, n - 1);
    PickShare(w, was, k);
    CountSnoc(Answers(w, h, n - 1), After(w, h, n).i, k);
    TimesAdd(Laps(w, h, n - 1), LapsOfPick(w, was), w.weights[k]);
  }

  /** The same for all tags together: n answers. */
  lemma {:induction false} RunTotal(w: Wheel, h: Hand, n: nat)
    requires Unitary(w) && InCycle(w, h)
    ensures Total(w, After(w, h, n)) + Times(Laps(w, h, n), Period(w)) == Total(w, h) + n
  {
    if n > 0 {
      RunTotal(w, h, n - 1);
      AfterInCycle(w, h, n - 1);
      RunTotalStep(w, h, n);
    }
  }

  lemma RunTotalStep(w: Wheel, h: Hand, n: nat)
    requires Unitary(w) && InCycle(w, h) && n > 0
    requires InCycle(w, After(w, h, n - 1))
    ensures Total(w, After(w, h, n)) + Times(Laps(w, h, n), Period(w))
         == Total(w, After(w, h, n - 1)) + Times(Laps(w, h, n - 1), Period(w)) + 1
  {
    hide Pick, Times, LapsOfPick, Total, Period;
    var was := After(w, h, n - 1);
    PickTotal(w, was);
    TimesAdd(Laps(w, h, n - 1), LapsOfPick(w, was), Period(w));
  }

  // ---------- the hand is determined by the total ----------

  ghost predicate Before(g: Hand, h: Hand) {
    g.cw > h.cw || (g.cw == h.cw && g.i < h.i)
  }

  lemma TotalMonotone(w: Wheel, g: Hand, h: Hand)
    requires Unitary(w) && InCycle(w, g) && InCycle(w, h) && Before(g, h) && Hit(w, h)
    ensures Total(w, g) < Total(w, h)
  {
    assert ShareOf(w, g)(h.i) < ShareOf(w, h)(h.i);
    SumMonotone(|w.weights|, ShareOf(w, g), ShareOf(w, h));
  }

  lemma TotalDetermines(w: Wheel, g: Hand, h: Hand)
    requires Unitary(w) && InCycle(w, g) && InCycle(w, h) && Hit(w, g) && Hit(w, h)
    requires Total(w, g) == Total(w, h)
    ensures g == h
  {
    if Before(g, h) { TotalMonotone(w, g, h); }
    if Before(h, g) { TotalMonotone(w, h, g); }
  }

  lemma TotalBounds(w: Wheel, h: Hand)
    requires Unitary(w) && InCycle(w, h)
    ensures 0 <= Total(w, h) <= Period(w)
    ensures Hit(w, h) ==> Total(w, h) >= 1
  {
    var zero := (k: nat) => 0;
    SumZero(|w.weights|, zero);
    SumMonotone(|w.weights|, ShareOf(w, h), WeightOf(w));
    SumMonotone(|w.weights|, zero, ShareOf(w, h));
    if Hit(w, h) { assert zero(h.i) < ShareOf(w, h)(h.i); }
  }

  lemma SumZero(n: nat, zero: nat -> int)
    requires forall k: nat :: k < n ==> zero(k) == 0
    ensures Sum(n, zero) == 0
  {
  }

  /** From a hand left by an earlier pick, a window of Period calls answers tag k weight(k) times and returns the hand. */
  lemma FairWindow(w: Wheel, h: Hand, k: nat)
    requires Unitary(w) && InCycle(w, h) && Hit(w, h) && k < |w.weights|
    ensures Period(w) >= 1
    ensures After(w, h, Period(w)) == h
    ensures Count(Answers(w, h, Period(w)), k) == w.weights[k]
  {
    TotalBounds(w, h);
    var p := Period(w);
    var end := After(w, h, p);
    RunTotal(w, h, p);
    AfterInCycle(w, h, p);
    TotalBounds(w, end);
    OneLap(p, Laps(w, h, p), Total(w, end), Total(w, h));
    TotalDetermines(w, end, h);
    RunShare(w, h, p, k);
  }

  lemma OneLap(p: int, laps: nat, end: int, start: int)
    requires 1 <= start <= p && 1 <= end <= p && end + Times(laps, p) == start + p
    ensures laps == 1 && Times(laps, p) == p
  {
    if laps > 1 {
      TimesIsProduct(laps - 1, p);
      MulPositive(p, laps - 1);
    }
  }
}
