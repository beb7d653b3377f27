/**
  The weighted round-robin pool of core/router/weightpool/weightpool.go.

  A Wheel is what NewPool computes once; a Hand is the pair (i, cw) that PickOne carries from call to call.
  Turn is one iteration of PickOne's loop and Pick is the whole loop.
 */
module WeightPool {
  import opened Base
  import opened Gcds
  import opened RouteModel

  datatype Wheel = Wheel(weights: seq<int>, gcd: nat, max: nat)

  datatype Hand = Hand(i: nat, cw: int)

  // ---------- construction ----------

  function PositiveTotal(ws: seq<int>): (total: nat) {
    if ws == [] then 0 else PositiveTotal(ws[..|ws| - 1]) + Max0(ws[|ws| - 1])
  }

  function GcdOf(ws: seq<int>): (g: nat) {
    if ws == [] then 0
    else
      var g, x := GcdOf(ws[..|ws| - 1]), ws[|ws| - 1];
      if x > 0 then Gcd(g, x) else g
  }

  function MaxOf(ws: seq<int>): (m: nat) {
    if ws == [] then 0
    else
      var m, x := MaxOf(ws[..|ws| - 1]), ws[|ws| - 1];
      if x > m then x else m
  }

  /** Weights below 100 are completed by one more tag, the latest version, that takes the rest. */
  function PoolWeights(ws: seq<int>): (pool: seq<int>) {
    if PositiveTotal(ws) < 100 then ws + [100 - PositiveTotal(ws)] else ws
  }

  function NewWheel(ws: seq<int>): (w: Wheel) {
    var pool := PoolWeights(ws);
    Wheel(pool, GcdOf(pool), MaxOf(pool))
  }

  ghost predicate CommonDivisor(d: int, ws: seq<int>) {
    forall k :: 0 <= k < |ws| && ws[k] > 0 ==> Divides(d, ws[k])
  }

  /** What PickOne's loop needs: max is the maximum of the weights, and positive. */
  ghost predicate Sound(w: Wheel) {
    && w.gcd > 0
    && w.max > 0
    && w.max in w.weights
    && forall k :: 0 <= k < |w.weights| ==> w.weights[k] <= w.max
  }

  lemma {:induction false} GcdOfCorrect(ws: seq<int>)
    ensures GcdOf(ws) > 0 <==> exists k :: 0 <= k < |ws| && ws[k] > 0
    ensures GcdOf(ws) > 0 ==> CommonDivisor(GcdOf(ws), ws)
    ensures forall d: int :: d > 0 && CommonDivisor(d, ws) ==> Divides(d, GcdOf(ws))
  {
    if ws == [] {
    } else {
      var front, x := ws[..|ws| - 1], ws[|ws| - 1];
      assert forall k :: 0 <= k < |front| ==> front[k] == ws[k];
      GcdOfCorrect(front);
      var g := GcdOf(front);
      forall d: int | d > 0 && CommonDivisor(d, ws)
        ensures Divides(d, g) && (x > 0 ==> Divides(d, x))
      {
        assert CommonDivisor(d, front);
      }
      if x > 0 {
        GcdCorrect(g, x);
        forall k | 0 <= k < |front| && ws[k] > 0
          ensures Divides(GcdOf(ws), ws[k])
        {
          assert front[k] > 0;
          DividesTransitive(GcdOf(ws), g, ws[k]);
        }
      } else if exists k :: 0 <= k < |ws| && ws[k] > 0 {
        var k :| 0 <= k < |ws| && ws[k] > 0;
        assert front[k] > 0;
      }
    }
  }

  lemma {:induction false} MaxOfCorrect(ws: seq<int>)
    ensures forall k :: 0 <= k < |ws| ==> ws[k] <= MaxOf(ws)
    ensures MaxOf(ws) == 0 || MaxOf(ws) in ws
  {
    if ws != [] {
      var front := ws[..|ws| - 1];
      MaxOfCorrect(front);
      assert forall k :: 0 <= k < |front| ==> front[k] == ws[k];
      assert ws == front + [ws[|ws| - 1]];
    }
  }

  lemma {:induction false} PositiveTotalPositive(ws: seq<int>)
    requires PositiveTotal(ws) > 0
    ensures exists k :: 0 <= k < |ws| && ws[k] > 0
  {
    var front, x := ws[..|ws| - 1], ws[|ws| - 1];
    if x <= 0 {
      PositiveTotalPositive(front);
      var k :| 0 <= k < |front| && front[k] > 0;
      assert ws[k] > 0;
    }
  }

  /**
    Every pool NewPool builds is sound, whatever the configured weights, so PickOne never answers nil;
    its gcd is the greatest common divisor of the positive weights and divides max.
   */
  lemma NewWheelSound(ws: seq<int>)
    ensures Sound(NewWheel(ws)) && |NewWheel(ws).weights| > 0
    ensures CommonDivisor(NewWheel(ws).gcd, NewWheel(ws).weights)
    ensures Divides(NewWheel(ws).gcd, NewWheel(ws).max)
    ensures forall d: int :: d > 0 && CommonDivisor(d, NewWheel(ws).weights) ==> Divides(d, NewWheel(ws).gcd)
    ensures PositiveTotal(NewWheel(ws).weights) == if PositiveTotal(ws) < 100 then 100 else PositiveTotal(ws)
  {
    var pool := PoolWeights(ws);
    if PositiveTotal(ws) < 100 {
      assert pool[..|pool| - 1] == ws;
    }
    PositiveTotalPositive(pool);
    GcdOfCorrect(pool);
    MaxOfCorrect(pool);
  }

  // ---------- one pick ----------

  ghost predicate ValidHand(w: Wheel, h: Hand) {
    h.i < |w.weights| && 0 <= h.cw <= w.max
  }

  function Turn(w: Wheel, h: Hand): (t: Hand) {
    if h.i + 1 != |w.weights| then Hand(h.i + 1, h.cw)
    else if h.cw - w.gcd <= 0 then Hand(0, w.max)
    else Hand(0, h.cw - w.gcd)
  }

  predicate Hit(w: Wheel, h: Hand)
    requires h.i < |w.weights|
  {
    w.weights[h.i] >= h.cw
  }

  /** How many turns until the hand stands on a tag of maximal weight, which always hits. */
  ghost function Peak(w: Wheel): (k: nat)
    requires Sound(w)
    ensures k < |w.weights| && w.weights[k] == w.max
  {
    var k :| 0 <= k < |w.weights| && w.weights[k] == w.max;
    k
  }

  ghost function ToPeak(w: Wheel, h: Hand): (d: nat)
    requires Sound(w) && ValidHand(w, h)
    ensures 1 <= d <= |w.weights|
  {
    if h.i < Peak(w) then Peak(w) - h.i else |w.weights| + Peak(w) - h.i
  }

  ghost function Pick(w: Wheel, h: Hand): (r: Hand)
    requires Sound(w) && ValidHand(w, h)
    ensures ValidHand(w, r) && Hit(w, r)
    decreases ToPeak(w, h)
  {
    var t := Turn(w, h);
    if Hit(w, t) then t else Pick(w, t)
  }

  ghost function Turns(w: Wheel, h: Hand, n: nat): (r: Hand)
    requires Sound(w) && ValidHand(w, h)
    ensures ValidHand(w, r)
    decreases n
  {
    if n == 0 then h else Turns(w, Turn(w, h), n - 1)
  }

  /** The loop ends within num iterations, at the first turn that hits. */
  lemma {:induction false} PickWithinOneRound(w: Wheel, h: Hand) returns (n: nat)
    requires Sound(w) && ValidHand(w, h)
    ensures 1 <= n <= ToPeak(w, h) <= |w.weights|
    ensures Pick(w, h) == Turns(w, h, n)
    ensures forall m :: 1 <= m < n ==> !Hit(w, Turns(w, h, m))
    decreases ToPeak(w, h)
  {
    var t := Turn(w, h);
    assert Turns(w, h, 1) == t by { assert Turns(w, t, 0) == t; }
    if Hit(w, t) {
      n := 1;
    } else {
      var m := PickWithinOneRound(w, t);
      n := m + 1;
      forall j | 1 <= j < n
        ensures !Hit(w, Turns(w, h, j))
      {
        assert Turns(w, h, j) == Turns(w, t, j - 1);
      }
    }
  }

  // ---------- the pool object ----------

  class Pool {
    var tags: seq<RouteTag>
    var gcd: int
    var max: int
    var i: int
    var cw: int
    var num: int

    /** A pool that can answer at all is sound; NewPool builds no other. */
    ghost predicate Valid()
      reads this
    {
      && num == |tags|
      && gcd >= 0 && max >= 0 && i >= 0
      && (num == 0 || max == 0 || (Sound(View()) && ValidHand(View(), Position())))
    }

    ghost function View(): (w: Wheel)
      requires gcd >= 0 && max >= 0
      reads this
    {
      Wheel(Weights(tags), gcd, max)
    }

    ghost function Position(): (h: Hand)
      requires i >= 0
      reads this
    {
      Hand(i, cw)
    }

    constructor NewPool(routeTags: seq<RouteTag>)
      ensures Valid() && num > 0 && max > 0
      ensures View() == NewWheel(Weights(routeTags)) && Position() == Hand(0, 0)
      ensures tags == PoolTags(routeTags)
    {
      tags, gcd, max, i, cw, num := [], 0, 0, 0, 0, 0;
      new;
      hide GcdOf, MaxOf, PositiveTotal, NewWheel, Weights, Sound, ValidHand;
      var total := AddTags(routeTags);
      if total < 100 {
        total := AddTag(LatestTag(100 - total), total);
      }
      num := |tags|;
      NewPoolView(routeTags, tags);
    }

    method AddTags(routeTags: seq<RouteTag>) returns (total: int)
      requires tags == [] && gcd == 0 && max == 0
      modifies this`tags, this`gcd, this`max
      ensures Tallied(total) && tags == routeTags
    {
      total := 0;
      for k := 0 to |routeTags|
        invariant tags == routeTags[..k] && Tallied(total)
      {
        total := AddTag(routeTags[k], total);
      }
    }

    /** total, gcd and max account for exactly the tags added so far. */
    ghost predicate Tallied(total: int)
      reads this
    {
      && total == PositiveTotal(Weights(tags))
      && gcd == GcdOf(Weights(tags))
      && max == MaxOf(Weights(tags))
    }

    method AddTag(t: RouteTag, total: int) returns (sum: int)
      requires Tallied(total)
      modifies this`tags, this`gcd, this`max
      ensures Tallied(sum) && tags == old(tags) + [t]
    {
      WeightsSnoc(tags, t);
      GcdSnoc(Weights(tags), t.weight);
      sum := total;
      if t.weight > 0 {
        sum := sum + t.weight;
        RefreshGcd(t.weight);
      }
      tags := tags + [t];
    }

    method RefreshGcd(weight: int)
      requires gcd >= 0 && weight > 0
      modifies this`gcd, this`max
      ensures gcd == Gcd(old(gcd), weight)
      ensures max == if old(max) < weight then weight else old(max)
    {
      gcd := Gcd(gcd, weight);
      if max < weight {
        max := weight;
      }
    }

    /** The part of PickOne's loop body that moves the hand. */
    method Advance()
      requires num == |tags| && 0 <= i < num && gcd >= 0 && max >= 0
      modifies this`i, this`cw
      ensures i >= 0 && Position() == Turn(View(), old(Position()))
    {
      NextIndex(i, num);
      i := (i + 1) % num;
      if i == 0 {
        cw := cw - gcd;
        if cw <= 0 {
          cw := max;
        }
      }
    }

    /** k is the index of the picked tag; rounds counts the loop iterations of this call. */
    method PickOne() returns (tag: Option<RouteTag>, ghost k: nat, ghost rounds: nat)
      requires Valid()
      modifies this`i, this`cw
      ensures Valid() && View() == old(View())
      ensures rounds <= num
      ensures num == 0 || max == 0 ==> tag == None && Position() == old(Position())
      ensures num > 0 && max > 0 ==>
                && Position() == NextHand(View(), old(Position()))
                && k == NextTag(View(), old(Position()))
                && tag == Some(tags[k])
    {
      rounds, k := 0, 0;
      if num == 0 || max == 0 {
        return None, 0, 0;
      }
      if num == 1 {
        return Some(tags[0]), 0, 0;
      }
      hide Gcd, Peak, Sound;
      ghost var w, start := View(), Position();
      while true
        invariant w == View() && Sound(w) && i >= 0 && ValidHand(w, Position())
        invariant Pick(w, Position()) == Pick(w, start)
        invariant rounds + ToPeak(w, Position()) <= num
        decreases ToPeak(w, Position())
      {
        rounds := rounds + 1;
        Advance();
        if tags[i].weight >= cw {
          return Some(tags[i]), i, rounds;
        }
      }
    }
  }

  /** The tags of a new pool: the rule's own, then the latest version when they leave a rest. */
  function PoolTags(routeTags: seq<RouteTag>): (tags: seq<RouteTag>) {
    var total := PositiveTotal(Weights(routeTags));
    if total < 100 then routeTags + [LatestTag(100 - total)] else routeTags
  }

  lemma NewPoolView(routeTags: seq<RouteTag>, tags: seq<RouteTag>)
    requires tags == PoolTags(routeTags)
    ensures Wheel(Weights(tags), GcdOf(Weights(tags)), MaxOf(Weights(tags))) == NewWheel(Weights(routeTags))
    ensures Sound(NewWheel(Weights(routeTags))) && NewWheel(Weights(routeTags)).max > 0
    ensures ValidHand(NewWheel(Weights(routeTags)), Hand(0, 0)) && |tags| > 0
  {
    assert Weights(tags) == PoolWeights(Weights(routeTags));
    NewWheelSound(Weights(routeTags));
  }

  lemma WeightsSnoc(tags: seq<RouteTag>, t: RouteTag)
    ensures Weights(tags + [t]) == Weights(tags) + [t.weight]
    ensures PositiveTotal(Weights(tags + [t])) == PositiveTotal(Weights(tags)) + Max0(t.weight)
  {
    assert Weights(tags + [t]) == Weights(tags) + [t.weight];
    assert (Weights(tags) + [t.weight])[..|tags|] == Weights(tags);
  }

  lemma GcdSnoc(ws: seq<int>, x: int)
    ensures GcdOf(ws + [x]) == if x > 0 then Gcd(GcdOf(ws), x) else GcdOf(ws)
    ensures MaxOf(ws + [x]) == if x > MaxOf(ws) then x else MaxOf(ws)
  {
    assert (ws + [x])[..|ws|] == ws;
  }

  function LatestTag(weight: int): (t: RouteTag) {
    RouteTag(map["version" := "latest"], weight, "version:latest")
  }

  lemma NextIndex(i: nat, n: nat)
    requires i < n
    ensures (i + 1) % n == if i + 1 == n then 0 else i + 1
  {
  }

  /** PickOne on values: a pool with a single tag answers it without moving the hand. */
  ghost function NextHand(w: Wheel, h: Hand): (r: Hand)
    requires Sound(w) && ValidHand(w, h)
    ensures ValidHand(w, r)
  {
    if |w.weights| == 1 then h else Pick(w, h)
  }

  ghost function NextTag(w: Wheel, h: Hand): (k: nat)
    requires Sound(w) && ValidHand(w, h)
    ensures k < |w.weights|
  {
    if |w.weights| == 1 then 0 else Pick(w, h).i
  }
}
