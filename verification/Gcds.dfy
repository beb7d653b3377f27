/** Euclid's algorithm as written in weightpool.go, and what it computes. */
module Gcds {
  import opened Base

  predicate Divides(d: int, a: int) {
    d != 0 && a % d == 0
  }

  /** Quotient and remainder are determined by a == d * q + r with 0 <= r < d. */
  lemma EuclidUnique(a: int, d: int, q: int, r: int)
    requires d > 0 && 0 <= r < d && a == d * q + r
    ensures a / d == q && a % d == r
  {
    var q', r' := a / d, a % d;
    assert d * (q - q') == r' - r;
    if q > q' { MulPositive(d, q - q'); }
    if q < q' { MulPositive(d, q' - q); }
  }

  lemma DividesWitness(d: int, q: int)
    requires d > 0
    ensures Divides(d, q * d) && (q * d) / d == q
  {
  }

  /** An integer combination of multiples of d is a multiple of d. */
  lemma DividesCombination(d: int, a: int, b: int, x: int)
    requires d > 0 && Divides(d, a) && Divides(d, b)
    ensures Divides(d, a + x * b)
  {
    var p, q := a / d, b / d;
    assert a == p * d && b == q * d;
    assert a + x * b == (p + x * q) * d by {
      assert x * (q * d) == (x * q) * d;
      assert (p + x * q) * d == p * d + (x * q) * d;
    }
    DividesWitness(d, p + x * q);
  }

  /** weightpool.go gcd: recursion on the remainder. */
  function Gcd(a: nat, b: nat): (g: nat)
    ensures a > 0 || b > 0 ==> g > 0
    decreases b
  {
    if b == 0 then a else Gcd(b, a % b)
  }

  /** Gcd(a, b) divides both arguments, and every common divisor divides it. */
  lemma {:induction false} GcdCorrect(a: nat, b: nat)
    requires a > 0 || b > 0
    ensures Divides(Gcd(a, b), a) && Divides(Gcd(a, b), b)
    ensures forall d: int :: d > 0 && Divides(d, a) && Divides(d, b) ==> Divides(d, Gcd(a, b))
    decreases b
  {
    if b > 0 {
      GcdCorrect(b, a % b);
      var g := Gcd(b, a % b);
      DividesCombination(g, a % b, b, a / b);
      assert a % b + (a / b) * b == a;
      forall d: int | d > 0 && Divides(d, a) && Divides(d, b)
        ensures Divides(d, g)
      {
        DividesCombination(d, a, b, -(a / b));
        assert a + -(a / b) * b == a % b;
      }
    } else {
      DividesWitness(a, 1);
      DividesWitness(a, 0);
    }
  }

  lemma DividesTransitive(d: int, g: int, a: int)
    requires d > 0 && g > 0 && Divides(d, g) && Divides(g, a)
    ensures Divides(d, a)
  {
    DividesWitness(d, 0);
    DividesCombination(d, 0, g, a / g);
  }
}
