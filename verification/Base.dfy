/** Small shared vocabulary: an optional value, and sums over an index range. */
module Base {

  datatype Option<+T> = None | Some(value: T)

  function Max0(x: int): (r: nat) {
    if x > 0 then x else 0
  }

  /** Occurrences of x in s. */
  function Count<T(==)>(s: seq<T>, x: T): (n: nat) {
    if s == [] then 0 else Count(s[..|s| - 1], x) + if s[|s| - 1] == x then 1 else 0
  }

  lemma CountSnoc<T>(s: seq<T>, last: T, x: T)
    ensures Count(s + [last], x) == Count(s, x) + if x == last then 1 else 0
  {
    assert (s + [last])[..|s|] == s;
  }

  lemma {:induction false} CountConcat<T>(s: seq<T>, t: seq<T>, x: T)
    ensures Count(s + t, x) == Count(s, x) + Count(t, x)
  {
    if t == [] {
      assert s + t == s;
    } else {
      var front, last := t[..|t| - 1], t[|t| - 1];
      CountConcat(s, front, x);
      CountSnoc(s + front, last, x);
      assert s + t == (s + front) + [last];
    }
  }

  lemma Distribute(u: int, a: int, b: int)
    ensures u * (a + b) == u * a + u * b
  {
  }

  lemma MulOrder(g: int, a: int, b: int)
    requires g > 0
    ensures g * a >= g * b <==> a >= b
  {
  }

  lemma MulPositive(g: int, x: int)
    requires g > 0 && x > 0
    ensures g * x >= g && g * x >= x
  {
  }

  /** n copies of u added up: a product kept away from non-linear arithmetic. */
  ghost function Times(n: nat, u: int): (p: int) {
    if n == 0 then 0 else Times(n - 1, u) + u
  }

  lemma {:induction false} TimesAdd(m: nat, n: nat, u: int)
    ensures Times(m + n, u) == Times(m, u) + Times(n, u)
  {
    if n > 0 { TimesAdd(m, n - 1, u); }
  }

  lemma {:induction false} TimesAddUnits(n: nat, u: int, v: int)
    ensures Times(n, u + v) == Times(n, u) + Times(n, v)
  {
    if n > 0 { TimesAddUnits(n - 1, u, v); }
  }

  lemma {:induction false} TimesIsProduct(n: nat, u: int)
    ensures Times(n, u) == n * u
  {
    if n > 0 {
      TimesIsProduct(n - 1, u);
      Distribute(u, n - 1, 1);
    }
  }

  /** f(0) + ... + f(n - 1) */
  ghost function Sum(n: nat, f: nat -> int): (total: int) {
    if n == 0 then 0 else Sum(n - 1, f) + f(n - 1)
  }

  lemma SumMonotone(n: nat, f: nat -> int, g: nat -> int)
    requires forall k: nat :: k < n ==> f(k) <= g(k)
    ensures Sum(n, f) <= Sum(n, g)
    ensures (exists k: nat :: k < n && f(k) < g(k)) ==> Sum(n, f) < Sum(n, g)
  {
  }

  lemma SumEqual(n: nat, f: nat -> int, g: nat -> int)
    requires forall k: nat :: k < n ==> f(k) == g(k)
    ensures Sum(n, f) == Sum(n, g)
  {
  }

  /** Sums respect "add one at index i and take h away laps times". */
  lemma {:induction false} SumShift(n: nat, f: nat -> int, g: nat -> int, h: nat -> int, i: nat, laps: nat)
    requires forall k: nat :: k < n ==> f(k) == g(k) + (if k == i then 1 else 0) - Times(laps, h(k))
    ensures Sum(n, f) == Sum(n, g) + (if i < n then 1 else 0) - Times(laps, Sum(n, h))
  {
    if n > 0 {
      SumShift(n - 1, f, g, h, i, laps);
      TimesAddUnits(laps, Sum(n - 1, h), h(n - 1));
    } else {
      TimesIsProduct(laps, 0);
    }
  }

  lemma SumScale(n: nat, f: nat -> int, g: nat -> int, c: int)
    requires forall k: nat :: k < n ==> f(k) == c * g(k)
    ensures Sum(n, f) == c * Sum(n, g)
  {
  }

  /** A Go map answers the empty string for a key it does not hold. */
  function At(m: map<string, string>, k: string): (v: string) {
    if k in m then m[k] else ""
  }
}
