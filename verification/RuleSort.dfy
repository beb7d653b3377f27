/** QuickSort of core/router/router.go: the shared slice of rules, in place, highest precedence first. */
module RuleSort {
  import opened RouteModel

  // The predicates speak of the elements lo, ..., hi - 1.

  ghost predicate NonIncreasing(s: seq<RouteRule>, lo: int, hi: int)
    requires 0 <= lo && hi <= |s|
  {
    forall i, j :: lo <= i < j < hi ==> s[i].precedence >= s[j].precedence
  }

  ghost predicate AtLeast(s: seq<RouteRule>, lo: int, hi: int, p: int)
    requires 0 <= lo && hi <= |s|
  {
    forall k :: lo <= k < hi ==> s[k].precedence >= p
  }

  ghost predicate AtMost(s: seq<RouteRule>, lo: int, hi: int, p: int)
    requires 0 <= lo && hi <= |s|
  {
    forall k :: lo <= k < hi ==> s[k].precedence <= p
  }

  /** t has the elements of s, and only those from lo to hi - 1 may have moved. */
  ghost predicate Rearranged(s: seq<RouteRule>, t: seq<RouteRule>, lo: int, hi: int) {
    && |s| == |t|
    && multiset(s) == multiset(t)
    && forall k :: 0 <= k < |s| && !(lo <= k < hi) ==> s[k] == t[k]
  }

  lemma RangeMultiset(s: seq<RouteRule>, lo: nat, hi: nat)
    requires lo <= hi <= |s|
    ensures multiset(s[lo..hi]) == multiset(s) - multiset(s[..lo]) - multiset(s[hi..])
  {
    assert s == s[..lo] + s[lo..hi] + s[hi..];
    assert multiset(s) == multiset(s[..lo]) + multiset(s[lo..hi]) + multiset(s[hi..]);
  }

  lemma SameRange(s: seq<RouteRule>, t: seq<RouteRule>, lo: nat, hi: nat)
    requires lo <= hi <= |s| && Rearranged(s, t, lo, hi)
    ensures multiset(s[lo..hi]) == multiset(t[lo..hi])
  {
    RangeMultiset(s, lo, hi);
    RangeMultiset(t, lo, hi);
    assert s[..lo] == t[..lo] && s[hi..] == t[hi..];
  }

  lemma RearrangedThen(s: seq<RouteRule>, t: seq<RouteRule>, u: seq<RouteRule>, lo: int, mid: int, mid': int, hi: int)
    requires Rearranged(s, t, lo, hi) && Rearranged(t, u, mid, mid') && lo <= mid && mid' <= hi
    ensures Rearranged(s, u, lo, hi)
  {
  }

  /** Every element of the rearranged part comes from that part. */
  lemma RearrangedFrom(s: seq<RouteRule>, t: seq<RouteRule>, lo: nat, hi: nat, k: nat) returns (j: nat)
    requires lo <= k < hi <= |s| && Rearranged(s, t, lo, hi)
    ensures lo <= j < hi && s[j] == t[k]
  {
    SameRange(s, t, lo, hi);
    assert t[lo..hi][k - lo] in multiset(t[lo..hi]);
    var i := IndexIn(s[lo..hi], t[k]);
    j := lo + i;
  }

  lemma IndexIn(s: seq<RouteRule>, x: RouteRule) returns (i: nat)
    requires x in multiset(s)
    ensures i < |s| && s[i] == x
  {
    assert x in s;
    i :| 0 <= i < |s| && s[i] == x;
  }

  /** Rearranging keeps every bound on the rearranged part. */
  lemma RearrangedBounds(s: seq<RouteRule>, t: seq<RouteRule>, lo: nat, hi: nat, p: int)
    requires lo <= hi <= |s| && Rearranged(s, t, lo, hi)
    ensures AtLeast(s, lo, hi, p) ==> AtLeast(t, lo, hi, p)
    ensures AtMost(s, lo, hi, p) ==> AtMost(t, lo, hi, p)
  {
    forall k | lo <= k < hi
      ensures AtLeast(s, lo, hi, p) ==> t[k].precedence >= p
      ensures AtMost(s, lo, hi, p) ==> t[k].precedence <= p
    {
      var j := RearrangedFrom(s, t, lo, hi, k);
    }
  }

  function Swapped(s: seq<RouteRule>, i: nat, j: nat): (t: seq<RouteRule>)
    requires i < |s| && j < |s|
  {
    s[i := s[j]][j := s[i]]
  }

  lemma SwapRearranges(s: seq<RouteRule>, i: nat, j: nat, lo: nat, hi: nat)
    requires lo <= i <= j < hi <= |s|
    ensures Rearranged(s, Swapped(s, i, j), lo, hi)
  {
  }

  /** The first inner loop: down from j to the first element above base, or to i. */
  method ScanDown(s: array<RouteRule>, i: nat, j: nat, base: int) returns (k: nat)
    requires i <= j < s.Length
    ensures i <= k <= j && AtMost(s[..], k + 1, j + 1, base)
    ensures k == i || s[k].precedence > base
  {
    k := j;
    while s[k].precedence <= base && i < k
      invariant i <= k <= j && AtMost(s[..], k + 1, j + 1, base)
      decreases k
    {
      k := k - 1;
    }
  }

  /** The second inner loop: up from i to the first element below base, or to j. */
  method ScanUp(s: array<RouteRule>, i: nat, j: nat, base: int) returns (k: nat)
    requires i <= j < s.Length
    ensures i <= k <= j && AtLeast(s[..], i, k, base)
    ensures k == j || s[k].precedence < base
  {
    k := i;
    while s[k].precedence >= base && k < j
      invariant i <= k <= j && AtLeast(s[..], i, k, base)
      decreases j - k
    {
      k := k + 1;
    }
  }

  /** base stands at left, everything up to i is at least base, everything after j at most base. */
  ghost predicate Scanned(s: seq<RouteRule>, left: nat, i: nat, j: nat, right: nat, base: RouteRule)
    requires right < |s|
  {
    && left <= i <= j <= right
    && s[left] == base
    && AtLeast(s, left, i + 1, base.precedence)
    && AtMost(s, j + 1, right + 1, base.precedence)
  }

  /** One round of the loop: i and j have moved to i' and j', and if they have not met their elements are swapped. */
  lemma ScanRound(s: seq<RouteRule>, left: nat, i: nat, i': nat, j': nat, j: nat, right: nat, base: RouteRule)
    requires right < |s| && Scanned(s, left, i, j, right, base) && i <= i' <= j' <= j
    requires AtMost(s, j' + 1, j + 1, base.precedence) && (j' == i || s[j'].precedence > base.precedence)
    requires AtLeast(s, i, i', base.precedence) && (i' == j' || s[i'].precedence < base.precedence)
    ensures i' == j' ==> Scanned(s, left, i', j', right, base)
    ensures i' < j' ==> Scanned(Swapped(s, i', j'), left, i', j', right, base)
    ensures i' < j' ==> s[j'].precedence > base.precedence > Swapped(s, i', j')[j'].precedence
    ensures NonIncreasing(s, left, right + 1) && i == left ==> i' == j' == left
  {
  }

  /** The loop of QuickSort: the place where base belongs. */
  method Partition(left: nat, right: nat, s: array<RouteRule>) returns (i: nat)
    requires left < right < s.Length
    modifies s
    ensures Rearranged(old(s[..]), s[..], left, right + 1)
    ensures Scanned(s[..], left, i, i, right, old(s[left]))
    ensures old(NonIncreasing(s[..], left, right + 1)) ==> i == left && s[..] == old(s[..])
  {
    i := left;
    var j: nat := right;
    var base := s[left];
    ghost var start := s[..];
    assert Scanned(start, left, i, j, right, base) && Rearranged(start, start, left, right + 1);
    hide Rearranged, NonIncreasing, AtLeast, AtMost;
    while i != j
      invariant Scanned(s[..], left, i, j, right, base)
      invariant Rearranged(start, s[..], left, right + 1)
      invariant NonIncreasing(start, left, right + 1) ==> i == left && s[..] == start
      decreases j - i, if s[j].precedence > base.precedence then 1 else 0
    {
      ghost var was := s[..];
      var j' := ScanDown(s, i, j, base.precedence);
      var i' := ScanUp(s, i, j', base.precedence);
      ScanRound(was, left, i, i', j', j, right, base);
      if i' < j' {
        s[i'], s[j'] := s[j'], s[i'];
        assert s[..] == Swapped(was, i', j');
        SwapRearranges(was, i', j', left, right + 1);
        RearrangedThen(start, was, s[..], left, left, right + 1, right + 1);
      }
      i, j := i', j';
    }
  }

  /** The element at i divides the range: nothing lower before it, nothing higher after it. */
  ghost predicate Divided(s: seq<RouteRule>, left: nat, i: nat, right: nat) {
    && left <= i <= right < |s|
    && AtLeast(s, left, i, s[i].precedence)
    && AtMost(s, i + 1, right + 1, s[i].precedence)
  }

  /** The loop, and the move of base to where the scans met. */
  method PlaceBase(left: nat, right: nat, s: array<RouteRule>) returns (i: nat)
    requires left < right < s.Length
    modifies s
    ensures Rearranged(old(s[..]), s[..], left, right + 1) && Divided(s[..], left, i, right)
    ensures old(NonIncreasing(s[..], left, right + 1)) ==> s[..] == old(s[..])
  {
    hide Rearranged, NonIncreasing, Scanned, Divided, Swapped;
    ghost var base := s[left];
    i := Partition(left, right, s);
    ghost var was := s[..];
    SwapDivides(was, left, i, right, base);
    MoveBase(left, i, s);
    SwapRearranges(was, left, i, left, right + 1);
    RearrangedThen(old(s[..]), was, s[..], left, left, right + 1, right + 1);
  }

  method MoveBase(left: nat, i: nat, s: array<RouteRule>)
    requires left <= i < s.Length
    modifies s
    ensures s[..] == Swapped(old(s[..]), left, i)
  {
    var base := s[left];
    s[left] := s[i];
    s[i] := base;
  }

  lemma SwapDivides(s: seq<RouteRule>, left: nat, i: nat, right: nat, base: RouteRule)
    requires right < |s| && Scanned(s, left, i, i, right, base)
    ensures left <= i <= right && Divided(Swapped(s, left, i), left, i, right)
    ensures i == left ==> Swapped(s, left, i) == s
  {
  }

  lemma OrderedParts(s: seq<RouteRule>, lo: nat, i: nat, hi: nat)
    requires lo <= i < hi <= |s|
    ensures NonIncreasing(s, lo, hi) ==> NonIncreasing(s, lo, i) && NonIncreasing(s, i + 1, hi)
  {
  }

  /** Both parts sorted around the dividing element make the whole sorted. */
  lemma SortedParts(s: seq<RouteRule>, t: seq<RouteRule>, u: seq<RouteRule>, left: nat, i: nat, right: nat)
    requires Divided(s, left, i, right)
    requires Rearranged(s, t, left, i) && NonIncreasing(t, left, i)
    requires Rearranged(t, u, i + 1, right + 1) && NonIncreasing(u, i + 1, right + 1)
    ensures NonIncreasing(u, left, right + 1) && Rearranged(s, u, left, right + 1)
  {
    var p := s[i].precedence;
    RearrangedBounds(s, t, left, i, p);
    RearrangedBounds(t, u, i + 1, right + 1, p);
    assert AtLeast(u, left, i, p) && u[i].precedence == p && AtMost(u, i + 1, right + 1, p);
  }

  /** right may be left - 1, so it is an int as in the source. */
  method QuickSort(left: nat, right: int, rules: array<RouteRule>)
    requires left <= right + 1 <= rules.Length
    modifies rules
    ensures Rearranged(old(rules[..]), rules[..], left, right + 1)
    ensures NonIncreasing(rules[..], left, right + 1)
    ensures old(NonIncreasing(rules[..], left, right + 1)) ==> rules[..] == old(rules[..])
    decreases right + 1 - left
  {
    if left >= right {
      return;
    }
    hide Rearranged, NonIncreasing, AtLeast, AtMost;
    var i: int := PlaceBase(left, right, rules);
    ghost var placed := rules[..];
    OrderedParts(placed, left, i, right + 1);
    QuickSort(left, i - 1, rules);
    ghost var half := rules[..];
    QuickSort(i + 1, right, rules);
    SortedParts(placed, half, rules[..], left, i, right);
    RearrangedThen(old(rules[..]), placed, rules[..], left, left, right + 1, right + 1);
  }
}
