/**
  GenerateMsgID of client/highway/highway_msgobj.go: the counter is incremented under a mutex and read after it is
  released, so the increments and reads of concurrent callers interleave freely.
 */
module MsgIds {

  const UINT64 := 0x1_0000_0000_0000_0000

  /** What happens to the counter: some caller's increment, or some caller's read. */
  datatype Event = Increment(caller: nat) | Read(caller: nat)

  function Increments(events: seq<Event>): (n: nat) {
    if events == [] then 0
    else Increments(events[..|events| - 1]) + if events[|events| - 1].Increment? then 1 else 0
  }

  /** The ID that a read at position p answers: the 64-bit counter. */
  function IdAt(events: seq<Event>, p: nat): (id: nat)
    requires p < |events| && events[p].Read?
  {
    Increments(events[..p]) % UINT64
  }

  lemma {:induction false} IncrementsBetween(events: seq<Event>, p: nat, q: nat)
    requires p <= q <= |events|
    ensures Increments(events[..q]) == Increments(events[..p]) + Increments(events[p..q])
  {
    if p == q {
      assert events[p..q] == [];
    } else {
      IncrementsBetween(events, p, q - 1);
      assert events[..q][..q - 1] == events[..q - 1];
      assert events[p..q][..q - 1 - p] == events[p..q - 1];
    }
  }

  /** Two callers get the same ID if and only if a multiple of 2^64 increments, in practice none, separates their reads. */
  lemma SameIdIff(events: seq<Event>, p: nat, q: nat)
    requires p < q < |events| && events[p].Read? && events[q].Read?
    ensures IdAt(events, p) == IdAt(events, q) <==> Increments(events[p..q]) % UINT64 == 0
  {
    IncrementsBetween(events, p, q);
  }

  /** Concurrent callers can therefore share an ID: both increment, then both read. */
  lemma ConcurrentCallersShare() returns (events: seq<Event>)
    ensures events == [Increment(0), Increment(1), Read(0), Read(1)]
    ensures IdAt(events, 2) == IdAt(events, 3)
  {
    events := [Increment(0), Increment(1), Read(0), Read(1)];
    assert events[2..3] == [Read(0)];
    assert [Read(0)][..0] == [];
    SameIdIff(events, 2, 3);
  }

  /** Callers that are not interrupted between increment and read get distinct IDs. */
  lemma SerialCallersDistinct(events: seq<Event>, p: nat, q: nat)
    requires p < q < |events| && events[p].Read? && events[q].Read?
    requires events[q - 1] == Increment(events[q].caller) && |events| < UINT64
    ensures IdAt(events, p) != IdAt(events, q)
  {
    var between := events[p..q];
    assert between[|between| - 1] == events[q - 1];
    IncrementsBound(between);
    SameIdIff(events, p, q);
  }

  lemma {:induction false} IncrementsBound(events: seq<Event>)
    ensures Increments(events) <= |events|
  {
    if events != [] { IncrementsBound(events[..|events| - 1]); }
  }
}
