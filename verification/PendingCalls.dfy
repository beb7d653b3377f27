/**
  The pending-call protocol of client/highway/highway_base_client.go and client_conn.go as a state machine.

  Callers run Send, receivers run processMsg, one per connection, and anyone may close the client. A step is one action
  on shared state; closing holds the table's mutex over several steps, and no other table access happens meanwhile.
 */
module PendingCalls {
  import opened Base

  const OK := 200

  /** A response frame: its message ID, and the status its header decodes to. */
  datatype Frame = Frame(msgID: nat, status: int)

  datatype Outcome = SendError | Timeout | Answer(rsp: Frame) | ErrorAnswer

  /** Where a caller stands in Send. */
  datatype Phase =
    | Sending                      // registered by AddWaitMsg, AsyncSendMsg not yet returned
    | SendFailed                   // AsyncSendMsg failed and called Done
    | Waiting                      // in the select
    | Selected(timedOut: bool)     // left the select, still registered
    | Unregistered(timedOut: bool) // after RemoveWaitMsg
    | Returned(outcome: Outcome)

  /** One InvocationContext: closes counts how often its wait channel was closed, once is its sync.Once. */
  datatype Call = Call(msgID: nat, phase: Phase, once: bool, closes: nat, rsp: Option<Frame>)

  /** A receiver: idle, after GetWaitMsg found a context, or after the response was written to it. */
  datatype Receiver = Idle | Found(frame: Frame, call: nat) | Written(frame: Frame, call: nat)

  /** close has locked the table and still has to signal left; registered is what it found. */
  datatype Closing = NotClosing | Locked(registered: set<nat>, left: set<nat>)

  datatype State = State(
    calls: map<nat, Call>,
    table: map<nat, nat>,
    receivers: map<nat, Receiver>,
    closing: Closing,
    closed: bool)

  const START := State(map[], map[], map[], NotClosing, false)

  datatype Step =
    | Register(c: nat, msgID: nat)
    | SendOk(c: nat)
    | SendFail(c: nat)
    | FailReturn(c: nat)
    | Wake(c: nat)
    | TimeOut(c: nat)
    | Unregister(c: nat)
    | Return(c: nat)
    | Lookup(conn: nat, frame: Frame)
    | Write(conn: nat)
    | Complete(conn: nat)
    | CloseBegin
    | CloseSignal(c: nat)
    | CloseEnd

  // ---------- what a step does ----------

  /** InvocationContext.Done. */
  function Done(call: Call): (r: Call)
    ensures r.msgID == call.msgID && r.phase == call.phase && r.rsp == call.rsp
  {
    if call.once then call else call.(once := true, closes := call.closes + 1)
  }

  function ReceiverOf(s: State, conn: nat): (r: Receiver) {
    if conn in s.receivers then s.receivers[conn] else Idle
  }

  predicate InPhase(s: State, c: nat, p: Phase) {
    c in s.calls && s.calls[c].phase == p
  }

  predicate Enabled(s: State, step: Step) {
    match step
    case Register(c, _) => c !in s.calls && s.closing.NotClosing?
    case SendOk(c) => InPhase(s, c, Sending)
    case SendFail(c) => InPhase(s, c, Sending)
    case FailReturn(c) => InPhase(s, c, SendFailed) && s.closing.NotClosing?
    case Wake(c) => InPhase(s, c, Waiting) && s.calls[c].closes > 0
    case TimeOut(c) => InPhase(s, c, Waiting)
    case Unregister(c) => c in s.calls && s.calls[c].phase.Selected? && s.closing.NotClosing?
    case Return(c) => c in s.calls && s.calls[c].phase.Unregistered?
    case Lookup(conn, _) => ReceiverOf(s, conn).Idle? && s.closing.NotClosing?
    case Write(conn) => ReceiverOf(s, conn).Found? && ReceiverOf(s, conn).call in s.calls
    case Complete(conn) => ReceiverOf(s, conn).Written? && ReceiverOf(s, conn).call in s.calls
    case CloseBegin => s.closing.NotClosing? && !s.closed
    case CloseSignal(c) => s.closing.Locked? && c in s.closing.left && c in s.calls
    case CloseEnd => s.closing.Locked? && s.closing.left == {}
  }

  function Update(s: State, c: nat, call: Call): (t: State) {
    s.(calls := s.calls[c := call])
  }

  /** The two ways out of Send after its entry has been removed from the table. */
  function Finish(call: Call): (r: Call)
    requires call.phase.Unregistered?
    ensures r.msgID == call.msgID && r.phase.Returned?
  {
    if call.phase.timedOut then Done(call).(phase := Returned(Timeout))
    else if call.rsp.Some? && call.rsp.value.status == OK then call.(phase := Returned(Answer(call.rsp.value)))
    else call.(phase := Returned(ErrorAnswer))
  }

  function Next(s: State, step: Step): (t: State)
    requires Enabled(s, step)
  {
    match step
    case Register(c, id) => Update(s, c, Call(id, Sending, false, 0, None)).(table := s.table[id := c])
    case SendOk(c) => Update(s, c, s.calls[c].(phase := Waiting))
    case SendFail(c) => Update(s, c, Done(s.calls[c]).(phase := SendFailed))
    case FailReturn(c) =>
      Update(s, c, s.calls[c].(phase := Returned(SendError))).(table := s.table - {s.calls[c].msgID})
    case Wake(c) => Update(s, c, s.calls[c].(phase := Selected(false)))
    case TimeOut(c) => Update(s, c, s.calls[c].(phase := Selected(true)))
    case Unregister(c) =>
      Update(s, c, s.calls[c].(phase := Unregistered(s.calls[c].phase.timedOut)))
        .(table := s.table - {s.calls[c].msgID})
    case Return(c) => Update(s, c, Finish(s.calls[c]))
    case Lookup(conn, f) =>
      if f.msgID in s.table then s.(receivers := s.receivers[conn := Found(f, s.table[f.msgID])]) else s
    case Write(conn) =>
      var r := ReceiverOf(s, conn);
      Update(s, r.call, s.calls[r.call].(rsp := Some(r.frame)))
        .(receivers := s.receivers[conn := Written(r.frame, r.call)])
    case Complete(conn) =>
      var r := ReceiverOf(s, conn);
      Update(s, r.call, Done(s.calls[r.call])).(receivers := s.receivers[conn := Idle])
    case CloseBegin => s.(closing := Locked(s.table.Values, s.table.Values))
    case CloseSignal(c) =>
      Update(s, c, Done(s.calls[c])).(closing := Locked(s.closing.registered, s.closing.left - {c}))
    case CloseEnd => s.(table := map[], closing := NotClosing, closed := true)
  }

  // ---------- invariants ----------

  predicate InFlight(call: Call) {
    !call.phase.Returned?
  }

  /** Registered and not yet on the way out. */
  predicate Registered(call: Call) {
    call.phase.Sending? || call.phase.SendFailed? || call.phase.Waiting? || call.phase.Selected?
  }

  /** Each wait channel is closed at most once, and a caller leaves Send only with its channel closed. */
  ghost predicate CallInv(call: Call) {
    && call.closes == (if call.once then 1 else 0)
    && (call.phase.Returned? || call.phase.SendFailed? ==> call.closes == 1)
    && (call.phase == Selected(false) || call.phase == Unregistered(false) ==> call.closes == 1)
    && (call.rsp.Some? ==> call.rsp.value.msgID == call.msgID)
    && (call.phase.Returned? && call.phase.outcome.Answer? ==>
          call.phase.outcome.rsp.msgID == call.msgID && call.phase.outcome.rsp.status == OK)
  }

  ghost predicate CallsInv(s: State) {
    forall c :: c in s.calls ==> CallInv(s.calls[c])
  }

  /** The table holds only calls that are still registered, under their own ID. */
  ghost predicate TableInv(s: State) {
    forall id :: id in s.table ==>
      s.table[id] in s.calls && s.calls[s.table[id]].msgID == id && Registered(s.calls[s.table[id]])
  }

  /** A registered call is in the table unless it has been signalled. */
  ghost predicate FoundInv(s: State) {
    forall c :: c in s.calls && Registered(s.calls[c]) && s.calls[c].closes == 0 ==>
      s.calls[c].msgID in s.table && s.table[s.calls[c].msgID] == c
  }

  /** A receiver holds only a call with the ID of its frame. */
  ghost predicate ReceiverInv(s: State) {
    forall conn :: conn in s.receivers && !s.receivers[conn].Idle? ==>
      s.receivers[conn].call in s.calls && s.calls[s.receivers[conn].call].msgID == s.receivers[conn].frame.msgID
  }

  /** While the table is locked it does not change, and whoever is not left has been signalled. */
  ghost predicate ClosingInv(s: State) {
    s.closing.Locked? ==>
      && s.closing.registered == s.table.Values
      && s.closing.left <= s.closing.registered
      && (forall c :: c in s.closing.registered ==> c in s.calls && (c in s.closing.left || s.calls[c].closes == 1))
  }

  ghost predicate DistinctIds(s: State) {
    forall a, b :: a in s.calls && b in s.calls && a != b && InFlight(s.calls[a]) && InFlight(s.calls[b]) ==>
      s.calls[a].msgID != s.calls[b].msgID
  }

  ghost predicate Inv(s: State) {
    CallsInv(s) && TableInv(s) && FoundInv(s) && ReceiverInv(s) && ClosingInv(s) && DistinctIds(s)
  }

  /** The assumption on callers: the ID of a new call is not that of a call in flight. */
  ghost predicate FreshId(s: State, step: Step) {
    step.Register? ==> forall a :: a in s.calls && InFlight(s.calls[a]) ==> s.calls[a].msgID != step.msgID
  }

  /** A run in which every new call has a fresh ID. */
  ghost predicate IsFreshRun(s: State, steps: seq<Step>, t: State)
    decreases |steps|
  {
    if steps == [] then s == t
    else Enabled(s, steps[0]) && FreshId(s, steps[0]) && IsFreshRun(Next(s, steps[0]), steps[1..], t)
  }

  // ---------- every step keeps the invariants ----------

  lemma CallsNext(s: State, step: Step)
    requires CallsInv(s) && ReceiverInv(s) && Enabled(s, step)
    ensures CallsInv(Next(s, step))
  {
  }

  lemma DistinctNext(s: State, step: Step)
    requires DistinctIds(s) && Enabled(s, step) && FreshId(s, step)
    ensures DistinctIds(Next(s, step))
  {
    hide Done, Finish;
  }

  lemma TableNext(s: State, step: Step)
    requires TableInv(s) && DistinctIds(s) && Enabled(s, step)
    ensures TableInv(Next(s, step))
  {
    hide Done, Finish;
  }

  lemma FoundNext(s: State, step: Step)
    requires FoundInv(s) && ClosingInv(s) && DistinctIds(s) && Enabled(s, step) && FreshId(s, step)
    ensures FoundInv(Next(s, step))
  {
    hide Finish;
  }

  lemma ReceiverNext(s: State, step: Step)
    requires ReceiverInv(s) && TableInv(s) && Enabled(s, step)
    ensures ReceiverInv(Next(s, step))
  {
    hide Done, Finish;
  }

  lemma ClosingNext(s: State, step: Step)
    requires ClosingInv(s) && CallsInv(s) && TableInv(s) && Enabled(s, step)
    ensures ClosingInv(Next(s, step))
  {
  }

  lemma InvNext(s: State, step: Step)
    requires Inv(s) && Enabled(s, step) && FreshId(s, step)
    ensures Inv(Next(s, step))
  {
    hide CallsInv, TableInv, FoundInv, ReceiverInv, ClosingInv, DistinctIds, Next, Enabled, FreshId;
    CallsNext(s, step);
    TableNext(s, step);
    FoundNext(s, step);
    ReceiverNext(s, step);
    ClosingNext(s, step);
    DistinctNext(s, step);
  }

  lemma {:induction false} InvRun(s: State, steps: seq<Step>, t: State)
    requires Inv(s) && IsFreshRun(s, steps, t)
    ensures Inv(t)
    decreases |steps|
  {
    if steps != [] {
      hide Inv, Next, Enabled, FreshId;
      InvNext(s, steps[0]);
      InvRun(Next(s, steps[0]), steps[1..], t);
    }
  }

  // ---------- main results ----------

  /**
    Safety over every interleaving in which the IDs of calls in flight are distinct: no wait channel is closed twice,
    and a returned call's exactly once; what is written to a call, and the answer it returns, come from frames with its
    ID; the table holds no returned call, and the ID of a returned call only for another call in flight.
   */
  lemma CallsAreSafe(steps: seq<Step>, t: State, c: nat)
    requires IsFreshRun(START, steps, t) && c in t.calls
    ensures var call := t.calls[c];
            && call.closes <= 1
            && (call.phase.Returned? ==> call.closes == 1)
            && (call.rsp.Some? ==> call.rsp.value.msgID == call.msgID)
            && (call.phase.Returned? && call.phase.outcome.Answer? ==>
                  call.phase.outcome.rsp.msgID == call.msgID && call.phase.outcome.rsp.status == OK)
            && (call.phase.Returned? ==> c !in t.table.Values)
            && (call.phase.Returned? && call.msgID in t.table ==>
                  var d := t.table[call.msgID]; d != c && d in t.calls && InFlight(t.calls[d]))
  {
    assert Inv(START);
    InvRun(START, steps, t);
  }

  /**
    No response is lost on the way to its caller: over every such interleaving, a frame looked up while a call with its
    ID is registered and has not been signalled finds that call.
   */
  lemma ResponseFindsItsCall(steps: seq<Step>, t: State, conn: nat, f: Frame, c: nat)
    requires IsFreshRun(START, steps, t) && Enabled(t, Lookup(conn, f))
    requires c in t.calls && Registered(t.calls[c]) && t.calls[c].closes == 0 && t.calls[c].msgID == f.msgID
    ensures ReceiverOf(Next(t, Lookup(conn, f)), conn) == Found(f, c)
  {
    assert Inv(START);
    InvRun(START, steps, t);
  }

  /** Delivering a response touches no call but the one with the ID of the frame. */
  lemma DeliversOnlyItsCall(steps: seq<Step>, t: State, step: Step, c: nat)
    requires IsFreshRun(START, steps, t) && (step.Write? || step.Complete?) && Enabled(t, step)
    requires c in t.calls && c in Next(t, step).calls && Next(t, step).calls[c] != t.calls[c]
    ensures var r := ReceiverOf(t, step.conn); r.call == c && r.frame.msgID == t.calls[c].msgID
  {
    assert Inv(START);
    InvRun(START, steps, t);
  }

  /** The steps by which a response on an idle connection reaches its caller. */
  function Delivery(conn: nat, f: Frame, c: nat): (steps: seq<Step>) {
    [Lookup(conn, f), Write(conn), Complete(conn), Wake(c), Unregister(c), Return(c)]
  }

  /**
    A response that arrives for a waiting call can be delivered, and then the call returns it if its status is 200 and
    an error otherwise, with its ID out of the table.
   */
  lemma AnswerReturned(steps: seq<Step>, t: State, conn: nat, f: Frame, c: nat) returns (u: State)
    requires IsFreshRun(START, steps, t) && Enabled(t, Lookup(conn, f))
    requires InPhase(t, c, Waiting) && t.calls[c].closes == 0 && t.calls[c].msgID == f.msgID
    ensures IsFreshRun(t, Delivery(conn, f, c), u)
    ensures InPhase(u, c, Returned(if f.status == OK then Answer(f) else ErrorAnswer)) && f.msgID !in u.table
  {
    assert Inv(START);
    InvRun(START, steps, t);
    ResponseFindsItsCall(steps, t, conn, f, c);
    var s1 := Next(t, Lookup(conn, f));
    var s3, toCaller := Delivered(s1, conn, f, c);
    var fromCaller;
    u, fromCaller := Answered(s3, c);
    RunAppend(s1, toCaller, s3, fromCaller, u);
    var all := RunCons(t, Lookup(conn, f), toCaller + fromCaller, u);
    assert all == Delivery(conn, f, c);
  }

  lemma Delivered(s1: State, conn: nat, f: Frame, c: nat) returns (s3: State, steps: seq<Step>)
    requires ReceiverOf(s1, conn) == Found(f, c) && InPhase(s1, c, Waiting) && CallInv(s1.calls[c])
    ensures steps == [Write(conn), Complete(conn)] && IsFreshRun(s1, steps, s3)
    ensures InPhase(s3, c, Waiting) && s3.calls[c].closes == 1 && s3.calls[c].rsp == Some(f)
    ensures s3.calls[c].msgID == s1.calls[c].msgID && s3.closing == s1.closing
  {
    var s2 := Next(s1, Write(conn));
    s3 := Next(s2, Complete(conn));
    steps := RunCons(s2, Complete(conn), [], s3);
    steps := RunCons(s1, Write(conn), steps, s3);
  }

  lemma Answered(s3: State, c: nat) returns (u: State, steps: seq<Step>)
    requires InPhase(s3, c, Waiting) && s3.calls[c].closes == 1 && s3.calls[c].rsp.Some? && s3.closing.NotClosing?
    ensures steps == [Wake(c), Unregister(c), Return(c)] && IsFreshRun(s3, steps, u)
    ensures var f := s3.calls[c].rsp.value; InPhase(u, c, Returned(if f.status == OK then Answer(f) else ErrorAnswer))
    ensures s3.calls[c].msgID !in u.table
  {
    var s4 := Next(s3, Wake(c));
    var s5 := Next(s4, Unregister(c));
    u := Next(s5, Return(c));
    steps := RunCons(s5, Return(c), [], u);
    steps := RunCons(s4, Unregister(c), steps, u);
    steps := RunCons(s3, Wake(c), steps, u);
  }

  /** And close signals nobody else: only calls that are in the table. */
  lemma CloseSignalsOnlyRegistered(steps: seq<Step>, s: State, c: nat)
    requires IsFreshRun(START, steps, s) && Enabled(s, CloseSignal(c))
    ensures c in s.table.Values
  {
    assert Inv(START);
    InvRun(START, steps, s);
  }

  /** A closed client stays closed, and is not closed again. */
  lemma {:induction false} ClosedForGood(s: State, steps: seq<Step>, t: State)
    requires s.closed && IsFreshRun(s, steps, t)
    ensures t.closed && CloseBegin !in steps
    decreases |steps|
  {
    hide Done, Finish;
    if steps != [] {
      ClosedForGood(Next(s, steps[0]), steps[1..], t);
      assert steps == [steps[0]] + steps[1..];
    }
  }

  // ---------- late responses ----------

  /** A receiver is about to write a response to c that would change the one c has. */
  ghost predicate LateWriter(s: State, c: nat)
    requires c in s.calls
  {
    exists conn :: ReceiverOf(s, conn).Found? && ReceiverOf(s, conn).call == c &&
                   Some(ReceiverOf(s, conn).frame) != s.calls[c].rsp
  }

  /** A run over which the response of c changes. */
  ghost predicate Overwrites(s: State, steps: seq<Step>, t: State, c: nat)
    requires c in s.calls
  {
    IsFreshRun(s, steps, t) && c in t.calls && t.calls[c].rsp != s.calls[c].rsp
  }

  /** c has returned, and no receiver is about to change its response. */
  ghost predicate Settled(s: State, c: nat) {
    c in s.calls && s.calls[c].phase.Returned? && !LateWriter(s, c)
  }

  lemma SettledNext(s: State, step: Step, c: nat)
    requires Inv(s) && Settled(s, c) && Enabled(s, step)
    ensures var t := Next(s, step);
            Settled(t, c) && c in s.calls && c in t.calls && t.calls[c].rsp == s.calls[c].rsp
  {
    hide Done, Finish, CallsInv, FoundInv, ClosingInv, DistinctIds;
    var t := Next(s, step);
    assert t.calls[c].phase == s.calls[c].phase;
    assert t.calls[c].rsp == s.calls[c].rsp by {
      if step.Write? && ReceiverOf(s, step.conn).call == c {
        assert Some(ReceiverOf(s, step.conn).frame) == s.calls[c].rsp;
      }
    }
    forall conn | ReceiverOf(t, conn).Found? && ReceiverOf(t, conn).call == c
      ensures Some(ReceiverOf(t, conn).frame) == t.calls[c].rsp
    {
      assert ReceiverOf(t, conn) == ReceiverOf(s, conn);
    }
  }

  lemma {:induction false} SettledRun(s: State, steps: seq<Step>, t: State, c: nat)
    requires Inv(s) && Settled(s, c) && IsFreshRun(s, steps, t)
    ensures Settled(t, c) && c in s.calls && c in t.calls && t.calls[c].rsp == s.calls[c].rsp
    decreases |steps|
  {
    assert c in s.calls;
    if steps != [] {
      hide Inv, Settled, Next, Enabled, FreshId;
      SettledNext(s, steps[0], c);
      InvNext(s, steps[0]);
      SettledRun(Next(s, steps[0]), steps[1..], t, c);
    }
  }

  /**
    The response of a call that has returned, with a timeout for example, can still be overwritten, if and only if a
    receiver found the call before it unregistered and has yet to write a different response.
   */
  lemma LateWriteIff(before: seq<Step>, s: State, c: nat)
    requires IsFreshRun(START, before, s) && c in s.calls && s.calls[c].phase.Returned?
    ensures (exists steps, t :: Overwrites(s, steps, t, c)) <==> LateWriter(s, c)
  {
    assert Inv(START);
    InvRun(START, before, s);
    if LateWriter(s, c) {
      var conn :| ReceiverOf(s, conn).Found? && ReceiverOf(s, conn).call == c &&
                  Some(ReceiverOf(s, conn).frame) != s.calls[c].rsp;
      var t := Next(s, Write(conn));
      var steps := RunCons(s, Write(conn), [], t);
      assert Overwrites(s, steps, t, c);
    } else {
      assert Settled(s, c);
      hide Inv, Settled, LateWriter;
      forall steps, t
        ensures !Overwrites(s, steps, t, c)
      {
        if IsFreshRun(s, steps, t) { SettledRun(s, steps, t, c); }
      }
    }
  }

  /** A response that a receiver has found its call for when the call times out. */
  lemma TimeoutOverwritten(c: nat, conn: nat, f: Frame) returns (steps: seq<Step>, t: State)
    ensures IsFreshRun(START, steps, t) && InPhase(t, c, Returned(Timeout)) && t.calls[c].rsp == None
    ensures LateWriter(t, c) && Enabled(t, Write(conn)) && Next(t, Write(conn)).calls[c].rsp == Some(f)
  {
    var s3, first := TimingOut(c, conn, f);
    var s4 := Next(s3, TimeOut(c));
    var s5 := Next(s4, Unregister(c));
    t := Next(s5, Return(c));
    assert ReceiverOf(t, conn) == Found(f, c);
    steps := RunCons(s5, Return(c), [], t);
    steps := RunCons(s4, Unregister(c), steps, t);
    steps := RunCons(s3, TimeOut(c), steps, t);
    RunAppend(START, first, s3, steps, t);
    steps := first + steps;
  }

  lemma TimingOut(c: nat, conn: nat, f: Frame) returns (s3: State, steps: seq<Step>)
    ensures IsFreshRun(START, steps, s3)
    ensures s3 == State(map[c := Call(f.msgID, Waiting, false, 0, None)], map[f.msgID := c],
                        map[conn := Found(f, c)], NotClosing, false)
  {
    var s1 := Next(START, Register(c, f.msgID));
    var s2 := Next(s1, SendOk(c));
    s3 := Next(s2, Lookup(conn, f));
    steps := RunCons(s2, Lookup(conn, f), [], s3);
    steps := RunCons(s1, SendOk(c), steps, s3);
    steps := RunCons(START, Register(c, f.msgID), steps, s3);
  }

  lemma {:induction false} RunAppend(s: State, first: seq<Step>, m: State, second: seq<Step>, t: State)
    requires IsFreshRun(s, first, m) && IsFreshRun(m, second, t)
    ensures IsFreshRun(s, first + second, t)
    decreases |first|
  {
    hide Enabled, Next, FreshId;
    if first == [] {
      assert first + second == second;
    } else {
      RunAppend(Next(s, first[0]), first[1..], m, second, t);
      assert (first + second)[1..] == first[1..] + second;
    }
  }

  lemma RunCons(s: State, step: Step, rest: seq<Step>, t: State) returns (steps: seq<Step>)
    requires Enabled(s, step) && FreshId(s, step) && IsFreshRun(Next(s, step), rest, t)
    ensures steps == [step] + rest && IsFreshRun(s, steps, t)
  {
    steps := [step] + rest;
    assert steps[1..] == rest;
  }

  lemma {:induction false} StaysLocked(s: State, steps: seq<Step>, t: State)
    requires s.closing.Locked? && IsFreshRun(s, steps, t) && CloseEnd !in steps
    ensures t.closing.Locked? && t.closing.registered == s.closing.registered
    decreases |steps|
  {
    if steps != [] {
      assert steps[0] in steps;
      assert forall x :: x in steps[1..] ==> x in steps;
      StaysLocked(Next(s, steps[0]), steps[1..], t);
    }
  }

  /** close signals every call registered when it took the lock, whatever else happens before it releases it. */
  lemma CloseSignalsAll(before: seq<Step>, s: State, steps: seq<Step>, t: State, id: nat)
    requires IsFreshRun(START, before, s) && Enabled(s, CloseBegin)
    requires IsFreshRun(Next(s, CloseBegin), steps, t) && CloseEnd !in steps && Enabled(t, CloseEnd)
    requires id in s.table
    ensures s.table[id] in t.calls && t.calls[s.table[id]].closes == 1
    ensures Next(t, CloseEnd).table == map[] && Next(t, CloseEnd).closed
  {
    assert Inv(START);
    InvRun(START, before, s);
    InvNext(s, CloseBegin);
    InvRun(Next(s, CloseBegin), steps, t);
    StaysLocked(Next(s, CloseBegin), steps, t);
    assert s.table[id] in s.table.Values;
  }

  /**
    The assumption on IDs is exact: registering an ID keeps every unsignalled registered call in the table if and only
    if none of them has that ID.
   */
  lemma FreshIdExact(s: State, c: nat, msgID: nat)
    requires Inv(s) && Enabled(s, Register(c, msgID))
    ensures FoundInv(Next(s, Register(c, msgID))) <==>
            forall a :: a in s.calls && Registered(s.calls[a]) && s.calls[a].closes == 0 ==> s.calls[a].msgID != msgID
  {
    var t := Next(s, Register(c, msgID));
    if FoundInv(t) {
      forall a | a in s.calls && Registered(s.calls[a]) && s.calls[a].closes == 0
        ensures s.calls[a].msgID != msgID
      {
        assert t.calls[a] == s.calls[a];
      }
    }
  }
}
