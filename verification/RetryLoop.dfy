/**
  handleWithRetry of core/handler/loadbalance_handler.go over the handler chain of core/handler/handler_chain.go.
  Endpoint selection and the handlers further down the chain are parameters; waiting between attempts is left out.
 */
module RetryLoop {
  import opened Base
  import opened Gcds

  datatype Response = Response(err: Option<string>, result: string)

  const EMPTY_RESPONSE := Response(None, "")

  /** What the rest of the chain does in one attempt: how it calls back (nil is None), and where it leaves the index. */
  datatype Reply = Reply(callbacks: seq<Option<Response>>, indexAfter: int)

  datatype Endpoint = Selected(address: string) | NoEndpoint(error: string)

  /** An attempt: the endpoint it was made on, and the handler index the chain started it from. */
  datatype Attempt = Attempt(endpoint: string, handlerIndex: int)

  // ---------- the chain ----------

  /** The request: where it is sent to next. */
  class Invocation {
    var endpoint: string

    constructor ()
      ensures endpoint == ""
    {
      endpoint := "";
    }
  }

  /** The caller's callback, with everything it has been called with. */
  class Callback {
    ghost var received: seq<Response>

    constructor ()
      ensures received == []
    {
      received := [];
    }

    method Call(r: Response)
      modifies this
      ensures received == old(received) + [r]
    {
      received := received + [r];
    }
  }

  /** log is the history of Next: the endpoint of the request and the index found at each call. */
  class Chain {
    const handlers: nat
    var handlerIndex: int
    ghost var log: seq<Attempt>

    constructor (handlers: nat, handlerIndex: int)
      ensures this.handlers == handlers && this.handlerIndex == handlerIndex && log == []
    {
      this.handlers, this.handlerIndex := handlers, handlerIndex;
      log := [];
    }

    /** Next: past the last handler it answers success itself; otherwise the next handler takes over. */
    method Next(inv: Invocation, reply: Reply) returns (callbacks: seq<Option<Response>>)
      modifies this
      ensures callbacks == Effective(handlers, old(handlerIndex), reply).callbacks
      ensures log == old(log) + [Attempt(inv.endpoint, old(handlerIndex))]
    {
      log := log + [Attempt(inv.endpoint, handlerIndex)];
      var index := handlerIndex;
      if index >= handlers {
        return [Some(EMPTY_RESPONSE)];
      }
      handlerIndex := handlerIndex + 1;
      // The handler itself runs here, and may move the index on.
      handlerIndex := reply.indexAfter;
      return reply.callbacks;
    }
  }

  function Effective(handlers: nat, index: int, reply: Reply): (r: Reply) {
    if index >= handlers then Reply([Some(EMPTY_RESPONSE)], index) else reply
  }

  // ---------- one attempt ----------

  /** The last response among the callbacks; nil responses do not count. */
  function LastOf(callbacks: seq<Option<Response>>): (r: Option<Response>) {
    if callbacks == [] then None
    else if callbacks[|callbacks| - 1].Some? then callbacks[|callbacks| - 1]
    else LastOf(callbacks[..|callbacks| - 1])
  }

  /** An attempt fails when its last response carries an error; calling back with nil, or not at all, is a success. */
  predicate Failed(reply: Reply) {
    LastOf(reply.callbacks).Some? && LastOf(reply.callbacks).value.err.Some?
  }

  /** invResp after the first n attempts. */
  function LastResponse(replies: nat -> Reply, n: nat): (r: Option<Response>) {
    if n == 0 then None
    else if LastOf(replies(n - 1).callbacks).Some? then LastOf(replies(n - 1).callbacks)
    else LastResponse(replies, n - 1)
  }

  method Operation(chain: Chain, inv: Invocation, ep: string, handlerIndex: int, reply: Reply, invResp: Option<Response>)
    returns (resp: Option<Response>, failed: bool)
    modifies chain, inv
    ensures chain.log == old(chain.log) + [Attempt(ep, handlerIndex)]
    ensures var r := Effective(chain.handlers, handlerIndex, reply);
            failed == Failed(r) && resp == if LastOf(r.callbacks).Some? then LastOf(r.callbacks) else invResp
  {
    inv.endpoint := ep;
    chain.handlerIndex := handlerIndex;
    var callbacks := chain.Next(inv, reply);
    resp, failed := invResp, false;
    for i := 0 to |callbacks|
      invariant resp == if LastOf(callbacks[..i]).Some? then LastOf(callbacks[..i]) else invResp
      invariant failed <==> LastOf(callbacks[..i]).Some? && LastOf(callbacks[..i]).value.err.Some?
    {
      assert callbacks[..i + 1][..i] == callbacks[..i];
      if callbacks[i].Some? {
        resp, failed := callbacks[i], callbacks[i].value.err.Some?;
      }
    }
    assert callbacks[..|callbacks|] == callbacks;
  }

  // ---------- what the nested loops amount to ----------

  /** A call: its limits, the endpoints and replies it will meet, and the index at which every attempt starts. */
  datatype Plan = Plan(onSame: nat, onNext: nat, endpoints: nat -> Endpoint, replies: nat -> Reply, start: int)

  /** Attempts on one endpoint. */
  function PerEndpoint(p: Plan): (n: nat)
    ensures n > 0
  {
    p.onSame + 1
  }

  function Budget(p: Plan): (n: nat) {
    (p.onNext + 1) * PerEndpoint(p)
  }

  /** Attempt t is made on endpoint selection number t / PerEndpoint. */
  function EndpointFor(p: Plan, t: nat): (e: Endpoint) {
    p.endpoints(t / PerEndpoint(p))
  }

  ghost predicate AllFailed(p: Plan, n: nat) {
    forall t: nat :: t < n ==> Failed(p.replies(t))
  }

  /** Every attempt was made on its endpoint and started at the same handler. */
  ghost predicate MadeInOrder(p: Plan, attempts: seq<Attempt>) {
    forall t: nat :: t < |attempts| ==>
      EndpointFor(p, t).Selected? && attempts[t] == Attempt(EndpointFor(p, t).address, p.start)
  }

  /** The next attempt would need a new endpoint, and none can be selected. */
  predicate SelectionFails(p: Plan, n: nat) {
    n < Budget(p) && n % PerEndpoint(p) == 0 && EndpointFor(p, n).NoEndpoint?
  }

  predicate Succeeded(p: Plan, n: nat) {
    n > 0 && !Failed(p.replies(n - 1))
  }

  /** n attempts is where it stops: with the first success, or all failed and the budget or the endpoints at an end. */
  ghost predicate StopsAfter(p: Plan, n: nat) {
    && n <= Budget(p)
    && (forall t: nat :: t < n ==> EndpointFor(p, t).Selected?)
    && if Succeeded(p, n) then AllFailed(p, n - 1) else AllFailed(p, n) && (n == Budget(p) || SelectionFails(p, n))
  }

  /** What the caller's callback gets after n attempts: the last response, unless selection failed. */
  function Delivered(p: Plan, n: nat): (r: Response) {
    if !Succeeded(p, n) && SelectionFails(p, n) then Response(Some(EndpointFor(p, n).error), "")
    else if LastResponse(p.replies, n).Some? then LastResponse(p.replies, n).value
    else EMPTY_RESPONSE
  }

  /** The stopping point is unique, so StopsAfter says exactly how many attempts are made. */
  lemma StopsOnce(p: Plan, m: nat, n: nat)
    requires StopsAfter(p, m) && StopsAfter(p, n)
    ensures m == n
  {
    if m < n { NotBefore(p, m, n); }
    if n < m { NotBefore(p, n, m); }
  }

  lemma NotBefore(p: Plan, m: nat, n: nat)
    requires m < n && StopsAfter(p, n)
    ensures !StopsAfter(p, m)
  {
  }

  /**
    When the last attempt succeeds, the caller is told of a success if and only if that attempt called back with a
    response or no attempt came before it: an attempt that succeeds silently leaves the failure before it to be reported.
   */
  lemma SuccessDeliveredIff(p: Plan, n: nat)
    requires StopsAfter(p, n) && Succeeded(p, n)
    ensures Delivered(p, n).err == None <==> LastOf(p.replies(n - 1).callbacks).Some? || n == 1
    ensures LastOf(p.replies(n - 1).callbacks).Some? ==> Delivered(p, n) == LastOf(p.replies(n - 1).callbacks).value
  {
    hide LastOf, EndpointFor, Budget;
    if n > 1 && LastOf(p.replies(n - 1).callbacks).None? {
      assert Failed(p.replies(n - 2));
      assert LastResponse(p.replies, n - 1) == LastOf(p.replies(n - 2).callbacks);
    } else if n == 1 {
      assert LastResponse(p.replies, 0) == None;
    }
  }

  /** r is the last response, not nil, among the callbacks of a reply. */
  ghost predicate LastResponseOf(r: Response, reply: Reply) {
    exists j :: 0 <= j < |reply.callbacks| && reply.callbacks[j] == Some(r) &&
                forall i :: j < i < |reply.callbacks| ==> reply.callbacks[i] == None
  }

  lemma {:induction false} LastOfIs(callbacks: seq<Option<Response>>) returns (j: int)
    ensures if LastOf(callbacks).None? then j == -1 && forall i :: 0 <= i < |callbacks| ==> callbacks[i] == None
            else 0 <= j < |callbacks| && callbacks[j] == LastOf(callbacks) &&
                 forall i :: j < i < |callbacks| ==> callbacks[i] == None
  {
    if callbacks == [] {
      j := -1;
    } else if callbacks[|callbacks| - 1].Some? {
      j := |callbacks| - 1;
    } else {
      j := LastOfIs(callbacks[..|callbacks| - 1]);
      assert forall i :: 0 <= i < |callbacks| - 1 ==> callbacks[..|callbacks| - 1][i] == callbacks[i];
    }
  }

  /** An attempt fails iff the last response it calls back with carries an error. */
  lemma FailsIff(reply: Reply)
    ensures Failed(reply) <==> exists r :: LastResponseOf(r, reply) && r.err.Some?
  {
    var j := LastOfIs(reply.callbacks);
    hide LastOf;
    if LastOf(reply.callbacks).Some? {
      assert LastResponseOf(LastOf(reply.callbacks).value, reply);
    }
  }

  /**
    Where it stops, spelled out: after n attempts, on endpoints that could all be selected, of which all but the last
    failed; and the last succeeded, or failed as well and either all (retryOnNext + 1) * (retryOnSame + 1) attempts are
    made or a round is over and no endpoint can be selected for the next.
   */
  lemma StopsIff(p: Plan, n: nat)
    ensures StopsAfter(p, n) <==>
            && n <= (p.onNext + 1) * (p.onSame + 1)
            && (forall t: nat :: t < n ==> EndpointFor(p, t).Selected?)
            && (forall t: nat :: t + 1 < n ==> Failed(p.replies(t)))
            && (n == 0 || Failed(p.replies(n - 1)) ==>
                  n == (p.onNext + 1) * (p.onSame + 1) ||
                  (n % (p.onSame + 1) == 0 && EndpointFor(p, n).NoEndpoint?))
  {
    hide Failed, EndpointFor;
    assert AllFailed(p, n) ==> forall t: nat :: t + 1 < n ==> Failed(p.replies(t));
    if n > 0 && forall t: nat :: t + 1 < n ==> Failed(p.replies(t)) {
      assert AllFailed(p, n - 1);
      assert Failed(p.replies(n - 1)) ==> AllFailed(p, n);
    }
    if n > 0 && AllFailed(p, n - 1) { assert forall t: nat :: t + 1 < n ==> Failed(p.replies(t)); }
  }

  /** When the budget is used up, the caller gets the last response of the last attempt, which carries an error. */
  lemma ExhaustedDelivers(p: Plan, n: nat)
    requires StopsAfter(p, n) && n == (p.onNext + 1) * (p.onSame + 1) && Failed(p.replies(n - 1))
    ensures LastResponseOf(Delivered(p, n), p.replies(n - 1)) && Delivered(p, n).err.Some?
  {
    hide EndpointFor;
    var j := LastOfIs(p.replies(n - 1).callbacks);
    hide LastOf;
  }

  /** When it stops before that without a success, no endpoint could be selected, and the caller gets that error. */
  lemma SelectionErrorDelivered(p: Plan, n: nat)
    requires StopsAfter(p, n) && n < (p.onNext + 1) * (p.onSame + 1) && (n == 0 || Failed(p.replies(n - 1)))
    ensures var e := EndpointFor(p, n);
            e.NoEndpoint? && Delivered(p, n) == Response(Some(e.error), "")
  {
    hide LastOf, Failed;
  }

  /** Past the last handler of the chain the first attempt succeeds with an empty response, and nobody is asked. */
  lemma PastLastHandler(p: Plan, handlers: nat, replies: nat -> Reply, n: nat)
    requires Through(p, handlers, replies) && StopsAfter(p, n) && p.endpoints(0).Selected?
    ensures p.start >= handlers ==> n == 1 && Delivered(p, n) == Response(None, "")
    ensures p.start < handlers ==> forall t: nat :: p.replies(t) == replies(t)
  {
    if p.start >= handlers {
      assert p.replies(0).callbacks == [Some(EMPTY_RESPONSE)];
      assert LastOf(p.replies(0).callbacks) == Some(EMPTY_RESPONSE);
      assert EndpointFor(p, 0) == p.endpoints(0) by { RoundOf(p, 0, 0); }
      BudgetPositive(p);
      hide LastOf, EndpointFor, Budget;
      assert StopsAfter(p, 1);
      StopsOnce(p, 1, n);
      assert LastResponse(p.replies, 0) == None;
    }
  }

  lemma BudgetPositive(p: Plan)
    ensures Budget(p) >= 1
  {
    MulPositive(p.onNext + 1, PerEndpoint(p));
  }

  /** An attempt that fails, then one that succeeds without calling back: the caller gets the error. */
  lemma SilentSuccessFails()
    ensures var failing, silent := Reply([Some(Response(Some("refused"), ""))], 0), Reply([], 0);
            var p := Plan(1, 0, j => Selected("host"), t => if t == 0 then failing else silent, 0);
            StopsAfter(p, 2) && Succeeded(p, 2) && Delivered(p, 2).err == Some("refused")
  {
    var failing, silent := Reply([Some(Response(Some("refused"), ""))], 0), Reply([], 0);
    var p := Plan(1, 0, j => Selected("host"), t => if t == 0 then failing else silent, 0);
    assert LastOf(p.replies(0).callbacks) == Some(Response(Some("refused"), "")) && LastOf(p.replies(1).callbacks) == None;
    assert LastResponse(p.replies, 1) == Some(Response(Some("refused"), ""));
  }

  lemma RoundOf(p: Plan, j: nat, c: nat)
    requires c < PerEndpoint(p)
    ensures (j * PerEndpoint(p) + c) / PerEndpoint(p) == j && (j * PerEndpoint(p) + c) % PerEndpoint(p) == c
  {
    EuclidUnique(j * PerEndpoint(p) + c, PerEndpoint(p), j, c);
  }

  lemma RoundsFit(p: Plan, j: nat, c: nat)
    requires j <= p.onNext && c <= PerEndpoint(p)
    ensures j * PerEndpoint(p) + c <= Budget(p)
    ensures c < PerEndpoint(p) ==> j * PerEndpoint(p) + c < Budget(p)
    ensures (j + 1) * PerEndpoint(p) == j * PerEndpoint(p) + PerEndpoint(p)
  {
  }

  // ---------- the loops ----------

  /** Both ways of looking at a reply: p.replies is what the chain, standing at p.start, makes of the handlers' replies. */
  ghost predicate Through(p: Plan, handlers: nat, replies: nat -> Reply) {
    forall t: nat :: p.replies(t) == Effective(handlers, p.start, replies(t))
  }

  ghost predicate SoFar(p: Plan, attempts: seq<Attempt>, invResp: Option<Response>) {
    MadeInOrder(p, attempts) && invResp == LastResponse(p.replies, |attempts|)
  }

  lemma StartSoFar(p: Plan)
    ensures SoFar(p, [], None)
  {
  }

  lemma OneMore(p: Plan, attempts: seq<Attempt>, invResp: Option<Response>, address: string, resp: Option<Response>)
    requires SoFar(p, attempts, invResp) && EndpointFor(p, |attempts|) == Selected(address)
    requires var last := LastOf(p.replies(|attempts|).callbacks); resp == if last.Some? then last else invResp
    ensures SoFar(p, attempts + [Attempt(address, p.start)], resp)
  {
  }

  /** backoff.Retry on one endpoint, with a back-off that never gives up: round j, up to PerEndpoint attempts. */
  method RetryOnSame(chain: Chain, inv: Invocation, p: Plan, replies: nat -> Reply, address: string, j: nat,
                     handlerIndex: int, before: nat, invResp: Option<Response>, ghost attempts: seq<Attempt>)
    returns (made: nat, resp: Option<Response>, ok: bool, ghost done: seq<Attempt>)
    requires Through(p, chain.handlers, replies) && |attempts| == before == j * PerEndpoint(p)
    requires p.endpoints(j) == Selected(address) && handlerIndex == p.start
    requires SoFar(p, attempts, invResp) && AllFailed(p, before)
    modifies chain, inv
    ensures SoFar(p, done, resp) && made == |done|
    ensures attempts <= done && chain.log == old(chain.log) + done[before..]
    ensures before < made <= before + PerEndpoint(p)
    ensures if ok then Succeeded(p, made) && AllFailed(p, made - 1)
            else AllFailed(p, made) && made == before + PerEndpoint(p)
  {
    hide EndpointFor, Failed, LastOf, SoFar;
    made, resp, done := before, invResp, attempts;
    var callTimes := 0;
    while true
      invariant 0 <= callTimes <= PerEndpoint(p) && made == |done| == before + callTimes
      invariant SoFar(p, done, resp) && AllFailed(p, made)
      invariant attempts <= done && chain.log == old(chain.log) + done[before..]
      decreases PerEndpoint(p) - callTimes
    {
      if callTimes == p.onSame + 1 {
        return made, resp, false, done;
      }
      EndpointInRound(p, j, callTimes);
      callTimes := callTimes + 1;
      ghost var was, last := resp, Attempt(address, p.start);
      var failed;
      assert p.replies(made) == Effective(chain.handlers, p.start, replies(made));
      resp, failed := Operation(chain, inv, address, handlerIndex, replies(made), resp);
      OneMore(p, done, was, address, resp);
      assert (done + [last])[before..] == done[before..] + [last];
      made, done := made + 1, done + [last];
      if !failed {
        return made, resp, true, done;
      }
    }
  }

  /** The attempts of round j, up to retryOnSame + 1 of them, are made on the endpoint selected for it. */
  lemma EndpointInRound(p: Plan, j: nat, c: nat)
    requires c < p.onSame + 1
    ensures EndpointFor(p, j * (p.onSame + 1) + c) == p.endpoints(j)
  {
    RoundOf(p, j, c);
  }

  /**
    The whole handler: the callback is called once, the calls of Next it leaves in the log of the chain are those up to
    the unique stopping point, in order, each with its endpoint and from the same index, and what is delivered follows
    from them.
   */
  method HandleWithRetry(chain: Chain, inv: Invocation, cb: Callback, p: Plan, replies: nat -> Reply)
    returns (ghost attempts: seq<Attempt>)
    requires p.start == chain.handlerIndex && Through(p, chain.handlers, replies)
    modifies chain, inv, cb
    ensures chain.log == old(chain.log) + attempts
    ensures StopsAfter(p, |attempts|) && MadeInOrder(p, attempts)
    ensures cb.received == old(cb.received) + [Delivered(p, |attempts|)]
  {
    hide Failed, LastOf, Effective, EndpointFor;
    attempts := [];
    assert SoFar(p, attempts, None) by { StartSoFar(p); }
    var made, handlerIndex := 0, chain.handlerIndex;
    var invResp: Option<Response> := None;
    var j := 0;
    while j < p.onNext + 1
      invariant 0 <= j <= p.onNext + 1 && |attempts| == made == j * PerEndpoint(p)
      invariant SoFar(p, attempts, invResp) && AllFailed(p, made)
      invariant chain.log == old(chain.log) + attempts && cb.received == old(cb.received)
    {
      var e := p.endpoints(j);
      RoundsFit(p, j, 0);
      EndpointInRound(p, j, 0);
      RoundOf(p, j, 0);
      if e.NoEndpoint? {
        cb.Call(Response(Some(e.error), ""));
        return;
      }
      var ok;
      RoundsFit(p, j, PerEndpoint(p));
      ghost var before := attempts;
      ghost var done;
      made, invResp, ok, done := RetryOnSame(chain, inv, p, replies, e.address, j, handlerIndex, made, invResp, attempts);
      assert before + done[|before|..] == done;
      attempts := done;
      if ok {
        break;
      }
      j := j + 1;
    }
    cb.Call(if invResp.Some? then invResp.value else EMPTY_RESPONSE);
  }
}
