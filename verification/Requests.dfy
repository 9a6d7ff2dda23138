/** The requests of the linter client to its serve process (packages/client/src/client.ts). */
module Requests {
  // Each request has its own id, and its promise is settled by the response with that id, by a failed
  // write, or by a failure of the process. Every call and every callback is a method, so the class
  // invariant holds over every interleaving, also when an old process still writes after a restart.

  import opened Basics

  type RequestId = nat

  /** A process: the number of processes started before it. */
  type Process = nat

  /** A response; the error text of a failed request is left out. */
  datatype Reply = Result(value: string) | Error

  datatype Outcome = Resolved(value: string) | Rejected

  datatype Event =
    | Requested(id: RequestId, process: Process)
    | Responded(id: RequestId, process: Process, reply: Reply)
    | WriteFailed(id: RequestId)
    | Failed

  function OutcomeOfReply(reply: Reply): Outcome {
    match reply
    case Result(value) => Resolved(value)
    case Error => Rejected
  }

  predicate IsRequested(log: seq<Event>, id: RequestId) {
    exists e :: e in log && e.Requested? && e.id == id
  }

  /** What an event settles an open request with. */
  function Settles(e: Event, id: RequestId): Option<Outcome> {
    match e
    case Requested(_, _) => None
    case Responded(i, _, reply) => if i == id then Some(OutcomeOfReply(reply)) else None
    case WriteFailed(i) => if i == id then Some(Rejected) else None
    case Failed => Some(Rejected)
  }

  /** The outcome of a request: that of the first event after it that settles it. */
  function OutcomeOf(log: seq<Event>, id: RequestId): Option<Outcome> {
    if log == [] then None
    else
      var init, last := log[..|log| - 1], log[|log| - 1];
      var before := OutcomeOf(init, id);
      if before.Some? || !IsRequested(init, id) then before else Settles(last, id)
  }

  /** How often the callbacks of a request are called: by a response or a failure only while it is open. */
  function Calls(log: seq<Event>, id: RequestId): nat {
    if log == [] then 0
    else
      var init, last := log[..|log| - 1], log[|log| - 1];
      var open := IsRequested(init, id) && OutcomeOf(init, id).None?;
      Calls(init, id) + if last == WriteFailed(id) || (open && Settles(last, id).Some?) then 1 else 0
  }

  /** The failed writes that are reported for a request that is not open. */
  function LateWriteFailures(log: seq<Event>, id: RequestId): nat {
    if log == [] then 0
    else
      var init, last := log[..|log| - 1], log[|log| - 1];
      var open := IsRequested(init, id) && OutcomeOf(init, id).None?;
      LateWriteFailures(init, id) + if last == WriteFailed(id) && !open then 1 else 0
  }

  /**
   * The callbacks of a request are called once when it is settled, and again only for a failed write that is reported
   * after that; a promise ignores the second call.
   */
  lemma {:induction false} CalledOnce(log: seq<Event>, id: RequestId)
    ensures Calls(log, id) == LateWriteFailures(log, id) + if OutcomeOf(log, id).Some? then 1 else 0
  {
    if log != [] {
      CalledOnce(log[..|log| - 1], id);
    }
  }

  lemma LogStep(log: seq<Event>, e: Event, id: RequestId)
    ensures IsRequested(log + [e], id) <==> IsRequested(log, id) || (e.Requested? && e.id == id)
    ensures OutcomeOf(log + [e], id) ==
            if OutcomeOf(log, id).Some? || !IsRequested(log, id) then OutcomeOf(log, id) else Settles(e, id)
  {
    assert (log + [e])[..|log|] == log;
    assert e in log + [e] && forall x :: x in log ==> x in log + [e];
  }

  lemma CallsStep(log: seq<Event>, e: Event, id: RequestId)
    ensures Calls(log + [e], id) ==
            Calls(log, id) +
            if e == WriteFailed(id) || (IsRequested(log, id) && OutcomeOf(log, id).None? && Settles(e, id).Some?)
            then 1 else 0
  {
    assert (log + [e])[..|log|] == log;
  }

  /** An outcome never changes. */
  lemma {:induction false} OutcomeIsFinal(log: seq<Event>, more: seq<Event>, id: RequestId)
    requires OutcomeOf(log, id).Some?
    ensures OutcomeOf(log + more, id) == OutcomeOf(log, id)
  {
    if more == [] {
      assert log + more == log;
    } else {
      var init, last := more[..|more| - 1], more[|more| - 1];
      OutcomeIsFinal(log, init, id);
      assert log + more == (log + init) + [last];
      LogStep(log + init, last, id);
    }
  }

  /** The event at i is a response to the open request `id`, with this value. */
  predicate AnswersAt(log: seq<Event>, id: RequestId, value: string, i: nat) {
    && i < |log|
    && log[i].Responded?
    && log[i] == Responded(id, log[i].process, Result(value))
    && IsRequested(log[..i], id)
    && OutcomeOf(log[..i], id).None?
  }

  /** Only a response with the id of the request resolves it, and it does so with its own value. */
  lemma {:induction false} ResolvedByOwnResponse(log: seq<Event>, id: RequestId, value: string)
    requires OutcomeOf(log, id) == Some(Resolved(value))
    ensures exists i: nat :: AnswersAt(log, id, value, i)
  {
    var init := log[..|log| - 1];
    if OutcomeOf(init, id).Some? {
      ResolvedByOwnResponse(init, id, value);
      var i: nat :| AnswersAt(init, id, value, i);
      assert log[..i] == init[..i] && log[i] == init[i];
      assert AnswersAt(log, id, value, i);
    } else {
      assert AnswersAt(log, id, value, |log| - 1);
    }
  }

  /** A process answers only requests that were written to it. */
  predicate AreHonest(log: seq<Event>) {
    forall i :: 0 <= i < |log| && log[i].Responded? ==> Requested(log[i].id, log[i].process) in log[..i]
  }

  /** No two requests have one id. */
  predicate HaveOwnIds(log: seq<Event>) {
    forall i, j :: 0 <= i < j < |log| && log[i].Requested? && log[j].Requested? ==> log[i].id < log[j].id
  }

  /** Honest processes: a request is resolved by the process that it was written to, over every restart. */
  lemma ResolvedByOwnProcess(log: seq<Event>, id: RequestId, process: Process, value: string)
    requires AreHonest(log) && HaveOwnIds(log) && Requested(id, process) in log
    requires OutcomeOf(log, id) == Some(Resolved(value))
    ensures Responded(id, process, Result(value)) in log
  {
    ResolvedByOwnResponse(log, id, value);
    var i: nat :| AnswersAt(log, id, value, i);
    var p := log[i].process;
    assert Requested(id, p) in log[..i];
    var j :| 0 <= j < |log[..i]| && log[..i][j] == Requested(id, p);
    var k :| 0 <= k < |log| && log[k] == Requested(id, process);
    assert log[j] == Requested(id, p);
    assert j == k;
  }

  lemma LogKeepsRequests(log: seq<Event>, id: RequestId)
    requires IsRequested(log, id)
    ensures forall e :: IsRequested(log + [e], id)
  {
    forall e ensures IsRequested(log + [e], id) {
      LogStep(log, e, id);
    }
  }

  /** What the log says of each request is what the pending set and the outcomes say. */
  ghost predicate Agrees(log: seq<Event>, outcomes: map<RequestId, Outcome>, pending: set<RequestId>) {
    && (forall id {:trigger OutcomeOf(log, id)} ::
          OutcomeOf(log, id) == if id in outcomes then Some(outcomes[id]) else None)
    && (forall id {:trigger IsRequested(log, id)} :: IsRequested(log, id) <==> id in pending || id in outcomes)
    && pending !! outcomes.Keys
  }

  function CountOf(calls: map<RequestId, nat>, id: RequestId): nat {
    if id in calls then calls[id] else 0
  }

  /** One more call for each of these ids. */
  function OneMoreFor(calls: map<RequestId, nat>, ids: set<RequestId>): map<RequestId, nat> {
    map id | id in calls.Keys + ids :: CountOf(calls, id) + if id in ids then 1 else 0
  }

  lemma OneMoreForNone(calls: map<RequestId, nat>, ids: set<RequestId>)
    requires ids == {}
    ensures OneMoreFor(calls, ids) == calls
  {
  }

  /** The promises of these requests are rejected; those that are settled stay as they are. */
  function RejectedFor(outcomes: map<RequestId, Outcome>, ids: set<RequestId>): map<RequestId, Outcome> {
    outcomes + map id | id in ids && id !in outcomes :: Rejected
  }

  lemma OneMoreRejected(outcomes: map<RequestId, Outcome>, ids: set<RequestId>, id: RequestId)
    ensures var before := RejectedFor(outcomes, ids);
            RejectedFor(outcomes, ids + {id}) == if id in before then before else before[id := Rejected]
  {
    var after := RejectedFor(outcomes, ids + {id});
    assert after.Keys == RejectedFor(outcomes, ids).Keys + {id};
  }

  lemma OneMoreCalled(calls: map<RequestId, nat>, ids: set<RequestId>, id: RequestId)
    requires id !in ids
    ensures OneMoreFor(OneMoreFor(calls, ids), {id}) == OneMoreFor(calls, ids + {id})
  {
    var before, after := OneMoreFor(OneMoreFor(calls, ids), {id}), OneMoreFor(calls, ids + {id});
    assert before.Keys == after.Keys;
    forall k | k in after ensures before[k] == after[k] {
      assert CountOf(OneMoreFor(calls, ids), k) == CountOf(calls, k) + if k in ids then 1 else 0;
    }
  }

  /** The callbacks were called as often as the log says. */
  ghost predicate AreCounted(log: seq<Event>, calls: map<RequestId, nat>) {
    forall id {:trigger Calls(log, id)} :: Calls(log, id) == CountOf(calls, id)
  }

  lemma CountedStep(log: seq<Event>, outcomes: map<RequestId, Outcome>, pending: set<RequestId>,
                    calls: map<RequestId, nat>, e: Event, called: set<RequestId>)
    requires Agrees(log, outcomes, pending) && AreCounted(log, calls)
    requires forall id :: id in called <==> e == WriteFailed(id) || (id in pending && Settles(e, id).Some?)
    ensures AreCounted(log + [e], OneMoreFor(calls, called))
  {
    forall id ensures Calls(log + [e], id) == CountOf(OneMoreFor(calls, called), id) {
      CallsStep(log, e, id);
      assert id in pending <==> IsRequested(log, id) && OutcomeOf(log, id).None?;
      assert Calls(log, id) == CountOf(calls, id);
    }
  }

  lemma NewRequest(log: seq<Event>, outcomes: map<RequestId, Outcome>, pending: set<RequestId>, id: RequestId,
                   p: Process)
    requires Agrees(log, outcomes, pending) && HaveOwnIds(log) && forall e :: e in log && e.Requested? ==> e.id < id
    ensures Agrees(log + [Requested(id, p)], outcomes, pending + {id}) && HaveOwnIds(log + [Requested(id, p)])
    ensures !IsRequested(log, id)
  {
    forall i ensures OutcomeOf(log + [Requested(id, p)], i) == if i in outcomes then Some(outcomes[i]) else None
      ensures IsRequested(log + [Requested(id, p)], i) <==> i in pending + {id} || i in outcomes
    {
      LogStep(log, Requested(id, p), i);
    }
    assert !IsRequested(log, id);
    forall i | 0 <= i < |log| ensures log[i] in log {}
  }

  /** An event settles the pending ones among the ids that it is for. */
  lemma SettledStep(log: seq<Event>, outcomes: map<RequestId, Outcome>, pending: set<RequestId>, e: Event,
                    ids: set<RequestId>)
    requires Agrees(log, outcomes, pending) && !e.Requested? && HaveOwnIds(log)
    requires forall id :: id in pending ==> (id in ids <==> Settles(e, id).Some?)
    ensures Agrees(log + [e], outcomes + map id | id in pending * ids :: Settles(e, id).GetOr(Rejected), pending - ids)
    ensures HaveOwnIds(log + [e])
  {
    forall i ensures OutcomeOf(log + [e], i) ==
                     if i in pending * ids then Settles(e, i) else if i in outcomes then Some(outcomes[i]) else None
      ensures IsRequested(log + [e], i) <==> IsRequested(log, i)
    {
      LogStep(log, e, i);
      assert OutcomeOf(log, i).None? || i in outcomes;
      assert IsRequested(log, i) <==> i in pending || i in outcomes;
    }
  }

  lemma ResponseStep(log: seq<Event>, outcomes: map<RequestId, Outcome>, pending: set<RequestId>,
                     calls: map<RequestId, nat>, e: Event)
    requires Agrees(log, outcomes, pending) && AreCounted(log, calls) && HaveOwnIds(log) && e.Responded?
    ensures HaveOwnIds(log + [e])
    ensures e.id in pending ==>
              && Agrees(log + [e], outcomes[e.id := OutcomeOfReply(e.reply)], pending - {e.id})
              && AreCounted(log + [e], OneMoreFor(calls, {e.id}))
    ensures e.id !in pending ==> Agrees(log + [e], outcomes, pending) && AreCounted(log + [e], calls)
  {
    SettledStep(log, outcomes, pending, e, {e.id});
    CountedStep(log, outcomes, pending, calls, e, pending * {e.id});
    if e.id in pending {
      assert pending * {e.id} == {e.id};
      assert outcomes + (map id | id in {e.id} :: Settles(e, id).GetOr(Rejected))
          == outcomes[e.id := OutcomeOfReply(e.reply)];
    } else {
      OneMoreForNone(calls, pending * {e.id});
      assert pending - {e.id} == pending && pending * {e.id} == {};
    }
  }

  /** What a read of the output may give: a response, an output that cannot be read, or the end of the waiting time. */
  datatype Input = Response(id: RequestId, process: Process, reply: Reply) | Broken | TimedOut

  class ServeRequests {
    /** The process that requests are written to. */
    var child: Option<Process>
    /** The process failed and no other was started since: the client runs single checks. */
    var fallback: bool
    var disposed: bool
    var nextRequestID: RequestId
    /** The ids whose callbacks are kept. */
    var pending: set<RequestId>
    /** What the promise of each request was settled with first. */
    var outcomes: map<RequestId, Outcome>
    var nextProcess: Process
    /** How often the callbacks of each request were called. */
    ghost var calls: map<RequestId, nat>
    ghost var log: seq<Event>

    constructor ()
      ensures Valid() && log == [] && child.None? && !fallback && !disposed
    {
      child, fallback, disposed := None, false, false;
      nextRequestID, pending, outcomes, nextProcess := 1, {}, map[], 0;
      calls, log := map[], [];
    }

    /** The ids of the requests in the log are below the next one, ascending. */
    ghost predicate IdsAscend()
      reads this
    {
      HaveOwnIds(log) && forall e :: e in log && e.Requested? ==> e.id < nextRequestID
    }

    /** A request is pending or settled, and never both; without a process nothing is written. */
    ghost predicate Valid()
      reads this
    {
      && IdsAscend() && Agrees(log, outcomes, pending) && AreCounted(log, calls)
      && (fallback || disposed ==> child.None?)
    }

    /** The callbacks of a request run once for its outcome, and again only for writes that fail afterwards. */
    lemma CallbacksRunOnce(id: RequestId)
      requires Valid()
      ensures CountOf(calls, id) == LateWriteFailures(log, id) + if id in outcomes then 1 else 0
      ensures id in pending ==> CountOf(calls, id) == LateWriteFailures(log, id)
    {
      CalledOnce(log, id);
      assert OutcomeOf(log, id).Some? <==> id in outcomes;
      assert Calls(log, id) == CountOf(calls, id);
    }

    /** Writes a request; it is rejected at once, without an id, when no process runs. */
    method EnqueueRequest() returns (id: Option<RequestId>)
      requires Valid()
      modifies this`nextRequestID, this`pending, this`log
      ensures Valid()
      ensures id.None? <==> child.None?
      ensures id.None? ==> log == old(log) && pending == old(pending)
      ensures id.Some? ==>
                && !IsRequested(old(log), id.value) && log == old(log) + [Requested(id.value, child.value)]
                && pending == old(pending) + {id.value}
    {
      if child.None? {
        return None;
      }
      id := Some(nextRequestID);
      NewRequest(log, outcomes, pending, nextRequestID, child.value);
      CountedStep(log, outcomes, pending, calls, Requested(nextRequestID, child.value), {});
      OneMoreForNone(calls, {});
      pending, log := pending + {nextRequestID}, log + [Requested(nextRequestID, child.value)];
      nextRequestID := nextRequestID + 1;
    }

    /** The callbacks of a request are called: a promise keeps its first outcome. */
    method Settle(id: RequestId, outcome: Outcome)
      modifies this`outcomes, this`calls
      ensures outcomes == if id in old(outcomes) then old(outcomes) else old(outcomes)[id := outcome]
      ensures calls == OneMoreFor(old(calls), {id})
    {
      calls := calls[id := CountOf(calls, id) + 1];
      if id !in outcomes {
        outcomes := outcomes[id := outcome];
      }
    }

    /** Calls the reject callbacks of these requests. */
    method RejectAll(ids: set<RequestId>)
      modifies this`outcomes, this`calls
      ensures outcomes == RejectedFor(old(outcomes), ids)
      ensures calls == OneMoreFor(old(calls), ids)
    {
      var left := ids;
      while left != {}
        invariant left <= ids
        invariant outcomes == RejectedFor(old(outcomes), ids - left)
        invariant calls == OneMoreFor(old(calls), ids - left)
        decreases left
      {
        var id :| id in left;
        OneMoreRejected(old(outcomes), ids - left, id);
        OneMoreCalled(old(calls), ids - left, id);
        Settle(id, Rejected);
        assert ids - (left - {id}) == ids - left + {id};
        left := left - {id};
      }
      assert ids - {} == ids;
    }

    /** A response of any process, also of one that was replaced: it settles the request with its id if that is
        pending. */
    method HandleResponse(id: RequestId, process: Process, reply: Reply)
      requires Valid()
      modifies this`pending, this`outcomes, this`calls, this`log
      ensures Valid() && log == old(log) + [Responded(id, process, reply)]
      ensures pending == old(pending) - {id}
      ensures outcomes == if id in old(pending) then old(outcomes)[id := OutcomeOfReply(reply)] else old(outcomes)
    {
      ResponseStep(log, outcomes, pending, calls, Responded(id, process, reply));
      log := log + [Responded(id, process, reply)];
      if id !in pending {
        return;
      }
      pending := pending - {id};
      Settle(id, OutcomeOfReply(reply));
    }

    /** The callback of a failed write. */
    method HandleWriteFailure(id: RequestId)
      requires Valid() && IsRequested(log, id)
      modifies this`pending, this`outcomes, this`calls, this`log
      ensures Valid() && log == old(log) + [WriteFailed(id)]
      ensures pending == old(pending) - {id} && id in outcomes
      ensures id in old(outcomes) ==> outcomes == old(outcomes)
    {
      SettledStep(log, outcomes, pending, WriteFailed(id), {id});
      CountedStep(log, outcomes, pending, calls, WriteFailed(id), {id});
      pending := pending - {id};
      log := log + [WriteFailed(id)];
      Settle(id, Rejected);
    }

    /** The process failed: everything pending is rejected, and there is no process any more. */
    method HandleServeFailure()
      requires Valid()
      modifies this`child, this`fallback, this`pending, this`outcomes, this`calls, this`log
      ensures Valid() && (fallback || disposed) && child.None?
      ensures old(fallback) || disposed ==>
                log == old(log) && pending == old(pending) && outcomes == old(outcomes) && fallback == old(fallback)
      ensures !old(fallback) && !disposed ==> log == old(log) + [Failed] && pending == {}
    {
      if disposed || fallback {
        return;
      }
      SettledStep(log, outcomes, pending, Failed, pending);
      CountedStep(log, outcomes, pending, calls, Failed, pending);
      RejectAll(pending);
      log, pending, child, fallback := log + [Failed], {}, None, true;
    }

    /** A process is started, for the first time or again: after a failed reanalysis the old one is replaced, also when
        its failure made the client fall back. The requests that are still pending stay pending. */
    method StartServe()
      requires Valid() && !disposed
      modifies this`child, this`fallback, this`nextProcess
      ensures Valid() && child == Some(old(nextProcess)) && nextProcess == old(nextProcess) + 1 && !fallback
    {
      fallback := false;
      child, nextProcess := Some(nextProcess), nextProcess + 1;
    }

    /** The client is disposed: the shutdown request takes an id, and its response settles nothing. */
    method Dispose()
      requires Valid()
      modifies this`child, this`disposed, this`nextRequestID
      ensures Valid() && disposed && child.None?
      ensures nextRequestID == old(nextRequestID) + if old(child).Some? then 1 else 0
    {
      if child.Some? {
        nextRequestID := nextRequestID + 1;
      }
      child, disposed := None, true;
    }

    /**
     * Writes a request and reads until it is settled. The inputs that come meanwhile settle other requests too. The
     * answer is the value of a response with the id of this request; an error, a failure, the end of the waiting time
     * or no process is an error.
     */
    method RequestSync(inputs: seq<Input>) returns (answer: Option<string>, ghost id: Option<RequestId>)
      requires Valid()
      modifies this`child, this`fallback, this`nextRequestID, this`pending, this`outcomes, this`calls, this`log
      ensures Valid() && old(log) <= log
      ensures id.None? ==> answer.None? && log == old(log)
      ensures id.Some? ==> !IsRequested(old(log), id.value) && IsRequested(log, id.value)
      ensures answer.Some? ==> id.Some? && OutcomeOf(log, id.value) == Some(Resolved(answer.value))
    {
      var own := EnqueueRequest();
      id, answer := own, None;
      if own.None? {
        return;
      }
      var n := 0;
      while own.value !in outcomes
        modifies this`child, this`fallback, this`pending, this`outcomes, this`calls, this`log
        invariant 0 <= n <= |inputs| && Valid() && old(log) <= log && IsRequested(log, own.value)
        decreases |inputs| - n
      {
        if n == |inputs| {
          return;
        }
        var input := inputs[n];
        n := n + 1;
        LogKeepsRequests(log, own.value);
        if input.TimedOut? {
          return;
        } else if input.Broken? {
          HandleServeFailure();
        } else {
          HandleResponse(input.id, input.process, input.reply);
        }
      }
      assert OutcomeOf(log, own.value) == Some(outcomes[own.value]);
      if outcomes[own.value].Resolved? {
        answer := Some(outcomes[own.value].value);
      }
    }
  }
}
