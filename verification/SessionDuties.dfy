/** What the browser client must deliver: every arrival is answered, each request exactly once. */
module SessionDuties {
  import opened Wrappers
  import opened SessionProtocol

  /** The request began under the epoch number that is in force now. */
  predicate IsAskedNow(s: State, id: nat) {
    s.epochs != [] && id in s.requests && s.requests[id].epoch == s.epochs[|s.epochs| - 1]
  }

  // ----- one arrival -----

  /** The head of a response signs the user out iff it is a 401 of the current epoch. */
  lemma SignsOutIff(s: State, id: nat, status: nat, hasBody: bool)
    requires s.epochs != [] && HasPhase(s, id, InFlight)
    ensures var next := Step(s, Head(id, status, hasBody));
      && (status == 401 && IsAskedNow(s, id) ==> next.log == s.log + [Unauthenticated(id, |s.epochs| - 1, 401)])
      && (!(status == 401 && IsAskedNow(s, id)) ==>
        next.log == s.log || exists d :: next.log == s.log + [d] && !d.Unauthenticated?)
  {
    var next := Step(s, Head(id, status, hasBody));
    if next.log != s.log {
      var d := next.log[|s.log|];
      assert next.log == s.log + [d];
    }
  }

  /**
   A plain request is answered by an empty head, a stream fails over one that
   promises no body, and any other head leaves the request to its body.
   */
  lemma HeadAnswersIff(s: State, id: nat, status: nat, hasBody: bool)
    requires s.epochs != [] && HasPhase(s, id, InFlight)
    ensures var next, kind := Step(s, Head(id, status, hasBody)), s.requests[id].kind;
      && (kind.Plain? && status == 204 ==>
        HasPhase(next, id, Settled)
        && next.log == s.log
             + [if IsAskedNow(s, id) then Result(id, |s.epochs| - 1) else StaleAbort(id, |s.epochs| - 1)])
      && (kind.Stream? && 200 <= status <= 299 && !hasBody ==>
        HasPhase(next, id, Settled) && next.log == s.log + [ServerError(id, |s.epochs| - 1, status)])
      && (HasPhase(next, id, HeadRead(status)) <==>
        !(kind.Plain? && status == 204) && !(kind.Stream? && 200 <= status <= 299 && !hasBody))
      && (HasPhase(next, id, HeadRead(status)) && !(status == 401 && IsAskedNow(s, id)) ==> next.log == s.log)
  {
  }

  /** A body read to its end is the result or the error of its request, or its abort if the epoch has changed. */
  lemma BodyIsAnswered(s: State, id: nat, status: nat)
    requires s.epochs != [] && HasPhase(s, id, HeadRead(status))
    ensures var next, session := Step(s, Body(id)), |s.epochs| - 1;
      && HasPhase(next, id, Settled)
      && (IsAskedNow(s, id) && 200 <= status <= 299 ==> next.log == s.log + [Result(id, session)])
      && (IsAskedNow(s, id) && !(200 <= status <= 299) ==> next.log == s.log + [ServerError(id, session, status)])
      && (!IsAskedNow(s, id) ==> next.log == s.log + [StaleAbort(id, session)])
  {
  }

  /** Each chunk of a stream is handed on in the current epoch, and ends the stream in another. */
  lemma ChunkIsDelivered(s: State, id: nat)
    requires s.epochs != [] && IsStreaming(s, id)
    ensures var next, session := Step(s, Chunk(id)), |s.epochs| - 1;
      && (IsAskedNow(s, id) ==> next == s.(log := s.log + [StreamEvents(id, session)]))
      && (!IsAskedNow(s, id) ==> HasPhase(next, id, Settled) && next.log == s.log + [StaleAbort(id, session)])
  {
  }

  /** A request begins in the current session, in flight and not aborted; a safe, different epoch starts a session. */
  lemma SessionChanges(s: State, event: Event)
    requires s.epochs != [] && (event.Begin? || event.SetEpoch?)
    ensures var next := Step(s, event);
      && next.log == s.log
      && (event.Begin? && event.id !in s.requests ==>
        && next.epochs == s.epochs && next.requests.Keys == s.requests.Keys + {event.id}
        && IsAskedNow(next, event.id) && HasPhase(next, event.id, InFlight)
        && next.requests[event.id].session == |s.epochs| - 1 && !next.requests[event.id].aborted
        && next.requests[event.id].kind == event.kind)
      && (event.SetEpoch? ==>
        next.epochs == if 0 <= event.epoch <= 9_007_199_254_740_991 && event.epoch != s.epochs[|s.epochs| - 1]
          then s.epochs + [event.epoch] else s.epochs)
  {
  }

  // ----- whole runs -----

  /** What ends a request for its caller. */
  predicate IsFinal(d: Delivery) {
    d.Result? || d.ServerError? || d.StaleAbort? || d.Rejected?
  }

  function Finals(log: seq<Delivery>, id: nat): nat {
    if log == [] then 0
    else Finals(log[..|log| - 1], id) + if IsFinal(log[|log| - 1]) && log[|log| - 1].id == id then 1 else 0
  }

  lemma FinalsNext(log: seq<Delivery>, d: Delivery, id: nat)
    ensures Finals(log + [d], id) == Finals(log, id) + if IsFinal(d) && d.id == id then 1 else 0
  {
    assert (log + [d])[..|log|] == log;
  }

  ghost predicate IsSettled(s: State, id: nat) {
    HasPhase(s, id, Settled)
  }

  ghost predicate EndsOnce(s: State) {
    forall id :: Finals(s.log, id) == if IsSettled(s, id) then 1 else 0
  }

  /** A step settles a request iff it adds a final delivery to it, and nothing is settled twice. */
  lemma StepSettles(s: State, event: Event, id: nat)
    requires s.epochs != []
    ensures var next := Step(s, event);
      && (IsSettled(s, id) ==> IsSettled(next, id))
      && Finals(next.log, id) == Finals(s.log, id) + if IsSettled(next, id) && !IsSettled(s, id) then 1 else 0
  {
    hide Finals, AbortReads;
    var next := Step(s, event);
    StepDelivers(s, event);
    if next.log != s.log {
      var d := next.log[|s.log|];
      assert next.log == s.log + [d];
      FinalsNext(s.log, d, id);
    }
    StepMovesOne(s, event, id);
  }

  /** Which request a step settles, and with what. */
  lemma StepMovesOne(s: State, event: Event, id: nat)
    requires s.epochs != []
    ensures var next := Step(s, event);
      && (IsSettled(s, id) ==> IsSettled(next, id))
      && (IsSettled(next, id) && !IsSettled(s, id) <==>
        next.log != s.log && |next.log| > |s.log| && IsFinal(next.log[|s.log|]) && next.log[|s.log|].id == id)
  {
  }

  lemma {:induction false} RunEndsOnce(s: State, events: seq<Event>)
    requires s.epochs != [] && EndsOnce(s)
    ensures EndsOnce(Run(s, events))
    decreases |events|
  {
    hide Step, Finals, IsSettled;
    if events != [] {
      var next := Step(s, events[0]);
      forall id ensures Finals(next.log, id) == if IsSettled(next, id) then 1 else 0 {
        StepSettles(s, events[0], id);
      }
      RunEndsOnce(next, events[1..]);
    }
  }

  /** In every run a request ends exactly once for its caller if it has been settled, and not before. */
  lemma EveryRequestEndsOnce(s: State, id: nat)
    requires Reachable(s)
    ensures Finals(s.log, id) == if HasPhase(s, id, Settled) then 1 else 0
  {
    var epoch, events :| s == Run(Init(epoch), events);
    assert EndsOnce(Init(epoch));
    RunEndsOnce(Init(epoch), events);
    assert IsSettled(s, id) == HasPhase(s, id, Settled);
  }
}
