/**
 The session-epoch protocol of the browser client, as a state machine over every
 interleaving of requests, responses, aborts and epoch changes.
 */
module SessionProtocol {
  import opened Wrappers

  const MAX_SAFE_INTEGER: int := 9_007_199_254_740_991

  predicate IsRead(verb: string) {
    verb == "GET" || verb == "HEAD"
  }

  predicate IsOk(status: nat) {
    200 <= status <= 299
  }

  /** Plain requests and downloads take any method; the chat stream is always a POST. */
  datatype Kind = Plain(verb: string) | Download(verb: string) | Stream {
    function Verb(): string {
      if Stream? then "POST" else verb
    }
  }

  datatype Phase = InFlight | HeadRead(status: nat) | Settled

  /** A request remembers the epoch number and the session it began in. */
  datatype Request = Request(kind: Kind, epoch: nat, session: nat, phase: Phase, aborted: bool)

  /** What the caller of the client gets to see, with the session it sees it in. */
  datatype Delivery =
    | Unauthenticated(id: nat, session: nat, status: nat)
    | Result(id: nat, session: nat)
    | StreamEvents(id: nat, session: nat)
    | ServerError(id: nat, session: nat, status: nat)
    | StaleAbort(id: nat, session: nat)
    | Rejected(id: nat, session: nat)

  /** `epochs` lists the epoch number of every session so far; the last one is current. */
  datatype State = State(epochs: seq<nat>, requests: map<nat, Request>, log: seq<Delivery>) {
    function Session(): nat
      requires epochs != []
    {
      |epochs| - 1
    }

    function Epoch(): nat
      requires epochs != []
    {
      epochs[|epochs| - 1]
    }

    predicate IsCurrent(epoch: nat)
      requires epochs != []
    {
      epoch == Epoch()
    }
  }

  datatype Event =
    | Begin(id: nat, kind: Kind)
    | SetEpoch(epoch: int)
    | Head(id: nat, status: nat, hasBody: bool)
    | Chunk(id: nat)
    | Body(id: nat)
    | Reject(id: nat)

  predicate ChangesEpoch(s: State, epoch: int)
    requires s.epochs != []
  {
    0 <= epoch <= MAX_SAFE_INTEGER && epoch != s.Epoch()
  }

  /** Aborting the current controller reaches the reads that were begun under it. */
  function AbortReads(requests: map<nat, Request>, session: nat): map<nat, Request> {
    map id | id in requests ::
      if IsRead(requests[id].kind.Verb()) && requests[id].session == session then requests[id].(aborted := true)
      else requests[id]
  }

  function Settle(s: State, id: nat, delivery: Delivery): State
    requires id in s.requests
  {
    s.(requests := s.requests[id := s.requests[id].(phase := Settled)], log := s.log + [delivery])
  }

  predicate HasPhase(s: State, id: nat, phase: Phase) {
    id in s.requests && s.requests[id].phase == phase
  }

  /**
   A response head arrives. A current 401 signs out; an empty response to a plain
   request is delivered at once. A stream that succeeds without a body fails at
   once, whatever the epoch is by then.
   */
  function OnHead(s: State, id: nat, status: nat, hasBody: bool): State
    requires s.epochs != [] && id in s.requests
  {
    var request := s.requests[id];
    var current := s.IsCurrent(request.epoch);
    var seen :=
      if status == 401 && current then s.(log := s.log + [Unauthenticated(id, s.Session(), status)]) else s;
    if request.kind.Plain? && status == 204 then
      Settle(seen, id, if current then Result(id, s.Session()) else StaleAbort(id, s.Session()))
    else if request.kind.Stream? && IsOk(status) && !hasBody then
      Settle(seen, id, ServerError(id, s.Session(), status))
    else
      seen.(requests := seen.requests[id := request.(phase := HeadRead(status))])
  }

  /** A stream reads on: its events are delivered if the request's epoch is current. */
  function OnChunk(s: State, id: nat): State
    requires s.epochs != [] && id in s.requests
  {
    if !s.IsCurrent(s.requests[id].epoch) then Settle(s, id, StaleAbort(id, s.Session()))
    else s.(log := s.log + [StreamEvents(id, s.Session())])
  }

  /** A response body has been read to its end: it is delivered if the request's epoch is current. */
  function OnBody(s: State, id: nat, status: nat): State
    requires s.epochs != [] && id in s.requests
  {
    Settle(s, id,
      if !s.IsCurrent(s.requests[id].epoch) then StaleAbort(id, s.Session())
      else if IsOk(status) then Result(id, s.Session())
      else ServerError(id, s.Session(), status))
  }

  /** A stream whose head promised a body, before its end. */
  predicate IsStreaming(s: State, id: nat) {
    && id in s.requests && s.requests[id].kind.Stream?
    && s.requests[id].phase.HeadRead? && IsOk(s.requests[id].phase.status)
  }

  /** One event. An event that cannot happen in a state leaves it as it is. */
  function Step(s: State, event: Event): (next: State)
    requires s.epochs != []
    ensures next.epochs != []
  {
    match event
    case Begin(id, kind) =>
      if id in s.requests then s
      else s.(requests := s.requests[id := Request(kind, s.Epoch(), s.Session(), InFlight, false)])
    case SetEpoch(epoch) =>
      if !ChangesEpoch(s, epoch) then s
      else s.(epochs := s.epochs + [epoch], requests := AbortReads(s.requests, s.Session()))
    case Head(id, status, hasBody) =>
      if HasPhase(s, id, InFlight) then OnHead(s, id, status, hasBody) else s
    case Chunk(id) =>
      if IsStreaming(s, id) then OnChunk(s, id) else s
    case Body(id) =>
      if id in s.requests && s.requests[id].phase.HeadRead? then OnBody(s, id, s.requests[id].phase.status) else s
    case Reject(id) =>
      if id in s.requests && s.requests[id].phase != Settled then Settle(s, id, Rejected(id, s.Session())) else s
  }

  function Init(epoch: nat): State {
    State([epoch], map[], [])
  }

  function Run(s: State, events: seq<Event>): (next: State)
    requires s.epochs != []
    ensures next.epochs != []
    decreases |events|
  {
    if events == [] then s else Run(Step(s, events[0]), events[1..])
  }

  // ----- what every step keeps -----

  predicate IsResponse(d: Delivery) {
    d.Result? || d.StreamEvents? || d.ServerError? || d.Unauthenticated?
  }

  /** The error of a stream that succeeded without a body; no other error has a success status. */
  predicate IsEmptyStreamError(d: Delivery) {
    d.ServerError? && IsOk(d.status)
  }

  ghost predicate Honest(s: State, d: Delivery) {
    && d.id in s.requests && s.requests[d.id].session <= d.session < |s.epochs|
    && (d.Unauthenticated? ==> d.status == 401)
    && (IsEmptyStreamError(d) ==> s.requests[d.id].kind.Stream?)
    && (IsResponse(d) && !IsEmptyStreamError(d) ==> s.epochs[s.requests[d.id].session] == s.epochs[d.session])
  }

  ghost predicate RequestInv(s: State, request: Request) {
    && request.session < |s.epochs| && request.epoch == s.epochs[request.session]
    && (request.aborted <==> IsRead(request.kind.Verb()) && request.session < |s.epochs| - 1)
  }

  ghost predicate Inv(s: State) {
    && s.epochs != []
    && (forall id :: id in s.requests ==> RequestInv(s, s.requests[id]))
    && (forall d :: d in s.log ==> Honest(s, d))
  }

  /** What one step may add to the log: a delivery to the current session. */
  ghost predicate IsDeliveryNow(s: State, event: Event, d: Delivery)
    requires s.epochs != []
  {
    && d.id in s.requests && d.session == s.Session()
    && (d.Unauthenticated? ==> d.status == 401)
    && (IsEmptyStreamError(d) <==> IsEmptyHead(s, event) && event.id == d.id)
    && (IsResponse(d) && !IsEmptyStreamError(d) ==> s.IsCurrent(s.requests[d.id].epoch))
  }

  /** The head of a stream reports success without a body. */
  predicate IsEmptyHead(s: State, event: Event) {
    && event.Head? && HasPhase(s, event.id, InFlight) && s.requests[event.id].kind.Stream?
    && IsOk(event.status) && !event.hasBody
  }

  predicate SameOrigin(a: Request, b: Request) {
    a.kind == b.kind && a.epoch == b.epoch && a.session == b.session
  }

  ghost predicate KeepsOrigins(s: State, next: State) {
    forall id :: id in s.requests ==> id in next.requests && SameOrigin(s.requests[id], next.requests[id])
  }

  /** A step extends the log by one delivery at most, and only an epoch change starts a session. */
  lemma StepDelivers(s: State, event: Event)
    requires s.epochs != []
    ensures var next := Step(s, event);
      && (next.log == s.log
          || (next.epochs == s.epochs && next.log != [] && next.log[..|next.log| - 1] == s.log
              && IsDeliveryNow(s, event, next.log[|next.log| - 1])))
      && (IsEmptyHead(s, event) ==> next.log == s.log + [ServerError(event.id, s.Session(), event.status)])
  {
    hide AbortReads;
    match event {
      case Head(id, status, hasBody) => if HasPhase(s, id, InFlight) { HeadDelivers(s, id, status, hasBody); }
      case Body(id) =>
      case _ =>
    }
  }

  lemma HeadDelivers(s: State, id: nat, status: nat, hasBody: bool)
    requires s.epochs != [] && HasPhase(s, id, InFlight)
    ensures var next, event := OnHead(s, id, status, hasBody), Head(id, status, hasBody);
      && next.epochs == s.epochs
      && (next.log == s.log || exists d :: next.log == s.log + [d] && IsDeliveryNow(s, event, d))
      && (IsEmptyHead(s, event) ==> next.log == s.log + [ServerError(event.id, s.Session(), event.status)])
  {
    var next, event := OnHead(s, id, status, hasBody), Head(id, status, hasBody);
    if next.log != s.log {
      var d := next.log[|s.log|];
      assert next.log == s.log + [d] && IsDeliveryNow(s, event, d);
    }
  }

  lemma StepKeepsOrigins(s: State, event: Event)
    requires s.epochs != []
    ensures KeepsOrigins(s, Step(s, event)) && s.epochs <= Step(s, event).epochs
  {
  }

  lemma StepKeepsInv(s: State, event: Event)
    requires Inv(s)
    ensures Inv(Step(s, event))
  {
    StepKeepsRequests(s, event);
    StepKeepsLog(s, event);
  }

  lemma StepKeepsRequests(s: State, event: Event)
    requires Inv(s)
    ensures var next := Step(s, event); forall id :: id in next.requests ==> RequestInv(next, next.requests[id])
  {
    hide Honest, RequestInv;
    match event {
      case Begin(id, kind) => BeginKeepsRequests(s, id, kind);
      case SetEpoch(epoch) => SetEpochKeepsRequests(s, epoch);
      case Head(id, _, _) => MovesPhase(s, event, id);
      case Chunk(id) => MovesPhase(s, event, id);
      case Body(id) => MovesPhase(s, event, id);
      case Reject(id) => MovesPhase(s, event, id);
    }
  }

  lemma BeginKeepsRequests(s: State, id: nat, kind: Kind)
    requires Inv(s)
    ensures var next := Step(s, Begin(id, kind)); forall i :: i in next.requests ==> RequestInv(next, next.requests[i])
  {
    hide Honest;
    var next := Step(s, Begin(id, kind));
    forall i | i in next.requests ensures RequestInv(next, next.requests[i]) {
      if i in s.requests { assert RequestInv(s, s.requests[i]); }
    }
  }

  lemma SetEpochKeepsRequests(s: State, epoch: int)
    requires Inv(s)
    ensures var next := Step(s, SetEpoch(epoch)); forall i :: i in next.requests ==> RequestInv(next, next.requests[i])
  {
    hide Honest;
    var next := Step(s, SetEpoch(epoch));
    forall i | i in next.requests ensures RequestInv(next, next.requests[i]) {
      assert RequestInv(s, s.requests[i]);
    }
  }

  /** Whatever reaches an outstanding request moves its phase at most. */
  lemma MovesPhase(s: State, event: Event, id: nat)
    requires Inv(s) && !event.Begin? && !event.SetEpoch? && event.id == id
    ensures var next := Step(s, event); forall i :: i in next.requests ==> RequestInv(next, next.requests[i])
  {
    hide Honest, RequestInv;
    var next := Step(s, event);
    assert next.epochs == s.epochs && next.requests.Keys == s.requests.Keys;
    forall i | i in next.requests ensures RequestInv(next, next.requests[i]) {
      assert next.requests[i] == s.requests[i].(phase := next.requests[i].phase);
      SamePhaseInv(s, next, s.requests[i], next.requests[i].phase);
    }
  }

  lemma SamePhaseInv(s: State, next: State, request: Request, phase: Phase)
    requires RequestInv(s, request) && next.epochs == s.epochs
    ensures RequestInv(next, request.(phase := phase))
  {
  }

  lemma StepKeepsLog(s: State, event: Event)
    requires Inv(s)
    ensures var next := Step(s, event); forall d :: d in next.log ==> Honest(next, d)
  {
    hide Step;
    StepDelivers(s, event);
    StepKeepsOrigins(s, event);
    var next := Step(s, event);
    forall d | d in next.log ensures Honest(next, d) {
      if d in s.log {
        assert Honest(s, d);
      } else {
        assert d == next.log[|next.log| - 1] && RequestInv(s, s.requests[d.id]);
      }
    }
  }

  lemma {:induction false} RunKeepsInv(s: State, events: seq<Event>)
    requires Inv(s)
    ensures Inv(Run(s, events))
    decreases |events|
  {
    hide Inv;
    if events != [] {
      StepKeepsInv(s, events[0]);
      RunKeepsInv(Step(s, events[0]), events[1..]);
    }
  }

  /** The states some run leads to. */
  ghost predicate Reachable(s: State) {
    exists epoch, events :: s == Run(Init(epoch), events)
  }

  lemma ReachableInv(s: State)
    requires Reachable(s)
    ensures Inv(s)
  {
    var epoch, events :| s == Run(Init(epoch), events);
    RunKeepsInv(Init(epoch), events);
  }

  // ----- the protocol's promises -----

  /** A response handed to the caller, or a sign-out, outside the session that asked for it. */
  ghost predicate IsStale(s: State, d: Delivery) {
    IsResponse(d) && d.id in s.requests && s.requests[d.id].session != d.session
  }

  ghost predicate HasStaleDelivery(s: State) {
    exists d :: d in s.log && IsStale(s, d)
  }

  /**
   In every run that never reuses an epoch number, responses and sign-outs of
   plain requests and downloads reach only the session in which the request
   began, and so does everything of a stream except the error for an empty one.
   */
  lemma NothingStaleIsDelivered(s: State)
    requires Reachable(s) && Distinct(s.epochs)
    ensures forall d :: d in s.log && IsStale(s, d) ==> s.requests[d.id].kind.Stream? && IsEmptyStreamError(d)
  {
    ReachableInv(s);
    forall d | d in s.log && IsStale(s, d) ensures s.requests[d.id].kind.Stream? && IsEmptyStreamError(d) {
      assert Honest(s, d);
    }
  }

  // ----- streams that succeed without a body -----

  /** The head of a stream begun in an earlier session reports success without a body. */
  predicate IsStaleEmptyHead(s: State, event: Event)
    requires s.epochs != []
  {
    IsEmptyHead(s, event) && s.requests[event.id].session != s.Session()
  }

  ghost predicate MeetsStaleEmptyHead(s: State, events: seq<Event>)
    requires s.epochs != []
    decreases |events|
  {
    events != [] && (IsStaleEmptyHead(s, events[0]) || MeetsStaleEmptyHead(Step(s, events[0]), events[1..]))
  }

  lemma StepIsStale(s: State, event: Event)
    requires Inv(s) && Distinct(Step(s, event).epochs)
    ensures HasStaleDelivery(Step(s, event)) <==> HasStaleDelivery(s) || IsStaleEmptyHead(s, event)
  {
    hide Step, Distinct, IsEmptyHead, RequestInv;
    var next := Step(s, event);
    StepDelivers(s, event);
    StepKeepsOrigins(s, event);
    forall d | d in s.log ensures IsStale(next, d) <==> IsStale(s, d) { assert Honest(s, d); }
    if next.log == s.log {
    } else {
      var d := next.log[|next.log| - 1];
      assert next.log == s.log + [d];
      NewDeliveryIsStale(s, event, next, d);
    }
  }

  lemma NewDeliveryIsStale(s: State, event: Event, next: State, d: Delivery)
    requires Inv(s) && Distinct(next.epochs) && next.epochs == s.epochs && KeepsOrigins(s, next)
    requires IsDeliveryNow(s, event, d)
    ensures IsStale(next, d) <==> IsEmptyStreamError(d) && s.requests[d.id].session != s.Session()
  {
    assert RequestInv(s, s.requests[d.id]) && SameOrigin(s.requests[d.id], next.requests[d.id]);
  }

  /** Sessions are only ever added. */
  lemma {:induction false} EpochsGrow(s: State, events: seq<Event>)
    requires s.epochs != []
    ensures s.epochs <= Run(s, events).epochs
    decreases |events|
  {
    hide Step;
    if events != [] {
      StepKeepsOrigins(s, events[0]);
      EpochsGrow(Step(s, events[0]), events[1..]);
    }
  }

  lemma {:induction false} RunIsStale(s: State, events: seq<Event>)
    requires Inv(s) && Distinct(Run(s, events).epochs)
    ensures HasStaleDelivery(Run(s, events)) <==> HasStaleDelivery(s) || MeetsStaleEmptyHead(s, events)
    decreases |events|
  {
    hide Step, HasStaleDelivery, IsStaleEmptyHead, Honest, RequestInv, Distinct;
    if events != [] {
      var next := Step(s, events[0]);
      EpochsGrow(next, events[1..]);
      NoReuseInPrefix(next.epochs, Run(s, events).epochs);
      StepKeepsInv(s, events[0]);
      StepIsStale(s, events[0]);
      RunIsStale(next, events[1..]);
    }
  }

  lemma NoReuseInPrefix(fewer: seq<nat>, more: seq<nat>)
    requires fewer <= more && Distinct(more)
    ensures Distinct(fewer)
  {
  }

  /**
   When no epoch number is reused, a run delivers something outside its session
   iff the head of a stream of an earlier session succeeds without a body in it.
   */
  lemma StaleDeliveryIffEmptyStream(epoch: nat, events: seq<Event>)
    requires Distinct(Run(Init(epoch), events).epochs)
    ensures HasStaleDelivery(Run(Init(epoch), events)) <==> MeetsStaleEmptyHead(Init(epoch), events)
  {
    assert Inv(Init(epoch));
    RunIsStale(Init(epoch), events);
  }

  /** A stream begun before a sign-in and answered 204 after it: the new session gets its error. */
  lemma EmptyStreamIsStale(epoch: nat, later: nat)
    requires epoch != later && later <= MAX_SAFE_INTEGER
    ensures var s := Run(Init(epoch), [Begin(0, Stream), SetEpoch(later), Head(0, 204, false)]);
      s.epochs == [epoch, later] && s.log == [ServerError(0, 1, 204)] && Distinct(s.epochs) && HasStaleDelivery(s)
  {
    var begin, change, head := Begin(0, Stream), SetEpoch(later), Head(0, 204, false);
    assert [begin, change, head][1..] == [change, head] && [change, head][1..] == [head] && [head][1..] == [];
    var second := Step(Step(Init(epoch), begin), change);
    assert Run(Init(epoch), [begin, change, head]) == Run(second, [head]) == Step(second, head);
    var d := ServerError(0, 1, 204);
    assert Step(second, head).log == [d] && d in [d] && IsStale(Step(second, head), d);
  }

  // ----- rejections -----

  /** A rejection handed on in a session other than the one the request began in. */
  predicate IsLateRejection(s: State, d: Delivery) {
    d.Rejected? && d.id in s.requests && s.requests[d.id].session != d.session
  }

  /** A rejection is handed on without an epoch check: it is late iff its request began in an earlier session. */
  lemma RejectionIsUnchecked(s: State, id: nat)
    requires Reachable(s) && id in s.requests && s.requests[id].phase != Settled
    ensures var next, d := Step(s, Reject(id)), Rejected(id, s.Session());
      next.log == s.log + [d] && (IsLateRejection(next, d) <==> s.requests[id].session < s.Session())
  {
    ReachableInv(s);
    assert RequestInv(s, s.requests[id]);
  }

  /** A body that turns out malformed after an epoch change: the new session gets the error. */
  lemma MalformedBodyIsLate(epoch: nat, later: nat)
    requires epoch != later && later <= MAX_SAFE_INTEGER
    ensures var s := Run(Init(epoch), [Begin(0, Plain("POST")), Head(0, 200, true), SetEpoch(later), Reject(0)]);
      s.epochs == [epoch, later] && s.log == [Rejected(0, 1)] && IsLateRejection(s, Rejected(0, 1))
  {
    var begin, head, change, reject := Begin(0, Plain("POST")), Head(0, 200, true), SetEpoch(later), Reject(0);
    assert [begin, head, change, reject][1..] == [head, change, reject];
    assert [head, change, reject][1..] == [change, reject] && [change, reject][1..] == [reject] && [reject][1..] == [];
    var second := Step(Step(Init(epoch), begin), head);
    assert Run(Init(epoch), [begin, head, change, reject]) == Run(second, [change, reject]);
    var third := Step(second, change);
    assert Run(second, [change, reject]) == Run(third, [reject]) == Step(third, reject);
  }

  /** An epoch change aborts every outstanding read and never a write. */
  lemma EpochChangeAbortsExactlyReads(s: State, epoch: int)
    requires Reachable(s) && ChangesEpoch(s, epoch)
    ensures var next := Step(s, SetEpoch(epoch));
      && next.requests.Keys == s.requests.Keys
      && forall id :: id in s.requests ==>
           && (next.requests[id].aborted <==> IsRead(s.requests[id].kind.Verb()))
           && next.requests[id] == s.requests[id].(aborted := next.requests[id].aborted)
  {
    ReachableInv(s);
    forall id | id in s.requests
      ensures Step(s, SetEpoch(epoch)).requests[id].aborted <==> IsRead(s.requests[id].kind.Verb())
    {
      assert RequestInv(s, s.requests[id]);
    }
  }

  // ----- the condition is exact -----

  function SetEpochs(epochs: seq<nat>): seq<Event> {
    seq(|epochs|, i requires 0 <= i < |epochs| => SetEpoch(epochs[i]))
  }

  lemma {:induction false} RunAppend(s: State, first: seq<Event>, second: seq<Event>)
    requires s.epochs != []
    ensures Run(s, first + second) == Run(Run(s, first), second)
    decreases |first|
  {
    hide Step;
    if first == [] {
      assert first + second == second;
    } else {
      assert (first + second)[1..] == first[1..] + second;
      RunAppend(Step(s, first[0]), first[1..], second);
    }
  }

  /** Consecutive epochs differ and are valid, as in any history the client can have. */
  ghost predicate IsHistory(epochs: seq<nat>) {
    && epochs != []
    && (forall i :: 0 <= i < |epochs| ==> epochs[i] <= MAX_SAFE_INTEGER)
    && (forall i: nat :: i + 1 < |epochs| ==> epochs[i] != epochs[i + 1])
  }

  /** A run of epoch changes moves through the history and leaves writes and the log alone. */
  lemma {:induction false} EpochChangesRun(s: State, more: seq<nat>)
    requires s.epochs != [] && IsHistory(s.epochs + more)
    ensures var next := Run(s, SetEpochs(more));
      && next.epochs == s.epochs + more && next.log == s.log && next.requests.Keys == s.requests.Keys
      && forall id :: id in s.requests && !IsRead(s.requests[id].kind.Verb()) ==> next.requests[id] == s.requests[id]
    decreases |more|
  {
    if more == [] {
      assert s.epochs + more == s.epochs;
    } else {
      var all := s.epochs + more;
      assert all[|s.epochs| - 1] == s.Epoch() && all[(|s.epochs| - 1) + 1] == more[0];
      var next := Step(s, SetEpoch(more[0]));
      assert next.epochs + more[1..] == all;
      assert SetEpochs(more)[1..] == SetEpochs(more[1..]);
      EpochChangesRun(next, more[1..]);
    }
  }

  /**
   Reuse of an epoch number is the only other way: a history of epochs admits a
   stale delivery without an empty stream head iff some epoch occurs in it twice.
   */
  lemma StaleDeliveryIffEpochReused(epochs: seq<nat>)
    requires IsHistory(epochs)
    ensures (exists s :: Reachable(s) && s.epochs == epochs && HasStaleReply(s)) <==> !Distinct(epochs)
  {
    forall s | Reachable(s) && s.epochs == epochs && Distinct(epochs) ensures !HasStaleReply(s) {
      NothingStaleIsDelivered(s);
    }
    if !Distinct(epochs) {
      var i, j :| 0 <= i < j < |epochs| && epochs[i] == epochs[j];
      StaleRun(epochs, i, j);
    }
  }

  /** A stale delivery other than the error of an empty stream. */
  ghost predicate HasStaleReply(s: State) {
    exists d :: d in s.log && IsStale(s, d) && !IsEmptyStreamError(d)
  }

  /** A write in flight is answered in the current session when its epoch number is the current one. */
  lemma AnswerWrite(s: State, request: Request)
    requires s.epochs != [] && 0 in s.requests && s.requests[0] == request
    requires request == Request(Plain("POST"), s.Epoch(), request.session, InFlight, false)
    ensures var next := Run(s, [Head(0, 200, true), Body(0)]);
      && next.epochs == s.epochs && 0 in next.requests && next.requests[0] == request.(phase := Settled)
      && next.log == s.log + [Result(0, s.Session())]
  {
    assert [Head(0, 200, true), Body(0)][1..] == [Body(0)] && [Body(0)][1..] == [];
    assert Run(s, [Head(0, 200, true), Body(0)]) == Step(Step(s, Head(0, 200, true)), Body(0));
  }

  /** A run to session `i` that begins a write there. */
  lemma RunToWrite(epochs: seq<nat>, i: nat) returns (events: seq<Event>)
    requires IsHistory(epochs) && i < |epochs|
    ensures var s := Run(Init(epochs[0]), events);
      s.epochs == epochs[..i + 1] && s.requests == map[0 := Request(Plain("POST"), epochs[i], i, InFlight, false)]
        && s.log == []
  {
    var start, more := Init(epochs[0]), epochs[1..i + 1];
    assert start.epochs + more == epochs[..i + 1];
    HistoryPrefix(epochs, i + 1);
    EpochChangesRun(start, more);
    var begin := Begin(0, Plain("POST"));
    RunAppend(start, SetEpochs(more), [begin]);
    assert [begin][1..] == [];
    events := SetEpochs(more) + [begin];
  }

  /** Further epoch changes after a run. */
  lemma RunOn(epochs: seq<nat>, i: nat, j: nat, events: seq<Event>) returns (longer: seq<Event>)
    requires IsHistory(epochs) && i <= j < |epochs| && Run(Init(epochs[0]), events).epochs == epochs[..i + 1]
    ensures var s, next := Run(Init(epochs[0]), events), Run(Init(epochs[0]), longer);
      && next.epochs == epochs[..j + 1] && next.log == s.log && next.requests.Keys == s.requests.Keys
      && forall id :: id in s.requests && !IsRead(s.requests[id].kind.Verb()) ==> next.requests[id] == s.requests[id]
  {
    hide Run, Step;
    var more := epochs[i + 1..j + 1];
    assert epochs[..i + 1] + more == epochs[..j + 1];
    HistoryPrefix(epochs, j + 1);
    EpochChangesRun(Run(Init(epochs[0]), events), more);
    RunAppend(Init(epochs[0]), events, SetEpochs(more));
    longer := events + SetEpochs(more);
  }

  /** A write begun in session `i` is answered in session `j`, whose epoch number is the same. */
  lemma StaleRun(epochs: seq<nat>, i: nat, j: nat)
    requires IsHistory(epochs) && i < j < |epochs| && epochs[i] == epochs[j]
    ensures exists s :: Reachable(s) && s.epochs == epochs && HasStaleReply(s)
  {
    hide Run, Step;
    var start := Init(epochs[0]);
    var e1 := RunToWrite(epochs, i);
    var e2 := RunOn(epochs, i, j, e1);
    var request := Request(Plain("POST"), epochs[i], i, InFlight, false);
    AnswerWrite(Run(start, e2), request);
    RunAppend(start, e2, [Head(0, 200, true), Body(0)]);
    var e3 := RunOn(epochs, j, |epochs| - 1, e2 + [Head(0, 200, true), Body(0)]);
    var s := Run(start, e3);
    assert epochs[..|epochs|] == epochs;
    assert Reachable(s);
    assert s.log == [Result(0, j)] && Result(0, j) in s.log && IsStale(s, Result(0, j));
    assert HasStaleReply(s);
  }

  lemma HistoryPrefix(epochs: seq<nat>, n: nat)
    requires IsHistory(epochs) && 1 <= n <= |epochs|
    ensures IsHistory(epochs[..n])
  {
    forall i: nat | i + 1 < n ensures epochs[..n][i] != epochs[..n][i + 1] {
      assert epochs[i] != epochs[i + 1];
    }
  }
}
