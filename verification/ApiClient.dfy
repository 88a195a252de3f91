/** The browser client object: each of its turns between two awaits is one step of the session protocol. */
module ApiClient {
  import opened SessionProtocol

  class AbortController {
    var aborted: bool

    constructor ()
      ensures !aborted
    {
      aborted := false;
    }

    method Abort()
      modifies this
      ensures aborted
    {
      aborted := true;
    }
  }

  /** A request in progress: what its closure captured when it began, and how far it got. */
  datatype Pending = Pending(kind: Kind, epoch: nat, signal: AbortController?, session: nat, phase: Phase)

  class Client {
    var sessionEpoch: nat
    var sessionReadController: AbortController
    var pending: map<nat, Pending>
    var deliveries: seq<Delivery>
    var session: nat  // how many times the controller was replaced; bookkeeping for `deliveries`
    ghost var epochs: seq<nat>
    ghost var controllers: seq<AbortController>

    /** Reads hold the controller of their session; of all controllers only the current one is not aborted. */
    ghost predicate Valid()
      reads this, controllers
    {
      && |epochs| == |controllers| > 0
      && session == |epochs| - 1 && sessionEpoch == epochs[session]
      && sessionReadController == controllers[|controllers| - 1]
      && (forall i, j :: 0 <= i < j < |controllers| ==> controllers[i] != controllers[j])
      && (forall i :: 0 <= i < |controllers| ==> (controllers[i].aborted <==> i < |controllers| - 1))
      && (forall id :: id in pending ==>
            && pending[id].session < |controllers|
            && pending[id].signal == if IsRead(pending[id].kind.Verb()) then controllers[pending[id].session] else null)
    }

    /** The protocol state the object stands for; abort flags are read off the shared controllers. */
    ghost function Abstract(): State
      requires Valid()
      reads this, controllers
    {
      State(epochs, map id | id in pending :: AbstractRequest(pending[id]), deliveries)
    }

    ghost function AbstractRequest(p: Pending): Request
      requires p.signal != null ==> p.signal in controllers
      reads this, controllers
    {
      Request(p.kind, p.epoch, p.session, p.phase, p.signal != null && p.signal.aborted)
    }

    /** An initial epoch that is no safe, non-negative integer counts as zero. */
    constructor (epoch: int)
      ensures Valid() && fresh(controllers)
      ensures Abstract() == Init(if 0 <= epoch <= MAX_SAFE_INTEGER then epoch else 0)
    {
      var initial: nat := if 0 <= epoch <= MAX_SAFE_INTEGER then epoch else 0;
      var controller := new AbortController();
      sessionEpoch := initial;
      sessionReadController := controller;
      pending := map[];
      deliveries := [];
      session := 0;
      epochs := [initial];
      controllers := [controller];
    }

    method SetSessionEpoch(epoch: int)
      requires Valid()
      modifies this, sessionReadController
      ensures Valid() && (forall c :: c in controllers ==> c in old(controllers) || fresh(c))
      ensures Abstract() == Step(old(Abstract()), SetEpoch(epoch))
    {
      hide IsRead, OnHead, OnBody, SessionProtocol.Settle;
      if epoch < 0 || epoch > MAX_SAFE_INTEGER || epoch == sessionEpoch { return; }
      ghost var before, was := controllers, Abstract();
      StartSession(epoch);
      forall id | id in pending ensures Abstract().requests[id] == AbortReads(was.requests, was.Session())[id] {
        assert pending[id].signal != null ==> pending[id].signal == before[pending[id].session];
      }
    }

    /** Aborts the reads of the session and starts the next one with a controller of its own. */
    method StartSession(epoch: nat)
      requires Valid()
      modifies this, sessionReadController
      ensures Valid() && pending == old(pending) && deliveries == old(deliveries)
      ensures fresh(sessionReadController) && controllers == old(controllers) + [sessionReadController]
      ensures epochs == old(epochs) + [epoch]
    {
      hide IsRead;
      ghost var before := controllers;
      assert forall i :: 0 <= i < |before| ==> before[i] in before;
      sessionEpoch := epoch;
      sessionReadController.Abort();
      var controller := new AbortController();
      sessionReadController := controller;
      session := session + 1;
      epochs := epochs + [epoch];
      controllers := controllers + [controller];
      assert forall i :: 0 <= i < |before| ==> controllers[i] == before[i];
    }

    method BeginRequest(id: nat, kind: Kind)
      requires Valid() && id !in pending
      modifies this`pending
      ensures Valid()
      ensures Abstract() == Step(old(Abstract()), Begin(id, kind))
    {
      var signal: AbortController? := null;
      if IsRead(kind.Verb()) { signal := sessionReadController; }
      pending := pending[id := Pending(kind, sessionEpoch, signal, session, InFlight)];
    }

    method Settle(id: nat, delivery: Delivery)
      requires Valid() && id in pending
      modifies this`pending, this`deliveries
      ensures Valid()
      ensures Abstract() == SessionProtocol.Settle(old(Abstract()), id, delivery)
    {
      pending := pending[id := pending[id].(phase := Settled)];
      deliveries := deliveries + [delivery];
    }

    method SignOut(id: nat, status: nat)
      requires Valid()
      modifies this`deliveries
      ensures Valid()
      ensures Abstract() == old(Abstract()).(log := old(Abstract()).log + [Unauthenticated(id, session, status)])
    {
      deliveries := deliveries + [Unauthenticated(id, session, status)];
    }

    method KeepHead(id: nat, status: nat)
      requires Valid() && id in pending
      modifies this`pending
      ensures Valid()
      ensures var s := old(Abstract());
        Abstract() == s.(requests := s.requests[id := s.requests[id].(phase := HeadRead(status))])
    {
      pending := pending[id := pending[id].(phase := HeadRead(status))];
    }

    method ResponseHead(id: nat, status: nat, hasBody: bool)
      requires Valid() && id in pending && pending[id].phase == InFlight
      modifies this`pending, this`deliveries
      ensures Valid()
      ensures Abstract() == Step(old(Abstract()), Head(id, status, hasBody))
    {
      hide OnBody, AbortReads, SessionProtocol.Settle;
      var request := pending[id];
      var current := request.epoch == sessionEpoch;
      assert current <==> old(Abstract()).IsCurrent(old(Abstract()).requests[id].epoch);
      if status == 401 && current {
        SignOut(id, status);
      }
      if request.kind.Plain? && status == 204 {
        if current {
          Settle(id, Result(id, session));
        } else {
          Settle(id, StaleAbort(id, session));
        }
      } else if request.kind.Stream? && IsOk(status) && !hasBody {
        Settle(id, ServerError(id, session, status));
      } else {
        KeepHead(id, status);
      }
    }

    method Emit(id: nat)
      requires Valid()
      modifies this`deliveries
      ensures Valid()
      ensures Abstract() == old(Abstract()).(log := old(Abstract()).log + [StreamEvents(id, session)])
    {
      deliveries := deliveries + [StreamEvents(id, session)];
    }

    /** One more chunk of a stream. */
    method ResponseChunk(id: nat)
      requires Valid() && id in pending && pending[id].kind.Stream?
      requires pending[id].phase.HeadRead? && IsOk(pending[id].phase.status)
      modifies this`pending, this`deliveries
      ensures Valid()
      ensures Abstract() == Step(old(Abstract()), Chunk(id))
    {
      hide OnHead, OnBody, AbortReads, SessionProtocol.Settle;
      if pending[id].epoch != sessionEpoch {
        Settle(id, StaleAbort(id, session));
      } else {
        Emit(id);
      }
    }

    method ResponseBody(id: nat)
      requires Valid() && id in pending && pending[id].phase.HeadRead?
      modifies this`pending, this`deliveries
      ensures Valid()
      ensures Abstract() == Step(old(Abstract()), Body(id))
    {
      var request := pending[id];
      if request.epoch != sessionEpoch {
        Settle(id, StaleAbort(id, session));
      } else if IsOk(request.phase.status) {
        Settle(id, Result(id, session));
      } else {
        Settle(id, ServerError(id, session, request.phase.status));
      }
    }

    method Rejection(id: nat)
      requires Valid() && id in pending && pending[id].phase != Settled
      modifies this`pending, this`deliveries
      ensures Valid()
      ensures Abstract() == Step(old(Abstract()), Reject(id))
    {
      Settle(id, Rejected(id, session));
    }
  }
}
