/** The tables of pending requests (src/request_queue.rs) and the cancellation tokens that the incoming one holds. */
module RequestQueue {
  import opened Wrappers
  import opened Messages
  import opened ClientSender

  /** `tokio_util::sync::CancellationToken`, one level below the shutdown token. */
  class CancellationToken {
    const parent: CancellationToken?
    var cancelled: bool

    constructor (parent: CancellationToken?)
      ensures this.parent == parent && !cancelled
    {
      this.parent, cancelled := parent, false;
    }

    method Cancel()
      modifies this
      ensures cancelled
    {
      cancelled := true;
    }

    predicate IsCancelled()
      reads this, parent
    {
      cancelled || (parent != null && parent.cancelled)
    }
  }

  class IncomingRequests {
    var pending: map<RequestId, CancellationToken>

    constructor ()
      ensures pending == map[]
    {
      pending := map[];
    }

    method Register(id: RequestId, token: CancellationToken)
      modifies this
      ensures pending == old(pending)[id := token]
    {
      pending := pending[id := token];
    }

    method Complete(id: RequestId) returns (wasPending: bool)
      modifies this
      ensures wasPending <==> id in old(pending)
      ensures pending == old(pending) - {id}
    {
      wasPending := id in pending;
      pending := pending - {id};
    }

    ghost function TokenOf(id: RequestId): set<CancellationToken>
      reads this
    {
      if id in pending then {pending[id]} else {}
    }

    method Cancel(id: RequestId) returns (found: bool)
      modifies TokenOf(id)
      ensures found <==> id in pending
      ensures found ==> pending[id].cancelled
    {
      if id in pending {
        pending[id].Cancel();
        found := true;
      } else {
        found := false;
      }
    }
  }

  class OutgoingRequests {
    var pending: map<RequestId, Oneshot>

    constructor ()
      ensures pending == map[]
    {
      pending := map[];
    }

    method Register(id: RequestId) returns (rx: Oneshot)
      modifies this
      ensures fresh(rx) && rx.value == None && rx.receiverAlive
      ensures pending == old(pending)[id := rx]
    {
      rx := new Oneshot();
      pending := pending[id := rx];
    }

    ghost function SlotOf(id: RequestId): set<Oneshot>
      reads this
    {
      if id in pending then {pending[id]} else {}
    }

    method Complete(id: RequestId, response: Response) returns (wasPending: bool)
      modifies this, SlotOf(id)
      ensures wasPending <==> id in old(pending)
      ensures pending == old(pending) - {id}
      ensures wasPending ==>
                var slot := old(pending[id]);
                slot.receiverAlive == old(slot.receiverAlive)
                && slot.value == if slot.receiverAlive then Some(response) else old(slot.value)
    {
      if id in pending {
        var slot := pending[id];
        pending := pending - {id};
        slot.Send(response);
        wasPending := true;
      } else {
        assert pending == pending - {id};
        wasPending := false;
      }
    }

    method Cancel(id: RequestId) returns (wasPending: bool)
      modifies this
      ensures wasPending <==> id in old(pending)
      ensures pending == old(pending) - {id}
    {
      wasPending := id in pending;
      pending := pending - {id};
    }

    method IsPending(id: RequestId) returns (found: bool)
      ensures found <==> id in pending
    {
      found := id in pending;
    }
  }
}
