/** `ClientSender` (src/client_sender.rs): the shared response map, the guard that cleans up after a request, the
    wrapping id counter and the reservation of a request slot. Each method body is what one caller does while it
    holds the lock; what happens between lock acquisitions is the subject of `Correlation`. */
module ClientSender {
  import opened Wrappers
  import opened Messages

  // `tokio::sync::oneshot`: what the receiving end holds.
  class Oneshot {
    var value: Option<Response>
    var receiverAlive: bool

    constructor ()
      ensures value == None && receiverAlive
    {
      value, receiverAlive := None, true;
    }

    method Send(response: Response)
      modifies this
      ensures receiverAlive == old(receiverAlive)
      ensures value == if receiverAlive then Some(response) else old(value)
    {
      if receiverAlive {
        value := Some(response);
      }
    }
  }

  // The sending end of the outbound channel. The drain task may be gone at any time; a send finds out, and from then
  // on no send succeeds.
  class Outbound {
    var queue: seq<Message>
    var closed: bool

    constructor ()
      ensures queue == [] && !closed
    {
      queue, closed := [], false;
    }

    method Send(message: Message) returns (ok: bool)
      modifies this
      ensures ok <==> !closed
      ensures old(closed) ==> closed
      ensures queue == if ok then old(queue) + [message] else old(queue)
    {
      if * {
        closed := true;
      }
      ok := !closed;
      if ok {
        queue := queue + [message];
      }
    }
  }

  class ResponseMap {
    var pending: map<RequestId, Oneshot>

    constructor ()
      ensures pending == map[]
    {
      pending := map[];
    }

    /** The slot that waits for a response to `id`, if there is one. */
    ghost function SlotOf(id: RequestId): set<Oneshot>
      reads this
    {
      if id in pending then {pending[id]} else {}
    }

    method TryRegister(id: RequestId) returns (rx: Oneshot?)
      modifies this
      ensures rx == null <==> id in old(pending)
      ensures rx == null ==> pending == old(pending)
      ensures rx != null ==> fresh(rx) && rx.value == None && rx.receiverAlive && pending == old(pending)[id := rx]
    {
      if id in pending {
        return null;
      }
      var slot := new Oneshot();
      pending := pending[id := slot];
      rx := slot;
    }

    method Contains(id: RequestId) returns (found: bool)
      ensures found <==> id in pending
    {
      found := id in pending;
    }

    method Deliver(id: RequestId, response: Response) returns (delivered: bool)
      modifies this, SlotOf(id)
      ensures delivered <==> id in old(pending)
      ensures pending == old(pending) - {id}
      ensures delivered ==>
                var slot := old(pending[id]);
                slot.receiverAlive == old(slot.receiverAlive)
                && slot.value == if slot.receiverAlive then Some(response) else old(slot.value)
    {
      if id in pending {
        var slot := pending[id];
        pending := pending - {id};
        slot.Send(response);
        delivered := true;
      } else {
        assert pending == pending - {id};
        delivered := false;
      }
    }

    method Cancel(id: RequestId) returns (removed: bool)
      modifies this
      ensures removed <==> id in old(pending)
      ensures pending == old(pending) - {id}
    {
      removed := id in pending;
      pending := pending - {id};
    }
  }

  // Removes a request's entry when the request ends without a response; it knows the entry by id only.
  class PendingResponseGuard {
    const responseMap: ResponseMap
    var id: Option<RequestId>

    constructor (responseMap: ResponseMap, id: RequestId)
      ensures this.responseMap == responseMap && this.id == Some(id)
    {
      this.responseMap, this.id := responseMap, Some(id);
    }

    method Disarm()
      modifies this
      ensures id == None
    {
      id := None;
    }

    method Drop()
      modifies this, responseMap
      ensures id == None
      ensures responseMap.pending == if old(id).Some? then old(responseMap.pending) - {old(id).value}
                                     else old(responseMap.pending)
    {
      if id.Some? {
        var taken := id.value;
        id := None;
        var _ := responseMap.Cancel(taken);
      }
    }
  }

  // ---------- the id counter ----------

  const MAX_RETRIES: nat := 1000

  predicate CounterOk(c: int) { 1 <= c <= I32_MAX }

  function NextCounter(c: int): int { if c >= I32_MAX then 1 else c + 1 }

  /** The `k`-th id from `c` on the cycle 1, 2, ..., `i32::MAX`, 1, ... */
  function Cyclic(c: int, k: nat): (id: i32)
    requires CounterOk(c) && k <= I32_MAX
    ensures CounterOk(id)
  {
    if c + k <= I32_MAX then c + k else c + k - I32_MAX
  }

  lemma CyclicIs(c: int, k: nat)
    requires CounterOk(c) && k <= I32_MAX
    ensures Cyclic(c, k) == (c - 1 + k) % 0x7FFF_FFFF + 1
  {
  }

  class AtomicI64 {
    var value: int

    constructor (value: int)
      ensures this.value == value
    {
      this.value := value;
    }
  }

  class ClientSender {
    const responseMap: ResponseMap
    const idCounter: AtomicI64

    /** A new handle counts from 1, over the map it is given. */
    constructor (responseMap: ResponseMap)
      ensures this.responseMap == responseMap && fresh(idCounter) && idCounter.value == 1
    {
      this.responseMap := responseMap;
      idCounter := new AtomicI64(1);
    }

    /** Neither panic of the source can happen: the counter stays within 1 and `i32::MAX`. */
    method NextId() returns (id: RequestId)
      requires CounterOk(idCounter.value)
      modifies idCounter
      ensures id == Integer(old(idCounter.value))
      ensures CounterOk(idCounter.value) && idCounter.value == NextCounter(old(idCounter.value))
      ensures idCounter.value == if old(idCounter.value) == 0x7FFF_FFFF then 1 else old(idCounter.value) + 1
    {
      var current := idCounter.value;
      idCounter.value := if current >= I32_MAX then 1 else current + 1;
      id := Integer(current);
    }

    /** Takes the first of the 1000 ids following the counter that is not pending; fails exactly when there is
        none, which needs at least 1000 pending requests. */
    method ReserveRequestSlot() returns (id: RequestId, rx: Oneshot?)
      requires CounterOk(idCounter.value)
      modifies idCounter, responseMap
      ensures CounterOk(idCounter.value)
      ensures rx == null <==>
              forall k: nat | k < 1000 :: Integer(Cyclic(old(idCounter.value), k)) in old(responseMap.pending)
      ensures |old(responseMap.pending)| < 1000 ==> rx != null
      ensures rx == null ==> responseMap.pending == old(responseMap.pending)
                             && idCounter.value == Cyclic(old(idCounter.value), 1000)
      ensures rx != null ==>
                && id !in old(responseMap.pending)
                && responseMap.pending == old(responseMap.pending)[id := rx]
                && fresh(rx) && rx.value == None && rx.receiverAlive
                && exists k: nat | k < 1000 ::
                     && id == Integer(Cyclic(old(idCounter.value), k))
                     && idCounter.value == NextCounter(Cyclic(old(idCounter.value), k))
                     && forall j: nat | j < k :: Integer(Cyclic(old(idCounter.value), j)) in old(responseMap.pending)
    {
      ghost var start := idCounter.value;
      id, rx := Integer(0), null;
      for attempt := 0 to MAX_RETRIES
        invariant idCounter.value == Cyclic(start, attempt) && rx == null
        invariant responseMap.pending == old(responseMap.pending)
        invariant forall j: nat | j < attempt :: Integer(Cyclic(start, j)) in responseMap.pending
      {
        id := NextId();
        rx := responseMap.TryRegister(id);
        if rx != null {
          return;
        }
      }
      Pigeonhole(start, responseMap.pending, MAX_RETRIES);
    }
  }

  /** `n` consecutive ids on the cycle are `n` different ids, so they cannot all be among fewer entries. */
  lemma Pigeonhole<V>(c: int, pending: map<RequestId, V>, n: nat)
    requires CounterOk(c) && n <= I32_MAX
    requires forall k: nat | k < n :: Integer(Cyclic(c, k)) in pending
    ensures |pending| >= n
  {
    var ids := Window(c, n);
    WindowSize(c, n);
    assert ids <= pending.Keys;
    CardinalityMonotone(ids, pending.Keys);
  }

  ghost function Window(c: int, n: nat): set<RequestId>
    requires CounterOk(c) && n <= I32_MAX
  {
    set k: nat | k < n :: Integer(Cyclic(c, k))
  }

  lemma {:induction false} WindowSize(c: int, n: nat)
    requires CounterOk(c) && n <= I32_MAX
    ensures |Window(c, n)| == n
  {
    if n > 0 {
      WindowSize(c, n - 1);
      var last := Integer(Cyclic(c, n - 1));
      assert Window(c, n) == Window(c, n - 1) + {last};
      assert last !in Window(c, n - 1);
    }
  }

  lemma CardinalityMonotone<T>(a: set<T>, b: set<T>)
    requires a <= b
    ensures |a| <= |b|
  {
    assert b == a + (b - a);
  }
}
