/** `Connection` (src/connection.rs). The connection records the events of its run; its invariant ties tables and
    tokens to that record, so that `Cancellation` speaks about the real tokens. */
module Connection {
  import opened Wrappers
  import opened Messages
  import opened Handshake
  import C = Cancellation
  import opened ClientSender
  import opened RequestQueue

  // The receiving half: what the peer will still be heard to say.
  class Receiver {
    var items: seq<Incoming>

    constructor (items: seq<Incoming>)
      ensures this.items == items
    {
      this.items := items;
    }

    method Next() returns (item: Option<Incoming>)
      modifies this
      ensures old(items) == [] ==> item == None && items == []
      ensures old(items) != [] ==> item == Some(old(items)[0]) && items == old(items)[1..]
    {
      if items == [] {
        item := None;
      } else {
        item := Some(items[0]);
        items := items[1..];
      }
    }
  }

  datatype IncomingMessage =
    | RequestIn(request: Request, token: CancellationToken)
    | NotificationIn(notification: Notification)
    | CancelHandled
    | ResponseRouted
    | ResponseUnknown(response: Response)

  datatype StartResult = Started(id: RequestId, params: Json) | StartFailed(error: ProtocolError)

  datatype InitializeResult = Initialized(params: Json) | InitializeFailed(error: ProtocolError)

  function ParamsOrNull(r: Request): Json { if r.params.Some? then r.params.value else Null }

  /** What routing a message means for the cancellation bookkeeping. */
  function EventOf(m: Message): C.Event {
    match m
    case RequestMessage(r) => C.Routed(r.id)
    case NotificationMessage(n) =>
      if n.name == CANCEL_REQUEST_METHOD && ParseCancelParams(n.params).Some? then
        C.CancelAsked(ParseCancelParams(n.params).value)
      else C.Unrelated
    case ResponseMessage(_) => C.Unrelated
  }

  /** A notification cancels request `id` if it says so by its method and by an `id` that is that string or that
      integer; every other notification cancels nothing. */
  predicate Cancels(n: Notification, id: RequestId) {
    && n.name == "$/cancelRequest" && n.params.Some? && n.params.value.Obj?
    && "id" in n.params.value.members
    && match id
       case Integer(i) => n.params.value.members["id"] == Int(i)
       case String(s) => n.params.value.members["id"] == Str(s)
  }

  lemma EventOfIs(m: Message)
    ensures m.RequestMessage? ==> EventOf(m) == C.Routed(m.request.id)
    ensures m.NotificationMessage? ==>
              && (forall id :: EventOf(m) == C.CancelAsked(id)
                     <==> && m.notification.name == "$/cancelRequest"
                          && m.notification.params.Some? && m.notification.params.value.Obj?
                          && "id" in m.notification.params.value.members
                          && m.notification.params.value.members["id"]
                             == match id case Integer(i) => Int(i) case String(s) => Str(s))
              && (forall id :: EventOf(m) == C.CancelAsked(id) <==> Cancels(m.notification, id))
              && ((forall id :: !Cancels(m.notification, id)) ==> EventOf(m) == C.Unrelated)
    ensures m.ResponseMessage? ==> EventOf(m) == C.Unrelated
  {
    if m.NotificationMessage? && EventOf(m).CancelAsked? {
      assert Cancels(m.notification, EventOf(m).id);
    }
  }

  /** Missing parameters are handed on as `null`. */
  lemma ParamsHandedOn(r: Request)
    ensures ParamsOrNull(r) == match r.params case None => Null case Some(params) => params
  {
  }

  /** Each routed request has a token of its own, and the table of pending requests holds the tokens that the
      bookkeeping names. */
  ghost predicate TokensNamed(run: seq<C.Event>, tokens: map<nat, CancellationToken>,
                              pending: map<RequestId, CancellationToken>)
  {
    var table := C.TableAfter(run);
    && (forall k: nat :: k in tokens <==> k < |run| && run[k].Routed?)
    && (forall j, k | j in tokens && k in tokens && j != k :: tokens[j] != tokens[k])
    && pending.Keys == table.pending.Keys
    && (forall id | id in table.pending :: table.pending[id] in tokens && pending[id] == tokens[table.pending[id]])
  }

  lemma NamesAfterRouted(run: seq<C.Event>, tokens: map<nat, CancellationToken>,
                         pending: map<RequestId, CancellationToken>, id: RequestId, token: CancellationToken)
    requires TokensNamed(run, tokens, pending) && forall j | j in tokens :: tokens[j] != token
    ensures TokensNamed(run + [C.Routed(id)], tokens[|run| := token], pending[id := token])
  {
    hide C.TableAfter;
    C.PendingBound(run);
    C.TableAfterOneMore(run, C.Routed(id));
  }

  class Connection {
    const incoming: IncomingRequests
    const outgoing: OutgoingRequests
    const outbound: Outbound
    const receiver: Receiver
    const shutdownToken: CancellationToken
    var responseMap: ResponseMap?
    var lifecycleState: LifecycleState

    // The run so far, and the token of each routed request by its position in the run.
    ghost var run: seq<C.Event>
    ghost var tokens: map<nat, CancellationToken>

    // The steps that have changed the lifecycle state.
    ghost var lifecycle: seq<LifecycleStep>

    ghost predicate LifecycleOk()
      reads this`lifecycleState, this`lifecycle
    {
      lifecycleState == StateAfter(lifecycle)
    }

    ghost predicate Valid()
      reads this, incoming, shutdownToken, tokens.Values
    {
      && TokensNamed(run, tokens, incoming.pending)
      && shutdownToken.parent == null
      && (shutdownToken.cancelled <==> C.TableAfter(run).shutdown)
      && forall k | k in tokens ::
           tokens[k].parent == shutdownToken && (tokens[k].cancelled <==> k in C.TableAfter(run).cancelled)
    }

    constructor (items: seq<Incoming>)
      ensures Valid() && LifecycleOk() && run == [] && lifecycle == [] && responseMap == null
      ensures fresh(incoming) && fresh(outgoing) && fresh(outbound) && fresh(receiver) && fresh(shutdownToken)
      ensures outgoing.pending == map[] && outbound.queue == [] && receiver.items == items
    {
      incoming := new IncomingRequests();
      outgoing := new OutgoingRequests();
      outbound := new Outbound();
      receiver := new Receiver(items);
      shutdownToken := new CancellationToken(null);
      responseMap := null;
      lifecycleState, lifecycle := Uninitialized, [];
      run, tokens := [], map[];
    }

    /** The tokens of this connection are cancelled exactly when its run says so. */
    lemma TokenCancelledIff(k: nat)
      requires Valid() && k in tokens
      ensures tokens[k].IsCancelled() <==> C.ShutDown in run || C.CancelReached(run, k)
    {
      C.CancellationTrace(run, k);
    }

    /** Registering a routed request: a child of the shutdown token, known under the request's id. */
    method RouteRequest(request: Request) returns (token: CancellationToken)
      requires Valid()
      modifies this`run, this`tokens, incoming
      ensures Valid() && fresh(token)
      ensures run == old(run) + [C.Routed(request.id)]
      ensures tokens == old(tokens)[|old(run)| := token]
    {
      hide C.TableAfter, TokensNamed;
      C.PendingBound(run);
      C.TableAfterOneMore(run, C.Routed(request.id));
      token := new CancellationToken(shutdownToken);
      assert forall j | j in tokens :: tokens[j] != token;
      NamesAfterRouted(run, tokens, incoming.pending, request.id, token);
      incoming.Register(request.id, token);
      run, tokens := run + [C.Routed(request.id)], tokens[|run| := token];
    }

    method CancelIncoming(id: RequestId) returns (found: bool)
      requires Valid()
      modifies this`run, incoming.TokenOf(id)
      ensures Valid()
      ensures run == old(run) + [C.CancelAsked(id)]
      ensures found <==> id in incoming.pending
      ensures found ==> incoming.pending[id].cancelled
    {
      hide C.TableAfter;
      found := incoming.Cancel(id);
      C.TableAfterOneMore(run, C.CancelAsked(id));
      run := run + [C.CancelAsked(id)];
    }

    /** `request_queue.incoming.complete`, called by the user when a request has been answered. */
    method CompleteIncoming(id: RequestId) returns (wasPending: bool)
      requires Valid()
      modifies this`run, incoming
      ensures Valid()
      ensures run == old(run) + [C.Completed(id)]
      ensures wasPending <==> id in old(incoming.pending)
    {
      hide C.TableAfter;
      wasPending := incoming.Complete(id);
      C.TableAfterOneMore(run, C.Completed(id));
      run := run + [C.Completed(id)];
    }

    /** The response map if `client_sender` was ever called, and the slot a response to `id` may go to. */
    ghost function MapAndSlot(id: RequestId): set<object>
      reads this, responseMap
    {
      if responseMap != null then {responseMap} + responseMap.SlotOf(id) else {}
    }

    ghost predicate Matches(id: RequestId)
      reads this, responseMap
    {
      responseMap != null && id in responseMap.pending
    }

    /** A response goes to the caller waiting in the response map, else to the receiver waiting in the outgoing
        table, and is handed back as it came if there is neither; no other entry is touched. */
    method RouteResponse(resp: Response) returns (r: IncomingMessage)
      modifies if resp.id.Some? then {outgoing} + outgoing.SlotOf(resp.id.value) + MapAndSlot(resp.id.value) else {}
      ensures resp.id.None? ==> r == ResponseUnknown(resp)
      ensures resp.id.Some? && old(Matches(resp.id.value)) ==>
                var id := resp.id.value;
                && r == ResponseRouted
                && responseMap.pending == old(responseMap.pending) - {id}
                && outgoing.pending == old(outgoing.pending)
                && (old(responseMap.pending[id].receiverAlive) ==>
                      old(responseMap.pending[id]).value == Some(resp))
      ensures resp.id.Some? && !old(Matches(resp.id.value)) ==>
                var id := resp.id.value;
                && outgoing.pending == old(outgoing.pending) - {id}
                && (responseMap != null ==> responseMap.pending == old(responseMap.pending))
                && r == (if id in old(outgoing.pending) then ResponseRouted else ResponseUnknown(resp))
                && (id in old(outgoing.pending) && old(outgoing.pending[id].receiverAlive) ==>
                      old(outgoing.pending[id]).value == Some(resp))
    {
      if resp.id.None? {
        return ResponseUnknown(resp);
      }
      var id := resp.id.value;
      if responseMap != null {
        var contained := responseMap.Contains(id);
        if contained {
          var delivered := responseMap.Deliver(id, resp);
          if delivered {
            return ResponseRouted;
          }
        }
      }
      var isPending := outgoing.IsPending(id);
      if isPending {
        var _ := outgoing.Complete(id, resp);
        r := ResponseRouted;
      } else {
        assert outgoing.pending == outgoing.pending - {id};
        r := ResponseUnknown(resp);
      }
    }

    /** A cancellation cancels the pending request it names; any other notification is handed on, and touches no
        request. */
    method RouteNotification(notif: Notification) returns (r: IncomingMessage)
      requires Valid()
      modifies this`run, if EventOf(NotificationMessage(notif)).CancelAsked? then
                           incoming.TokenOf(EventOf(NotificationMessage(notif)).id) else {}
      ensures Valid() && run == old(run) + [EventOf(NotificationMessage(notif))]
      ensures incoming.pending == old(incoming.pending)
      ensures (forall id :: !Cancels(notif, id)) ==>
                r == NotificationIn(notif) && forall k | k in tokens :: tokens[k].cancelled == old(tokens[k].cancelled)
      ensures forall id | Cancels(notif, id) ::
                r == CancelHandled && run == old(run) + [C.CancelAsked(id)]
                && (id in incoming.pending ==> incoming.pending[id].cancelled)
    {
      hide C.TableAfter, TokensNamed;
      EventOfIs(NotificationMessage(notif));
      var id := ParseCancelParams(notif.params);
      if notif.name == CANCEL_REQUEST_METHOD && id.Some? {
        assert Cancels(notif, id.value);
        var _ := CancelIncoming(id.value);
        r := CancelHandled;
      } else {
        NoteUnrelated();
        r := NotificationIn(notif);
      }
    }

    ghost function RouteFrame(message: Message): set<object>
      reads this, incoming, outgoing, responseMap
    {
      match message
      case RequestMessage(_) => {incoming}
      case NotificationMessage(_) =>
        if EventOf(message).CancelAsked? then incoming.TokenOf(EventOf(message).id) else {}
      case ResponseMessage(resp) =>
        if resp.id.Some? then {outgoing} + outgoing.SlotOf(resp.id.value) + MapAndSlot(resp.id.value) else {}
    }

    method Route(message: Message) returns (r: IncomingMessage)
      requires Valid()
      modifies this`run, this`tokens, RouteFrame(message)
      ensures Valid()
      ensures run == old(run) + [EventOf(message)]
      ensures message.RequestMessage? ==>
                && |old(run)| in tokens && tokens == old(tokens)[|old(run)| := tokens[|old(run)|]]
                && fresh(tokens[|old(run)|])
                && r == RequestIn(message.request, tokens[|old(run)|])
      ensures !message.RequestMessage? ==> tokens == old(tokens)
      ensures message.NotificationMessage? ==> incoming.pending == old(incoming.pending)
      ensures message.NotificationMessage? && (forall id :: !Cancels(message.notification, id)) ==>
                && r == NotificationIn(message.notification)
                && forall k | k in tokens :: tokens[k].cancelled == old(tokens[k].cancelled)
      ensures forall id | message.NotificationMessage? && Cancels(message.notification, id) ::
                && r == CancelHandled && run == old(run) + [C.CancelAsked(id)]
                && (id in incoming.pending ==> incoming.pending[id].cancelled)
      ensures message.ResponseMessage? && message.response.id.None? ==> r == ResponseUnknown(message.response)
      ensures message.ResponseMessage? && message.response.id.Some? && old(Matches(message.response.id.value)) ==>
                var id := message.response.id.value;
                && r == ResponseRouted
                && responseMap.pending == old(responseMap.pending) - {id} && outgoing.pending == old(outgoing.pending)
                && (old(responseMap.pending[id].receiverAlive) ==>
                      old(responseMap.pending[id]).value == Some(message.response))
      ensures message.ResponseMessage? && message.response.id.Some? && !old(Matches(message.response.id.value)) ==>
                var id := message.response.id.value;
                && r == (if id in old(outgoing.pending) then ResponseRouted else ResponseUnknown(message.response))
                && outgoing.pending == old(outgoing.pending) - {id}
                && (responseMap != null ==> responseMap.pending == old(responseMap.pending))
                && (id in old(outgoing.pending) && old(outgoing.pending[id].receiverAlive) ==>
                      old(outgoing.pending[id]).value == Some(message.response))
    {
      hide C.TableAfter, Cancels, TokensNamed, EventOf;
      EventOfIs(message);
      match message
      case RequestMessage(req) =>
        var token := RouteRequest(req);
        r := RequestIn(req, token);
      case NotificationMessage(notif) =>
        r := RouteNotification(notif);
      case ResponseMessage(resp) =>
        r := RouteResponse(resp);
        NoteUnrelated();
    }

    ghost method NoteUnrelated()
      requires Valid()
      modifies this`run
      ensures Valid() && run == old(run) + [C.Unrelated]
    {
      hide C.TableAfter;
      C.TableAfterOneMore(run, C.Unrelated);
      run := run + [C.Unrelated];
    }

    /** Cancels an outgoing request: tells the peer, then forgets the receiver. */
    method CancelOutgoing(id: RequestId) returns (wasPending: Option<bool>)
      modifies outbound, outgoing
      ensures wasPending == None <==> outbound.closed
      ensures wasPending == None ==> outbound.queue == old(outbound.queue) && outgoing.pending == old(outgoing.pending)
      ensures wasPending != None ==>
                && outbound.queue == old(outbound.queue) + [NotificationMessage(CancelNotification(id))]
                && outgoing.pending == old(outgoing.pending) - {id}
                && wasPending == Some(id in old(outgoing.pending))
    {
      var ok := outbound.Send(NotificationMessage(CancelNotification(id)));
      if !ok {
        return None;
      }
      var found := outgoing.Cancel(id);
      wasPending := Some(found);
    }

    /** Every handle of a connection works on the same response map, but counts its ids from 1 on its own. */
    method GetClientSender() returns (sender: ClientSender)
      modifies this`responseMap
      ensures responseMap != null && sender.responseMap == responseMap
      ensures old(responseMap) != null ==> responseMap == old(responseMap)
      ensures old(responseMap) == null ==> fresh(responseMap) && responseMap.pending == map[]
      ensures fresh(sender.idCounter) && sender.idCounter.value == 1
    {
      if responseMap == null {
        responseMap := new ResponseMap();
      }
      sender := new ClientSender(responseMap);
    }

    method HandleShutdown(id: RequestId) returns (ok: bool)
      requires Valid()
      modifies this`run, this`lifecycleState, this`lifecycle, shutdownToken, outbound
      ensures Valid() && LifecycleOk() && lifecycle == old(lifecycle) + [ShutdownHandled]
      ensures run == old(run) + [C.ShutDown] && lifecycleState == ShuttingDown
      ensures ok <==> !outbound.closed
      ensures outbound.queue == if ok then old(outbound.queue) + [ResponseMessage(Response(Some(id), Success(Null)))]
                                else old(outbound.queue)
    {
      hide C.TableAfter;
      shutdownToken.Cancel();
      lifecycleState := ShuttingDown;
      lifecycle := lifecycle + [ShutdownHandled];
      C.TableAfterOneMore(run, C.ShutDown);
      run := run + [C.ShutDown];
      ok := outbound.Send(ResponseMessage(Response(Some(id), Success(Null))));
    }

    method HandleExit() returns (code: ExitCode)
      requires LifecycleOk()
      modifies this`lifecycleState, this`lifecycle
      ensures code == ExitCodeAfter(old(lifecycle))
      ensures LifecycleOk() && lifecycleState == Exited && lifecycle == old(lifecycle) + [ExitHandled]
    {
      code := if lifecycleState == ShuttingDown then ExitSuccess else ExitError;
      lifecycleState := Exited;
      lifecycle := lifecycle + [ExitHandled];
    }

    // ---------- the handshake ----------

    /** Waits for `initialize` and rejects every request before it. If a send fails or the stream does, the
        rejections so far stand. */
    method InitializeStart() returns (r: StartResult)
      requires LifecycleOk()
      modifies this`lifecycleState, this`lifecycle, outbound, receiver
      ensures LifecycleOk()
      ensures lifecycleState == if r.Started? then Initializing else old(lifecycleState)
      ensures lifecycle == old(lifecycle) + if r.Started? then [InitializeAccepted] else []
      ensures var items := old(receiver.items);
              var n := StartEnd(items);
              match r
              case Started(id, params) =>
                && n < |items| && IsInitialize(items[n])
                && id == items[n].message.request.id
                && params == ParamsOrNull(items[n].message.request)
                && outbound.queue == old(outbound.queue) + Rejections(items[..n])
                && receiver.items == items[n + 1..]
              case StartFailed(error) =>
                exists k: nat | k <= n ::
                  && StartFailsAt(items, k, error, outbound.closed, receiver.items)
                  && outbound.queue == old(outbound.queue) + Rejections(items[..k])
      ensures old(outbound.closed) ==> outbound.closed
      ensures !outbound.closed ==>
                var items := old(receiver.items);
                var n := StartEnd(items);
                r.Started? <==> n < |items| && IsInitialize(items[n])
    {
      ghost var all, k := receiver.items, 0;
      assert Rejections(all[..0]) == [];
      while true
        invariant 0 <= k <= StartEnd(all) && receiver.items == all[k..]
        invariant outbound.queue == old(outbound.queue) + Rejections(all[..k])
        invariant lifecycleState == old(lifecycleState) && lifecycle == old(lifecycle)
        invariant old(outbound.closed) ==> outbound.closed
        decreases |all| - k
      {
        var item := receiver.Next();
        if item == None {
          return StartFailed(Disconnected);
        }
        assert item.value == all[k] && all[k..][1..] == all[k + 1..];
        assert EndsStart(all[k]) <==> k == StartEnd(all);
        RejectionsUpTo(all, k);
        match item.value {
          case ReceiveError => return StartFailed(Io);
          case Received(RequestMessage(req)) =>
            if req.name == INITIALIZE_METHOD {
              lifecycleState := Initializing;
              lifecycle := lifecycle + [InitializeAccepted];
              return Started(req.id, ParamsOrNull(req));
            }
            var ok := outbound.Send(Rejection(req.id));
            if !ok {
              return StartFailed(Io);
            }
          case Received(NotificationMessage(notif)) =>
            if notif.name == EXIT_METHOD {
              return StartFailed(Disconnected);
            }
          case Received(ResponseMessage(_)) =>
        }
        k := k + 1;
      }
    }

    /** Sends the result and waits for `initialized`, rejecting every request meanwhile; `exit` is dropped here like
        any other notification. The wait may time out at any receive. */
    method InitializeFinish(id: RequestId, initializeResult: Json) returns (r: Option<ProtocolError>)
      requires LifecycleOk()
      modifies this`lifecycleState, this`lifecycle, outbound, receiver
      ensures LifecycleOk()
      ensures lifecycleState == if r == None then Running else old(lifecycleState)
      ensures lifecycle == old(lifecycle) + if r == None then [InitializedReceived] else []
      ensures var items := old(receiver.items);
              var n := FinishEnd(items);
              var result := ResponseMessage(Response(Some(id), Success(initializeResult)));
              match r
              case None =>
                && n < |items| && IsNotification(items[n], INITIALIZED_METHOD)
                && outbound.queue == old(outbound.queue) + [result] + Rejections(items[..n])
                && receiver.items == items[n + 1..]
              case Some(error) =>
                || (error == Io && outbound.closed && outbound.queue == old(outbound.queue) && receiver.items == items)
                || exists k: nat | k <= n ::
                     && FinishFailsAt(items, k, error, outbound.closed, receiver.items)
                     && outbound.queue == old(outbound.queue) + [result] + Rejections(items[..k])
      ensures old(outbound.closed) ==> outbound.closed
      ensures !outbound.closed && r != Some(InitializeTimeout) ==>
                var items := old(receiver.items);
                var n := FinishEnd(items);
                r == None <==> n < |items| && IsNotification(items[n], INITIALIZED_METHOD)
    {
      var ok := outbound.Send(ResponseMessage(Response(Some(id), Success(initializeResult))));
      if !ok {
        return Some(Io);
      }
      ghost var all, k, sent := receiver.items, 0, outbound.queue;
      assert Rejections(all[..0]) == [];
      while true
        invariant 0 <= k <= FinishEnd(all) && receiver.items == all[k..]
        invariant outbound.queue == sent + Rejections(all[..k])
        invariant lifecycleState == old(lifecycleState) && lifecycle == old(lifecycle)
        invariant old(outbound.closed) ==> outbound.closed
        decreases |all| - k
      {
        if * {
          assert FinishFailsAt(all, k, InitializeTimeout, outbound.closed, receiver.items);
          return Some(InitializeTimeout);
        }
        var item := receiver.Next();
        if item == None {
          assert all[..k] == all;
          return Some(Disconnected);
        }
        assert item.value == all[k] && all[k..][1..] == all[k + 1..];
        assert EndsFinish(all[k]) <==> k == FinishEnd(all);
        RejectionsUpTo(all, k);
        match item.value {
          case ReceiveError => return Some(Io);
          case Received(NotificationMessage(notif)) =>
            if notif.name == INITIALIZED_METHOD {
              lifecycleState := Running;
              lifecycle := lifecycle + [InitializedReceived];
              return None;
            }
          case Received(RequestMessage(req)) =>
            ok := outbound.Send(Rejection(req.id));
            if !ok {
              return Some(Io);
            }
          case Received(ResponseMessage(_)) =>
        }
        k := k + 1;
      }
    }

    /** The whole handshake. When it succeeds, the peer has been sent one rejection for each request other than the
        accepted `initialize`, in order of arrival, and between the two phases the result, under its id. It does
        succeed whenever `initialize` and then `initialized` arrive, no send fails and the wait does not time out. */
    method Initialize(serverCapabilities: Json) returns (r: InitializeResult)
      requires LifecycleOk()
      modifies this`lifecycleState, this`lifecycle, outbound, receiver
      ensures LifecycleOk()
      ensures r.Initialized? ==>
                var items := old(receiver.items);
                var n := StartEnd(items);
                && n < |items| && IsInitialize(items[n])
                && var rest := items[n + 1..];
                   var m := FinishEnd(rest);
                   && m < |rest| && IsNotification(rest[m], INITIALIZED_METHOD)
                   && r.params == ParamsOrNull(items[n].message.request)
                   && outbound.queue == old(outbound.queue) + Rejections(items[..n])
                        + [ResponseMessage(Response(Some(items[n].message.request.id),
                                                    Success(Obj(map["capabilities" := serverCapabilities]))))]
                        + Rejections(rest[..m])
                   && receiver.items == rest[m + 1..]
      ensures if r.Initialized? then lifecycleState == Running
              else lifecycleState == Initializing || lifecycleState == old(lifecycleState)
      ensures !outbound.closed && r != InitializeFailed(InitializeTimeout) ==>
                var items := old(receiver.items);
                var n := StartEnd(items);
                r.Initialized? <==>
                  && n < |items| && IsInitialize(items[n])
                  && var rest := items[n + 1..];
                     FinishEnd(rest) < |rest| && IsNotification(rest[FinishEnd(rest)], INITIALIZED_METHOD)
    {
      var started := InitializeStart();
      match started
      case StartFailed(error) => r := InitializeFailed(error);
      case Started(id, params) =>
        var error := InitializeFinish(id, Obj(map["capabilities" := serverCapabilities]));
        r := if error == None then Initialized(params) else InitializeFailed(error.value);
    }
  }
}
