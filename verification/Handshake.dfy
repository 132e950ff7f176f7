/** The initialize handshake (LSP 3.17, "Initialize Request"; src/connection.rs `initialize_start` and
    `initialize_finish`): what ends each phase, and what the peer is answered meanwhile. */
module Handshake {
  import opened Wrappers
  import opened Messages

  // What `receiver.next()` yields; the end of the stream is the end of the sequence.
  datatype Incoming = Received(message: Message) | ReceiveError

  const INITIALIZE_METHOD := "initialize"
  const INITIALIZED_METHOD := "initialized"
  const EXIT_METHOD := "exit"
  const SERVER_NOT_INITIALIZED: i32 := -32002

  predicate IsRequest(i: Incoming) { i.Received? && i.message.RequestMessage? }

  predicate IsInitialize(i: Incoming) { IsRequest(i) && i.message.request.name == INITIALIZE_METHOD }

  predicate IsNotification(i: Incoming, name: string) {
    i.Received? && i.message.NotificationMessage? && i.message.notification.name == name
  }

  predicate EndsStart(i: Incoming) { i.ReceiveError? || IsInitialize(i) || IsNotification(i, EXIT_METHOD) }

  predicate EndsFinish(i: Incoming) { i.ReceiveError? || IsNotification(i, INITIALIZED_METHOD) }

  /** Where the first phase ends: at the first `initialize`, `exit` or error, or where the stream ends. */
  function StartEnd(items: seq<Incoming>): (n: nat)
    ensures n <= |items| && (forall j | 0 <= j < n :: !EndsStart(items[j])) && (n < |items| ==> EndsStart(items[n]))
  {
    if items == [] || EndsStart(items[0]) then 0 else 1 + StartEnd(items[1..])
  }

  /** Where the second phase ends: at the first `initialized` or error, or where the stream ends. */
  function FinishEnd(items: seq<Incoming>): (n: nat)
    ensures n <= |items| && (forall j | 0 <= j < n :: !EndsFinish(items[j])) && (n < |items| ==> EndsFinish(items[n]))
  {
    if items == [] || EndsFinish(items[0]) then 0 else 1 + FinishEnd(items[1..])
  }

  datatype ProtocolError = Disconnected | Io | InitializeTimeout

  /** The first phase fails at item `k`, with `left` still to come: there the stream ends, `exit` or an error arrives,
      or the rejection of a request finds the channel closed. */
  predicate StartFailsAt(items: seq<Incoming>, k: nat, error: ProtocolError, closed: bool, left: seq<Incoming>) {
    if k < |items| then
      && left == items[k + 1..]
      && match error
         case Disconnected => IsNotification(items[k], EXIT_METHOD)
         case Io => items[k].ReceiveError? || (closed && IsRequest(items[k]) && !IsInitialize(items[k]))
         case InitializeTimeout => false
    else k == |items| && left == [] && error == Disconnected
  }

  /** The second phase fails at item `k`, with `left` still to come: there the stream ends, an error arrives, or the
      rejection of a request finds the channel closed; or the wait times out before that item. */
  predicate FinishFailsAt(items: seq<Incoming>, k: nat, error: ProtocolError, closed: bool, left: seq<Incoming>) {
    k <= |items| &&
    match error
    case Disconnected => k == |items| && left == []
    case Io =>
      k < |items| && left == items[k + 1..] && (items[k].ReceiveError? || (closed && IsRequest(items[k])))
    case InitializeTimeout => left == items[k..]
  }

  /** In particular, `Disconnected` means `exit` or the end of the stream, and `Io` an error or a closed channel. */
  lemma FailuresMean(items: seq<Incoming>, k: nat, closed: bool, left: seq<Incoming>)
    ensures StartFailsAt(items, k, Disconnected, closed, left) ==>
              || (k == |items| && left == [])
              || (k < |items| && left == items[k + 1..] && items[k].Received?
                  && items[k].message.NotificationMessage? && items[k].message.notification.name == "exit")
    ensures StartFailsAt(items, k, Io, closed, left) ==>
              && k < |items| && left == items[k + 1..]
              && (items[k].ReceiveError?
                  || (closed && items[k].message.RequestMessage? && items[k].message.request.name != "initialize"))
    ensures !StartFailsAt(items, k, InitializeTimeout, closed, left)
    ensures FinishFailsAt(items, k, Disconnected, closed, left) ==> k == |items| && left == []
    ensures FinishFailsAt(items, k, Io, closed, left) ==>
              && k < |items| && left == items[k + 1..]
              && (items[k].ReceiveError? || (closed && items[k].message.RequestMessage?))
    ensures FinishFailsAt(items, k, InitializeTimeout, closed, left) ==> k <= |items| && left == items[k..]
  {
  }

  // ---------- the lifecycle ----------

  datatype LifecycleState = Uninitialized | Initializing | Running | ShuttingDown | Exited

  datatype ExitCode = ExitSuccess | ExitError

  // What changes the lifecycle state: the end of either phase of the handshake, and the handling of `shutdown` and
  // of `exit`, in whatever order the user of a connection calls them.
  datatype LifecycleStep = InitializeAccepted | InitializedReceived | ShutdownHandled | ExitHandled

  function StateAfter(steps: seq<LifecycleStep>): LifecycleState {
    if steps == [] then Uninitialized
    else
      match steps[|steps| - 1]
      case InitializeAccepted => Initializing
      case InitializedReceived => Running
      case ShutdownHandled => ShuttingDown
      case ExitHandled => Exited
  }

  /** The code of an `exit` that comes after these steps. */
  function ExitCodeAfter(steps: seq<LifecycleStep>): ExitCode {
    if StateAfter(steps) == ShuttingDown then ExitSuccess else ExitError
  }

  /** An exit is a success exactly when a shutdown came first and no step of another kind came after it. */
  lemma ExitSucceedsIff(steps: seq<LifecycleStep>)
    ensures ExitCodeAfter(steps) == ExitSuccess
            <==> exists j: nat :: j < |steps| && steps[j] == ShutdownHandled
                                  && forall k | j < k < |steps| :: steps[k] == ShutdownHandled
  {
    if steps != [] && steps[|steps| - 1] == ShutdownHandled {
      var j := |steps| - 1;
      assert steps[j] == ShutdownHandled;
    }
  }

  /** So that a shutdown came first does not suffice: it may have been followed by another exit, or by the end of the
      handshake. */
  lemma ShutdownFirstDoesNotSuffice()
    ensures ExitCodeAfter([ShutdownHandled]) == ExitSuccess
    ensures ExitCodeAfter([ShutdownHandled, ExitHandled]) == ExitError
    ensures ExitCodeAfter([InitializeAccepted, ShutdownHandled, InitializedReceived]) == ExitError
  {
  }

  // ---------- rejections ----------

  function Rejection(id: RequestId): Message {
    var error := ResponseError(SERVER_NOT_INITIALIZED, "Server not yet initialized", None);
    ResponseMessage(Response(Some(id), Error(error)))
  }

  /** One rejection for each request, in order of arrival, and nothing for anything else. */
  function Rejections(items: seq<Incoming>): seq<Message> {
    if items == [] then []
    else if IsRequest(items[0]) then [Rejection(items[0].message.request.id)] + Rejections(items[1..])
    else Rejections(items[1..])
  }

  lemma {:induction false} RejectionsSnoc(items: seq<Incoming>, i: Incoming)
    ensures Rejections(items + [i])
            == Rejections(items) + if IsRequest(i) then [Rejection(i.message.request.id)] else []
  {
    if items == [] {
      assert items + [i] == [i];
    } else {
      assert (items + [i])[1..] == items[1..] + [i];
      RejectionsSnoc(items[1..], i);
    }
  }

  lemma RejectionsUpTo(items: seq<Incoming>, k: nat)
    requires k < |items|
    ensures Rejections(items[..k + 1])
            == Rejections(items[..k]) + if IsRequest(items[k]) then [Rejection(items[k].message.request.id)] else []
  {
    assert items[..k + 1] == items[..k] + [items[k]];
    RejectionsSnoc(items[..k], items[k]);
  }

  /** The requests among the first `n` items that come before item `k`. */
  function RequestsBefore(items: seq<Incoming>, k: nat): nat
    requires k <= |items|
  {
    if k == 0 then 0 else RequestsBefore(items, k - 1) + if IsRequest(items[k - 1]) then 1 else 0
  }

  /** Every request is answered exactly once, at its place in the order of arrival, with the error -32002
      (ServerNotInitialized) under its own id. */
  lemma EachRequestRejectedOnce(items: seq<Incoming>, k: nat)
    requires k <= |items|
    ensures |Rejections(items[..k])| == RequestsBefore(items, k)
    ensures forall j: nat | j < k && items[j].Received? && items[j].message.RequestMessage? ::
              && RequestsBefore(items, j) < RequestsBefore(items, k)
              && var answer := Rejections(items[..k])[RequestsBefore(items, j)];
                 && answer.ResponseMessage? && answer.response.id == Some(items[j].message.request.id)
                 && answer.response.body.Error? && answer.response.body.error.code == -32002
                 && answer.response.body.error.message == "Server not yet initialized"
                 && answer.response.body.error.data == None
  {
    EachRequestHasRejection(items, k);
  }

  lemma {:induction false} EachRequestHasRejection(items: seq<Incoming>, k: nat)
    requires k <= |items|
    ensures |Rejections(items[..k])| == RequestsBefore(items, k)
    ensures forall j: nat | j < k && IsRequest(items[j]) ::
              && RequestsBefore(items, j) < RequestsBefore(items, k)
              && Rejections(items[..k])[RequestsBefore(items, j)] == Rejection(items[j].message.request.id)
  {
    if k > 0 {
      EachRequestHasRejection(items, k - 1);
      RejectionsUpTo(items, k - 1);
    }
  }

  /** The number of the requests among the first items is the number of the answers that they get, no more and no
      less: it grows by one with each request and with nothing else. */
  lemma RequestsCounted(items: seq<Incoming>, k: nat)
    requires k < |items|
    ensures RequestsBefore(items, 0) == 0
    ensures RequestsBefore(items, k + 1)
            == RequestsBefore(items, k) + if items[k].Received? && items[k].message.RequestMessage? then 1 else 0
  {
  }

  /** What ends the phases, by the names on the wire. */
  lemma PhaseEnds(i: Incoming)
    ensures IsInitialize(i) <==> i.Received? && i.message.RequestMessage? && i.message.request.name == "initialize"
    ensures EndsStart(i) <==>
            || i.ReceiveError?
            || (i.message.RequestMessage? && i.message.request.name == "initialize")
            || (i.message.NotificationMessage? && i.message.notification.name == "exit")
    ensures EndsFinish(i) <==>
            i.ReceiveError? || (i.message.NotificationMessage? && i.message.notification.name == "initialized")
    ensures i.Received? && i.message.NotificationMessage? ==>
              && (IsNotification(i, INITIALIZED_METHOD) <==> i.message.notification.name == "initialized")
              && (IsNotification(i, EXIT_METHOD) <==> i.message.notification.name == "exit")
  {
  }
}
