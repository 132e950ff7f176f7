/** Request/response correlation (src/client_sender.rs, `route` in src/connection.rs) as a step system: every lock
    acquisition and every atomic operation is one step, and the steps of all callers and of the router interleave
    freely. A request may end at any time without its response (timeout, abort, disconnect); its guard then removes
    the entry under its id in a step of its own. */
module Correlation {
  import opened Wrappers
  import opened Messages
  import opened ClientSender

  // A response from the peer, numbered by arrival.
  datatype Arrived = Arrived(serial: nat, response: Response)

  datatype Phase =
    | Reserving(attempts: nat)       // in `reserve_request_slot`, about to draw an id
    | Drawn(attempts: nat)           // about to register the id drawn
    | Registered                     // has an entry; about to enqueue the message
    | Waiting                        // the guard is armed, the message is enqueued
    | Ending                         // over without a response; the receiver is gone, the guard not yet dropped
    | Done(result: Option<Arrived>)  // returned this response, or an error

  // One call of `ClientSender::request`. `id` is the `draw`-th id its handle has drawn; `inbox` is what its
  // oneshot receiver holds.
  datatype Call = Call(handle: nat, phase: Phase, id: i32, draw: nat, inbox: Option<Arrived>)

  // What the clones of one `client_sender()` result share.
  datatype Handle = Handle(counter: int, draws: nat)

  datatype Router =
    | Idle
    | Matched(arrived: Arrived)      // the response map contained the id
    | Unmatched(arrived: Arrived)    // it did not, or the entry went away before delivery

  // What became of a response: it consumed the entry of a call or of an outgoing receiver, or it was handed back.
  datatype Fate = ToCall(call: nat) | ToReceiver(receiver: nat) | HandedBack

  datatype State = State(
    handles: seq<Handle>,
    calls: seq<Call>,
    pending: map<RequestId, nat>,    // the response map: which call waits for an id
    outgoing: map<RequestId, nat>,   // the request queue's outgoing table: which receiver waits for an id
    receivers: nat,
    outbox: map<nat, Arrived>,       // what the outgoing receivers got
    unknown: seq<Arrived>,           // responses returned as `ResponseUnknown`
    router: Router,
    arrivals: nat,
    fate: map<nat, Fate>)

  datatype Event =
    | NewHandle
    | NewCall(handle: nat)
    | Draw(call: nat)
    | Register(call: nat)
    | GiveUp(call: nat)
    | Enqueue(call: nat, ok: bool)
    | Receive(call: nat)
    | End(call: nat)
    | DropGuard(call: nat)
    | Look(response: Response)
    | Deliver
    | FallBack
    | OutRegister(id: RequestId)
    | OutCancel(id: RequestId)

  const INIT := State([], [], map[], map[], 0, map[], [], Idle, 0, map[])

  predicate Enabled(s: State, e: Event) {
    match e
    case NewHandle => true
    case NewCall(h) => h < |s.handles|
    case Draw(c) =>
      c < |s.calls| && s.calls[c].phase.Reserving? && s.calls[c].phase.attempts < MAX_RETRIES
      && s.calls[c].handle < |s.handles| && CounterOk(s.handles[s.calls[c].handle].counter)
    case Register(c) => c < |s.calls| && s.calls[c].phase.Drawn?
    case GiveUp(c) => c < |s.calls| && s.calls[c].phase.Reserving? && s.calls[c].phase.attempts >= MAX_RETRIES
    case Enqueue(c, _) => c < |s.calls| && s.calls[c].phase.Registered?
    case Receive(c) => c < |s.calls| && s.calls[c].phase.Waiting? && s.calls[c].inbox.Some?
    case End(c) => c < |s.calls| && s.calls[c].phase.Waiting?
    case DropGuard(c) => c < |s.calls| && s.calls[c].phase.Ending?
    case Look(_) => s.router.Idle?
    case Deliver => s.router.Matched? && s.router.arrived.response.id.Some?
                    && (s.router.arrived.response.id.value in s.pending ==>
                          s.pending[s.router.arrived.response.id.value] < |s.calls|)
    case FallBack => s.router.Unmatched?
    case OutRegister(_) => s.router.Idle?   // `route` borrows the connection exclusively
    case OutCancel(_) => s.router.Idle?
  }

  function SetPhase(s: State, c: nat, phase: Phase): State
    requires c < |s.calls|
  {
    s.(calls := s.calls[c := s.calls[c].(phase := phase)])
  }

  /** `deliver` when the entry is there: it is removed and its receiver, if still there, gets the response. */
  function DeliverTo(s: State, c: nat, a: Arrived): State
    requires c < |s.calls| && a.response.id.Some?
  {
    var call := s.calls[c];
    s.(pending := s.pending - {a.response.id.value},
       calls := s.calls[c := if call.phase.Ending? then call else call.(inbox := Some(a))],
       fate := s.fate[a.serial := ToCall(c)])
  }

  /** The outgoing table, and `ResponseUnknown` if it has no entry either. */
  function Settle(s: State, a: Arrived): State {
    if a.response.id.Some? && a.response.id.value in s.outgoing then
      var id := a.response.id.value;
      s.(outgoing := s.outgoing - {id}, outbox := s.outbox[s.outgoing[id] := a],
         fate := s.fate[a.serial := ToReceiver(s.outgoing[id])])
    else s.(unknown := s.unknown + [a], fate := s.fate[a.serial := HandedBack])
  }

  function Next(s: State, e: Event): State
    requires Enabled(s, e)
  {
    match e
    case NewHandle => s.(handles := s.handles + [Handle(1, 0)])
    case NewCall(h) => s.(calls := s.calls + [Call(h, Reserving(0), 0, 0, None)])
    case Draw(c) =>
      var call := s.calls[c];
      var handle := s.handles[call.handle];
      s.(handles := s.handles[call.handle := Handle(NextCounter(handle.counter), handle.draws + 1)],
         calls := s.calls[c := call.(phase := Drawn(call.phase.attempts), id := handle.counter, draw := handle.draws)])
    case Register(c) =>
      var id := Integer(s.calls[c].id);
      if id in s.pending then SetPhase(s, c, Reserving(s.calls[c].phase.attempts + 1))
      else SetPhase(s, c, Registered).(pending := s.pending[id := c])
    case GiveUp(c) => SetPhase(s, c, Done(None))
    case Enqueue(c, ok) => SetPhase(s, c, if ok then Waiting else Ending)
    case Receive(c) => SetPhase(s, c, Done(s.calls[c].inbox))
    case End(c) => SetPhase(s, c, Ending)
    case DropGuard(c) => SetPhase(s, c, Done(None)).(pending := s.pending - {Integer(s.calls[c].id)})
    case Look(response) =>
      var a := Arrived(s.arrivals, response);
      var s' := s.(arrivals := s.arrivals + 1);
      if response.id.None? then Settle(s', a)
      else s'.(router := if response.id.value in s.pending then Matched(a) else Unmatched(a))
    case Deliver =>
      var a := s.router.arrived;
      if a.response.id.value in s.pending then
        DeliverTo(s, s.pending[a.response.id.value], a).(router := Idle)
      else s.(router := Unmatched(a))
    case FallBack => Settle(s, s.router.arrived).(router := Idle)
    case OutRegister(id) => s.(outgoing := s.outgoing[id := s.receivers], receivers := s.receivers + 1)
    case OutCancel(id) => s.(outgoing := s.outgoing - {id})
  }

  predicate IsRun(s: State, es: seq<Event>)
    decreases |es|
  {
    es == [] || (Enabled(s, es[0]) && IsRun(Next(s, es[0]), es[1..]))
  }

  function After(s: State, es: seq<Event>): State
    requires IsRun(s, es)
    decreases |es|
  {
    if es == [] then s else After(Next(s, es[0]), es[1..])
  }

  // ---------- what every run keeps ----------

  /** The call has registered its id and is not over. */
  predicate InFlight(call: Call) { call.phase.Registered? || call.phase.Waiting? || call.phase.Ending? }

  /** Every entry belongs to a request in flight with that id, which has not been answered. */
  ghost predicate EntriesOk(s: State) {
    forall id | id in s.pending ::
      && s.pending[id] < |s.calls|
      && var call := s.calls[s.pending[id]];
         InFlight(call) && id == Integer(call.id) && call.inbox.None?
  }

  /** A receiver holds only responses to its own id; and a call returns only what its receiver held. */
  ghost predicate InboxesOk(s: State) {
    forall c | 0 <= c < |s.calls| ::
      var call := s.calls[c];
      && (call.inbox.Some? ==>
            && (InFlight(call) || call.phase.Done?)
            && call.inbox.value.response.id == Some(Integer(call.id))
            && call.inbox.value.serial in s.fate && s.fate[call.inbox.value.serial] == ToCall(c))
      && (call.phase.Done? && call.phase.result.Some? ==> call.inbox == call.phase.result)
  }

  /** What the record of fates says is what the receivers hold and what was handed back. */
  ghost predicate FateTable(s: State) {
    && (forall n | n in s.fate :: n < s.arrivals)
    && (forall k | k in s.outbox :: s.outbox[k].serial in s.fate && s.fate[s.outbox[k].serial] == ToReceiver(k))
    && (forall i | 0 <= i < |s.unknown| ::
          s.unknown[i].serial in s.fate && s.fate[s.unknown[i].serial] == HandedBack)
    && (forall i, j | 0 <= i < j < |s.unknown| :: s.unknown[i].serial != s.unknown[j].serial)
  }

  /** `a` is the latest arrival and the only one whose fate is open. */
  ghost predicate InTransit(s: State, a: Arrived) {
    && a.serial + 1 == s.arrivals && a.serial !in s.fate
    && forall n: nat | n < a.serial :: n in s.fate
  }

  /** Every response that has arrived and left the router has met exactly one fate. */
  ghost predicate FatesOk(s: State) {
    && FateTable(s)
    && (if s.router.Idle? then forall n: nat | n < s.arrivals :: n in s.fate
        else InTransit(s, s.router.arrived) && s.router.arrived.response.id.Some?)
  }

  ghost predicate HandlesOk(s: State) {
    && (forall h | 0 <= h < |s.handles| :: CounterOk(s.handles[h].counter))
    && (forall c | 0 <= c < |s.calls| :: s.calls[c].handle < |s.handles|)
  }

  /** Receivers of the outgoing table are numbered apart, so none gets two responses. */
  ghost predicate OutgoingOk(s: State) {
    && (forall id | id in s.outgoing :: s.outgoing[id] < s.receivers && s.outgoing[id] !in s.outbox)
    && (forall i, j | i in s.outgoing && j in s.outgoing && i != j :: s.outgoing[i] != s.outgoing[j])
    && (forall k | k in s.outbox :: k < s.receivers)
  }

  ghost predicate Inv(s: State) {
    EntriesOk(s) && InboxesOk(s) && FatesOk(s) && HandlesOk(s) && OutgoingOk(s)
  }

  lemma NewHandleStep(s: State, e: Event)
    requires Inv(s) && Enabled(s, e) && e.NewHandle?
    ensures Inv(Next(s, e))
  {
  }

  lemma NewCallStep(s: State, e: Event)
    requires Inv(s) && Enabled(s, e) && e.NewCall?
    ensures Inv(Next(s, e))
  {
  }

  lemma DrawStep(s: State, e: Event)
    requires Inv(s) && Enabled(s, e) && e.Draw?
    ensures Inv(Next(s, e))
  {
  }

  lemma RegisterStep(s: State, e: Event)
    requires Inv(s) && Enabled(s, e) && e.Register?
    ensures Inv(Next(s, e))
  {
    var t, id := Next(s, e), Integer(s.calls[e.call].id);
    if id in s.pending {
      assert t == SetPhase(s, e.call, Reserving(s.calls[e.call].phase.attempts + 1));
      assert Inv(t);
    } else {
      RegisterFree(s, e.call);
    }
  }

  lemma RegisterFree(s: State, c: nat)
    requires Inv(s) && c < |s.calls| && s.calls[c].phase.Drawn? && Integer(s.calls[c].id) !in s.pending
    ensures Inv(SetPhase(s, c, Registered).(pending := s.pending[Integer(s.calls[c].id) := c]))
  {
  }

  lemma GiveUpStep(s: State, e: Event)
    requires Inv(s) && Enabled(s, e) && e.GiveUp?
    ensures Inv(Next(s, e))
  {
  }

  lemma EnqueueStep(s: State, e: Event)
    requires Inv(s) && Enabled(s, e) && e.Enqueue?
    ensures Inv(Next(s, e))
  {
  }

  lemma ReceiveStep(s: State, e: Event)
    requires Inv(s) && Enabled(s, e) && e.Receive?
    ensures Inv(Next(s, e))
  {
  }

  lemma EndStep(s: State, e: Event)
    requires Inv(s) && Enabled(s, e) && e.End?
    ensures Inv(Next(s, e))
  {
  }

  lemma DropGuardStep(s: State, e: Event)
    requires Inv(s) && Enabled(s, e) && e.DropGuard?
    ensures Inv(Next(s, e))
  {
  }

  /** The fallback settles the response in transit. */
  lemma SettleKeeps(s: State, a: Arrived)
    requires EntriesOk(s) && InboxesOk(s) && HandlesOk(s) && OutgoingOk(s) && FateTable(s) && InTransit(s, a)
    ensures Inv(Settle(s, a).(router := Idle))
  {
    var t := Settle(s, a).(router := Idle);
    assert t.calls == s.calls && t.pending == s.pending && t.handles == s.handles;
    assert EntriesOk(t) && HandlesOk(t);
    SettleInboxes(s, a);
    SettleFates(s, a);
  }

  lemma SettleInboxes(s: State, a: Arrived)
    requires InboxesOk(s) && OutgoingOk(s) && HandlesOk(s) && InTransit(s, a)
    ensures InboxesOk(Settle(s, a).(router := Idle)) && OutgoingOk(Settle(s, a).(router := Idle))
    ensures HandlesOk(Settle(s, a).(router := Idle))
  {
    var t := Settle(s, a).(router := Idle);
    assert forall n | n in s.fate :: n in t.fate && t.fate[n] == s.fate[n];
  }

  lemma SettleFates(s: State, a: Arrived)
    requires FateTable(s) && InTransit(s, a)
    ensures FatesOk(Settle(s, a).(router := Idle))
  {
    var t := Settle(s, a).(router := Idle);
    assert forall n | n in s.fate :: n in t.fate && t.fate[n] == s.fate[n];
  }

  /** A new arrival opens a fate. */
  lemma ArrivalKeeps(s: State, a: Arrived)
    requires Inv(s) && s.router.Idle? && a.serial == s.arrivals
    ensures var t := s.(arrivals := s.arrivals + 1);
            EntriesOk(t) && InboxesOk(t) && HandlesOk(t) && OutgoingOk(t) && FateTable(t) && InTransit(t, a)
  {
  }

  lemma RouterKeeps(s: State, r: Router)
    requires EntriesOk(s) && InboxesOk(s) && HandlesOk(s) && OutgoingOk(s) && FateTable(s)
    requires !r.Idle? && InTransit(s, r.arrived) && r.arrived.response.id.Some?
    ensures Inv(s.(router := r))
  {
  }

  lemma LookStep(s: State, e: Event)
    requires Inv(s) && Enabled(s, e) && e.Look?
    ensures Inv(Next(s, e))
  {
    hide Inv, EntriesOk, InboxesOk, HandlesOk, OutgoingOk, FateTable, InTransit, Settle;
    var a, t := Arrived(s.arrivals, e.response), s.(arrivals := s.arrivals + 1);
    ArrivalKeeps(s, a);
    if e.response.id.None? {
      SettleKeeps(t, a);
      SettleKeepsRouter(t, a);
      assert Settle(t, a).(router := Idle) == Settle(t, a);
    } else {
      RouterKeeps(t, if e.response.id.value in s.pending then Matched(a) else Unmatched(a));
    }
  }

  lemma SettleKeepsRouter(s: State, a: Arrived)
    ensures Settle(s, a).router == s.router
  {
  }

  lemma DeliverStep(s: State, e: Event)
    requires Inv(s) && Enabled(s, e) && e.Deliver?
    ensures Inv(Next(s, e))
  {
    var a := s.router.arrived;
    if a.response.id.value in s.pending {
      DeliverKeeps(s, a);
    }
  }

  lemma DeliverKeeps(s: State, a: Arrived)
    requires Inv(s) && s.router == Matched(a) && a.response.id.Some? && a.response.id.value in s.pending
    ensures Inv(DeliverTo(s, s.pending[a.response.id.value], a).(router := Idle))
  {
    var c := s.pending[a.response.id.value];
    var t := DeliverTo(s, c, a).(router := Idle);
    assert forall n | n in s.fate :: n in t.fate && t.fate[n] == s.fate[n];
    assert EntriesOk(t);
    assert InboxesOk(t);
    assert FatesOk(t) && HandlesOk(t) && OutgoingOk(t);
  }

  lemma FallBackStep(s: State, e: Event)
    requires Inv(s) && Enabled(s, e) && e.FallBack?
    ensures Inv(Next(s, e))
  {
    SettleKeeps(s, s.router.arrived);
  }

  lemma OutRegisterStep(s: State, e: Event)
    requires Inv(s) && Enabled(s, e) && e.OutRegister?
    ensures Inv(Next(s, e))
  {
  }

  lemma OutCancelStep(s: State, e: Event)
    requires Inv(s) && Enabled(s, e) && e.OutCancel?
    ensures Inv(Next(s, e))
  {
  }

  lemma StepKeeps(s: State, e: Event)
    requires Inv(s) && Enabled(s, e)
    ensures Inv(Next(s, e))
  {
    hide Next, Inv, Enabled;
    match e
    case NewHandle => NewHandleStep(s, e);
    case NewCall(_) => NewCallStep(s, e);
    case Draw(_) => DrawStep(s, e);
    case Register(_) => RegisterStep(s, e);
    case GiveUp(_) => GiveUpStep(s, e);
    case Enqueue(_, _) => EnqueueStep(s, e);
    case Receive(_) => ReceiveStep(s, e);
    case End(_) => EndStep(s, e);
    case DropGuard(_) => DropGuardStep(s, e);
    case Look(_) => LookStep(s, e);
    case Deliver => DeliverStep(s, e);
    case FallBack => FallBackStep(s, e);
    case OutRegister(_) => OutRegisterStep(s, e);
    case OutCancel(_) => OutCancelStep(s, e);
  }

  lemma {:induction false} RunKeeps(s: State, es: seq<Event>)
    requires Inv(s) && IsRun(s, es)
    ensures Inv(After(s, es))
    decreases |es|
  {
    if es != [] {
      StepKeeps(s, es[0]);
      RunKeeps(Next(s, es[0]), es[1..]);
    }
  }

  /** Response number `n` is where the record of fates says: a call's receiver holds it, unless that was gone and
      then the call's entry is gone too; a receiver of the outgoing table holds it; or it was handed back. */
  ghost predicate FateMet(s: State, n: nat)
    requires n in s.fate
  {
    match s.fate[n]
    case ToCall(c) =>
      c < |s.calls|
      && if s.calls[c].inbox.Some? then s.calls[c].inbox.value.serial == n
         else (s.calls[c].phase.Ending? || s.calls[c].phase.Done?) && forall id | id in s.pending :: s.pending[id] != c
    case ToReceiver(k) => k in s.outbox && s.outbox[k].serial == n
    case HandedBack => exists i: nat :: i < |s.unknown| && s.unknown[i].serial == n
  }

  ghost predicate FatesMet(s: State) {
    forall n | n in s.fate :: FateMet(s, n)
  }

  /** A step that settles no response leaves every receiver what it holds; a call that is over stays over, and gets no
      entry any more. */
  lemma StepBesideFates(s: State, e: Event)
    requires Inv(s) && Enabled(s, e) && !e.Look? && !e.Deliver? && !e.FallBack?
    ensures var t := Next(s, e);
            && t.fate == s.fate && t.outbox == s.outbox && t.unknown == s.unknown && |s.calls| <= |t.calls|
            && (forall c | 0 <= c < |s.calls| :: t.calls[c].inbox == s.calls[c].inbox)
            && (forall c | 0 <= c < |s.calls| && (s.calls[c].phase.Ending? || s.calls[c].phase.Done?) ::
                  && (t.calls[c].phase.Ending? || t.calls[c].phase.Done?)
                  && forall id | id in t.pending && t.pending[id] == c :: id in s.pending && s.pending[id] == c)
  {
    hide Settle, DeliverTo, FatesOk, InboxesOk, OutgoingOk;
  }

  lemma FatesMetBeside(s: State, e: Event)
    requires Inv(s) && FatesMet(s) && Enabled(s, e) && !e.Look? && !e.Deliver? && !e.FallBack?
    ensures FatesMet(Next(s, e))
  {
    hide Next, Enabled, Inv;
    StepBesideFates(s, e);
    var t := Next(s, e);
    forall n | n in t.fate ensures FateMet(t, n) {
      assert FateMet(s, n);
    }
  }

  lemma FatesMetSettle(s: State, a: Arrived)
    requires FatesMet(s) && OutgoingOk(s) && a.serial !in s.fate
    ensures FatesMet(Settle(s, a))
  {
    var t := Settle(s, a);
    forall n | n in t.fate ensures FateMet(t, n) {
      if n == a.serial {
        assert t.fate[n].HandedBack? ==> t.unknown[|s.unknown|].serial == n;
      } else {
        assert FateMet(s, n);
        if s.fate[n].HandedBack? {
          var i: nat :| i < |s.unknown| && s.unknown[i].serial == n;
          assert t.unknown[i].serial == n;
        }
      }
    }
  }

  lemma FatesMetDeliver(s: State, a: Arrived)
    requires Inv(s) && FatesMet(s) && s.router == Matched(a) && a.response.id.Some? && a.response.id.value in s.pending
    ensures FatesMet(DeliverTo(s, s.pending[a.response.id.value], a))
  {
    var c := s.pending[a.response.id.value];
    var t := DeliverTo(s, c, a);
    forall n | n in t.fate ensures FateMet(t, n) {
      if n != a.serial {
        assert FateMet(s, n);
        if s.fate[n].HandedBack? {
          var i: nat :| i < |s.unknown| && s.unknown[i].serial == n;
          assert t.unknown[i].serial == n;
        }
      }
    }
  }

  lemma FatesMetRouter(s: State, r: Router, arrivals: nat)
    requires FatesMet(s)
    ensures FatesMet(s.(router := r, arrivals := arrivals))
  {
    forall n | n in s.fate ensures FateMet(s.(router := r, arrivals := arrivals), n) {
      assert FateMet(s, n);
    }
  }

  lemma FatesMetStep(s: State, e: Event)
    requires Inv(s) && FatesMet(s) && Enabled(s, e)
    ensures FatesMet(Next(s, e))
  {
    hide FatesMet, Settle, DeliverTo;
    match e
    case Look(response) =>
      var a := Arrived(s.arrivals, response);
      FatesMetRouter(s, Next(s, e).router, s.arrivals + 1);
      if response.id.None? {
        SettleKeepsRouter(s.(arrivals := s.arrivals + 1), a);
        FatesMetSettle(s.(arrivals := s.arrivals + 1), a);
      }
    case Deliver =>
      var a := s.router.arrived;
      FatesMetRouter(s, Unmatched(a), s.arrivals);
      if a.response.id.value in s.pending {
        var t := DeliverTo(s, s.pending[a.response.id.value], a);
        FatesMetDeliver(s, a);
        FatesMetRouter(t, Idle, t.arrivals);
      }
    case FallBack =>
      var t := Settle(s, s.router.arrived);
      FatesMetSettle(s, s.router.arrived);
      FatesMetRouter(t, Idle, t.arrivals);
    case _ => FatesMetBeside(s, e);
  }

  lemma {:induction false} FatesMetRun(s: State, es: seq<Event>)
    requires Inv(s) && FatesMet(s) && IsRun(s, es)
    ensures FatesMet(After(s, es))
    decreases |es|
  {
    if es != [] {
      StepKeeps(s, es[0]);
      FatesMetStep(s, es[0]);
      FatesMetRun(Next(s, es[0]), es[1..]);
    }
  }

  /** The correlation invariant, over every interleaving: no entry without a request in flight that waits for it, no
      entry left when none is in flight, no `Ok` response with another id, no response for two receivers of either
      kind, and every response that has arrived and is not on its way through the router is where exactly one fate
      says. */
  lemma Correlated(es: seq<Event>)
    requires IsRun(INIT, es)
    ensures var s := After(INIT, es);
            && (forall id | id in s.pending :: s.pending[id] < |s.calls| && InFlight(s.calls[s.pending[id]])
                                               && id == Integer(s.calls[s.pending[id]].id))
            && ((forall c | 0 <= c < |s.calls| :: !InFlight(s.calls[c])) ==> s.pending == map[])
            && (forall c | 0 <= c < |s.calls| && s.calls[c].phase.Done? && s.calls[c].phase.result.Some? ::
                  s.calls[c].phase.result.value.response.id == Some(Integer(s.calls[c].id)))
            && (forall c, d | 0 <= c < d < |s.calls| && s.calls[c].inbox.Some? && s.calls[d].inbox.Some? ::
                  s.calls[c].inbox.value.serial != s.calls[d].inbox.value.serial)
            && (forall c, k | 0 <= c < |s.calls| && s.calls[c].inbox.Some? && k in s.outbox ::
                  s.calls[c].inbox.value.serial != s.outbox[k].serial)
            && (forall j, k | j in s.outbox && k in s.outbox && j != k :: s.outbox[j].serial != s.outbox[k].serial)
            && (forall n: nat ::
                  n in s.fate <==> n < s.arrivals && (s.router.Idle? || n != s.router.arrived.serial))
            && (forall n | n in s.fate :: FateMet(s, n))
  {
    RunKeeps(INIT, es);
    FatesMetRun(INIT, es);
  }

  /** In every reachable state everything may happen that the code allows: a call may take its next step, whichever that
      is, and end in either way; the router always gets on, and responses of every kind may arrive. In particular a
      caller that draws an id finds a counter in range, so neither panic of `next_id` can happen. */
  lemma NothingIsStuck(es: seq<Event>, c: nat, h: nat, response: Response, id: RequestId)
    requires IsRun(INIT, es)
    ensures var s := After(INIT, es);
            && (s.router.Matched? ==> Enabled(s, Deliver))
            && (s.router.Unmatched? ==> Enabled(s, FallBack))
            && (s.router.Idle? ==>
                  Enabled(s, Look(response)) && Enabled(s, OutRegister(id)) && Enabled(s, OutCancel(id)))
            && Enabled(s, NewHandle) && (h < |s.handles| ==> Enabled(s, NewCall(h)))
            && (c < |s.calls| ==>
                  match s.calls[c].phase
                  case Reserving(attempts) => if attempts < 1000 then Enabled(s, Draw(c)) else Enabled(s, GiveUp(c))
                  case Drawn(_) => Enabled(s, Register(c))
                  case Registered => Enabled(s, Enqueue(c, true)) && Enabled(s, Enqueue(c, false))
                  case Waiting => Enabled(s, End(c)) && (s.calls[c].inbox.Some? ==> Enabled(s, Receive(c)))
                  case Ending => Enabled(s, DropGuard(c))
                  case Done(_) => true)
  {
    hide After, IsRun, Next, InboxesOk, OutgoingOk, FateTable;
    RunKeeps(INIT, es);
  }

  // ---------- ids across wraparound ----------

  /** The request has an id and may still touch the response map. */
  predicate Live(call: Call) { call.phase.Drawn? || InFlight(call) }

  /** The `k`-th id that a handle draws, counting from 0. */
  function NthId(k: nat): i32 { k % I32_MAX + 1 }

  /** Counters and drawn ids are where their number of draws puts them, and no draw is used twice. */
  ghost predicate DrawsOk(s: State) {
    && (forall h | 0 <= h < |s.handles| :: s.handles[h].counter == NthId(s.handles[h].draws))
    && (forall c | 0 <= c < |s.calls| && Live(s.calls[c]) ::
          && s.calls[c].handle < |s.handles|
          && s.calls[c].draw < s.handles[s.calls[c].handle].draws
          && s.calls[c].id == NthId(s.calls[c].draw))
    && (forall c, d | 0 <= c < |s.calls| && 0 <= d < |s.calls| && c != d
                      && Live(s.calls[c]) && Live(s.calls[d]) && s.calls[c].handle == s.calls[d].handle ::
          s.calls[c].draw != s.calls[d].draw)
  }

  lemma NextOfNth(k: nat)
    ensures NextCounter(NthId(k)) == NthId(k + 1)
  {
  }

  /** Steps that draw no id. */
  lemma DrawsFrame(s: State, t: State)
    requires DrawsOk(s) && |s.handles| <= |t.handles| && |s.calls| <= |t.calls|
    requires forall h | 0 <= h < |t.handles| ::
               if h < |s.handles| then t.handles[h] == s.handles[h] else t.handles[h] == Handle(1, 0)
    requires forall c | 0 <= c < |t.calls| && Live(t.calls[c]) ::
               c < |s.calls| && Live(s.calls[c]) && t.calls[c].handle == s.calls[c].handle
               && t.calls[c].draw == s.calls[c].draw && t.calls[c].id == s.calls[c].id
    ensures DrawsOk(t)
  {
  }

  lemma DrawsDraw(s: State, e: Event)
    requires Inv(s) && DrawsOk(s) && Enabled(s, e) && e.Draw?
    ensures DrawsOk(Next(s, e))
  {
    NextOfNth(s.handles[s.calls[e.call].handle].draws);
  }

  lemma DrawsStep(s: State, e: Event)
    requires Inv(s) && DrawsOk(s) && Enabled(s, e)
    ensures DrawsOk(Next(s, e))
  {
    hide Inv, DrawsOk;
    match e
    case Draw(_) => DrawsDraw(s, e);
    case Look(_) => DrawsUntouched(s, Next(s, e));
    case FallBack => DrawsUntouched(s, Next(s, e));
    case OutRegister(_) => DrawsUntouched(s, Next(s, e));
    case OutCancel(_) => DrawsUntouched(s, Next(s, e));
    case Deliver => DrawsDeliver(s);
    case _ => DrawsPhase(s, e);
  }

  lemma DrawsUntouched(s: State, t: State)
    requires DrawsOk(s) && t.handles == s.handles && t.calls == s.calls
    ensures DrawsOk(t)
  {
    DrawsFrame(s, t);
  }

  lemma DrawsDeliver(s: State)
    requires DrawsOk(s) && Enabled(s, Deliver)
    ensures DrawsOk(Next(s, Deliver))
  {
    hide DrawsOk;
    DrawsFrame(s, Next(s, Deliver));
  }

  lemma DrawsPhase(s: State, e: Event)
    requires DrawsOk(s) && Enabled(s, e)
    requires !e.Draw? && !e.Look? && !e.FallBack? && !e.OutRegister? && !e.OutCancel? && !e.Deliver?
    ensures DrawsOk(Next(s, e))
  {
    hide DrawsOk, Settle, DeliverTo;
    DrawsFrame(s, Next(s, e));
  }

  lemma {:induction false} DrawsKept(s: State, es: seq<Event>)
    requires Inv(s) && DrawsOk(s) && IsRun(s, es)
    ensures Inv(After(s, es)) && DrawsOk(After(s, es))
    decreases |es|
  {
    if es != [] {
      StepKeeps(s, es[0]);
      DrawsStep(s, es[0]);
      DrawsKept(Next(s, es[0]), es[1..]);
    }
  }

  /** Fewer than `i32::MAX` ids have been drawn since any live request drew its own. */
  ghost predicate ShortLives(s: State) {
    forall c | 0 <= c < |s.calls| && Live(s.calls[c]) && s.calls[c].handle < |s.handles| ::
      s.handles[s.calls[c].handle].draws - s.calls[c].draw <= I32_MAX
  }

  lemma SameIdIff(j: nat, k: nat)
    ensures NthId(j) == NthId(k) <==> (j - k) % I32_MAX == 0
  {
  }

  lemma Reached(es: seq<Event>)
    requires IsRun(INIT, es)
    ensures Inv(After(INIT, es)) && DrawsOk(After(INIT, es))
  {
    hide After, IsRun;
    DrawsKept(INIT, es);
  }

  /** The draws of two requests lie a multiple of `i32::MAX` apart. */
  predicate Congruent(c: Call, d: Call) { (c.draw - d.draw) % I32_MAX == 0 }

  lemma LivePair(s: State, c: nat, d: nat)
    requires DrawsOk(s)
    requires c < |s.calls| && d < |s.calls| && Live(s.calls[c]) && Live(s.calls[d])
    ensures s.calls[c].id == s.calls[d].id <==> Congruent(s.calls[c], s.calls[d])
    ensures c != d && s.calls[c].handle == s.calls[d].handle && ShortLives(s) ==> s.calls[c].id != s.calls[d].id
  {
    var j, k := s.calls[c].draw, s.calls[d].draw;
    assert s.calls[c].id == NthId(j) && s.calls[d].id == NthId(k);
    SameIdIff(j, k);
    if c != d && s.calls[c].handle == s.calls[d].handle && ShortLives(s) {
      assert j != k && j < k + I32_MAX && k < j + I32_MAX;
    }
  }

  /** Two live requests, on whatever handles, have the same id exactly when their draws are congruent; so while lives
      are short, all ids in use on one handle and its clones are different. */
  lemma LiveIdsEqualIff(es: seq<Event>, c: nat, d: nat)
    requires IsRun(INIT, es)
    requires c < |After(INIT, es).calls| && d < |After(INIT, es).calls|
    requires Live(After(INIT, es).calls[c]) && Live(After(INIT, es).calls[d])
    ensures var s := After(INIT, es);
            && (s.calls[c].id == s.calls[d].id <==> Congruent(s.calls[c], s.calls[d]))
            && (Congruent(s.calls[c], s.calls[d]) <==> (s.calls[c].draw - s.calls[d].draw) % 0x7FFF_FFFF == 0)
            && (c != d && s.calls[c].handle == s.calls[d].handle && ShortLives(s) ==> s.calls[c].id != s.calls[d].id)
  {
    hide After, IsRun, Inv, DrawsOk, ShortLives;
    Reached(es);
    LivePair(After(INIT, es), c, d);
  }

  /** A guard knows its entry by id only. Dropping it removes the entry of another request exactly when the draws of
      the two are congruent; while lives are short, that takes requests of different handles. */
  lemma GuardRemovesAnotherIff(es: seq<Event>, c: nat, id: RequestId)
    requires IsRun(INIT, es) && Enabled(After(INIT, es), DropGuard(c))
    requires id in After(INIT, es).pending && After(INIT, es).pending[id] != c
    ensures var s := After(INIT, es);
            && s.pending[id] < |s.calls|
            && var other := s.calls[s.pending[id]];
               && (id !in Next(s, DropGuard(c)).pending <==> Congruent(s.calls[c], other))
               && (ShortLives(s) && other.handle == s.calls[c].handle ==>
                     id in Next(s, DropGuard(c)).pending && Next(s, DropGuard(c)).pending[id] == s.pending[id])
  {
    hide After, IsRun, DrawsOk, ShortLives;
    var s := After(INIT, es);
    Reached(es);
    LivePair(s, c, s.pending[id]);
    LivePair(s, s.pending[id], c);
  }

  /** A response is delivered to a live request with its id. Every other live request that it could answer has a
      congruent draw; while lives are short, such a request belongs to another handle. */
  lemma DeliveredTo(es: seq<Event>, c: nat)
    requires IsRun(INIT, es) && Enabled(After(INIT, es), Deliver) && c < |After(INIT, es).calls|
    ensures var s := After(INIT, es);
            Next(s, Deliver).calls[c] != s.calls[c] ==>
              && Live(s.calls[c]) && Some(Integer(s.calls[c].id)) == s.router.arrived.response.id
              && forall d | 0 <= d < |s.calls| && d != c && Live(s.calls[d]) ::
                   && (Some(Integer(s.calls[d].id)) == s.router.arrived.response.id
                       <==> Congruent(s.calls[c], s.calls[d]))
                   && (ShortLives(s) && s.calls[d].handle == s.calls[c].handle ==>
                         Some(Integer(s.calls[d].id)) != s.router.arrived.response.id)
  {
    hide After, IsRun, DrawsOk, ShortLives, Congruent;
    var s := After(INIT, es);
    Reached(es);
    if Next(s, Deliver).calls[c] != s.calls[c] {
      assert s.pending[s.router.arrived.response.id.value] == c;
      forall d | 0 <= d < |s.calls| && d != c && Live(s.calls[d])
        ensures s.calls[c].id == s.calls[d].id <==> Congruent(s.calls[c], s.calls[d])
        ensures s.calls[d].handle == s.calls[c].handle && ShortLives(s) ==> s.calls[d].id != s.calls[c].id
      {
        LivePair(s, c, d);
      }
    }
  }

  lemma {:induction false} RunsJoin(s: State, a: seq<Event>, b: seq<Event>)
    requires IsRun(s, a) && IsRun(After(s, a), b)
    ensures IsRun(s, a + b) && After(s, a + b) == After(After(s, a), b)
    decreases |a|
  {
    if a == [] {
      assert a + b == b;
    } else {
      assert (a + b)[1..] == a[1..] + b;
      RunsJoin(Next(s, a[0]), a[1..], b);
    }
  }
}
