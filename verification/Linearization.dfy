/** Response routing takes up to three lock acquisitions (`contains`, `deliver`, then the outgoing table), between
    which callers register, cancel and end. It nevertheless behaves like one atomic step: remove the entry from the
    response map, else from the outgoing table, else hand the response back. */
module Linearization {
  import opened Wrappers
  import opened Messages
  import opened Correlation

  /** The atomic step. */
  function RouteAtomically(s: State, response: Response): State
    requires s.router.Idle? && EntriesOk(s)
  {
    var a := Arrived(s.arrivals, response);
    var s' := s.(arrivals := s.arrivals + 1);
    if response.id.Some? && response.id.value in s.pending then DeliverTo(s', s.pending[response.id.value], a)
    else Settle(s', a)
  }

  /** The atomic step consumes exactly one entry, of the response map if that has one, or changes no table and
      returns the response as it came. */
  lemma RouteConsumesOne(s: State, response: Response)
    requires s.router.Idle? && Inv(s)
    ensures var t := RouteAtomically(s, response);
            if response.id.Some? && response.id.value in s.pending then
              t.pending == s.pending - {response.id.value} && t.outgoing == s.outgoing && t.unknown == s.unknown
              && t.outbox == s.outbox && |t.calls| == |s.calls|
              && forall c | 0 <= c < |s.calls| :: t.calls[c] != s.calls[c] ==>
                   c == s.pending[response.id.value] && t.calls[c].inbox == Some(Arrived(s.arrivals, response))
            else if response.id.Some? && response.id.value in s.outgoing then
              t.pending == s.pending && t.calls == s.calls && t.unknown == s.unknown
              && t.outgoing == s.outgoing - {response.id.value}
              && t.outbox == s.outbox[s.outgoing[response.id.value] := Arrived(s.arrivals, response)]
            else
              t.pending == s.pending && t.calls == s.calls && t.outgoing == s.outgoing && t.outbox == s.outbox
              && t.unknown == s.unknown + [Arrived(s.arrivals, response)]
  {
  }

  predicate IsRouterStep(e: Event) { e.Look? || e.Deliver? || e.FallBack? }

  /** The state as an observer of atomic routing sees it: a response whose delivery is still possible has not
      arrived yet, one that has missed the response map has already been settled. */
  function Observed(s: State): State {
    match s.router
    case Idle => s
    case Matched(a) => s.(router := Idle, arrivals := a.serial)
    case Unmatched(a) => Settle(s, a).(router := Idle)
  }

  /** The response that a router step makes take effect, if it does. */
  function Effect(s: State, e: Event): Option<Response>
    requires Enabled(s, e)
  {
    match e
    case Look(response) =>
      if response.id.Some? && response.id.value in s.pending then None else Some(response)
    case Deliver => Some(s.router.arrived.response)
    case _ => None
  }

  /** Settling a response does not look at the router. */
  lemma SettleIgnoresRouter(s: State, a: Arrived, r: Router)
    ensures Settle(s.(router := r), a).(router := Idle) == Settle(s.(router := Idle), a)
  {
  }

  lemma LookRefines(s: State, response: Response)
    requires Inv(s) && Enabled(s, Look(response))
    ensures Observed(Next(s, Look(response)))
            == if Effect(s, Look(response)).Some? then RouteAtomically(s, response) else s
  {
    hide Inv, EntriesOk, Settle;
    var a, s' := Arrived(s.arrivals, response), s.(arrivals := s.arrivals + 1);
    var t := Next(s, Look(response));
    SettleIgnoresRouter(s', a, Unmatched(a));
    assert s'.(router := Idle) == s';
    if response.id.None? {
      SettleIgnoresRouter(s', a, Idle);
      assert t == Settle(s', a) && t.router.Idle? by { SettleKeepsRouter(s', a); }
    }
  }

  lemma DeliverRefines(s: State)
    requires Inv(s) && Enabled(s, Deliver)
    ensures EntriesOk(Observed(s))
    ensures Observed(Next(s, Deliver)) == RouteAtomically(Observed(s), s.router.arrived.response)
  {
    hide Settle;
    ObservedEntries(s);
    var a := s.router.arrived;
    assert Arrived(a.serial, a.response) == a && a.serial + 1 == s.arrivals;
    SettleIgnoresRouter(s, a, Unmatched(a));
    SettleKeepsRouter(s, a);
  }

  lemma FallBackRefines(s: State)
    requires Inv(s) && Enabled(s, FallBack)
    ensures Observed(Next(s, FallBack)) == Observed(s)
  {
  }

  /** A caller's step neither reads nor writes the tables that settling a response changes. */
  lemma CallerStepBesideTables(s: State, e: Event, o: map<RequestId, nat>, b: map<nat, Arrived>, u: seq<Arrived>,
                               f: map<nat, Fate>)
    requires Enabled(s, e) && !IsRouterStep(e) && !e.OutRegister? && !e.OutCancel?
    ensures var t := s.(router := Idle, outgoing := o, outbox := b, unknown := u, fate := f);
            && Enabled(t, e)
            && Next(t, e) == Next(s, e).(router := Idle, outgoing := o, outbox := b, unknown := u, fate := f)
  {
    hide Settle, DeliverTo;
    if e.Register? || e.DropGuard? || e.Draw? {
      TableStepBesideTables(s, e, o, b, u, f);
    } else {
      assert e.NewHandle? || e.NewCall? || e.GiveUp? || e.Enqueue? || e.Receive? || e.End?;
    }
  }

  lemma TableStepBesideTables(s: State, e: Event, o: map<RequestId, nat>, b: map<nat, Arrived>, u: seq<Arrived>,
                              f: map<nat, Fate>)
    requires Enabled(s, e) && (e.Register? || e.DropGuard? || e.Draw?)
    ensures var t := s.(router := Idle, outgoing := o, outbox := b, unknown := u, fate := f);
            && Enabled(t, e)
            && Next(t, e) == Next(s, e).(router := Idle, outgoing := o, outbox := b, unknown := u, fate := f)
  {
    hide Settle, DeliverTo;
  }

  lemma CallerStepKeepsTables(s: State, e: Event)
    requires Enabled(s, e) && !IsRouterStep(e) && !e.OutRegister? && !e.OutCancel?
    ensures var t := Next(s, e);
            t.outgoing == s.outgoing && t.outbox == s.outbox && t.unknown == s.unknown && t.fate == s.fate
  {
  }

  /** So it commutes with the settling of a response on its way, ... */
  lemma CallerStepBesideSettle(s: State, e: Event, a: Arrived)
    requires Enabled(s, e) && !IsRouterStep(e) && !e.OutRegister? && !e.OutCancel?
    ensures var t := Settle(s, a).(router := Idle);
            Enabled(t, e) && Next(t, e) == Settle(Next(s, e), a).(router := Idle)
  {
    hide Next, Enabled;
    var t := Settle(s, a);
    CallerStepBesideTables(s, e, t.outgoing, t.outbox, t.unknown, t.fate);
    CallerStepKeepsTables(s, e);
    assert t.(router := Idle) == s.(router := Idle, outgoing := t.outgoing, outbox := t.outbox, unknown := t.unknown,
                                    fate := t.fate);
  }

  /** ... and with its arrival. */
  lemma CallerStepBesideArrival(s: State, e: Event, n: nat)
    requires Enabled(s, e) && !IsRouterStep(e)
    ensures var t := s.(router := Idle, arrivals := n);
            Enabled(t, e) && Next(t, e) == Next(s, e).(router := Idle, arrivals := n)
    ensures Next(s, e).router == s.router
  {
  }

  lemma CallerStepRefines(s: State, e: Event)
    requires Inv(s) && Enabled(s, e) && !IsRouterStep(e)
    ensures Enabled(Observed(s), e) && Observed(Next(s, e)) == Next(Observed(s), e)
  {
    hide Inv, Next, Settle;
    match s.router
    case Idle => CallerStepBesideArrival(s, e, s.arrivals);
    case Matched(a) => CallerStepBesideArrival(s, e, a.serial);
    case Unmatched(a) =>
      CallerStepBesideArrival(s, e, a.serial);
      CallerStepBesideSettle(s, e, a);
  }

  // ---------- runs ----------

  datatype AtomicEvent = Plain(event: Event) | Route(response: Response)

  predicate AtomicEnabled(s: State, e: AtomicEvent) {
    match e
    case Plain(event) => !IsRouterStep(event) && Enabled(s, event)
    case Route(_) => s.router.Idle?
  }

  ghost function AtomicNext(s: State, e: AtomicEvent): State
    requires AtomicEnabled(s, e) && EntriesOk(s)
  {
    match e
    case Plain(event) => Next(s, event)
    case Route(response) => RouteAtomically(s, response)
  }

  ghost predicate AtomicRun(s: State, es: seq<AtomicEvent>, t: State)
    decreases |es|
  {
    EntriesOk(s) && if es == [] then t == s else AtomicEnabled(s, es[0]) && AtomicRun(AtomicNext(s, es[0]), es[1..], t)
  }

  /** The atomic counterpart of one step: nothing, or one atomic step. */
  function Counterpart(s: State, e: Event): seq<AtomicEvent>
    requires Enabled(s, e)
  {
    if !IsRouterStep(e) then [Plain(e)]
    else if Effect(s, e).Some? then [Route(Effect(s, e).value)]
    else []
  }

  function Counterparts(s: State, es: seq<Event>): seq<AtomicEvent>
    requires IsRun(s, es)
    decreases |es|
  {
    if es == [] then [] else Counterpart(s, es[0]) + Counterparts(Next(s, es[0]), es[1..])
  }

  lemma StepRefines(s: State, e: Event)
    requires Inv(s) && Enabled(s, e)
    ensures EntriesOk(Observed(s))
    ensures var c := Counterpart(s, e);
            if c == [] then Observed(Next(s, e)) == Observed(s)
            else |c| == 1 && AtomicEnabled(Observed(s), c[0]) && AtomicNext(Observed(s), c[0]) == Observed(Next(s, e))
  {
    hide Inv, EntriesOk, Next, Settle, RouteAtomically;
    ObservedEntries(s);
    match e
    case Look(response) => LookRefines(s, response);
    case Deliver => DeliverRefines(s);
    case FallBack => FallBackRefines(s);
    case _ => CallerStepRefines(s, e);
  }

  /** Every run, however its steps interleave, is observed as a run in which routing is one atomic step. */
  lemma {:induction false} RunRefines(s: State, es: seq<Event>)
    requires Inv(s) && IsRun(s, es)
    ensures AtomicRun(Observed(s), Counterparts(s, es), Observed(After(s, es)))
    ensures (s.router.Idle? ==> Observed(s) == s)
            && (After(s, es).router.Idle? ==> Observed(After(s, es)) == After(s, es))
    decreases |es|
  {
    hide Inv, EntriesOk, Next, Settle, RouteAtomically, Enabled, Counterpart, AtomicNext, AtomicEnabled;
    ObservedEntries(s);
    if es != [] {
      StepRefines(s, es[0]);
      StepKeeps(s, es[0]);
      RunRefines(Next(s, es[0]), es[1..]);
      var c := Counterpart(s, es[0]);
      if c == [] {
        assert Counterparts(s, es) == Counterparts(Next(s, es[0]), es[1..]);
      } else {
        assert Counterparts(s, es)[1..] == Counterparts(Next(s, es[0]), es[1..]);
      }
    }
  }

  lemma ObservedEntries(s: State)
    requires Inv(s)
    ensures EntriesOk(Observed(s))
  {
  }
}
