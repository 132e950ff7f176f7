/** The steps of `Correlation` taken on the objects themselves. A call of `ClientSender::request` runs undisturbed
    between two points where others may step in; each such stretch is one method here, working on the call's stack
    frame and on the shared objects, and its effect is the effect of the event of the same name. So what
    `Correlation` says about every run holds of the real map, guards, counters and receivers. */
module Interleaving {
  import opened Wrappers
  import opened Messages
  import opened ClientSender
  import opened Correlation
  import opened RequestQueue

  // The variables of one call of `request`: those that it does not have, or no longer has, are null.
  datatype Frame = Frame(handle: nat, id: RequestId, rx: Oneshot?, cleanup: PendingResponseGuard?)

  function Content(a: Option<Arrived>): Option<Response> {
    if a.Some? then Some(a.value.response) else None
  }

  // ---------- what each event does to the call it is about ----------

  lemma OneMore(run: seq<Event>, e: Event)
    requires IsRun(INIT, run) && Enabled(After(INIT, run), e)
    ensures IsRun(INIT, run + [e]) && After(INIT, run + [e]) == Next(After(INIT, run), e)
  {
    hide Next, Enabled;
    var s := After(INIT, run);
    assert [e][1..] == [] && IsRun(Next(s, e), []);
    assert IsRun(s, [e]) && After(s, [e]) == Next(s, e);
    RunsJoin(INIT, run, [e]);
  }

  lemma DrawEffect(run: seq<Event>, s: State, c: nat)
    requires IsRun(INIT, run) && s == After(INIT, run) && Enabled(s, Event.Draw(c))
    ensures IsRun(INIT, run + [Event.Draw(c)]) && After(INIT, run + [Event.Draw(c)]) == Next(s, Event.Draw(c))
    ensures c < |s.calls| && s.calls[c].handle < |s.handles| && s.calls[c].inbox == None
    ensures var (t, call) := (Next(s, Event.Draw(c)), s.calls[c]);
            && CounterOk(s.handles[call.handle].counter) && !InFlight(call)
            && t.handles[call.handle].counter == NextCounter(s.handles[call.handle].counter)
            && |t.calls| == |s.calls| && t.calls[c].handle == call.handle && t.calls[c].phase.Drawn?
            && t.calls[c].id == s.handles[call.handle].counter
            && t == s.(handles := s.handles[call.handle := t.handles[call.handle]], calls := s.calls[c := t.calls[c]])
  {
    hide After, IsRun;
    OneMore(run, Event.Draw(c));
    RunKeeps(INIT, run);
  }

  lemma RegisterEffect(run: seq<Event>, s: State, c: nat)
    requires IsRun(INIT, run) && s == After(INIT, run) && Enabled(s, Event.Register(c))
    ensures IsRun(INIT, run + [Event.Register(c)])
    ensures After(INIT, run + [Event.Register(c)]) == Next(s, Event.Register(c))
    ensures c < |s.calls| && Live(s.calls[c]) && !InFlight(s.calls[c]) && s.calls[c].inbox == None
    ensures var t, id := Next(s, Event.Register(c)), Integer(s.calls[c].id);
            if id in s.pending then t == SetPhase(s, c, Reserving(s.calls[c].phase.attempts + 1))
            else t == SetPhase(s, c, Registered).(pending := s.pending[id := c])
  {
    hide After, IsRun;
    OneMore(run, Event.Register(c));
    RunKeeps(INIT, run);
  }

  lemma GiveUpEffect(run: seq<Event>, s: State, c: nat)
    requires IsRun(INIT, run) && s == After(INIT, run) && Enabled(s, Event.GiveUp(c))
    ensures IsRun(INIT, run + [Event.GiveUp(c)]) && After(INIT, run + [Event.GiveUp(c)]) == Next(s, Event.GiveUp(c))
    ensures c < |s.calls| && !InFlight(s.calls[c])
    ensures Next(s, Event.GiveUp(c)) == SetPhase(s, c, Done(None))
  {
    hide After, IsRun;
    OneMore(run, Event.GiveUp(c));
  }

  lemma EnqueueEffect(run: seq<Event>, s: State, c: nat, ok: bool)
    requires IsRun(INIT, run) && s == After(INIT, run) && Enabled(s, Event.Enqueue(c, ok))
    ensures IsRun(INIT, run + [Event.Enqueue(c, ok)])
    ensures After(INIT, run + [Event.Enqueue(c, ok)]) == Next(s, Event.Enqueue(c, ok))
    ensures c < |s.calls| && InFlight(s.calls[c]) && !s.calls[c].phase.Ending?
    ensures Next(s, Event.Enqueue(c, ok)) == SetPhase(s, c, if ok then Waiting else Ending)
  {
    hide After, IsRun;
    OneMore(run, Event.Enqueue(c, ok));
  }

  lemma ReceiveEffect(run: seq<Event>, s: State, c: nat)
    requires IsRun(INIT, run) && s == After(INIT, run) && Enabled(s, Event.Receive(c))
    ensures IsRun(INIT, run + [Event.Receive(c)]) && After(INIT, run + [Event.Receive(c)]) == Next(s, Event.Receive(c))
    ensures c < |s.calls| && InFlight(s.calls[c]) && s.calls[c].inbox.Some?
    ensures s.calls[c].inbox.value.response.id == Some(Integer(s.calls[c].id))
    ensures forall id | id in s.pending :: s.pending[id] != c
    ensures Next(s, Event.Receive(c)) == SetPhase(s, c, Done(s.calls[c].inbox))
  {
    hide After, IsRun;
    OneMore(run, Event.Receive(c));
    RunKeeps(INIT, run);
  }

  lemma EndEffect(run: seq<Event>, s: State, c: nat)
    requires IsRun(INIT, run) && s == After(INIT, run) && Enabled(s, Event.End(c))
    ensures IsRun(INIT, run + [Event.End(c)]) && After(INIT, run + [Event.End(c)]) == Next(s, Event.End(c))
    ensures c < |s.calls| && InFlight(s.calls[c])
    ensures Next(s, Event.End(c)) == SetPhase(s, c, Ending)
  {
    hide After, IsRun;
    OneMore(run, Event.End(c));
  }

  lemma DropGuardEffect(run: seq<Event>, s: State, c: nat)
    requires IsRun(INIT, run) && s == After(INIT, run) && Enabled(s, Event.DropGuard(c))
    ensures IsRun(INIT, run + [Event.DropGuard(c)])
    ensures After(INIT, run + [Event.DropGuard(c)]) == Next(s, Event.DropGuard(c))
    ensures c < |s.calls| && InFlight(s.calls[c])
    ensures forall id | id in s.pending && s.pending[id] == c :: id == Integer(s.calls[c].id)
    ensures Next(s, Event.DropGuard(c)) == SetPhase(s, c, Done(None)).(pending := s.pending - {Integer(s.calls[c].id)})
  {
    hide After, IsRun;
    OneMore(run, Event.DropGuard(c));
    RunKeeps(INIT, run);
  }

  lemma DeliverEffect(run: seq<Event>, s: State)
    requires IsRun(INIT, run) && s == After(INIT, run) && Enabled(s, Event.Deliver)
    ensures IsRun(INIT, run + [Event.Deliver]) && After(INIT, run + [Event.Deliver]) == Next(s, Event.Deliver)
    ensures s.router.Matched? && s.router.arrived.response.id.Some?
    ensures var a := s.router.arrived;
            if a.response.id.value in s.pending then
              var c := s.pending[a.response.id.value];
              c < |s.calls| && InFlight(s.calls[c]) && s.calls[c].inbox == None
              && Next(s, Event.Deliver) == DeliverTo(s, c, a).(router := Idle)
            else Next(s, Event.Deliver) == s.(router := Unmatched(a))
  {
    hide After, IsRun;
    OneMore(run, Event.Deliver);
    RunKeeps(INIT, run);
  }

  lemma LookEffect(run: seq<Event>, s: State, response: Response)
    requires IsRun(INIT, run) && s == After(INIT, run) && Enabled(s, Event.Look(response))
    ensures IsRun(INIT, run + [Event.Look(response)])
    ensures After(INIT, run + [Event.Look(response)]) == Next(s, Event.Look(response))
    ensures var t := Next(s, Event.Look(response));
            && t == s.(arrivals := t.arrivals, router := t.router, unknown := t.unknown, fate := t.fate)
            && (t.router.Matched? <==> response.id.Some? && response.id.value in s.pending)
  {
    hide After, IsRun;
    OneMore(run, Event.Look(response));
  }

  lemma FallBackEffect(run: seq<Event>, s: State)
    requires IsRun(INIT, run) && s == After(INIT, run) && Enabled(s, Event.FallBack)
    ensures IsRun(INIT, run + [Event.FallBack]) && After(INIT, run + [Event.FallBack]) == Next(s, Event.FallBack)
    ensures var (t, a) := (Next(s, Event.FallBack), s.router.arrived);
            && t == s.(router := Idle, outgoing := t.outgoing, outbox := t.outbox, unknown := t.unknown, fate := t.fate)
            && a.response.id.Some?
            && var id := a.response.id.value;
               if id in s.outgoing then
                 t.outgoing == s.outgoing - {id} && t.outbox == s.outbox[s.outgoing[id] := a]
               else t.outgoing == s.outgoing && t.outbox == s.outbox && t.unknown == s.unknown + [a]
  {
    hide After, IsRun;
    OneMore(run, Event.FallBack);
    RunKeeps(INIT, run);
  }

  lemma OutgoingEffect(run: seq<Event>, s: State, id: RequestId, register: bool)
    requires IsRun(INIT, run) && s == After(INIT, run)
    requires Enabled(s, if register then Event.OutRegister(id) else Event.OutCancel(id))
    ensures var e := if register then Event.OutRegister(id) else Event.OutCancel(id);
            && IsRun(INIT, run + [e]) && After(INIT, run + [e]) == Next(s, e)
            && Next(s, e) ==
               if register then s.(outgoing := s.outgoing[id := s.receivers], receivers := s.receivers + 1)
               else s.(outgoing := s.outgoing - {id})
    ensures s.receivers !in s.outbox
  {
    hide After, IsRun;
    OneMore(run, if register then Event.OutRegister(id) else Event.OutCancel(id));
    assert s.receivers !in s.outbox by { RunKeeps(INIT, run); }
  }

  // ---------- the objects ----------

  /** A call has a receiver and an armed guard exactly while its request is in flight. */
  ghost predicate FrameOk(frame: Frame, call: Call, responseMap: ResponseMap)
    reads frame.rx, frame.cleanup
  {
    && frame.handle == call.handle
    && (Live(call) ==> frame.id == Integer(call.id))
    && (if InFlight(call) then
          && frame.rx != null && frame.rx.value == Content(call.inbox)
          && (frame.rx.receiverAlive <==> !call.phase.Ending?)
          && frame.cleanup != null && frame.cleanup.responseMap == responseMap && frame.cleanup.id == Some(frame.id)
        else frame.rx == null && frame.cleanup == null)
  }

  // Who owns an object: calls and handles by their number, outgoing receivers by a negative one.
  type Owners<!T> = map<T, int>

  ghost predicate SendersOk(senders: seq<ClientSender>, counters: Owners<AtomicI64>, handles: seq<Handle>,
                            responseMap: ResponseMap)
    reads counters.Keys
  {
    && |senders| == |handles|
    && forall h | 0 <= h < |senders| ::
         && senders[h].responseMap == responseMap
         && senders[h].idCounter in counters && counters[senders[h].idCounter] == h
         && senders[h].idCounter.value == handles[h].counter
  }

  ghost predicate OwnersOk(frames: seq<Frame>, receivers: seq<Oneshot>, slots: Owners<Oneshot>,
                           guards: Owners<PendingResponseGuard>)
  {
    && (forall c | 0 <= c < |frames| ::
          && (frames[c].rx != null ==> frames[c].rx in slots && slots[frames[c].rx] == c)
          && (frames[c].cleanup != null ==> frames[c].cleanup in guards && guards[frames[c].cleanup] == c))
    && (forall k | 0 <= k < |receivers| :: receivers[k] in slots && slots[receivers[k]] == -1 - k)
  }

  ghost predicate FramesOk(frames: seq<Frame>, calls: seq<Call>, responseMap: ResponseMap)
    reads set c | 0 <= c < |frames| :: frames[c].rx, set c | 0 <= c < |frames| :: frames[c].cleanup
  {
    |frames| == |calls| && forall c | 0 <= c < |frames| :: FrameOk(frames[c], calls[c], responseMap)
  }

  ghost predicate PendingOk(table: map<RequestId, Oneshot>, frames: seq<Frame>, pending: map<RequestId, nat>) {
    && table.Keys == pending.Keys
    && forall id | id in table :: pending[id] < |frames| && table[id] == frames[pending[id]].rx
  }

  ghost predicate OutgoingTableOk(table: map<RequestId, Oneshot>, receivers: seq<Oneshot>,
                                  outgoing: map<RequestId, nat>)
  {
    && table.Keys == outgoing.Keys
    && forall id | id in table :: outgoing[id] < |receivers| && table[id] == receivers[outgoing[id]]
  }

  ghost predicate ReceiversOk(receivers: seq<Oneshot>, outbox: map<nat, Arrived>)
    reads receivers
  {
    forall k | 0 <= k < |receivers| ::
      && receivers[k].receiverAlive
      && receivers[k].value == if k in outbox then Some(outbox[k].response) else None
  }

  lemma FrameMade(frame: Frame, call: Call, responseMap: ResponseMap)
    requires frame.handle == call.handle && (Live(call) ==> frame.id == Integer(call.id))
    requires if InFlight(call) then
               && frame.rx != null && frame.rx.value == Content(call.inbox)
               && (frame.rx.receiverAlive <==> !call.phase.Ending?)
               && frame.cleanup != null && frame.cleanup.responseMap == responseMap
               && frame.cleanup.id == Some(frame.id)
             else frame.rx == null && frame.cleanup == null
    ensures FrameOk(frame, call, responseMap)
  {
  }

  lemma OwnersAfterRegister(frames: seq<Frame>, receivers: seq<Oneshot>, slots: Owners<Oneshot>,
                            guards: Owners<PendingResponseGuard>, c: nat, frame: Frame)
    requires OwnersOk(frames, receivers, slots, guards) && c < |frames|
    requires frame.rx != null && frame.rx !in slots && frame.cleanup != null && frame.cleanup !in guards
    ensures OwnersOk(frames[c := frame], receivers, slots[frame.rx := c], guards[frame.cleanup := c])
  {
  }

  lemma OwnersAfterDrop(frames: seq<Frame>, receivers: seq<Oneshot>, slots: Owners<Oneshot>,
                        guards: Owners<PendingResponseGuard>, c: nat, frame: Frame)
    requires OwnersOk(frames, receivers, slots, guards) && c < |frames| && frame.rx == null && frame.cleanup == null
    ensures OwnersOk(frames[c := frame], receivers, slots, guards)
  {
  }

  /** A call that has no entry of its own leaves. */
  lemma PendingAfterDrop(table: map<RequestId, Oneshot>, frames: seq<Frame>, pending: map<RequestId, nat>, c: nat,
                         ids: set<RequestId>, frame: Frame)
    requires PendingOk(table, frames, pending) && c < |frames|
    requires forall id | id in pending && pending[id] == c :: id in ids
    ensures PendingOk(table - ids, frames[c := frame], pending - ids)
  {
  }

  lemma OwnersAfterOutRegister(frames: seq<Frame>, receivers: seq<Oneshot>, slots: Owners<Oneshot>,
                               guards: Owners<PendingResponseGuard>, rx: Oneshot)
    requires OwnersOk(frames, receivers, slots, guards) && rx !in slots
    ensures OwnersOk(frames, receivers + [rx], slots[rx := -1 - |receivers|], guards)
  {
  }

  lemma TableAfterOutRegister(table: map<RequestId, Oneshot>, receivers: seq<Oneshot>, outgoing: map<RequestId, nat>,
                              id: RequestId, rx: Oneshot)
    requires OutgoingTableOk(table, receivers, outgoing)
    ensures OutgoingTableOk(table[id := rx], receivers + [rx], outgoing[id := |receivers|])
  {
  }

  lemma TableAfterRemoval(table: map<RequestId, Oneshot>, receivers: seq<Oneshot>, outgoing: map<RequestId, nat>,
                          id: RequestId)
    requires OutgoingTableOk(table, receivers, outgoing)
    ensures OutgoingTableOk(table - {id}, receivers, outgoing - {id})
  {
  }

  lemma PendingAfterRemoval(table: map<RequestId, Oneshot>, frames: seq<Frame>, pending: map<RequestId, nat>,
                            id: RequestId)
    requires PendingOk(table, frames, pending)
    ensures PendingOk(table - {id}, frames, pending - {id})
  {
  }

  lemma PendingAfterDraw(table: map<RequestId, Oneshot>, frames: seq<Frame>, pending: map<RequestId, nat>, c: nat,
                         id: RequestId)
    requires PendingOk(table, frames, pending) && c < |frames|
    ensures PendingOk(table, frames[c := frames[c].(id := id)], pending)
  {
  }

  lemma PendingAfterRegister(table: map<RequestId, Oneshot>, frames: seq<Frame>, pending: map<RequestId, nat>, c: nat,
                             id: RequestId, frame: Frame)
    requires PendingOk(table, frames, pending) && c < |frames| && frames[c].rx == null && frame.rx != null
    ensures PendingOk(table[id := frame.rx], frames[c := frame], pending[id := c])
  {
  }

  /** One call has moved on; the others are as they were. */
  lemma FramesKept(frames: seq<Frame>, frames': seq<Frame>, calls: seq<Call>, calls': seq<Call>, c: nat,
                   responseMap: ResponseMap)
    requires |frames| == |calls| == |frames'| == |calls'| && c < |frames|
    requires forall d | 0 <= d < |frames| && d != c :: frames'[d] == frames[d] && calls'[d] == calls[d]
    requires forall d | 0 <= d < |frames| && d != c :: FrameOk(frames[d], calls[d], responseMap)
    requires FrameOk(frames'[c], calls'[c], responseMap)
    ensures FramesOk(frames', calls', responseMap)
  {
  }

  lemma FramesSame(frames: seq<Frame>, calls: seq<Call>, responseMap: ResponseMap)
    requires |frames| == |calls|
    requires forall d | 0 <= d < |frames| :: FrameOk(frames[d], calls[d], responseMap)
    ensures FramesOk(frames, calls, responseMap)
  {
  }

  class Callers {
    const responseMap: ResponseMap
    const outgoing: OutgoingRequests
    const outbound: Outbound
    var senders: seq<ClientSender>
    var frames: seq<Frame>
    var receivers: seq<Oneshot>    // of requests registered in the outgoing table

    // The run of `Correlation` so far, and the state it has led to.
    ghost var run: seq<Event>
    ghost var model: State
    ghost var counters: Owners<AtomicI64>
    ghost var slots: Owners<Oneshot>
    ghost var guards: Owners<PendingResponseGuard>

    ghost predicate Valid()
      reads this, responseMap, outgoing, counters.Keys, slots.Keys, guards.Keys
    {
      && IsRun(INIT, run) && model == After(INIT, run)
      && SendersOk(senders, counters, model.handles, responseMap)
      && OwnersOk(frames, receivers, slots, guards)
      && FramesOk(frames, model.calls, responseMap)
      && PendingOk(responseMap.pending, frames, model.pending)
      && |receivers| == model.receivers
      && OutgoingTableOk(outgoing.pending, receivers, model.outgoing)
      && ReceiversOk(receivers, model.outbox)
    }

    constructor ()
      ensures Valid() && run == []
      ensures fresh(responseMap) && fresh(outgoing) && fresh(outbound)
      ensures senders == [] && frames == [] && receivers == []
    {
      responseMap := new ResponseMap();
      outgoing := new OutgoingRequests();
      outbound := new Outbound();
      senders, frames, receivers, run, model := [], [], [], [], INIT;
      counters, slots, guards := map[], map[], map[];
    }

    ghost method Note(e: Event)
      requires IsRun(INIT, run + [e])
      modifies this`run, this`model
      ensures run == old(run) + [e] && model == After(INIT, run)
    {
      run := run + [e];
      model := After(INIT, run);
    }

    lemma AllFrames()
      requires Valid()
      ensures |frames| == |model.calls|
      ensures forall c | 0 <= c < |frames| ::
                && FrameOk(frames[c], model.calls[c], responseMap)
                && frames[c].rx as object? != this && frames[c].cleanup as object? != this
    {
    }

    lemma ReceiverFacts(id: RequestId)
      requires Valid()
      ensures id in outgoing.pending <==> id in model.outgoing
      ensures id in model.outgoing ==>
                var k := model.outgoing[id];
                && k < |receivers| && outgoing.pending[id] == receivers[k]
                && (forall j | 0 <= j < |receivers| && j != k :: receivers[j] != receivers[k])
                && (forall c | 0 <= c < |frames| :: frames[c].rx != receivers[k])
    {
    }

    lemma EntryFacts(id: RequestId)
      requires Valid()
      ensures id in responseMap.pending <==> id in model.pending
      ensures id in model.pending ==>
                model.pending[id] < |frames| && responseMap.pending[id] == frames[model.pending[id]].rx
    {
    }

    lemma CallFacts(c: nat)
      requires Valid() && c < |frames|
      ensures responseMap.pending.Keys == model.pending.Keys && |frames| == |model.calls|
      ensures var frame, call := frames[c], model.calls[c];
              && frame.handle == call.handle && (Live(call) ==> frame.id == Integer(call.id))
              && (if InFlight(call) then
                    && frame.rx != null && frame.rx.value == Content(call.inbox)
                    && (frame.rx.receiverAlive <==> !call.phase.Ending?)
                    && frame.cleanup != null && frame.cleanup.responseMap == responseMap
                    && frame.cleanup.id == Some(frame.id)
                  else frame.rx == null && frame.cleanup == null)
      ensures frames[c].rx != null ==>
                && (forall d | 0 <= d < |frames| && d != c :: frames[d].rx != frames[c].rx)
                && (forall d | 0 <= d < |frames| && d != c :: frames[d].cleanup != frames[c].cleanup)
                && (forall k | 0 <= k < |receivers| :: receivers[k] != frames[c].rx)
    {
    }

    /** Every entry of the response map belongs to a call that waits for it, knows its id and has its guard armed;
        so when no call is in flight, the map is empty. */
    lemma EntriesAreGuarded()
      requires Valid()
      ensures forall id | id in responseMap.pending ::
                exists c: nat :: c < |frames| && frames[c].id == id && frames[c].rx == responseMap.pending[id]
                                 && frames[c].cleanup != null && frames[c].cleanup.id == Some(id)
                                 && frames[c].cleanup.responseMap == responseMap
                                 && responseMap.pending[id].value == None
      ensures (forall c | 0 <= c < |frames| :: frames[c].cleanup == null) ==> responseMap.pending == map[]
    {
      hide After, IsRun, Next;
      RunKeeps(INIT, run);
      forall id | id in responseMap.pending
        ensures exists c: nat :: c < |frames| && frames[c].id == id && frames[c].rx == responseMap.pending[id]
                                 && frames[c].cleanup != null && frames[c].cleanup.id == Some(id)
                                 && frames[c].cleanup.responseMap == responseMap
                                 && responseMap.pending[id].value == None
      {
        CallFacts(model.pending[id]);
      }
    }

    // ---------- the steps of a call ----------

    method NewHandle()
      requires Valid()
      modifies this`senders, this`counters, this`run, this`model
      ensures Valid() && run == old(run) + [Event.NewHandle]
      ensures fresh(counters.Keys - old(counters.Keys))
    {
      hide After, IsRun, FramesOk, PendingOk, ReceiversOk;
      OneMore(run, Event.NewHandle);
      var sender := new ClientSender(responseMap);
      counters := counters[sender.idCounter := |senders|];
      senders := senders + [sender];
      Note(Event.NewHandle);
    }

    method NewCall(handle: nat)
      requires Valid() && handle < |senders|
      modifies this`frames, this`run, this`model
      ensures Valid() && run == old(run) + [Event.NewCall(handle)]
    {
      hide After, IsRun, ReceiversOk;
      OneMore(run, Event.NewCall(handle));
      frames := frames + [Frame(handle, Integer(0), null, null)];
      Note(Event.NewCall(handle));
    }

    method Draw(c: nat)
      requires Valid() && Enabled(model, Event.Draw(c))
      modifies this`frames, this`run, this`model, counters.Keys
      ensures Valid() && run == old(run) + [Event.Draw(c)]
    {
      hide After, IsRun, Next, Enabled, FrameOk, PendingOk, OutgoingTableOk, ReceiversOk;
      DrawEffect(run, model, c);
      CallFacts(c);
      AllFrames();
      PendingAfterDraw(responseMap.pending, frames, model.pending, c, Integer(model.handles[frames[c].handle].counter));
      var id := senders[frames[c].handle].NextId();
      frames := frames[c := frames[c].(id := id)];
      ghost var before, after := model, Next(model, Event.Draw(c));
      Note(Event.Draw(c));
      FrameMade(frames[c], after.calls[c], responseMap);
      FramesKept(old(frames), frames, before.calls, after.calls, c, responseMap);
    }

    /** The call takes hold of the slot registered for it; from now on its guard stands for the entry. */
    method Hold(c: nat, rx: Oneshot)
      requires c < |frames| && OwnersOk(frames, receivers, slots, guards)
      requires rx !in slots
      modifies this`frames, this`slots, this`guards
      ensures OwnersOk(frames, receivers, slots, guards)
      ensures |frames| == |old(frames)|
      ensures frames == old(frames)[c := old(frames)[c].(rx := rx, cleanup := frames[c].cleanup)]
      ensures var cleanup := frames[c].cleanup;
              && cleanup != null && fresh(cleanup)
              && cleanup.responseMap == responseMap && cleanup.id == Some(frames[c].id)
      ensures slots.Keys == old(slots.Keys) + {rx} && fresh(guards.Keys - old(guards.Keys))
    {
      hide OwnersOk;
      var cleanup := new PendingResponseGuard(responseMap, frames[c].id);
      var frame := frames[c].(rx := rx, cleanup := cleanup);
      OwnersAfterRegister(frames, receivers, slots, guards, c, frame);
      slots, guards := slots[rx := c], guards[cleanup := c];
      frames := frames[c := frame];
    }

    /** The call returns and its variables go. */
    method Leave(c: nat, ghost table: map<RequestId, Oneshot>, ghost ids: set<RequestId>)
      requires c < |frames| && OwnersOk(frames, receivers, slots, guards)
      requires forall id | id in model.pending && model.pending[id] == c :: id in ids
      requires PendingOk(table, frames, model.pending)
      modifies this`frames
      ensures OwnersOk(frames, receivers, slots, guards)
      ensures frames == old(frames)[c := old(frames)[c].(rx := null, cleanup := null)]
      ensures PendingOk(table - ids, frames, model.pending - ids)
    {
      hide OwnersOk, PendingOk;
      var frame := frames[c].(rx := null, cleanup := null);
      OwnersAfterDrop(frames, receivers, slots, guards, c, frame);
      PendingAfterDrop(table, frames, model.pending, c, ids, frame);
      frames := frames[c := frame];
    }

    /** `try_register`; a call whose id is taken tries again, one whose id is free gets a receiver and a guard. */
    method Register(c: nat) returns (registered: bool)
      requires Valid() && Enabled(model, Event.Register(c))
      modifies this`frames, this`run, this`model, this`slots, this`guards, responseMap
      ensures Valid() && run == old(run) + [Event.Register(c)]
      ensures c < |frames| && (registered <==> frames[c].rx != null)
      ensures fresh(slots.Keys - old(slots.Keys)) && fresh(guards.Keys - old(guards.Keys))
    {
      hide After, IsRun, Next, Enabled, SendersOk, FrameOk, OwnersOk, PendingOk, OutgoingTableOk, ReceiversOk;
      RegisterEffect(run, model, c);
      CallFacts(c);
      ghost var before, after := model, Next(model, Event.Register(c));
      var rx := responseMap.TryRegister(frames[c].id);
      registered := rx != null;
      if registered {
        assert rx !in slots;
        Hold(c, rx);
        PendingAfterRegister(old(responseMap.pending), old(frames), before.pending, c, frames[c].id, frames[c]);
      }
      Note(Event.Register(c));
      FrameMade(frames[c], after.calls[c], responseMap);
      FramesKept(old(frames), frames, before.calls, after.calls, c, responseMap);
    }

    /** After 1000 ids the call fails; it has neither a receiver nor a guard, so there is nothing to clean up. */
    method GiveUp(c: nat)
      requires Valid() && Enabled(model, Event.GiveUp(c))
      modifies this`run, this`model
      ensures Valid() && run == old(run) + [Event.GiveUp(c)]
      ensures c < |frames| && frames[c].rx == null && frames[c].cleanup == null
    {
      hide After, IsRun, Next, Enabled, SendersOk, FrameOk, OwnersOk, PendingOk, OutgoingTableOk, ReceiversOk;
      GiveUpEffect(run, model, c);
      CallFacts(c);
      AllFrames();
      ghost var before, after := model, Next(model, Event.GiveUp(c));
      Note(Event.GiveUp(c));
      FrameMade(frames[c], after.calls[c], responseMap);
      FramesKept(frames, frames, before.calls, after.calls, c, responseMap);
    }

    /** The message goes to the outbound channel. If that is closed the call is over, and nobody will look at its
        receiver again. */
    method Enqueue(c: nat, name: string, params: Option<Json>) returns (ok: bool)
      requires Valid() && (forall ok :: Enabled(model, Event.Enqueue(c, ok)))
      modifies this`run, this`model, outbound, if c < |frames| then {frames[c].rx} else {}
      ensures Valid() && run == old(run) + [Event.Enqueue(c, ok)]
      ensures c < |frames|
      ensures outbound.queue == old(outbound.queue)
                                + if ok then [RequestMessage(Request(frames[c].id, name, params))] else []
    {
      hide After, IsRun, Next, Enabled, SendersOk, FrameOk, OwnersOk, PendingOk, OutgoingTableOk, ReceiversOk;
      EnqueueEffect(run, model, c, true);
      CallFacts(c);
      ok := outbound.Send(RequestMessage(Request(frames[c].id, name, params)));
      EnqueueEffect(run, model, c, ok);
      if !ok {
        frames[c].rx.receiverAlive := false;
      }
      ghost var before, after := model, Next(model, Event.Enqueue(c, ok));
      Note(Event.Enqueue(c, ok));
      FrameMade(frames[c], after.calls[c], responseMap);
      FramesKept(frames, frames, before.calls, after.calls, c, responseMap);
    }

    /** The response is there: the guard is disarmed before it is dropped, so no entry is removed. */
    method Receive(c: nat) returns (response: Response)
      requires Valid() && Enabled(model, Event.Receive(c))
      modifies this`frames, this`run, this`model, responseMap, if c < |frames| then {frames[c].cleanup} else {}
      ensures Valid() && run == old(run) + [Event.Receive(c)]
      ensures c < |old(frames)| && old(frames[c].rx) != null && old(frames[c].rx.value) == Some(response)
      ensures response.id == Some(old(frames[c].id))
      ensures responseMap.pending == old(responseMap.pending)
    {
      hide After, IsRun, Next, Enabled, SendersOk, FrameOk, OwnersOk, PendingOk, OutgoingTableOk, ReceiversOk;
      ReceiveEffect(run, model, c);
      CallFacts(c);
      response := frames[c].rx.value.value;
      frames[c].cleanup.Disarm();
      frames[c].cleanup.Drop();
      Leave(c, responseMap.pending, {});
      assert responseMap.pending - {} == responseMap.pending && model.pending - {} == model.pending;
      ghost var before, after := model, Next(model, Event.Receive(c));
      Note(Event.Receive(c));
      FrameMade(frames[c], after.calls[c], responseMap);
      FramesKept(old(frames), frames, before.calls, after.calls, c, responseMap);
    }

    /** Timeout, abort, a closed channel or a stopped drain task: the receiver is dropped first, ... */
    method End(c: nat)
      requires Valid() && Enabled(model, Event.End(c))
      modifies this`run, this`model, if c < |frames| then {frames[c].rx} else {}
      ensures Valid() && run == old(run) + [Event.End(c)]
    {
      hide After, IsRun, Next, Enabled, SendersOk, FrameOk, OwnersOk, PendingOk, OutgoingTableOk, ReceiversOk;
      EndEffect(run, model, c);
      CallFacts(c);
      frames[c].rx.receiverAlive := false;
      ghost var before, after := model, Next(model, Event.End(c));
      Note(Event.End(c));
      FrameMade(frames[c], after.calls[c], responseMap);
      FramesKept(frames, frames, before.calls, after.calls, c, responseMap);
    }

    /** ... then the guard, which removes whatever entry stands under the call's id. */
    method DropGuard(c: nat)
      requires Valid() && Enabled(model, Event.DropGuard(c))
      modifies this`frames, this`run, this`model, responseMap, if c < |frames| then {frames[c].cleanup} else {}
      ensures Valid() && run == old(run) + [Event.DropGuard(c)]
      ensures c < |old(frames)| && responseMap.pending == old(responseMap.pending) - {old(frames[c].id)}
    {
      hide After, IsRun, Next, Enabled, SendersOk, FrameOk, OwnersOk, PendingOk, OutgoingTableOk, ReceiversOk;
      DropGuardEffect(run, model, c);
      CallFacts(c);
      frames[c].cleanup.Drop();
      Leave(c, old(responseMap.pending), {frames[c].id});
      ghost var before, after := model, Next(model, Event.DropGuard(c));
      Note(Event.DropGuard(c));
      FrameMade(frames[c], after.calls[c], responseMap);
      FramesKept(old(frames), frames, before.calls, after.calls, c, responseMap);
    }

    // ---------- routing a response, and the requests of the outgoing table ----------

    /** A response without an id is handed back at once; for another the response map is asked. */
    method Look(response: Response) returns (found: bool)
      requires Valid() && Enabled(model, Event.Look(response))
      modifies this`run, this`model
      ensures Valid() && run == old(run) + [Event.Look(response)]
      ensures found <==> model.router.Matched?
    {
      hide After, IsRun, Next, Enabled, SendersOk, FrameOk, FramesOk, OwnersOk, OutgoingTableOk, ReceiversOk;
      AllFrames();
      LookEffect(run, model, response);
      found := false;
      if response.id.Some? {
        found := responseMap.Contains(response.id.value);
      }
      Note(Event.Look(response));
      FramesSame(frames, model.calls, responseMap);
    }

    method Deliver(response: Response) returns (delivered: bool)
      requires Valid() && Enabled(model, Event.Deliver) && model.router.arrived.response == response
      modifies this`run, this`model, responseMap, responseMap.SlotOf(response.id.value)
      ensures Valid() && run == old(run) + [Event.Deliver]
      ensures delivered <==> model.router.Idle?
    {
      hide After, IsRun, Next, SendersOk, FrameOk, OwnersOk, PendingOk, OutgoingTableOk, ReceiversOk;
      AllFrames();
      DeliverEffect(run, model);
      ghost var before, after := model, Next(model, Event.Deliver);
      var id := response.id.value;
      ghost var c := if id in model.pending then model.pending[id] else 0;
      EntryFacts(id);
      PendingAfterRemoval(responseMap.pending, frames, model.pending, id);
      if id in model.pending {
        CallFacts(c);
      }
      delivered := responseMap.Deliver(id, response);
      Note(Event.Deliver);
      if delivered {
        FrameMade(frames[c], after.calls[c], responseMap);
        FramesKept(frames, frames, before.calls, after.calls, c, responseMap);
      } else {
        assert before.pending - {id} == before.pending;
        FramesSame(frames, before.calls, responseMap);
      }
    }

    method FallBack(response: Response) returns (routed: bool)
      requires Valid() && Enabled(model, Event.FallBack) && model.router.arrived.response == response
      requires response.id.Some?
      modifies this`run, this`model, outgoing, outgoing.SlotOf(response.id.value)
      ensures Valid() && run == old(run) + [Event.FallBack]
      ensures routed <==> response.id.value in old(outgoing.pending)
      ensures !routed ==> model.unknown == old(model.unknown) + [old(model.router.arrived)]
    {
      hide After, IsRun, Next, Enabled, SendersOk, FrameOk, FramesOk, OwnersOk, PendingOk, OutgoingTableOk;
      AllFrames();
      FallBackEffect(run, model);
      ReceiverFacts(response.id.value);
      TableAfterRemoval(outgoing.pending, receivers, model.outgoing, response.id.value);
      routed := outgoing.IsPending(response.id.value);
      if routed {
        var _ := outgoing.Complete(response.id.value, response);
      }
      Note(Event.FallBack);
      FramesSame(frames, model.calls, responseMap);
    }

    method OutRegister(id: RequestId) returns (rx: Oneshot)
      requires Valid() && Enabled(model, Event.OutRegister(id))
      modifies this`run, this`model, this`receivers, this`slots, outgoing
      ensures Valid() && run == old(run) + [Event.OutRegister(id)]
      ensures fresh(rx) && receivers == old(receivers) + [rx]
      ensures outgoing.pending == old(outgoing.pending)[id := rx]
      ensures fresh(slots.Keys - old(slots.Keys))
    {
      hide After, IsRun, Next, Enabled, SendersOk, FrameOk, FramesOk, OwnersOk, PendingOk, OutgoingTableOk;
      AllFrames();
      OutgoingEffect(run, model, id, true);
      rx := outgoing.Register(id);
      OwnersAfterOutRegister(frames, receivers, slots, guards, rx);
      TableAfterOutRegister(old(outgoing.pending), receivers, model.outgoing, id, rx);
      slots := slots[rx := -1 - |receivers|];
      receivers := receivers + [rx];
      Note(Event.OutRegister(id));
      FramesSame(frames, model.calls, responseMap);
    }

    method OutCancel(id: RequestId) returns (wasPending: bool)
      requires Valid() && Enabled(model, Event.OutCancel(id))
      modifies this`run, this`model, outgoing
      ensures Valid() && run == old(run) + [Event.OutCancel(id)]
      ensures wasPending <==> id in old(outgoing.pending)
    {
      hide After, IsRun, Next, Enabled, SendersOk, FrameOk, FramesOk, OwnersOk, PendingOk, ReceiversOk;
      AllFrames();
      OutgoingEffect(run, model, id, false);
      TableAfterRemoval(outgoing.pending, receivers, model.outgoing, id);
      wasPending := outgoing.Cancel(id);
      Note(Event.OutCancel(id));
      FramesSame(frames, model.calls, responseMap);
    }
  }
}
