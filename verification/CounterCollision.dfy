/** Two handles of one connection can disturb each other: a concrete run of `Correlation`. */
module CounterCollision {
  import opened Wrappers
  import opened Messages
  import opened Correlation

  /** It does happen with two `client_sender()` results, which both count from 1: the first request is answered but
      abandoned before it looks, while the second one has taken over its id. The second request stays without an
      entry, so its response will be handed back as unknown. */
  lemma TwoCountersCollide(answer: Response)
    requires answer.id == Some(Integer(1))
    ensures var es := COLLISION_START + [Look(answer), Deliver] + COLLISION_END + [Look(answer), FallBack];
            && IsRun(INIT, es)
            && |After(INIT, es).calls| == 2
            && After(INIT, es).calls[1].phase.Waiting? && After(INIT, es).calls[1].id == 1
            && After(INIT, es).pending == map[]
            && After(INIT, es).unknown == [Arrived(1, answer)]
  {
    hide IsRun, After, Next;
    var e1, e2, e3, e4 := COLLISION_START, [Look(answer), Deliver], COLLISION_END, [Look(answer), FallBack];
    CollisionStart();
    CollisionAnswer(answer);
    CollisionEnd(answer);
    CollisionLost(answer);
    RunsJoin(INIT, e1, e2);
    RunsJoin(INIT, e1 + e2, e3);
    RunsJoin(INIT, e1 + e2 + e3, e4);
  }

  const COLLISION_START := [NewHandle, NewHandle, NewCall(0), Draw(0), Register(0), Enqueue(0, true)]
  const COLLISION_END := [NewCall(1), Draw(1), Register(1), Enqueue(1, true), End(0), DropGuard(0)]

  const FIRST_WAITS := State([Handle(2, 1), Handle(1, 0)], [Call(0, Waiting, 1, 0, None)], map[Integer(1) := 0],
                             map[], 0, map[], [], Idle, 0, map[])

  function FirstAnswered(answer: Response): State {
    FIRST_WAITS.(calls := [Call(0, Waiting, 1, 0, Some(Arrived(0, answer)))], pending := map[],
                 arrivals := 1, fate := map[0 := ToCall(0)])
  }

  function SecondRobbed(answer: Response): State {
    FirstAnswered(answer).(
      handles := [Handle(2, 1), Handle(2, 1)],
      calls := [Call(0, Done(None), 1, 0, Some(Arrived(0, answer))), Call(1, Waiting, 1, 0, None)])
  }

  lemma CollisionStart()
    ensures IsRun(INIT, COLLISION_START) && After(INIT, COLLISION_START) == FIRST_WAITS
  {
    var s1 := INIT.(handles := [Handle(1, 0)]);
    var s2 := INIT.(handles := [Handle(1, 0), Handle(1, 0)]);
    var s3 := s2.(calls := [Call(0, Reserving(0), 0, 0, None)]);
    var s4 := s2.(handles := [Handle(2, 1), Handle(1, 0)], calls := [Call(0, Drawn(0), 1, 0, None)]);
    var s5 := s4.(calls := [Call(0, Registered, 1, 0, None)], pending := map[Integer(1) := 0]);
    assert Next(INIT, NewHandle) == s1 && Next(s1, NewHandle) == s2 && Next(s2, NewCall(0)) == s3;
    StartRegisters(s3);
    RunOf6(INIT, s1, s2, s3, s4, s5, FIRST_WAITS, COLLISION_START);
  }

  lemma StartRegisters(s3: State)
    requires s3 == INIT.(handles := [Handle(1, 0), Handle(1, 0)], calls := [Call(0, Reserving(0), 0, 0, None)])
    ensures var s4 := s3.(handles := [Handle(2, 1), Handle(1, 0)], calls := [Call(0, Drawn(0), 1, 0, None)]);
            var s5 := s4.(calls := [Call(0, Registered, 1, 0, None)], pending := map[Integer(1) := 0]);
            && Enabled(s3, Draw(0)) && Next(s3, Draw(0)) == s4
            && Enabled(s4, Register(0)) && Next(s4, Register(0)) == s5
            && Enabled(s5, Enqueue(0, true)) && Next(s5, Enqueue(0, true)) == FIRST_WAITS
  {
  }

  lemma RunOf6(s0: State, s1: State, s2: State, s3: State, s4: State, s5: State, s6: State, es: seq<Event>)
    requires |es| == 6
    requires Enabled(s0, es[0]) && Next(s0, es[0]) == s1 && Enabled(s1, es[1]) && Next(s1, es[1]) == s2
    requires Enabled(s2, es[2]) && Next(s2, es[2]) == s3 && Enabled(s3, es[3]) && Next(s3, es[3]) == s4
    requires Enabled(s4, es[4]) && Next(s4, es[4]) == s5 && Enabled(s5, es[5]) && Next(s5, es[5]) == s6
    ensures IsRun(s0, es) && After(s0, es) == s6
  {
    hide Next, Enabled;
    RunOf2(s0, s1, s2, es[..2]);
    RunOf2(s2, s3, s4, es[2..4]);
    RunOf2(s4, s5, s6, es[4..]);
    RunsJoin(s0, es[..2], es[2..4]);
    RunsJoin(s0, es[..2] + es[2..4], es[4..]);
    assert es == es[..2] + es[2..4] + es[4..];
  }

  lemma RunOf2(s0: State, s1: State, s2: State, es: seq<Event>)
    requires |es| == 2
    requires Enabled(s0, es[0]) && Next(s0, es[0]) == s1 && Enabled(s1, es[1]) && Next(s1, es[1]) == s2
    ensures IsRun(s0, es) && After(s0, es) == s2
  {
    hide Next, Enabled;
    assert es[1..] == [es[1]] && es[1..][1..] == [];
    assert IsRun(s2, []) && After(s2, []) == s2;
    assert IsRun(s1, es[1..]) && After(s1, es[1..]) == s2;
  }

  lemma CollisionAnswer(answer: Response)
    requires answer.id == Some(Integer(1))
    ensures IsRun(FIRST_WAITS, [Look(answer), Deliver])
    ensures After(FIRST_WAITS, [Look(answer), Deliver]) == FirstAnswered(answer)
  {
    var s1 := FIRST_WAITS.(arrivals := 1, router := Matched(Arrived(0, answer)));
    assert Next(FIRST_WAITS, Look(answer)) == s1;
    assert s1.pending - {Integer(1)} == map[];
    assert Next(s1, Deliver) == FirstAnswered(answer);
    RunOf2(FIRST_WAITS, s1, FirstAnswered(answer), [Look(answer), Deliver]);
  }

  lemma CollisionEnd(answer: Response)
    requires answer.id == Some(Integer(1))
    ensures IsRun(FirstAnswered(answer), COLLISION_END)
    ensures After(FirstAnswered(answer), COLLISION_END) == SecondRobbed(answer)
  {
    var s0 := FirstAnswered(answer);
    var first := s0.calls[0];
    var s1 := s0.(calls := [first, Call(1, Reserving(0), 0, 0, None)]);
    var s2 := s0.(handles := [Handle(2, 1), Handle(2, 1)], calls := [first, Call(1, Drawn(0), 1, 0, None)]);
    var s3 := s2.(calls := [first, Call(1, Registered, 1, 0, None)], pending := map[Integer(1) := 1]);
    var s4 := s3.(calls := [first, Call(1, Waiting, 1, 0, None)]);
    var s5 := s4.(calls := [first.(phase := Ending), Call(1, Waiting, 1, 0, None)]);
    assert Next(s0, NewCall(1)) == s1 && Next(s1, Draw(1)) == s2 && Next(s2, Register(1)) == s3;
    SecondWaits(answer, s3);
    RunOf6(s0, s1, s2, s3, s4, s5, SecondRobbed(answer), COLLISION_END);
  }

  lemma SecondWaits(answer: Response, s3: State)
    requires s3 == FirstAnswered(answer).(handles := [Handle(2, 1), Handle(2, 1)], pending := map[Integer(1) := 1],
                     calls := [FirstAnswered(answer).calls[0], Call(1, Registered, 1, 0, None)])
    ensures var first := FirstAnswered(answer).calls[0];
            var s4 := s3.(calls := [first, Call(1, Waiting, 1, 0, None)]);
            var s5 := s4.(calls := [first.(phase := Ending), Call(1, Waiting, 1, 0, None)]);
            && Enabled(s3, Enqueue(1, true)) && Next(s3, Enqueue(1, true)) == s4
            && Enabled(s4, End(0)) && Next(s4, End(0)) == s5
            && Enabled(s5, DropGuard(0)) && Next(s5, DropGuard(0)) == SecondRobbed(answer)
  {
    assert s3.pending - {Integer(1)} == map[];
  }

  lemma CollisionLost(answer: Response)
    requires answer.id == Some(Integer(1))
    ensures var s, es := SecondRobbed(answer), [Look(answer), FallBack];
            IsRun(s, es)
            && After(s, es) == s.(arrivals := 2, unknown := [Arrived(1, answer)], fate := s.fate[1 := HandedBack])
  {
    var s := SecondRobbed(answer);
    var s1 := s.(arrivals := 2, router := Unmatched(Arrived(1, answer)));
    var s2 := s.(arrivals := 2, unknown := [Arrived(1, answer)], fate := s.fate[1 := HandedBack]);
    assert Next(s, Look(answer)) == s1 && Next(s1, FallBack) == s2;
    RunOf2(s, s1, s2, [Look(answer), FallBack]);
  }
}
