/** The outbound pipeline (src/connection.rs, `spawn_drain_task`) with the peer's decoder at its end, as a step
    system: cloned handles enqueue messages on one unbounded channel, the drain task encodes them one by one until
    the transport breaks in the middle of a write, and the written bytes reach the peer in arbitrary chunks. */
module Pipeline {
  import opened Wrappers
  import opened Framing

  // How messages are serialised and parsed; `norm` says what a message looks like after the journey.
  datatype Format<!M> = Format(serialize: M -> Bytes, parse: Bytes -> Option<M>, norm: M -> M)

  /** On these messages parsing inverts printing, and their bodies have a `usize` length. */
  ghost predicate Lawful<M>(f: Format<M>, ms: seq<M>) {
    forall m | m in ms :: |f.serialize(m)| <= USIZE_MAX && f.parse(f.serialize(m)) == Some(f.norm(m))
  }

  function Frame<M>(f: Format<M>, m: M): Bytes { EncodeFrame(f.serialize(m)) }

  function Frames<M>(f: Format<M>, ms: seq<M>): Bytes {
    if ms == [] then [] else Frame(f, ms[0]) + Frames(f, ms[1..])
  }

  /** How many of the frames of `ms` lie entirely within the first `k` bytes. */
  function Complete<M>(f: Format<M>, ms: seq<M>, k: nat): (n: nat)
    ensures n <= |ms|
  {
    if ms == [] || k < |Frame(f, ms[0])| then 0 else 1 + Complete(f, ms[1..], k - |Frame(f, ms[0])|)
  }

  function Received<M>(f: Format<M>, ms: seq<M>): seq<Item<M>> {
    seq(|ms|, i requires 0 <= i < |ms| => Message(f.norm(ms[i])))
  }

  // ---------- the system ----------

  datatype System<M> = System(
    enqueued: seq<M>,        // every message whose `send` succeeded
    queue: seq<M>,           // the channel
    alive: bool,             // the drain task runs and holds the receiving end
    wire: Bytes,             // all bytes written to the transport
    delivered: nat,          // how many of them the peer has read
    reader: Decoder,
    decoded: seq<Item<M>>,
    failed: bool)            // the peer's stream ended with a header error

  datatype Event<M> =
    | Send(message: M)
    | DrainOne
    | Break(written: nat)    // the write of one message fails after so many bytes
    | Close                  // every sender is gone and the channel is empty
    | Arrive(count: nat)

  function Start<M>(): System<M> { System([], [], true, [], 0, START, [], false) }

  predicate Enabled<M>(f: Format<M>, s: System<M>, e: Event<M>) {
    match e
    case Send(_) => true
    case DrainOne => s.alive && s.queue != []
    case Break(written) => s.alive && s.queue != [] && written <= |Frame(f, s.queue[0])|
    case Close => s.alive && s.queue == []
    case Arrive(count) => !s.failed && s.delivered + count <= |s.wire|
  }

  function Next<M>(f: Format<M>, s: System<M>, e: Event<M>): System<M>
    requires Enabled(f, s, e)
  {
    match e
    case Send(m) => if s.alive then s.(enqueued := s.enqueued + [m], queue := s.queue + [m]) else s
    case DrainOne => s.(queue := s.queue[1..], wire := s.wire + Frame(f, s.queue[0]))
    case Break(written) => s.(queue := [], alive := false, wire := s.wire + Frame(f, s.queue[0])[..written])
    case Close => s.(alive := false)
    case Arrive(count) =>
      var r := Drain(Append(s.reader, s.wire[s.delivered..s.delivered + count]), f.parse);
      s.(delivered := s.delivered + count, reader := r.rest, decoded := s.decoded + r.items, failed := r.failed)
  }

  predicate IsRun<M>(f: Format<M>, s: System<M>, es: seq<Event<M>>)
    decreases |es|
  {
    es == [] || (Enabled(f, s, es[0]) && IsRun(f, Next(f, s, es[0]), es[1..]))
  }

  function After<M>(f: Format<M>, s: System<M>, es: seq<Event<M>>): System<M>
    requires IsRun(f, s, es)
    decreases |es|
  {
    if es == [] then s else After(f, Next(f, s, es[0]), es[1..])
  }

  // ---------- the invariant ----------

  /** While the drain task runs, written and queued messages are all that was enqueued. */
  ghost predicate OutboundOk<M>(f: Format<M>, s: System<M>) {
    && s.wire <= Frames(f, s.enqueued)
    && (s.alive ==> |s.queue| <= |s.enqueued|
                    && s.queue == s.enqueued[|s.enqueued| - |s.queue|..]
                    && s.wire == Frames(f, s.enqueued[..|s.enqueued| - |s.queue|]))
  }

  /** The reader stands where the splitter ends on the delivered bytes. */
  ghost predicate InboundOk<M>(f: Format<M>, s: System<M>) {
    && s.delivered <= |s.wire|
    && var r := Split(s.wire[..s.delivered], f.parse);
       s.decoded == r.items && s.failed == r.failed && (!s.failed ==> s.reader == Waiting(r.rest))
  }

  lemma {:induction false} FramesConcat<M>(f: Format<M>, a: seq<M>, b: seq<M>)
    ensures Frames(f, a + b) == Frames(f, a) + Frames(f, b)
  {
    if a == [] {
      assert a + b == b;
    } else {
      assert (a + b)[1..] == a[1..] + b;
      FramesConcat(f, a[1..], b);
    }
  }

  lemma FramesSplit<M>(f: Format<M>, ms: seq<M>, i: nat)
    requires i < |ms|
    ensures Frame(f, ms[i]) == EncodeFrame(f.serialize(ms[i]))
    ensures Frames(f, ms[..i + 1]) == Frames(f, ms[..i]) + Frame(f, ms[i])
    ensures Frames(f, ms[..i]) + Frame(f, ms[i]) <= Frames(f, ms)
  {
    assert ms[..i + 1] == ms[..i] + [ms[i]] && ms == ms[..i + 1] + ms[i + 1..];
    assert Frames(f, [ms[i]]) == Frame(f, ms[i]) + Frames(f, [ms[i]][1..]) == Frame(f, ms[i]);
    FramesConcat(f, ms[..i], [ms[i]]);
    FramesConcat(f, ms[..i + 1], ms[i + 1..]);
  }

  lemma OutboundStep<M>(f: Format<M>, s: System<M>, e: Event<M>)
    requires OutboundOk(f, s) && Enabled(f, s, e)
    ensures OutboundOk(f, Next(f, s, e))
  {
    hide Frame, Frames, Drain;
    var i := |s.enqueued| - |s.queue|;
    match e
    case Send(m) =>
      if s.alive {
        FramesConcat(f, s.enqueued, [m]);
        assert (s.enqueued + [m])[..i] == s.enqueued[..i];
      }
    case DrainOne =>
      FramesSplit(f, s.enqueued, i);
      assert s.queue[1..] == s.enqueued[i + 1..];
    case Break(written) =>
      FramesSplit(f, s.enqueued, i);
      assert s.queue[0] == s.enqueued[i];
    case _ =>
  }

  lemma InboundStep<M>(f: Format<M>, s: System<M>, e: Event<M>)
    requires InboundOk(f, s) && Enabled(f, s, e)
    ensures InboundOk(f, Next(f, s, e))
  {
    hide Drain, Split, Waiting, Frame;
    var t := Next(f, s, e);
    if e.Arrive? {
      var before, chunk := s.wire[..s.delivered], s.wire[s.delivered..t.delivered];
      assert t.wire[..t.delivered] == before + chunk;
      SplitMore(before, chunk, f.parse);
    } else {
      assert t.wire[..t.delivered] == s.wire[..s.delivered];
    }
  }

  lemma SplitFirstFrame<M>(f: Format<M>, ms: seq<M>, k: nat)
    requires Lawful(f, ms) && ms != [] && k <= |Frames(f, ms)|
    ensures var size := |Frame(f, ms[0])|;
            if k < size then Split(Frames(f, ms)[..k], f.parse) == Splitting([], false, Frames(f, ms)[..k])
            else
              && k - size <= |Frames(f, ms[1..])|
              && var r := Split(Frames(f, ms[1..])[..k - size], f.parse);
                 Split(Frames(f, ms)[..k], f.parse) == r.(items := [Message(f.norm(ms[0]))] + r.items)
  {
    hide EncodeFrame, Split, Frames;
    var body, frame, rest := f.serialize(ms[0]), Frame(f, ms[0]), Frames(f, ms[1..]);
    assert Frames(f, ms) == frame + rest by { FramesHead(f, ms); }
    if k < |frame| {
      assert Frames(f, ms)[..k] == frame[..k];
      PartialFrameWaits(body, k, f.parse);
    } else {
      assert Frames(f, ms)[..k] == frame + rest[..k - |frame|];
      FrameRoundTrip(body, rest[..k - |frame|], f.parse);
    }
  }

  lemma FramesHead<M>(f: Format<M>, ms: seq<M>)
    requires ms != []
    ensures Frames(f, ms) == Frame(f, ms[0]) + Frames(f, ms[1..])
  {
  }

  /** Frames cut off anywhere split into exactly the complete ones, without an error. */
  lemma {:induction false} SplitFrames<M>(f: Format<M>, ms: seq<M>, k: nat)
    requires Lawful(f, ms) && k <= |Frames(f, ms)|
    ensures var r := Split(Frames(f, ms)[..k], f.parse);
            !r.failed && r.items == Received(f, ms[..Complete(f, ms, k)])
    decreases |ms|
  {
    hide Frame, Split;
    if ms == [] {
      NothingWaits(f.parse);
    } else {
      hide Frames;
      SplitFirstFrame(f, ms, k);
      if k >= |Frame(f, ms[0])| {
        SplitFrames(f, ms[1..], k - |Frame(f, ms[0])|);
        var n := Complete(f, ms[1..], k - |Frame(f, ms[0])|);
        assert Received(f, ms[..n + 1]) == [Message(f.norm(ms[0]))] + Received(f, ms[1..][..n]);
      }
    }
  }

  lemma {:induction false} RunKeeps<M>(f: Format<M>, s: System<M>, es: seq<Event<M>>)
    requires IsRun(f, s, es) && OutboundOk(f, s) && InboundOk(f, s)
    ensures OutboundOk(f, After(f, s, es)) && InboundOk(f, After(f, s, es))
    decreases |es|
  {
    if es != [] {
      OutboundStep(f, s, es[0]);
      InboundStep(f, s, es[0]);
      RunKeeps(f, Next(f, s, es[0]), es[1..]);
    }
  }

  /** In every run the peer has decoded, in order and without errors, exactly the messages whose frames have
      arrived completely, a prefix of what was enqueued. */
  lemma FifoPrefix<M>(f: Format<M>, es: seq<Event<M>>)
    requires IsRun(f, Start(), es) && Lawful(f, After(f, Start(), es).enqueued)
    ensures var s := After(f, Start(), es);
            && !s.failed
            && s.decoded == Received(f, s.enqueued[..Complete(f, s.enqueued, s.delivered)])
  {
    var s := After(f, Start(), es);
    RunKeeps(f, Start(), es);
    assert s.wire[..s.delivered] == Frames(f, s.enqueued)[..s.delivered];
    SplitFrames(f, s.enqueued, s.delivered);
  }

  lemma {:induction false} AllComplete<M>(f: Format<M>, ms: seq<M>)
    ensures Complete(f, ms, |Frames(f, ms)|) == |ms|
    decreases |ms|
  {
    if ms != [] {
      AllComplete(f, ms[1..]);
    }
  }

  /** Nothing is lost while the transport holds: once the queue is empty and every byte has arrived, the peer has
      every message. */
  lemma NothingLost<M>(f: Format<M>, es: seq<Event<M>>)
    requires IsRun(f, Start(), es) && Lawful(f, After(f, Start(), es).enqueued)
    ensures var s := After(f, Start(), es);
            s.alive && s.queue == [] && s.delivered == |s.wire| ==> s.decoded == Received(f, s.enqueued)
  {
    var s := After(f, Start(), es);
    RunKeeps(f, Start(), es);
    FifoPrefix(f, es);
    if s.alive && s.queue == [] && s.delivered == |s.wire| {
      assert s.enqueued[..|s.enqueued|] == s.enqueued;
      AllComplete(f, s.enqueued);
    }
  }

  // ---------- undisturbed runs ----------

  /** Each message is sent, written and read at once. */
  function Undisturbed<M>(f: Format<M>, ms: seq<M>): seq<Event<M>> {
    if ms == [] then []
    else
      var m := ms[|ms| - 1];
      Undisturbed(f, ms[..|ms| - 1]) + [Send(m), DrainOne, Arrive(|Frame(f, m)|)]
  }

  lemma {:induction false} RunsJoin<M>(f: Format<M>, s: System<M>, a: seq<Event<M>>, b: seq<Event<M>>)
    requires IsRun(f, s, a) && IsRun(f, After(f, s, a), b)
    ensures IsRun(f, s, a + b) && After(f, s, a + b) == After(f, After(f, s, a), b)
    decreases |a|
  {
    if a == [] {
      assert a + b == b;
    } else {
      assert (a + b)[1..] == a[1..] + b;
      RunsJoin(f, Next(f, s, a[0]), a[1..], b);
    }
  }

  lemma OneMessage<M>(f: Format<M>, s: System<M>, m: M)
    requires s.alive && s.queue == [] && s.delivered == |s.wire| && !s.failed
    ensures var es := [Send(m), DrainOne, Arrive(|Frame(f, m)|)];
            && IsRun(f, s, es)
            && var t := After(f, s, es);
               t.enqueued == s.enqueued + [m] && t.alive && t.queue == [] && t.delivered == |t.wire|
  {
    hide Frame, Drain;
    var es := [Send(m), DrainOne, Arrive(|Frame(f, m)|)];
    var s1 := Next(f, s, es[0]);
    var s2 := Next(f, s1, es[1]);
    assert s1.queue == [m] && s1.queue[0] == m;
    assert Enabled(f, s2, es[2]);
    var s3 := Next(f, s2, es[2]);
    assert es[1..] == [DrainOne, Arrive(|Frame(f, m)|)] && es[1..][1..] == [Arrive(|Frame(f, m)|)];
    assert es[1..][1..][1..] == [];
    assert IsRun(f, s3, []) && After(f, s3, []) == s3;
    assert IsRun(f, s2, es[1..][1..]) && After(f, s2, es[1..][1..]) == s3;
    assert IsRun(f, s1, es[1..]) && After(f, s1, es[1..]) == s3;
  }

  /** Any messages on which parsing inverts printing can be sent, and then the peer has all of them; so the drain task
      may end when no sender is left. */
  lemma {:induction false} AllArrive<M>(f: Format<M>, ms: seq<M>)
    requires Lawful(f, ms)
    ensures IsRun(f, Start(), Undisturbed(f, ms))
    ensures var s := After(f, Start(), Undisturbed(f, ms));
            && s.enqueued == ms && s.alive && s.queue == [] && s.delivered == |s.wire|
            && s.decoded == Received(f, ms)
            && Enabled(f, s, Close) && Next(f, s, Close) == s.(alive := false)
    decreases |ms|
  {
    hide Frame, Received;
    if ms == [] {
      assert Undisturbed(f, ms) == [];
    } else {
      var before, m := ms[..|ms| - 1], ms[|ms| - 1];
      AllArrive(f, before);
      FifoPrefix(f, Undisturbed(f, before));
      OneMessage(f, After(f, Start(), Undisturbed(f, before)), m);
      RunsJoin(f, Start(), Undisturbed(f, before), [Send(m), DrainOne, Arrive(|Frame(f, m)|)]);
      assert ms == before + [m];
    }
    NothingLost(f, Undisturbed(f, ms));
  }

  // ---------- broken runs ----------

  /** All messages are sent before the first is written. */
  function Sends<M>(ms: seq<M>): seq<Event<M>> {
    if ms == [] then [] else Sends(ms[..|ms| - 1]) + [Send(ms[|ms| - 1])]
  }

  function Drains<M>(n: nat): seq<Event<M>> {
    if n == 0 then [] else Drains(n - 1) + [DrainOne]
  }

  lemma OneStep<M>(f: Format<M>, s: System<M>, e: Event<M>)
    requires Enabled(f, s, e)
    ensures IsRun(f, s, [e]) && After(f, s, [e]) == Next(f, s, e)
  {
    hide Next, Enabled;
    assert [e][1..] == [] && IsRun(f, Next(f, s, e), []);
  }

  lemma {:induction false} AfterSends<M>(f: Format<M>, ms: seq<M>)
    ensures IsRun(f, Start(), Sends(ms))
    ensures After(f, Start(), Sends(ms)) == Start<M>().(enqueued := ms, queue := ms)
    decreases |ms|
  {
    if ms != [] {
      var before, m := ms[..|ms| - 1], ms[|ms| - 1];
      AfterSends(f, before);
      OneStep(f, After(f, Start(), Sends(before)), Send(m));
      RunsJoin(f, Start(), Sends(before), [Send(m)]);
      assert ms == before + [m];
    }
  }

  lemma {:induction false} AfterDrains<M>(f: Format<M>, ms: seq<M>, n: nat)
    requires n <= |ms|
    ensures var s := Start<M>().(enqueued := ms, queue := ms);
            && IsRun(f, s, Drains(n))
            && After(f, s, Drains(n)) == s.(queue := ms[n..], wire := Frames(f, ms[..n]))
  {
    hide Frame;
    var s := Start<M>().(enqueued := ms, queue := ms);
    if n == 0 {
      assert ms[0..] == ms && ms[..0] == [];
    } else {
      AfterDrains(f, ms, n - 1);
      FramesSplit(f, ms, n - 1);
      OneStep(f, After(f, s, Drains(n - 1)), DrainOne);
      RunsJoin(f, s, Drains(n - 1), [DrainOne]);
    }
  }

  lemma {:induction false} CompleteBounds<M>(f: Format<M>, ms: seq<M>, k: nat)
    requires k < |Frames(f, ms)|
    ensures var n := Complete(f, ms, k);
            n < |ms| && |Frames(f, ms[..n])| <= k < |Frames(f, ms[..n])| + |Frame(f, ms[n])|
    decreases |ms|
  {
    hide Frame;
    var size := |Frame(f, ms[0])|;
    if k >= size {
      CompleteBounds(f, ms[1..], k - size);
      var n := Complete(f, ms[1..], k - size);
      assert ms[..n + 1][1..] == ms[1..][..n];
    }
  }

  /** The transport may break at any byte: then exactly the bytes up to there are on the wire, the peer has exactly the
      messages whose frames they complete, and no message is enqueued any more. */
  lemma BreaksAnywhere<M>(f: Format<M>, ms: seq<M>, k: nat) returns (es: seq<Event<M>>)
    requires Lawful(f, ms) && k < |Frames(f, ms)|
    ensures IsRun(f, Start(), es)
    ensures var s := After(f, Start(), es);
            && s.enqueued == ms && !s.alive && s.wire == Frames(f, ms)[..k] && s.delivered == k
            && s.decoded == Received(f, ms[..Complete(f, ms, k)])
            && forall m :: Enabled(f, s, Send(m)) && Next(f, s, Send(m)) == s
  {
    hide Frame, Frames, Received, Complete, Drain;
    var n := Complete(f, ms, k);
    CompleteBounds(f, ms, k);
    FramesSplit(f, ms, n);
    var written := k - |Frames(f, ms[..n])|;
    AfterSends(f, ms);
    AfterDrains(f, ms, n);
    var s0 := Start<M>().(enqueued := ms, queue := ms);
    var s1 := s0.(queue := ms[n..], wire := Frames(f, ms[..n]));
    OneStep(f, s1, Break(written));
    var s2 := Next(f, s1, Break(written));
    assert s2.wire == Frames(f, ms)[..k];
    OneStep(f, s2, Arrive(k));
    RunsJoin(f, Start(), Sends(ms), Drains(n));
    RunsJoin(f, Start(), Sends(ms) + Drains(n), [Break(written)]);
    es := Sends(ms) + Drains(n) + [Break(written)] + [Arrive(k)];
    RunsJoin(f, Start(), Sends(ms) + Drains(n) + [Break(written)], [Arrive(k)]);
    FifoPrefix(f, es);
  }
}
