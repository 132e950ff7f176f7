/** The background task that moves messages from the channel to the transport (src/connection.rs,
    `spawn_drain_task`), run by itself on the messages it will receive. */
module DrainTask {
  import opened Wrappers
  import opened Framing
  import opened Codec
  import opened Pipeline

  // A transport that takes a limited number of bytes and then breaks.
  class Transport {
    const capacity: nat
    var written: Bytes

    constructor (capacity: nat)
      ensures this.capacity == capacity && written == []
    {
      this.capacity, written := capacity, [];
    }

    method Write(bytes: Bytes) returns (ok: bool)
      requires |written| <= capacity
      modifies this
      ensures ok <==> |old(written)| + |bytes| <= capacity
      ensures |written| <= capacity
      ensures written == if ok then old(written) + bytes else old(written) + bytes[..capacity - |old(written)|]
    {
      ok := |written| + |bytes| <= capacity;
      if ok {
        written := written + bytes;
      } else {
        written := written + bytes[..capacity - |written|];
      }
    }
  }

  lemma UpToBreak<M>(f: Format<M>, messages: seq<M>, i: nat, capacity: nat)
    requires i < |messages|
    requires |Frames(f, messages[..i])| <= capacity < |Frames(f, messages[..i])| + |Frame(f, messages[i])|
    ensures capacity < |Frames(f, messages)|
    ensures Frames(f, messages)[..capacity]
            == Frames(f, messages[..i]) + Frame(f, messages[i])[..capacity - |Frames(f, messages[..i])|]
  {
    hide Frame, Frames;
    FramesSplit(f, messages, i);
  }

  /** Everything received is written, frame after frame, up to the byte at which the transport breaks. */
  method Run<M>(codec: LspCodec, f: Format<M>, messages: seq<M>, transport: Transport) returns (finished: bool)
    requires transport.written == []
    modifies transport
    ensures finished <==> |Frames(f, messages)| <= transport.capacity
    ensures transport.written == if finished then Frames(f, messages) else Frames(f, messages)[..transport.capacity]
  {
    hide Frames, EncodeFrame;
    assert messages[..0] == [] && Frames(f, []) == [] by { NoFrames(f); }
    for i := 0 to |messages|
      invariant transport.written == Frames(f, messages[..i]) && |transport.written| <= transport.capacity
    {
      var buffer := new BytesMut([]);
      codec.Encode(messages[i], buffer, f.serialize);
      assert buffer.data == Frame(f, messages[i]);
      FramesSplit(f, messages, i);
      var ok := transport.Write(buffer.data);
      if !ok {
        UpToBreak(f, messages, i, transport.capacity);
        return false;
      }
    }
    assert messages[..|messages|] == messages;
    finished := true;
  }

  lemma NoFrames<M>(f: Format<M>)
    ensures Frames(f, []) == []
  {
  }
}
