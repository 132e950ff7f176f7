/** `LspCodec` (src/codec.rs): the resumable decoder and the encoder, working on buffers in place. */
module Codec {
  import opened Wrappers
  import opened Framing

  // The part of `bytes::BytesMut` that the codec uses.
  class BytesMut {
    var data: Bytes

    constructor (data: Bytes)
      ensures this.data == data
    {
      this.data := data;
    }

    method Advance(n: nat)
      requires n <= |data|
      modifies this
      ensures data == old(data)[n..]
    {
      data := data[n..];
    }

    method SplitTo(n: nat) returns (front: Bytes)
      requires n <= |data|
      modifies this
      ensures front == old(data)[..n] && data == old(data)[n..]
    {
      front, data := data[..n], data[n..];
    }

    method ExtendFromSlice(more: Bytes)
      modifies this
      ensures data == old(data) + more
    {
      data := data + more;
    }
  }

  class LspCodec {
    // The length announced by a header whose body has not been consumed yet.
    var contentLength: Option<nat>

    constructor ()
      ensures contentLength == None
    {
      contentLength := None;
    }

    ghost function View(src: BytesMut): Decoder
      reads this, src
    {
      Decoder(contentLength, src.data)
    }

    method Decode<M>(src: BytesMut, parse: Bytes -> Option<M>) returns (outcome: Outcome<M>)
      modifies this, src
      ensures (outcome, View(src)) == Framing.Decode(old(View(src)), parse)
    {
      hide Framing.ParseContentLength;
      // Without a content length, parse headers.
      if contentLength.None? {
        var headerEnd := FindSubsequence(src.data, HEADER_TERMINATOR);
        if headerEnd.None? {
          return NeedMore;
        }
        var headers := src.data[..headerEnd.value];
        var length := ParseContentLength(headers);
        if length.None? {
          return HeaderError;
        }
        src.Advance(headerEnd.value + |HEADER_TERMINATOR|);
        contentLength := length;
      }

      // Then wait for the body.
      var length := contentLength.value;
      if |src.data| < length {
        return NeedMore;
      }
      var body := src.SplitTo(length);
      contentLength := None;
      outcome := Yield(ParseItem(body, parse));
    }

    method Encode<M>(item: M, dst: BytesMut, serialize: M -> Bytes)
      modifies dst
      ensures dst.data == old(dst.data) + EncodeFrame(serialize(item))
      ensures var json := serialize(item);
              dst.data == old(dst.data) + HEADER_PREFIX + Decimal(|json|) + [13, 10, 13, 10] + json
    {
      var json := serialize(item);
      dst.ExtendFromSlice(Header(|json|) + HEADER_TERMINATOR);
      dst.ExtendFromSlice(json);
    }
  }
}
