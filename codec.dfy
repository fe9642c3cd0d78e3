/** The incremental decoder of server/src/codec.rs (`MsgDecoder::decode`).
    Its wire layout is its own: tag 1 alone is a ping, tag 2 is followed by an
    8-byte big-endian length and that many payload bytes. The running server
    does not use this decoder (see module Server for the layout it reads). */
module Codec {
  import opened Wrappers
  import opened Bytes

  datatype ClientMessage = Ping | Send(payload: seq<byte>)

  /** Only the protocol error; the wrapped I/O error is not modelled. */
  datatype DecodeError = MalformedInput

  /** What one call of the decoder returns, and the buffer it leaves. */
  datatype Decoding = Decoding(result: Result<Option<ClientMessage>, DecodeError>, rest: seq<byte>)

  const PING_TAG: byte := 1
  const SEND_TAG: byte := 2
  /** The tag byte and the 8-byte length field in front of a Send payload. */
  const SEND_HEADER: nat := 9

  /** One decode step on the buffer `src`. */
  function DecodeSpec(src: seq<byte>): (d: Decoding)
    // no result, no progress: "need more data" and errors leave the buffer as it was
    ensures (d.result == Success(None) || d.result.Failure?) ==> d.rest == src
    // a decoded message removes a nonempty prefix and keeps what follows, in order
    ensures d.result.Success? && d.result.value.Some? ==> |d.rest| < |src| && IsSuffix(d.rest, src)
    ensures d.result == Success(Some(Ping)) <==> |src| > 0 && src[0] == PING_TAG
    ensures d.result.Failure? <==> |src| > 0 && src[0] != PING_TAG && src[0] != SEND_TAG
    ensures d.result == Success(None) ==>
              src == [] || (src[0] == SEND_TAG && (|src| < SEND_HEADER || |src| < SEND_HEADER + FromBE(src[1..SEND_HEADER])))
  {
    if src == [] then Decoding(Success(None), src)
    else if src[0] == PING_TAG then Decoding(Success(Some(Ping)), src[1..])
    else if src[0] == SEND_TAG then
      if |src| < SEND_HEADER then Decoding(Success(None), src)
      else
        var length := FromBE(src[1..SEND_HEADER]);
        if |src| < SEND_HEADER + length then Decoding(Success(None), src)
        else Decoding(Success(Some(Send(src[SEND_HEADER..SEND_HEADER + length]))), src[SEND_HEADER + length..])
    else Decoding(Failure(MalformedInput), src)
  }

  /** Tokio's `BytesMut`: a byte buffer the decoder consumes from the front. */
  class BytesMut {
    var data: seq<byte>

    constructor (init: seq<byte>)
      ensures data == init
    {
      data := init;
    }

    /** `BytesMut::advance`: drop the first n bytes. */
    method Advance(n: nat)
      requires n <= |data|
      modifies this
      ensures data == old(data)[n..]
    {
      data := data[n..];
    }
  }

  /** `MsgDecoder::decode`: decode at most one message from the front of `src`,
      removing its bytes only when it is complete. */
  method Decode(src: BytesMut) returns (r: Result<Option<ClientMessage>, DecodeError>)
    modifies src
    ensures r == DecodeSpec(old(src.data)).result
    ensures src.data == DecodeSpec(old(src.data)).rest
  {
    if |src.data| == 0 {
      return Success(None);
    }
    var tag := src.data[0];
    if tag == PING_TAG {
      src.Advance(1);
      return Success(Some(Ping));
    } else if tag == SEND_TAG {
      if |src.data| < SEND_HEADER {
        return Success(None);
      }
      var length := FromBE(src.data[1..SEND_HEADER]);
      if |src.data| < SEND_HEADER + length {
        return Success(None);
      }
      var message := src.data[SEND_HEADER..SEND_HEADER + length];
      src.Advance(SEND_HEADER + length);
      return Success(Some(Send(message)));
    } else {
      return Failure(MalformedInput);
    }
  }

  /** The bytes the decoder reads as `Send(p)`. */
  function EncodeSend(p: seq<byte>): (f: seq<byte>)
    requires |p| < U64_LIMIT
    ensures |f| == SEND_HEADER + |p|
  {
    [SEND_TAG] + BE64(|p|) + p
  }

  lemma DecodeEmpty()
    ensures DecodeSpec([]) == Decoding(Success(None), [])
  {
  }

  /** A leading 1 is a ping: exactly one byte goes, the rest stays in order. */
  lemma DecodePing(rest: seq<byte>)
    ensures DecodeSpec([PING_TAG] + rest) == Decoding(Success(Some(Ping)), rest)
  {
    assert ([PING_TAG] + rest)[1..] == rest;
  }

  /** Any other leading byte is an error; nothing is consumed or skipped. */
  lemma DecodeMalformed(src: seq<byte>)
    requires |src| > 0 && src[0] != PING_TAG && src[0] != SEND_TAG
    ensures DecodeSpec(src) == Decoding(Failure(MalformedInput), src)
  {
  }

  /** A Send whose header or payload has not fully arrived waits for more data. */
  lemma DecodeIncompleteSend(src: seq<byte>)
    requires |src| > 0 && src[0] == SEND_TAG
    requires |src| < SEND_HEADER || |src| < SEND_HEADER + FromBE(src[1..SEND_HEADER])
    ensures DecodeSpec(src) == Decoding(Success(None), src)
  {
  }

  /** A complete Send yields its payload and consumes exactly header and payload. */
  lemma DecodeCompleteSend(src: seq<byte>)
    requires |src| >= SEND_HEADER && src[0] == SEND_TAG
    requires |src| >= SEND_HEADER + FromBE(src[1..SEND_HEADER])
    ensures var length := FromBE(src[1..SEND_HEADER]);
            DecodeSpec(src) == Decoding(Success(Some(Send(src[SEND_HEADER..SEND_HEADER + length]))), src[SEND_HEADER + length..])
  {
  }

  /** Round trip: an encoded payload, whatever follows it, decodes to itself
      and leaves exactly what followed. */
  lemma DecodeSendRoundTrip(p: seq<byte>, rest: seq<byte>)
    requires |p| < U64_LIMIT
    ensures DecodeSpec(EncodeSend(p) + rest) == Decoding(Success(Some(Send(p))), rest)
  {
    var src := EncodeSend(p) + rest;
    assert src[1..SEND_HEADER] == BE64(|p|);
    Pow256Eight();
    FromBEToBE(|p|, 8);
    assert src[SEND_HEADER..SEND_HEADER + |p|] == p;
    assert src[SEND_HEADER + |p|..] == rest;
  }

  /** Once the buffer decides a result (a message or an error), bytes arriving
      later do not change it: the same result, and they are kept behind the rest.
      This is why the chunking of the stream does not matter. */
  lemma DecodeStableUnderAppend(src: seq<byte>, more: seq<byte>)
    requires DecodeSpec(src).result != Success(None)
    ensures DecodeSpec(src + more) == Decoding(DecodeSpec(src).result, DecodeSpec(src).rest + more)
  {
    var all := src + more;
    assert all[0] == src[0];
    if src[0] == PING_TAG {
      assert all[1..] == src[1..] + more;
    } else if src[0] == SEND_TAG {
      assert all[1..SEND_HEADER] == src[1..SEND_HEADER];
      var length := FromBE(src[1..SEND_HEADER]);
      assert all[SEND_HEADER..SEND_HEADER + length] == src[SEND_HEADER..SEND_HEADER + length];
      assert all[SEND_HEADER + length..] == src[SEND_HEADER + length..] + more;
    }
  }
}
