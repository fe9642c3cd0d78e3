/** The per-connection frame loop of the running server (server/src/main.rs):
    `future::loop_fn(stream, handle_frame)` with its handlers, stripped of the
    futures machinery. A connection is the sequence of bytes the client sends
    until it closes; the loop reads it front to back with `read_exact` and
    writes reply bytes back. Every frame carries the sender's id.

      tag 1: 8-byte big-endian id; the reply is the single byte 1
      tag 2: 8-byte id, 8-byte length, that many message bytes; no reply
      other: the loop stops, nothing more is read */
module Server {
  import opened Wrappers
  import opened Bytes

  /** What the server logs for one frame. */
  datatype Event = PingFrom(id: u64) | Message(id: u64, msg: seq<byte>)

  /** How the loop ends: an unrecognised tag breaks it; running out of input
      in any `read_exact` is `UnexpectedEof`, reported as "closed by client". */
  datatype Termination = UnknownTag(tag: byte) | ClosedByClient

  /** One pass of `handle_frame`. `rest` is the stream after the frame. */
  datatype FrameStep =
    | Continue(event: Event, written: seq<byte>, rest: seq<byte>)
    | Break(tag: byte, rest: seq<byte>)
    | Eof

  /** Everything one connection does: the events, in order, the bytes written
      back, why the loop ended and the bytes it never read. */
  datatype Transcript = Transcript(events: seq<Event>, output: seq<byte>, end: Termination, unread: seq<byte>)

  const PING_TAG: byte := 1
  const MESSAGE_TAG: byte := 2
  /** The one byte written back for a ping. */
  const PONG: byte := 1

  /** `read_u64`: `read_exact` of eight bytes, then `u64::from_be_bytes`. */
  function ReadU64(stream: seq<byte>): (r: Option<(u64, seq<byte>)>)
    ensures r.None? <==> |stream| < 8
    ensures r.Some? ==> r.value.1 == stream[8..]
  {
    if |stream| < 8 then None else Some((FromBE64(stream), stream[8..]))
  }

  /** `handle_ping`, after the tag: read the id, write back one byte 1. */
  function HandlePing(stream: seq<byte>): (r: FrameStep)
    ensures r.Continue? || r.Eof?
    ensures r.Continue? ==> r.event.PingFrom? && r.written == [PONG] && |r.rest| < |stream|
  {
    match ReadU64(stream)
    case None => Eof
    case Some((id, rest)) => Continue(PingFrom(id), [PONG], rest)
  }

  /** `handle_message`, after the tag: read 16 bytes (id, then length), then
      exactly length message bytes; nothing is written back. */
  function HandleMessage(stream: seq<byte>): (r: FrameStep)
    ensures r.Continue? || r.Eof?
    ensures r.Continue? ==> r.event.Message? && r.written == [] && |r.rest| < |stream|
    ensures r.Continue? ==> |stream| == 16 + |r.event.msg| + |r.rest| && stream[16 + |r.event.msg|..] == r.rest
  {
    if |stream| < 16 then Eof
    else
      var id := FromBE64(stream[0..8]);
      var len := FromBE64(stream[8..16]);
      var body := stream[16..];
      if |body| < len then Eof
      else Continue(Message(id, body[..len]), [], body[len..])
  }

  /** `handle_frame`: read one tag byte and dispatch on it. */
  function HandleFrame(stream: seq<byte>): (r: FrameStep)
    ensures r.Eof? ==> stream == [] || stream[0] == PING_TAG || stream[0] == MESSAGE_TAG
    ensures r.Break? <==> stream != [] && stream[0] != PING_TAG && stream[0] != MESSAGE_TAG
    ensures r.Break? ==> r.tag == stream[0] && r.rest == stream[1..]
    ensures r.Continue? ==> |r.rest| < |stream| && IsSuffix(r.rest, stream)
    ensures r.Continue? ==> (r.event.PingFrom? <==> r.written == [PONG]) && (r.event.Message? <==> r.written == [])
  {
    if stream == [] then Eof
    else if stream[0] == PING_TAG then HandlePing(stream[1..])
    else if stream[0] == MESSAGE_TAG then HandleMessage(stream[1..])
    else Break(stream[0], stream[1..])
  }

  /** How many pings a run of events holds. */
  function PingCount(events: seq<Event>): (n: nat)
    ensures n <= |events|
  {
    if events == [] then 0
    else (if events[0].PingFrom? then 1 else 0) + PingCount(events[1..])
  }

  /** n reply bytes. */
  function Pongs(n: nat): (s: seq<byte>)
    ensures |s| == n && forall i :: 0 <= i < n ==> s[i] == PONG
  {
    seq(n, _ => PONG)
  }

  /** The transcript `t` preceded by earlier events and earlier output. */
  function Prepend(events: seq<Event>, output: seq<byte>, t: Transcript): Transcript {
    Transcript(events + t.events, output + t.output, t.end, t.unread)
  }

  /** The whole connection: `handle_frame` again and again, strictly in arrival
      order, until it breaks or the input runs out. */
  function Run(stream: seq<byte>): (t: Transcript)
    // the only bytes ever written are pongs, one per ping processed
    ensures t.output == Pongs(PingCount(t.events))
    // after an unknown tag nothing more is read; at EOF everything was read
    ensures t.end.ClosedByClient? ==> t.unread == []
    ensures IsSuffix(t.unread, stream)
    decreases |stream|
  {
    match HandleFrame(stream)
    case Continue(e, w, rest) =>
      var t := Run(rest);
      PongsPrepend(e, w, t.events, t.output);
      SuffixTransitive(t.unread, rest, stream);
      Prepend([e], w, t)
    case Break(tag, rest) => Transcript([], [], UnknownTag(tag), rest)
    case Eof => Transcript([], [], ClosedByClient, [])
  }

  /** A frame's reply ahead of pongs for the later pings is pongs for all. */
  lemma PongsPrepend(e: Event, w: seq<byte>, events: seq<Event>, output: seq<byte>)
    requires (e.PingFrom? <==> w == [PONG]) && (e.Message? <==> w == [])
    requires output == Pongs(PingCount(events))
    ensures w + output == Pongs(PingCount([e] + events))
  {
    assert ([e] + events)[1..] == events;
  }

  lemma SuffixTransitive(a: seq<byte>, b: seq<byte>, c: seq<byte>)
    requires IsSuffix(a, b) && IsSuffix(b, c)
    ensures IsSuffix(a, c)
  {
    assert c[|c| - |a|..] == c[|c| - |b|..][|b| - |a|..];
  }

  /** The loop itself: `loop_fn(stream, handle_frame)`, threading the stream
      through one `handle_frame` per iteration and collecting what it does. */
  method Serve(input: seq<byte>) returns (t: Transcript)
    ensures t == Run(input)
  {
    var stream := input;
    var events: seq<Event> := [];
    var output: seq<byte> := [];
    while true
      invariant Run(input) == Prepend(events, output, Run(stream))
      decreases |stream|
    {
      var step := HandleFrame(stream);
      RunStep(stream);
      if step.Continue? {
        PrependTwice(events, output, [step.event], step.written, Run(step.rest));
        events, output, stream := events + [step.event], output + step.written, step.rest;
      } else if step.Break? {
        return Prepend(events, output, Transcript([], [], UnknownTag(step.tag), step.rest));
      } else {
        return Prepend(events, output, Transcript([], [], ClosedByClient, []));
      }
    }
  }

  /** Frames are handled one after another: a frame the loop completes puts
      its event and reply ahead of everything after it; a break or an end of
      input ends the transcript there. */
  lemma RunStep(stream: seq<byte>)
    ensures match HandleFrame(stream)
            case Continue(e, w, rest) => Run(stream) == Prepend([e], w, Run(rest))
            case Break(tag, rest) => Run(stream) == Transcript([], [], UnknownTag(tag), rest)
            case Eof => Run(stream) == Transcript([], [], ClosedByClient, [])
  {
  }

  lemma PrependTwice(events: seq<Event>, output: seq<byte>, events': seq<Event>, output': seq<byte>, t: Transcript)
    ensures Prepend(events, output, Prepend(events', output', t)) == Prepend(events + events', output + output', t)
  {
    assert events + (events' + t.events) == (events + events') + t.events;
    assert output + (output' + t.output) == (output + output') + t.output;
  }

  /** `read_u64` inverts `u64::to_be_bytes` and consumes exactly eight bytes. */
  lemma ReadU64OfBE64(id: u64, rest: seq<byte>)
    ensures ReadU64(BE64(id) + rest) == Some((id, rest))
  {
    FromBE64OfBE64(id, rest);
    assert (BE64(id) + rest)[8..] == rest;
  }

  /** A complete tag-1 frame: the ping is logged, one byte 1 is written back,
      and the loop goes on with exactly the bytes that follow. */
  lemma PingFrameStep(id: u64, rest: seq<byte>)
    ensures HandleFrame([PING_TAG] + BE64(id) + rest) == Continue(PingFrom(id), [PONG], rest)
  {
    var s := [PING_TAG] + BE64(id) + rest;
    assert s[1..] == BE64(id) + rest;
    ReadU64OfBE64(id, rest);
  }

  /** A complete tag-2 frame: id and length are read big-endian, then exactly
      length message bytes; nothing is written and the loop goes on. */
  lemma MessageFrameStep(id: u64, msg: seq<byte>, rest: seq<byte>)
    requires |msg| < U64_LIMIT
    ensures HandleFrame([MESSAGE_TAG] + BE64(id) + BE64(|msg|) + msg + rest) == Continue(Message(id, msg), [], rest)
  {
    var s := [MESSAGE_TAG] + BE64(id) + BE64(|msg|) + msg + rest;
    var t := s[1..];
    assert t == BE64(id) + (BE64(|msg|) + msg + rest);
    FromBE64OfBE64(id, BE64(|msg|) + msg + rest);
    assert t[0..8][..8] == t[..8];
    assert t[8..16] == BE64(|msg|) + [];
    FromBE64OfBE64(|msg|, []);
    assert t[16..] == msg + rest;
  }

  /** Any tag other than 1 and 2 (the never-dispatched broadcast tag 3 among
      them) ends the connection cleanly: no event, nothing written, nothing
      more read. */
  lemma UnknownTagStops(tag: byte, rest: seq<byte>)
    requires tag != PING_TAG && tag != MESSAGE_TAG
    ensures Run([tag] + rest) == Transcript([], [], UnknownTag(tag), rest)
  {
    assert ([tag] + rest)[1..] == rest;
  }

  /** The broadcast handler is never dispatched: tag 3 is an unknown tag. */
  lemma BroadcastTagIsUnknown(rest: seq<byte>)
    ensures Run([3] + rest).end == UnknownTag(3) && Run([3] + rest).events == []
  {
    UnknownTagStops(3, rest);
  }

  /** Even a close between frames is `UnexpectedEof` from the `read_exact` of
      the tag byte: the loop has no clean end other than an unknown tag. */
  lemma EofBeforeTagCloses()
    ensures Run([]) == Transcript([], [], ClosedByClient, [])
  {
  }

  /** A stream cut off inside a frame (after at least the tag byte) is closed by
      the client: no event for that frame, nothing written for it. */
  lemma TruncatedPingCloses(id: u64, k: nat)
    requires 0 < k < 9
    ensures Run(([PING_TAG] + BE64(id))[..k]) == Transcript([], [], ClosedByClient, [])
  {
    var s := ([PING_TAG] + BE64(id))[..k];
    assert s[0] == PING_TAG;
    assert |s[1..]| < 8;
  }

  lemma TruncatedMessageCloses(id: u64, msg: seq<byte>, k: nat)
    requires |msg| < U64_LIMIT
    requires 0 < k < 17 + |msg|
    ensures Run(([MESSAGE_TAG] + BE64(id) + BE64(|msg|) + msg)[..k]) == Transcript([], [], ClosedByClient, [])
  {
    var f := [MESSAGE_TAG] + BE64(id) + BE64(|msg|) + msg;
    var s := f[..k];
    assert s[0] == MESSAGE_TAG;
    if k >= 17 {
      var t := s[1..];
      assert t[8..16] == f[9..17] == BE64(|msg|) + [];
      FromBE64OfBE64(|msg|, []);
      assert |t[16..]| < |msg|;
    }
  }
}
