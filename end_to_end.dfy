/** Properties that join the client of client/src/main.rs to the frame loop of
    server/src/main.rs: the client's frames are exactly the server's grammar.
    Also how the unwired decoder of server/src/codec.rs reads the same bytes. */
module EndToEnd {
  import opened Wrappers
  import opened Bytes
  import Codec
  import Server
  import Client

  /** What the server should log for a client session: one event per ping or
      send line, each attributed to the session's id, up to the first input
      error. */
  function ExpectedEvents(id: u64, lines: seq<Client.LineRead>): (es: seq<Server.Event>)
    ensures forall i :: 0 <= i < |es| ==> es[i].id == id
  {
    if lines == [] then []
    else match lines[0]
      case ReadError => []
      case Line(text) =>
        var rest := ExpectedEvents(id, lines[1..]);
        match Client.Dispatch(text)
        case PingCmd => [Server.PingFrom(id)] + rest
        case SendCmd(msg) => [Server.Message(id, msg)] + rest
        case PingWithArgument => rest
        case Unrecognized(_) => rest
  }

  /** The bytes of `ping(id)`, whatever follows, are one tag-1 frame for the
      server: the ping is attributed to `id` and answered with one byte 1. */
  lemma PingReachesServer(id: u64, more: seq<byte>)
    ensures Server.Run(Client.PingFrame(id) + more)
              == Server.Prepend([Server.PingFrom(id)], [Server.PONG], Server.Run(more))
  {
    Server.PingFrameStep(id, more);
    Server.RunStep(Client.PingFrame(id) + more);
  }

  /** The bytes of `send(id, m)`, whatever follows, are one tag-2 frame for the
      server: the message `m` is attributed to `id` and nothing is written. */
  lemma SendReachesServer(id: u64, msg: seq<byte>, more: seq<byte>)
    requires |msg| < U64_LIMIT
    ensures Server.Run(Client.SendFrame(id, msg) + more)
              == Server.Prepend([Server.Message(id, msg)], [], Server.Run(more))
  {
    Server.MessageFrameStep(id, msg, more);
    Server.RunStep(Client.SendFrame(id, msg) + more);
  }

  /** A whole client session, fed to the server: the server logs exactly the
      pings and messages the operator's lines asked for, in order and all under
      the client's id, answers each ping with one byte 1 and nothing else, and
      ends when the client closes the connection, having read every byte. */
  lemma {:induction false} SessionAtServer(id: u64, lines: seq<Client.LineRead>)
    requires Client.LinesFit(lines)
    ensures var t := Server.Run(Client.Wire(id, lines));
            && t.events == ExpectedEvents(id, lines)
            && t.output == Server.Pongs(Server.PingCount(t.events))
            && t.end == Server.ClosedByClient
            && t.unread == []
  {
    if lines != [] && lines[0].Line? {
      var text := lines[0].text;
      var tail := lines[1..];
      assert Client.LinesFit(tail) by {
        forall i | 0 <= i < |tail| && tail[i].Line? ensures |tail[i].text| < U64_LIMIT {
          assert tail[i] == lines[i + 1];
        }
      }
      SessionAtServer(id, tail);
      var w := Client.Wire(id, tail);
      match Client.Dispatch(text)
      case PingCmd =>
        PingReachesServer(id, w);
      case SendCmd(msg) =>
        SendReachesServer(id, msg, w);
      case PingWithArgument =>
        assert Client.Wire(id, lines) == w;
      case Unrecognized(_) =>
        assert Client.Wire(id, lines) == w;
    }
  }

  /** Every byte the server writes back is reported by the client's receive
      loop as a pong. */
  lemma RepliesAreSeenAsPongs(stream: seq<byte>)
    ensures forall i :: 0 <= i < |Server.Run(stream).output| ==> Client.Classify(Server.Run(stream).output[i]) == Client.Pong
  {
  }

  /** The scenario of a client with id 42 typing `ping`: the server attributes
      the ping to 42 and writes the byte 1, which the client reports as a pong. */
  lemma PingScenario()
    ensures var t := Server.Run(Client.Wire(42, [Client.Line(Client.PING_WORD)]));
            t.events == [Server.PingFrom(42)] && t.output == [1] && Client.Classify(t.output[0]) == Client.Pong
  {
    var lines := [Client.Line(Client.PING_WORD)];
    Client.DispatchBarePing();
    SessionAtServer(42, lines);
    assert ExpectedEvents(42, lines) == [Server.PingFrom(42)];
  }

  /** The scenario `send hello world`: the server logs the whole text
      `hello world` under the client's id and writes nothing back. */
  lemma SendScenario(id: u64)
    ensures var hello := [104, 101, 108, 108, 111, 32, 119, 111, 114, 108, 100];
            var t := Server.Run(Client.Wire(id, [Client.Line(Client.SEND_WORD + [Client.SPACE] + hello)]));
            t.events == [Server.Message(id, hello)] && t.output == []
  {
    var hello: seq<byte> := [104, 101, 108, 108, 111, 32, 119, 111, 114, 108, 100];
    var lines := [Client.Line(Client.SEND_WORD + [Client.SPACE] + hello)];
    Client.DispatchSendText(hello);
    SessionAtServer(id, lines);
    assert ExpectedEvents(id, lines) == [Server.Message(id, hello)];
  }

  /** The two layouts differ: the unwired decoder of server/src/codec.rs reads
      the client's ping frame, for every id, as a bare Ping and leaves the eight
      id bytes behind; for an id below 2^56 the next byte, 0, is then
      malformed input. */
  lemma CodecMisreadsClientPing(id: u64)
    ensures Codec.DecodeSpec(Client.PingFrame(id)) == Codec.Decoding(Success(Some(Codec.Ping)), BE64(id))
    ensures id < Pow256(7) ==> Codec.DecodeSpec(BE64(id)) == Codec.Decoding(Failure(Codec.MalformedInput), BE64(id))
  {
    assert Client.PingFrame(id) == [Codec.PING_TAG] + BE64(id);
    Codec.DecodePing(BE64(id));
    if id < Pow256(7) {
      LeadingByteOfSmall(id, 7);
    }
  }

  /** A value below 256^k has a zero first byte in its (k+1)-byte encoding. */
  lemma {:induction false} LeadingByteOfSmall(n: nat, k: nat)
    requires n < Pow256(k)
    ensures ToBE(n, k + 1)[0] == 0
  {
    if k == 0 {
      assert ToBE(n, 1) == ToBE(0, 0) + [0];
    } else {
      assert n / 256 < Pow256(k - 1);
      LeadingByteOfSmall(n / 256, k - 1);
    }
  }
}
