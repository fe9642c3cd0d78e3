/** The client of client/src/main.rs: the frame builders `ping` and `send`,
    the per-line command dispatch of the send loop, and the byte
    classification of `recv_loop_inner`. A command line is taken as its UTF-8
    bytes; the space byte 32 never occurs inside a multi-byte UTF-8 sequence,
    so splitting the bytes at the first 32 is splitting the text at the first
    space. The frames use the tags of the server's frame loop (module Server),
    the one layout client and server share. */
module Client {
  import opened Wrappers
  import opened Bytes
  import Server
  const SPACE: byte := 32
  /** The command names "ping" and "send" in ASCII. */
  const PING_WORD: seq<byte> := [112, 105, 110, 103]
  const SEND_WORD: seq<byte> := [115, 101, 110, 100]

  /** `ping`: the tag 1 and the eight big-endian id bytes, nine bytes in all. */
  function PingFrame(id: u64): (f: seq<byte>)
    ensures |f| == 9 && f[0] == Server.PING_TAG
    ensures FromBE64(f[1..]) == id
  {
    var f := [Server.PING_TAG] + BE64(id);
    FromBE64OfBE64(id, []);
    assert f[1..] == BE64(id) + [];
    f
  }

  /** `send`: tag 2, the big-endian id, the big-endian byte length of the
      message (`msg.len() as u64`), then the message bytes. */
  function SendFrame(id: u64, msg: seq<byte>): (f: seq<byte>)
    requires |msg| < U64_LIMIT
    ensures |f| == 17 + |msg| && f[0] == Server.MESSAGE_TAG
    ensures FromBE64(f[1..9]) == id
    // the length field counts exactly the bytes that follow it
    ensures FromBE64(f[9..17]) == |f| - 17 && f[17..] == msg
  {
    var f := [Server.MESSAGE_TAG] + BE64(id) + BE64(|msg|) + msg;
    FromBE64OfBE64(id, []);
    FromBE64OfBE64(|msg|, []);
    assert f[1..9] == BE64(id) + [];
    assert f[9..17] == BE64(|msg|) + [];
    f
  }

  /** The command name and the optional remainder of a line:
      `splitn(2, ' ')` followed by two calls of `next()`. */
  datatype Split = Split(name: seq<byte>, rest: Option<seq<byte>>)

  /** Split at the first space only; without a space there is no remainder. */
  function SplitOnce(line: seq<byte>): (r: Split)
    ensures r.rest.None? ==> r.name == line && SPACE !in line
    ensures r.rest.Some? ==> line == r.name + [SPACE] + r.rest.value && SPACE !in r.name
  {
    if line == [] then Split([], None)
    else if line[0] == SPACE then Split([], Some(line[1..]))
    else
      var r := SplitOnce(line[1..]);
      Split([line[0]] + r.name, r.rest)
  }

  /** What the send loop decides for one line. */
  datatype Command =
    | PingCmd                     // send a ping
    | SendCmd(text: seq<byte>)    // send a message
    | PingWithArgument            // "ping doesn't take any arguments"; nothing sent
    | Unrecognized(name: seq<byte>) // "Unrecognized command"; nothing sent

  /** The match on the split line (both front-ends dispatch alike). */
  function Dispatch(line: seq<byte>): (c: Command)
    // only the bare word `ping` pings
    ensures c == PingCmd <==> line == PING_WORD
    // `ping` and a space, with any remainder, is refused
    ensures c == PingWithArgument <==> |line| >= 5 && line[..5] == PING_WORD + [SPACE]
    // `send` alone sends nothing; `send` and a space send the whole remainder
    ensures c.SendCmd? <==> line == SEND_WORD || (|line| >= 5 && line[..5] == SEND_WORD + [SPACE])
    ensures c.SendCmd? ==> (line == SEND_WORD && c.text == []) || line == SEND_WORD + [SPACE] + c.text
  {
    var sp := SplitOnce(line);
    assert |line| >= 5 && line[..5] in {PING_WORD + [SPACE], SEND_WORD + [SPACE]} ==> sp.name == line[..4] by {
      if |line| >= 5 && line[..5] in {PING_WORD + [SPACE], SEND_WORD + [SPACE]} {
        assert line == line[..4] + [SPACE] + line[5..];
        SplitAtFirstSpace(line[..4], line[5..]);
      }
    }
    if sp.name == PING_WORD then
      if sp.rest.None? then PingCmd else PingWithArgument
    else if sp.name == SEND_WORD then SendCmd(sp.rest.GetOr([]))
    else Unrecognized(sp.name)
  }

  /** The bytes a command writes to the connection. */
  function Transmit(id: u64, c: Command): (w: seq<byte>)
    requires c.SendCmd? ==> |c.text| < U64_LIMIT
    ensures (c.PingWithArgument? || c.Unrecognized?) <==> w == []
  {
    match c
    case PingCmd => PingFrame(id)
    case SendCmd(text) => SendFrame(id, text)
    case PingWithArgument => []
    case Unrecognized(_) => []
  }

  /** One read of the operator's input: a line, or an I/O error. The end of
      the input is the end of the sequence of reads. */
  datatype LineRead = Line(text: seq<byte>) | ReadError

  /** No line is too long for its length to fit in the u64 length field. */
  predicate LinesFit(lines: seq<LineRead>) {
    forall i :: 0 <= i < |lines| && lines[i].Line? ==> |lines[i].text| < U64_LIMIT
  }

  /** Everything the send loop writes for a sequence of reads: one frame per
      ping or send line, until an input error or the end of input. */
  function Wire(id: u64, lines: seq<LineRead>): seq<byte>
    requires LinesFit(lines)
  {
    if lines == [] then []
    else match lines[0]
      case ReadError => []
      case Line(text) => Transmit(id, Dispatch(text)) + Wire(id, lines[1..])
  }

  /** The send loop (lines 85-99 and 118-131): read a line, dispatch it, write
      its frame; stop at an input error or at the end of input. */
  method SendLoop(id: u64, lines: seq<LineRead>) returns (wire: seq<byte>)
    requires LinesFit(lines)
    ensures wire == Wire(id, lines)
  {
    wire := [];
    var i := 0;
    while i < |lines|
      invariant 0 <= i <= |lines|
      invariant LinesFit(lines[i..])
      invariant Wire(id, lines) == wire + Wire(id, lines[i..])
    {
      match lines[i]
      case ReadError =>
        assert Wire(id, lines[i..]) == [];
        assert wire + [] == wire;
        return;
      case Line(text) =>
        assert lines[i..][1..] == lines[i + 1..];
        wire := wire + Transmit(id, Dispatch(text));
        i := i + 1;
    }
    assert lines[i..] == [];
    assert wire + [] == wire;
  }

  /** What `recv_loop_inner` reports for a received byte. */
  datatype Received = Pong | UnknownData

  function Classify(b: byte): (r: Received)
    ensures r == Pong <==> b == 1
  {
    match b
    case 1 => Pong
    case _ => UnknownData
  }

  /** `send a b` sends the whole remainder `a b`: only the first space splits. */
  lemma {:induction false} DispatchSendText(text: seq<byte>)
    ensures Dispatch(SEND_WORD + [SPACE] + text) == SendCmd(text)
  {
    SplitAtFirstSpace(SEND_WORD, text);
  }

  /** A bare `send` sends an empty message. */
  lemma DispatchBareSend()
    ensures Dispatch(SEND_WORD) == SendCmd([])
  {
    assert SPACE !in SEND_WORD;
    NoSpaceNoSplit(SEND_WORD);
  }

  /** A bare `ping` pings. */
  lemma DispatchBarePing()
    ensures Dispatch(PING_WORD) == PingCmd
  {
    NoSpaceNoSplit(PING_WORD);
  }

  /** `ping` followed by a space and anything, even nothing, is refused
      locally and sends nothing. */
  lemma {:induction false} DispatchPingWithRest(id: u64, rest: seq<byte>)
    ensures Dispatch(PING_WORD + [SPACE] + rest) == PingWithArgument
    ensures Transmit(id, Dispatch(PING_WORD + [SPACE] + rest)) == []
  {
    SplitAtFirstSpace(PING_WORD, rest);
  }

  /** A command name other than `ping` and `send` sends nothing. */
  lemma DispatchUnknown(id: u64, line: seq<byte>)
    requires SplitOnce(line).name != PING_WORD && SplitOnce(line).name != SEND_WORD
    ensures Dispatch(line) == Unrecognized(SplitOnce(line).name)
    ensures Transmit(id, Dispatch(line)) == []
  {
  }

  /** SplitOnce splits at the first space: for a name without spaces, the
      remainder after the space is returned whole, spaces and all. */
  lemma {:induction false} SplitAtFirstSpace(name: seq<byte>, rest: seq<byte>)
    requires SPACE !in name
    ensures SplitOnce(name + [SPACE] + rest) == Split(name, Some(rest))
  {
    var line := name + [SPACE] + rest;
    if name == [] {
      assert line[0] == SPACE && line[1..] == rest;
    } else {
      assert line[0] == name[0] && line[1..] == name[1..] + [SPACE] + rest;
      SplitAtFirstSpace(name[1..], rest);
      assert [name[0]] + name[1..] == name;
    }
  }

  /** A line without a space is all command name. */
  lemma {:induction false} NoSpaceNoSplit(line: seq<byte>)
    requires SPACE !in line
    ensures SplitOnce(line) == Split(line, None)
  {
    if line != [] {
      NoSpaceNoSplit(line[1..]);
      assert [line[0]] + line[1..] == line;
    }
  }
}
