# somechatthing protocol core in Dafny

A model of the protocol logic of a small chat system: clients that identify
themselves by a 64-bit id, ping a server and send it one-way text messages over
one TCP connection. Three pieces are modelled, and their two wire layouts are
kept apart:

- **Codec** (`server/src/codec.rs`): the incremental decoder `MsgDecoder::decode`
  over a `BytesMut` buffer. Its layout: `1` is a ping; `2`, an 8-byte big-endian
  length `L` and `L` bytes is a `Send`; any other leading byte is
  `MalformedInput`; an incomplete frame is "need more data" and consumes
  nothing. `Decode` is a method over a `BytesMut` class whose `data` it
  consumes in place, proved equal to the pure `DecodeSpec`. The running
  server does not declare this module, so nothing else uses it.
- **Server** (`server/src/main.rs`): the per-connection frame loop
  `future::loop_fn(stream, handle_frame)` that the server really runs. Its
  layout: tag `1`, 8-byte id, answered with the byte `1`; tag `2`, 8-byte id,
  8-byte length, that many bytes, not answered; any other tag ends the loop.
  Without tokio the loop turns the input byte sequence into a `Transcript`:
  the logged events (`PingFrom(id)`, `Message(id, bytes)`), the bytes written
  back, the reason the loop ended (`UnknownTag(t)` or `ClosedByClient`), and
  the bytes never read. `Serve` is the loop, a method over the remaining
  stream, proved equal to the recursive function `Run`.
- **Client** (`client/src/main.rs`): the frame builders `ping` and `send`, the
  `splitn(2, ' ')` command dispatch of the send loop, the send loop itself
  over a sequence of line reads, and the byte classification of
  `recv_loop_inner`.
- **EndToEnd** joins them. It shows that the client's frames are exactly the
  server loop's grammar: a whole client session fed to `Run` yields the
  operator's pings and messages under the client's id, in order, with one
  pong per ping. It also shows how the unwired codec misreads a client ping.
- **Bytes** holds big-endian encoding (`to_be_bytes`, `from_be_bytes`) and its
  two round trips. **Wrappers** holds `Option` and `Result`.

Integers are unbounded. Ids and lengths read from the wire have the subset
type `u64`. A command line is its UTF-8 bytes. The space byte 32 never occurs
inside a multi-byte UTF-8 character, so splitting the bytes at the first 32 is
the same as splitting the text at the first space.

Facts about the code that shape the model:
- There is no handshake. The client never sends a bare 8-byte id after
  connecting. The id travels inside every ping and send frame.
- There is no connection registry and no session state machine.
- A ping on the wire is `1` followed by the 8-byte id. Only the unwired
  `codec.rs` reads a bare `1`.
- The server does not tell a clean close from a close in the middle of a
  frame. Every end of input, even between frames, is `UnexpectedEof` from a
  `read_exact` and is reported as "closed by client"
  (`Server.EofBeforeTagCloses`, `Server.TruncatedPingCloses`).
- An unknown tag in the running server ends the loop cleanly (`Loop::Break`).
  It is not an error.

## Model

| member | source | states |
|---|---|---|
| Bytes.FromBE | server/src/main.rs:14 | the big-endian value of k bytes is below 256^k |
| Bytes.ToBE | client/src/main.rs:19 | big-endian encoding into k bytes always has exactly k bytes |
| Bytes.BE64 | client/src/main.rs:79 | `to_be_bytes` gives exactly eight bytes |
| Bytes.FromBE64 | server/src/main.rs:30 | `from_be_bytes` of eight bytes is the u64 whose `to_be_bytes` are exactly those bytes |
| Bytes.FromBEToBE | server/src/main.rs:14 | decoding inverts encoding for every value that fits in k bytes |
| Bytes.ToBEFromBE | server/src/main.rs:14 | encoding inverts decoding: every k-byte string is the encoding of its value |
| Bytes.FromBE64OfBE64 | server/src/main.rs:11-16 | `from_be_bytes(to_be_bytes(n)) == n`, whatever bytes follow |
| Bytes.BE64Injective | client/src/main.rs:79 | distinct ids have distinct 8-byte encodings |
| Codec.DecodeSpec | server/src/codec.rs:49-70 | need-more-data and errors leave the buffer as it was; a decoded message removes a nonempty prefix and keeps the rest in order; Ping iff the first byte is 1; an error iff the first byte is neither 1 nor 2; need-more-data only for an empty buffer or a tag-2 frame whose header or payload is incomplete |
| Codec.Decode | server/src/codec.rs:49-70 | the method's result and the buffer it leaves are exactly those of DecodeSpec on the old buffer |
| Codec.BytesMut.Advance | server/src/codec.rs:64 | advancing by n drops exactly the first n bytes |
| Codec.DecodeEmpty | server/src/codec.rs:68 | an empty buffer is need-more-data and stays empty |
| Codec.DecodePing | server/src/codec.rs:51-54 | a leading 1 is Ping, exactly one byte is removed, all following bytes are kept in order |
| Codec.DecodeMalformed | server/src/codec.rs:67 | a leading byte other than 1 and 2 is MalformedInput with no byte consumed or skipped |
| Codec.DecodeIncompleteSend | server/src/codec.rs:55-63 | tag 2 with fewer than 9 bytes, or with fewer than 9+L bytes, is need-more-data with the buffer unchanged |
| Codec.DecodeCompleteSend | server/src/codec.rs:60-65 | tag 2 with at least 9+L bytes is Send of bytes 9..9+L, and exactly 9+L bytes are consumed |
| Codec.DecodeSendRoundTrip | server/src/codec.rs:55-65 | `[2] ++ be64(len(P)) ++ P ++ rest` decodes to Send(P) and leaves exactly rest, for every P including the empty one |
| Codec.DecodeStableUnderAppend | server/src/codec.rs:49-70 | once a buffer decides a message or an error, bytes arriving later change neither the result nor what was consumed, so chunking cannot change what is decoded |
| Server.ReadU64 | server/src/main.rs:11-16 | `read_u64` fails exactly when fewer than 8 bytes remain, and otherwise consumes exactly 8 |
| Server.ReadU64OfBE64 | server/src/main.rs:11-16 | `read_u64` of `to_be_bytes(id)` returns id and leaves exactly the following bytes |
| Server.HandlePing | server/src/main.rs:18-25 | a completed tag-1 frame logs a ping, writes exactly the byte 1 and consumes input |
| Server.HandleMessage | server/src/main.rs:27-42 | a completed tag-2 frame logs a message, writes nothing, and consumes exactly 16 header bytes plus the message |
| Server.HandleFrame | server/src/main.rs:61-73 | an unknown tag breaks with nothing more read, tags 1 and 2 continue or hit end of input, a continuing frame leaves a proper suffix, and a pong is written iff the frame was a ping |
| Server.Run | server/src/main.rs:61-73 | the bytes written are exactly one 1 per ping processed; at end of input everything was read; the unread bytes are a suffix of the input |
| Server.Serve | server/src/main.rs:87 | the `loop_fn` loop yields exactly the transcript Run gives for the input |
| Server.PingFrameStep | server/src/main.rs:18-25 | tag 1 plus the id bytes logs PingFrom(id), writes [1] and continues with exactly the following bytes |
| Server.MessageFrameStep | server/src/main.rs:27-42 | tag 2, big-endian id and length and the message log Message(id, msg), write nothing and continue with exactly the following bytes |
| Server.UnknownTagStops | server/src/main.rs:64-70 | any tag other than 1 and 2 ends the loop cleanly with no event, nothing written and nothing more read |
| Server.BroadcastTagIsUnknown | server/src/main.rs:64-71 | tag 3, the never-dispatched broadcast, is treated as an unknown tag |
| Server.RunStep | server/src/main.rs:61-73 | proof step: one unfolding of Run by the outcome of `handle_frame`, used as the loop step of Serve and by the end-to-end lemmas (arrival order itself is proved by EndToEnd.SessionAtServer) |
| Server.PongsPrepend | server/src/main.rs:22 | proof step behind Run's one-pong-per-ping ensures: a frame's reply followed by one pong per later ping is one pong per ping of all the frames |
| Server.EofBeforeTagCloses | server/src/main.rs:62 | input ending between frames is also reported as closed by the client |
| Server.TruncatedPingCloses | server/src/main.rs:11-25 | a ping frame cut off after its tag ends the connection as closed by the client, with no event and nothing written |
| Server.TruncatedMessageCloses | server/src/main.rs:27-35 | a message frame cut off anywhere after its tag ends the connection as closed by the client, with no event and nothing written |
| Client.PingFrame | client/src/main.rs:9-13 | `ping` is 9 bytes: the tag 1, then 8 bytes whose big-endian value is the id |
| Client.SendFrame | client/src/main.rs:18-29 | `send` is tag 2, the big-endian id, a big-endian length equal to the number of bytes that follow, then exactly the message |
| Client.SplitOnce | client/src/main.rs:89 | without a space the whole line is the name and there is no remainder; otherwise line = name ++ " " ++ remainder with no space in the name |
| Client.SplitAtFirstSpace | client/src/main.rs:89 | only the first space splits: the remainder is kept whole, spaces included |
| Client.NoSpaceNoSplit | client/src/main.rs:89 | a line without a space is all command name |
| Client.Dispatch | client/src/main.rs:89-93 | ping iff the line is exactly `ping`; refused iff it starts with `ping `; send iff it is `send` (empty text) or starts with `send ` (the whole rest as text) |
| Client.Transmit | client/src/main.rs:89-93 | a refused ping or an unrecognised command writes nothing; ping and send write their frames |
| Client.SendLoop | client/src/main.rs:85-99 | the send loop writes exactly the frames of its lines, in order, stopping at an input error or end of input |
| Client.DispatchSendText | client/src/main.rs:92 | `send a b` sends `a b` |
| Client.DispatchBareSend | client/src/main.rs:92 | bare `send` sends an empty message |
| Client.DispatchBarePing | client/src/main.rs:90 | bare `ping` pings |
| Client.DispatchPingWithRest | client/src/main.rs:91 | `ping` followed by a space and any remainder, even an empty one, is refused and sends nothing |
| Client.DispatchUnknown | client/src/main.rs:93 | an unrecognised command name is reported and sends nothing |
| Client.Classify | client/src/main.rs:39-42 | a received byte is a pong iff it is 1; every other byte is unknown data |
| EndToEnd.PingReachesServer | client/src/main.rs:9-13 | the bytes of `ping(id)` make the server log PingFrom(id) and write one byte 1, then go on with what follows |
| EndToEnd.SendReachesServer | client/src/main.rs:18-29 | the bytes of `send(id, m)` make the server log Message(id, m) and write nothing, then go on with what follows |
| EndToEnd.SessionAtServer | client/src/main.rs:85-99 | a whole client session fed to the server loop logs exactly the requested pings and messages, in order and all under the client's id; one pong per ping is written; once the client's connection closes, the loop ends as closed by the client having read everything |
| EndToEnd.RepliesAreSeenAsPongs | client/src/main.rs:39-42 | every byte the server writes back is reported as a pong by the client |
| EndToEnd.PingScenario | client/src/main.rs:90 | client 42 typing `ping`: the server logs PingFrom(42), writes [1], and the client reports a pong |
| EndToEnd.SendScenario | client/src/main.rs:92 | `send hello world` makes the server log Message(id, "hello world") and write nothing |
| EndToEnd.CodecMisreadsClientPing | server/src/codec.rs:51-54 | for every id the codec reads the client's ping as a bare Ping and leaves the id bytes; for ids below 2^56 the next byte is then MalformedInput |

## Left out

- Server `main` (server/src/main.rs:75-104): the actix service, binding, peer addresses and logging are I/O plumbing. The futures are modelled only as the reads and writes they perform. Write failures are not modelled: every write succeeds.
- Two ways the server's frame loop can end are not represented by `Server.Termination`: a read error other than end of input inside any `read_exact` (server/src/main.rs:12, 28, 33, 62), such as a connection reset, which main.rs:94 prints as that error rather than "closed by client"; and the panic of `stream.peer_addr().unwrap()` in the unknown-tag branch (server/src/main.rs:68) when the peer address cannot be read. The input is modelled as the bytes that arrive before a clean close, so neither can occur in the model.
- The `Display`, `Error::source` and `From` impls of `DecodeError` and its `Tokio(io::Error)` variant (server/src/codec.rs:20-42) are trivial wrappers over foreign types.
- `handle_broadcast` (server/src/main.rs:44-59) is never dispatched. Only the fact that tag 3 is an unknown tag is modelled.
- Machine widths: `length as usize`, the addition `9 + length` (server/src/codec.rs:57-60) and `len as usize` (server/src/main.rs:33) are unbounded naturals here. Overflow and the allocation of an attacker-sized buffer are not modelled.
- Client `main` I/O: choosing the address from `SCT_ADDR`, the rustyline and stdin front-ends, `TcpStream::connect`, the prompts and the id prompt loop with `str::parse::<u64>`. The parser cannot be seen, so the id is a parameter. Socket write errors (the `?` after `ping` and `send`) are not modelled.
- The concurrent receive thread (client/src/main.rs:83-84, 116-117) is modelled only through `Classify`, one byte at a time.
- EndToEnd.SessionAtServer: the stream it feeds to the server is the bytes the send loop writes before the client's connection closes, and that close is not something the client does by itself. When the send loop ends (client/src/main.rs:96, 98 and 128), `crossbeam::scope` (:83-102, :116-133) joins the receive thread, whose `loop { recv_loop_inner(&conn); }` (:84, :117) stays blocked in `read_exact` (:37) because the server, itself blocked reading the next tag (server/src/main.rs:62), never writes or closes. The connection therefore closes, and the server reaches "closed by client", only when the client process is ended from outside.
- Client.SendLoop: lines longer than 2^64 - 1 bytes are excluded by `LinesFit`. The cast `msg.len() as u64` cannot truncate on a real machine.
- The codec's use by tokio's `Framed` driver (calling `decode` again as bytes arrive) is not in the source. Chunk-independence is stated for one call, by `Codec.DecodeStableUnderAppend`.
