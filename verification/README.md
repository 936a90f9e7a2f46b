# Verified model of the chat server

A Dafny 4.11 model of a single-threaded chat server in C++ that speaks a length-prefixed TCP protocol, HTTP
and WebSocket, with proofs about it. `dafny verify dfyconfig.toml` checks everything.

The source works by changing objects step by step, so the model does too: `Buffer`, `Sha1`, `WsConnection`,
`WsHub`, `Room`, `Connection`, `UserManager`, `MessageHandler`, `ConnectionManager`, `HttpRequest`,
`HttpConnection`, `HttpResponse`, `TokenStore` are classes whose methods follow the C++ ones. Each is proved
against functions on values, and what the server promises is proved about those functions, for every input,
every run and every reachable state.

| files | what they model |
|---|---|
| `Bytes`, `Kernel`, `Wrappers` | bytes and big-endian numbers; what sockets may answer |
| `Buffer` | the growable byte queue |
| `WsFrame`, `WsFrameLaws` | WebSocket framing and masking |
| `Sha1`, `Sha1Laws`, `Sha1Vectors`, `Base64`, `Handshake` | the handshake arithmetic, what its pieces are, and the digests that the standards print |
| `Streams` | decode loops over any decoder: batches, resumption, pipelining |
| `WsStreams`, `WsServer` | WebSocket sessions, the hub, the room and its fan-out |
| `Packet` | the TCP packet codec |
| `Chat`, `ChatLaws`, `ChatAnswers` | the chat session as a state machine over values, its laws, and what each packet comes to |
| `TcpServer`, `TcpStreams` | the TCP server as it runs, tied to that machine event by event; how it reads |
| `HttpText`, `HttpNames`, `HttpRequest`, `HttpLaws`, `HttpResponse`, `HttpHeaders` | HTTP parsing and serialising, and what header blocks mean |
| `HttpSender`, `HttpConnection` | the sending side as a state machine; pipelined requests in, responses out |
| `WebSession` | tokens, login, logout and posting over HTTP |

Sockets are nondeterministic: a read event delivers some bytes and ends in EAGAIN or in a hang-up, `send` takes
some bytes, or would block, or fails; the send loops are determined by those answers (`Kernel.SendLoop`). A
`recv` into no space, which only the TCP server can ask for, says 0 or EAGAIN. JSON parsing and printing,
`std::stoul` and the route handlers are arbitrary functions of their inputs; clock readings are parameters.

## Main results

- Bytes: the `Buffer` class is a plain byte sequence on every path, with a bound on its capacity; the WebSocket
  and HTTP decode loops give the same items, verdict and left-over bytes for every cut of their streams, the TCP
  loop exactly under a stated condition; frames, packets, requests, responses, base64 and query strings are
  inverted by their readers.
- Handshake: incremental SHA-1 equals the one-shot definition for every chunking; that definition gives the digests
  printed in RFC 3174 and RFC 6455, and the server the accept key (`Sha1Vectors.SampleAccepted`).
- Chat: after every event of every run users and authenticated connections are in bijection, and every
  logged-in client was last sent exactly the current user list; departures are announced exactly once; a timer
  tick closes exactly the idle connections in any order of iteration, re-entrant callbacks included.
- Fan-out: what a WebSocket client receives is, in order, exactly what was said since it joined, over whichever
  connection it was said; end to end, from the bytes of one client to the frames of the others
  (`WsServer.FanOut`, `WsServer.Relay`).
- Pipelining: requests are handled and answered one by one, in order, and the client reads back one response for
  each (`HttpConnections.RequestsArrive`, `HttpConnections.ClientIsAnswered`).
- Writing: if the kernel goes on taking bytes, everything queued is sent and a due close happens.
- Web sessions: live tokens and room users are in bijection; logout revokes the token it authenticated with.

## Where the code does not do what one might expect

Each of these is proved, with the exact condition under which the expected behaviour holds and, after the
semicolon, with a concrete input or run that fails.

- What a peer sends in one batch with its hang-up is never decoded (`Streams.HangUpLosesBatch`;
  `WsServer.FrameLostToHangUp`, `HttpConnections.RequestLostToHangUp`).
- The TCP read buffer never grows or compacts, so a connection takes in 1024 bytes in all: then it reads nothing
  more, and is closed if `recv` without room says 0. Packets behind a LOGOUT are handled only if they came in its
  batch (`TcpStreams.SegmentationExactly`; `TcpStreams.PingBeforeMuch`, `TcpStreams.PingAfterLogout`).
- A connection that logs in again behind its own LOGOUT, in one batch, becomes a user whom no timer closes
  (`ChatLaws.ReachableExactly`; `ChatLaws.BeyondTheTimer`, `ChatLaws.StrandedForever`).
- A packet body of 65536 bytes or more is encoded, but its receiver takes the stream for malformed, and hears
  nothing from there on (`Packets.DecodeEncode`, `TcpStreams.ClientHears`; `Packets.LongIsMalformed`). From 2^32 - 1
  bytes on, encoding writes past the end of its vector (`Packets.EncodePacket`).
- A WebSocket length so near to 2^64 that the end of the frame does not fit 64 bits makes `tryDecode` throw
  (`WsFrame.TryDecode`; `WsFrameLaws.AnOverflow`).
- A malformed HTTP request is neither answered nor skipped: it and everything behind it waits for ever
  (`HttpLaws.CompletableExactly`, `HttpConnections.RequestsArrive`, `HttpConnections.AllHandledExactly`;
  `HttpConnections.OopsBlocks`).
- `HttpConnection::send` consults a flag that is never reset: after a keep-alive response has been sent
  completely, the next response is not sent (`HttpSenders.NeverStallsExactly`; `HttpSenders.SecondStalls`). The
  server itself never sends a keep-alive response, `setKeepAlive` being called only in a unit test, and as it is
  wired no wakeup is lost (`HttpSenders.AsWired`, `HttpConnections.WakeupsOf`).
- A counter of tokens that wraps around can take a token from its user (`WebSession.LoginExactly`,
  `WebSession.AlwaysPairedExactly`; `WebSession.TokenTaken`).

The comment at src/server/ws_connection.cpp:90 announces an acknowledgement with code 1000; the code sends an
empty CLOSE frame, and so does the model.

## Model

| member | source | states |
|---|---|---|
| `Buffers.Buffer.Append` | src/common/buffer.cpp:5-10 | the readable bytes become the old ones followed by the new ones, on the in-place, compacting and growing paths; storage grows only if readable plus incoming exceeds the capacity |
| `Buffers.Buffer.Consume` | src/common/buffer.cpp:24-27 | drops the first `len` readable bytes, or all of them if there are fewer |
| `Buffers.Buffer.RetrieveAll` | src/common/buffer.cpp:29-33 | hands out exactly the readable bytes and leaves none |
| `Buffers.Buffer.ReceiveInto` | src/common/buffer.cpp:35-45 | a direct write within the writable tail appends, and uses that tail up |
| `Buffers.Buffer.MakeSpace` | src/common/buffer.cpp:52-69 | afterwards `len` bytes are writable and the readable bytes are the same; with the class invariant, capacity is always 1024 times a power of two and at most the larger of 1024 and four times the peak of readable plus incoming |
| `Buffers.Buffer.GrownCapacity` | src/common/buffer.cpp:66-67 | the doubling loop ends, at a doubling of the capacity with room for `len`, and not twice as large as needed |
| `Buffers.Buffer.MoveDown` | src/common/buffer.cpp:59 | the overlapping move of compaction copies the old bytes, not bytes already overwritten |
| `WsFrame.TryDecode` | src/server/ws_frame.cpp:20-84 | computes `Decode`, the verdict that the laws below characterise, or throws: exactly if the announced end of the frame does not fit 64 bits and what is left of it when it wraps is already there |
| `WsFrame.Unmask` | src/server/ws_frame.cpp:78-81 | each byte is the exclusive or with the key byte at its index modulo 4 |
| `Bytes.XorIsBitwise` | src/server/ws_frame.cpp:80 | every bit of the exclusive or of two bytes is the sum, without carry, of their bits |
| `WsFrameLaws.PayloadBits` | src/server/ws_frame.cpp:60-81 | so every bit of a decoded payload is the sum of that bit on the wire and of the key byte whose turn it is; the key is the four bytes before the payload |
| `WsFrame.EncodeFrame` | src/server/ws_frame.cpp:94-120 | computes `Encode`, for the three forms of the length |
| `WsFrameLaws.DecodeIffWire` | src/server/ws_frame.cpp:20-84 | a frame is decoded from some bytes if and only if they start with one of the wire forms of that frame, laid out as the RFC draws it |
| `WsFrameLaws.HelloReceived` | src/server/ws_frame.cpp:20-84 | the masked frames of section 5.7, byte for byte |
| `WsFrameLaws.FragmentsReceived` | src/server/ws_frame.cpp:29-38 | a text in two fragments: FIN and opcode of each |
| `WsFrameLaws.HelloSent` | src/server/ws_frame.cpp:94-113 | the unmasked frames of section 5.7, byte for byte |
| `WsFrameLaws.LongHeader` | src/server/ws_frame.cpp:99-103 | the header of 256 bytes |
| `WsFrameLaws.LongestHeader` | src/server/ws_frame.cpp:104-110 | the header of 64 KiB |
| `WsFrameLaws.CompletableExactly` | src/server/ws_frame.cpp:25-71 | when the decoder asks for more: a frame can still arrive exactly if the reserved bits and the mask bit received so far are right |
| `WsFrameLaws.AnOverflow` | src/server/ws_frame.cpp:49-73 | 14 bytes that announce 2^64 - 1 more make it throw |
| `WsFrameLaws.ErrorExactly` | src/server/ws_frame.cpp:25-71 | when the error verdict is given, in terms of the two header bytes: reserved bits at once, a missing mask bit as soon as the length is complete |
| `WsFrameLaws.Refused` | src/server/ws_frame.cpp:33-71 | "Hello" without a mask, and a reserved bit |
| `WsFrameLaws.EncodeMaskDecode` | src/server/ws_frame.cpp:20-120 | for every payload, key and opcode below 16, whatever follows: masking an encoded frame as a client does and decoding it gives FIN, that opcode, that payload and consumes exactly that frame |
| `WsFrameLaws.EncodeIsWire` | src/server/ws_frame.cpp:94-113 | the encoder writes the shortest of the three length forms |
| `WsFrameLaws.MaskTwice` | src/server/ws_frame.cpp:79-81 | masking is its own inverse |
| `WsFrameLaws.VerdictIsStable` | src/server/ws_frame.cpp:20-84 | a success or error verdict is unchanged by bytes that follow |
| `WsFrameLaws.ProperPrefixNeedsMore` | src/server/ws_frame.cpp:25-73 | every proper prefix of an accepted frame needs more |
| `WsFrameLaws.DecodedSize` | src/server/ws_frame.cpp:42-83 | an accepted client frame takes at least 6 bytes and no more than there are, so the decode loop ends |
| `Sha1s.Sha1.ProcessBlock` | src/server/ws_handshake.cpp:44-89 | adds one block: the chaining value becomes the compression of the old one with the block |
| `Sha1Laws.RoundConstants` | src/server/ws_handshake.cpp:66-78 | the constant of each round is 2^30 times the square root of 2, 3, 5 or 10, rounded down, said by squaring |
| `Sha1Laws.InitialBytes` | src/server/ws_handshake.cpp:31-35 | the bytes of the initial words |
| `Sha1Laws.ChooseBits` | src/server/ws_handshake.cpp:67 | where `b` has ones, the function of the first rounds is `c`; where it has zeros, `d` |
| `Sha1Laws.MajorityBits` | src/server/ws_handshake.cpp:73 | wherever two of the three agree, it is what they are |
| `Sha1Laws.ParityBits` | src/server/ws_handshake.cpp:70 | where two agree it is the third, where they differ its complement |
| `Sha1Laws.Rotations` | src/server/ws_handshake.cpp:40-42 | the shifts are rotations by 1, 5 and 30 |
| `Sha1Laws.WordPositions` | src/server/ws_handshake.cpp:48-53 | the bytes of a block stand in its words from the most significant on |
| `Sha1Laws.BytePositions` | src/server/ws_handshake.cpp:146-151 | and so do the bytes of the digest in its words |
| `Sha1s.Sha1.Update` | src/server/ws_handshake.cpp:91-121 | the message absorbed becomes the old one followed by the data, with fewer than 64 bytes kept back, for every length |
| `Sha1s.Sha1.Final` | src/server/ws_handshake.cpp:123-152 | returns the digest of everything absorbed, with one or two final blocks |
| `Sha1s.HashPieces` | src/server/ws_handshake.cpp:91-152 | any cutting of a message into `update` calls gives the digest of the whole message |
| `Sha1Vectors.DigestOfAbc` | src/server/ws_handshake.cpp:30-152 | the digest of "abc", as RFC 3174 section 7.3 prints it |
| `Sha1Vectors.DigestOfSample` | src/server/ws_handshake.cpp:200-205 | the digest of the sample key of RFC 6455 section 1.3 and the GUID, two blocks |
| `Sha1s.PadInjective` | src/server/ws_handshake.cpp:124-140 | different messages (below 2^61 bytes) have different padded messages |
| `Base64.Base64Encode` | src/server/ws_handshake.cpp:163-194 | the loop computes `Encode`, which the laws below invert |
| `Base64.DecodeEncode` | src/server/ws_handshake.cpp:163-194 | a decoder that follows the RFC recovers every input |
| `Base64.DecodeIffEncode` | src/server/ws_handshake.cpp:163-194 | a text decodes to some bytes if and only if it is their encoding |
| `Base64.Alphabet` | src/server/ws_handshake.cpp:160-161 | the character of each value, range by range |
| `Base64.GroupNumber` | src/server/ws_handshake.cpp:168-175 | four values write the number that three bytes write |
| `Base64.EncodedLength` | src/server/ws_handshake.cpp:165 | the output is 4 times the rounded-up third of the input length |
| `Base64.PaddingExactly` | src/server/ws_handshake.cpp:177-191 | `=` appears exactly as the remainder of the length by 3 demands, at the end |
| `Base64.DigestShape` | src/server/ws_handshake.cpp:200-210 | every 20-byte digest encodes to 28 characters of which only the last is `=` |
| `Handshake.ComputeAcceptKey` | src/server/ws_handshake.cpp:200-210 | the base64 of the digest of key and GUID, of that shape |
| `Sha1Vectors.SampleAccepted` | src/server/ws_handshake.cpp:200-210 | the accept key that RFC 6455 prints for its sample |
| `Streams.DrainAppend` | src/server/ws_connection.cpp:44-58 | decoding a longer stream is decoding its first part and then resuming with the bytes kept |
| `Streams.SegmentationIrrelevant` | src/server/ws_connection.cpp:28-58 | for any decoder with lasting verdicts and any cut into batches: items, verdict and left-over bytes are those of one read of the whole stream |
| `Streams.SameStreamSameSession` | src/server/ws_connection.cpp:28-58 | two cuts of one stream are indistinguishable |
| `Streams.DrainIsComplete` | src/server/ws_connection.cpp:45-58 | a session at rest keeps nothing complete |
| `Streams.HangUpLosesBatch` | src/server/ws_connection.cpp:34-41 | what comes in one batch with the hang-up is not decoded: the items delivered are those of the stream exactly if that batch completes none |
| `Streams.DrainEncoded` | src/protocol/packet.cpp:9-63 | encodings sent back to back come out one by one, whatever follows |
| `Streams.DrainCanonical` | src/protocol/packet.cpp:9-63 | what was taken off a stream, encoded again, is what was used up |
| `WsStreams.SegmentationIrrelevantForWebSocket` | src/server/ws_connection.cpp:28-107 | frames dispatched, open or closed, and left-over bytes do not depend on the cuts |
| `WsServer.FrameLostToHangUp` | src/server/ws_connection.cpp:30-42 | a connection that receives a complete masked frame in one batch with the hang-up does not dispatch it, though it is in its stream |
| `WsServer.WsConnection.OnRead` | src/server/ws_connection.cpp:28-107 | in every state between events: after a batch that ends in EAGAIN the frames dispatched, the bytes kept and the verdict are those of the whole stream so far, the room has got exactly the chat messages in the new ones, the PONGs that the client can read have the payloads of the PINGs in its stream, one by one, and a close is due exactly if a CLOSE was among them; a hang-up closes without decoding |
| `WsServer.WsConnection.Step` | src/server/ws_connection.cpp:45-106 | one turn of the loop keeps that, hands a TEXT frame to the room, and gets nearer to its end |
| `WsServer.WsConnection.AnswerOrClose` | src/server/ws_connection.cpp:69-105 | opcode 9 is answered by one frame with FIN, opcode 10 and its payload; 8 by an empty one of its kind, which makes a close due; 10 by nothing; others close |
| `WsStreams.RepliesMean` | src/server/ws_connection.cpp:69-99 | frames that hold the replies hold a PONG for each PING, in order, with its payload, and an empty CLOSE for each CLOSE |
| `WsStreams.OnlyKnownOpcodes` | src/server/ws_connection.cpp:84-104 | reading goes on behind opcodes 1, 8, 9 and 10 only |
| `WsStreams.ClosesExactly` | src/server/ws_connection.cpp:89-93 | a close is due exactly if a frame with opcode 8 was received |
| `WsServer.WsConnection.OnWrite` | src/server/ws_connection.cpp:113-134 | what is sent is what the kernel takes; sent and pending bytes stay the queued frames; the connection closes exactly on a failed send, or when all is sent and a close is due; a kernel that keeps taking bytes gets all, and a due close happens |
| `Kernel.EverythingSent` | src/server/ws_connection.cpp:115-125 | a send loop whose sends each take something sends everything |
| `Kernel.SendLoopExactly` | src/server/ws_connection.cpp:115-125 | the loop goes on while something is taken and something is left, and then ends in one of three ways, by the next answer |
| `WsServer.WsConnection.SendText` | src/server/ws_connection.cpp:139-147 | queues one TEXT frame on an open connection, nothing on a closed one, and keeps the wakeup invariant |
| `WsServer.WsConnection.SendPing` | src/server/ws_connection.cpp:149-157 | the same for PING |
| `WsServer.WsConnection.Close` | src/server/ws_connection.cpp:162-168 | leaves the hub once; a second close changes nothing |
| `WsServer.WsHub.Adopt` | src/server/ws_hub.cpp:25-59 | a new connection is in the hub and will have heard everything said from now on |
| `WsServer.WsHub.OnText` | src/server/ws_hub.cpp:37-52 | a chat message with content is added to the room with the name of the connection, its room, its content and the time; anything else changes nothing |
| `WsServer.SpokenAre` | src/server/ws_hub.cpp:37-52 | over any list of frames: exactly those with opcode 1 that parse as a chat message with content are spoken, in order, each once, with that name, room, content and time |
| `WsServer.WsHub.Broadcast` | src/server/ws_hub.cpp:69-78 | in any order of iteration every connection is sent the JSON of the message once |
| `WsServer.Room.AddMessage` | src/server/room.cpp:4-15 | the message is added to the history and to the log of all messages, and the hub is told of it |
| `WsServer.Room.HistoryIs` | src/server/room.cpp:6-9 | in every state: the last 200 of all messages ever added, or all of fewer |
| `WsServer.Room.RecentMessages` | src/server/room.cpp:17-24 | the messages later than `since`, in order |
| `WsServer.NewerAre` | src/server/room.cpp:17-24 | exactly those of the history that are later, each as often as it is there, in the same order |
| `WsServer.FanOut` | src/server/ws_hub.cpp:69-82 | in every state of the hub: what a client was sent and will be sent parses as the frames queued for it, whose texts are the JSON of exactly the messages added since it joined, in order |
| `WsServer.Relay` | src/server/ws_connection.cpp:28-107 | end to end: what one client sends becomes, for every client that stays, exactly the JSON of the chat messages in the frames that have become complete, behind what it was sent before |
| `Packets.EncodePacket` | src/protocol/packet.cpp:9-27 | the array filled in place is `Encode`, unless the body does not fit a 32-bit length: exactly then the copy runs past the end |
| `Packets.DecodePacket` | src/protocol/packet.cpp:30-63 | `consumed`, `ok` and the packet are those of `Decode` |
| `Packets.DecodeEncode` | src/protocol/packet.cpp:9-63 | an encoded packet is read back, whatever follows, exactly if its body is shorter than 65536 bytes; otherwise the stream is malformed |
| `Packets.LayoutOf` | src/protocol/packet.cpp:9-26 | four bytes that write the length of type and body, most significant first; the type; the body |
| `Packets.PingBytes` | src/protocol/packet.cpp:9-26 | the five bytes of a PING |
| `Packets.LongIsMalformed` | src/protocol/packet.cpp:45-47 | a body of 65536 bytes is not read back, one of 65535 is |
| `Packets.DecodeIffEncode` | src/protocol/packet.cpp:9-63 | bytes are read as a packet if and only if they start with its encoding |
| `Packets.MalformedExactly` | src/protocol/packet.cpp:33-47 | malformed exactly if the four length bytes are there and write 0 or more than 65536 |
| `Packets.VerdictIsStable` | src/protocol/packet.cpp:30-63 | success and malformed verdicts last |
| `Packets.StreamRoundTrip` | src/protocol/packet.cpp:9-63 | draining the encodings of any list of packets gives those before the first with a long body; all, and nothing more, if there is none |
| `Packets.StreamCanonical` | src/protocol/packet.cpp:30-63 | the packets read off any stream, encoded again, and the rest make up the stream |
| `ChatLaws.RunGood` | src/tcp/message_handler.cpp:9-146 | after every event of every run (any packet on any connection, even a closed one): `users_` is in bijection with the authenticated connections, every logged-in client was last sent exactly the current user list, and only open connections are registered with the timer |
| `ChatLaws.NamesAreUsers` | src/tcp/user_manager.cpp:5-19 | the bijection as one equivalence: a name maps to a connection if and only if that connection is authenticated under it |
| `ChatLaws.CloseDeparts` | src/tcp/message_handler.cpp:140-146 | exactly-once departure: each other user is sent one offline notice and one list without the name, the leaver and everybody else nothing |
| `ChatLaws.LogoutIsClose` | src/tcp/message_handler.cpp:112-118 | LOGOUT, which removes the user before the close that removes it again, has the effect of one close; closing again changes nothing |
| `ChatLaws.LoginJoins` | src/tcp/message_handler.cpp:37-46 | an accepted login gives the name to the connection and tells it and every other user, once |
| `ChatLaws.SayReachesOthers` | src/tcp/message_handler.cpp:49-69 | a chat message reaches every other user once and nobody else |
| `ChatLaws.ConfideReachesOne` | src/tcp/message_handler.cpp:71-98 | a private message reaches the connection authenticated under that name and nobody else |
| `ChatAnswers.StrangersRefused` | src/tcp/message_handler.cpp:49-75 | type 3 or 6 on a connection that is not logged in: one refusal to the sender, and nothing else changes |
| `ChatAnswers.LoginRefused` | src/tcp/message_handler.cpp:21-40 | a login is refused for the first of four reasons that applies: one acknowledgement that names it, and nothing else changes |
| `ChatAnswers.LoginAccepted` | src/tcp/message_handler.cpp:42-46 | otherwise the connection takes the name, is acknowledged, and it and every user hear the news and the list |
| `ChatAnswers.ChatHeard` | src/tcp/message_handler.cpp:55-68 | type 3 with content: every other user hears it, with the name of the sender; nothing else changes |
| `ChatAnswers.WhisperHeard` | src/tcp/message_handler.cpp:77-97 | type 6 to a user: that connection alone hears it, with the name of the sender |
| `ChatAnswers.NobodyOfThatName` | src/tcp/message_handler.cpp:84-88 | type 6 to nobody: one refusal to the sender |
| `ChatAnswers.Answered` | src/tcp/message_handler.cpp:100-110 | type 5 is answered with the current names, type 7 with a PONG, to the sender alone |
| `ChatAnswers.LogoutDeparts` | src/tcp/message_handler.cpp:112-118 | type 9 is a departure, or nothing on a closed connection |
| `ChatAnswers.Ignored` | src/tcp/message_handler.cpp:9-19 | what cannot be parsed, has no content or is of another type changes nothing |
| `ChatLaws.TickExact` | src/tcp/connection_manager.cpp:9-22 | for any order of iteration exactly the connections idle at the one clock reading are closed; users and registrations are the old ones without them; each survivor hears of each departed user once |
| `ChatAnswers.TimedOutExactly` | src/tcp/connection_manager.cpp:9-22 | after a tick exactly those are closed that were, or were registered and silent for longer than the timeout |
| `ChatAnswers.SilentSince` | src/tcp/connection.cpp:26-27 | silence counts from acceptance, or from when bytes were last received or sent |
| `ChatLaws.FarewellsAre` | src/tcp/connection_manager.cpp:19-21 | what survivors hear: per departure one offline notice and the list of those left, so the last list names the survivors |
| `ChatLaws.ReachableExactly` | src/tcp/message_handler.cpp:21-47 | a user stays within reach of the timer exactly if the step is not a login accepted on a closed connection |
| `ChatLaws.BeyondTheTimer` | src/tcp/connection.cpp:39-49 | LOGIN, LOGOUT and LOGIN in one batch lead to a user that no tick will close |
| `ChatLaws.StrandedForever` | src/tcp/connection_manager.cpp:14-21 | such a user survives every tick |
| `TcpServer.UserManager.Remove` | src/tcp/user_manager.cpp:15-19 | removing the first match and breaking removes every match, because there is one at most |
| `TcpServer.UserManager.Usernames` | src/tcp/user_manager.cpp:26-32 | every name once |
| `TcpServer.UserManager.Broadcast` | src/tcp/user_manager.cpp:34-44 | one packet to every user but the excepted one, in any order |
| `TcpServer.MessageHandler.OnPacket` | src/tcp/message_handler.cpp:9-19 | the session changes as `Handle` says, the transition that the laws are about |
| `TcpServer.MessageHandler.HandleLogin` | src/tcp/message_handler.cpp:21-47 | refused for the four reasons in their order, else the transition `Login` |
| `TcpServer.MessageHandler.HandleChat` | src/tcp/message_handler.cpp:49-69 | the transition `Say` |
| `TcpServer.MessageHandler.HandlePrivate` | src/tcp/message_handler.cpp:71-98 | the transition `Confide` |
| `TcpServer.MessageHandler.HandleLogOut` | src/tcp/message_handler.cpp:112-118 | the transition `Logout` |
| `TcpServer.MessageHandler.OnClose` | src/tcp/message_handler.cpp:140-146 | the transition `Depart` |
| `TcpServer.Connection.Close` | src/tcp/connection.cpp:93-100 | callbacks first, state last: the transition `Close`, and reactor and timer table agree again |
| `TcpServer.Connection.Send` | src/tcp/connection.cpp:59-68 | the encoded packet goes behind what is pending, and writability is asked for |
| `TcpServer.Connection.OnRead` | src/tcp/connection.cpp:20-50 | a batch that hangs up closes undecoded, and so does one that fills the 1024 bytes of the buffer, if `recv` without room says 0; otherwise the packets dispatched are those of the stream that was received, and the session is what they make of it |
| `TcpServer.Connection.OnWrite` | src/tcp/connection.cpp:70-91 | what is sent is what the kernel takes, the idle clock is reset exactly if that is something, a failed send is a close; a kernel that keeps taking bytes gets all |
| `TcpServer.ConnectionManager.Tick` | src/tcp/connection_manager.cpp:9-22 | collecting first and closing then has the effect of closing the idle ones in some order, re-entrant callbacks included |
| `TcpServer.ChatServer.Accept` | src/tcp/main.cpp:65-74 | a fresh connection, registered and connecting, with a buffer of its own |
| `TcpStreams.SegmentationExactly` | src/tcp/connection.cpp:20-50 | cuts do not matter to the packets dispatched exactly if nothing follows a LOGOUT in what the buffer can take; or, if the stream fills the buffer and `recv` then says 0, if not even its first packet ends before |
| `TcpStreams.ReadEvent` | src/tcp/connection.cpp:20-50 | the running connection is the reader of that statement, read event by read event |
| `TcpStreams.ReadBatches` | src/tcp/connection.cpp:20-50 | so a fresh connection that reads any batches dispatches what the reader does, and is in the reactor exactly if the reader is open |
| `TcpStreams.ReadAsWhole` | src/tcp/connection.cpp:20-50 | under that condition a stream is read as a whole however it is cut |
| `TcpStreams.PingAfterLogout` | src/tcp/connection.cpp:39-49 | a LOGOUT and a PING: both dispatched in one batch, only the LOGOUT in two |
| `TcpStreams.PingBeforeMuch` | src/tcp/connection.cpp:23-30 | a PING and 1019 more bytes: two cuts that differ |
| `TcpStreams.StaysExactly` | src/tcp/connection.cpp:39-49 | after a batch the socket is still in the reactor exactly if the bytes were well-formed and no packet was a LOGOUT |
| `TcpStreams.ClientHears` | src/tcp/connection.cpp:59-91 | a client parses what it is sent as exactly the notices queued for it, in order, up to the first whose body does not fit into a packet: all of them exactly if there is none |
| `TcpStreams.TypesHeard` | src/protocol/message.h:8-19 | every packet that the client parses has the type of the protocol for the notice queued, and its text |
| `TcpStreams.UsersOf` | src/tcp/user_manager.cpp:5-24 | the bijection and the current user list, on the running server |
| `HttpText.Find` | src/server/http_request.cpp:87 | the first occurrence, or the assurance that there is none |
| `HttpNames.LowerExactly` | src/server/http_request.cpp:5-9 | two names have one lower-case form exactly if they differ in letter case only, said byte by byte |
| `HttpNames.TrimExactly` | src/server/http_request.cpp:12-17 | what trimming leaves is the stretch from the first to the last byte that is not blank, and nothing else is |
| `HttpText.FirstDigitWeighs` | src/server/http_request.cpp:104-105 | decimal digits weigh by powers of ten, the first most |
| `HttpRequests.HttpRequest.ParseFrom` | src/server/http_request.cpp:83-120 | on success the fields are those of `Parse` and the buffer keeps exactly the bytes after the request; on failure the buffer is unchanged |
| `HttpRequests.HttpRequest.ParseHeaderBlock` | src/server/http_request.cpp:66-81 | the loop parses line by line, the last value of a name counting |
| `HttpRequests.HttpRequest.GetQuery` | src/server/http_request.cpp:26-41 | computes `QueryValue` |
| `HttpLaws.ParseSplits` | src/server/http_request.cpp:83-120 | a successful parse splits the bytes into head, first blank line, body of the announced length, and rest |
| `HttpLaws.StartExactly` | src/server/http_request.cpp:43-63 | a line is parsed as a request line exactly if it is three parts, of which the last is one of two versions and the middle has a path; the fields are these parts |
| `HttpHeaders.LinesExist` | src/server/http_request.cpp:67-80 | every block is made of lines without line breaks inside |
| `HttpHeaders.ParsedByLines` | src/server/http_request.cpp:66-81 | any block is parsed line by line, whatever its lines are |
| `HttpHeaders.HeaderExactly` | src/server/http_request.cpp:20-24 | the header found for a name is the value of the last line that spells the name, in any letter case and between any blanks, up to its first colon; without one it is as before |
| `HttpHeaders.LowerCaseLength` | src/server/http_request.cpp:103-114 | a length announced in lower case counts |
| `HttpLaws.ParsedStays` | src/server/http_request.cpp:83-120 | success and malformed verdicts persist under any extension |
| `HttpLaws.BodyCompletes` | src/server/http_request.cpp:103-114 | a request that waits for its body is complete exactly when the announced number of bytes is there |
| `HttpLaws.MalformedBlocks` | src/server/http_request.cpp:95-98 | after a malformed request nothing is ever parsed or consumed |
| `HttpLaws.CompletableExactly` | src/server/http_request.cpp:83-120 | a head that is there and not yet a request can still become one exactly if its first line is a request line |
| `HttpLaws.ParseFramed` | src/server/http_request.cpp:43-120 | of anything framed like a request, with any first line: a request, field by field, if that is a request line, and malformed otherwise, whatever follows |
| `HttpLaws.ParseRender` | src/server/http_request.cpp:43-120 | a request rendered by a client is parsed back, field by field, whatever follows |
| `HttpLaws.QueryReads` | src/server/http_request.cpp:26-41 | of any pairs written as a query string, the value of the first pair with the key |
| `HttpConnections.HttpConnection.OnRead` | src/server/http_connection.cpp:14-36 | the requests handled are those of the whole stream, in order, and each has been answered before the next is parsed; a hang-up handles none of its batch |
| `HttpConnections.HttpConnection.OnRequest` | src/server/http_connection.cpp:30-35 | the handler runs inside the decode loop, and its response goes behind those pending |
| `HttpConnections.SegmentationIrrelevantForHttp` | src/server/http_connection.cpp:14-36 | requests and waiting bytes do not depend on the cuts |
| `HttpConnections.RequestsArrive` | src/server/http_connection.cpp:30-35 | of anything framed like requests and pipelined, exactly what precedes the first malformed one is handled, as meant; the rest stays in the buffer |
| `HttpConnections.AllHandledExactly` | src/server/http_connection.cpp:30-35 | all are handled exactly if every first line is a request line |
| `HttpConnections.OopsBlocks` | src/server/http_request.cpp:95-98 | a first line of four letters: neither it nor the good request behind it is ever handled |
| `HttpConnections.RequestLostToHangUp` | src/server/http_connection.cpp:18-28 | a connection that receives a complete request in one batch with the hang-up does not handle it, though it is in its stream |
| `HttpConnections.ClientIsAnswered` | src/server/http_connection.cpp:30-69 | what the client is sent reads as one response per request handled, in their order, each with its body, and nothing else |
| `HttpConnections.HttpConnection.Send` | src/server/http_connection.cpp:60-69 | the text of the response goes behind what is pending, by the transition `Respond` of the machine below |
| `HttpConnections.HttpConnection.OnWrite` | src/server/http_connection.cpp:38-58 | the transition `Write` of that machine; what is sent is what the kernel takes, and a kernel that keeps taking bytes gets all, and a due close happens |
| `HttpSenders.NeverStallsExactly` | src/server/http_connection.cpp:38-69 | over every run of responses, write events and hang-ups: no wakeup is lost exactly if no response is given to a connection that was flushed and left open |
| `HttpSenders.SecondStalls` | src/server/http_connection.cpp:65-68 | two keep-alive responses, the second after the first was sent: the second is never sent |
| `HttpSenders.AsWired` | src/server/http_connection.cpp:38-69 | without keep-alive responses, as this server is wired, no wakeup is lost, every response makes a close due, and the write event that sends everything closes |
| `HttpConnections.WakeupsOf` | src/server/http_connection.cpp:14-69 | both, for the running connection |
| `HttpResponses.HttpResponse.ToString` | src/server/http_response.cpp:59-82 | the text of the response for some order of its headers, each once, with the two headers that it may lack |
| `HttpResponses.ResponseCut` | src/server/http_response.cpp:59-82 | without carriage returns in reason and headers: for any order of the headers the first blank line ends the header block |
| `HttpResponses.ResponseFraming` | src/server/http_response.cpp:59-82 | the header parser finds in that block a Content-Length whose decimal value is the body length, if the response sets none of its own |
| `HttpHeaders.HeadRead` | src/server/http_response.cpp:59-82 | the head of a response parses into its status line and the headers of the next two rows |
| `HttpHeaders.StatusRead` | src/server/http_response.cpp:61 | the first line is the version, the digits of the code, and the reason |
| `HttpHeaders.NotFoundLine` | src/server/http_response.cpp:61 | the first line of a 404 |
| `HttpHeaders.HeadersRead` | src/server/http_response.cpp:64-72 | every header is found with its value, in any letter case, if no namesake follows it |
| `HttpHeaders.ConnectionRead` | src/server/http_response.cpp:76-78 | the client is told whether the connection stays open, unless the response says so itself |
| `HttpResponses.ReplyExactly` | src/server/http_response.cpp:59-82 | a client reads exactly the body, whatever follows, exactly if its length is the one announced |
| `HttpResponses.ReplyReads` | src/server/http_response.cpp:73-75 | so it does if the response leaves the announcing to the server |
| `HttpResponses.RepliesArrive` | src/server/http_response.cpp:59-82 | a sequence of responses on one connection is read one by one, each with its body, and leaves nothing over |
| `WebSession.TokenInjective` | src/server/token_store.cpp:7-14 | two 64-bit counters have the same token only if they are equal |
| `WebSession.TokenIs` | src/server/token_store.cpp:7-14 | `tok_` and sixteen hexadecimal digits that write the counter |
| `WebSession.LoginExactly` | src/server/http_handler.cpp:47-68 | a login keeps tokens and room users in bijection exactly if the token handed out is not still live |
| `WebSession.IssueIsFresh` | src/server/token_store.cpp:16-22 | it is not, as long as the counter has not wrapped |
| `WebSession.LogoutEndsOne` | src/server/http_handler.cpp:118-136 | logout revokes the very token it authenticated with, though it extracts it twice, and removes the user of that token and nobody else |
| `WebSession.AlwaysPairedExactly` | src/server/http_handler.cpp:47-136 | in every run, of any length: the bijection holds throughout exactly if no login hands out a token that is still live |
| `WebSession.RunPaired` | src/server/http_handler.cpp:47-136 | so in every run of fewer than 2^64 calls |
| `WebSession.TokenTaken` | src/server/token_store.cpp:16-22 | a run, by induction: one user stays, another comes and goes 2^64 - 1 times, and the next login takes the token of the first |
| `WebSession.InAndOut` | src/server/http_handler.cpp:47-136 | logging in and out leaves no trace but the counter, if the token handed out was not live |
| `WebSession.TokenStore.MakeToken` | src/server/token_store.cpp:7-14 | the loop writes `Token`, most significant digit first |
| `WebSession.TokenStore.Issue` | src/server/token_store.cpp:16-22 | the next counter, as a 64-bit word, and its token |
| `WebSession.Routes.RequireToken` | src/server/http_handler.cpp:20-42 | the user of the live token in query or body, else 401 |
| `WebSession.AuthenticatedExactly` | src/server/http_handler.cpp:20-42 | somebody is authenticated exactly as the user of a live token that the query carries, or, if it carries none, the body |
| `WebSession.Routes.LoginRoute` | src/server/http_handler.cpp:47-68 | the transition `Login` and its status codes |
| `WebSession.Routes.LogoutRoute` | src/server/http_handler.cpp:118-136 | the transition `Logout` and its status codes |
| `WebSession.Routes.PostRoute` | src/server/http_handler.cpp:98-113 | what is posted goes to the room, and so to every WebSocket client, under the name of the token |

## Left out

- Sockets, epoll, accept loops, signals, file descriptors and `main`: only their answers are modelled.
- When ticks happen: the reactor ticks only when `epoll_wait` times out, so a busy server does not time anybody out.
- Lifetimes: deletion of connections inside callbacks, reuse of descriptors, `WsHub::remove`.
- Mutexes: each method of `Room` and `TokenStore` is one atomic step.
- Static files, MIME types, the choice of a route by prefix, the dispatch of WebSocket upgrades; bytes that follow an upgrade request in the HTTP buffer.
- JSON: parsing and printing are arbitrary functions; a field of the wrong type, which ends the TCP server with an uncaught exception, is not modelled.
- The order of the names in a user list; the texts of error messages and announcements, which are constructors of `Chats.Notice`.
- Response status codes outside the natural numbers, and the builder methods of `HttpResponse` other than `header`.
- GET /api/users and GET /api/messages, except that `recentMessages` is modelled.
- The write buffers of connections as objects of their own: they are byte sequences, which the class `Buffers.Buffer` is proved to implement. Read buffers are such objects.
- WsFrame.TryDecode: the mask key is read after the length check instead of before it, which gives the same result; sizes above 2^31 are not truncated to `int`; a throw is an outcome, and what becomes of the process after it is not modelled.
- Packets.EncodePacket: what becomes of memory after an overrun, which is undefined behaviour.
- TcpServer.Connection.Send: the JSON printer is any function whose texts are shorter than 2^32 - 1 bytes, so that none of them overruns.
- TcpServer.Connection.OnRead: all bytes of one read event are stamped with one clock reading; likewise for one write event.
- TcpServer.Connection.OnWrite: may also follow a close, when the reactor still holds the event; the model lets the kernel answer anything then.
- HttpConnections.HttpConnection.OnRequest: the request handler is an arbitrary function from the number of the request and the request to one response; handlers that send none (WebSocket upgrades) or several are not modelled.
