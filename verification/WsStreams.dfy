/** Both directions of a WebSocket byte stream as streams of frames. */
module WsStreams {
  import opened Bytes
  import opened Streams
  import opened WsFrame
  import opened WsFrameLaws

  function NextFrame(data: seq<byte>, fromClient: bool): Verdict<Frame> {
    match Decode(data, fromClient)
    case NeedMore => More
    case ProtocolError => Bad
    case Decoded(n, f) => One(n, f)
  }

  /** What the server reads. */
  function ClientFrame(data: seq<byte>): Verdict<Frame> {
    NextFrame(data, true)
  }

  /** What a client reads: the reference receiver for what the server writes. */
  function ServerFrame(data: seq<byte>): Verdict<Frame> {
    NextFrame(data, false)
  }

  lemma FramesStable()
    ensures Stable(ClientFrame) && ClientFrame([]).More?
    ensures Stable(ServerFrame) && ServerFrame([]).More?
  {
    forall data, more
      ensures KeepsVerdict(ClientFrame, data, more) && KeepsVerdict(ServerFrame, data, more)
    {
      if !Decode(data, true).NeedMore? {
        VerdictIsStable(data, more, true);
      }
      if !Decode(data, false).NeedMore? {
        VerdictIsStable(data, more, false);
      }
    }
  }

  // ---------------------------------------------------------------- what the server writes

  /** The frames this server queues: whole TEXT frames and control frames. */
  predicate Sendable(f: Frame) {
    && f.fin && |f.payload| < 0x1_0000_0000_0000_0000
    && (f.opcode == TEXT || f.opcode == PING || f.opcode == PONG || f.opcode == CLOSE)
  }

  predicate AllSendable(frames: seq<Frame>) {
    forall i :: 0 <= i < |frames| ==> Sendable(frames[i])
  }

  function EncodeServer(f: Frame): seq<byte> {
    Encode(f.opcode, f.payload)
  }

  lemma ServerFrameReads(f: Frame)
    requires Sendable(f)
    ensures Reads(ServerFrame, EncodeServer, f)
  {
    forall rest
      ensures ReadsBefore(ServerFrame, EncodeServer, f, rest)
    {
      EncodeIsWire(f.opcode, f.payload);
      WireDecodes(f, FormFor(|f.payload|), [], EncodeServer(f), rest);
    }
  }

  /** A client that has received all of it sees exactly the frames that were queued, and nothing else. */
  lemma FramesArrive(frames: seq<Frame>)
    requires AllSendable(frames)
    ensures Stable(ServerFrame)
    ensures Drain(ServerFrame, Never(), EncodeAll(EncodeServer, frames)) == Drained(frames, [], true)
  {
    FramesStable();
    forall i | 0 <= i < |frames|
      ensures Reads(ServerFrame, EncodeServer, frames[i])
    {
      ServerFrameReads(frames[i]);
    }
    DrainEncoded(ServerFrame, EncodeServer, frames, []);
    assert EncodeAll(EncodeServer, frames) + [] == EncodeAll(EncodeServer, frames);
    assert frames + [] == frames;
  }

  /** A client that has received only part of it sees the first of those frames. */
  lemma FramesArriveInOrder(frames: seq<Frame>, sent: seq<byte>, pending: seq<byte>)
    requires AllSendable(frames) && sent + pending == EncodeAll(EncodeServer, frames)
    ensures Stable(ServerFrame)
    ensures Drain(ServerFrame, Never(), sent).items <= frames
  {
    FramesArrive(frames);
    DrainPrefix(ServerFrame, Never(), sent, pending);
  }

  /** A payload that was decoded can be sent back. */
  lemma DecodedSendable(data: seq<byte>)
    requires ClientFrame(data).One?
    ensures ClientFrame(data).item.opcode < 16 && |ClientFrame(data).item.payload| < 0x1_0000_0000_0000_0000
  {
    DecodedIsWire(data, true);
  }

  // ---------------------------------------------------------------- the session

  /** BINARY and unknown opcodes close the connection. */
  predicate Stops(f: Frame) {
    f.opcode != TEXT && f.opcode != PING && f.opcode != PONG && f.opcode != CLOSE
  }

  /** A server session: what the decode loop makes of everything a client has sent. */
  ghost function Session(stream: seq<byte>): Drained<Frame> {
    FramesStable();
    Drain(ClientFrame, Stops, stream)
  }

  /** A new batch goes behind the bytes that were waiting. */
  lemma ReadMore(stream: seq<byte>, received: seq<Frame>, readBuf: seq<byte>, batch: seq<byte>)
    requires Session(stream) == Drained(received, readBuf, true)
    ensures Session(stream + batch) == Preceded(received, Session(readBuf + batch))
  {
    FramesStable();
    DrainAppend(ClientFrame, Stops, stream, batch);
  }

  /** The loop is over when the decoder has nothing to give. */
  lemma Nothing(received: seq<Frame>, readBuf: seq<byte>)
    ensures Decode(readBuf, true).NeedMore? ==> Preceded(received, Session(readBuf)) == Drained(received, readBuf, true)
    ensures Decode(readBuf, true).ProtocolError? ==> Preceded(received, Session(readBuf)) == Drained(received, readBuf, false)
  {
  }

  /** Otherwise one frame moves from the buffer to the frames dispatched. */
  lemma Taken(received: seq<Frame>, readBuf: seq<byte>)
    requires Decode(readBuf, true).Decoded?
    ensures var Decoded(n, f) := Decode(readBuf, true);
      && 0 < n <= |readBuf| && f.opcode < 16 && |f.payload| < 0x1_0000_0000_0000_0000
      && Preceded(received, Session(readBuf))
         == if Stops(f) then Drained(received + [f], readBuf[n..], false) else Preceded(received + [f], Session(readBuf[n..]))
  {
    var Decoded(n, f) := Decode(readBuf, true);
    FramesStable();
    DecodedSendable(readBuf);
    DecodedSize(readBuf, true);
    DrainOne(ClientFrame, Stops, readBuf);
    PrecededAfter(received, f, Session(readBuf[n..]));
  }

  /** Frames that answer a frame: PONG mirrors a PING, CLOSE is acknowledged. */
  function Reply(f: Frame): seq<Frame> {
    if f.opcode == PING then [Frame(true, PONG, f.payload)]
    else if f.opcode == CLOSE then [Frame(true, CLOSE, [])]
    else []
  }

  function Replies(received: seq<Frame>): seq<Frame> {
    if received == [] then [] else Replies(received[..|received| - 1]) + Reply(received[|received| - 1])
  }

  /** The replies among the frames sent. */
  function RepliesIn(frames: seq<Frame>): seq<Frame> {
    if frames == [] then []
    else
      var f := frames[|frames| - 1];
      RepliesIn(frames[..|frames| - 1]) + if f.opcode == PONG || f.opcode == CLOSE then [f] else []
  }

  /** Whether some frame is a CLOSE. */
  predicate Closes(received: seq<Frame>) {
    received != [] && (Closes(received[..|received| - 1]) || received[|received| - 1].opcode == CLOSE)
  }

  /** The text payloads among frames. */
  function Texts(frames: seq<Frame>): seq<seq<byte>> {
    if frames == [] then []
    else
      var f := frames[|frames| - 1];
      Texts(frames[..|frames| - 1]) + if f.opcode == TEXT then [f.payload] else []
  }

  lemma TextsSnoc(frames: seq<Frame>, f: Frame)
    ensures Texts(frames + [f]) == Texts(frames) + if f.opcode == TEXT then [f.payload] else []
    ensures RepliesIn(frames + [f]) == RepliesIn(frames) + if f.opcode == PONG || f.opcode == CLOSE then [f] else []
    ensures Replies(frames + [f]) == Replies(frames) + Reply(f)
    ensures Closes(frames + [f]) <==> Closes(frames) || f.opcode == CLOSE
  {
  }

  // ---------------------------------------------------------------- what a reply is

  /** The payloads of the frames with an opcode, in order. */
  function Payloads(frames: seq<Frame>, opcode: byte): seq<seq<byte>> {
    if frames == [] then []
    else
      var f := frames[|frames| - 1];
      Payloads(frames[..|frames| - 1], opcode) + if f.opcode == opcode then [f.payload] else []
  }

  lemma PayloadsOfSum(frames: seq<Frame>, more: seq<Frame>, opcode: byte)
    requires |more| <= 1
    ensures Payloads(frames + more, opcode) == Payloads(frames, opcode) + Payloads(more, opcode)
  {
    if more == [] {
      assert frames + more == frames;
    } else {
      assert (frames + more)[..|frames|] == frames && more[..0] == [];
    }
  }

  /** Opcode 9 is answered by one frame with FIN, opcode 10 and its payload, opcode 8 by an empty one of its kind. */
  lemma ReplyIs(f: Frame)
    ensures f.opcode == 9 ==> Reply(f) == [Frame(true, 10, f.payload)]
    ensures f.opcode == 8 ==> Reply(f) == [Frame(true, 8, [])]
    ensures f.opcode != 8 && f.opcode != 9 ==> Reply(f) == []
  {
  }

  function Blanks(n: nat): seq<seq<byte>> {
    seq(n, i => [])
  }

  /** Frames that hold the replies to what was received hold a PONG for each PING, with its payload, in order. */
  lemma RepliesMean(received: seq<Frame>, frames: seq<Frame>)
    requires RepliesIn(frames) == Replies(received)
    ensures Payloads(frames, 10) == Payloads(received, 9)
    ensures Payloads(frames, 8) == Blanks(|Payloads(received, 8)|)
  {
    RepliesPayloads(received);
    RepliesInPayloads(frames);
  }

  lemma {:induction false} RepliesPayloads(received: seq<Frame>)
    ensures Payloads(Replies(received), 10) == Payloads(received, 9)
    ensures Payloads(Replies(received), 8) == Blanks(|Payloads(received, 8)|)
  {
    if received != [] {
      var init, f := received[..|received| - 1], received[|received| - 1];
      RepliesPayloads(init);
      PayloadsOfSum(Replies(init), Reply(f), 10);
      PayloadsOfSum(Replies(init), Reply(f), 8);
      PayloadsOfReply(f);
    }
  }

  lemma PayloadsOfReply(f: Frame)
    ensures Payloads(Reply(f), 10) == if f.opcode == 9 then [f.payload] else []
    ensures Payloads(Reply(f), 8) == if f.opcode == 8 then [[]] else []
  {
    ReplyIs(f);
    if Reply(f) != [] {
      assert Reply(f)[..0] == [];
    }
  }

  lemma {:induction false} RepliesInPayloads(frames: seq<Frame>)
    ensures Payloads(RepliesIn(frames), 10) == Payloads(frames, 10)
    ensures Payloads(RepliesIn(frames), 8) == Payloads(frames, 8)
  {
    if frames != [] {
      var init, f := frames[..|frames| - 1], frames[|frames| - 1];
      var last := if f.opcode == PONG || f.opcode == CLOSE then [f] else [];
      RepliesInPayloads(init);
      PayloadsOfSum(RepliesIn(init), last, 10);
      PayloadsOfSum(RepliesIn(init), last, 8);
      assert last != [] ==> last[..0] == [];
    }
  }

  /** All the opcodes are 1, 8, 9 or 10, or all but the last of a session that has ended. */
  predicate OpcodesKnown(d: Drained<Frame>) {
    forall i :: 0 <= i < |d.items| && (d.open || i < |d.items| - 1) ==> d.items[i].opcode in {1, 8, 9, 10}
  }

  /** Reading goes on behind these opcodes only. */
  lemma {:induction false} OnlyKnownOpcodes(stream: seq<byte>)
    ensures OpcodesKnown(Session(stream))
    decreases |stream|
  {
    hide OpcodesKnown, Drain, ClientFrame, Stops;
    FramesStable();
    if ClientFrame(stream).One? {
      var One(n, f) := ClientFrame(stream);
      DrainOne(ClientFrame, Stops, stream);
      if Stops(f) {
        LastUnknown(f, stream[n..]);
      } else {
        OnlyKnownOpcodes(stream[n..]);
        OneMoreKnown(f, Session(stream[n..]));
      }
    } else {
      NoOpcodes(stream);
    }
    assert OpcodesKnown(Session(stream));
  }

  lemma NoOpcodes(stream: seq<byte>)
    requires !ClientFrame(stream).One?
    ensures OpcodesKnown(Session(stream))
  {
  }

  lemma LastUnknown(f: Frame, rest: seq<byte>)
    ensures OpcodesKnown(Drained([f], rest, false))
  {
  }

  lemma OneMoreKnown(f: Frame, d: Drained<Frame>)
    requires !Stops(f) && OpcodesKnown(d)
    ensures OpcodesKnown(After(f, d))
  {
  }

  /** A close is due exactly if a frame with opcode 8 is among those received. */
  lemma {:induction false} ClosesExactly(received: seq<Frame>)
    ensures Closes(received) <==> exists i :: 0 <= i < |received| && received[i].opcode == 8
  {
    if received != [] {
      var init := received[..|received| - 1];
      ClosesExactly(init);
      assert forall i :: 0 <= i < |init| ==> init[i] == received[i];
    }
  }

  // ---------------------------------------------------------------- segmentation

  /** However the client's bytes are cut into reads, the frames dispatched and the verdict are the same. */
  lemma SegmentationIrrelevantForWebSocket(batches: seq<seq<byte>>)
    ensures Stable(ClientFrame)
    ensures var s, whole := FeedAll(ClientFrame, Stops, batches), Session(Concat(batches));
      && s.items == whole.items && s.open == whole.open
      && s.rest + Unread(ClientFrame, Stops, batches) == whole.rest
      && (s.open ==> s.rest == whole.rest)
  {
    FramesStable();
    SegmentationIrrelevant(ClientFrame, Stops, batches);
  }

  /** Six bytes that are an empty TEXT frame. */
  lemma SixBytes()
    ensures Session([]) == Drained([], [], true)
    ensures Session([129, 128, 0, 0, 0, 0]).items == [Frame(true, TEXT, [])]
  {
    hide Session, Decode;
    var f: seq<byte> := [129, 128, 0, 0, 0, 0];
    Nothing([], []);
    NothingYet();
    EmptyText(f);
    Taken([], f);
    assert f[6..] == [];
    PrecededNothing(Session(f));
    PrecededNothing(Session([]));
  }

  lemma NothingYet()
    ensures Decode([], true).NeedMore? && Session([]) == Drained([], [], true)
  {
  }

  lemma EmptyText(data: seq<byte>)
    requires data == [129, 128, 0, 0, 0, 0]
    ensures Decode(data, true) == Decoded(6, Frame(true, TEXT, []))
  {
    assert data[6..6] == [];
  }

  lemma PrecededNothing(d: Drained<Frame>)
    ensures Preceded([], d) == d
  {
    assert [] + d.items == d.items;
  }
}
