/** The WebSocket side of the server: connections, the hub that fans messages out, the room they go through. */
module WsServer {
  import opened Buffers
  import opened Bytes
  import opened Kernel
  import opened Streams
  import opened WsFrame
  import opened WsStreams

  datatype Message = Message(from: string, room: string, content: string, time: int)

  type Payload = s: seq<byte> | |s| < 0x1_0000_0000_0000_0000

  /** What parsing a client's text yields: anything but a chat message with content is dropped. */
  datatype Incoming = Ignored | Chat(room: string, content: string)

  /** The message that a text amounts to, if it is a chat message with content. */
  function Said(parse: seq<byte> -> Incoming, username: string, text: seq<byte>, now: int): seq<Message> {
    match parse(text)
    case Ignored => []
    case Chat(to, content) => if content == "" then [] else [Message(username, to, content, now)]
  }

  /** The messages that the TEXT frames among `frames` amount to, in order; the clock is read for each frame. */
  function Spoken(parse: seq<byte> -> Incoming, username: string, frames: seq<Frame>, clock: nat -> int): seq<Message> {
    if frames == [] then []
    else
      var k := |frames| - 1;
      Spoken(parse, username, frames[..k], clock) + SaidBy(parse, username, frames[k], clock(k))
  }

  function SaidBy(parse: seq<byte> -> Incoming, username: string, f: Frame, now: int): seq<Message> {
    if f.opcode == TEXT then Said(parse, username, f.payload, now) else []
  }

  /** Whether a frame says something: opcode 1, and a text that parses as a chat message with content. */
  predicate Utters(parse: seq<byte> -> Incoming, f: Frame) {
    f.opcode == 1 && parse(f.payload).Chat? && parse(f.payload).content != ""
  }

  function Uttering(parse: seq<byte> -> Incoming, frames: seq<Frame>): (bs: seq<bool>)
    ensures |bs| == |frames|
  {
    seq(|frames|, i requires 0 <= i < |frames| => Utters(parse, frames[i]))
  }

  /** A frame as a message: who says it, in which room, what, and when. */
  function AsMessage(parse: seq<byte> -> Incoming, username: string, f: Frame, time: int): (m: Message)
    ensures m.from == username && m.time == time
    ensures parse(f.payload).Chat? ==> m.room == parse(f.payload).room && m.content == parse(f.payload).content
  {
    match parse(f.payload)
    case Ignored => Message(username, "", "", time)
    case Chat(to, content) => Message(username, to, content, time)
  }

  function AsMessages(parse: seq<byte> -> Incoming, username: string, frames: seq<Frame>, clock: nat -> int): (ms: seq<Message>)
    ensures |ms| == |frames|
  {
    seq(|frames|, i requires 0 <= i < |frames| => AsMessage(parse, username, frames[i], clock(i)))
  }

  /**
   * What is spoken: exactly the frames that say something, in order, each once; every message has the name of
   * the connection, the room and the content of its frame, and the time at which that was dispatched.
   */
  lemma {:induction false} SpokenAre(parse: seq<byte> -> Incoming, username: string, frames: seq<Frame>, clock: nat -> int)
    returns (ks: seq<nat>)
    ensures Selects(ks, Uttering(parse, frames), AsMessages(parse, username, frames, clock), Spoken(parse, username, frames, clock))
  {
    hide Selects, Utters, AsMessage, SaidBy;
    if frames == [] {
      ks := [];
      SelectsNothing<Message>();
    } else {
      var k := |frames| - 1;
      var f, init := frames[k], frames[..k];
      var m := AsMessage(parse, username, f, clock(k));
      ks := SpokenAre(parse, username, init, clock);
      OneSaid(parse, username, f, clock(k));
      SelectsMore(ks, Uttering(parse, init), AsMessages(parse, username, init, clock), Spoken(parse, username, init, clock), Utters(parse, f), m);
      ks := if Utters(parse, f) then ks + [k] else ks;
      assert Uttering(parse, frames) == Uttering(parse, init) + [Utters(parse, f)];
      assert AsMessages(parse, username, frames, clock) == AsMessages(parse, username, init, clock) + [m];
    }
  }

  lemma OneSaid(parse: seq<byte> -> Incoming, username: string, f: Frame, time: int)
    ensures SaidBy(parse, username, f, time) == if Utters(parse, f) then [AsMessage(parse, username, f, time)] else []
  {
  }

  lemma SpokenSnoc(parse: seq<byte> -> Incoming, username: string, frames: seq<Frame>, f: Frame, clock: nat -> int)
    ensures Spoken(parse, username, frames + [f], clock)
      == Spoken(parse, username, frames, clock) + SaidBy(parse, username, f, clock(|frames|))
  {
    assert (frames + [f])[..|frames|] == frames;
  }

  class WsConnection {
    const username: string
    const hub: WsHub
    const readBuf: Buffer
    var writeBuf: seq<byte>
    var writing: bool
    var active: bool
    var closeAfterWrite: bool
    ghost const since: nat           // how many messages the room had seen at adoption
    ghost var interest: bool         // whether the reactor watches the socket for writability
    ghost var sent: seq<byte>        // what the kernel has taken
    ghost var stream: seq<byte>      // what the kernel has delivered
    ghost var frames: seq<Frame>     // what has been queued
    ghost var received: seq<Frame>   // what has been dispatched

    constructor (hub: WsHub, username: string, ghost since: nat)
      ensures this.hub == hub && this.username == username && this.since == since
      ensures active && stream == [] && frames == [] && received == [] && fresh(readBuf) && fresh(readBuf.buf)
      ensures Writable() && Rested() && Answered()
    {
      this.hub, this.username, this.since := hub, username, since;
      readBuf := new Buffer();
      writeBuf := [];
      writing, active, closeAfterWrite := false, true, false;
      interest, sent, stream, frames, received := false, [], [], [], [];
      new;
      FramesStable();
    }

    /** Nothing queued is lost, duplicated or reordered, and no wakeup is missed. */
    ghost predicate Writable()
      reads this`sent, this`writeBuf, this`frames, this`active, this`interest, this`writing, this`closeAfterWrite
    {
      && sent + writeBuf == EncodeAll(EncodeServer, frames)
      && AllSendable(frames)
      && (active ==> interest == writing && (writing <==> writeBuf != []))
      && (active && closeAfterWrite ==> writeBuf != [])
    }

    /** The frames dispatched and the bytes kept are what the stream so far decodes to, however it was cut. */
    ghost predicate Rested()
      reads this`stream, this`received, readBuf, readBuf.buf
    {
      Settled(true)
    }

    ghost predicate Settled(open: bool)
      reads this`stream, this`received, readBuf, readBuf.buf
    {
      readBuf.Valid() && Session(stream) == Drained(received, readBuf.Contents(), open)
    }

    /** Every PING and CLOSE has been answered, in order, and a close is due exactly once a CLOSE was received. */
    ghost predicate Answered()
      reads this`frames, this`received, this`closeAfterWrite
    {
      RepliesIn(frames) == Replies(received) && (closeAfterWrite <==> Closes(received))
    }

    /** The frames that a client can read in what it was sent and will be sent. */
    ghost function Seen(): seq<Frame>
      reads this`sent, this`writeBuf
    {
      FramesStable();
      Drain(ServerFrame, Never(), sent + writeBuf).items
    }

    /** The PONGs that the client can read have the payloads of the PINGs that it has sent, one by one. */
    ghost predicate Ponged()
      reads this`sent, this`writeBuf, this`stream
    {
      && Payloads(Seen(), 10) == Payloads(Session(stream).items, 9)
      && Payloads(Seen(), 8) == Blanks(|Payloads(Session(stream).items, 8)|)
    }

    lemma AnsweredOnTheWire()
      requires Writable() && Answered() && Rested()
      ensures Ponged()
    {
      hide Session, EncodeAll, Payloads, Replies, RepliesIn;
      FramesArrive(frames);
      RepliesMean(received, frames);
    }

    /** Appending to the write buffer and asking for writability, as every sender does. */
    method Queue(opcode: byte, payload: seq<byte>)
      requires Writable() && active && Sendable(Frame(true, opcode, payload))
      modifies this`writeBuf, this`writing, this`interest, this`frames
      ensures Writable() && writeBuf != [] && frames == old(frames) + [Frame(true, opcode, payload)]
    {
      var bytes := EncodeFrame(opcode, payload);
      ghost var f := Frame(true, opcode, payload);
      EncodeAllSnoc(EncodeServer, frames, f);
      Reassociate(sent, writeBuf, bytes);
      writeBuf := writeBuf + bytes;
      frames := frames + [f];
      if !writing {
        interest := true;
        writing := true;
      }
    }

    method SendText(payload: seq<byte>)
      requires Writable() && |payload| < 0x1_0000_0000_0000_0000
      modifies this`writeBuf, this`writing, this`interest, this`frames
      ensures Writable()
      ensures frames == if active then old(frames) + [Frame(true, TEXT, payload)] else old(frames)
    {
      if !active {
        return;
      }
      Queue(TEXT, payload);
    }

    method SendPing(payload: seq<byte>)
      requires Writable() && |payload| < 0x1_0000_0000_0000_0000
      modifies this`writeBuf, this`writing, this`interest, this`frames
      ensures Writable()
      ensures frames == if active then old(frames) + [Frame(true, PING, payload)] else old(frames)
    {
      if !active {
        return;
      }
      Queue(PING, payload);
    }

    /** `close`: out of the reactor and out of the hub, once. What is still pending is dropped. */
    method Close()
      modifies this`active, this`interest, hub`conns
      ensures !active && hub.conns == if old(active) then old(hub.conns) - {this} else old(hub.conns)
      ensures interest == if old(active) then false else old(interest)
    {
      if !active {
        return;
      }
      active := false;
      interest := false;
      hub.Forget(this);
    }

    /** The send loop: what the kernel takes moves from the write buffer to `sent`. */
    method Flush(results: seq<SendResult>) returns (outcome: Flushed)
      modifies this`writeBuf, this`sent
      ensures var s := SendLoop(|old(writeBuf)|, results);
        && outcome == s.outcome
        && sent == old(sent) + old(writeBuf)[..s.taken] && writeBuf == old(writeBuf)[s.taken..]
    {
      ghost var before, pending, k := sent, writeBuf, 0;
      var i := 0;
      NothingSent(|writeBuf|, results);
      assert before + pending[..0] == before;
      while writeBuf != []
        invariant k <= |pending| && writeBuf == pending[k..] && sent == before + pending[..k]
        invariant SentSoFar(|pending|, results, k, i)
        decreases |writeBuf|
      {
        SendTurn(|pending|, results, k, i);
        var r := if i < |results| then results[i] else WouldBlock;
        if r == WouldBlock {
          return Blocked;
        }
        if Fails(r) {
          return Broken;
        }
        var n := if r.n <= |writeBuf| then r.n else |writeBuf|;
        Advance(before, pending, k, n);
        sent := sent + writeBuf[..n];
        writeBuf := writeBuf[n..];
        k := k + n;
        i := i + 1;
      }
      return AllSent;
    }

    /**
     * `onWrite`. What is sent is what the kernel takes; the connection closes exactly on a failed send, or when
     * everything is sent and a close is due. In particular a kernel that keeps taking bytes gets all of them,
     * and an acknowledged CLOSE then closes.
     */
    method OnWrite(results: seq<SendResult>)
      requires hub.Valid() && this in hub.conns
      modifies this`writeBuf, this`sent, this`writing, this`interest, this`active, hub`conns
      ensures hub.Valid() && Writable()
      ensures sent + writeBuf == old(sent + writeBuf)
      ensures hub.conns == if active then old(hub.conns) else old(hub.conns) - {this}
      ensures var s := SendLoop(|old(writeBuf)|, results);
        && sent == old(sent) + old(writeBuf)[..s.taken]
        && active == !(s.outcome == Broken || (s.outcome == AllSent && Closes(received)))
      ensures TakesEveryTime(results) && |results| >= |old(writeBuf)| ==> writeBuf == [] && active == !Closes(received)
    {
      hide Session, EncodeAll, AllSendable, Replies, RepliesIn, Texts, Closes, WsHub.Reading, Writable;
      ToWrite();
      SendPending(results);
      OthersStayGood();
      hub.StillReading();
      if TakesEveryTime(results) && |results| >= |old(writeBuf)| {
        EverythingSent(|old(writeBuf)|, results);
      }
      assert hub.Valid() && Writable();
    }

    method SendPending(results: seq<SendResult>)
      requires Writable() && active
      modifies this`writeBuf, this`sent, this`writing, this`interest, this`active, hub`conns
      ensures Writable() && sent + writeBuf == old(sent + writeBuf)
      ensures hub.conns == if active then old(hub.conns) else old(hub.conns) - {this}
      ensures var s := SendLoop(|old(writeBuf)|, results);
        && sent == old(sent) + old(writeBuf)[..s.taken] && (s.outcome == AllSent ==> writeBuf == [])
        && active == !(s.outcome == Broken || (s.outcome == AllSent && closeAfterWrite))
    {
      hide EncodeAll, AllSendable;
      var outcome := Flush(results);
      Pieces(old(sent), old(writeBuf), SendLoop(|old(writeBuf)|, results).taken);
      if outcome.Broken? {
        Close();
      } else if outcome.AllSent? {
        if closeAfterWrite {
          Close();
        } else {
          interest := false;
          writing := false;
        }
      }
      assert Writable();
    }

    lemma ToWrite()
      requires hub.Valid() && this in hub.conns
      ensures hub.Reading() && hub.Good(this, |hub.room.log|) && active && (closeAfterWrite <==> Closes(received))
    {
    }

    static lemma Pieces(a: seq<byte>, b: seq<byte>, k: nat)
      requires k <= |b|
      ensures (a + b[..k]) + b[k..] == a + b
    {
      assert b[..k] + b[k..] == b;
    }

    /** A step of this connection leaves the others as they are. */
    twostate lemma OthersStayGood()
      requires old(hub.ValidBut(this)) && hub.room.log == old(hub.room.log) && hub.room.Valid()
      requires hub.room.subscriber == hub
      requires hub.conns <= old(hub.conns)
      requires forall c :: c in hub.conns && c != this ==> unchanged(c)
      requires this in hub.conns ==> hub.Good(this, |hub.room.log|)
      ensures hub.Sound()
    {
      forall c | c in hub.conns
        ensures hub.Good(c, |hub.room.log|)
      {
        if c != this {
          assert old(hub.Good(c, |hub.room.log|));
        }
      }
    }

    /**
     * `onRead`: take what the kernel has, then decode and dispatch every complete frame. A hang-up closes
     * before anything is decoded; otherwise the state reached depends on the stream alone, not on its cuts, and
     * the room has heard exactly what the frames dispatched say. An exception that `tryDecode` throws ends the
     * process: exactly when the bytes left over overflow.
     */
    method OnRead(batch: seq<byte>, ending: Ending, pieces: nat -> nat, clock: nat -> int) returns (thrown: bool)
      requires hub.Valid() && this in hub.conns
      modifies readBuf, readBuf.buf, this`stream, this`received, this`closeAfterWrite, this`active, this`interest
      modifies hub`conns, hub.conns`writeBuf, hub.conns`writing, hub.conns`interest, hub.conns`frames
      modifies hub.room`messages, hub.room`log
      ensures hub.Valid()
      ensures hub.conns == if active then old(hub.conns) else old(hub.conns) - {this}
      ensures stream == old(stream) + batch && old(received) <= received
      ensures hub.room.log == old(hub.room.log) + Spoken(hub.parse, username, received[|old(received)|..], clock)
      ensures ending == HungUp ==> !active && received == old(received) && frames == old(frames)
      ensures ending == Again ==> Settled(active) && Answered()
      ensures active ==> Ponged()
      ensures thrown <==> active && Overflows(readBuf.Contents())
      ensures readBuf.buf == old(readBuf.buf) || fresh(readBuf.buf)
    {
      hide Session, Spoken, WsHub.Sound, Settled, Answered, Ponged;
      ToRead();
      thrown := ReadBatch(batch, ending, pieces, clock);
      OthersRest();
      assert hub.Valid();
      if active {
        PongedNow();
      }
    }

    lemma PongedNow()
      requires hub.Valid() && this in hub.conns
      ensures Ponged()
    {
      hide Ponged, Writable, Answered, Rested;
      assert hub.Good(this, |hub.room.log|) && Rested();
      AnsweredOnTheWire();
    }

    lemma ToRead()
      requires hub.Valid() && this in hub.conns
      ensures hub.Sound() && hub.Reading() && Rested()
    {
    }

    /** An event on one connection leaves the reading state of the others alone. */
    twostate lemma OthersRest()
      requires old(hub.Reading()) && hub.conns <= old(hub.conns)
      requires forall d :: d in hub.conns && d != this ==>
        unchanged(d`stream) && unchanged(d`received) && unchanged(d.readBuf) && unchanged(d.readBuf.buf)
      requires this in hub.conns ==> Rested() && (readBuf.buf == old(readBuf.buf) || fresh(readBuf.buf))
      ensures hub.Reading()
    {
      forall d | d in hub.conns
        ensures d.Rested()
      {
        if d != this {
          assert old(d.Rested());
        }
      }
    }

    method ReadBatch(batch: seq<byte>, ending: Ending, pieces: nat -> nat, clock: nat -> int) returns (thrown: bool)
      requires hub.Sound() && this in hub.conns && Rested()
      modifies readBuf, readBuf.buf, this`stream, this`received, this`closeAfterWrite, this`active, this`interest
      modifies hub`conns, hub.conns`writeBuf, hub.conns`writing, hub.conns`interest, hub.conns`frames
      modifies hub.room`messages, hub.room`log
      ensures hub.Sound() && readBuf.Valid()
      ensures hub.conns == if active then old(hub.conns) else old(hub.conns) - {this}
      ensures stream == old(stream) + batch && old(received) <= received
      ensures hub.room.log == old(hub.room.log) + Spoken(hub.parse, username, received[|old(received)|..], clock)
      ensures ending == HungUp ==> !active && received == old(received) && frames == old(frames)
      ensures ending == Again ==> Settled(active) && Answered()
      ensures thrown <==> active && Overflows(readBuf.Contents())
      ensures readBuf.buf == old(readBuf.buf) || fresh(readBuf.buf)
    {
      hide Session, WsHub.Sound, Overflows;
      Receive(batch, pieces);
      if ending == HungUp {
        Abort();
        return false;
      }
      thrown := DecodeLoop(clock);
    }

    method Receive(batch: seq<byte>, pieces: nat -> nat)
      requires hub.Sound() && this in hub.conns && Rested()
      modifies readBuf, readBuf.buf, this`stream
      ensures hub.Sound() && Decoding() && active
      ensures stream == old(stream) + batch
      ensures readBuf.buf == old(readBuf.buf) || fresh(readBuf.buf)
    {
      hide Session, EncodeAll, AllSendable, Replies, RepliesIn, Texts, WsHub.Good, Decoding, Rested;
      Arrive(batch, pieces);
      ReadingKeepsGood();
      OthersStayGood();
      assert hub.Sound() && Decoding() && active;
    }

    method Arrive(batch: seq<byte>, pieces: nat -> nat)
      requires Rested()
      modifies readBuf, readBuf.buf, this`stream
      ensures Decoding() && stream == old(stream) + batch
      ensures readBuf.buf == old(readBuf.buf) || fresh(readBuf.buf)
    {
      hide Session;
      ReadMore(stream, received, readBuf.Contents(), batch);
      TakeIn(batch, pieces);
      stream := stream + batch;
    }

    /** The `recv` loop: at most 4096 bytes at a time go through a local array into the buffer. */
    method TakeIn(batch: seq<byte>, pieces: nat -> nat)
      requires readBuf.Valid()
      modifies readBuf, readBuf.buf
      ensures readBuf.Valid() && readBuf.Contents() == old(readBuf.Contents()) + batch
      ensures readBuf.buf == old(readBuf.buf) || fresh(readBuf.buf)
    {
      ghost var start := readBuf.Contents();
      var i, turn := 0, 0;
      while i < |batch|
        invariant i <= |batch| && readBuf.Valid()
        invariant readBuf.Contents() == start + batch[..i]
        invariant readBuf.buf == old(readBuf.buf) || fresh(readBuf.buf)
        decreases |batch| - i
      {
        var n := AtMost(pieces(turn), 4096, |batch| - i);
        readBuf.Append(batch[i..i + n]);
        TakeMore(start, batch, i, n);
        i, turn := i + n, turn + 1;
      }
      assert batch[..i] == batch;
    }

    /** Taking bytes in has no bearing on the sending side. */
    twostate lemma ReadingKeepsGood()
      requires old(hub.Sound()) && old(this in hub.conns)
      requires unchanged(`writeBuf) && unchanged(`writing) && unchanged(`active) && unchanged(`closeAfterWrite)
      requires unchanged(`interest) && unchanged(`sent) && unchanged(`frames) && unchanged(`received) && hub.room.log == old(hub.room.log)
      ensures hub.Good(this, |hub.room.log|) && active
    {
      assert old(hub.Good(this, |hub.room.log|));
    }

    method DecodeLoop(clock: nat -> int) returns (thrown: bool)
      requires hub.Sound() && this in hub.conns && Decoding() && active
      modifies readBuf`readPos, this`received, this`closeAfterWrite, this`active, this`interest
      modifies hub`conns, hub.conns`writeBuf, hub.conns`writing, hub.conns`interest, hub.conns`frames
      modifies hub.room`messages, hub.room`log
      ensures hub.Sound() && readBuf.Valid()
      ensures hub.conns == if active then old(hub.conns) else old(hub.conns) - {this}
      ensures old(received) <= received
      ensures hub.room.log == old(hub.room.log) + Spoken(hub.parse, username, received[|old(received)|..], clock)
      ensures Settled(active) && Answered()
      ensures thrown <==> active && Overflows(readBuf.Contents())
    {
      hide Session, EncodeAll, AllSendable, Replies, RepliesIn, Texts, WsHub.Sound, Overflows, Spoken, SaidBy, Closes;
      var again, turn := true, 0;
      thrown := false;
      ghost var start, log := received, hub.room.log;
      NothingSpoken(hub.parse, username, clock);
      assert received[|start|..] == [] && log + [] == log;
      while again
        invariant hub.Sound() && start <= received && readBuf.Valid()
        invariant hub.conns == if active then old(hub.conns) else old(hub.conns) - {this}
        invariant hub.room.log == log + Spoken(hub.parse, username, received[|start|..], clock)
        invariant again ==> active && Decoding() && |received| == |start| + turn
        invariant !again ==> Settled(active) && Answered() && (thrown <==> active && Overflows(readBuf.Contents()))
        decreases again, if again then |readBuf.Contents()| else 0
      {
        ghost var before := received;
        again, thrown := Step(clock(turn));
        if |received| > |before| {
          Grown(start, before, received);
          SpokenSnoc(hub.parse, username, before[|start|..], received[|before|], clock);
        }
        turn := turn + 1;
      }
    }

    static lemma NothingSpoken(parse: seq<byte> -> Incoming, username: string, clock: nat -> int)
      ensures Spoken(parse, username, [], clock) == []
    {
    }

    static lemma Grown(start: seq<Frame>, before: seq<Frame>, after: seq<Frame>)
      requires start <= before <= after && |after| == |before| + 1
      ensures after[|start|..] == before[|start|..] + [after[|before|]]
    {
    }

    /** In the decode loop: what is dispatched, followed by what the buffer decodes to, is the whole. */
    ghost predicate Decoding()
      reads this`stream, this`received, readBuf, readBuf.buf
    {
      readBuf.Valid() && Session(stream) == Preceded(received, Session(readBuf.Contents()))
    }

    /** One turn of the decode loop: take a frame and dispatch it. */
    method Step(now: int) returns (again: bool, thrown: bool)
      requires hub.Sound() && this in hub.conns && Decoding()
      modifies readBuf`readPos, this`received, this`closeAfterWrite, this`active, this`interest
      modifies hub`conns, hub.conns`writeBuf, hub.conns`writing, hub.conns`interest, hub.conns`frames
      modifies hub.room`messages, hub.room`log
      ensures hub.Sound() && readBuf.Valid()
      ensures hub.conns == if active then old(hub.conns) else old(hub.conns) - {this}
      ensures if received == old(received) then !again && hub.room.log == old(hub.room.log)
        else
          && old(received) <= received && |received| == |old(received)| + 1
          && hub.room.log == old(hub.room.log) + SaidBy(hub.parse, username, received[|old(received)|], now)
      ensures again ==> active && Decoding() && !thrown && |readBuf.Contents()| < |old(readBuf.Contents())|
      ensures !again ==> Settled(active) && Answered() && (thrown <==> active && Overflows(readBuf.Contents()))
    {
      hide Session, EncodeAll, AllSendable, Replies, RepliesIn, Texts, Decoding, Settled, WsHub.Sound, Pending, Answered, Overflows, SaidBy, Closes;
      Unchanging();
      var r;
      r, thrown := Take();
      if r == NeedMore {
        return false, thrown;
      }
      if r == ProtocolError {
        Abort();
        return false, false;
      }
      ghost var before := received;
      again := Dispatch(r.frame, now);
      Dispatched(before, r.frame);
    }

    method Dispatch(f: Frame, now: int) returns (again: bool)
      requires hub.Sound() && this in hub.conns && |f.payload| < 0x1_0000_0000_0000_0000
      modifies this`received, this`closeAfterWrite, this`active, this`interest
      modifies hub`conns, hub.conns`writeBuf, hub.conns`writing, hub.conns`interest, hub.conns`frames
      modifies hub.room`messages, hub.room`log
      ensures hub.Sound() && received == old(received) + [f]
      ensures hub.room.log == old(hub.room.log) + SaidBy(hub.parse, username, f, now)
      ensures again == !Stops(f) == active && (!again ==> Answered())
      ensures hub.conns == if active then old(hub.conns) else old(hub.conns) - {this}
    {
      hide EncodeAll, AllSendable, Replies, RepliesIn, Texts, Answered, Closes;
      assert hub.Good(this, |hub.room.log|);
      if f.opcode == TEXT {
        Say(f, now);
        again := true;
      } else {
        again := AnswerOrClose(f);
      }
    }

    /** A frame has been taken from the buffer and is about to be dispatched. */
    ghost predicate Pending(before: seq<Frame>, f: Frame)
      reads this`stream, readBuf, readBuf.buf
    {
      && readBuf.Valid()
      && Session(stream) == if Stops(f) then Drained(before + [f], readBuf.Contents(), false) else Preceded(before + [f], Session(readBuf.Contents()))
    }

    lemma Dispatched(before: seq<Frame>, f: Frame)
      requires Pending(before, f) && received == before + [f]
      ensures if Stops(f) then Settled(false) else Decoding()
    {
    }

    lemma Unchanging()
      requires hub.Sound() && this in hub.conns
      ensures active && Answered()
    {
      assert hub.Good(this, |hub.room.log|);
    }

    /** `tryDecode` and `consume`; fewer than two bytes need more like any other incomplete frame. */
    method Take() returns (r: DecodeResult, thrown: bool)
      requires Decoding()
      modifies readBuf`readPos
      ensures readBuf.Valid()
      ensures thrown <==> r == NeedMore && Overflows(readBuf.Contents())
      ensures match r
        case NeedMore => Settled(true)
        case ProtocolError => Settled(false)
        case Decoded(_, f) =>
          |readBuf.Contents()| < |old(readBuf.Contents())| && |f.payload| < 0x1_0000_0000_0000_0000 && Pending(received, f)
    {
      hide Session;
      var data := readBuf.Peek();
      Nothing(received, data);
      var n := readBuf.ReadableBytes();
      if n < 2 {
        return NeedMore, false;
      }
      r, thrown := TryDecode(data);
      if thrown {
        return NeedMore, true;
      }
      if r.Decoded? {
        Taken(received, data);
        readBuf.Consume(r.consumed);
      }
    }

    method Abort()
      requires hub.Sound() && this in hub.conns
      modifies this`active, this`interest, hub`conns
      ensures hub.Sound() && !active && hub.conns == old(hub.conns) - {this}
    {
      hide Session, EncodeAll, AllSendable, Replies, RepliesIn, Texts;
      assert hub.Good(this, |hub.room.log|);
      Close();
      OthersStayGood();
    }

    /** A text goes to the hub, which may write to every connection, this one included. */
    method Say(f: Frame, now: int)
      requires hub.Good(this, |hub.room.log|) && this in hub.conns && f.opcode == TEXT
      requires hub.ValidBut(this)
      modifies this`received
      modifies hub.conns`writeBuf, hub.conns`writing, hub.conns`interest, hub.conns`frames
      modifies hub.room`messages, hub.room`log
      ensures hub.Sound() && received == old(received) + [f]
      ensures hub.room.log == old(hub.room.log) + SaidBy(hub.parse, username, f, now)
    {
      hide EncodeAll, AllSendable, Replies, RepliesIn, Texts, Closes;
      TextsSnoc(received, f);
      received := received + [f];
      assert hub.Good(this, |hub.room.log|);
      OthersStayGood();
      hub.OnText(this, f.payload, now);
    }

    /** Any other frame is answered, ignored, or closes the connection. */
    method AnswerOrClose(f: Frame) returns (again: bool)
      requires hub.Good(this, |hub.room.log|) && this in hub.conns && f.opcode != TEXT && |f.payload| < 0x1_0000_0000_0000_0000
      requires hub.ValidBut(this)
      modifies this`received, this`closeAfterWrite, this`active, this`interest, this`writeBuf, this`writing, this`frames
      modifies hub`conns
      ensures hub.Sound() && received == old(received) + [f] && Answered()
      ensures again == !Stops(f) == active && closeAfterWrite == (old(closeAfterWrite) || f.opcode == CLOSE)
      ensures active == (f.opcode in {8, 9, 10})
      ensures f.opcode == 9 ==> frames == old(frames) + [Frame(true, 10, f.payload)]
      ensures f.opcode == 8 ==> frames == old(frames) + [Frame(true, 8, [])] && closeAfterWrite
      ensures f.opcode != 8 && f.opcode != 9 ==> frames == old(frames) && closeAfterWrite == old(closeAfterWrite)
      ensures hub.conns == if active then old(hub.conns) else old(hub.conns) - {this}
    {
      hide EncodeAll, AllSendable, Replies, RepliesIn, Texts, Closes, Writable;
      Acknowledge(f);
      ReplyIs(f);
      AnsweredNow();
      if Stops(f) {
        Close();
      }
      OthersStayGood();
      again := active;
    }

    lemma AnsweredNow()
      requires hub.Good(this, |hub.room.log|)
      ensures Answered() && active
    {
    }

    method Acknowledge(f: Frame)
      requires hub.room.Valid() && hub.Good(this, |hub.room.log|) && f.opcode != TEXT && |f.payload| < 0x1_0000_0000_0000_0000
      modifies this`received, this`closeAfterWrite, this`writeBuf, this`writing, this`interest, this`frames
      ensures hub.Good(this, |hub.room.log|) && received == old(received) + [f] && frames == old(frames) + Reply(f)
      ensures closeAfterWrite == (old(closeAfterWrite) || f.opcode == CLOSE)
    {
      hide *;
      Opened();
      Answer(f);
      TextsSnoc(received, f);
      received := received + [f];
      Reclosed();
      assert hub.Good(this, |hub.room.log|);
    }

    lemma Opened()
      requires hub.room.Valid() && hub.Good(this, |hub.room.log|)
      ensures Writable() && Answered() && active && hub.HasBeenSent(this, |hub.room.log|)
    {
    }

    twostate lemma Reclosed()
      requires hub.room.log == old(hub.room.log) && old(hub.Good(this, |hub.room.log|))
      requires Writable() && active && received != [] && received[..|received| - 1] == old(received)
      requires Texts(frames) == Texts(old(frames))
      requires RepliesIn(frames) == RepliesIn(old(frames)) + Reply(received[|received| - 1])
      requires closeAfterWrite == (old(closeAfterWrite) || received[|received| - 1].opcode == CLOSE)
      ensures hub.Good(this, |hub.room.log|)
    {
      hide EncodeAll, AllSendable, Texts, RepliesIn, Writable;
      assert old(Answered()) && old(hub.HasBeenSent(this, |hub.room.log|));
      assert hub.HasBeenSent(this, |hub.room.log|);
      assert Answered();
      assert hub.Good(this, |hub.room.log|);
    }

    /** PONG for a PING, an acknowledgement for a CLOSE, nothing for a PONG. */
    method Answer(f: Frame)
      requires Writable() && active && |f.payload| < 0x1_0000_0000_0000_0000
      modifies this`closeAfterWrite, this`writeBuf, this`writing, this`interest, this`frames
      ensures Writable() && frames == old(frames) + Reply(f)
      ensures closeAfterWrite == (old(closeAfterWrite) || f.opcode == CLOSE)
      ensures RepliesIn(frames) == RepliesIn(old(frames)) + Reply(f) && Texts(frames) == Texts(old(frames))
    {
      hide EncodeAll, AllSendable, Replies, RepliesIn, Texts, Closes;
      if f.opcode == PING {
        Queue(PONG, f.payload);
        TextsSnoc(old(frames), Frame(true, PONG, f.payload));
      } else if f.opcode == CLOSE {
        Queue(CLOSE, []);
        closeAfterWrite := true;
        TextsSnoc(old(frames), Frame(true, CLOSE, []));
      } else {
        assert frames + [] == frames;
      }
      assert Writable();
    }
  }

  class WsHub {
    const room: Room
    var conns: set<WsConnection>
    const parse: seq<byte> -> Incoming      // the JSON parser and the field checks of the text handler
    const toJson: Message -> Payload        // the JSON printer

    constructor (room: Room, parse: seq<byte> -> Incoming, toJson: Message -> Payload)
      requires room.Valid()
      modifies room`subscriber
      ensures Valid() && this.room == room && conns == {} && this.parse == parse && this.toJson == toJson
    {
      this.room, this.parse, this.toJson := room, parse, toJson;
      conns := {};
      new;
      hide Room.Valid, Valid;
      room.subscriber := this;
      NobodyYet();
      assert Valid();
    }

    lemma NobodyYet()
      requires room.Valid() && room.subscriber == this && conns == {}
      ensures Valid()
    {
      hide Room.Valid;
    }

    /** What every event finds and leaves. */
    ghost predicate Valid()
      reads this`conns, room, conns, Buffers(conns), Arrays(conns)
    {
      Sound() && Reading()
    }

    ghost predicate Sound()
      reads this`conns, room, conns
    {
      room.Valid() && room.subscriber == this && UpTo(|room.log|)
    }

    static ghost function Buffers(cs: set<WsConnection>): set<Buffer> {
      set c | c in cs :: c.readBuf
    }

    static ghost function Arrays(cs: set<WsConnection>): set<array<byte>>
      reads Buffers(cs)
    {
      set c | c in cs :: c.readBuf.buf
    }

    /** Every connection is up to date with its stream, in a buffer of its own. */
    ghost predicate Reading()
      reads this`conns, conns`stream, conns`received, Buffers(conns), Arrays(conns)
    {
      && (forall c :: c in conns ==> c.Rested())
      && (forall c, d :: c in conns && d in conns && c != d ==> c.readBuf != d.readBuf && c.readBuf.buf != d.readBuf.buf)
    }

    /** With nothing read, closing a connection leaves the reading state of the others alone. */
    twostate lemma StillReading()
      requires old(Reading()) && conns <= old(conns)
      requires forall d :: d in conns ==> unchanged(d`stream) && unchanged(d`received) && unchanged(d.readBuf) && unchanged(d.readBuf.buf)
      ensures Reading()
    {
      forall d | d in conns
        ensures d.Rested()
      {
        assert old(d.Rested());
      }
    }

    ghost predicate ValidBut(self: WsConnection)
      reads this`conns, room, conns
    {
      room.Valid() && room.subscriber == this && forall c :: c in conns && c != self ==> Good(c, |room.log|)
    }

    /** Every connection in the hub has been sent the first `n` messages of the room, from its adoption on. */
    ghost predicate UpTo(n: nat)
      requires n <= |room.log|
      reads this`conns, room`log, conns
    {
      forall c :: c in conns ==> Good(c, n)
    }

    ghost predicate Good(c: WsConnection, n: nat)
      requires n <= |room.log|
      reads room`log, c
    {
      c.hub == this && c.active && c.Writable() && c.Answered() && HasBeenSent(c, n)
    }

    ghost predicate HasBeenSent(c: WsConnection, n: nat)
      requires n <= |room.log|
      reads room`log, c`frames
    {
      c.since <= n && Texts(c.frames) == Jsons(room.log[c.since..n])
    }

    ghost function Jsons(messages: seq<Message>): (s: seq<seq<byte>>)
      ensures |s| == |messages|
    {
      seq(|messages|, i requires 0 <= i < |messages| => toJson(messages[i]))
    }

    lemma OneMoreMessage(frames: seq<Frame>, since: nat, n: nat)
      requires since <= n < |room.log| && Texts(frames) == Jsons(room.log[since..n])
      ensures Texts(frames + [Frame(true, TEXT, toJson(room.log[n]))]) == Jsons(room.log[since..n + 1])
    {
    }

    /** The close handler of an adopted connection. */
    method Forget(c: WsConnection)
      modifies this`conns
      ensures conns == old(conns) - {c}
    {
      conns := conns - {c};
    }

    /** `adoptConnection`: an upgraded socket joins, and hears everything said from now on. */
    method Adopt(username: string) returns (c: WsConnection)
      requires Valid()
      modifies this`conns
      ensures Valid() && fresh(c) && conns == old(conns) + {c}
      ensures c.username == username && c.since == |room.log| && c.stream == [] && c.frames == []
    {
      hide Good, WsConnection.Rested;
      c := new WsConnection(this, username, |room.log|);
      NewcomerGood(c);
      conns := conns + {c};
      forall d | d in conns
        ensures Good(d, |room.log|)
      {
        if d != c {
          assert old(Good(d, |room.log|));
        }
      }
      forall d | d in conns
        ensures d.Rested()
      {
        if d != c {
          assert old(d.Rested());
        }
      }
      assert Valid();
    }

    lemma NewcomerGood(c: WsConnection)
      requires c.hub == this && c.active && c.Writable() && c.Answered() && c.since == |room.log| && c.frames == []
      ensures Good(c, |room.log|)
    {
    }

    /** A message just recorded has not reached anybody yet. */
    twostate lemma LogGrew()
      requires old(Sound()) && old(room.log) <= room.log && conns == old(conns)
      requires forall c :: c in conns ==> unchanged(c)
      ensures UpTo(|old(room.log)|)
    {
      hide Jsons;
      var n := |old(room.log)|;
      forall c | c in conns
        ensures Good(c, n)
      {
        assert old(Good(c, n));
        assert room.log[c.since..n] == old(room.log)[c.since..n];
      }
    }

    /** One turn of the broadcast loop. */
    method Deliver(c: WsConnection, json: Payload, ghost n: nat)
      requires n < |room.log| && Good(c, n) && json == toJson(room.log[n])
      modifies c`writeBuf, c`writing, c`interest, c`frames
      ensures Good(c, n + 1) && c.frames == old(c.frames) + [Frame(true, TEXT, json)]
    {
      hide EncodeAll, AllSendable, Replies, RepliesIn, Texts, Jsons;
      OneMoreMessage(c.frames, c.since, n);
      TextsSnoc(c.frames, Frame(true, TEXT, json));
      if c.active {
        c.SendText(json);
      }
      assert Good(c, n + 1);
    }

    /** `broadcast` of the message that the room has just recorded, over a snapshot, in any order. */
    method Broadcast(m: Message)
      requires room.Valid() && room.subscriber == this
      requires |room.log| > 0 && m == room.log[|room.log| - 1] && UpTo(|room.log| - 1)
      modifies conns`writeBuf, conns`writing, conns`interest, conns`frames
      ensures Sound()
      ensures forall c :: c in conns ==> c.frames == old(c.frames) + [Frame(true, TEXT, toJson(m))]
    {
      hide Good;
      ghost var n := |room.log| - 1;
      var json := toJson(m);
      var todo := conns;
      while todo != {}
        invariant todo <= conns
        invariant forall c :: c in todo ==> Good(c, n) && c.frames == old(c.frames)
        invariant forall c :: c in conns && c !in todo ==> Good(c, n + 1) && c.frames == old(c.frames) + [Frame(true, TEXT, json)]
        decreases todo
      {
        var c :| c in todo;
        Deliver(c, json, n);
        todo := todo - {c};
      }
      assert UpTo(n + 1);
    }

    /** The text handler of an adopted connection. */
    method OnText(c: WsConnection, payload: seq<byte>, now: int)
      requires Sound()
      modifies conns`writeBuf, conns`writing, conns`interest, conns`frames
      modifies room`messages, room`log
      ensures Sound()
      ensures room.log == old(room.log) + Said(parse, c.username, payload, now)
      ensures parse(payload).Chat? && parse(payload).content != "" ==>
        room.log == old(room.log) + [Message(c.username, parse(payload).room, parse(payload).content, now)]
      ensures !(parse(payload).Chat? && parse(payload).content != "") ==> room.log == old(room.log)
    {
      match parse(payload) {
        case Ignored =>
        case Chat(to, content) =>
          if content == "" {
            return;
          }
          room.AddMessage(Message(c.username, to, content, now));
      }
    }
  }

  const MAX_HISTORY := 200

  class Room {
    var messages: seq<Message>
    var users: set<string>
    var subscriber: WsHub?
    ghost var log: seq<Message>  // every message ever added

    /** The history is the end of the log, at most MAX_HISTORY messages of it. */
    ghost predicate Valid()
      reads this`messages, this`log
    {
      && |messages| == (if |log| < MAX_HISTORY then |log| else MAX_HISTORY)
      && messages == log[|log| - |messages|..]
    }

    constructor ()
      ensures Valid() && log == [] && subscriber == null && users == {}
    {
      messages, users, subscriber, log := [], {}, null, [];
    }

    /** In every state: the last 200 of all messages ever added, or all of fewer. */
    lemma HistoryIs()
      requires Valid()
      ensures messages == if |log| <= 200 then log else log[|log| - 200..]
    {
      assert log[0..] == log;
    }

    ghost function Listeners(): set<WsConnection>
      reads this`subscriber, subscriber
    {
      if subscriber == null then {} else subscriber.conns
    }

    /** `addMessage`: record, forget the oldest beyond the limit, tell the subscriber. */
    method AddMessage(m: Message)
      requires Valid()
      requires subscriber != null ==> subscriber.room == this && subscriber.Sound()
      modifies this`messages, this`log
      modifies Listeners()`writeBuf, Listeners()`writing, Listeners()`interest, Listeners()`frames
      ensures Valid() && log == old(log) + [m]
      ensures subscriber != null ==> subscriber.Sound()
    {
      hide WsHub.Good, Valid;
      Record(m);
      if subscriber != null {
        subscriber.LogGrew();
        subscriber.Broadcast(m);
        assert subscriber.Sound();
      }
    }

    method Record(m: Message)
      requires Valid()
      modifies this`messages, this`log
      ensures Valid() && log == old(log) + [m]
    {
      messages := messages + [m];
      log := log + [m];
      if |messages| > MAX_HISTORY {
        messages := messages[1..];
      }
    }

    method AddUser(name: string)
      modifies this`users
      ensures users == old(users) + {name}
    {
      users := users + {name};
    }

    method RemoveUser(name: string)
      modifies this`users
      ensures users == old(users) - {name}
    {
      users := users - {name};
    }

    /** `recentMessages` */
    method RecentMessages(since: int) returns (out: seq<Message>)
      ensures out == Newer(messages, since)
      ensures forall m :: m in out <==> m in messages && m.time > since
    {
      out := [];
      for i := 0 to |messages|
        invariant out == Newer(messages[..i], since)
        invariant forall m :: m in out <==> m in messages[..i] && m.time > since
      {
        assert messages[..i + 1][..i] == messages[..i];
        if messages[i].time > since {
          out := out + [messages[i]];
        }
      }
      assert messages[..|messages|] == messages;
    }
  }

  /** The messages later than `since`, in order. */
  function Newer(messages: seq<Message>, since: int): seq<Message> {
    if messages == [] then []
    else
      var m := messages[|messages| - 1];
      Newer(messages[..|messages| - 1], since) + if m.time > since then [m] else []
  }

  function Later(messages: seq<Message>, since: int): (bs: seq<bool>)
    ensures |bs| == |messages|
  {
    seq(|messages|, i requires 0 <= i < |messages| => messages[i].time > since)
  }

  /** Exactly the messages with a later time, each as often as it is there, in the same order. */
  lemma {:induction false} NewerAre(messages: seq<Message>, since: int) returns (ks: seq<nat>)
    ensures Selects(ks, Later(messages, since), messages, Newer(messages, since))
  {
    hide Selects;
    if messages == [] {
      ks := [];
      SelectsNothing<Message>();
    } else {
      var k := |messages| - 1;
      var m, init := messages[k], messages[..k];
      ks := NewerAre(init, since);
      SelectsMore(ks, Later(init, since), init, Newer(init, since), m.time > since, m);
      ks := if m.time > since then ks + [k] else ks;
      assert Later(messages, since) == Later(init, since) + [m.time > since];
      assert messages == init + [m];
    }
  }

  /**
   * Fan-out, in every state the hub can reach: what a connected client has received and will receive parses
   * as the frames queued for it; their texts are, in order, the JSON of exactly the messages the room has
   * taken since the client joined; and what it has received so far parses as the first of those frames.
   */
  lemma FanOut(hub: WsHub, c: WsConnection)
    requires hub.Valid() && c in hub.conns
    ensures Hears(c.frames, c.sent, c.writeBuf)
    ensures c.since <= |hub.room.log| && Texts(c.frames) == hub.Jsons(hub.room.log[c.since..])
  {
    hide EncodeAll, AllSendable, Texts, Replies, RepliesIn, Hears, WsHub.Jsons;
    assert hub.Good(c, |hub.room.log|);
    OnTheWire(c.frames, c.sent, c.writeBuf);
    assert hub.room.log[c.since..|hub.room.log|] == hub.room.log[c.since..];
    assert Hears(c.frames, c.sent, c.writeBuf);
    assert Texts(c.frames) == hub.Jsons(hub.room.log[c.since..]);
  }

  /** A client that receives `sent` and then `pending` sees `frames`, nothing but texts and control frames. */
  ghost predicate Hears(frames: seq<Frame>, sent: seq<byte>, pending: seq<byte>) {
    && Stable(ServerFrame)
    && Drain(ServerFrame, Never(), sent + pending) == Drained(frames, [], true)
    && Drain(ServerFrame, Never(), sent).items <= frames
    && forall i :: 0 <= i < |frames| ==> frames[i].opcode == TEXT || frames[i].opcode == PING || frames[i].opcode == PONG || frames[i].opcode == CLOSE
  }

  lemma OnTheWire(frames: seq<Frame>, sent: seq<byte>, pending: seq<byte>)
    requires sent + pending == EncodeAll(EncodeServer, frames) && AllSendable(frames)
    ensures Hears(frames, sent, pending)
  {
    FramesArrive(frames);
    FramesArriveInOrder(frames, sent, pending);
  }

  /** The texts that a client can read in what it was sent and will be sent. */
  ghost function TextsTo(c: WsConnection): seq<seq<byte>>
    reads c
  {
    FramesStable();
    Texts(Drain(ServerFrame, Never(), c.sent + c.writeBuf).items)
  }

  /**
   * End to end: what `a` receives from its client becomes, for every `b` that stays, exactly the JSON of the
   * chat messages in the frames that `a`'s stream has completed, behind what `b`'s client was sent before.
   */
  method Relay(hub: WsHub, a: WsConnection, b: WsConnection, batch: seq<byte>, pieces: nat -> nat, clock: nat -> int)
    returns (thrown: bool)
    requires hub.Valid() && a in hub.conns && b in hub.conns && a.hub == hub
    modifies a.readBuf, a.readBuf.buf, a`stream, a`received, a`closeAfterWrite, a`active, a`interest
    modifies hub`conns, hub.conns`writeBuf, hub.conns`writing, hub.conns`interest, hub.conns`frames
    modifies hub.room`messages, hub.room`log
    ensures hub.Valid() && a.stream == old(a.stream) + batch && old(a.received) <= a.received == Session(a.stream).items
    ensures b in hub.conns ==>
      TextsTo(b) == old(TextsTo(b)) + hub.Jsons(Spoken(hub.parse, a.username, a.received[|old(a.received)|..], clock))
  {
    hide Spoken, WsHub.Valid, WsHub.Jsons, TextsTo;
    TextsAre(hub, b);
    ghost var log, since := hub.room.log, b.since;
    thrown := a.OnRead(batch, Again, pieces, clock);
    if b in hub.conns {
      TextsAre(hub, b);
      LogSuffix(hub, log, Spoken(hub.parse, a.username, a.received[|old(a.received)|..], clock), since);
    }
  }

  lemma TextsAre(hub: WsHub, c: WsConnection)
    requires hub.Valid() && c in hub.conns
    ensures c.since <= |hub.room.log| && TextsTo(c) == hub.Jsons(hub.room.log[c.since..])
  {
    FanOut(hub, c);
  }

  lemma LogSuffix(hub: WsHub, log: seq<Message>, more: seq<Message>, since: nat)
    requires since <= |log|
    ensures hub.Jsons((log + more)[since..]) == hub.Jsons(log[since..]) + hub.Jsons(more)
  {
  }

  /** A complete frame in the batch of the hang-up is not dispatched, though the stream has it. */
  method FrameLostToHangUp(c: WsConnection, pieces: nat -> nat, clock: nat -> int)
    requires c.hub.Valid() && c in c.hub.conns && c.stream == []
    modifies c.readBuf, c.readBuf.buf, c`stream, c`received, c`closeAfterWrite, c`active, c`interest
    modifies c.hub`conns, c.hub.conns`writeBuf, c.hub.conns`writing, c.hub.conns`interest, c.hub.conns`frames
    modifies c.hub.room`messages, c.hub.room`log
    ensures c.received == [] && !c.active && Session(c.stream).items == [Frame(true, 1, [])]
  {
    hide Session, WsHub.Valid;
    SixBytes();
    StreamRead(c);
    var batch: seq<byte> := [129, 128, 0, 0, 0, 0];
    assert [] + batch == batch;
    var thrown := c.OnRead(batch, Ending.HungUp, pieces, clock);
  }

  lemma StreamRead(c: WsConnection)
    requires c.hub.Valid() && c in c.hub.conns
    ensures c.readBuf.Valid() && Session(c.stream) == Drained(c.received, c.readBuf.Contents(), true)
  {
    hide Session;
    assert c.Rested();
  }
}
