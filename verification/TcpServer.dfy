/**
 * The TCP chat server as it runs: connections with their buffers, the table of users, the message handler and
 * the table that the idle timer walks. Every event is tied to a transition of `Chats`.
 */
module TcpServer {
  import opened Bytes
  import opened Buffers
  import opened Kernel
  import opened Streams
  import opened Packets
  import opened Wrappers
  import opened Chats
  import opened ChatLaws

  /** A body short enough for the length field of a packet. */
  type Body = s: seq<byte> | |s| < 0xFFFF_FFFF

  function Kind(n: Notice): byte {
    match n
    case Ack(_) => 2
    case Said(_, _, _) => 4
    case Users(_) => 5
    case Whisper(_, _, _) => 6
    case Pong => 8
    case Online(_, _) => 10
    case Offline(_, _) => 10
  }

  ghost predicate OneNameEach(users: map<string, Connection>) {
    forall m, n :: m in users && n in users && users[m] == users[n] ==> m == n
  }

  class Connection {
    const server: ChatServer
    const readBuf: Buffer
    var writeBuf: seq<byte>
    var state: State
    var username: string
    var writing: bool
    var lastActive: int
    ghost var outbox: seq<Notice>       // what has been queued
    ghost var sent: seq<byte>           // what the kernel has taken
    ghost var watched: bool             // whether the socket is in the reactor
    ghost var interest: bool            // whether the reactor watches it for writability
    ghost var stream: seq<byte>         // what the kernel has delivered
    ghost var dispatched: seq<Packet>   // what has been handed to the message handler

    constructor (server: ChatServer, now: int)
      ensures this.server == server && Info() == Peer(Connecting, "", [], now) && watched
      ensures Flowing() && Rested() && stream == [] && fresh(readBuf) && fresh(readBuf.buf)
    {
      this.server := server;
      readBuf := new Buffer();
      state, username, lastActive := Connecting, "", now;
      writeBuf, writing := [], false;
      outbox, sent, watched, interest, stream, dispatched := [], [], true, false, [], [];
      new;
      NextPacketStable();
    }

    ghost function Info(): Peer
      reads this`state, this`username, this`outbox, this`lastActive
    {
      Peer(state, username, outbox, lastActive)
    }

    /** Nothing queued is lost, duplicated or reordered, and no wakeup is missed. */
    ghost predicate Flowing()
      reads this`sent, this`writeBuf, this`outbox, this`writing, this`watched, this`interest
    {
      && sent + writeBuf == EncodeAll(Encode, server.Printed(outbox))
      && (writing <==> writeBuf != [])
      && (interest <==> watched && writing)
    }

    /**
     * The packets dispatched and the bytes kept are what the stream so far decodes to, however it was cut. The
     * buffer has never grown: it received all of the stream into its initial space.
     */
    ghost predicate Rested()
      reads this`stream, this`dispatched, readBuf, readBuf.buf
    {
      && readBuf.Valid() && readBuf.buf.Length == INITIAL_SIZE
      && readBuf.writePos == |stream| <= INITIAL_SIZE
      && PacketsIn(stream) == Drained(dispatched, readBuf.Contents(), true)
    }

    /** Encodes into the write buffer and asks for writability. */
    method Send(n: Notice)
      requires Flowing()
      modifies this`writeBuf, this`outbox, this`writing, this`interest
      ensures Flowing() && outbox == old(outbox) + [n]
    {
      hide ChatServer.Printed, ChatServer.Print, EncodeAll, Encode;
      var p := server.Print(n);
      server.Queued(sent, writeBuf, outbox, n);
      var bytes, overrun := EncodePacket(p);
      assert !overrun;
      writeBuf := writeBuf + bytes[..];
      outbox := outbox + [n];
      if !writing {
        interest := watched;
        writing := true;
      }
      assert Flowing();
    }

    /** `close`: out of the reactor, the callbacks of main.cpp, and only then the state. */
    method Close(now: int)
      requires server.Sound() && this in server.accepted
      modifies server.users`users, server.manager`conns
      modifies server.accepted`outbox, server.accepted`writeBuf, server.accepted`writing, server.accepted`interest
      modifies this`state, this`watched
      ensures server.Sound() && server.View() == Chats.Close(old(server.View()), this, now)
      ensures old(server.Watching()) ==> server.Watching()
    {
      if state == Closed {
        return;
      }
      hide Connection.Flowing, Depart;
      Deregister(now);
      MarkClosed();
      assert server.Sound();
      assert server.View() == Chats.Close(old(server.View()), this, now);
      assert old(server.Watching()) ==> server.Watching();
    }

    method Deregister(now: int)
      requires server.Sound() && this in server.accepted
      modifies server.users`users, server.manager`conns
      modifies server.accepted`outbox, server.accepted`writeBuf, server.accepted`writing, server.accepted`interest
      modifies this`watched
      ensures server.Sound() && this in server.accepted
      ensures var t := Depart(old(server.View()), this, now); server.View() == t.(registered := t.registered - {this})
      ensures old(server.Watching()) ==> server.Watching()
    {
      hide Connection.Flowing, Depart, ChatServer.Sound, ChatServer.View;
      server.Viewed();
      Unwatch();
      assert server.View() == old(server.View());
      server.handler.OnClose(this, now);
      Leave();
      assert var t := Depart(old(server.View()), this, now); server.View() == t.(registered := t.registered - {this});
      assert server.Sound();
      assert old(server.Watching()) ==> server.Watching();
    }

    method Leave()
      requires server.Sound()
      modifies server.manager`conns
      ensures server.Sound() && server.manager.conns == old(server.manager.conns) - {this}
      ensures var v := old(server.View()); server.View() == v.(registered := v.registered - {this})
    {
      hide Connection.Flowing;
      server.manager.Remove(this);
      assert server.Sound();
    }

    method MarkClosed()
      requires server.Sound() && this in server.accepted
      modifies this`state
      ensures server.Sound() && this in server.View().peers
      ensures var v := old(server.View()); server.View() == v.(peers := v.peers[this := v.peers[this].(state := Closed)])
    {
      hide Connection.Flowing;
      state := Closed;
      assert server.Sound();
    }

    /**
     * `onRead`. A batch that ends in a hang-up, or that fills the buffer's tail if `recv` then reads as one,
     * closes before anything of it is decoded. Otherwise the packets dispatched are those of the whole stream
     * so far, in order, and a stream that is broken closes after them. What the tail cannot take is not read.
     */
    method OnRead(batch: seq<byte>, ending: Ending, full: Ending, pieces: nat -> nat, now: int, clock: nat -> int)
      requires server.Valid() && this in server.manager.conns
      modifies this`dispatched, this`stream, this`lastActive, readBuf`readPos, readBuf`writePos, readBuf.buf
      modifies server.users`users, server.manager`conns, this`state, this`username, this`watched
      modifies server.accepted`outbox, server.accepted`writeBuf, server.accepted`writing, server.accepted`interest
      ensures server.Valid() && this in old(server.View()).peers
      ensures stream == old(stream) + Arriving(|old(stream)|, batch)
      ensures var s := Touch(old(server.View()), this, if stream == old(stream) then old(lastActive) else now);
        if Outcome(|old(stream)| + |batch|, ending, full) == Again then
          && old(dispatched) <= dispatched == PacketsIn(stream).items && LeftOver()
          && server.View() == AfterBatch(s, this, dispatched[|old(dispatched)|..], PacketsIn(stream).open, server.handler.parse, clock)
        else
          dispatched == old(dispatched) && server.View() == Chats.Close(s, this, clock(0))
    {
      hide Good, Handle, Chats.Close, ChatServer.Running, ChatServer.Watching, ChatServer.Sound, PacketsIn, LeftOver, ChatServer.View, Connection.Rested, AfterBatch, Touch;
      Unfold();
      ReadBatch(batch, ending, full, pieces, now, clock);
      OthersRest();
      assert server.Valid();
    }

    method ReadBatch(batch: seq<byte>, ending: Ending, full: Ending, pieces: nat -> nat, now: int, clock: nat -> int)
      requires server.Running() && this in server.accepted && Flowing() && Rested()
      modifies this`dispatched, this`stream, this`lastActive, readBuf`readPos, readBuf`writePos, readBuf.buf
      modifies server.users`users, server.manager`conns, this`state, this`username, this`watched
      modifies server.accepted`outbox, server.accepted`writeBuf, server.accepted`writing, server.accepted`interest
      ensures server.Running() && this in old(server.View()).peers
      ensures server.manager.conns <= old(server.manager.conns) && (this in server.manager.conns ==> Rested())
      ensures stream == old(stream) + Arriving(|old(stream)|, batch)
      ensures var s := Touch(old(server.View()), this, if stream == old(stream) then old(lastActive) else now);
        if Outcome(|old(stream)| + |batch|, ending, full) == Again then
          && old(dispatched) <= dispatched == PacketsIn(stream).items && LeftOver()
          && server.View() == AfterBatch(s, this, dispatched[|old(dispatched)|..], PacketsIn(stream).open, server.handler.parse, clock)
        else
          dispatched == old(dispatched) && server.View() == Chats.Close(s, this, clock(0))
    {
      hide Good, Handle, Chats.Close, ChatServer.Running, ChatServer.Watching, ChatServer.Sound, PacketsIn, Decoding, LeftOver, ChatServer.View;
      var ok := Receive(batch, ending, full, pieces, now);
      Touched();
      if ok {
        DecodeLoop(clock);
        BackToRest();
      } else {
        Abort(clock(0));
      }
    }

    /** Bytes that arrived or left have touched this connection and nothing else of the session. */
    twostate lemma Touched()
      requires old(server.Running()) && old(this in server.accepted) && server.accepted == old(server.accepted)
      requires server.users.users == old(server.users.users) && server.manager.conns == old(server.manager.conns)
      requires forall d :: d in server.accepted && d != this ==> unchanged(d)
      requires state == old(state) && username == old(username) && outbox == old(outbox) && watched == old(watched)
      requires Flowing()
      ensures server.Running() && this in old(server.View()).peers
      ensures server.View() == Touch(old(server.View()), this, lastActive)
    {
      hide Good, Connection.Flowing;
      TouchGood(old(server.View()), this, lastActive);
      assert server.View() == Touch(old(server.View()), this, lastActive);
      assert server.Running();
    }

    /** An event on one connection leaves the reading state of the others alone. */
    twostate lemma OthersRest()
      requires old(server.Reading()) && server.manager.conns <= old(server.manager.conns)
      requires forall d :: d in server.manager.conns && d != this ==>
        unchanged(d`stream) && unchanged(d`dispatched) && unchanged(d.readBuf) && unchanged(d.readBuf.buf)
      requires this in server.manager.conns ==> Rested() && readBuf.buf == old(readBuf.buf)
      ensures server.Reading()
    {
      forall d | d in server.manager.conns
        ensures d.Rested()
      {
        if d != this {
          assert old(d.Rested());
        }
      }
    }

    lemma BackToRest()
      requires LeftOver() && dispatched == PacketsIn(stream).items
      requires readBuf.buf.Length == INITIAL_SIZE && readBuf.writePos == |stream| <= INITIAL_SIZE
      ensures PacketsIn(stream).open ==> Rested()
    {
    }

    lemma Unfold()
      requires server.Valid() && this in server.manager.conns
      ensures server.Running() && this in server.accepted && Flowing() && Rested() && server.Reading() && this in server.View().peers
    {
    }

    /** One turn of the decode loop. */
    method Turn(now: int) returns (again: bool)
      requires server.Running() && this in server.accepted && Decoding()
      modifies this`dispatched, readBuf`readPos
      modifies server.users`users, server.manager`conns, this`state, this`username, this`watched
      modifies server.accepted`outbox, server.accepted`writeBuf, server.accepted`writing, server.accepted`interest
      ensures server.Running() && this in server.accepted && old(dispatched) <= dispatched
      ensures server.manager.conns <= old(server.manager.conns)
      ensures !again && !PacketsIn(stream).open ==> this !in server.manager.conns
      ensures again ==>
        && Decoding() && |dispatched| == |old(dispatched)| + 1 && readBuf.writePos >= readBuf.readPos > old(readBuf.readPos)
        && server.View() == Handle(old(server.View()), this, dispatched[|old(dispatched)|], server.handler.parse, now)
      ensures !again ==>
        && dispatched == old(dispatched) && PacketsIn(stream).items == dispatched && LeftOver()
        && server.View() == if PacketsIn(stream).open then old(server.View()) else Chats.Close(old(server.View()), this, now)
    {
      hide Good, Handle, Chats.Close, ChatServer.Running, ChatServer.Watching, ChatServer.Sound, PacketsIn, Decoding, LeftOver;
      var consumed, p, ok := Take();
      if !ok {
        if consumed == 0 {
          Abort(now);
        }
        return false;
      }
      Dispatch(p, now);
      again := true;
    }

    /** `decode` and `consume`; an empty buffer needs more bytes like any other incomplete packet. */
    method Take() returns (consumed: int, p: Packet, ok: bool)
      requires Decoding()
      modifies this`dispatched, readBuf`readPos
      ensures ok ==> Decoding() && dispatched == old(dispatched) + [p] && readBuf.writePos >= readBuf.readPos > old(readBuf.readPos)
      ensures !ok ==> dispatched == old(dispatched) == PacketsIn(stream).items && LeftOver() && PacketsIn(stream).open == (consumed != 0)
    {
      hide PacketsIn;
      var n := readBuf.ReadableBytes();
      var data := readBuf.Peek();
      DecodeTurn(dispatched, data);
      if n == 0 {
        return -1, Packet(0, []), false;
      }
      consumed, p, ok := DecodePacket(data);
      if ok {
        readBuf.Consume(consumed);
        dispatched := dispatched + [p];
      }
    }

    method Dispatch(p: Packet, now: int)
      requires server.Running() && this in server.accepted
      modifies server.users`users, server.manager`conns, this`state, this`username, this`watched
      modifies server.accepted`outbox, server.accepted`writeBuf, server.accepted`writing, server.accepted`interest
      ensures server.Running() && this in server.accepted
      ensures server.View() == Handle(old(server.View()), this, p, server.handler.parse, now)
      ensures server.manager.conns <= old(server.manager.conns)
    {
      hide Good, Handle, Connection.Flowing;
      HandleRegistered(server.View(), this, p, server.handler.parse, now);
      HandleGood(server.View(), this, p, server.handler.parse, now);
      server.handler.OnPacket(this, p, now);
    }

    /** A close by the peer, by an error or by the timer. */
    method Abort(now: int)
      requires server.Running() && this in server.accepted
      modifies server.users`users, server.manager`conns, this`state, this`watched
      modifies server.accepted`outbox, server.accepted`writeBuf, server.accepted`writing, server.accepted`interest
      ensures server.Running() && this in server.accepted
      ensures server.View() == Chats.Close(old(server.View()), this, now)
      ensures server.manager.conns == old(server.manager.conns) - {this} && writeBuf == old(writeBuf)
    {
      hide Good, Chats.Close, Connection.Flowing;
      CloseGood(server.View(), this, now);
      CloseDeparts(server.View(), this, now);
      Close(now);
      assert server.View().peers[this] == old(server.View()).peers[this].(state := Closed);
      SameBytes();
    }

    /** What is pending is determined by what was queued and what was sent. */
    twostate lemma SameBytes()
      requires old(Flowing()) && Flowing() && outbox == old(outbox) && sent == old(sent)
      ensures writeBuf == old(writeBuf)
    {
      var whole := EncodeAll(Encode, server.Printed(outbox));
      assert writeBuf == whole[|sent|..] && old(writeBuf) == whole[|sent|..];
    }

    /** The decode loop goes on after a LOGOUT: it ends when the bytes run out or are broken. */
    method DecodeLoop(clock: nat -> int)
      requires server.Running() && this in server.accepted && Decoding()
      modifies this`dispatched, readBuf`readPos
      modifies server.users`users, server.manager`conns, this`state, this`username, this`watched
      modifies server.accepted`outbox, server.accepted`writeBuf, server.accepted`writing, server.accepted`interest
      ensures server.Running() && this in server.accepted && LeftOver()
      ensures old(dispatched) <= dispatched == PacketsIn(stream).items
      ensures server.manager.conns <= old(server.manager.conns)
      ensures !PacketsIn(stream).open ==> this !in server.manager.conns
      ensures server.View() == AfterBatch(old(server.View()), this, dispatched[|old(dispatched)|..], PacketsIn(stream).open, server.handler.parse, clock)
    {
      hide Good, Handle, Chats.Close, ChatServer.Running, ChatServer.Watching, ChatServer.Sound, PacketsIn, Decoding, LeftOver, ChatServer.View;
      var again, turn := true, 0;
      ghost var start, s := dispatched, server.View();
      ViewHas();
      Bounds();
      while again
        invariant server.Running() && this in server.accepted && start <= dispatched && this in s.peers
        invariant server.manager.conns <= old(server.manager.conns)
        invariant !again && !PacketsIn(stream).open ==> this !in server.manager.conns
        invariant again ==>
          && Decoding() && readBuf.readPos <= readBuf.writePos && |dispatched| == |start| + turn
          && server.View() == DeliverAll(s, this, dispatched[|start|..], server.handler.parse, clock)
        invariant !again ==>
          && LeftOver() && dispatched == PacketsIn(stream).items
          && server.View() == AfterBatch(s, this, dispatched[|start|..], PacketsIn(stream).open, server.handler.parse, clock)
        decreases again, readBuf.writePos - readBuf.readPos
      {
        ghost var before := dispatched;
        again := Turn(clock(turn));
        if again {
          DeliverSnoc(s, this, before[|start|..], dispatched[|before|], server.handler.parse, clock);
          Grown(start, before, dispatched);
          turn := turn + 1;
        }
      }
    }

    lemma Bounds()
      requires Decoding()
      ensures readBuf.readPos <= readBuf.writePos
    {
    }

    lemma ViewHas()
      requires server.Running() && this in server.accepted
      ensures this in server.View().peers
    {
    }

    static lemma Grown(start: seq<Packet>, before: seq<Packet>, after: seq<Packet>)
      requires start <= before <= after && |after| == |before| + 1
      ensures after[|start|..] == before[|start|..] + [after[|before|]]
    {
    }

    /** The bytes kept are those that the decoder left over. */
    ghost predicate LeftOver()
      reads this`stream, readBuf, readBuf.buf
    {
      readBuf.Valid() && readBuf.Contents() == PacketsIn(stream).rest
    }

    method SetUsername(name: string)
      modifies this`username, this`state
      ensures username == name && state == Authenticated
    {
      username := name;
      state := Authenticated;
    }

    /**
     * `onRead` up to EAGAIN: each `recv` fills at most what is left of the buffer's tail. With nothing left, it
     * answers `full`: zero, which reads as a hang-up, or EAGAIN.
     */
    method Receive(batch: seq<byte>, ending: Ending, full: Ending, pieces: nat -> nat, now: int) returns (ok: bool)
      requires Rested()
      modifies this`stream, this`lastActive, readBuf`writePos, readBuf.buf
      ensures ok <==> Outcome(|old(stream)| + |batch|, ending, full) == Again
      ensures stream == old(stream) + Arriving(|old(stream)|, batch)
      ensures ok ==> Decoding() && readBuf.writePos == |stream| <= INITIAL_SIZE
      ensures lastActive == if stream == old(stream) then old(lastActive) else now
    {
      hide PacketsIn;
      ghost var start := readBuf.Contents();
      var i, turn := 0, 0;
      while true
        invariant i <= |batch| && |old(stream)| + i <= INITIAL_SIZE && readBuf.Valid() && readBuf.buf.Length == INITIAL_SIZE
        invariant readBuf.Contents() == start + batch[..i] && stream == old(stream) + batch[..i]
        invariant readBuf.writePos == |old(stream)| + i
        invariant lastActive == if i == 0 then old(lastActive) else now
        decreases |batch| - i
      {
        var room := readBuf.WritableBytes();
        if room == 0 {
          if full == HungUp {
            return false;
          }
          break;
        }
        if i == |batch| {
          if ending == HungUp {
            return false;
          }
          break;
        }
        var n := AtMost(pieces(turn), room, |batch| - i);
        readBuf.ReceiveInto(batch[i..i + n]);
        TakeMore(start, batch, i, n);
        TakeMore(old(stream), batch, i, n);
        stream := stream + batch[i..i + n];
        lastActive := now;
        i, turn := i + n, turn + 1;
      }
      Arrived(old(stream), dispatched, start, batch[..i]);
      assert Decoding();
      ok := true;
    }

    /** In the decode loop: what is dispatched, followed by what the buffer decodes to, is the whole. */
    ghost predicate Decoding()
      reads this`stream, this`dispatched, readBuf, readBuf.buf
    {
      && readBuf.Valid() && readBuf.buf.Length == INITIAL_SIZE
      && readBuf.writePos == |stream| <= INITIAL_SIZE
      && PacketsIn(stream) == Preceded(dispatched, PacketsIn(readBuf.Contents()))
    }

    /** The send loop: what the kernel takes moves from the write buffer to `sent`. */
    method Flush(results: seq<SendResult>, now: int) returns (outcome: Flushed)
      modifies this`writeBuf, this`sent, this`lastActive
      ensures var s := SendLoop(|old(writeBuf)|, results);
        && outcome == s.outcome && lastActive == (if s.taken == 0 then old(lastActive) else now)
        && sent == old(sent) + old(writeBuf)[..s.taken] && writeBuf == old(writeBuf)[s.taken..]
    {
      ghost var before, pending, k := sent, writeBuf, 0;
      var i := 0;
      NothingSent(|writeBuf|, results);
      assert before + pending[..0] == before;
      while writeBuf != []
        invariant k <= |pending| && writeBuf == pending[k..] && sent == before + pending[..k]
        invariant SentSoFar(|pending|, results, k, i)
        invariant lastActive == if k == 0 then old(lastActive) else now
        decreases |writeBuf|
      {
        SendTurn(|pending|, results, k, i);
        var r := if i < |results| then results[i] else WouldBlock;
        if r == WouldBlock {
          return Blocked;
        }
        if Fails(r) {
          return Broken;
        }
        var n := if r.n <= |writeBuf| then r.n else |writeBuf|;
        Advance(before, pending, k, n);
        sent := sent + writeBuf[..n];
        writeBuf := writeBuf[n..];
        lastActive := now;
        k := k + n;
        i := i + 1;
      }
      return AllSent;
    }

    /**
     * `onWrite`: what is sent is what the kernel takes, and a failed send is a close. It can also be called
     * right after the read callback has closed the connection.
     */
    method OnWrite(results: seq<SendResult>, now: int)
      requires server.Valid() && this in server.accepted
      modifies this`sent, this`lastActive, server.users`users, server.manager`conns, this`state, this`watched
      modifies server.accepted`outbox, server.accepted`writeBuf, server.accepted`writing, server.accepted`interest
      ensures server.Valid() && this in old(server.View()).peers
      ensures var s := SendLoop(|old(writeBuf)|, results);
        var t := Touch(old(server.View()), this, if s.taken == 0 then old(lastActive) else now);
        && sent == old(sent) + old(writeBuf)[..s.taken] && writeBuf == old(writeBuf)[s.taken..]
        && server.View() == if s.outcome == Broken then Chats.Close(t, this, now) else t
      ensures TakesEveryTime(results) && |results| >= |old(writeBuf)| ==> writeBuf == [] && sent == old(sent + writeBuf)
    {
      hide Good, Chats.Close, ChatServer.Running, ChatServer.View, Connection.Rested, Connection.Flowing;
      ToWrite();
      var outcome := SendPending(results, now);
      Touched();
      if outcome.Broken? {
        Abort(now);
      }
      server.StillReading();
      if TakesEveryTime(results) && |results| >= |old(writeBuf)| {
        EverythingSent(|old(writeBuf)|, results);
      }
      assert server.Valid();
    }

    /** Sends, and stops asking for writability when everything is sent. */
    method SendPending(results: seq<SendResult>, now: int) returns (outcome: Flushed)
      requires Flowing()
      modifies this`writeBuf, this`sent, this`lastActive, this`writing, this`interest
      ensures Flowing()
      ensures var s := SendLoop(|old(writeBuf)|, results);
        && outcome == s.outcome && lastActive == (if s.taken == 0 then old(lastActive) else now)
        && sent == old(sent) + old(writeBuf)[..s.taken] && writeBuf == old(writeBuf)[s.taken..]
    {
      outcome := Flush(results, now);
      Advance(old(sent), old(writeBuf), 0, SendLoop(|old(writeBuf)|, results).taken);
      assert sent + writeBuf == old(sent + writeBuf);
      if outcome.AllSent? && writing {
        interest := false;
        writing := false;
      }
    }

    lemma ToWrite()
      requires server.Valid() && this in server.accepted
      ensures server.Running() && server.Reading() && Flowing() && (this in server.manager.conns ==> Rested())
    {
    }

    /** `removeFd` */
    method Unwatch()
      requires server.Sound() && this in server.accepted
      modifies this`watched, this`interest
      ensures server.Sound() && !watched
    {
      hide Flowing;
      Remove();
      assert server.Sound();
    }

    method Remove()
      requires Flowing()
      modifies this`watched, this`interest
      ensures Flowing() && !watched
    {
      watched := false;
      interest := false;
    }
  }

  /** How reading ends when `total` bytes would have been received: as the kernel says, or as it says without room. */
  function Outcome(total: nat, ending: Ending, full: Ending): Ending {
    if total < INITIAL_SIZE then ending else full
  }

  /** What of a batch there is room for. */
  function Arriving(used: nat, batch: seq<byte>): seq<byte>
    requires used <= INITIAL_SIZE
  {
    if used + |batch| < INITIAL_SIZE then batch else batch[..INITIAL_SIZE - used]
  }

  /** The packets of one batch, one after the other; the clock is read again for each. */
  ghost function DeliverAll(s: Chat<Connection>, c: Connection, packets: seq<Packet>, parse: seq<byte> -> Fields, clock: nat -> int): (t: Chat<Connection>)
    requires c in s.peers
    ensures t.peers.Keys == s.peers.Keys
  {
    if packets == [] then s
    else
      var k := |packets| - 1;
      Handle(DeliverAll(s, c, packets[..k], parse, clock), c, packets[k], parse, clock(k))
  }

  lemma DeliverSnoc(s: Chat<Connection>, c: Connection, packets: seq<Packet>, p: Packet, parse: seq<byte> -> Fields, clock: nat -> int)
    requires c in s.peers
    ensures DeliverAll(s, c, packets + [p], parse, clock) == Handle(DeliverAll(s, c, packets, parse, clock), c, p, parse, clock(|packets|))
  {
    assert (packets + [p])[..|packets|] == packets;
  }

  /** A batch of packets, and the close if broken bytes follow them. */
  ghost function AfterBatch(s: Chat<Connection>, c: Connection, packets: seq<Packet>, open: bool, parse: seq<byte> -> Fields, clock: nat -> int): Chat<Connection>
    requires c in s.peers
  {
    var t := DeliverAll(s, c, packets, parse, clock);
    if open then t else Chats.Close(t, c, clock(|packets|))
  }

  /** What the decode loop makes of a client's bytes. */
  ghost function PacketsIn(stream: seq<byte>): Drained<Packet> {
    NextPacketStable();
    Drain(NextPacket, Never(), stream)
  }

  /** New bytes go behind those that were waiting. */
  lemma Arrived(stream: seq<byte>, dispatched: seq<Packet>, kept: seq<byte>, batch: seq<byte>)
    requires PacketsIn(stream) == Drained(dispatched, kept, true)
    ensures PacketsIn(stream + batch) == Preceded(dispatched, PacketsIn(kept + batch))
  {
    NextPacketStable();
    DrainAppend(NextPacket, Never(), stream, batch);
  }

  /** What one turn of the decode loop does to the bytes kept. */
  lemma DecodeTurn(dispatched: seq<Packet>, kept: seq<byte>)
    ensures match Decode(kept)
      case NeedMore => Preceded(dispatched, PacketsIn(kept)) == Drained(dispatched, kept, true)
      case Malformed => Preceded(dispatched, PacketsIn(kept)) == Drained(dispatched, kept, false)
      case Decoded(n, p) => 0 < n <= |kept| && Preceded(dispatched, PacketsIn(kept)) == Preceded(dispatched + [p], PacketsIn(kept[n..]))
  {
  }

  class UserManager {
    var users: map<string, Connection>

    constructor ()
      ensures users == map[]
    {
      users := map[];
    }

    method Add(name: string, c: Connection) returns (ok: bool)
      modifies this`users
      ensures ok == (name !in old(users))
      ensures users == if ok then old(users)[name := c] else old(users)
    {
      if name in users {
        return false;
      }
      users := users[name := c];
      return true;
    }

    /** The first entry found is erased, in any order of iteration: that is enough if there is only one. */
    method Remove(c: Connection)
      requires OneNameEach(users)
      modifies this`users
      ensures users == map n | n in old(users) && old(users)[n] != c :: old(users)[n]
    {
      var todo := users.Keys;
      while todo != {}
        invariant users == old(users) && todo <= users.Keys
        invariant forall n :: n in users && n !in todo ==> users[n] != c
        decreases todo
      {
        var n :| n in todo;
        if users[n] == c {
          users := users - {n};
          break;
        }
        todo := todo - {n};
      }
    }

    method Get(name: string) returns (c: Connection?)
      ensures c == if name in users then users[name] else null
    {
      c := if name in users then users[name] else null;
    }

    /** The names in the order of iteration, each once. */
    method Usernames() returns (names: seq<string>)
      ensures Elements(names) == users.Keys && Distinct(names)
    {
      names := [];
      var todo := users.Keys;
      while todo != {}
        invariant todo <= users.Keys
        invariant Elements(names) == users.Keys - todo && Distinct(names)
        decreases todo
      {
        var n :| n in todo;
        ElementsSnoc(names, n);
        names := names + [n];
        todo := todo - {n};
      }
    }

    /** One packet to every user but `except`. */
    method Broadcast(n: Notice, except: Connection?)
      requires OneNameEach(users) && forall c :: c in users.Values ==> c.Flowing()
      modifies users.Values`outbox, users.Values`writeBuf, users.Values`writing, users.Values`interest
      ensures forall c :: c in users.Values ==> c.Flowing() && c.outbox == if c == except then old(c.outbox) else old(c.outbox) + [n]
    {
      hide Connection.Flowing;
      var todo := users.Keys;
      while todo != {}
        invariant todo <= users.Keys
        invariant forall c :: c in users.Values ==> c.Flowing()
        invariant forall m :: m in todo ==> users[m].outbox == old(users[m].outbox)
        invariant forall m :: m in users && m !in todo ==>
          users[m].outbox == if users[m] == except then old(users[m].outbox) else old(users[m].outbox) + [n]
        decreases todo
      {
        var m :| m in todo;
        if users[m] != except {
          users[m].Send(n);
        }
        todo := todo - {m};
      }
      assert forall c :: c in users.Values ==> c.Flowing() && c.outbox == if c == except then old(c.outbox) else old(c.outbox) + [n];
    }
  }

  class MessageHandler {
    const users: UserManager
    const parse: seq<byte> -> Fields

    constructor (users: UserManager, parse: seq<byte> -> Fields)
      ensures this.users == users && this.parse == parse
    {
      this.users, this.parse := users, parse;
    }

    /** The state that the handler finds when it is called about `c`. */
    ghost predicate Serves(c: Connection)
      reads c.server`accepted, c.server.users`users, c.server.manager`conns, c.server.accepted`sent, c.server.accepted`writeBuf
      reads c.server.accepted`outbox, c.server.accepted`writing, c.server.accepted`watched, c.server.accepted`interest
    {
      c.server.handler == this && c.server.Sound() && c in c.server.accepted
    }

    method Reply(c: Connection, n: Notice)
      requires Serves(c)
      modifies c`outbox, c`writeBuf, c`writing, c`interest
      ensures Serves(c) && c.server.View() == Tell(old(c.server.View()), {c}, [n])
    {
      hide Connection.Flowing;
      c.Send(n);
      assert Serves(c);
      assert c.server.View() == Tell(old(c.server.View()), {c}, [n]);
    }

    method Broadcast(c: Connection, n: Notice, except: Connection?)
      requires Serves(c)
      modifies c.server.accepted`outbox, c.server.accepted`writeBuf, c.server.accepted`writing, c.server.accepted`interest
      ensures Serves(c)
      ensures c.server.View() == Tell(old(c.server.View()), if except == null then users.users.Values else users.users.Values - {except}, [n])
    {
      hide Connection.Flowing;
      users.Broadcast(n, except);
      assert Serves(c);
      assert c.server.View() == Tell(old(c.server.View()), if except == null then users.users.Values else users.users.Values - {except}, [n]);
    }

    /** The system notice and the list that follow every login and departure. */
    method Announce(c: Connection, news: Notice)
      requires Serves(c)
      modifies c.server.accepted`outbox, c.server.accepted`writeBuf, c.server.accepted`writing, c.server.accepted`interest
      ensures Serves(c) && c.server.View() == Chats.Announce(old(c.server.View()), news)
    {
      hide Connection.Flowing, Tell, ChatServer.Sound, OneNameEach, Distinct;
      Wired(c);
      Broadcast(c, news, null);
      var names := users.Usernames();
      Broadcast(c, Users(Elements(names)), null);
      TellTwice(old(c.server.View()), users.users.Values, news, Users(users.users.Keys));
      assert c.server.View() == Chats.Announce(old(c.server.View()), news);
      assert Serves(c);
    }

    method RemoveUser(c: Connection)
      requires Serves(c)
      modifies users`users
      ensures Serves(c) && c.server.View() == Without(old(c.server.View()), c)
    {
      hide Connection.Flowing;
      users.Remove(c);
      assert Serves(c);
    }

    lemma Wired(c: Connection)
      requires Serves(c)
      ensures c.server.users == users
    {
    }

    method OnClose(c: Connection, now: int)
      requires Serves(c)
      modifies users`users
      modifies c.server.accepted`outbox, c.server.accepted`writeBuf, c.server.accepted`writing, c.server.accepted`interest
      ensures Serves(c) && c.server.View() == Depart(old(c.server.View()), c, now)
    {
      hide Connection.Flowing, Tell, Chats.Announce, Without;
      if c.state != Authenticated {
        assert c.server.View() == Depart(old(c.server.View()), c, now);
        return;
      }
      var name := c.username;
      RemoveUser(c);
      Announce(c, Offline(name, now));
      assert c.server.View() == Depart(old(c.server.View()), c, now);
    }

    method OnPacket(c: Connection, p: Packet, now: int)
      requires Serves(c) && Good(c.server.View())
      modifies users`users, c.server.manager`conns, c`state, c`username, c`watched
      modifies c.server.accepted`outbox, c.server.accepted`writeBuf, c.server.accepted`writing, c.server.accepted`interest
      ensures old(c.server.Watching()) ==> c.server.Watching()
      ensures Serves(c) && c.server.View() == Handle(old(c.server.View()), c, p, parse, now)
    {
      hide Connection.Flowing, Good, Login, Say, Confide, Logout, Tell;
      if p.kind == LOGIN {
        HandleLogin(c, p, now);
      } else if p.kind == CHAT {
        HandleChat(c, p, now);
      } else if p.kind == PRIVATE {
        HandlePrivate(c, p);
      } else if p.kind == USER_LIST {
        HandleUserList(c);
      } else if p.kind == PING {
        Reply(c, Pong);
      } else if p.kind == LOGOUT {
        HandleLogOut(c, now);
      }
      assert c.server.View() == Handle(old(c.server.View()), c, p, parse, now);
    }

    method HandleLogin(c: Connection, p: Packet, now: int)
      requires Serves(c) && Good(c.server.View())
      modifies users`users, c`state, c`username
      modifies c.server.accepted`outbox, c.server.accepted`writeBuf, c.server.accepted`writing, c.server.accepted`interest
      ensures Serves(c) && c.server.View() == Login(old(c.server.View()), c, parse(p.body), now)
    {
      hide Connection.Flowing, Tell, Chats.Announce;
      if c.state == Authenticated {
        Reply(c, Ack(Some(AlreadyLoggedIn)));
        return;
      }
      var j := parse(p.body);
      if j.Unparsable? {
        Reply(c, Ack(Some(BadFormat)));
        return;
      }
      if j.username == "" {
        Reply(c, Ack(Some(EmptyName)));
        return;
      }
      Enroll(c, j.username, now);
    }

    method Enroll(c: Connection, name: string, now: int)
      requires Serves(c) && Good(c.server.View()) && c.state != Authenticated
      modifies users`users, c`state, c`username
      modifies c.server.accepted`outbox, c.server.accepted`writeBuf, c.server.accepted`writing, c.server.accepted`interest
      ensures Serves(c) && c in old(c.server.View()).peers
      ensures var s := old(c.server.View());
        c.server.View() == if name in s.users then Refuse(s, c, NameTaken) else Chats.Announce(Enter(s, c, name), Online(name, now))
    {
      hide Connection.Flowing, Tell, Chats.Announce, Good, OneNameEach;
      var ok := AddUser(c, name);
      if !ok {
        Reply(c, Ack(Some(NameTaken)));
        assert Serves(c);
        return;
      }
      ghost var s := old(c.server.View());
      EnterInSteps(s, c, name);
      Welcome(c, name, now);
      assert c.server.View() == Chats.Announce(Enter(s, c, name), Online(name, now));
      assert Serves(c);
    }

    method AddUser(c: Connection, name: string) returns (ok: bool)
      requires Serves(c) && Good(c.server.View()) && c.state != Authenticated
      modifies users`users
      ensures Serves(c) && ok == (name !in old(users.users))
      ensures var s := old(c.server.View()); c.server.View() == if ok then s.(users := s.users[name := c]) else s
    {
      hide Connection.Flowing;
      NotYetAUser(c);
      ok := users.Add(name, c);
      assert Serves(c);
    }

    method Welcome(c: Connection, name: string, now: int)
      requires Serves(c)
      modifies c`state, c`username
      modifies c.server.accepted`outbox, c.server.accepted`writeBuf, c.server.accepted`writing, c.server.accepted`interest
      ensures Serves(c) && c in old(c.server.View()).peers
      ensures var s := old(c.server.View());
        var t := s.(peers := s.peers[c := s.peers[c].(state := Authenticated, username := name)]);
        c.server.View() == Chats.Announce(Tell(t, {c}, [Ack(None)]), Online(name, now))
    {
      hide Connection.Flowing, Tell, Chats.Announce;
      c.SetUsername(name);
      ghost var s := old(c.server.View());
      assert Serves(c);
      assert c.server.View() == s.(peers := s.peers[c := s.peers[c].(state := Authenticated, username := name)]);
      Reply(c, Ack(None));
      Announce(c, Online(name, now));
    }

    lemma NotYetAUser(c: Connection)
      requires Serves(c) && Good(c.server.View()) && c.state != Authenticated
      ensures c !in users.users.Values
    {
    }

    method HandleChat(c: Connection, p: Packet, now: int)
      requires Serves(c) && Good(c.server.View())
      modifies c.server.accepted`outbox, c.server.accepted`writeBuf, c.server.accepted`writing, c.server.accepted`interest
      ensures Serves(c) && c.server.View() == Say(old(c.server.View()), c, parse(p.body), now)
    {
      if c.state != Authenticated {
        Reply(c, Ack(Some(NotLoggedIn)));
        return;
      }
      var j := parse(p.body);
      if j.Unparsable? || j.content == "" {
        return;
      }
      Broadcast(c, Said(c.username, j.content, now), c);
    }

    method HandlePrivate(c: Connection, p: Packet)
      requires Serves(c) && Good(c.server.View())
      modifies c.server.accepted`outbox, c.server.accepted`writeBuf, c.server.accepted`writing, c.server.accepted`interest
      ensures Serves(c) && c.server.View() == Confide(old(c.server.View()), c, parse(p.body))
    {
      hide Connection.Flowing, Tell, Good;
      if c.state != Authenticated {
        Reply(c, Ack(Some(NotLoggedIn)));
        return;
      }
      var j := parse(p.body);
      if j.Unparsable? {
        return;
      }
      var target := users.Get(j.to);
      if target == null {
        Reply(c, Ack(Some(NoSuchUser)));
        assert c.server.View() == Confide(old(c.server.View()), c, parse(p.body));
        return;
      }
      Reply(target, Whisper(c.username, j.content, j.to));
      assert c.server.View() == Confide(old(c.server.View()), c, parse(p.body));
    }

    method HandleUserList(c: Connection)
      requires Serves(c) && Good(c.server.View())
      modifies c.server.accepted`outbox, c.server.accepted`writeBuf, c.server.accepted`writing, c.server.accepted`interest
      ensures Serves(c) && c.server.View() == Tell(old(c.server.View()), {c}, [Users(old(c.server.View()).users.Keys)])
    {
      hide Connection.Flowing, Tell, Good;
      var names := users.Usernames();
      Reply(c, Users(Elements(names)));
    }

    method HandleLogOut(c: Connection, now: int)
      requires Serves(c) && Good(c.server.View())
      modifies users`users, c.server.manager`conns, c`state, c`watched
      modifies c.server.accepted`outbox, c.server.accepted`writeBuf, c.server.accepted`writing, c.server.accepted`interest
      ensures old(c.server.Watching()) ==> c.server.Watching()
      ensures Serves(c) && c.server.View() == Logout(old(c.server.View()), c, now)
    {
      hide Connection.Flowing, Chats.Close, Good, Without, OneNameEach;
      if c.state == Closed {
        assert c.server.View() == Logout(old(c.server.View()), c, now);
        return;
      }
      RemoveUser(c);
      c.Close(now);
      assert Serves(c) && (old(c.server.Watching()) ==> c.server.Watching());
      assert c.server.View() == Logout(old(c.server.View()), c, now);
    }
  }

  lemma EnterInSteps<C>(s: Chat<C>, c: C, name: string)
    requires c in s.peers
    ensures Tell(s.(users := s.users[name := c], peers := s.peers[c := s.peers[c].(state := Authenticated, username := name)]), {c}, [Ack(None)])
      == Enter(s, c, name)
  {
  }

  lemma TellTwice<C>(s: Chat<C>, to: set<C>, m: Notice, n: Notice)
    ensures Tell(Tell(s, to, [m]), to, [n]) == Tell(s, to, [m, n])
  {
    forall c | c in s.peers
      ensures (s.peers[c].outbox + [m]) + [n] == s.peers[c].outbox + [m, n]
    {
    }
  }

  class ConnectionManager {
    var conns: set<Connection>

    constructor ()
      ensures conns == {}
    {
      conns := {};
    }

    method Add(c: Connection)
      modifies this`conns
      ensures conns == old(conns) + {c}
    {
      conns := conns + {c};
    }

    method Remove(c: Connection)
      modifies this`conns
      ensures conns == old(conns) - {c}
    {
      conns := conns - {c};
    }

    /** The idle connections at one reading of the clock, in the order of iteration. */
    method Collect(now: int, timeout: int) returns (toClose: seq<Connection>)
      ensures Distinct(toClose) && Elements(toClose) == set c | c in conns && now - c.lastActive > timeout
    {
      toClose := [];
      var todo := conns;
      while todo != {}
        invariant todo <= conns && Distinct(toClose)
        invariant Elements(toClose) == set c | c in conns - todo && now - c.lastActive > timeout
        decreases todo
      {
        var c :| c in todo;
        if now - c.lastActive > timeout {
          ElementsSnoc(toClose, c);
          toClose := toClose + [c];
        }
        todo := todo - {c};
      }
    }

    /** `tick`: closing changes `conns`, so the idle connections are collected first. */
    method Tick(server: ChatServer, now: int, timeout: int, clock: nat -> int) returns (ghost order: seq<Connection>)
      requires server.Valid() && server.manager == this
      modifies server.users`users, this`conns, server.accepted`state, server.accepted`watched
      modifies server.accepted`outbox, server.accepted`writeBuf, server.accepted`writing, server.accepted`interest
      ensures server.Valid() && Lists(order, Idle(old(server.View()), now, timeout))
      ensures server.View() == CloseAll(old(server.View()), order, clock)
    {
      hide Good, Chats.Close, ChatServer.Running, ChatServer.Reading, ChatServer.View, Idle;
      var toClose := Collect(now, timeout);
      order := toClose;
      server.Members(toClose);
      IdleNow(server, order, now, timeout);
      CloseEach(server, toClose, clock);
      server.StillReading();
      assert server.Valid();
    }

    method CloseEach(server: ChatServer, toClose: seq<Connection>, clock: nat -> int)
      requires server.Running() && server.manager == this
      requires forall c :: c in toClose ==> c in server.accepted && c.server == server
      modifies server.users`users, this`conns, server.accepted`state, server.accepted`watched
      modifies server.accepted`outbox, server.accepted`writeBuf, server.accepted`writing, server.accepted`interest
      ensures server.Running() && conns <= old(conns)
      ensures server.View() == CloseAll(old(server.View()), toClose, clock)
    {
      server.Viewed();
      hide Good, Chats.Close, CloseAll, ChatServer.Running, ChatServer.View;
      ghost var s := server.View();
      CloseNone(s, toClose, clock);
      for i := 0 to |toClose|
        invariant server.Running() && conns <= old(conns)
        invariant server.View() == CloseAll(s, toClose[..i], clock)
      {
        CloseOneMore(s, toClose, i, clock);
        toClose[i].Abort(clock(i));
      }
      assert toClose[..|toClose|] == toClose;
      assert server.View() == CloseAll(old(server.View()), toClose, clock);
    }

    lemma CloseNone(s: Chat<Connection>, order: seq<Connection>, clock: nat -> int)
      ensures CloseAll(s, order[..0], clock) == s
    {
    }

    lemma CloseOneMore(s: Chat<Connection>, order: seq<Connection>, i: nat, clock: nat -> int)
      requires i < |order| && forall c :: c in order ==> c in s.peers
      ensures CloseAll(s, order[..i + 1], clock) == Chats.Close(CloseAll(s, order[..i], clock), order[i], clock(i))
    {
      assert order[..i + 1][..i] == order[..i];
    }

    lemma IdleNow(server: ChatServer, order: seq<Connection>, now: int, timeout: int)
      requires server.Running() && server.manager == this
      requires Distinct(order) && Elements(order) == set c | c in conns && now - c.lastActive > timeout
      ensures Lists(order, Idle(server.View(), now, timeout))
    {
      var s := server.View();
      assert forall c :: c in conns ==> s.peers[c].lastActive == c.lastActive;
      assert forall c :: c in order <==> c in Elements(order);
    }
  }

  /** The wiring of main.cpp. */
  class ChatServer {
    const users: UserManager
    const handler: MessageHandler
    const manager: ConnectionManager
    const body: Notice -> Body              // the JSON printer
    ghost var accepted: set<Connection>     // every connection ever accepted

    function Print(n: Notice): Packet {
      Packet(Kind(n), if n.Pong? then [] else body(n))
    }

    ghost function Printed(notices: seq<Notice>): seq<Packet> {
      seq(|notices|, i requires 0 <= i < |notices| => Print(notices[i]))
    }

    /** The next packet of the stream that a peer is sent. */
    lemma Queued(sent: seq<byte>, pending: seq<byte>, notices: seq<Notice>, n: Notice)
      requires sent + pending == EncodeAll(Encode, Printed(notices))
      ensures |Print(n).body| + TYPE_SIZE < Packets.WORD && Encode(Print(n)) != []
      ensures sent + (pending + Encode(Print(n))) == EncodeAll(Encode, Printed(notices + [n]))
    {
      PrintedSnoc(notices, n);
      EncodeAllSnoc(Encode, Printed(notices), Print(n));
      Reassociate(sent, pending, Encode(Print(n)));
    }

    lemma PrintedSnoc(notices: seq<Notice>, n: Notice)
      ensures Printed(notices + [n]) == Printed(notices) + [Print(n)]
    {
    }

    ghost predicate Sound()
      reads this`accepted, users`users, manager`conns
      reads accepted`sent, accepted`writeBuf, accepted`outbox, accepted`writing, accepted`watched, accepted`interest
    {
      && handler.users == users
      && users.users.Values <= accepted && manager.conns <= accepted && OneNameEach(users.users)
      && (forall c :: c in accepted ==> c.server == this && c.Flowing())
    }

    /** What every event finds and leaves. */
    ghost predicate Valid()
      reads this`accepted, users`users, manager`conns
      reads accepted`sent, accepted`writeBuf, accepted`outbox, accepted`writing, accepted`watched, accepted`interest
      reads accepted`state, accepted`username, accepted`lastActive
      reads manager.conns`stream, manager.conns`dispatched, Buffers(manager.conns), Arrays(manager.conns)
    {
      Running() && Reading()
    }

    static ghost function Buffers(cs: set<Connection>): set<Buffer> {
      set c | c in cs :: c.readBuf
    }

    static ghost function Arrays(cs: set<Connection>): set<array<byte>>
      reads Buffers(cs)
    {
      set c | c in cs :: c.readBuf.buf
    }

    /** Every connection in the reactor is up to date with its stream, in a buffer of its own. */
    ghost predicate Reading()
      reads manager`conns, manager.conns`stream, manager.conns`dispatched, Buffers(manager.conns), Arrays(manager.conns)
    {
      && (forall c :: c in manager.conns ==> c.Rested())
      && (forall c, d :: c in manager.conns && d in manager.conns && c != d ==> c.readBuf != d.readBuf && c.readBuf.buf != d.readBuf.buf)
    }

    /** What holds whenever a packet or an event is about to be handled. */
    ghost predicate Running()
      reads this`accepted, users`users, manager`conns
      reads accepted`sent, accepted`writeBuf, accepted`outbox, accepted`writing, accepted`watched, accepted`interest
      reads accepted`state, accepted`username, accepted`lastActive
    {
      Sound() && Watching() && Good(View())
    }

    /** The timer looks at exactly the sockets that are in the reactor. */
    ghost predicate Watching()
      reads this`accepted, manager`conns, accepted`watched
    {
      forall c :: c in accepted ==> (c.watched <==> c in manager.conns)
    }

    ghost function View(): Chat<Connection>
      reads this`accepted, users`users, manager`conns
      reads accepted`state, accepted`username, accepted`outbox, accepted`lastActive
    {
      Chat(users.users, map c | c in accepted :: c.Info(), manager.conns)
    }

    constructor (body: Notice -> Body, parse: seq<byte> -> Fields)
      ensures Valid() && fresh(users) && fresh(handler) && fresh(manager) && this.body == body && handler.parse == parse
      ensures View() == Chat(map[], map[], {})
    {
      this.body := body;
      var table := new UserManager();
      users := table;
      handler := new MessageHandler(table, parse);
      manager := new ConnectionManager();
      accepted := {};
    }

    lemma Viewed()
      requires Sound()
      ensures View().peers.Keys == accepted && handler.users == users
    {
    }

    lemma Members(cs: seq<Connection>)
      requires Running() && Elements(cs) <= manager.conns
      ensures forall c :: c in cs ==> c in accepted && c.server == this
    {
    }

    /** With nothing read, closing connections leaves the reading state of the others alone. */
    twostate lemma StillReading()
      requires old(Reading()) && manager.conns <= old(manager.conns)
      requires forall d :: d in manager.conns ==> unchanged(d`stream) && unchanged(d`dispatched) && unchanged(d.readBuf) && unchanged(d.readBuf.buf)
      ensures Reading()
    {
      forall d | d in manager.conns
        ensures d.Rested()
      {
        assert old(d.Rested());
      }
    }

    /** A client is accepted. */
    method Accept(now: int) returns (c: Connection)
      requires Valid()
      modifies this`accepted, manager`conns
      ensures Valid() && fresh(c) && c.Rested() && c.stream == []
      ensures View() == Step(old(View()), Event.Accepted(c, now), handler.parse)
    {
      hide Good, Connection.Flowing, Connection.Rested;
      c := new Connection(this, now);
      assert Apart(old(manager.conns), c);
      Enlist(c, now);
      StepGood(old(View()), Event.Accepted(c, now), handler.parse);
      assert Valid();
    }

    /** Connections up to date, in buffers that they share neither with each other nor with `c`. */
    ghost predicate Apart(cs: set<Connection>, c: Connection)
      reads cs`stream, cs`dispatched, Buffers(cs), Arrays(cs), c.readBuf
    {
      && (forall d :: d in cs ==> d.Rested() && d.readBuf != c.readBuf && d.readBuf.buf != c.readBuf.buf)
      && (forall d, e :: d in cs && e in cs && d != e ==> d.readBuf != e.readBuf && d.readBuf.buf != e.readBuf.buf)
    }

    method Enlist(c: Connection, now: int)
      requires Sound() && Watching() && Apart(manager.conns, c)
      requires c !in accepted && c.server == this && c.Flowing() && c.watched && c.Rested()
      requires c.Info() == Peer(Connecting, "", [], now)
      modifies this`accepted, manager`conns
      ensures Sound() && Watching() && Reading()
      ensures View() == Step(old(View()), Event.Accepted(c, now), handler.parse)
    {
      hide Connection.Flowing, Connection.Rested;
      manager.Add(c);
      accepted := accepted + {c};
      assert Reading();
    }
  }
}
