/**
 * How the TCP server reads a byte stream. Its read buffer is never compacted nor grown, and a LOGOUT takes the
 * socket out of the reactor at the end of the batch it came in: both make the cutting into batches matter.
 */
module TcpStreams {
  import opened Bytes
  import opened Buffers
  import opened Kernel
  import opened Packets
  import opened Streams
  import opened Wrappers
  import opened Chats
  import opened ChatLaws
  import opened TcpServer

  /** The packets dispatched, the bytes kept, the space used up, and whether the socket is still read. */
  datatype Reader = Reader(items: seq<Packet>, rest: seq<byte>, total: nat, open: bool)

  predicate LogsOut(packets: seq<Packet>) {
    exists i :: 0 <= i < |packets| && packets[i].kind == LOGOUT
  }

  /** One read event; without room, `recv` answers `full`. */
  ghost function Read(r: Reader, batch: seq<byte>, full: Ending): (next: Reader)
    requires r.total <= INITIAL_SIZE
    ensures next.total <= INITIAL_SIZE
  {
    if !r.open then r
    else if Outcome(r.total + |batch|, Again, full) == HungUp then r.(open := false)
    else
      var taken := Arriving(r.total, batch);
      var d := PacketsIn(r.rest + taken);
      Reader(r.items + d.items, d.rest, r.total + |taken|, d.open && !LogsOut(d.items))
  }

  const FRESH: Reader := Reader([], [], 0, true)

  ghost function ReadAll(batches: seq<seq<byte>>, full: Ending): (r: Reader)
    ensures r.total <= INITIAL_SIZE
  {
    if batches == [] then FRESH
    else Read(ReadAll(batches[..|batches| - 1], full), batches[|batches| - 1], full)
  }

  // ---------------------------------------------------------------- the reader of the server

  lemma LogsOutSnoc(packets: seq<Packet>, p: Packet)
    ensures LogsOut(packets + [p]) <==> LogsOut(packets) || p.kind == LOGOUT
  {
    var all := packets + [p];
    if LogsOut(packets) {
      var i :| 0 <= i < |packets| && packets[i].kind == LOGOUT;
      assert all[i].kind == LOGOUT;
    }
    assert all[|packets|] == p;
    assert forall i :: 0 <= i < |packets| ==> all[i] == packets[i];
  }

  /** A socket stays in the reactor exactly if its batch was well-formed and did not log out. */
  lemma StaysExactly(s: Chat<Connection>, c: Connection, packets: seq<Packet>, open: bool, parse: seq<byte> -> Fields, clock: nat -> int)
    requires Good(s) && c in s.registered && c in s.peers
    ensures c in AfterBatch(s, c, packets, open, parse, clock).registered <==> open && !LogsOut(packets)
  {
    DeliveredExactly(s, c, packets, parse, clock);
    if !open {
      CloseDeparts(DeliverAll(s, c, packets, parse, clock), c, clock(|packets|));
    }
  }

  lemma {:induction false} DeliveredExactly(s: Chat<Connection>, c: Connection, packets: seq<Packet>, parse: seq<byte> -> Fields, clock: nat -> int)
    requires Good(s) && c in s.registered && c in s.peers
    ensures var t := DeliverAll(s, c, packets, parse, clock); Good(t) && (c in t.registered <==> !LogsOut(packets))
  {
    if packets != [] {
      hide Good, Handle, LogsOut;
      var k := |packets| - 1;
      var t := DeliverAll(s, c, packets[..k], parse, clock);
      SplitLast(packets);
      DeliveredExactly(s, c, packets[..k], parse, clock);
      LogsOutSnoc(packets[..k], packets[k]);
      HandleGood(t, c, packets[k], parse, clock(k));
      HandleRegistered(t, c, packets[k], parse, clock(k));
      var u := DeliverAll(s, c, packets, parse, clock);
      assert Good(u) && (c in u.registered <==> !LogsOut(packets));
    } else {
      assert !LogsOut(packets);
    }
  }

  /** A read event of a connection is a step of the reader: what is dispatched, and whether reading goes on. */
  method ReadEvent(c: Connection, batch: seq<byte>, full: Ending, pieces: nat -> nat, now: int, clock: nat -> int)
    requires c.server.Valid() && c in c.server.manager.conns
    modifies c`dispatched, c`stream, c`lastActive, c.readBuf`readPos, c.readBuf`writePos, c.readBuf.buf
    modifies c.server.users`users, c.server.manager`conns, c`state, c`username, c`watched
    modifies c.server.accepted`outbox, c.server.accepted`writeBuf, c.server.accepted`writing, c.server.accepted`interest
    ensures c.server.Valid()
    ensures var r := Read(Reader(old(c.dispatched), old(c.readBuf.Contents()), |old(c.stream)|, true), batch, full);
      && c.dispatched == r.items && (c in c.server.manager.conns <==> r.open)
      && (r.open ==> c.readBuf.Contents() == r.rest && |c.stream| == r.total)
  {
    hide Good, PacketsIn, LogsOut, AfterBatch, Close, Read, Touch, Connection.Rested, ChatServer.Sound, ChatServer.Reading, ChatServer.Watching;
    InReactor(c);
    ghost var stream, dispatched, kept, v := c.stream, c.dispatched, c.readBuf.Contents(), c.server.View();
    c.OnRead(batch, Again, full, pieces, now, clock);
    ghost var time := if c.stream == stream then old(c.lastActive) else now;
    if Outcome(|stream| + |batch|, Again, full) == Again {
      Dispatching(v, c, time, stream, dispatched, kept, batch, full, c.dispatched, c.server.handler.parse, clock);
    } else {
      Closing(v, c, time, stream, dispatched, kept, batch, full, clock(0));
    }
    RegisteredOnes(c);
  }

  lemma RegisteredOnes(c: Connection)
    ensures c in c.server.manager.conns <==> c in c.server.View().registered
  {
  }

  lemma Dispatching(v: Chat<Connection>, c: Connection, time: int, stream: seq<byte>, dispatched: seq<Packet>, kept: seq<byte>, batch: seq<byte>,
                    full: Ending, items: seq<Packet>, parse: seq<byte> -> Fields, clock: nat -> int)
    requires Good(v) && c in v.registered && c in v.peers && |stream| <= INITIAL_SIZE
    requires PacketsIn(stream) == Drained(dispatched, kept, true) && Outcome(|stream| + |batch|, Again, full) == Again
    requires dispatched <= items == PacketsIn(stream + Arriving(|stream|, batch)).items
    ensures var r := Read(Reader(dispatched, kept, |stream|, true), batch, full);
      var d := PacketsIn(stream + Arriving(|stream|, batch));
      && items == r.items && d.rest == r.rest && |stream + Arriving(|stream|, batch)| == r.total
      && (c in AfterBatch(Touch(v, c, time), c, items[|dispatched|..], d.open, parse, clock).registered <==> r.open)
  {
    hide Good, PacketsIn, LogsOut, AfterBatch;
    TouchGood(v, c, time);
    Arrived(stream, dispatched, kept, Arriving(|stream|, batch));
    var d := PacketsIn(kept + Arriving(|stream|, batch));
    assert items[|dispatched|..] == d.items;
    StaysExactly(Touch(v, c, time), c, d.items, d.open, parse, clock);
  }

  lemma Closing(v: Chat<Connection>, c: Connection, time: int, stream: seq<byte>, dispatched: seq<Packet>, kept: seq<byte>, batch: seq<byte>,
                full: Ending, now: int)
    requires Good(v) && c in v.peers && |stream| <= INITIAL_SIZE && Outcome(|stream| + |batch|, Again, full) == HungUp
    ensures var r := Read(Reader(dispatched, kept, |stream|, true), batch, full); r.items == dispatched && !r.open
    ensures c !in Close(Touch(v, c, time), c, now).registered
  {
    hide Good;
    TouchGood(v, c, time);
    CloseDeparts(Touch(v, c, time), c, now);
  }

  lemma InReactor(c: Connection)
    requires c.server.Valid() && c in c.server.manager.conns
    ensures var v := c.server.View(); Good(v) && c in v.peers && c in v.registered
    ensures c.readBuf.Valid() && PacketsIn(c.stream) == Drained(c.dispatched, c.readBuf.Contents(), true) && |c.stream| <= INITIAL_SIZE
  {
  }

  /** So a fresh connection that reads batch after batch, as long as it is in the reactor, dispatches what the reader does. */
  method ReadBatches(c: Connection, batches: seq<seq<byte>>, full: Ending, pieces: nat -> nat, now: int, clock: nat -> int)
    requires c.server.Valid() && c in c.server.manager.conns && c.stream == []
    modifies c`dispatched, c`stream, c`lastActive, c.readBuf`readPos, c.readBuf`writePos, c.readBuf.buf
    modifies c.server.users`users, c.server.manager`conns, c`state, c`username, c`watched
    modifies c.server.accepted`outbox, c.server.accepted`writeBuf, c.server.accepted`writing, c.server.accepted`interest
    ensures c.server.Valid() && c.dispatched == ReadAll(batches, full).items
    ensures c in c.server.manager.conns <==> ReadAll(batches, full).open
  {
    hide PacketsIn, Read, ChatServer.Valid;
    Fresh(c);
    for i := 0 to |batches|
      invariant c.server.Valid() && c.dispatched == ReadAll(batches[..i], full).items
      invariant c in c.server.manager.conns <==> ReadAll(batches[..i], full).open
      invariant c in c.server.manager.conns ==>
        c.readBuf.Valid() && c.readBuf.Contents() == ReadAll(batches[..i], full).rest && |c.stream| == ReadAll(batches[..i], full).total
    {
      OneMoreRead(batches, i, full);
      if c in c.server.manager.conns {
        ReadEvent(c, batches[i], full, pieces, now, clock);
        if c in c.server.manager.conns {
          InReactor(c);
        }
      }
    }
    assert batches[..|batches|] == batches;
  }

  lemma Fresh(c: Connection)
    requires c.server.Valid() && c in c.server.manager.conns && c.stream == []
    ensures c.readBuf.Valid() && c.dispatched == [] && c.readBuf.Contents() == []
  {
    NextPacketStable();
  }

  lemma OneMoreRead(batches: seq<seq<byte>>, i: nat, full: Ending)
    requires i < |batches|
    ensures ReadAll(batches[..i + 1], full) == Read(ReadAll(batches[..i], full), batches[i], full)
    ensures !ReadAll(batches[..i], full).open ==> ReadAll(batches[..i + 1], full) == ReadAll(batches[..i], full)
  {
    assert batches[..i + 1][..i] == batches[..i];
  }

  // ---------------------------------------------------------------- cuts

  /** What of a stream the buffer can take. */
  function Fitting(stream: seq<byte>): seq<byte> {
    if |stream| <= INITIAL_SIZE then stream else stream[..INITIAL_SIZE]
  }

  /** Reading goes on, or to the end of the buffer, unless the stream broke or logged out. */
  predicate GoesOn(stream: seq<byte>, full: Ending) {
    full == Again || |stream| < INITIAL_SIZE
  }

  /** The bytes that were decoded are a prefix of the stream; reading stops short only for a reason. */
  ghost predicate ReadsPrefix(r: Reader, stream: seq<byte>, full: Ending) {
    && r.total <= |Fitting(stream)| && (full == HungUp ==> r.total < INITIAL_SIZE)
    && r.items == PacketsIn(stream[..r.total]).items
    && (r.open ==>
      && GoesOn(stream, full) && stream[..r.total] == Fitting(stream)
      && PacketsIn(Fitting(stream)) == Drained(r.items, r.rest, true))
    && (!r.open && GoesOn(stream, full) ==> !PacketsIn(stream[..r.total]).open || LogsOut(r.items))
  }

  lemma {:induction false} ReadAllReadsPrefix(batches: seq<seq<byte>>, full: Ending)
    ensures ReadsPrefix(ReadAll(batches, full), Concat(batches), full)
  {
    if batches == [] {
      NothingRead(full);
    } else {
      hide ReadsPrefix, Read, Concat;
      var init, last := batches[..|batches| - 1], batches[|batches| - 1];
      ReadAllReadsPrefix(init, full);
      ConcatLast(batches);
      ReadOneMore(ReadAll(init, full), Concat(init), last, full);
      assert ReadsPrefix(ReadAll(batches, full), Concat(batches), full);
    }
  }

  lemma NothingRead(full: Ending)
    ensures ReadsPrefix(ReadAll([], full), [], full)
  {
    NextPacketStable();
  }

  lemma ReadOneMore(r: Reader, stream: seq<byte>, batch: seq<byte>, full: Ending)
    requires ReadsPrefix(r, stream, full)
    ensures ReadsPrefix(Read(r, batch, full), stream + batch, full)
  {
    hide PacketsIn, LogsOut;
    assert (stream + batch)[..r.total] == stream[..r.total];
    if r.open && Outcome(r.total + |batch|, Again, full) == Again {
      var taken := Arriving(r.total, batch);
      Arrived(Fitting(stream), r.items, r.rest, taken);
      FitsMore(stream, batch, r.total);
      LogsOutLater(r.items, PacketsIn(r.rest + taken).items);
    }
    assert ReadsPrefix(Read(r, batch, full), stream + batch, full);
  }

  lemma FitsMore(stream: seq<byte>, batch: seq<byte>, total: nat)
    requires total <= |Fitting(stream)| && stream[..total] == Fitting(stream)
    ensures var taken := Arriving(total, batch);
      && total + |taken| <= |stream + batch|
      && (stream + batch)[..total + |taken|] == Fitting(stream) + taken == Fitting(stream + batch)
  {
  }

  lemma LogsOutLater(a: seq<Packet>, b: seq<Packet>)
    ensures LogsOut(b) ==> LogsOut(a + b)
  {
    if LogsOut(b) {
      var i :| 0 <= i < |b| && b[i].kind == LOGOUT;
      assert (a + b)[|a| + i].kind == LOGOUT;
    }
  }

  /** No packet comes after a LOGOUT. */
  predicate EndsWithLogout(packets: seq<Packet>) {
    forall i :: 0 <= i < |packets| - 1 ==> packets[i].kind != LOGOUT
  }

  /** What fits of a stream, with nothing after a LOGOUT, is read as a whole however it is cut. */
  lemma ReadAsWhole(batches: seq<seq<byte>>, full: Ending)
    requires GoesOn(Concat(batches), full) && EndsWithLogout(PacketsIn(Fitting(Concat(batches))).items)
    ensures ReadAll(batches, full).items == PacketsIn(Fitting(Concat(batches))).items
  {
    hide PacketsIn, ReadAll, Fitting, LogsOut, EndsWithLogout;
    var r, s := ReadAll(batches, full), Concat(batches);
    ReadAllReadsPrefix(batches, full);
    if !r.open {
      TakeFitting(s, r.total);
      PrefixItems(Fitting(s), r.total);
      if PacketsIn(Fitting(s)[..r.total]).open {
        EndsAtLogout(r.items, PacketsIn(Fitting(s)).items);
      }
    }
  }

  lemma TakeFitting(stream: seq<byte>, n: nat)
    requires n <= |Fitting(stream)|
    ensures n <= |stream| && stream[..n] == Fitting(stream)[..n]
  {
  }

  lemma PrefixItems(s: seq<byte>, n: nat)
    requires n <= |s|
    ensures PacketsIn(s[..n]).items <= PacketsIn(s).items
    ensures !PacketsIn(s[..n]).open ==> PacketsIn(s[..n]).items == PacketsIn(s).items
  {
    hide Drain;
    NextPacketStable();
    TakeDrop(s, n);
    DrainAppend(NextPacket, Never(), s[..n], s[n..]);
  }

  lemma EndsAtLogout(a: seq<Packet>, b: seq<Packet>)
    requires a <= b && LogsOut(a) && EndsWithLogout(b)
    ensures a == b
  {
    var i :| 0 <= i < |a| && a[i].kind == LOGOUT;
    assert b[i] == a[i];
  }

  ghost predicate SameItems(a: seq<seq<byte>>, b: seq<seq<byte>>, full: Ending) {
    ReadAll(a, full).items == ReadAll(b, full).items
  }

  /** No cut of `stream` makes a difference to the packets dispatched. */
  ghost predicate CutsDoNotMatter(stream: seq<byte>, full: Ending) {
    forall a, b :: Concat(a) == stream && Concat(b) == stream ==> SameItems(a, b, full)
  }

  /**
   * If reading stops at the end of the buffer, or does not get there: exactly if nothing follows a LOGOUT in
   * what fits. If the connection is closed there: exactly if not even the first packet ends before.
   */
  lemma SegmentationExactly(stream: seq<byte>, full: Ending)
    ensures CutsDoNotMatter(stream, full) <==>
      if GoesOn(stream, full) then EndsWithLogout(PacketsIn(Fitting(stream)).items) else !NextPacket(stream[..INITIAL_SIZE - 1]).One?
  {
    if !GoesOn(stream, full) && NextPacket(stream[..INITIAL_SIZE - 1]).One? {
      LongCutsDiffer(stream);
    } else if GoesOn(stream, full) && !EndsWithLogout(PacketsIn(Fitting(stream)).items) {
      LogoutCutsDiffer(stream, full);
    } else {
      forall a, b | Concat(a) == stream && Concat(b) == stream
        ensures SameItems(a, b, full)
      {
        if GoesOn(stream, full) {
          ReadAsWhole(a, full);
          ReadAsWhole(b, full);
        } else {
          NothingFits(a);
          NothingFits(b);
        }
      }
    }
  }

  lemma ReadOne(batch: seq<byte>, full: Ending)
    ensures Concat([batch]) == batch
    ensures ReadAll([batch], full) == Read(FRESH, batch, full)
    ensures GoesOn(batch, full) ==> ReadAll([batch], full).items == PacketsIn(Fitting(batch)).items
    ensures GoesOn(batch, full) ==> (ReadAll([batch], full).open <==> PacketsIn(Fitting(batch)).open && !LogsOut(PacketsIn(Fitting(batch)).items))
  {
    hide PacketsIn, LogsOut;
    assert [batch][1..] == [] && batch + [] == batch;
    assert [batch][..0] == [];
    ArrivesFresh(batch);
    var items := PacketsIn(Fitting(batch)).items;
    assert [] + items == items;
  }

  lemma ArrivesFresh(batch: seq<byte>)
    ensures [] + Arriving(0, batch) == Fitting(batch)
  {
  }

  lemma ReadTwo(a: seq<byte>, b: seq<byte>, full: Ending)
    ensures Concat([a, b]) == a + b
    ensures ReadAll([a, b], full) == Read(ReadAll([a], full), b, full)
  {
    assert [a] + [b] == [a, b] && [a, b][..1] == [a];
    ConcatSnoc([a], b);
    ReadOne(a, full);
  }

  /** In one batch the stream closes the connection unread; cut after the first packet it delivers that packet. */
  lemma LongCutsDiffer(stream: seq<byte>)
    requires |stream| >= INITIAL_SIZE && NextPacket(stream[..INITIAL_SIZE - 1]).One?
    ensures !CutsDoNotMatter(stream, HungUp)
  {
    hide NextPacket, ReadAll, CutsDoNotMatter;
    var n := NextPacket(stream[..INITIAL_SIZE - 1]).size;
    PrefixDecodes(stream, n);
    ReadOne(stream, HungUp);
    OnePacketRead(stream[..n]);
    Cut(stream, n, HungUp);
    assert !CutsDoNotMatter(stream, HungUp);
  }

  lemma OnePacketRead(part: seq<byte>)
    requires |part| < INITIAL_SIZE && NextPacket(part).One?
    ensures ReadAll([part], HungUp).items != []
  {
    hide ReadAll;
    NextPacketStable();
    ReadOne(part, HungUp);
    DrainOne(NextPacket, Never(), part);
  }

  /** A cut that makes a difference. */
  lemma Cut(stream: seq<byte>, n: nat, full: Ending)
    requires n <= |stream|
    requires ReadAll([stream], full).items != Read(ReadAll([stream[..n]], full), stream[n..], full).items
    ensures !CutsDoNotMatter(stream, full)
  {
    hide ReadAll, Read;
    ReadOne(stream, full);
    ReadTwo(stream[..n], stream[n..], full);
    TakeDrop(stream, n);
    assert !SameItems([stream], [stream[..n], stream[n..]], full);
  }

  lemma PrefixDecodes(stream: seq<byte>, n: nat)
    requires |stream| >= INITIAL_SIZE && NextPacket(stream[..INITIAL_SIZE - 1]).One?
    requires n == NextPacket(stream[..INITIAL_SIZE - 1]).size
    ensures n < INITIAL_SIZE && NextPacket(stream[..n]).One?
  {
    var data := stream[..INITIAL_SIZE - 1];
    DecodedIsEncoding(data);
    var p := Decode(data).packet;
    DecodeEncode(p, []);
    assert Encode(p) + [] == Encode(p) && data[..n] == stream[..n];
  }

  lemma NothingFits(batches: seq<seq<byte>>)
    requires |Concat(batches)| >= INITIAL_SIZE && !NextPacket(Concat(batches)[..INITIAL_SIZE - 1]).One?
    ensures ReadAll(batches, HungUp).items == []
  {
    hide PacketsIn, ReadAll;
    ReadAllReadsPrefix(batches, HungUp);
    NoPacketBefore(Concat(batches)[..INITIAL_SIZE - 1], ReadAll(batches, HungUp).total);
    assert Concat(batches)[..INITIAL_SIZE - 1][..ReadAll(batches, HungUp).total] == Concat(batches)[..ReadAll(batches, HungUp).total];
  }

  lemma NoPacketBefore(s: seq<byte>, n: nat)
    requires n <= |s| && !NextPacket(s).One?
    ensures PacketsIn(s[..n]).items == []
  {
    NextPacketStable();
    TakeDrop(s, n);
    assert KeepsVerdict(NextPacket, s[..n], s[n..]);
  }

  /** Packets after a LOGOUT are dispatched if they came in the same batch, and never read otherwise. */
  lemma LogoutCutsDiffer(stream: seq<byte>, full: Ending)
    requires GoesOn(stream, full) && !EndsWithLogout(PacketsIn(Fitting(stream)).items)
    ensures !CutsDoNotMatter(stream, full)
  {
    hide PacketsIn, ReadAll, CutsDoNotMatter;
    var items := PacketsIn(Fitting(stream)).items;
    var i :| 0 <= i < |items| - 1 && items[i].kind == LOGOUT;
    var n := UpToPacket(Fitting(stream), i + 1);
    assert items[..i + 1][i].kind == LOGOUT;
    FittingPart(stream, n);
    ReadOne(stream, full);
    ReadOne(stream[..n], full);
    assert ReadAll([stream[..n]], full).items == items[..i + 1] && !ReadAll([stream[..n]], full).open;
    Cut(stream, n, full);
    assert !CutsDoNotMatter(stream, full);
  }

  lemma FittingPart(stream: seq<byte>, n: nat)
    requires n <= |Fitting(stream)|
    ensures Fitting(stream)[..n] == stream[..n] == Fitting(stream[..n])
  {
  }

  /** A LOGOUT and a PING: in one batch both are dispatched, in two the PING is not. */
  lemma PingAfterLogout(full: Ending)
    ensures var logout, ping := Packet(LOGOUT, []), Packet(PING, []);
      && ReadAll([Encode(logout) + Encode(ping)], full).items == [logout, ping]
      && ReadAll([Encode(logout), Encode(ping)], full).items == [logout]
  {
    hide PacketsIn, ReadAll;
    var logout, ping := Packet(LOGOUT, []), Packet(PING, []);
    BackToBack(logout, ping);
    ReadOne(Encode(logout) + Encode(ping), full);
    ReadOne(Encode(logout), full);
    ReadTwo(Encode(logout), Encode(ping), full);
    assert [logout][0].kind == LOGOUT;
  }

  lemma BackToBack(p: Packet, q: Packet)
    requires p.body == [] && q.body == []
    ensures |Encode(p) + Encode(q)| == 10 && |Encode(p)| == 5
    ensures PacketsIn(Encode(p) + Encode(q)).items == [p, q] && PacketsIn(Encode(p)).items == [p]
  {
    StreamRoundTrip([p, q]);
    StreamRoundTrip([p]);
    assert EncodeAll(Encode, [p, q]) == Encode(p) + Encode(q) by {
      assert [p, q][1..] == [q] && [q][1..] == [] && Encode(q) + [] == Encode(q);
    }
    assert EncodeAll(Encode, [p]) == Encode(p) by {
      assert [p][1..] == [] && Encode(p) + [] == Encode(p);
    }
    assert [p, q][..2] == [p, q] && [p][..1] == [p];
  }

  /** A PING before 1019 more bytes: delivered if it comes alone, lost if everything comes at once. */
  lemma PingBeforeMuch()
    ensures !CutsDoNotMatter(Encode(Packet(PING, [])) + Zeros(1019), HungUp)
  {
    var ping := Packet(PING, []);
    var stream := Encode(ping) + Zeros(1019);
    DecodeEncode(ping, Zeros(1018));
    assert stream[..INITIAL_SIZE - 1] == Encode(ping) + Zeros(1018);
    SegmentationExactly(stream, HungUp);
  }

  /** Where the first `k` packets of a stream end. */
  lemma UpToPacket(stream: seq<byte>, k: nat) returns (n: nat)
    requires k <= |PacketsIn(stream).items|
    ensures n <= |stream| && PacketsIn(stream[..n]).items == PacketsIn(stream).items[..k]
  {
    hide PacketsIn, Encode, EncodeAll;
    var items := PacketsIn(stream).items;
    n := |EncodeAll(Encode, items[..k])|;
    Reencoded(stream, k);
    AllShort(stream);
    AllArrive(items[..k]);
    assert stream[..n] == EncodeAll(Encode, items[..k]);
    assert PacketsIn(stream[..n]).items == items[..k];
  }

  lemma Reencoded(stream: seq<byte>, k: nat)
    requires k <= |PacketsIn(stream).items|
    ensures EncodeAll(Encode, PacketsIn(stream).items[..k]) <= stream
  {
    StreamCanonical(stream);
    EncodeAllParts(PacketsIn(stream).items, k);
  }

  lemma AllArrive(packets: seq<Packet>)
    requires forall i :: 0 <= i < |packets| ==> |packets[i].body| < MAX_BODY_LENGTH
    ensures PacketsIn(EncodeAll(Encode, packets)).items == packets
  {
    StreamRoundTrip(packets);
    assert packets[..|packets|] == packets;
  }

  lemma {:induction false} EncodeAllParts(items: seq<Packet>, k: nat)
    requires k <= |items|
    ensures EncodeAll(Encode, items) == EncodeAll(Encode, items[..k]) + EncodeAll(Encode, items[k..])
  {
    hide Encode;
    if k == 0 {
      assert items[0..] == items && items[..0] == [];
    } else {
      var a, b := EncodeAll(Encode, items[1..][..k - 1]), EncodeAll(Encode, items[k..]);
      EncodeAllParts(items[1..], k - 1);
      OneMore(items, k - 1);
      TakenFirst(items, k);
      Reassociate(Encode(items[0]), a, b);
    }
  }

  lemma TakenFirst<T>(items: seq<T>, k: nat)
    requires 0 < k <= |items|
    ensures items[..k] != [] && items[..k][0] == items[0] && items[..k][1..] == items[1..][..k - 1]
  {
  }

  /** Whatever was decoded is short enough to be sent back. */
  lemma {:induction false} AllShort(stream: seq<byte>)
    ensures forall i :: 0 <= i < |PacketsIn(stream).items| ==> |PacketsIn(stream).items[i].body| < MAX_BODY_LENGTH
    decreases |stream|
  {
    NextPacketStable();
    var items := PacketsIn(stream).items;
    if NextPacket(stream).One? {
      var One(n, p) := NextPacket(stream);
      DecodedIsEncoding(stream);
      AllShort(stream[n..]);
      assert items == [p] + PacketsIn(stream[n..]).items;
      assert forall i :: 0 < i < |items| ==> items[i] == PacketsIn(stream[n..]).items[i - 1];
    }
  }

  // ---------------------------------------------------------------- connections

  /** The type that the protocol gives to what a client is told. */
  predicate HasType(n: Notice, kind: byte) {
    match n
    case Ack(_) => kind == 2
    case Said(_, _, _) => kind == 4
    case Users(_) => kind == 5
    case Whisper(_, _, _) => kind == 6
    case Pong => kind == 8
    case Online(_, _) => kind == 10
    case Offline(_, _) => kind == 10
  }

  /** Each notice is a packet of its type, with the text that the printer gives it; a PONG is empty. */
  lemma Typed(server: ChatServer, notices: seq<Notice>)
    ensures |server.Printed(notices)| == |notices|
    ensures forall i :: 0 <= i < |notices| ==>
      var p := server.Printed(notices)[i];
      HasType(notices[i], p.kind) && p.body == if notices[i].Pong? then [] else server.body(notices[i])
  {
  }

  /** So every packet that a client parses has the type and the text of a notice queued for it, in order. */
  lemma TypesHeard(c: Connection)
    requires c.Flowing()
    ensures var got := PacketsIn(c.sent + c.writeBuf).items;
      && |got| <= |c.outbox|
      && forall i :: 0 <= i < |got| ==>
        HasType(c.outbox[i], got[i].kind) && got[i].body == if c.outbox[i].Pong? then [] else c.server.body(c.outbox[i])
  {
    hide ChatServer.Printed, HasType, Connection.Flowing, PacketsIn;
    ClientHears(c);
    Typed(c.server, c.outbox);
  }

  /**
   * What a client can make of what it was sent: in order, exactly the notices queued for it before the first
   * whose body is too long for a packet; so all of them exactly if there is none. What has arrived so far
   * parses as the first of them.
   */
  lemma ClientHears(c: Connection)
    requires c.Flowing()
    ensures var packets := c.server.Printed(c.outbox);
      var k := Leading(packets, IsShort);
      && PacketsIn(c.sent + c.writeBuf) == Drained(packets[..k], EncodeAll(Encode, packets[k..]), k == |packets|)
      && PacketsIn(c.sent).items <= packets[..k]
  {
    StreamRoundTrip(c.server.Printed(c.outbox));
    DrainPrefix(NextPacket, Never(), c.sent, c.writeBuf);
  }

  /** The invariant of every run, on the running server: a name belongs to the connection authenticated under it. */
  lemma UsersOf(server: ChatServer, name: string, c: Connection)
    requires server.Valid() && c in server.accepted
    ensures name in server.users.users && server.users.users[name] == c <==> c.state == Authenticated && c.username == name
    ensures c.state == Authenticated ==> Latest(c.outbox) == Some(server.users.users.Keys)
  {
    var s := server.View();
    assert s.peers[c] == c.Info();
    if name in s.users {
      assert Holds(s, s.users[name], name);
    }
    if c.state == Authenticated {
      assert Maps(s, c.username, c);
    }
  }
}
