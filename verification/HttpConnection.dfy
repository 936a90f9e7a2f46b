/** A connection of the HTTP server: pipelined requests in, responses out. src/server/http_connection.cpp. */
module HttpConnections {
  import opened Bytes
  import opened Buffers
  import opened HttpText
  import opened HttpRequests
  import opened HttpLaws
  import opened HttpResponses
  import opened HttpSenders
  import opened Kernel
  import opened Streams
  import opened Wrappers

  /** What the decode loop makes of a client's bytes. */
  ghost function RequestsIn(stream: seq<byte>, stoul: Stoul): Drained<Request> {
    NextRequestStable(stoul);
    Drain(NextRequest(stoul), Never(), stream)
  }

  /** What the request handler answers to the request with a number: one response, as every route gives. */
  type Handler = (nat, Request) -> Response

  class HttpConnection {
    const stoul: Stoul
    const handler: Handler
    const readBuf: Buffer
    var writeBuf: seq<byte>
    var active: bool
    var writing: bool
    var closeAfterWrite: bool
    var served: nat
    ghost var interest: bool           // whether the reactor watches the socket for writability
    ghost var sent: seq<byte>          // what the kernel has taken
    ghost var stream: seq<byte>        // what the kernel has delivered
    ghost var handled: seq<Request>    // what has been handed to the request handler
    ghost var texts: seq<seq<byte>>    // what it has been answered with
    ghost var events: seq<Event>       // what has happened to the sending side

    constructor (stoul: Stoul, handler: Handler)
      ensures this.stoul == stoul && this.handler == handler && fresh(readBuf) && fresh(readBuf.buf)
      ensures active && Rested() && Answering() && Tracked() && stream == [] && handled == [] && events == []
    {
      this.stoul, this.handler := stoul, handler;
      readBuf := new Buffer();
      writeBuf, active, writing, closeAfterWrite, served := [], true, false, false, 0;
      interest, sent, stream, handled, texts, events := false, [], [], [], [], [];
      new;
      NextRequestStable(stoul);
    }

    /** The requests handled and the bytes kept are what the stream so far parses to, however it was cut. */
    ghost predicate Rested()
      reads this`stream, this`handled, readBuf, readBuf.buf
    {
      readBuf.Valid() && RequestsIn(stream, stoul) == Drained(handled, readBuf.Contents(), true)
    }

    /** In the decode loop: what is handled, followed by what the buffer parses to, is the whole. */
    ghost predicate Decoding()
      reads this`stream, this`handled, readBuf, readBuf.buf
    {
      readBuf.Valid() && RequestsIn(stream, stoul) == Preceded(handled, RequestsIn(readBuf.Contents(), stoul))
    }

    ghost function Answers(): (vs: seq<Response>)
      reads this`handled
      ensures |vs| == |handled|
    {
      var rs := handled;
      seq(|rs|, i requires 0 <= i < |rs| => handler(i, rs[i]))
    }

    /** Every request has been answered once, in order; nothing of the answers is lost, duplicated or reordered. */
    ghost predicate Answering()
      reads this`handled, this`texts, this`served, this`sent, this`writeBuf
    {
      && served == |handled| == |texts|
      && (forall i :: 0 <= i < |texts| ==> Serialises(handler(i, handled[i]), texts[i]))
      && sent + writeBuf == Concat(texts)
    }

    ghost function Outgoing(): Out
      reads this`writeBuf, this`writing, this`closeAfterWrite, this`interest, this`active
    {
      Out(writeBuf, writing, closeAfterWrite, interest, active)
    }

    ghost predicate NeverKeepsAlive() {
      forall k: nat, r :: !handler(k, r).keepAlive
    }

    /** The sending side is what its events have made of it. */
    ghost predicate Tracked()
      reads this`writeBuf, this`writing, this`closeAfterWrite, this`interest, this`active, this`events
    {
      Outgoing() == Run(events) && NonEmpty(events) && (NeverKeepsAlive() ==> AllClose(events))
    }

    /**
     * `onRead`. A hang-up closes before anything of its batch is parsed; otherwise the requests handled are
     * those of the whole stream, in order, and each has been answered.
     */
    method OnRead(batch: seq<byte>, ending: Ending, pieces: nat -> nat)
      requires Rested() && Answering() && Tracked() && active
      modifies this`stream, this`handled, this`texts, this`served, this`events, readBuf, readBuf.buf
      modifies this`active, this`interest, this`writeBuf, this`writing, this`closeAfterWrite
      ensures Answering() && Tracked()
      ensures stream == old(stream) + batch && old(handled) <= handled && old(texts) <= texts && old(events) <= events
      ensures ending == Ending.HungUp ==> !active && handled == old(handled)
      ensures ending == Again ==> active && Rested() && handled == RequestsIn(stream, stoul).items
      ensures readBuf.buf == old(readBuf.buf) || fresh(readBuf.buf)
    {
      hide RequestsIn, Tracked, Answering, Decoding;
      Receive(batch, pieces);
      if ending == Ending.HungUp {
        Abort();
      } else {
        DecodeLoop();
      }
    }

    method Abort()
      requires Tracked()
      modifies this`active, this`interest, this`events
      ensures Tracked() && !active && old(events) <= events
    {
      hide Run, NonEmpty, AllClose;
      EventsSnoc(events, Event.HungUp);
      Close();
      events := events + [Event.HungUp];
      assert Tracked();
    }

    /** The `recv` loop: at most 4096 bytes at a time go through a local array into the buffer. */
    method Receive(batch: seq<byte>, pieces: nat -> nat)
      requires Rested()
      modifies this`stream, readBuf, readBuf.buf
      ensures Decoding() && stream == old(stream) + batch
      ensures readBuf.buf == old(readBuf.buf) || fresh(readBuf.buf)
    {
      hide RequestsIn;
      ghost var start := readBuf.Contents();
      var i, turn := 0, 0;
      while i < |batch|
        invariant i <= |batch| && readBuf.Valid()
        invariant readBuf.Contents() == start + batch[..i] && stream == old(stream)
        invariant readBuf.buf == old(readBuf.buf) || fresh(readBuf.buf)
        decreases |batch| - i
      {
        var n := AtMost(pieces(turn), 4096, |batch| - i);
        readBuf.Append(batch[i..i + n]);
        TakeMore(start, batch, i, n);
        i, turn := i + n, turn + 1;
      }
      assert batch[..i] == batch;
      MoreArrived(stream, handled, start, batch, stoul);
      stream := stream + batch;
      assert Decoding();
    }

    /** Requests are parsed and answered until one is not complete, or malformed; there is no telling these apart. */
    method DecodeLoop()
      requires Decoding() && Answering() && Tracked() && active
      modifies this`handled, this`texts, this`served, this`events, readBuf, readBuf.buf
      modifies this`interest, this`writeBuf, this`writing, this`closeAfterWrite
      ensures Rested() && Answering() && Tracked() && handled == RequestsIn(stream, stoul).items
      ensures old(handled) <= handled && old(texts) <= texts && old(events) <= events
      ensures readBuf.buf == old(readBuf.buf) || fresh(readBuf.buf)
    {
      hide RequestsIn, Tracked, Answering;
      var again := true;
      while again
        invariant readBuf.Valid() && Answering() && Tracked()
        invariant old(handled) <= handled && old(texts) <= texts && old(events) <= events
        invariant readBuf.buf == old(readBuf.buf) || fresh(readBuf.buf)
        invariant if again then Decoding() else Rested()
        decreases again, |readBuf.Contents()|
      {
        again := Turn();
      }
    }

    method Turn() returns (again: bool)
      requires Decoding() && Answering() && Tracked() && active
      modifies this`handled, this`texts, this`served, this`events, readBuf, readBuf.buf
      modifies this`interest, this`writeBuf, this`writing, this`closeAfterWrite
      ensures readBuf.Valid() && Answering() && Tracked()
      ensures old(handled) <= handled && old(texts) <= texts && old(events) <= events
      ensures again ==> Decoding() && |readBuf.Contents()| < |old(readBuf.Contents())|
      ensures !again ==> Rested()
      ensures readBuf.buf == old(readBuf.buf) || fresh(readBuf.buf)
    {
      hide RequestsIn, Parse, Tracked, Answering;
      ghost var data := readBuf.Contents();
      var req := new HttpRequest();
      again := req.ParseFrom(readBuf, stoul);
      ParseTurn(handled, data, stoul);
      if again {
        OnRequest(Request(req.start, req.headers, req.body));
      }
      assert if again then Decoding() else Rested();
    }

    /** The request handler, called inside the loop, answers with `send`. */
    method OnRequest(r: Request)
      requires Answering() && Tracked() && active
      modifies this`handled, this`texts, this`served, this`events, this`interest, this`writeBuf, this`writing, this`closeAfterWrite
      ensures Answering() && Tracked() && handled == old(handled) + [r]
      ensures old(texts) <= texts && old(events) <= events
    {
      hide Run, NonEmpty, AllClose, Serialises;
      var v := handler(served, r);
      var resp := new HttpResponse(v);
      var text := Send(resp);
      ConcatSnoc(texts, text);
      Reassociate(sent, old(writeBuf), text);
      EventsSnoc(events, Responded(text, v.keepAlive));
      handled, served, texts := handled + [r], served + 1, texts + [text];
      events := events + [Responded(text, v.keepAlive)];
      assert Answering() && Tracked();
    }

    // -------------------------------------------------------------- writing

    /** `send`: the flag that it consults is set here and reset nowhere. */
    method Send(resp: HttpResponse) returns (text: seq<byte>)
      modifies this`writeBuf, this`closeAfterWrite, this`writing, this`interest
      ensures text != [] && Serialises(resp.Value(), text)
      ensures Outgoing() == Respond(old(Outgoing()), text, resp.keepAlive)
    {
      hide Serialises;
      text := resp.ToString();
      writeBuf := writeBuf + text;
      if !resp.keepAlive {
        closeAfterWrite := true;
      }
      if !writing {
        interest := interest || active;
        writing := true;
      }
      assert Serialises(resp.Value(), text);
    }

    /**
     * `onWrite`: what is sent is what the kernel takes; the connection closes exactly on a failed send, or when
     * everything is sent and a close is due. A kernel that keeps taking bytes gets all of them.
     */
    method OnWrite(results: seq<SendResult>)
      requires active && interest && Answering() && Tracked()
      modifies this`writeBuf, this`sent, this`active, this`interest, this`events
      ensures Answering() && Tracked() && events == old(events) + [Writable(results)]
      ensures Outgoing() == Write(old(Outgoing()), results)
      ensures sent == old(sent) + old(writeBuf)[..SendLoop(|old(writeBuf)|, results).taken]
      ensures var o := SendLoop(|old(writeBuf)|, results).outcome; active == !(o == Broken || (o == AllSent && closeAfterWrite))
      ensures TakesEveryTime(results) && |results| >= |old(writeBuf)| ==> writeBuf == [] && active == !closeAfterWrite
    {
      hide Run, NonEmpty, AllClose, Serialises, Write;
      SendPending(results);
      if TakesEveryTime(results) && |results| >= |old(writeBuf)| {
        TakenWhole(old(Outgoing()), results);
      }
      EventsSnoc(events, Writable(results));
      events := events + [Writable(results)];
      assert Answering() && Tracked();
    }

    method SendPending(results: seq<SendResult>)
      requires active
      modifies this`writeBuf, this`sent, this`active, this`interest
      ensures sent + writeBuf == old(sent + writeBuf)
      ensures sent == old(sent) + old(writeBuf)[..SendLoop(|old(writeBuf)|, results).taken]
      ensures var o := SendLoop(|old(writeBuf)|, results).outcome; active == !(o == Broken || (o == AllSent && closeAfterWrite))
      ensures Outgoing() == Write(old(Outgoing()), results)
    {
      var outcome := Flush(results);
      Advance(old(sent), old(writeBuf), 0, SendLoop(|old(writeBuf)|, results).taken);
      assert sent + writeBuf == old(sent + writeBuf);
      if outcome == Broken {
        Close();
      } else if outcome == AllSent {
        if closeAfterWrite {
          Close();
        } else {
          interest := false;
        }
      }
    }

    /** The send loop: what the kernel takes moves from the write buffer to `sent`. */
    method Flush(results: seq<SendResult>) returns (outcome: Flushed)
      modifies this`writeBuf, this`sent
      ensures var s := SendLoop(|old(writeBuf)|, results);
        && outcome == s.outcome
        && sent == old(sent) + old(writeBuf)[..s.taken] && writeBuf == old(writeBuf)[s.taken..]
    {
      ghost var before, pending, k := sent, writeBuf, 0;
      var i := 0;
      NothingSent(|writeBuf|, results);
      assert before + pending[..0] == before;
      while writeBuf != []
        invariant k <= |pending| && writeBuf == pending[k..] && sent == before + pending[..k]
        invariant SentSoFar(|pending|, results, k, i)
        decreases |writeBuf|
      {
        SendTurn(|pending|, results, k, i);
        var r := if i < |results| then results[i] else WouldBlock;
        if r == WouldBlock {
          return Blocked;
        }
        if Fails(r) {
          return Broken;
        }
        var n := if r.n <= |writeBuf| then r.n else |writeBuf|;
        Advance(before, pending, k, n);
        sent := sent + writeBuf[..n];
        writeBuf := writeBuf[n..];
        k := k + n;
        i := i + 1;
      }
      return AllSent;
    }

    method Close()
      modifies this`active, this`interest
      ensures Outgoing() == HttpSenders.Close(old(Outgoing()))
    {
      if active {
        active := false;
      }
      interest := false;
    }
  }

  lemma MoreArrived(stream: seq<byte>, handled: seq<Request>, kept: seq<byte>, batch: seq<byte>, stoul: Stoul)
    requires RequestsIn(stream, stoul) == Drained(handled, kept, true)
    ensures RequestsIn(stream + batch, stoul) == Preceded(handled, RequestsIn(kept + batch, stoul))
  {
    NextRequestStable(stoul);
    DrainAppend(NextRequest(stoul), Never(), stream, batch);
  }

  /** What one turn of the decode loop does to the bytes kept. */
  lemma ParseTurn(handled: seq<Request>, kept: seq<byte>, stoul: Stoul)
    ensures match Parse(kept, map[], stoul)
      case Parsed(n, r) => 0 < n <= |kept| && Preceded(handled, RequestsIn(kept, stoul)) == Preceded(handled + [r], RequestsIn(kept[n..], stoul))
      case _ => Preceded(handled, RequestsIn(kept, stoul)) == Drained(handled, kept, true)
  {
    NextRequestStable(stoul);
    match Parse(kept, map[], stoul)
    case Parsed(n, r) =>
      var head := ParseSplits(kept, map[], stoul);
      DrainOne(NextRequest(stoul), Never(), kept);
      PrecededAfter(handled, r, RequestsIn(kept[n..], stoul));
    case _ =>
      assert handled + [] == handled;
  }

  // ---------------------------------------------------------------- pipelining

  /** However a client's bytes are cut into reads, the same requests are handled and the same bytes wait. */
  lemma SegmentationIrrelevantForHttp(batches: seq<seq<byte>>, stoul: Stoul)
    ensures Stable(NextRequest(stoul))
    ensures FeedAll(NextRequest(stoul), Never(), batches) == RequestsIn(Concat(batches), stoul)
  {
    NextRequestStable(stoul);
    SegmentationIrrelevant(NextRequest(stoul), Never(), batches);
    NeverCloses(Concat(batches), stoul);
  }

  lemma {:induction false} NeverCloses(stream: seq<byte>, stoul: Stoul)
    ensures RequestsIn(stream, stoul).open
    decreases |stream|
  {
    NextRequestStable(stoul);
    if NextRequest(stoul)(stream).One? {
      NeverCloses(stream[NextRequest(stoul)(stream).size..], stoul);
    }
  }

  /** The request as the handler sees it. */
  function Meant(q: Framed): (r: Request)
    requires IsRequest(q)
  {
    Request(ParseStart(q.line).value, FoundHeaders(q.fields, q.body), q.body)
  }

  predicate IsRequest(q: Framed) {
    ParseStart(q.line).Some?
  }

  function AllMeant(qs: seq<Framed>): (rs: seq<Request>)
    requires forall i :: 0 <= i < |qs| ==> IsRequest(qs[i])
    ensures |rs| == |qs|
  {
    seq(|qs|, i requires 0 <= i < |qs| => Meant(qs[i]))
  }

  /**
   * Of anything framed like requests and sent back to back, the requests before the first that is not one are
   * handled, as meant, and nothing from it on; so all are handled exactly if every first line is a request line.
   */
  lemma {:induction false} RequestsArrive(qs: seq<Framed>, stoul: Stoul)
    requires forall i :: 0 <= i < |qs| ==> GoodFrame(qs[i], stoul)
    ensures var k := Leading(qs, IsRequest);
      RequestsIn(EncodeAll(RenderFramed, qs), stoul) == Drained(AllMeant(qs[..k]), EncodeAll(RenderFramed, qs[k..]), true)
  {
    hide RenderFramed, Meant, GoodFrame, IsRequest, RequestsIn;
    if qs == [] {
      NothingArrives(stoul);
      assert qs[..0] == [] && qs[0..] == [];
    } else if IsRequest(qs[0]) {
      RequestsArrive(qs[1..], stoul);
      OneArrives(qs[0], EncodeAll(RenderFramed, qs[1..]), stoul);
      MeantFirst(qs, Leading(qs[1..], IsRequest));
    } else {
      assert qs[..0] == [] && qs[0..] == qs;
      NoneArrives(qs[0], EncodeAll(RenderFramed, qs[1..]), stoul);
    }
  }

  /** All of them are handled exactly if every first line is a request line. */
  lemma AllHandledExactly(qs: seq<Framed>, stoul: Stoul)
    requires forall i :: 0 <= i < |qs| ==> GoodFrame(qs[i], stoul)
    ensures |RequestsIn(EncodeAll(RenderFramed, qs), stoul).items| == |qs| <==> forall i :: 0 <= i < |qs| ==> IsRequest(qs[i])
  {
    hide RequestsIn, GoodFrame, IsRequest;
    RequestsArrive(qs, stoul);
  }

  lemma NothingArrives(stoul: Stoul)
    ensures RequestsIn([], stoul) == Drained([], [], true)
  {
    NextRequestStable(stoul);
  }

  lemma MeantFirst(qs: seq<Framed>, k: nat)
    requires qs != [] && k < |qs| && forall i :: 0 <= i <= k ==> IsRequest(qs[i])
    ensures forall i :: 0 <= i < k ==> IsRequest(qs[1..][i])
    ensures AllMeant(qs[..k + 1]) == [Meant(qs[0])] + AllMeant(qs[1..][..k]) && qs[k + 1..] == qs[1..][k..]
  {
    hide IsRequest, Meant;
    assert AllMeant(qs[..k + 1]) == [Meant(qs[0])] + AllMeant(qs[1..][..k]);
  }

  lemma OneArrives(q: Framed, tail: seq<byte>, stoul: Stoul)
    requires GoodFrame(q, stoul) && IsRequest(q)
    ensures RequestsIn(RenderFramed(q) + tail, stoul) == After(Meant(q), RequestsIn(tail, stoul))
  {
    hide RenderFramed, Parse, Drain, ParseStart;
    NextRequestStable(stoul);
    ParseFramed(q, tail, stoul);
    DrainOne(NextRequest(stoul), Never(), RenderFramed(q) + tail);
    assert (RenderFramed(q) + tail)[|RenderFramed(q)|..] == tail;
    assert RequestsIn(RenderFramed(q) + tail, stoul) == After(Meant(q), RequestsIn(tail, stoul));
  }

  lemma NoneArrives(q: Framed, tail: seq<byte>, stoul: Stoul)
    requires GoodFrame(q, stoul) && !IsRequest(q)
    ensures RequestsIn(RenderFramed(q) + tail, stoul) == Drained([], RenderFramed(q) + tail, true)
  {
    ParseFramed(q, tail, stoul);
    MalformedBlocks(RenderFramed(q) + tail, stoul, []);
    assert RenderFramed(q) + tail + [] == RenderFramed(q) + tail;
  }

  /** Four letters without a space, and then a good request: neither is ever handled, whatever follows. */
  lemma OopsBlocks(more: seq<byte>, stoul: Stoul)
    ensures var stream := Ascii("OOPS") + BLANK_LINE + Ascii("GET / HTTP/1.1") + BLANK_LINE + more;
      RequestsIn(stream, stoul) == Drained([], stream, true)
  {
    hide Drain, Parse;
    var bad, rest := Ascii("OOPS"), Ascii("GET / HTTP/1.1") + BLANK_LINE + more;
    var stream := Ascii("OOPS") + BLANK_LINE + Ascii("GET / HTTP/1.1") + BLANK_LINE + more;
    Oops(bad, rest, stoul);
    MalformedBlocks(bad + BLANK_LINE + rest, stoul, []);
    Regrouped(bad, Ascii("GET / HTTP/1.1"), more);
    assert stream + [] == stream;
    assert RequestsIn(stream, stoul) == Drained([], stream, true);
  }

  lemma Regrouped(a: seq<byte>, b: seq<byte>, c: seq<byte>)
    ensures a + BLANK_LINE + b + BLANK_LINE + c == a + BLANK_LINE + (b + BLANK_LINE + c)
  {
  }

  lemma Oops(bad: seq<byte>, rest: seq<byte>, stoul: Stoul)
    requires CR !in bad && SPACE !in bad
    ensures Parse(bad + BLANK_LINE + rest, map[], stoul) == Malformed
  {
    hide Cut, ParseHeaders;
    CutClean(bad, BLANK_LINE, rest);
    CutNothing(bad, CRLF);
    CutNothing(bad, [SPACE]);
  }

  /** A complete request in the batch of the hang-up is not handled, though the stream has it. */
  method RequestLostToHangUp(c: HttpConnection, pieces: nat -> nat)
    requires c.Rested() && c.Answering() && c.Tracked() && c.active && c.stream == [] && c.stoul([]).None?
    modifies c`stream, c`handled, c`texts, c`served, c`events, c.readBuf, c.readBuf.buf
    modifies c`active, c`interest, c`writeBuf, c`writing, c`closeAfterWrite
    ensures c.handled == [] && !c.active && |RequestsIn(c.stream, c.stoul).items| == 1
  {
    hide RequestsIn, ParseStart, HttpConnection.Answering, HttpConnection.Tracked;
    NothingArrives(c.stoul);
    GetIsRequest();
    BareRequest(Ascii("GET / HTTP/1.1"), c.stoul);
    var request := Ascii("GET / HTTP/1.1") + BLANK_LINE;
    assert [] + request == request;
    c.OnRead(request, Ending.HungUp, pieces);
  }

  lemma GetIsRequest()
    ensures Clean(Ascii("GET / HTTP/1.1")) && ParseStart(Ascii("GET / HTTP/1.1")).Some?
  {
    hide ParseStart;
    var start := StartLine(Ascii("GET"), Ascii("/"), [], Ascii("HTTP/1.1"));
    GetIsGood();
    StartReads(start);
    assert Ascii("GET / HTTP/1.1") == RenderStart(start);
  }

  lemma GetIsGood()
    ensures GoodStart(StartLine(Ascii("GET"), Ascii("/"), [], Ascii("HTTP/1.1")))
  {
  }

  /** A request line and a blank line are a request without headers and body. */
  lemma BareRequest(line: seq<byte>, stoul: Stoul)
    requires Clean(line) && ParseStart(line).Some? && stoul([]).None?
    ensures |RequestsIn(line + BLANK_LINE, stoul).items| == 1
  {
    hide Cut, ParseStart;
    NextRequestStable(stoul);
    CutClean(line, BLANK_LINE, []);
    CutNothing(line, CRLF);
    assert line + BLANK_LINE + [] == line + BLANK_LINE;
    assert ParseHeaders(map[], []) == map[];
    assert Parse(line + BLANK_LINE, map[], stoul) == Parsed(|line + BLANK_LINE|, Request(ParseStart(line).value, map[], []));
    DrainOne(NextRequest(stoul), Never(), line + BLANK_LINE);
    assert (line + BLANK_LINE)[|line + BLANK_LINE|..] == [];
    NothingArrives(stoul);
  }

  // ---------------------------------------------------------------- answers

  lemma EventsSnoc(events: seq<Event>, e: Event)
    ensures Run(events + [e]) == Step(Run(events), e)
    ensures NonEmpty(events) && (e.Responded? ==> e.text != []) ==> NonEmpty(events + [e])
    ensures AllClose(events) && (e.Responded? ==> !e.keepAlive) ==> AllClose(events + [e])
  {
    RunSnoc(events, e);
  }

  /**
   * Pipelined requests are answered one by one, in order: what the client has been sent and will be sent reads
   * as one response for each request, with its body, and nothing else.
   */
  lemma ClientIsAnswered(c: HttpConnection)
    requires c.Answering() && forall i :: 0 <= i < |c.handled| ==> Plain(c.handler(i, c.handled[i]), c.stoul)
    ensures Stable(NextReply(c.stoul))
    ensures var d := Drain(NextReply(c.stoul), Never(), c.sent + c.writeBuf);
      Bodies(d.items) == BodiesSent(c.Answers()) && d.rest == [] && d.open
  {
    hide Plain, Serialises, NextReply;
    RepliesArrive(c.Answers(), c.texts, c.stoul);
  }

  /**
   * No lost wakeup: exactly if no response was given after everything before had been flushed and the
   * connection left open. In the server as wired no response keeps the connection alive, so none is lost.
   */
  lemma WakeupsOf(c: HttpConnection)
    requires c.Tracked()
    ensures NeverStalls(c.events) <==> !RespondedLate(c.events)
    ensures c.NeverKeepsAlive() ==> NeverStalls(c.events) && (c.active && c.writing ==> c.interest && c.closeAfterWrite)
  {
    NeverStallsExactly(c.events);
    if c.NeverKeepsAlive() {
      AsWired(c.events);
    }
  }
}
