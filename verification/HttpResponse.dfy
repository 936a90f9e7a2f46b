/** HTTP responses: src/server/http_response.cpp, and a client that reads them. */
module HttpResponses {
  import opened Bytes
  import opened HttpText
  import opened HttpRequests
  import opened HttpLaws
  import opened Streams
  import opened Wrappers

  const CONNECTION: seq<byte> := Ascii("Connection")

  /** Each line followed by its line break. */
  function Terminated(lines: seq<seq<byte>>): seq<byte> {
    if lines == [] then [] else lines[0] + CRLF + Terminated(lines[1..])
  }

  function RawLine(f: Field): seq<byte> {
    f.name + [COLON] + f.value
  }

  function RawLines(fields: seq<Field>): (lines: seq<seq<byte>>)
    ensures |lines| == |fields|
  {
    seq(|fields|, i requires 0 <= i < |fields| => RawLine(fields[i]))
  }

  /** Whether a header of that name is there, in any case. */
  predicate HasName(fields: seq<Field>, name: seq<byte>) {
    exists i :: 0 <= i < |fields| && Lower(fields[i].name) == Lower(name)
  }

  function StatusLine(code: nat, reason: seq<byte>): seq<byte> {
    Ascii("HTTP/1.1 ") + Decimal(code) + [SPACE] + reason
  }

  function LengthLine(body: seq<byte>): seq<byte> {
    FieldLine(LengthField(body))
  }

  function ConnectionLine(keepAlive: bool): seq<byte> {
    FieldLine(Field(CONNECTION, if keepAlive then Ascii("keep-alive") else Ascii("close")))
  }

  function HeaderLines(fields: seq<Field>, body: seq<byte>, keepAlive: bool): seq<seq<byte>> {
    RawLines(fields)
    + (if HasName(fields, CONTENT_LENGTH) then [] else [LengthLine(body)])
    + if HasName(fields, CONNECTION) then [] else [ConnectionLine(keepAlive)]
  }

  /** The bytes of a response whose headers come in the order of `fields`. */
  function Text(code: nat, reason: seq<byte>, fields: seq<Field>, body: seq<byte>, keepAlive: bool): seq<byte> {
    Terminated([StatusLine(code, reason)] + HeaderLines(fields, body, keepAlive)) + CRLF + body
  }

  /** `fields` lists the headers, each once, in some order. */
  predicate ListsHeaders(fields: seq<Field>, headers: Headers) {
    && (forall f :: f in fields ==> f.name in headers && headers[f.name] == f.value)
    && (forall k :: k in headers ==> Field(k, headers[k]) in fields)
    && |fields| == |headers|
  }

  lemma {:induction false} TerminatedSnoc(lines: seq<seq<byte>>, line: seq<byte>)
    ensures Terminated(lines + [line]) == Terminated(lines) + line + CRLF
  {
    if lines == [] {
      assert [line][1..] == [];
    } else {
      assert (lines + [line])[1..] == lines[1..] + [line];
      TerminatedSnoc(lines[1..], line);
    }
  }

  lemma {:induction false} TerminatedJoined(lines: seq<seq<byte>>)
    requires lines != []
    ensures Terminated(lines) == Joined(lines) + CRLF
  {
    if |lines| > 1 {
      TerminatedJoined(lines[1..]);
    } else {
      assert lines[1..] == [];
    }
  }

  /** A response as a value. */
  datatype Response = Response(code: nat, reason: seq<byte>, headers: Headers, body: seq<byte>, keepAlive: bool)

  /** The map may give its headers in any order. */
  ghost predicate Serialises(v: Response, text: seq<byte>) {
    exists order :: ListsHeaders(order, v.headers) && text == Text(v.code, v.reason, order, v.body, v.keepAlive)
  }

  class HttpResponse {
    var statusCode: nat
    var reason: seq<byte>
    var headers: Headers
    var body: seq<byte>
    var keepAlive: bool

    constructor (v: Response)
      ensures Value() == v
    {
      statusCode, reason, headers, body, keepAlive := v.code, v.reason, v.headers, v.body, v.keepAlive;
    }

    ghost function Value(): Response
      reads this
    {
      Response(statusCode, reason, headers, body, keepAlive)
    }

    method Header(k: seq<byte>, v: seq<byte>)
      modifies this`headers
      ensures headers == old(headers)[k := v]
    {
      headers := headers[k := v];
    }

    /** `toString` */
    method ToString() returns (out: seq<byte>)
      ensures Serialises(Value(), out) && out != []
    {
      hide RawLines, RawLine, HasName, StatusLine, LengthLine, ConnectionLine, Lower, Collected, Terminated;
      ghost var lines := [StatusLine(statusCode, reason)];
      out := StatusLine(statusCode, reason) + CRLF;
      ghost var order: seq<Field> := [];
      NothingYet(headers, StatusLine(statusCode, reason));
      var hasCL, hasConn := false, false;
      var todo := headers.Keys;
      while todo != {}
        invariant todo <= headers.Keys && Collected(order, headers, todo)
        invariant hasCL == HasName(order, CONTENT_LENGTH) && hasConn == HasName(order, CONNECTION)
        invariant lines == [StatusLine(statusCode, reason)] + RawLines(order) && out == Terminated(lines)
        decreases todo
      {
        var k :| k in todo;
        var f := Field(k, headers[k]);
        OneMoreHeader(order, headers, todo, k);
        if Lower(k) == Lower(CONTENT_LENGTH) {
          hasCL := true;
        }
        if Lower(k) == Lower(CONNECTION) {
          hasConn := true;
        }
        TerminatedSnoc(lines, RawLine(f));
        Reassociate([StatusLine(statusCode, reason)], RawLines(order), [RawLine(f)]);
        out := out + RawLine(f) + CRLF;
        lines := lines + [RawLine(f)];
        order := order + [f];
        todo := todo - {k};
      }
      if !hasCL {
        TerminatedSnoc(lines, LengthLine(body));
        out := out + LengthLine(body) + CRLF;
        lines := lines + [LengthLine(body)];
      }
      if !hasConn {
        TerminatedSnoc(lines, ConnectionLine(keepAlive));
        out := out + ConnectionLine(keepAlive) + CRLF;
        lines := lines + [ConnectionLine(keepAlive)];
      }
      AllCollected(order, headers);
      assert lines == [StatusLine(statusCode, reason)] + HeaderLines(order, body, keepAlive);
      out := out + CRLF;
      out := out + body;
      assert ListsHeaders(order, headers) && out == Text(statusCode, reason, order, body, keepAlive);
    }

    static lemma NothingYet(headers: Headers, line: seq<byte>)
      ensures Collected([], headers, headers.Keys) && !HasName([], CONTENT_LENGTH) && !HasName([], CONNECTION)
      ensures Terminated([line]) == line + CRLF && [line] + RawLines([]) == [line]
    {
    }

    static lemma AllCollected(order: seq<Field>, headers: Headers)
      requires Collected(order, headers, {})
      ensures ListsHeaders(order, headers)
    {
    }

    static predicate Collected(order: seq<Field>, headers: Headers, todo: set<seq<byte>>) {
      && todo <= headers.Keys
      && (forall f :: f in order ==> f.name in headers && headers[f.name] == f.value)
      && (forall k :: k in headers && k !in todo ==> Field(k, headers[k]) in order)
      && |order| + |todo| == |headers.Keys|
    }

    static lemma OneMoreHeader(order: seq<Field>, headers: Headers, todo: set<seq<byte>>, k: seq<byte>)
      requires Collected(order, headers, todo) && k in todo
      ensures Collected(order + [Field(k, headers[k])], headers, todo - {k})
      ensures RawLines(order + [Field(k, headers[k])]) == RawLines(order) + [RawLine(Field(k, headers[k]))]
      ensures forall name :: HasName(order + [Field(k, headers[k])], name) <==> HasName(order, name) || Lower(k) == Lower(name)
    {
      hide Lower;
      var more := order + [Field(k, headers[k])];
      forall name
        ensures HasName(more, name) <==> HasName(order, name) || Lower(k) == Lower(name)
      {
        if HasName(order, name) {
          var i :| 0 <= i < |order| && Lower(order[i].name) == Lower(name);
          assert more[i] == order[i];
        }
        assert more[|order|].name == k;
      }
    }
  }

  // ---------------------------------------------------------------- framing

  /** What a client takes off a connection: the head of a response and as many bytes as it announces. */
  datatype Reply = Reply(head: seq<byte>, body: seq<byte>)

  function NextReply(stoul: Stoul): Decoder<Reply> {
    data => match Cut(data, BLANK_LINE)
      case None => More
      case Some(h) =>
        var n := ContentLength(ParseHeaders(map[], SplitHead(h.left).right), stoul);
        if n > |h.right| then More else One(|h.left| + |BLANK_LINE| + n, Reply(h.left, h.right[..n]))
  }

  lemma NextReplyStable(stoul: Stoul)
    ensures Stable(NextReply(stoul))
  {
    hide NextReply;
    forall data, more
      ensures KeepsVerdict(NextReply(stoul), data, more)
    {
      NeverBad(data, stoul);
      if NextReply(stoul)(data).One? {
        ReplyStays(data, more, stoul);
      }
    }
    forall data | NextReply(stoul)(data).One?
      ensures 0 < NextReply(stoul)(data).size <= |data|
    {
      ReplyStays(data, [], stoul);
    }
  }

  lemma NeverBad(data: seq<byte>, stoul: Stoul)
    ensures !NextReply(stoul)(data).Bad?
  {
  }

  lemma ReplyStays(data: seq<byte>, more: seq<byte>, stoul: Stoul)
    requires NextReply(stoul)(data).One?
    ensures NextReply(stoul)(data + more) == NextReply(stoul)(data)
    ensures 0 < NextReply(stoul)(data).size <= |data|
  {
    hide ParseHeaders, ContentLength, Cut;
    CutStays(data, BLANK_LINE, more);
    var h := Cut(data, BLANK_LINE).value;
    TakeOfSum(h.right, more, |NextReply(stoul)(data).item.body|);
  }

  /** Without carriage returns, the headers can be told apart on the wire. */
  predicate Frameable(reason: seq<byte>, fields: seq<Field>) {
    CR !in reason && forall i :: 0 <= i < |fields| ==> CR !in fields[i].name && CR !in fields[i].value
  }

  function Head(code: nat, reason: seq<byte>, fields: seq<Field>, body: seq<byte>, keepAlive: bool): seq<byte> {
    Joined([StatusLine(code, reason)] + HeaderLines(fields, body, keepAlive))
  }

  /** The headers as the header parser finds them in the head of the response. */
  function Announced(fields: seq<Field>, body: seq<byte>, keepAlive: bool): Headers {
    WithLines(map[], HeaderLines(fields, body, keepAlive))
  }

  /** For any order of the headers, the first blank line of the response ends its header block. */
  lemma ResponseCut(code: nat, reason: seq<byte>, fields: seq<Field>, body: seq<byte>, keepAlive: bool, rest: seq<byte>)
    requires Frameable(reason, fields)
    ensures var head := Head(code, reason, fields, body, keepAlive);
      && Text(code, reason, fields, body, keepAlive) == head + BLANK_LINE + body
      && Cut(Text(code, reason, fields, body, keepAlive) + rest, BLANK_LINE) == Some(Halves(head, body + rest))
      && ParseHeaders(map[], SplitHead(head).right) == Announced(fields, body, keepAlive)
  {
    hide Joined, ParseHeaders, Cut, Lower, SplitHead, StatusLine, HeaderLines, HasName, Frameable, Terminated;
    var lines := HeaderLines(fields, body, keepAlive);
    var head := Joined([StatusLine(code, reason)] + lines);
    AllLinesClean(code, reason, fields, body, keepAlive);
    TerminatedJoined([StatusLine(code, reason)] + lines);
    HeadReads(StatusLine(code, reason), lines, body + rest, map[]);
    Regroup(head, body, rest);
    TwoBreaks(head);
  }

  /**
   * Framing: the header parser finds in that block a Content-Length that is the length of what follows, unless
   * the response sets one of its own.
   */
  lemma ResponseFraming(fields: seq<Field>, body: seq<byte>, keepAlive: bool)
    requires !HasName(fields, CONTENT_LENGTH)
    ensures Get(Announced(fields, body, keepAlive), CONTENT_LENGTH) == Decimal(|body|)
    ensures FromDecimal(Decimal(|body|)) == |body|
  {
    hide Decimal, FromDecimal;
    LengthFound(fields, body, keepAlive);
    DecimalRoundTrip(|body|);
  }

  lemma TwoBreaks(head: seq<byte>)
    ensures head + CRLF + CRLF == head + BLANK_LINE
  {
  }

  lemma AllLinesClean(code: nat, reason: seq<byte>, fields: seq<Field>, body: seq<byte>, keepAlive: bool)
    requires Frameable(reason, fields)
    ensures Clean(StatusLine(code, reason)) && AllClean(HeaderLines(fields, body, keepAlive))
  {
    assert CR !in Decimal(code);
    assert CR !in Ascii("HTTP/1.1 ");
    LengthFieldGood(body);
    FieldReads(map[], LengthField(body));
    ConnectionGood(keepAlive);
    FieldReads(map[], Field(CONNECTION, if keepAlive then Ascii("keep-alive") else Ascii("close")));
  }

  lemma ConnectionGood(keepAlive: bool)
    ensures GoodField(Field(CONNECTION, if keepAlive then Ascii("keep-alive") else Ascii("close")))
  {
    assert COLON !in CONNECTION && CR !in CONNECTION;
    assert CR !in Ascii("keep-alive") && CR !in Ascii("close");
  }

  lemma {:induction false} WithLinesConcat(known: Headers, a: seq<seq<byte>>, b: seq<seq<byte>>)
    ensures WithLines(known, a + b) == WithLines(WithLines(known, a), b)
    decreases |a|
  {
    if a == [] {
      assert a + b == b;
    } else {
      assert (a + b)[1..] == a[1..] + b;
      WithLinesConcat(WithLine(known, a[0]), a[1..], b);
    }
  }

  /** The announced length is the last header of its name, so it is the one that counts. */
  lemma LengthFound(fields: seq<Field>, body: seq<byte>, keepAlive: bool)
    requires !HasName(fields, CONTENT_LENGTH)
    ensures Get(WithLines(map[], HeaderLines(fields, body, keepAlive)), CONTENT_LENGTH) == Decimal(|body|)
  {
    hide HasName, RawLines, LengthLine, ConnectionLine, Lower, Decimal, WithLines, WithLine;
    var raw, conn := RawLines(fields), if HasName(fields, CONNECTION) then [] else [ConnectionLine(keepAlive)];
    WithLinesConcat(map[], raw + [LengthLine(body)], conn);
    WithLinesConcat(map[], raw, [LengthLine(body)]);
    LengthAdded(WithLines(map[], raw), body);
    ConnectionAdded(WithLines(map[], raw + [LengthLine(body)]), keepAlive);
    assert WithLines(WithLines(map[], raw + [LengthLine(body)]), []) == WithLines(map[], raw + [LengthLine(body)]) by {
      NoLines(WithLines(map[], raw + [LengthLine(body)]));
    }
    assert HeaderLines(fields, body, keepAlive) == raw + [LengthLine(body)] + conn;
    assert Get(WithLines(map[], HeaderLines(fields, body, keepAlive)), CONTENT_LENGTH) == Decimal(|body|);
  }

  lemma NoLines(known: Headers)
    ensures WithLines(known, []) == known
  {
  }

  lemma OneLine(known: Headers, f: Field)
    requires GoodField(f)
    ensures WithLines(known, [FieldLine(f)]) == known[Lower(f.name) := f.value]
  {
    hide WithLine;
    FieldReads(known, f);
    assert [FieldLine(f)][1..] == [];
    NoLines(known[Lower(f.name) := f.value]);
  }

  lemma LengthAdded(known: Headers, body: seq<byte>)
    ensures Get(WithLines(known, [LengthLine(body)]), CONTENT_LENGTH) == Decimal(|body|)
  {
    LengthFieldGood(body);
    OneLine(known, LengthField(body));
  }

  lemma ConnectionAdded(known: Headers, keepAlive: bool)
    ensures Get(WithLines(known, [ConnectionLine(keepAlive)]), CONTENT_LENGTH) == Get(known, CONTENT_LENGTH)
  {
    ConnectionGood(keepAlive);
    OneLine(known, Field(CONNECTION, if keepAlive then Ascii("keep-alive") else Ascii("close")));
    assert Lower(CONNECTION) != Lower(CONTENT_LENGTH);
  }

  /** A client gets exactly the body that the server put in, whatever follows, exactly if its length is announced. */
  lemma ReplyExactly(code: nat, reason: seq<byte>, fields: seq<Field>, body: seq<byte>, keepAlive: bool, rest: seq<byte>, stoul: Stoul)
    requires Frameable(reason, fields)
    ensures var text := Text(code, reason, fields, body, keepAlive);
      NextReply(stoul)(text + rest) == One(|text|, Reply(Head(code, reason, fields, body, keepAlive), body))
      <==> ContentLength(Announced(fields, body, keepAlive), stoul) == |body|
  {
    hide Text, Head, ParseHeaders, Cut, Announced, ContentLength;
    ResponseCut(code, reason, fields, body, keepAlive, rest);
    assert (body + rest)[..|body|] == body;
  }

  /** So it does if the response leaves the announcing to the server. */
  lemma ReplyReads(code: nat, reason: seq<byte>, fields: seq<Field>, body: seq<byte>, keepAlive: bool, rest: seq<byte>, stoul: Stoul)
    requires Frameable(reason, fields) && !HasName(fields, CONTENT_LENGTH) && stoul(Decimal(|body|)) == Some(|body|)
    ensures var text := Text(code, reason, fields, body, keepAlive);
      NextReply(stoul)(text + rest) == One(|text|, Reply(Head(code, reason, fields, body, keepAlive), body))
  {
    hide Text, Head, NextReply, Announced, HasName, Frameable;
    ResponseFraming(fields, body, keepAlive);
    ReplyExactly(code, reason, fields, body, keepAlive, rest, stoul);
  }

  // ---------------------------------------------------------------- a connection's worth of responses

  /** A response that can be told apart on the wire and leaves announcing its length to the server. */
  predicate Plain(v: Response, stoul: Stoul) {
    && CR !in v.reason
    && (forall k :: k in v.headers ==> CR !in k && CR !in v.headers[k] && Lower(k) != Lower(CONTENT_LENGTH))
    && stoul(Decimal(|v.body|)) == Some(|v.body|)
  }

  lemma PlainReads(v: Response, text: seq<byte>, rest: seq<byte>, stoul: Stoul) returns (head: seq<byte>)
    requires Plain(v, stoul) && Serialises(v, text)
    ensures NextReply(stoul)(text + rest) == One(|text|, Reply(head, v.body))
  {
    hide Text, NextReply, Lower, Decimal, Head;
    var order: seq<Field> :| ListsHeaders(order, v.headers) && text == Text(v.code, v.reason, order, v.body, v.keepAlive);
    forall i | 0 <= i < |order|
      ensures CR !in order[i].name && CR !in order[i].value && Lower(order[i].name) != Lower(CONTENT_LENGTH)
    {
      assert order[i] in order;
    }
    ReplyReads(v.code, v.reason, order, v.body, v.keepAlive, rest, stoul);
    head := Head(v.code, v.reason, order, v.body, v.keepAlive);
  }

  function Bodies(replies: seq<Reply>): (bodies: seq<seq<byte>>)
    ensures |bodies| == |replies|
  {
    seq(|replies|, i requires 0 <= i < |replies| => replies[i].body)
  }

  function BodiesSent(vs: seq<Response>): (bodies: seq<seq<byte>>)
    ensures |bodies| == |vs|
  {
    seq(|vs|, i requires 0 <= i < |vs| => vs[i].body)
  }

  /** Responses sent back to back are read one by one, each with its body, and leave nothing over. */
  lemma {:induction false} RepliesArrive(vs: seq<Response>, texts: seq<seq<byte>>, stoul: Stoul)
    requires |texts| == |vs| && forall i :: 0 <= i < |vs| ==> Plain(vs[i], stoul) && Serialises(vs[i], texts[i])
    ensures Stable(NextReply(stoul))
    ensures var d := Drain(NextReply(stoul), Never(), Concat(texts));
      Bodies(d.items) == BodiesSent(vs) && d.rest == [] && d.open
  {
    hide Plain, Serialises, NextReply;
    NextReplyStable(stoul);
    if vs == [] {
      NoReply(stoul);
    } else {
      var tail := Concat(texts[1..]);
      RepliesArrive(vs[1..], texts[1..], stoul);
      var head := PlainReads(vs[0], texts[0], tail, stoul);
      DrainOne(NextReply(stoul), Never(), texts[0] + tail);
      assert (texts[0] + tail)[|texts[0]|..] == tail;
      FirstBody(Reply(head, vs[0].body), Drain(NextReply(stoul), Never(), tail).items, vs);
    }
  }

  lemma NoReply(stoul: Stoul)
    ensures NextReply(stoul)([]).More?
  {
  }

  lemma FirstBody(r: Reply, replies: seq<Reply>, vs: seq<Response>)
    requires vs != [] && r.body == vs[0].body && Bodies(replies) == BodiesSent(vs[1..])
    ensures Bodies([r] + replies) == BodiesSent(vs)
  {
    assert BodiesSent(vs) == [vs[0].body] + BodiesSent(vs[1..]);
    assert Bodies([r] + replies) == [r.body] + Bodies(replies);
  }
}
