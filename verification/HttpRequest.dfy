/** HTTP requests: src/server/http_request.cpp. */
module HttpRequests {
  import opened Bytes
  import opened Buffers
  import opened HttpText
  import opened Wrappers

  type Headers = map<seq<byte>, seq<byte>>

  /** `std::stoul`: a number, or nothing where it throws. */
  type Stoul = seq<byte> -> Option<nat>

  datatype StartLine = StartLine(method_: seq<byte>, path: seq<byte>, query: seq<byte>, version: seq<byte>)

  datatype Request = Request(start: StartLine, headers: Headers, body: seq<byte>)

  /** Why `parse` returns false, or what it parsed and how many bytes that took. */
  datatype ParseResult = Incomplete | Malformed | Parsed(size: nat, request: Request)

  function ParseStart(line: seq<byte>): Option<StartLine> {
    match Cut(line, [SPACE])
    case None => None
    case Some(m) =>
      match Cut(m.right, [SPACE])
      case None => None
      case Some(u) =>
        if u.right != Ascii("HTTP/1.1") && u.right != Ascii("HTTP/1.0") then None
        else
          var (path, query) := SplitUrl(u.left);
          if path == [] then None else Some(StartLine(m.left, path, query, u.right))
  }

  function SplitUrl(url: seq<byte>): (seq<byte>, seq<byte>) {
    match Cut(url, Ascii("?"))
    case None => (url, [])
    case Some(h) => (h.left, h.right)
  }

  /** A line without a colon is skipped; names are kept in lower case; a repeated name keeps its last value. */
  function WithLine(known: Headers, line: seq<byte>): Headers {
    match Cut(line, [COLON])
    case None => known
    case Some(h) => known[Lower(Trim(h.left)) := Trim(h.right)]
  }

  function ParseHeaders(known: Headers, block: seq<byte>): Headers
    decreases |block|
  {
    if block == [] then known
    else
      match Cut(block, CRLF)
      case None => WithLine(known, block)
      case Some(h) => ParseHeaders(WithLine(known, h.left), h.right)
  }

  function Get(headers: Headers, name: seq<byte>): seq<byte> {
    if Lower(name) in headers then headers[Lower(name)] else []
  }

  function ContentLength(headers: Headers, stoul: Stoul): nat {
    match stoul(Get(headers, Ascii("Content-Length")))
    case None => 0
    case Some(n) => n
  }

  /** The request line and the rest of a head. */
  function SplitHead(head: seq<byte>): Halves {
    match Cut(head, CRLF)
    case None => Halves(head, [])
    case Some(h) => h
  }

  /** `parse` on the bytes `data`, into an object that has `known` headers already. */
  function Parse(data: seq<byte>, known: Headers, stoul: Stoul): ParseResult {
    match Cut(data, BLANK_LINE)
    case None => Incomplete
    case Some(h) =>
      var head := SplitHead(h.left);
      match ParseStart(head.left)
      case None => Malformed
      case Some(start) =>
        var headers := ParseHeaders(known, head.right);
        var n := ContentLength(headers, stoul);
        if n > |h.right| then Incomplete
        else Parsed(|h.left| + |BLANK_LINE| + n, Request(start, headers, h.right[..n]))
  }

  /** The value of the first pair whose key is `k`, or nothing. */
  function QueryValue(query: seq<byte>, k: seq<byte>): seq<byte>
    decreases |query|
  {
    match Cut(query, Ascii("="))
    case None => []
    case Some(h) =>
      match Cut(h.right, Ascii("&"))
      case None => if h.left == k then h.right else []
      case Some(v) => if h.left == k then v.left else QueryValue(v.right, k)
  }

  class HttpRequest {
    var ok: bool
    var start: StartLine
    var headers: Headers
    var body: seq<byte>

    constructor ()
      ensures !ok && headers == map[]
    {
      ok, start, headers, body := false, StartLine([], [], [], []), map[], [];
    }

    /**
     * `parse`: takes everything out of the buffer and puts back what it does not use, everything if the
     * request is malformed or not complete.
     */
    method ParseFrom(buf: Buffer, stoul: Stoul) returns (parsed: bool)
      requires buf.Valid()
      modifies this, buf, buf.buf
      ensures buf.Valid() && (buf.buf == old(buf.buf) || fresh(buf.buf)) && ok == parsed
      ensures match Parse(old(buf.Contents()), old(headers), stoul)
        case Parsed(n, r) => parsed && n <= |old(buf.Contents())| && buf.Contents() == old(buf.Contents())[n..] && r == Request(start, headers, body)
        case _ => !parsed && buf.Contents() == old(buf.Contents())
    {
      hide Parse;
      ok := false;
      var snap := buf.RetrieveAll();
      assert [] + snap == snap;
      var unused := ParseText(snap, stoul);
      if unused == None {
        buf.Append(snap);
        return false;
      }
      assert [] + unused.value == unused.value;
      if 0 < |unused.value| {
        buf.Append(unused.value);
      }
      ok := true;
      parsed := true;
    }

    /** The parsing proper: the bytes that are not part of the request, if there is one. */
    method ParseText(snap: seq<byte>, stoul: Stoul) returns (unused: Option<seq<byte>>)
      modifies this`start, this`headers, this`body
      ensures match Parse(snap, old(headers), stoul)
        case Parsed(n, r) => n <= |snap| && unused == Some(snap[n..]) && r == Request(start, headers, body)
        case _ => unused == None
    {
      hide ParseStart, ParseHeaders, ContentLength, Cut;
      var halves := Cut(snap, BLANK_LINE);
      if halves == None {
        return None;
      }
      var rest := halves.value.right;
      var head := SplitHead(halves.value.left);
      var good := ParseRequestLine(head.left);
      if !good {
        return None;
      }
      ParseHeaderBlock(head.right);
      var contentLength := ContentLength(headers, stoul);
      if contentLength > |rest| {
        return None;
      }
      body := rest[..contentLength];
      Remainder(snap, halves.value, contentLength);
      unused := Some(rest[contentLength..]);
    }

    static lemma Remainder(snap: seq<byte>, h: Halves, n: nat)
      requires snap == h.left + BLANK_LINE + h.right && n <= |h.right|
      ensures snap[|h.left| + |BLANK_LINE| + n..] == h.right[n..]
    {
    }

    method ParseRequestLine(line: seq<byte>) returns (good: bool)
      modifies this`start
      ensures good == ParseStart(line).Some? && (good ==> ParseStart(line) == Some(start))
    {
      hide Cut;
      var sp1 := Cut(line, [SPACE]);
      if sp1 == None {
        return false;
      }
      var sp2 := Cut(sp1.value.right, [SPACE]);
      if sp2 == None {
        return false;
      }
      start := start.(method_ := sp1.value.left, version := sp2.value.right);
      if start.version != Ascii("HTTP/1.1") && start.version != Ascii("HTTP/1.0") {
        return false;
      }
      var q := Cut(sp2.value.left, Ascii("?"));
      if q == None {
        start := start.(path := sp2.value.left, query := []);
      } else {
        start := start.(path := q.value.left, query := q.value.right);
      }
      good := start.path != [];
    }

    method ParseHeaderBlock(block: seq<byte>)
      modifies this`headers
      ensures headers == ParseHeaders(old(headers), block)
    {
      var rest := block;
      while rest != []
        invariant ParseHeaders(headers, rest) == ParseHeaders(old(headers), block)
        decreases |rest|
      {
        var end := Cut(rest, CRLF);
        var line := if end == None then rest else end.value.left;
        var colon := Cut(line, [COLON]);
        var before := headers;
        if colon != None {
          headers := headers[Lower(Trim(colon.value.left)) := Trim(colon.value.right)];
        }
        assert headers == WithLine(before, line);
        rest := if end == None then [] else end.value.right;
      }
    }

    method GetQuery(k: seq<byte>) returns (v: seq<byte>)
      ensures v == QueryValue(start.query, k)
    {
      if start.query == [] {
        assert Cut([], Ascii("=")) == None;
        return [];
      }
      var rest := start.query;
      while rest != []
        invariant QueryValue(rest, k) == QueryValue(start.query, k)
        decreases |rest|
      {
        var eq := Cut(rest, Ascii("="));
        if eq == None {
          return [];
        }
        var amp := Cut(eq.value.right, Ascii("&"));
        var val := if amp == None then eq.value.right else amp.value.left;
        if eq.value.left == k {
          return val;
        }
        if amp == None {
          return [];
        }
        rest := amp.value.right;
      }
      assert Cut([], Ascii("=")) == None;
      return [];
    }
  }
}
