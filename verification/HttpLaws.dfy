/** What parsing a request means: how it splits the bytes, that its verdicts last, and that it inverts rendering. */
module HttpLaws {
  import opened Bytes
  import opened HttpNames
  import opened HttpText
  import opened HttpRequests
  import opened Streams
  import opened Wrappers

  // ---------------------------------------------------------------- splitting and stability

  /**
   * A successful parse splits the bytes into a head, the first blank line, a body of exactly the announced
   * length, and the rest.
   */
  lemma ParseSplits(data: seq<byte>, known: Headers, stoul: Stoul) returns (head: seq<byte>)
    requires Parse(data, known, stoul).Parsed?
    ensures var Parsed(n, r) := Parse(data, known, stoul);
      && n == |head| + |BLANK_LINE| + |r.body| <= |data|
      && data == head + BLANK_LINE + r.body + data[n..]
      && NoneBefore(data, BLANK_LINE, |head|)
      && |r.body| == ContentLength(r.headers, stoul)
      && ParseStart(SplitHead(head).left) == Some(r.start) && r.headers == ParseHeaders(known, SplitHead(head).right)
  {
    hide ParseStart, ParseHeaders, ContentLength, Cut, NoneBefore, SplitHead;
    var h := Cut(data, BLANK_LINE).value;
    var n := |Parse(data, known, stoul).request.body|;
    head := h.left;
    Parts(data, h.left, h.right, n);
    CutIsFirst(data, BLANK_LINE);
  }

  lemma Parts(data: seq<byte>, left: seq<byte>, right: seq<byte>, n: nat)
    requires data == left + BLANK_LINE + right && n <= |right|
    ensures data[..|left|] == left && data[|left| + |BLANK_LINE| + n..] == right[n..]
    ensures data == left + BLANK_LINE + right[..n] + right[n..]
  {
  }

  lemma CutIsFirst(s: seq<byte>, p: seq<byte>)
    requires p != [] && Cut(s, p).Some?
    ensures |Cut(s, p).value.left| <= |s| && NoneBefore(s, p, |Cut(s, p).value.left|)
  {
  }

  lemma ParsedStays(data: seq<byte>, known: Headers, stoul: Stoul, more: seq<byte>)
    requires !Parse(data, known, stoul).Incomplete?
    ensures Parse(data + more, known, stoul) == Parse(data, known, stoul)
  {
    hide ParseStart, ParseHeaders, ContentLength, Cut;
    CutStays(data, BLANK_LINE, more);
    if Parse(data, known, stoul).Parsed? {
      TakeOfSum(Cut(data, BLANK_LINE).value.right, more, |Parse(data, known, stoul).request.body|);
    }
  }

  lemma TakeOfSum<T>(a: seq<T>, b: seq<T>, n: nat)
    requires n <= |a|
    ensures (a + b)[..n] == a[..n]
  {
  }

  /** A request that waits for its body is complete as soon as the announced number of bytes is there, and no sooner. */
  lemma BodyCompletes(data: seq<byte>, known: Headers, stoul: Stoul, more: seq<byte>)
    requires Cut(data, BLANK_LINE).Some? && Parse(data, known, stoul).Incomplete?
    ensures var h := Cut(data, BLANK_LINE).value;
      var n := ContentLength(ParseHeaders(known, SplitHead(h.left).right), stoul);
      Parse(data + more, known, stoul).Parsed? <==> |h.right| + |more| >= n
  {
    hide ParseStart, ParseHeaders, ContentLength, Cut;
    CutStays(data, BLANK_LINE, more);
  }

  /** The decode loop treats a malformed request like an incomplete one: it waits. */
  function NextRequest(stoul: Stoul): Decoder<Request> {
    data => match Parse(data, map[], stoul)
      case Parsed(n, r) => One(n, r)
      case _ => More
  }

  lemma NextRequestStable(stoul: Stoul)
    ensures Stable(NextRequest(stoul)) && NextRequest(stoul)([]).More?
  {
    forall data, more
      ensures KeepsVerdict(NextRequest(stoul), data, more)
    {
      if !Parse(data, map[], stoul).Incomplete? {
        ParsedStays(data, map[], stoul, more);
      }
    }
    forall data | NextRequest(stoul)(data).One?
      ensures 0 < NextRequest(stoul)(data).size <= |data|
    {
      var head := ParseSplits(data, map[], stoul);
    }
  }

  /** A malformed request is never gone past: whatever follows, nothing more is parsed and nothing is consumed. */
  lemma MalformedBlocks(data: seq<byte>, stoul: Stoul, more: seq<byte>)
    requires Parse(data, map[], stoul).Malformed?
    ensures Stable(NextRequest(stoul))
    ensures Drain(NextRequest(stoul), Never(), data + more) == Drained([], data + more, true)
  {
    NextRequestStable(stoul);
    ParsedStays(data, map[], stoul, more);
  }

  /**
   * Whether waiting can be rewarded: once the blank line is there, a request can still be completed exactly if
   * its first line is a request line.
   */
  lemma CompletableExactly(rest: seq<byte>, stoul: Stoul)
    requires Cut(rest, BLANK_LINE).Some? && NextRequest(stoul)(rest).More?
    ensures (exists more :: NextRequest(stoul)(rest + more).One?)
      <==> ParseStart(SplitHead(Cut(rest, BLANK_LINE).value.left).left).Some?
  {
    hide ParseStart, ParseHeaders, ContentLength, Cut;
    if Parse(rest, map[], stoul).Incomplete? {
      var h := Cut(rest, BLANK_LINE).value;
      var more := Zeros(ContentLength(ParseHeaders(map[], SplitHead(h.left).right), stoul));
      BodyCompletes(rest, map[], stoul, more);
      assert NextRequest(stoul)(rest + more).One?;
    } else {
      forall more
        ensures !NextRequest(stoul)(rest + more).One?
      {
        ParsedStays(rest, map[], stoul, more);
      }
    }
  }

  // ---------------------------------------------------------------- heads

  /** A line that ends nothing: not empty, and without a carriage return. */
  predicate Clean(line: seq<byte>) {
    line != [] && CR !in line
  }

  predicate AllClean(lines: seq<seq<byte>>) {
    forall i :: 0 <= i < |lines| ==> Clean(lines[i])
  }

  function Joined(lines: seq<seq<byte>>): seq<byte> {
    if lines == [] then [] else if |lines| == 1 then lines[0] else lines[0] + CRLF + Joined(lines[1..])
  }

  /** No blank line before the end of a block of lines. */
  lemma {:induction false} NoBlankLine(lines: seq<seq<byte>>, rest: seq<byte>)
    requires lines != [] && AllClean(lines)
    ensures NoneBefore(Joined(lines) + BLANK_LINE + rest, BLANK_LINE, |Joined(lines)|)
  {
    var line := lines[0];
    var s := Joined(lines) + BLANK_LINE + rest;
    if |lines| == 1 {
      forall i | 0 <= i < |line|
        ensures !Occurs(s, BLANK_LINE, i)
      {
        assert s[i..][0] == line[i];
      }
    } else {
      var tail := Joined(lines[1..]) + BLANK_LINE + rest;
      NoBlankLine(lines[1..], rest);
      StartsClean(lines[1..], BLANK_LINE + rest);
      assert s == line + CRLF + tail && Joined(lines[1..]) + (BLANK_LINE + rest) == tail;
      OneLineMore(line, tail, |Joined(lines[1..])|);
    }
  }

  lemma StartsClean(lines: seq<seq<byte>>, rest: seq<byte>)
    requires lines != [] && AllClean(lines)
    ensures (Joined(lines) + rest)[0] != CR
  {
  }

  lemma OneLineMore(line: seq<byte>, tail: seq<byte>, n: nat)
    requires Clean(line) && n <= |tail| && tail != [] && tail[0] != CR && NoneBefore(tail, BLANK_LINE, n)
    ensures NoneBefore(line + CRLF + tail, BLANK_LINE, |line| + |CRLF| + n)
  {
    var s := line + CRLF + tail;
    forall i | 0 <= i < |line| + |CRLF| + n
      ensures !Occurs(s, BLANK_LINE, i)
    {
      if i < |line| {
        assert s[i..][0] == line[i];
      } else if i == |line| {
        assert s[i..][2] == tail[0];
      } else if i == |line| + 1 {
        assert s[i..][0] == LF;
      } else {
        assert s[i..] == tail[i - |line| - 2..];
        assert !Occurs(tail, BLANK_LINE, i - |line| - 2);
      }
    }
  }

  function WithLines(known: Headers, lines: seq<seq<byte>>): Headers
    decreases |lines|
  {
    if lines == [] then known else WithLines(WithLine(known, lines[0]), lines[1..])
  }

  /** Parsing a block of lines is parsing them one by one. */
  lemma {:induction false} ParseJoined(known: Headers, lines: seq<seq<byte>>)
    requires AllClean(lines)
    ensures ParseHeaders(known, Joined(lines)) == WithLines(known, lines)
    decreases |lines|
  {
    hide WithLine;
    if |lines| == 1 {
      CutNothing(lines[0], CRLF);
      assert WithLines(WithLine(known, lines[0]), lines[1..]) == WithLine(known, lines[0]);
    } else if |lines| > 1 {
      CutClean(lines[0], CRLF, Joined(lines[1..]));
      ParseJoined(WithLine(known, lines[0]), lines[1..]);
      assert Joined(lines) != [];
    }
  }

  /** A head made of a first line and header lines is cut where the blank line is, and read line by line. */
  lemma HeadReads(first: seq<byte>, lines: seq<seq<byte>>, rest: seq<byte>, known: Headers)
    requires Clean(first) && AllClean(lines)
    ensures var head := Joined([first] + lines);
      && Cut(head + BLANK_LINE + rest, BLANK_LINE) == Some(Halves(head, rest))
      && SplitHead(head).left == first
      && ParseHeaders(known, SplitHead(head).right) == WithLines(known, lines)
  {
    var all := [first] + lines;
    assert AllClean(all);
    NoBlankLine(all, rest);
    CutAt(Joined(all), BLANK_LINE, rest);
    ParseJoined(known, lines);
    assert all[1..] == lines;
    if lines == [] {
      CutNothing(first, CRLF);
    } else {
      CutClean(first, CRLF, Joined(lines));
    }
  }

  // ---------------------------------------------------------------- header lines

  datatype Field = Field(name: seq<byte>, value: seq<byte>)

  predicate Trimmed(s: seq<byte>) {
    s == [] || (!Blank(s[0]) && !Blank(s[|s| - 1]))
  }

  predicate GoodField(f: Field) {
    f.name != [] && CR !in f.name && COLON !in f.name && CR !in f.value && Trimmed(f.name) && Trimmed(f.value)
  }

  function FieldLine(f: Field): seq<byte> {
    f.name + [COLON, SPACE] + f.value
  }

  lemma FieldReads(known: Headers, f: Field)
    requires GoodField(f)
    ensures Clean(FieldLine(f)) && WithLine(known, FieldLine(f)) == known[Lower(f.name) := f.value]
  {
    assert FieldLine(f) == f.name + [COLON] + ([SPACE] + f.value);
    CutClean(f.name, [COLON], [SPACE] + f.value);
    assert ([SPACE] + f.value)[1..] == f.value;
    assert Trim(f.name) == f.name && Trim(f.value) == f.value;
    assert Trim([SPACE] + f.value) == f.value;
  }

  function Lines(fields: seq<Field>): (lines: seq<seq<byte>>)
    ensures |lines| == |fields|
  {
    seq(|fields|, i requires 0 <= i < |fields| => FieldLine(fields[i]))
  }

  function WithFields(known: Headers, fields: seq<Field>): Headers
    decreases |fields|
  {
    if fields == [] then known else WithFields(known[Lower(fields[0].name) := fields[0].value], fields[1..])
  }

  predicate AllGood(fields: seq<Field>) {
    forall i :: 0 <= i < |fields| ==> GoodField(fields[i])
  }

  lemma {:induction false} FieldsRead(known: Headers, fields: seq<Field>)
    requires AllGood(fields)
    ensures AllClean(Lines(fields)) && WithLines(known, Lines(fields)) == WithFields(known, fields)
    decreases |fields|
  {
    if fields != [] {
      FieldReads(known, fields[0]);
      FieldsRead(known[Lower(fields[0].name) := fields[0].value], fields[1..]);
      assert Lines(fields)[1..] == Lines(fields[1..]);
      assert forall i :: 0 < i < |fields| ==> Lines(fields)[i] == Lines(fields[1..])[i - 1];
    }
  }

  // ---------------------------------------------------------------- round trip

  /** A request as a client means it; the length of the body is announced. */
  datatype Sent = Sent(start: StartLine, fields: seq<Field>, body: seq<byte>)

  const CONTENT_LENGTH: seq<byte> := Ascii("Content-Length")

  predicate GoodStart(s: StartLine) {
    && SPACE !in s.method_ && CR !in s.method_
    && s.path != [] && SPACE !in s.path && CR !in s.path && Ascii("?")[0] !in s.path
    && SPACE !in s.query && CR !in s.query
    && (s.version == Ascii("HTTP/1.1") || s.version == Ascii("HTTP/1.0"))
  }

  /** What makes a line a request line. */
  ghost predicate IsStart(line: seq<byte>, s: StartLine, url: seq<byte>) {
    && line == s.method_ + [32] + (url + [32] + s.version) && 32 !in s.method_ && 32 !in url
    && (s.version == Ascii("HTTP/1.1") || s.version == Ascii("HTTP/1.0"))
    && s.path != [] && 63 !in s.path
    && (if 63 in url then url == s.path + [63] + s.query else url == s.path && s.query == [])
  }

  /** A line is parsed as a request line exactly if it is one: three parts, the last of two known versions. */
  lemma StartExactly(line: seq<byte>, s: StartLine)
    ensures ParseStart(line) == Some(s) <==> exists url :: IsStart(line, s, url)
  {
    if ParseStart(line) == Some(s) {
      StartSplits(line, s);
    }
    forall url | IsStart(line, s, url)
      ensures ParseStart(line) == Some(s)
    {
      StartParses(line, s, url);
    }
  }

  lemma StartParses(line: seq<byte>, s: StartLine, url: seq<byte>)
    requires IsStart(line, s, url)
    ensures ParseStart(line) == Some(s)
  {
    hide Cut;
    CutClean(s.method_, [SPACE], url + [SPACE] + s.version);
    CutClean(url, [SPACE], s.version);
    if 63 in url {
      CutClean(s.path, Ascii("?"), s.query);
      assert s.path + [63] + s.query == s.path + Ascii("?") + s.query;
    } else {
      CutNothing(url, Ascii("?"));
    }
    assert ParseStart(line) == Some(s);
  }

  lemma StartSplits(line: seq<byte>, s: StartLine)
    requires ParseStart(line) == Some(s)
    ensures exists url :: IsStart(line, s, url)
  {
    hide Cut;
    var m := Cut(line, [SPACE]).value;
    var u := Cut(m.right, [SPACE]).value;
    CutOne(line, SPACE);
    CutOne(m.right, SPACE);
    CutOne(u.left, 63);
    assert Ascii("?") == [63];
    assert line == s.method_ + [32] + (u.left + [32] + s.version);
    assert IsStart(line, s, u.left);
  }

  /** Cutting at the first of a byte. */
  lemma CutOne(s: seq<byte>, b: byte)
    ensures Cut(s, [b]).Some? ==> s == Cut(s, [b]).value.left + [b] + Cut(s, [b]).value.right && b !in Cut(s, [b]).value.left
    ensures Cut(s, [b]).None? ==> b !in s
  {
    forall i | 0 <= i < |s| && s[i] == b
      ensures Occurs(s, [b], i)
    {
      OccursAt(s, [b], i);
    }
  }

  function Url(s: StartLine): seq<byte> {
    if s.query == [] then s.path else s.path + Ascii("?") + s.query
  }

  function RenderStart(s: StartLine): seq<byte> {
    s.method_ + [SPACE] + (Url(s) + [SPACE] + s.version)
  }

  function LengthField(body: seq<byte>): Field {
    Field(CONTENT_LENGTH, Decimal(|body|))
  }

  /**
   * Anything that is framed like a request: a first line, fields, and a body whose length is announced, by a
   * header that may be spelt in any mix of upper and lower case.
   */
  datatype Framed = Framed(line: seq<byte>, fields: seq<Field>, spelling: seq<byte>, body: seq<byte>)

  predicate GoodFrame(q: Framed, stoul: Stoul) {
    && Clean(q.line) && AllGood(q.fields) && SameName(q.spelling, Ascii("Content-Length"))
    && stoul(Decimal(|q.body|)) == Some(|q.body|)
  }

  function RenderFramed(q: Framed): seq<byte> {
    Joined([q.line] + Lines(q.fields + [Field(q.spelling, Decimal(|q.body|))])) + BLANK_LINE + q.body
  }

  /** The headers as the server finds them. */
  function FoundHeaders(fields: seq<Field>, body: seq<byte>): Headers {
    WithFields(map[], fields)[Lower(CONTENT_LENGTH) := Decimal(|body|)]
  }

  function FrameOf(q: Sent): Framed {
    Framed(RenderStart(q.start), q.fields, CONTENT_LENGTH, q.body)
  }

  function Render(q: Sent): seq<byte> {
    RenderFramed(FrameOf(q))
  }

  lemma StartReads(s: StartLine)
    requires GoodStart(s)
    ensures Clean(RenderStart(s)) && ParseStart(RenderStart(s)) == Some(s)
  {
    hide Cut;
    CutClean(s.method_, [SPACE], Url(s) + [SPACE] + s.version);
    CutClean(Url(s), [SPACE], s.version);
    if s.query == [] {
      CutNothing(s.path, Ascii("?"));
    } else {
      CutClean(s.path, Ascii("?"), s.query);
    }
    assert CR !in s.version;
    assert Clean(RenderStart(s)) && ParseStart(RenderStart(s)) == Some(s);
  }

  lemma LengthGood(spelling: seq<byte>, body: seq<byte>)
    requires SameName(spelling, Ascii("Content-Length"))
    ensures GoodField(Field(spelling, Decimal(|body|))) && Lower(spelling) == Lower(CONTENT_LENGTH)
  {
    hide Decimal, Lower;
    LowerExactly(spelling, CONTENT_LENGTH);
    SpellingClean(spelling);
    DigitsClean(Decimal(|body|));
  }

  lemma LengthFieldGood(body: seq<byte>)
    ensures GoodField(LengthField(body))
  {
    hide Decimal, Lower, GoodField;
    LengthGood(CONTENT_LENGTH, body);
  }

  lemma SpellingClean(spelling: seq<byte>)
    requires SameName(spelling, Ascii("Content-Length"))
    ensures spelling != [] && CR !in spelling && COLON !in spelling && Trimmed(spelling)
  {
    assert Ascii("Content-Length")[0] == 67 && Ascii("Content-Length")[13] == 104;
    assert forall i :: 0 <= i < 14 ==> Ascii("Content-Length")[i] == 45 || Ascii("Content-Length")[i] >= 65;
  }

  lemma DigitsClean(s: seq<byte>)
    requires Digits(s)
    ensures CR !in s && Trimmed(s)
  {
  }

  lemma {:induction false} WithFieldsSnoc(known: Headers, fields: seq<Field>, f: Field)
    ensures WithFields(known, fields + [f]) == WithFields(known, fields)[Lower(f.name) := f.value]
    decreases |fields|
  {
    if fields == [] {
      assert [f][1..] == [];
    } else {
      assert (fields + [f])[1..] == fields[1..] + [f];
      WithFieldsSnoc(known[Lower(fields[0].name) := fields[0].value], fields[1..], f);
    }
  }

  /**
   * What the server makes of something framed like a request, whatever comes after it: a request exactly if
   * its first line is a request line.
   */
  lemma ParseFramed(q: Framed, rest: seq<byte>, stoul: Stoul)
    requires GoodFrame(q, stoul)
    ensures Parse(RenderFramed(q) + rest, map[], stoul) == match ParseStart(q.line)
      case None => Malformed
      case Some(start) => Parsed(|RenderFramed(q)|, Request(start, FoundHeaders(q.fields, q.body), q.body))
  {
    hide Joined, ParseStart, ParseHeaders, Cut, Lower, Lines;
    var length := Field(q.spelling, Decimal(|q.body|));
    var fields := q.fields + [length];
    LengthGood(q.spelling, q.body);
    FieldsRead(map[], fields);
    WithFieldsSnoc(map[], q.fields, length);
    HeadReads(q.line, Lines(fields), q.body + rest, map[]);
    Regroup(Joined([q.line] + Lines(fields)), q.body, rest);
  }

  /** What the server makes of a request that a client has sent, whatever comes after it. */
  lemma ParseRender(q: Sent, rest: seq<byte>, stoul: Stoul)
    requires GoodStart(q.start) && AllGood(q.fields) && stoul(Decimal(|q.body|)) == Some(|q.body|)
    ensures Parse(Render(q) + rest, map[], stoul)
      == Parsed(|Render(q)|, Request(q.start, FoundHeaders(q.fields, q.body), q.body))
  {
    hide ParseStart, RenderStart, RenderFramed, Parse, FoundHeaders;
    StartReads(q.start);
    ParseFramed(FrameOf(q), rest, stoul);
  }

  lemma Regroup(head: seq<byte>, body: seq<byte>, rest: seq<byte>)
    ensures head + BLANK_LINE + body + rest == head + BLANK_LINE + (body + rest)
    ensures (body + rest)[..|body|] == body
  {
  }

  // ---------------------------------------------------------------- query strings

  datatype Pair = Pair(key: seq<byte>, value: seq<byte>)

  function RenderQuery(pairs: seq<Pair>): seq<byte> {
    if pairs == [] then []
    else
      pairs[0].key + Ascii("=") + if |pairs| == 1 then pairs[0].value else pairs[0].value + Ascii("&") + RenderQuery(pairs[1..])
  }

  function FirstValue(pairs: seq<Pair>, k: seq<byte>): seq<byte> {
    if pairs == [] then [] else if pairs[0].key == k then pairs[0].value else FirstValue(pairs[1..], k)
  }

  /** `getQuery` finds the value of the first pair with the key, among any pairs that can be written down. */
  lemma {:induction false} QueryReads(pairs: seq<Pair>, k: seq<byte>)
    requires forall i :: 0 <= i < |pairs| ==> Ascii("=")[0] !in pairs[i].key && Ascii("&")[0] !in pairs[i].value
    ensures QueryValue(RenderQuery(pairs), k) == FirstValue(pairs, k)
  {
    if pairs == [] {
      CutNothing([], Ascii("="));
    } else {
      var p := pairs[0];
      if |pairs| == 1 {
        CutClean(p.key, Ascii("="), p.value);
        CutNothing(p.value, Ascii("&"));
      } else {
        CutClean(p.key, Ascii("="), p.value + Ascii("&") + RenderQuery(pairs[1..]));
        CutClean(p.value, Ascii("&"), RenderQuery(pairs[1..]));
        QueryReads(pairs[1..], k);
      }
    }
  }
}
