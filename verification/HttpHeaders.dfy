/** What header blocks mean, of requests and of responses, said without the functions that parse them. */
module HttpHeaders {
  import opened Bytes
  import opened HttpLaws
  import opened HttpNames
  import opened HttpRequests
  import opened HttpResponses
  import opened HttpText
  import opened Wrappers

  // ---------------------------------------------------------------- lines

  /** Without a line break inside. */
  predicate Unbroken(line: seq<byte>) {
    NoneBefore(line, CRLF, |line|)
  }

  /** The lines of a block: what is between its line breaks. */
  ghost predicate AreLines(block: seq<byte>, lines: seq<seq<byte>>) {
    lines != [] && block == Joined(lines) && forall i :: 0 <= i < |lines| ==> Unbroken(lines[i])
  }

  /** Every block has lines. */
  lemma {:induction false} LinesExist(block: seq<byte>) returns (lines: seq<seq<byte>>)
    ensures AreLines(block, lines)
    decreases |block|
  {
    hide Unbroken, Find;
    match Cut(block, CRLF)
    case None =>
      lines := [block];
      WholeUnbroken(block);
    case Some(h) =>
      var rest := LinesExist(h.right);
      lines := [h.left] + rest;
      LeftUnbroken(block);
      assert lines[1..] == rest;
  }

  lemma WholeUnbroken(block: seq<byte>)
    requires Cut(block, CRLF).None?
    ensures Unbroken(block)
  {
  }

  lemma LeftUnbroken(block: seq<byte>)
    requires Cut(block, CRLF).Some?
    ensures Unbroken(Cut(block, CRLF).value.left)
  {
    var left := Cut(block, CRLF).value.left;
    CutIsFirst(block, CRLF);
    forall i | 0 <= i < |left|
      ensures !Occurs(left, CRLF, i)
    {
      assert !Occurs(block, CRLF, i);
      assert |left| - i >= 2 ==> left[i..][..2] == block[i..][..2];
    }
  }

  /** An unbroken line before a break is cut off whole, even if it ends in a carriage return. */
  lemma CutLine(line: seq<byte>, rest: seq<byte>)
    requires Unbroken(line)
    ensures Cut(line + CRLF + rest, CRLF) == Some(Halves(line, rest))
  {
    var s := line + CRLF + rest;
    forall i | 0 <= i < |line|
      ensures !Occurs(s, CRLF, i)
    {
      assert !Occurs(line, CRLF, i);
      assert s[i] == line[i];
      if i + 1 < |line| {
        assert line[i..][..2] == s[i..][..2] == [line[i], line[i + 1]];
      } else {
        assert s[i..][1] == CR;
      }
    }
    CutAt(line, CRLF, rest);
  }

  /** A block is parsed line by line, whatever its lines are. */
  lemma {:induction false} ParsedByLines(known: Headers, block: seq<byte>, lines: seq<seq<byte>>)
    requires AreLines(block, lines)
    ensures ParseHeaders(known, block) == WithLines(known, lines)
    decreases |lines|
  {
    hide WithLine, Unbroken, Cut;
    if |lines| == 1 {
      OneUnbroken(lines[0]);
      EmptyLine(known);
      assert WithLines(known, lines) == WithLines(WithLine(known, lines[0]), lines[1..]) == WithLine(known, lines[0]);
    } else {
      assert AreLines(Joined(lines[1..]), lines[1..]);
      CutLine(lines[0], Joined(lines[1..]));
      ParsedByLines(WithLine(known, lines[0]), Joined(lines[1..]), lines[1..]);
      assert block != [];
    }
  }

  lemma OneUnbroken(line: seq<byte>)
    requires Unbroken(line)
    ensures Cut(line, CRLF).None?
  {
    if Cut(line, CRLF).Some? {
      OccursAt(line, CRLF, Find(line, CRLF).value);
    }
  }

  lemma EmptyLine(known: Headers)
    ensures WithLine(known, []) == known
  {
    CutNothing([], [COLON]);
  }

  // ---------------------------------------------------------------- headers

  /**
   * A line gives a header a value: up to its first colon it spells the name, in any letter case and between any
   * blanks; behind it is the value, without the blanks around it.
   */
  ghost predicate Gives(line: seq<byte>, name: seq<byte>, value: seq<byte>) {
    exists k, n :: GivesAt(line, k, n, name, value)
  }

  ghost predicate GivesAt(line: seq<byte>, k: nat, n: seq<byte>, name: seq<byte>, value: seq<byte>) {
    && k < |line| && line[k] == 58 && 58 !in line[..k]
    && IsTrimmed(line[..k], n) && SameName(n, name) && IsTrimmed(line[k + 1..], value)
  }

  ghost predicate GivesNothing(line: seq<byte>, name: seq<byte>) {
    forall value :: !Gives(line, name, value)
  }

  /** What a line does to the headers known so far. */
  lemma LineGives(known: Headers, line: seq<byte>, name: seq<byte>, value: seq<byte>)
    ensures Gives(line, name, value) ==> Get(WithLine(known, line), name) == value
    ensures GivesNothing(line, name) ==> Get(WithLine(known, line), name) == Get(known, name)
  {
    hide Lower, Trim, GivesAt;
    CutOne(line, COLON);
    match Cut(line, [COLON])
    case None =>
      forall k: nat, n
        ensures !GivesAt(line, k, n, name, value)
      {
        NoColon(line, k, n, name, value);
      }
    case Some(h) =>
      forall k: nat, n | GivesAt(line, k, n, name, value)
        ensures Lower(Trim(h.left)) == Lower(name) && Trim(h.right) == value
      {
        OneColon(line, h.left, h.right, k, n, name, value);
      }
      if Lower(Trim(h.left)) == Lower(name) {
        ColonGives(line, h.left, h.right, name);
        assert Gives(line, name, Trim(h.right));
      }
  }

  lemma NoColon(line: seq<byte>, k: nat, n: seq<byte>, name: seq<byte>, value: seq<byte>)
    requires 58 !in line
    ensures !GivesAt(line, k, n, name, value)
  {
  }

  lemma OneColon(line: seq<byte>, left: seq<byte>, right: seq<byte>, k: nat, n: seq<byte>, name: seq<byte>, value: seq<byte>)
    requires line == left + [58] + right && 58 !in left && GivesAt(line, k, n, name, value)
    ensures Lower(Trim(left)) == Lower(name) && Trim(right) == value
  {
    hide Lower, Trim, IsTrimmed, SameName;
    FirstColon(line, left, right, k);
    TrimExactly(left, n);
    TrimExactly(right, value);
    LowerExactly(n, name);
  }

  lemma FirstColon(line: seq<byte>, left: seq<byte>, right: seq<byte>, k: nat)
    requires line == left + [58] + right && 58 !in left && k < |line| && line[k] == 58 && 58 !in line[..k]
    ensures k == |left| && line[..k] == left && line[k + 1..] == right
  {
    assert forall i :: 0 <= i < |left| ==> line[i] == left[i];
    assert forall i :: 0 <= i < k ==> line[i] == line[..k][i];
    assert line[|left|] == 58;
  }

  lemma ColonGives(line: seq<byte>, left: seq<byte>, right: seq<byte>, name: seq<byte>)
    requires line == left + [58] + right && 58 !in left && Lower(Trim(left)) == Lower(name)
    ensures Gives(line, name, Trim(right))
  {
    hide Lower, Trim, IsTrimmed, SameName;
    TrimExactly(left, Trim(left));
    TrimExactly(right, Trim(right));
    LowerExactly(Trim(left), name);
    assert line[..|left|] == left && line[|left| + 1..] == right;
    assert GivesAt(line, |left|, Trim(left), name, Trim(right));
    assert Gives(line, name, Trim(right));
  }

  /** The value of a header is what the last line gives that gives one; without one it is as before. */
  lemma {:induction false} LastLineCounts(known: Headers, lines: seq<seq<byte>>, name: seq<byte>, i: nat, value: seq<byte>)
    requires i <= |lines| && forall j :: i < j < |lines| ==> GivesNothing(lines[j], name)
    requires if i < |lines| then Gives(lines[i], name, value) else forall j :: 0 <= j < |lines| ==> GivesNothing(lines[j], name)
    ensures Get(WithLines(known, lines), name) == if i < |lines| then value else Get(known, name)
    decreases |lines|
  {
    hide WithLine, Get, Gives;
    if lines != [] {
      LineGives(known, lines[0], name, value);
      var more := WithLine(known, lines[0]);
      assert forall j :: 0 <= j < |lines[1..]| ==> lines[1..][j] == lines[j + 1];
      LastLineCounts(more, lines[1..], name, if i > 0 then i - 1 else |lines| - 1, value);
    }
  }

  /** What `getHeader` finds after a block has been parsed. */
  lemma HeaderExactly(known: Headers, block: seq<byte>, lines: seq<seq<byte>>, name: seq<byte>, i: nat, value: seq<byte>)
    requires AreLines(block, lines) && i <= |lines| && forall j :: i < j < |lines| ==> GivesNothing(lines[j], name)
    requires if i < |lines| then Gives(lines[i], name, value) else forall j :: 0 <= j < |lines| ==> GivesNothing(lines[j], name)
    ensures Get(ParseHeaders(known, block), name) == if i < |lines| then value else Get(known, name)
  {
    hide *;
    ParsedByLines(known, block, lines);
    LastLineCounts(known, lines, name, i, value);
  }

  // ---------------------------------------------------------------- the head of a response

  /** A line with a colon gives one header one value. */
  lemma LineIs(line: seq<byte>, left: seq<byte>, right: seq<byte>, name: seq<byte>, value: seq<byte>)
    requires line == left + [58] + right && 58 !in left
    ensures Gives(line, name, value) <==> SameName(Trim(left), name) && value == Trim(right)
  {
    hide Lower, Trim, GivesAt, SameName;
    LowerExactly(Trim(left), name);
    forall k: nat, n | GivesAt(line, k, n, name, value)
      ensures Lower(Trim(left)) == Lower(name) && Trim(right) == value
    {
      OneColon(line, left, right, k, n, name, value);
    }
    if SameName(Trim(left), name) && value == Trim(right) {
      ColonGives(line, left, right, name);
    }
    assert Gives(line, name, value) <==> SameName(Trim(left), name) && value == Trim(right);
  }

  lemma RawLineIs(f: Field, name: seq<byte>, value: seq<byte>)
    requires GoodField(f)
    ensures Gives(RawLine(f), name, value) <==> SameName(f.name, name) && value == f.value
  {
    hide Gives, SameName;
    LineIs(RawLine(f), f.name, f.value, name, value);
    assert Trim(f.name) == f.name && Trim(f.value) == f.value;
  }

  lemma FieldLineIs(f: Field, name: seq<byte>, value: seq<byte>)
    requires GoodField(f)
    ensures Gives(FieldLine(f), name, value) <==> SameName(f.name, name) && value == f.value
  {
    hide Gives, SameName;
    assert FieldLine(f) == f.name + [58] + ([SPACE] + f.value);
    LineIs(FieldLine(f), f.name, [SPACE] + f.value, name, value);
    assert ([SPACE] + f.value)[1..] == f.value;
    assert Trim(f.name) == f.name && Trim([SPACE] + f.value) == Trim(f.value) == f.value;
  }

  /** A client finds every header of the response that has no namesake behind it, in any letter case. */
  lemma HeadersRead(fields: seq<Field>, body: seq<byte>, keepAlive: bool, i: nat, name: seq<byte>)
    requires AllGood(fields) && i < |fields| && SameName(fields[i].name, name)
    requires forall j :: i < j < |fields| ==> !SameName(fields[j].name, name)
    ensures Get(Announced(fields, body, keepAlive), name) == fields[i].value
  {
    hide Gives, SameName, RawLine, FieldLine, Lower, Get, WithLines, Ascii;
    var lines := HeaderLines(fields, body, keepAlive);
    forall j, value | i <= j < |fields|
      ensures Gives(lines[j], name, value) <==> SameName(fields[j].name, name) && value == fields[j].value
    {
      RawLineIs(fields[j], name, value);
    }
    LowerExactly(fields[i].name, name);
    forall j, value | |fields| <= j < |lines|
      ensures !Gives(lines[j], name, value)
    {
      OwnLines(fields, body, keepAlive, i, j, name, value);
    }
    LastLineCounts(map[], lines, name, i, fields[i].value);
    assert Get(Announced(fields, body, keepAlive), name) == fields[i].value;
  }

  /** The lines that the server adds give nothing that the response has itself. */
  lemma OwnLines(fields: seq<Field>, body: seq<byte>, keepAlive: bool, i: nat, j: nat, name: seq<byte>, value: seq<byte>)
    requires i < |fields| && Lower(fields[i].name) == Lower(name) && |fields| <= j < |HeaderLines(fields, body, keepAlive)|
    ensures !Gives(HeaderLines(fields, body, keepAlive)[j], name, value)
  {
    hide Gives, SameName, FieldLine, Lower;
    LengthFieldGood(body);
    FieldLineIs(LengthField(body), name, value);
    LowerExactly(CONTENT_LENGTH, name);
    ConnectionFieldGood(keepAlive);
    FieldLineIs(ConnectionField(keepAlive), name, value);
    LowerExactly(CONNECTION, name);
  }

  function ConnectionField(keepAlive: bool): Field {
    Field(CONNECTION, if keepAlive then Ascii("keep-alive") else Ascii("close"))
  }

  lemma ConnectionFieldGood(keepAlive: bool)
    ensures GoodField(ConnectionField(keepAlive)) && ConnectionLine(keepAlive) == FieldLine(ConnectionField(keepAlive))
  {
    hide GoodField;
    ConnectionGood(keepAlive);
  }

  /** Unless the response says so itself, the client is told whether the connection stays open. */
  lemma ConnectionRead(fields: seq<Field>, body: seq<byte>, keepAlive: bool)
    requires !HasName(fields, CONNECTION)
    ensures Get(Announced(fields, body, keepAlive), Ascii("connection")) == if keepAlive then Ascii("keep-alive") else Ascii("close")
  {
    hide Gives, FieldLine, Lower, Get, WithLines, ConnectionLine, LengthLine;
    var lines, f := HeaderLines(fields, body, keepAlive), ConnectionField(keepAlive);
    ConnectionFieldGood(keepAlive);
    FieldLineIs(f, Ascii("connection"), f.value);
    assert SameName(CONNECTION, Ascii("connection"));
    assert lines[|lines| - 1] == FieldLine(f);
    LastLineCounts(map[], lines, Ascii("connection"), |lines| - 1, f.value);
    assert Get(Announced(fields, body, keepAlive), Ascii("connection")) == f.value;
  }

  /** The first line of a response: version, a code in digits, reason. */
  lemma StatusRead(code: nat, reason: seq<byte>)
    ensures var line := StatusLine(code, reason);
      && Cut(line, [32]) == Some(Halves(Ascii("HTTP/1.1"), Decimal(code) + [32] + reason))
      && Cut(Decimal(code) + [32] + reason, [32]) == Some(Halves(Decimal(code), reason))
      && FromDecimal(Decimal(code)) == code
  {
    hide Decimal, FromDecimal, Cut;
    DecimalRoundTrip(code);
    CutClean(Decimal(code), [32], reason);
    VersionSpace();
    CutClean(Ascii("HTTP/1.1"), [32], Decimal(code) + [32] + reason);
    Regrouped3(Ascii("HTTP/1.1"), Decimal(code), reason);
  }

  /** For instance. */
  lemma NotFoundLine()
    ensures StatusLine(404, Ascii("Not Found")) == Ascii("HTTP/1.1 404 Not Found")
  {
    assert Decimal(404) == Decimal(40) + [52] && Decimal(40) == Decimal(4) + [48];
  }

  lemma VersionSpace()
    ensures Ascii("HTTP/1.1 ") == Ascii("HTTP/1.1") + [32] && 32 !in Ascii("HTTP/1.1")
  {
  }

  lemma Regrouped3(a: seq<byte>, b: seq<byte>, c: seq<byte>)
    ensures a + [32] + b + [32] + c == a + [32] + (b + [32] + c)
  {
  }

  /** What stands in the head of a response: its first line, and the headers as the lemmas above read them. */
  lemma HeadRead(code: nat, reason: seq<byte>, fields: seq<Field>, body: seq<byte>, keepAlive: bool)
    requires Frameable(reason, fields)
    ensures var head := Head(code, reason, fields, body, keepAlive);
      && SplitHead(head).left == StatusLine(code, reason)
      && ParseHeaders(map[], SplitHead(head).right) == Announced(fields, body, keepAlive)
  {
    hide Joined, ParseHeaders, Cut, Lower, SplitHead, StatusLine, HeaderLines, HasName, Frameable;
    AllLinesClean(code, reason, fields, body, keepAlive);
    HeadReads(StatusLine(code, reason), HeaderLines(fields, body, keepAlive), [], map[]);
  }

  // ---------------------------------------------------------------- in lower case

  /** A length announced in lower case counts: the body belongs to the request. */
  lemma LowerCaseLength(rest: seq<byte>, stoul: Stoul)
    requires stoul(Ascii("5")) == Some(5)
    ensures var text := Ascii("POST /x HTTP/1.1") + CRLF + Ascii("content-length: 5") + BLANK_LINE + Ascii("hello");
      match Parse(text + rest, map[], stoul)
      case Parsed(n, r) => n == |text| && r.body == Ascii("hello")
      case _ => false
  {
    hide *;
    var q := Framed(Ascii("POST /x HTTP/1.1"), [], Ascii("content-length"), Ascii("hello"));
    PostIsStart();
    PostIsFramed(stoul);
    PostRendered();
    ParseFramed(q, rest, stoul);
    assert RenderFramed(q) == Ascii("POST /x HTTP/1.1") + CRLF + Ascii("content-length: 5") + BLANK_LINE + Ascii("hello");
  }

  lemma PostIsStart()
    ensures Clean(Ascii("POST /x HTTP/1.1")) && ParseStart(Ascii("POST /x HTTP/1.1")).Some?
  {
    hide ParseStart;
    var s := StartLine(Ascii("POST"), Ascii("/x"), [], Ascii("HTTP/1.1"));
    PostParts();
    StartParses(Ascii("POST /x HTTP/1.1"), s, Ascii("/x"));
  }

  lemma PostParts()
    ensures Ascii("POST /x HTTP/1.1") == Ascii("POST") + [32] + (Ascii("/x") + [32] + Ascii("HTTP/1.1"))
    ensures 32 !in Ascii("POST") && 32 !in Ascii("/x") && 63 !in Ascii("/x")
  {
  }

  lemma PostIsFramed(stoul: Stoul)
    requires stoul(Ascii("5")) == Some(5) && Clean(Ascii("POST /x HTTP/1.1"))
    ensures GoodFrame(Framed(Ascii("POST /x HTTP/1.1"), [], Ascii("content-length"), Ascii("hello")), stoul)
  {
    hide Clean;
    assert Decimal(5) == Ascii("5");
  }

  lemma PostRendered()
    ensures RenderFramed(Framed(Ascii("POST /x HTTP/1.1"), [], Ascii("content-length"), Ascii("hello")))
      == Ascii("POST /x HTTP/1.1") + CRLF + Ascii("content-length: 5") + BLANK_LINE + Ascii("hello")
  {
    hide Joined;
    var f := Field(Ascii("content-length"), Decimal(5));
    assert FieldLine(f) == Ascii("content-length: 5");
    assert [] + [f] == [f] && Lines([f]) == [FieldLine(f)];
    TwoJoined(Ascii("POST /x HTTP/1.1"), FieldLine(f));
  }

  lemma TwoJoined(a: seq<byte>, b: seq<byte>)
    ensures Joined([a] + [b]) == a + CRLF + b
  {
    assert ([a] + [b])[1..] == [b];
  }
}
