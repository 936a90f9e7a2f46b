/** Logging in and out over HTTP: token_store.cpp, the users of room.cpp and the routes of http_handler.cpp. */
module WebSession {
  import opened Bytes
  import opened HttpLaws
  import opened HttpRequests
  import opened Wrappers
  import opened WsServer

  // ---------------------------------------------------------------- tokens

  const WORD := 0x1_0000_0000_0000_0000  // the counter is a 64-bit word

  function Hex(d: nat): (b: byte)
    requires d < 16
  {
    if d < 10 then (48 + d) as byte else (87 + d) as byte
  }

  /** The last `k` hexadecimal digits of `n`. */
  function HexDigits(n: nat, k: nat): (s: seq<byte>)
    ensures |s| == k
  {
    if k == 0 then [] else HexDigits(n / 16, k - 1) + [Hex(n % 16)]
  }

  function Token(n: nat): (tok: seq<byte>)
    ensures |tok| == 20
  {
    Ascii("tok_") + HexDigits(n, 16)
  }

  /** `n >> (4 * i)` */
  function ShiftDigits(n: nat, i: nat): nat {
    if i == 0 then n else ShiftDigits(n, i - 1) / 16
  }

  function Pow16(k: nat): (p: nat)
    ensures p > 0
  {
    if k == 0 then 1 else 16 * Pow16(k - 1)
  }

  lemma {:induction false} HexInjective(a: nat, b: nat, k: nat)
    requires a < Pow16(k) && b < Pow16(k) && HexDigits(a, k) == HexDigits(b, k)
    ensures a == b
  {
    if k > 0 {
      var s := HexDigits(a, k);
      assert s[..k - 1] == HexDigits(a / 16, k - 1) && s[k - 1] == Hex(a % 16);
      assert s[..k - 1] == HexDigits(b / 16, k - 1) && s[k - 1] == Hex(b % 16);
      HexInjective(a / 16, b / 16, k - 1);
    }
  }

  /** The value of a hexadecimal digit in lower case. */
  function HexValue(b: byte): nat {
    if 48 <= b <= 57 then (b - 48) as nat else if 97 <= b <= 102 then (b - 87) as nat else 16
  }

  function FromHex(s: seq<byte>): nat {
    if s == [] then 0 else 16 * FromHex(s[..|s| - 1]) + HexValue(s[|s| - 1])
  }

  /** Digits that write the low-order part of the number, the last weighing one. */
  lemma {:induction false} HexWrites(n: nat, k: nat)
    ensures FromHex(HexDigits(n, k)) == n % Pow16(k)
    ensures forall i :: 0 <= i < k ==> HexValue(HexDigits(n, k)[i]) < 16
  {
    if k > 0 {
      HexWrites(n / 16, k - 1);
      HexMore(n, Pow16(k - 1));
      LastHex(HexDigits(n / 16, k - 1), n % 16);
    }
  }

  lemma LastHex(s: seq<byte>, d: nat)
    requires d < 16
    ensures FromHex(s + [Hex(d)]) == 16 * FromHex(s) + d && HexValue(Hex(d)) == d
  {
    assert (s + [Hex(d)])[..|s|] == s;
  }

  lemma HexMore(n: nat, p: nat)
    requires p > 0
    ensures n % (16 * p) == 16 * (n / 16 % p) + n % 16
  {
    var q, r := n / 16 / p, n / 16 % p;
    assert n == 16 * (q * p + r) + n % 16;
    assert 16 * (q * p) == q * (16 * p);
    Bytes.Remainder(n, 16 * p, q, 16 * r + n % 16);
  }

  /** A token: four characters, and sixteen hexadecimal digits that write the counter. */
  lemma TokenIs(n: nat)
    requires n < WORD
    ensures Token(n)[..4] == Ascii("tok_") && FromHex(Token(n)[4..]) == n && |Token(n)| == 20
  {
    hide HexDigits, FromHex;
    WordIsSixteenDigits();
    HexWrites(n, 16);
    assert Token(n)[4..] == HexDigits(n, 16);
  }

  /** Two counters have the same token only if they are the same 64-bit word. */
  lemma TokenInjective(a: nat, b: nat)
    requires a < WORD && b < WORD
    ensures Token(a) == Token(b) <==> a == b
  {
    WordIsSixteenDigits();
    if Token(a) == Token(b) {
      assert Token(a)[4..] == HexDigits(a, 16) && Token(b)[4..] == HexDigits(b, 16);
      HexInjective(a, b, 16);
    }
  }

  lemma WordIsSixteenDigits()
    ensures Pow16(16) == WORD
  {
    assert Pow16(4) == 0x1_0000;
    assert Pow16(8) == 0x1_0000_0000;
    assert Pow16(12) == 0x1_0000_0000_0000;
  }

  // ---------------------------------------------------------------- sessions as values

  /** What the JSON parser finds in a body: nothing if it throws, the empty text for a missing field. */
  datatype Parsers = Parsers(username: seq<byte> -> Option<string>, token: seq<byte> -> seq<byte>, content: seq<byte> -> Option<string>)

  datatype Web = Web(users: set<string>, tokens: map<seq<byte>, string>, counter: nat)

  /** The token of a request: in its query, or else in its body. */
  function TokenOf(req: Request, json: Parsers): seq<byte> {
    var tok := QueryValue(req.start.query, Ascii("token"));
    if tok == [] && req.body != [] then json.token(req.body) else tok
  }

  function Lookup(s: Web, tok: seq<byte>): string {
    if tok in s.tokens then s.tokens[tok] else ""
  }

  /** `requireToken`: the user, if there is a token and it is live. */
  function UserOf(s: Web, req: Request, json: Parsers): Option<string> {
    var tok := TokenOf(req, json);
    if tok == [] || Lookup(s, tok) == "" then None else Some(Lookup(s, tok))
  }

  /** The name that a login request asks for, if the login is accepted. */
  function Welcomes(s: Web, req: Request, json: Parsers): Option<string> {
    if req.start.method_ != Ascii("POST") then None
    else
      match json.username(req.body)
      case None => None
      case Some(u) => if u == "" || u in s.users then None else Some(u)
  }

  function NextCounter(s: Web): nat {
    (s.counter + 1) % WORD
  }

  function Login(s: Web, req: Request, json: Parsers): Web {
    match Welcomes(s, req, json)
    case None => s
    case Some(u) => Web(s.users + {u}, s.tokens[Token(NextCounter(s)) := u], NextCounter(s))
  }

  /** The token that logout revokes: it is extracted a second time. */
  function RevokedBy(req: Request, json: Parsers): seq<byte> {
    var tok := QueryValue(req.start.query, Ascii("token"));
    if tok == [] then json.token(req.body) else tok
  }

  function Logout(s: Web, req: Request, json: Parsers): Web {
    match UserOf(s, req, json)
    case None => s
    case Some(u) =>
      var tok := RevokedBy(req, json);
      Web(s.users - {u}, if tok == [] then s.tokens else s.tokens - {tok}, s.counter)
  }

  datatype Call = LoginCall(req: Request) | LogoutCall(req: Request)

  function Step(s: Web, c: Call, json: Parsers): Web {
    match c
    case LoginCall(req) => Login(s, req, json)
    case LogoutCall(req) => Logout(s, req, json)
  }

  function Run(calls: seq<Call>, json: Parsers): Web {
    if calls == [] then Web({}, map[], 0) else Step(Run(calls[..|calls| - 1], json), calls[|calls| - 1], json)
  }

  // ---------------------------------------------------------------- the invariant

  /** Live tokens and users are in bijection, and nobody is called "". */
  ghost predicate Paired(s: Web) {
    && s.users == s.tokens.Values && "" !in s.users
    && forall a, b :: a in s.tokens && b in s.tokens && s.tokens[a] == s.tokens[b] ==> a == b
  }

  predicate Issued(tok: seq<byte>, n: nat) {
    exists k :: 0 < k <= n && tok == Token(k)
  }

  /** Every live token was issued, and the counter has not wrapped around. */
  ghost predicate Unwrapped(s: Web) {
    s.counter < WORD && forall t :: t in s.tokens ==> Issued(t, s.counter)
  }

  /** So an empty answer from `lookup` says exactly that the token is not live. */
  lemma LookupMeans(s: Web, tok: seq<byte>)
    requires Paired(s)
    ensures Lookup(s, tok) == "" <==> tok !in s.tokens
  {
    if tok in s.tokens {
      assert s.tokens[tok] in s.tokens.Values;
    }
  }

  /**
   * Who is authenticated: the user of a live token, which is the one in the query, or, if that has none, the one
   * in a body.
   */
  lemma AuthenticatedExactly(s: Web, req: Request, json: Parsers, u: string)
    requires Paired(s)
    ensures UserOf(s, req, json) == Some(u) <==>
      exists tok :: tok != [] && tok in s.tokens && s.tokens[tok] == u && Shows(req, json, tok)
  {
    LookupMeans(s, TokenOf(req, json));
    assert Shows(req, json, TokenOf(req, json)) || TokenOf(req, json) == [];
  }

  /** The request carries the token: in the query, or in its body and no other in the query. */
  predicate Shows(req: Request, json: Parsers, tok: seq<byte>) {
    var inQuery := QueryValue(req.start.query, Ascii("token"));
    inQuery == tok || (inQuery == [] && req.body != [] && json.token(req.body) == tok)
  }

  /** Logging in keeps the pairing exactly if it does not hand out a token that is still live. */
  lemma LoginExactly(s: Web, req: Request, json: Parsers)
    requires Paired(s)
    ensures Paired(Login(s, req, json)) <==> !(Welcomes(s, req, json).Some? && Token(NextCounter(s)) in s.tokens)
  {
    var t := Login(s, req, json);
    if Welcomes(s, req, json).Some? {
      var u, tok := Welcomes(s, req, json).value, Token(NextCounter(s));
      if tok in s.tokens {
        LostUser(s, t, tok, u);
      } else {
        ValuesAfter(s.tokens, tok, u);
        forall a | a in s.tokens
          ensures s.tokens[a] != u
        {
          assert s.tokens[a] in s.tokens.Values;
        }
      }
    }
  }

  /** Whoever held the token is still in the room, and holds none. */
  lemma LostUser(s: Web, t: Web, tok: seq<byte>, u: string)
    requires Paired(s) && tok in s.tokens && u !in s.users
    requires t.users == s.users + {u} && t.tokens == s.tokens[tok := u]
    ensures !Paired(t)
  {
    var v := s.tokens[tok];
    assert v in s.tokens.Values;
    forall a | a in t.tokens
      ensures t.tokens[a] != v
    {
      assert a != tok ==> t.tokens[a] == s.tokens[a];
    }
  }

  lemma ValuesAfter(tokens: map<seq<byte>, string>, tok: seq<byte>, u: string)
    requires tok !in tokens
    ensures tokens[tok := u].Values == tokens.Values + {u}
  {
    var after := tokens[tok := u];
    assert after[tok] == u;
    forall v | v in tokens.Values
      ensures v in after.Values
    {
      var a :| a in tokens && tokens[a] == v;
      assert after[a] == v;
    }
  }

  /** A counter that has not wrapped gives a token that nobody has. */
  lemma IssueIsFresh(s: Web)
    requires Unwrapped(s) && s.counter + 1 < WORD
    ensures Token(NextCounter(s)) !in s.tokens
  {
    hide Token;
    assert NextCounter(s) == s.counter + 1;
    forall k | 0 < k <= s.counter
      ensures Token(k) != Token(s.counter + 1)
    {
      TokenInjective(k, s.counter + 1);
    }
    assert !Issued(Token(s.counter + 1), s.counter);
    assert Token(NextCounter(s)) !in s.tokens;
  }

  /** The session that a logout ends. */
  ghost predicate Ended(s: Web, t: Web, tok: seq<byte>) {
    && tok in s.tokens
    && t.users == s.users - {s.tokens[tok]}
    && t.tokens == s.tokens - {tok}
    && t.counter == s.counter
  }

  /**
   * Logout revokes the very token that it authenticated with, and removes the user of that token and nobody
   * else; a logout that is not authenticated changes nothing.
   */
  lemma LogoutEndsOne(s: Web, req: Request, json: Parsers)
    requires Paired(s)
    ensures var t := Logout(s, req, json);
      if UserOf(s, req, json).Some?
      then Ended(s, t, TokenOf(req, json)) && RevokedBy(req, json) == TokenOf(req, json)
      else t == s
    ensures UserOf(s, req, json).Some? <==> TokenOf(req, json) != [] && TokenOf(req, json) in s.tokens
    ensures Paired(Logout(s, req, json))
  {
    LookupMeans(s, TokenOf(req, json));
    if UserOf(s, req, json).Some? {
      OneLess(s, TokenOf(req, json));
    }
  }

  lemma OneLess(s: Web, tok: seq<byte>)
    requires Paired(s) && tok in s.tokens
    ensures (s.tokens - {tok}).Values == s.users - {s.tokens[tok]}
  {
    var u, left := s.tokens[tok], s.tokens - {tok};
    forall v | v in s.users
      ensures v in left.Values <==> v != u
    {
      var a :| a in s.tokens && s.tokens[a] == v;
      assert a != tok ==> a in left && left[a] == v;
    }
  }

  /** A login that hands out a token that is still live. */
  predicate Collides(s: Web, c: Call, json: Parsers) {
    c.LoginCall? && Welcomes(s, c.req, json).Some? && Token(NextCounter(s)) in s.tokens
  }

  predicate NeverCollides(calls: seq<Call>, json: Parsers) {
    && (calls == []
        || (NeverCollides(calls[..|calls| - 1], json) && !Collides(Run(calls[..|calls| - 1], json), calls[|calls| - 1], json)))
  }

  ghost predicate AlwaysPaired(calls: seq<Call>, json: Parsers) {
    Paired(Run(calls, json)) && (calls == [] || AlwaysPaired(calls[..|calls| - 1], json))
  }

  /** In every run, of any length: the bijection holds throughout exactly if no login hands out a live token. */
  lemma {:induction false} AlwaysPairedExactly(calls: seq<Call>, json: Parsers)
    ensures AlwaysPaired(calls, json) <==> NeverCollides(calls, json)
  {
    if calls != [] {
      hide Paired, Token, Login, Logout;
      var init, c := calls[..|calls| - 1], calls[|calls| - 1];
      AlwaysPairedExactly(init, json);
      if AlwaysPaired(init, json) {
        match c {
          case LoginCall(req) => LoginExactly(Run(init, json), req, json);
          case LogoutCall(req) => LogoutEndsOne(Run(init, json), req, json);
        }
      }
      assert AlwaysPaired(calls, json) <==> NeverCollides(calls, json);
    }
  }

  /** In every run with fewer than 2^64 calls, tokens and users are in bijection. */
  lemma {:induction false} RunPaired(calls: seq<Call>, json: Parsers)
    requires |calls| < WORD
    ensures var s := Run(calls, json); Paired(s) && Unwrapped(s) && s.counter <= |calls|
  {
    if calls != [] {
      var s, c := Run(calls[..|calls| - 1], json), calls[|calls| - 1];
      RunPaired(calls[..|calls| - 1], json);
      StepPaired(s, c, json);
    }
  }

  lemma StepPaired(s: Web, c: Call, json: Parsers)
    requires Paired(s) && Unwrapped(s) && s.counter + 1 < WORD
    ensures var t := Step(s, c, json); Paired(t) && Unwrapped(t) && t.counter <= s.counter + 1
  {
    hide Token, Paired, Unwrapped, Issued;
    match c {
      case LoginCall(req) =>
        IssueIsFresh(s);
        LoginExactly(s, req, json);
        LoginUnwrapped(s, req, json);
      case LogoutCall(req) =>
        LogoutEndsOne(s, req, json);
        LogoutUnwrapped(s, Logout(s, req, json));
    }
    assert Paired(Step(s, c, json)) && Unwrapped(Step(s, c, json));
  }

  lemma LoginUnwrapped(s: Web, req: Request, json: Parsers)
    requires Unwrapped(s) && s.counter + 1 < WORD
    ensures Unwrapped(Login(s, req, json))
  {
  }

  lemma LogoutUnwrapped(s: Web, t: Web)
    requires Unwrapped(s) && t.counter == s.counter && t.tokens.Keys <= s.tokens.Keys
    ensures Unwrapped(t)
  {
  }

  /** Logging in and out again leaves no trace but the counter, if the token handed out is not live. */
  lemma InAndOut(s: Web, enter: Request, leave: Request, json: Parsers)
    requires Paired(s) && Token(NextCounter(s)) !in s.tokens
    requires Welcomes(s, enter, json).Some? && TokenOf(leave, json) == Token(NextCounter(s))
    ensures Logout(Login(s, enter, json), leave, json) == s.(counter := NextCounter(s))
  {
    hide Token, TokenOf, Logout, Paired, Lookup;
    var u, tok := Welcomes(s, enter, json).value, Token(NextCounter(s));
    var t := Login(s, enter, json);
    LoginExactly(s, enter, json);
    LogoutEndsOne(t, leave, json);
    AddedAndTaken(s, tok, u);
    IsLive(t, tok, leave, json);
    assert Logout(t, leave, json) == s.(counter := NextCounter(s));
  }

  lemma AddedAndTaken(s: Web, tok: seq<byte>, u: string)
    requires tok !in s.tokens && u !in s.users
    ensures s.tokens[tok := u] - {tok} == s.tokens && s.users + {u} - {u} == s.users
  {
  }

  lemma IsLive(t: Web, tok: seq<byte>, leave: Request, json: Parsers)
    requires Paired(t) && tok in t.tokens && TokenOf(leave, json) == tok && |tok| > 0
    ensures UserOf(t, leave, json).Some?
  {
  }

  // ---------------------------------------------------------------- a run that wraps the counter around

  function Letters(b: seq<byte>): (s: string)
    ensures |s| == |b|
  {
    seq(|b|, i requires 0 <= i < |b| => b[i] as int as char)
  }

  /** A parser for which a login body is the name itself. */
  const PLAIN: Parsers := Parsers(b => Some(Letters(b)), _ => [], _ => None)

  function LoginOf(name: byte): Request {
    Request(StartLine(Ascii("POST"), Ascii("/api/login"), [], Ascii("HTTP/1.1")), map[], [name])
  }

  function LogoutOf(n: nat): Request {
    Request(StartLine(Ascii("POST"), Ascii("/api/logout"), Ascii("token=") + Token(n), Ascii("HTTP/1.1")), map[], [])
  }

  /** One user stays, with the first token; another comes and goes `k` times. */
  function Visits(k: nat): seq<Call> {
    if k == 0 then [LoginCall(LoginOf(97))]
    else Visits(k - 1) + [LoginCall(LoginOf(98))] + [LogoutCall(LogoutOf((1 + k) % WORD))]
  }

  function OneUser(counter: nat): Web {
    Web({Letters([97])}, map[Token(1) := Letters([97])], counter)
  }

  lemma TokenRead(n: nat)
    ensures TokenOf(LogoutOf(n), PLAIN) == Token(n)
  {
    hide Token, QueryValue;
    var pairs := [Pair(Ascii("token"), Token(n))];
    TokenIsClean(n);
    QueryReads(pairs, Ascii("token"));
    TokenRendered(Token(n));
    assert TokenOf(LogoutOf(n), PLAIN) == Token(n);
  }

  lemma TokenRendered(tok: seq<byte>)
    ensures RenderQuery([Pair(Ascii("token"), tok)]) == Ascii("token=") + tok
  {
    assert Ascii("token") + Ascii("=") == Ascii("token=");
  }

  lemma TokenIsClean(n: nat)
    ensures Ascii("=")[0] !in Ascii("token") && Ascii("&")[0] !in Token(n)
  {
    NoAmpersand(n, 16);
  }

  lemma {:induction false} NoAmpersand(n: nat, k: nat)
    ensures forall i :: 0 <= i < k ==> HexDigits(n, k)[i] >= 48
  {
    if k > 0 {
      NoAmpersand(n / 16, k - 1);
    }
  }

  lemma {:induction false} VisitsLeaveNoTrace(k: nat)
    requires k < WORD
    ensures Run(Visits(k), PLAIN) == OneUser((1 + k) % WORD)
  {
    hide *;
    if k == 0 {
      FirstVisit(k);
    } else {
      VisitsLeaveNoTrace(k - 1);
      NextVisit(k);
    }
    assert Run(Visits(k), PLAIN) == OneUser((1 + k) % WORD);
  }

  lemma NextVisit(k: nat)
    requires 0 < k < WORD && Run(Visits(k - 1), PLAIN) == OneUser((1 + (k - 1)) % WORD)
    ensures Run(Visits(k), PLAIN) == OneUser((1 + k) % WORD)
  {
    hide Run, Step, OneUser, LoginOf, LogoutOf, Letters;
    var calls, enter, leave := Visits(k - 1), LoginCall(LoginOf(98)), LogoutCall(LogoutOf((1 + k) % WORD));
    OneVisit(k);
    RunSnoc(calls, enter, PLAIN);
    RunSnoc(calls + [enter], leave, PLAIN);
    assert Visits(k) == calls + [enter] + [leave];
    assert Run(Visits(k), PLAIN) == OneUser((1 + k) % WORD);
  }

  lemma FirstVisit(k: nat)
    requires k == 0
    ensures Run(Visits(k), PLAIN) == OneUser((1 + k) % WORD)
  {
    hide Token;
    RunSnoc([], LoginCall(LoginOf(97)), PLAIN);
    assert [] + [LoginCall(LoginOf(97))] == Visits(0);
  }

  lemma OneVisit(counter: nat)
    requires 0 < counter < WORD
    ensures var s := Step(OneUser(counter), LoginCall(LoginOf(98)), PLAIN);
      Step(s, LogoutCall(LogoutOf((1 + counter) % WORD)), PLAIN) == OneUser((1 + counter) % WORD)
  {
    hide Token, TokenOf, Login, Logout;
    var s := OneUser(counter);
    assert (counter + 1) % WORD != 1;
    TokenInjective((counter + 1) % WORD, 1);
    TokenRead((counter + 1) % WORD);
    OneUserPaired(counter);
    assert Letters([98])[0] != Letters([97])[0];
    InAndOut(s, LoginOf(98), LogoutOf((counter + 1) % WORD), PLAIN);
  }

  lemma OneUserPaired(counter: nat)
    ensures Paired(OneUser(counter))
  {
    assert OneUser(counter).tokens[Token(1)] == Letters([97]);
  }

  lemma RunSnoc(calls: seq<Call>, c: Call, json: Parsers)
    ensures Run(calls + [c], json) == Step(Run(calls, json), c, json)
  {
    hide Step;
    assert (calls + [c])[..|calls|] == calls;
  }

  /** After 2^64 - 1 visits the counter is back at zero, and the next login takes the first user's token. */
  lemma TokenTaken()
    ensures !Paired(Run(Visits(WORD - 1) + [LoginCall(LoginOf(99))], PLAIN))
  {
    hide Token, Visits, Run;
    VisitsLeaveNoTrace(WORD - 1);
    OneUserPaired(0);
    assert Letters([99])[0] != Letters([97])[0];
    LoginExactly(OneUser(0), LoginOf(99), PLAIN);
    RunSnoc(Visits(WORD - 1), LoginCall(LoginOf(99)), PLAIN);
  }

  // ---------------------------------------------------------------- the running server

  class TokenStore {
    var counter: nat
    var tok2user: map<seq<byte>, string>

    constructor ()
      ensures counter == 0 && tok2user == map[]
    {
      counter, tok2user := 0, map[];
    }

    /** `makeToken`: the digits are pushed from the most significant one on. */
    static method MakeToken(n: nat) returns (s: seq<byte>)
      ensures s == Token(n)
    {
      s := Ascii("tok_");
      assert s + HexDigits(ShiftDigits(n, 16), 0) == s;
      var i := 16;
      while i > 0
        invariant 0 <= i <= 16 && s == Ascii("tok_") + HexDigits(ShiftDigits(n, i), 16 - i)
      {
        i := i - 1;
        s := s + [Hex(ShiftDigits(n, i) % 16)];
      }
    }

    method Issue(username: string) returns (tok: seq<byte>)
      modifies this
      ensures counter == (old(counter) + 1) % WORD && tok == Token(counter)
      ensures tok2user == old(tok2user)[tok := username]
    {
      counter := (counter + 1) % WORD;
      tok := MakeToken(counter);
      tok2user := tok2user[tok := username];
    }

    method Lookup(tok: seq<byte>) returns (username: string)
      ensures username == if tok in tok2user then tok2user[tok] else ""
    {
      username := if tok in tok2user then tok2user[tok] else "";
    }

    method Revoke(tok: seq<byte>)
      modifies this`tok2user
      ensures tok2user == old(tok2user) - {tok}
    {
      tok2user := tok2user - {tok};
    }
  }

  /** What a route answers: the status code, and for a login the token. */
  datatype Answer = Answer(status: nat, token: seq<byte>)

  const LOBBY: string := "lobby"

  class Routes {
    const room: Room
    const tokens: TokenStore
    const json: Parsers

    constructor (room: Room, tokens: TokenStore, json: Parsers)
      ensures this.room == room && this.tokens == tokens && this.json == json
    {
      this.room, this.tokens, this.json := room, tokens, json;
    }

    ghost function View(): Web
      reads room`users, tokens
    {
      Web(room.users, tokens.tok2user, tokens.counter)
    }

    /** `requireToken`: the user, or the reason that was answered. */
    method RequireToken(req: HttpRequest) returns (user: string, status: nat)
      ensures status == 0 || status == 401
      ensures status == 0 <==> UserOf(View(), Received(req), json) == Some(user)
      ensures status != 0 ==> UserOf(View(), Received(req), json) == None
    {
      var tok := req.GetQuery(Ascii("token"));
      if tok == [] && req.body != [] {
        tok := json.token(req.body);
      }
      if tok == [] {
        return "", 401;
      }
      user := tokens.Lookup(tok);
      status := if user == "" then 401 else 0;
    }

    static ghost function Received(req: HttpRequest): Request
      reads req
    {
      Request(req.start, req.headers, req.body)
    }

    method LoginRoute(req: HttpRequest) returns (answer: Answer)
      modifies room`users, tokens
      ensures View() == Login(old(View()), Received(req), json)
      ensures answer.status == 200 <==> Welcomes(old(View()), Received(req), json).Some?
      ensures answer.status == if req.start.method_ != Ascii("POST") then 405 else match json.username(req.body)
        case None => 400
        case Some(u) => if u == "" then 400 else if u in old(room.users) then 409 else 200
      ensures answer.status == 200 ==> answer.token in tokens.tok2user && Welcomes(old(View()), Received(req), json) == Some(tokens.tok2user[answer.token])
    {
      if req.start.method_ != Ascii("POST") {
        return Answer(405, []);
      }
      var j := json.username(req.body);
      if j == None {
        return Answer(400, []);
      }
      var u := j.value;
      if u == "" {
        return Answer(400, []);
      }
      if u in room.users {
        return Answer(409, []);
      }
      room.AddUser(u);
      var tok := tokens.Issue(u);
      answer := Answer(200, tok);
    }

    method LogoutRoute(req: HttpRequest) returns (answer: Answer)
      modifies room`users, tokens
      ensures View() == Logout(old(View()), Received(req), json)
      ensures answer.status == if UserOf(old(View()), Received(req), json).Some? then 200 else 401
    {
      var user, status := RequireToken(req);
      if status != 0 {
        return Answer(status, []);
      }
      var tok := req.GetQuery(Ascii("token"));
      if tok == [] {
        tok := json.token(req.body);
      }
      if tok != [] {
        tokens.Revoke(tok);
      }
      room.RemoveUser(user);
      answer := Answer(200, []);
    }

    /** POST /api/messages: what is posted is said in the lobby by the user of the token, to every listener. */
    method PostRoute(req: HttpRequest, now: int) returns (answer: Answer)
      requires room.Valid() && req.start.method_ == Ascii("POST")
      requires room.subscriber != null ==> room.subscriber.room == room && room.subscriber.Valid()
      modifies room`messages, room`log
      modifies room.Listeners()`writeBuf, room.Listeners()`writing, room.Listeners()`interest, room.Listeners()`frames
      ensures room.Valid() && (room.subscriber != null ==> room.subscriber.Valid())
      ensures answer.status == match UserOf(View(), Received(req), json)
        case None => 401
        case Some(u) => if json.content(req.body).None? || json.content(req.body) == Some("") then 400 else 200
      ensures room.log == if answer.status != 200 then old(room.log)
        else old(room.log) + [Message(UserOf(View(), Received(req), json).value, "lobby", json.content(req.body).value, now)]
    {
      hide WsHub.Sound, WsConnection.Rested, QueryValue, TokenOf, Lookup;
      var user, status := RequireToken(req);
      if room.subscriber != null {
        room.subscriber.StillReading();
      }
      if status != 0 {
        return Answer(status, []);
      }
      var j := json.content(req.body);
      if j == None || j.value == "" {
        return Answer(400, []);
      }
      Publish(Message(user, LOBBY, j.value, now));
      answer := Answer(200, []);
    }

    /** Adding a message is no event of a connection: what each has read stays as it is. */
    method Publish(m: Message)
      requires room.Valid()
      requires room.subscriber != null ==> room.subscriber.room == room && room.subscriber.Valid()
      modifies room`messages, room`log
      modifies room.Listeners()`writeBuf, room.Listeners()`writing, room.Listeners()`interest, room.Listeners()`frames
      ensures room.Valid() && (room.subscriber != null ==> room.subscriber.Valid())
      ensures room.log == old(room.log) + [m]
    {
      hide WsHub.Sound, WsConnection.Rested;
      room.AddMessage(m);
      if room.subscriber != null {
        room.subscriber.StillReading();
      }
    }
  }
}
