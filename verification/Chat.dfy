/**
 * The chat session of the TCP server as a state machine over values: who is logged in, what everybody has
 * been told, who can be timed out. `C` stands for the connections; src/tcp/message_handler.cpp,
 * user_manager.cpp, connection.cpp and connection_manager.cpp are the transitions.
 */
module Chats {
  import opened Bytes
  import opened Packets
  import opened Wrappers

  datatype State = Connecting | Authenticated | Closed

  datatype Error = AlreadyLoggedIn | BadFormat | EmptyName | NameTaken | NotLoggedIn | NoSuchUser

  /** What the server tells a client. The order of the names in a list is not part of the model. */
  datatype Notice =
    | Ack(error: Option<Error>)
    | Said(from: string, content: string, time: int)
    | Whisper(from: string, content: string, to: string)
    | Users(names: set<string>)
    | Pong
    | Online(name: string, time: int)
    | Offline(name: string, time: int)

  /** The fields that the JSON parser finds in a body; a missing field is the empty string. */
  datatype Fields = Unparsable | Fields(username: string, content: string, to: string)

  const LOGIN: byte := 1
  const CHAT: byte := 3
  const USER_LIST: byte := 5
  const PRIVATE: byte := 6
  const PING: byte := 7
  const LOGOUT: byte := 9

  datatype Peer = Peer(state: State, username: string, outbox: seq<Notice>, lastActive: int) {
    function Hearing(notices: seq<Notice>): Peer {
      this.(outbox := outbox + notices)
    }
  }

  /** The users by name, every connection ever accepted, and the connections that the timer looks at. */
  datatype Chat<C(==)> = Chat(users: map<string, C>, peers: map<C, Peer>, registered: set<C>)

  // ---------------------------------------------------------------- transitions

  function Tell<C(==)>(s: Chat<C>, to: set<C>, notices: seq<Notice>): Chat<C> {
    s.(peers := map c | c in s.peers :: if c in to then s.peers[c].Hearing(notices) else s.peers[c])
  }

  /** A system notice to every user, followed by the list of the users. */
  function Announce<C(==)>(s: Chat<C>, news: Notice): Chat<C> {
    Tell(s, s.users.Values, [news, Users(s.users.Keys)])
  }

  function Refuse<C(==)>(s: Chat<C>, c: C, error: Error): Chat<C> {
    Tell(s, {c}, [Ack(Some(error))])
  }

  function Login<C(==)>(s: Chat<C>, c: C, fields: Fields, now: int): Chat<C>
    requires c in s.peers
  {
    if s.peers[c].state == Authenticated then Refuse(s, c, AlreadyLoggedIn)
    else if fields.Unparsable? then Refuse(s, c, BadFormat)
    else if fields.username == "" then Refuse(s, c, EmptyName)
    else if fields.username in s.users then Refuse(s, c, NameTaken)
    else Announce(Enter(s, c, fields.username), Online(fields.username, now))
  }

  function Enter<C(==)>(s: Chat<C>, c: C, name: string): Chat<C>
    requires c in s.peers
  {
    s.(users := s.users[name := c],
       peers := s.peers[c := s.peers[c].(state := Authenticated, username := name).Hearing([Ack(None)])])
  }

  function Say<C(==)>(s: Chat<C>, c: C, fields: Fields, now: int): Chat<C>
    requires c in s.peers
  {
    if s.peers[c].state != Authenticated then Refuse(s, c, NotLoggedIn)
    else if fields.Unparsable? || fields.content == "" then s
    else Tell(s, s.users.Values - {c}, [Said(s.peers[c].username, fields.content, now)])
  }

  function Confide<C(==)>(s: Chat<C>, c: C, fields: Fields): Chat<C>
    requires c in s.peers
  {
    if s.peers[c].state != Authenticated then Refuse(s, c, NotLoggedIn)
    else if fields.Unparsable? then s
    else if fields.to !in s.users then Refuse(s, c, NoSuchUser)
    else Tell(s, {s.users[fields.to]}, [Whisper(s.peers[c].username, fields.content, fields.to)])
  }

  function Without<C(==)>(s: Chat<C>, c: C): Chat<C> {
    s.(users := map n | n in s.users && s.users[n] != c :: s.users[n])
  }

  /** The close callback of the message handler. */
  function Depart<C(==)>(s: Chat<C>, c: C, now: int): Chat<C>
    requires c in s.peers
  {
    if s.peers[c].state != Authenticated then s
    else Announce(Without(s, c), Offline(s.peers[c].username, now))
  }

  /** `Connection::close`: the callbacks run first, the state changes last. */
  function Close<C(==)>(s: Chat<C>, c: C, now: int): (t: Chat<C>)
    requires c in s.peers
    ensures t.peers.Keys == s.peers.Keys
  {
    if s.peers[c].state == Closed then s
    else
      var t := Depart(s, c, now);
      t.(registered := t.registered - {c}, peers := t.peers[c := t.peers[c].(state := Closed)])
  }

  /** `handleLogOut`: the user is removed before the close that removes the user. */
  function Logout<C(==)>(s: Chat<C>, c: C, now: int): Chat<C>
    requires c in s.peers
  {
    if s.peers[c].state == Closed then s else Close(Without(s, c), c, now)
  }

  /** `onPacket` */
  function Handle<C(==)>(s: Chat<C>, c: C, p: Packet, parse: seq<byte> -> Fields, now: int): (t: Chat<C>)
    requires c in s.peers
    ensures t.peers.Keys == s.peers.Keys
  {
    if p.kind == LOGIN then Login(s, c, parse(p.body), now)
    else if p.kind == CHAT then Say(s, c, parse(p.body), now)
    else if p.kind == PRIVATE then Confide(s, c, parse(p.body))
    else if p.kind == USER_LIST then Tell(s, {c}, [Users(s.users.Keys)])
    else if p.kind == PING then Tell(s, {c}, [Pong])
    else if p.kind == LOGOUT then Logout(s, c, now)
    else s
  }

  /** The connections that the timer finds idle: a single clock reading for all of them. */
  function Idle<C(==)>(s: Chat<C>, now: int, timeout: int): set<C> {
    set c | c in s.registered && c in s.peers && now - s.peers[c].lastActive > timeout
  }

  /** Closing one connection after the other; the clock is read again for each. */
  function CloseAll<C(==)>(s: Chat<C>, order: seq<C>, clock: nat -> int): (t: Chat<C>)
    requires forall c :: c in order ==> c in s.peers
    ensures t.peers.Keys == s.peers.Keys
  {
    if order == [] then s
    else
      var k := |order| - 1;
      Close(CloseAll(s, order[..k], clock), order[k], clock(k))
  }

  /** `touch` */
  function Touch<C(==)>(s: Chat<C>, c: C, now: int): (t: Chat<C>)
    requires c in s.peers
    ensures t.peers.Keys == s.peers.Keys
  {
    s.(peers := s.peers[c := s.peers[c].(lastActive := now)])
  }

  datatype Event<C(==)> =
    | Accepted(c: C, now: int)
    | Received(c: C, packet: Packet, now: int)
    | Lost(c: C, now: int)
    | Touched(c: C, now: int)
    | Tick(now: int, timeout: int, order: seq<C>, clock: nat -> int)

  predicate Lists<C(==)>(order: seq<C>, cs: set<C>) {
    && (forall c :: c in order ==> c in cs)
    && (forall c :: c in cs ==> c in order)
    && (forall i, j :: 0 <= i < j < |order| ==> order[i] != order[j])
  }

  /** One event, if it can happen: any packet in any order on any connection, even a closed one. */
  function Step<C(==)>(s: Chat<C>, e: Event<C>, parse: seq<byte> -> Fields): Chat<C> {
    match e
    case Accepted(c, now) =>
      if c in s.peers then s else s.(peers := s.peers[c := Peer(Connecting, "", [], now)], registered := s.registered + {c})
    case Received(c, p, now) => if c in s.peers then Handle(s, c, p, parse, now) else s
    case Lost(c, now) => if c in s.peers then Close(s, c, now) else s
    case Touched(c, now) => if c in s.peers then Touch(s, c, now) else s
    case Tick(now, timeout, order, clock) => if Lists(order, Idle(s, now, timeout)) then CloseAll(s, order, clock) else s
  }

  function Run<C(==)>(events: seq<Event<C>>, parse: seq<byte> -> Fields): Chat<C> {
    if events == [] then Chat(map[], map[], {})
    else Step(Run(events[..|events| - 1], parse), events[|events| - 1], parse)
  }

  // ---------------------------------------------------------------- the invariant

  predicate Holds<C(==)>(s: Chat<C>, c: C, name: string) {
    c in s.peers && s.peers[c].state == Authenticated && s.peers[c].username == name
  }

  predicate Maps<C(==)>(s: Chat<C>, name: string, c: C) {
    name in s.users && s.users[name] == c
  }

  /** `users` maps a name to a connection exactly if the connection is authenticated under that name. */
  ghost predicate Bijective<C>(s: Chat<C>) {
    && "" !in s.users
    && (forall n :: n in s.users ==> Holds(s, s.users[n], n))
    && (forall c :: c in s.peers && s.peers[c].state == Authenticated ==> Maps(s, s.peers[c].username, c))
  }

  /** The last user list that a client was sent. */
  function Latest(notices: seq<Notice>): Option<set<string>> {
    if notices == [] then None
    else if notices[|notices| - 1].Users? then Some(notices[|notices| - 1].names)
    else Latest(notices[..|notices| - 1])
  }

  /** Everybody who is logged in knows exactly who is logged in. */
  ghost predicate Informed<C>(s: Chat<C>) {
    forall c :: c in s.peers && s.peers[c].state == Authenticated ==> Latest(s.peers[c].outbox) == Some(s.users.Keys)
  }

  ghost predicate Enrolled<C>(s: Chat<C>) {
    && (forall c :: c in s.registered ==> c in s.peers && s.peers[c].state != Closed)
    && (forall c :: c in s.peers && s.peers[c].state == Connecting ==> c in s.registered)
  }

  ghost predicate Good<C>(s: Chat<C>) {
    Bijective(s) && Informed(s) && Enrolled(s)
  }

  lemma LatestAfter(notices: seq<Notice>, more: seq<Notice>)
    ensures |more| == 1 && !more[0].Users? ==> Latest(notices + more) == Latest(notices)
    ensures |more| > 0 && more[|more| - 1].Users? ==> Latest(notices + more) == Some(more[|more| - 1].names)
  {
  }
}
