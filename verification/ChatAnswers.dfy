/** What every packet and every tick comes to, said without the functions that compute it: the other half of ChatLaws. */
module ChatAnswers {
  import opened Bytes
  import opened ChatLaws
  import opened Chats
  import opened Packets
  import opened Wrappers

  /** Nothing has happened, but that `c` has been told `notices`. */
  ghost predicate OnlyTold<C>(s: Chat<C>, t: Chat<C>, c: C, notices: seq<Notice>) {
    && c in s.peers && t.users == s.users && t.registered == s.registered
    && t.peers == s.peers[c := s.peers[c].(outbox := s.peers[c].outbox + notices)]
  }

  lemma TellOne<C>(s: Chat<C>, c: C, notices: seq<Notice>)
    requires c in s.peers
    ensures OnlyTold(s, Tell(s, {c}, notices), c, notices)
  {
    assert Tell(s, {c}, notices).peers == s.peers[c := s.peers[c].(outbox := s.peers[c].outbox + notices)];
  }

  /** Whoever is not logged in cannot say anything, aloud (3) or in private (6). */
  lemma StrangersRefused<C>(s: Chat<C>, c: C, p: Packet, parse: seq<byte> -> Fields, now: int)
    requires c in s.peers && s.peers[c].state != Authenticated && (p.kind == 3 || p.kind == 6)
    ensures OnlyTold(s, Handle(s, c, p, parse, now), c, [Ack(Some(NotLoggedIn))])
  {
    TellOne(s, c, [Ack(Some(NotLoggedIn))]);
  }

  /** A login (1) is refused for one of four reasons, of which the first counts, and changes nothing then. */
  lemma LoginRefused<C>(s: Chat<C>, c: C, p: Packet, parse: seq<byte> -> Fields, now: int, error: Error)
    requires c in s.peers && p.kind == 1
    requires var f := parse(p.body);
      || (s.peers[c].state == Authenticated && error == AlreadyLoggedIn)
      || (s.peers[c].state != Authenticated && f.Unparsable? && error == BadFormat)
      || (s.peers[c].state != Authenticated && f.Fields? && f.username == "" && error == EmptyName)
      || (s.peers[c].state != Authenticated && f.Fields? && f.username != "" && f.username in s.users && error == NameTaken)
    ensures OnlyTold(s, Handle(s, c, p, parse, now), c, [Ack(Some(error))])
  {
    TellOne(s, c, [Ack(Some(error))]);
  }

  /** Otherwise it takes the name: the connection is acknowledged, and it and every user are told who is there. */
  lemma LoginAccepted<C>(s: Chat<C>, c: C, p: Packet, parse: seq<byte> -> Fields, now: int)
    requires Good(s) && c in s.peers && p.kind == 1 && s.peers[c].state != Authenticated
    requires parse(p.body).Fields? && parse(p.body).username != "" && parse(p.body).username !in s.users
    ensures Joined(s, Handle(s, c, p, parse, now), c, parse(p.body).username, now)
  {
    LoginJoins(s, c, parse(p.body), now);
  }

  /** A chat message (3) of a user, with content, reaches every other user, under the name of its sender. */
  lemma ChatHeard<C>(s: Chat<C>, c: C, p: Packet, parse: seq<byte> -> Fields, now: int)
    requires Good(s) && c in s.peers && p.kind == 3 && s.peers[c].state == Authenticated
    requires parse(p.body).Fields? && parse(p.body).content != ""
    ensures var t := Handle(s, c, p, parse, now);
      && t.users == s.users && t.registered == s.registered && t.peers.Keys == s.peers.Keys
      && forall d :: d in s.peers ==>
        t.peers[d] == if d != c && s.peers[d].state == Authenticated
          then s.peers[d].(outbox := s.peers[d].outbox + [Said(s.peers[c].username, parse(p.body).content, now)])
          else s.peers[d]
  {
    SayReachesOthers(s, c, parse(p.body), now);
  }

  /** A private message (6) to a user reaches that user alone, under the name of its sender. */
  lemma WhisperHeard<C>(s: Chat<C>, c: C, p: Packet, parse: seq<byte> -> Fields, now: int)
    requires c in s.peers && p.kind == 6 && s.peers[c].state == Authenticated && s.users.Values <= s.peers.Keys
    requires parse(p.body).Fields? && parse(p.body).to in s.users
    ensures var f := parse(p.body);
      OnlyTold(s, Handle(s, c, p, parse, now), s.users[f.to], [Whisper(s.peers[c].username, f.content, f.to)])
  {
    var f := parse(p.body);
    TellOne(s, s.users[f.to], [Whisper(s.peers[c].username, f.content, f.to)]);
  }

  /** A private message to nobody is refused. */
  lemma NobodyOfThatName<C>(s: Chat<C>, c: C, p: Packet, parse: seq<byte> -> Fields, now: int)
    requires c in s.peers && p.kind == 6 && s.peers[c].state == Authenticated
    requires parse(p.body).Fields? && parse(p.body).to !in s.users
    ensures OnlyTold(s, Handle(s, c, p, parse, now), c, [Ack(Some(NoSuchUser))])
  {
    TellOne(s, c, [Ack(Some(NoSuchUser))]);
  }

  /** Whoever asks for the users (5) or pings (7) is answered, logged in or not. */
  lemma Answered<C>(s: Chat<C>, c: C, p: Packet, parse: seq<byte> -> Fields, now: int)
    requires c in s.peers
    ensures p.kind == 5 ==> OnlyTold(s, Handle(s, c, p, parse, now), c, [Users(s.users.Keys)])
    ensures p.kind == 7 ==> OnlyTold(s, Handle(s, c, p, parse, now), c, [Pong])
  {
    TellOne(s, c, [Users(s.users.Keys)]);
    TellOne(s, c, [Pong]);
  }

  /** A logout (9) is a departure, if the connection is not closed already. */
  lemma LogoutDeparts<C>(s: Chat<C>, c: C, p: Packet, parse: seq<byte> -> Fields, now: int)
    requires Good(s) && c in s.peers && p.kind == 9
    ensures s.peers[c].state == Closed ==> Handle(s, c, p, parse, now) == s
    ensures s.peers[c].state != Closed ==> Departed(s, Handle(s, c, p, parse, now), c, now)
  {
    LogoutIsClose(s, c, now);
    CloseDeparts(s, c, now);
  }

  /** What cannot be parsed, has no content, or is of no known kind changes nothing. */
  lemma Ignored<C>(s: Chat<C>, c: C, p: Packet, parse: seq<byte> -> Fields, now: int)
    requires c in s.peers
    requires || (p.kind == 3 && s.peers[c].state == Authenticated && (parse(p.body).Unparsable? || parse(p.body).content == ""))
             || (p.kind == 6 && s.peers[c].state == Authenticated && parse(p.body).Unparsable?)
             || p.kind !in {1, 3, 5, 6, 7, 9}
    ensures Handle(s, c, p, parse, now) == s
  {
  }

  // ---------------------------------------------------------------- the timer

  /** A tick closes exactly the registered connections that have been silent for longer than the timeout. */
  lemma TimedOutExactly<C>(s: Chat<C>, now: int, timeout: int, order: seq<C>, clock: nat -> int, parse: seq<byte> -> Fields)
    requires Good(s) && Distinct(order)
    requires forall c :: c in order <==> c in s.registered && c in s.peers && now - s.peers[c].lastActive > timeout
    ensures var t := Step(s, Event.Tick(now, timeout, order, clock), parse);
      && t.peers.Keys == s.peers.Keys
      && forall c :: c in s.peers ==>
        (t.peers[c].state == Closed <==>
          s.peers[c].state == Closed || (c in s.registered && now - s.peers[c].lastActive > timeout))
  {
    hide Good, CloseAll, OnePerDeparture, Farewells, Leavers;
    assert Lists(order, Idle(s, now, timeout));
    TickExact(s, now, timeout, order, clock);
    var t := CloseAll(s, order, clock);
    forall c | c in s.peers
      ensures t.peers[c].state == Closed <==> s.peers[c].state == Closed || (c in s.registered && now - s.peers[c].lastActive > timeout)
    {
      assert c in Idle(s, now, timeout) <==> c in order;
    }
  }

  /** The silence of a connection is counted from its acceptance, or from when it last received or sent bytes. */
  lemma SilentSince<C>(s: Chat<C>, c: C, now: int, later: int, timeout: int, parse: seq<byte> -> Fields)
    ensures c !in s.peers ==> (c in Idle(Step(s, Event.Accepted(c, now), parse), later, timeout) <==> later - now > timeout)
    ensures c in s.peers && c in s.registered ==>
      (c in Idle(Step(s, Event.Touched(c, now), parse), later, timeout) <==> later - now > timeout)
  {
  }
}
