/** What every run of the chat server keeps, and what a departure, a login and a timeout do exactly. */
module ChatLaws {
  import opened Bytes
  import opened Packets
  import opened Wrappers
  import opened Chats

  // ---------------------------------------------------------------- departures

  /** The notices that a departing connection causes. */
  function Farewell<C>(s: Chat<C>, c: C, now: int): seq<Notice>
    requires c in s.peers
  {
    if s.peers[c].state != Authenticated then []
    else [Offline(s.peers[c].username, now), Users(s.users.Keys - {s.peers[c].username})]
  }

  function HearsIfUser(p: Peer, notices: seq<Notice>): Peer {
    if p.state == Authenticated then p.Hearing(notices) else p
  }

  /** Everybody logged in, except those `gone`, is told `notices`; nobody else notices anything. */
  ghost predicate OthersHear<C>(p: map<C, Peer>, q: map<C, Peer>, gone: set<C>, notices: seq<Notice>)
    requires q.Keys == p.Keys
  {
    forall d :: d in p && d !in gone ==> q[d] == HearsIfUser(p[d], notices)
  }

  ghost predicate Departed<C>(s: Chat<C>, t: Chat<C>, c: C, now: int)
    requires c in s.peers
  {
    && t.peers.Keys == s.peers.Keys
    && t.registered == s.registered - {c}
    && t.users == (if s.peers[c].state == Authenticated then s.users - {s.peers[c].username} else s.users)
    && t.peers[c] == s.peers[c].(state := Closed)
    && OthersHear(s.peers, t.peers, {c}, Farewell(s, c, now))
  }

  /**
   * Exactly-once departure: every other user is sent one offline notice and one list without the name, the
   * leaver and everybody else nothing.
   */
  lemma CloseDeparts<C>(s: Chat<C>, c: C, now: int)
    requires Good(s) && c in s.peers
    ensures Departed(s, Close(s, c, now), c, now)
  {
    forall d | d in s.peers
      ensures s.peers[d].Hearing([]) == s.peers[d]
    {
      assert s.peers[d].outbox + [] == s.peers[d].outbox;
    }
    if s.peers[c].state == Authenticated {
      WithoutName(s, c);
      forall d | d in s.peers
        ensures d in (s.users - {s.peers[c].username}).Values <==> s.peers[d].state == Authenticated && d != c
      {
        ValuesAreUsers(s, s.users - {s.peers[c].username}, d);
      }
    }
  }

  lemma WithoutName<C>(s: Chat<C>, c: C)
    requires Good(s) && c in s.peers && s.peers[c].state == Authenticated
    ensures Without(s, c).users == s.users - {s.peers[c].username}
  {
  }

  lemma ValuesAreUsers<C>(s: Chat<C>, users: map<string, C>, d: C)
    requires Good(s) && d in s.peers
    requires users.Keys <= s.users.Keys && forall n :: n in users ==> users[n] == s.users[n]
    ensures d in users.Values <==> s.peers[d].state == Authenticated && s.peers[d].username in users
  {
  }

  /** LOGOUT removes the user first and then closes, which removes the user again: the effect is one departure. */
  lemma LogoutIsClose<C>(s: Chat<C>, c: C, now: int)
    requires Good(s) && c in s.peers
    ensures Logout(s, c, now) == Close(s, c, now)
    ensures Departed(s, Logout(s, c, now), c, now) && Close(Logout(s, c, now), c, now) == Logout(s, c, now)
  {
    CloseDeparts(s, c, now);
    if s.peers[c].state == Authenticated {
      assert Without(Without(s, c), c).users == Without(s, c).users;
    } else if s.peers[c].state == Connecting {
      forall n | n in s.users
        ensures s.users[n] != c
      {
        assert Holds(s, s.users[n], n);
      }
      assert Without(s, c).users == s.users;
    }
  }

  lemma DepartedGood<C>(s: Chat<C>, t: Chat<C>, c: C, now: int)
    requires Good(s) && c in s.peers && Departed(s, t, c, now)
    ensures Good(t)
  {
    if s.peers[c].state == Authenticated {
      assert Maps(s, s.peers[c].username, c);
    }
    forall n | n in t.users
      ensures Holds(t, t.users[n], n)
    {
      assert Holds(s, s.users[n], n);
    }
    forall d | d in t.peers && t.peers[d].state == Authenticated
      ensures Maps(t, t.peers[d].username, d) && Latest(t.peers[d].outbox) == Some(t.users.Keys)
    {
      assert Maps(s, s.peers[d].username, d);
      assert t.users.Keys == if s.peers[c].state == Authenticated then s.users.Keys - {s.peers[c].username} else s.users.Keys;
      LatestAfter(s.peers[d].outbox, Farewell(s, c, now));
      assert s.peers[d].outbox + [] == s.peers[d].outbox;
    }
  }

  lemma CloseGood<C>(s: Chat<C>, c: C, now: int)
    requires Good(s) && c in s.peers
    ensures Good(Close(s, c, now))
  {
    CloseDeparts(s, c, now);
    DepartedGood(s, Close(s, c, now), c, now);
  }

  // ---------------------------------------------------------------- everything else

  /** Notices about chat, or the current list, do not disturb anything. */
  lemma TellGood<C>(s: Chat<C>, to: set<C>, notice: Notice)
    requires Good(s) && (notice.Users? ==> notice.names == s.users.Keys)
    ensures Good(Tell(s, to, [notice]))
  {
  }

  /** A login that is not refused. */
  predicate Accepts<C(==)>(s: Chat<C>, c: C, fields: Fields)
    requires c in s.peers
  {
    s.peers[c].state != Authenticated && fields.Fields? && fields.username != "" && fields.username !in s.users
  }

  ghost predicate Joined<C>(s: Chat<C>, t: Chat<C>, c: C, name: string, now: int)
    requires c in s.peers
  {
    var welcome := [Online(name, now), Users(s.users.Keys + {name})];
    && t.peers.Keys == s.peers.Keys && t.registered == s.registered
    && t.users == s.users[name := c]
    && t.peers[c] == s.peers[c].(state := Authenticated, username := name).Hearing([Ack(None)] + welcome)
    && forall d :: d in s.peers && d != c ==>
      t.peers[d] == if s.peers[d].state == Authenticated then s.peers[d].Hearing(welcome) else s.peers[d]
  }

  /** A login gives the name to the connection and tells it and everybody logged in, once. */
  lemma LoginJoins<C>(s: Chat<C>, c: C, fields: Fields, now: int)
    requires Good(s) && c in s.peers && Accepts(s, c, fields)
    ensures Joined(s, Login(s, c, fields, now), c, fields.username, now)
  {
    var t := Enter(s, c, fields.username);
    assert t.users.Keys == s.users.Keys + {fields.username};
    assert Maps(t, fields.username, c) && c in t.users.Values;
    assert s.peers[c].outbox + ([Ack(None)] + [Online(fields.username, now), Users(t.users.Keys)])
      == (s.peers[c].outbox + [Ack(None)]) + [Online(fields.username, now), Users(t.users.Keys)];
    forall d | d in s.peers && d != c
      ensures d in t.users.Values <==> s.peers[d].state == Authenticated
    {
      ValuesAreUsers(s, s.users, d);
      if d in t.users.Values {
        var n :| n in t.users && t.users[n] == d;
        assert n in s.users && s.users[n] == d;
      }
      if d in s.users.Values {
        var n :| n in s.users && s.users[n] == d;
        assert n in t.users && t.users[n] == d;
      }
    }
  }

  lemma JoinedGood<C>(s: Chat<C>, t: Chat<C>, c: C, name: string, now: int)
    requires Good(s) && c in s.peers && s.peers[c].state != Authenticated && name != "" && name !in s.users
    requires Joined(s, t, c, name, now)
    ensures Good(t)
  {
    forall n | n in t.users
      ensures Holds(t, t.users[n], n)
    {
      if n != name {
        assert Holds(s, s.users[n], n);
      }
    }
    forall d | d in t.peers && t.peers[d].state == Authenticated
      ensures Maps(t, t.peers[d].username, d)
    {
      if d != c {
        assert Maps(s, s.peers[d].username, d);
      }
    }
    JoinedInformed(s, t, c, name, now);
  }

  lemma JoinedInformed<C>(s: Chat<C>, t: Chat<C>, c: C, name: string, now: int)
    requires c in s.peers && Joined(s, t, c, name, now)
    ensures Informed(t)
  {
    var welcome := [Online(name, now), Users(s.users.Keys + {name})];
    assert t.users.Keys == s.users.Keys + {name};
    forall d | d in t.peers && t.peers[d].state == Authenticated
      ensures Latest(t.peers[d].outbox) == Some(t.users.Keys)
    {
      LatestAfter(s.peers[c].outbox, [Ack(None)] + welcome);
      LatestAfter(s.peers[d].outbox, welcome);
    }
  }

  /** A chat message reaches every other user once and nobody else. */
  lemma SayReachesOthers<C>(s: Chat<C>, c: C, fields: Fields, now: int)
    requires Good(s) && c in s.peers && s.peers[c].state == Authenticated && fields.Fields? && fields.content != ""
    ensures var t := Say(s, c, fields, now);
      && t.peers[c] == s.peers[c]
      && OthersHear(s.peers, t.peers, {c}, [Said(s.peers[c].username, fields.content, now)])
  {
    forall d | d in s.peers
      ensures d in s.users.Values <==> s.peers[d].state == Authenticated
    {
      ValuesAreUsers(s, s.users, d);
    }
  }

  /** A private message reaches the connection authenticated under the name it is for, and nobody else. */
  lemma ConfideReachesOne<C>(s: Chat<C>, c: C, fields: Fields, d: C)
    requires Good(s) && c in s.peers && s.peers[c].state == Authenticated && fields.Fields? && fields.to in s.users && d in s.peers
    ensures Confide(s, c, fields).peers[d]
      == if Holds(s, d, fields.to) then s.peers[d].Hearing([Whisper(s.peers[c].username, fields.content, fields.to)]) else s.peers[d]
  {
    assert Holds(s, s.users[fields.to], fields.to);
    if Holds(s, d, fields.to) {
      assert Maps(s, s.peers[d].username, d);
    }
  }

  lemma HandleGood<C>(s: Chat<C>, c: C, p: Packet, parse: seq<byte> -> Fields, now: int)
    requires Good(s) && c in s.peers
    ensures Good(Handle(s, c, p, parse, now))
  {
    var fields := parse(p.body);
    if p.kind == LOGIN && Accepts(s, c, fields) {
      LoginJoins(s, c, fields, now);
      JoinedGood(s, Login(s, c, fields, now), c, fields.username, now);
    } else if p.kind == LOGOUT {
      LogoutIsClose(s, c, now);
      CloseGood(s, c, now);
    } else if Handle(s, c, p, parse, now) != s {
      var to, notice := Addressed(s, c, p, parse, now);
      TellGood(s, to, notice);
    }
  }

  /** What any other packet amounts to: one notice to somebody. */
  lemma Addressed<C>(s: Chat<C>, c: C, p: Packet, parse: seq<byte> -> Fields, now: int) returns (to: set<C>, notice: Notice)
    requires c in s.peers && Handle(s, c, p, parse, now) != s && p.kind != LOGOUT
    requires p.kind == LOGIN ==> !Accepts(s, c, parse(p.body))
    ensures Handle(s, c, p, parse, now) == Tell(s, to, [notice]) && (notice.Users? ==> notice.names == s.users.Keys)
  {
    var fields := parse(p.body);
    to := {c};
    if p.kind == LOGIN {
      notice := Ack(Some(
        if s.peers[c].state == Authenticated then AlreadyLoggedIn else if fields.Unparsable? then BadFormat
        else if fields.username == "" then EmptyName else NameTaken));
    } else if p.kind == USER_LIST {
      notice := Users(s.users.Keys);
    } else if p.kind == PING {
      notice := Pong;
    } else if s.peers[c].state != Authenticated {
      notice := Ack(Some(NotLoggedIn));
    } else if p.kind == CHAT {
      to, notice := s.users.Values - {c}, Said(s.peers[c].username, fields.content, now);
    } else if fields.to !in s.users {
      notice := Ack(Some(NoSuchUser));
    } else {
      to, notice := {s.users[fields.to]}, Whisper(s.peers[c].username, fields.content, fields.to);
    }
  }

  /** Of all packets, only LOGOUT takes a connection from the timer's table. */
  lemma HandleRegistered<C>(s: Chat<C>, c: C, p: Packet, parse: seq<byte> -> Fields, now: int)
    requires Good(s) && c in s.peers
    ensures Handle(s, c, p, parse, now).registered == if p.kind == LOGOUT then s.registered - {c} else s.registered
  {
  }

  lemma {:induction false} CloseAllGood<C>(s: Chat<C>, order: seq<C>, clock: nat -> int)
    requires Good(s) && forall c :: c in order ==> c in s.peers
    ensures Good(CloseAll(s, order, clock))
  {
    if order != [] {
      var k := |order| - 1;
      CloseAllGood(s, order[..k], clock);
      CloseGood(CloseAll(s, order[..k], clock), order[k], clock(k));
    }
  }

  lemma StepGood<C>(s: Chat<C>, e: Event<C>, parse: seq<byte> -> Fields)
    requires Good(s)
    ensures Good(Step(s, e, parse))
  {
    match e
    case Accepted(c, now) =>
      StillHolds(s, Step(s, e, parse));
    case Received(c, p, now) =>
      if c in s.peers {
        HandleGood(s, c, p, parse, now);
      }
    case Lost(c, now) =>
      if c in s.peers {
        CloseGood(s, c, now);
      }
    case Touched(c, now) =>
      if c in s.peers {
        TouchGood(s, c, now);
      }
    case Tick(now, timeout, order, clock) =>
      if Lists(order, Idle(s, now, timeout)) {
        CloseAllGood(s, order, clock);
      }
  }

  lemma TouchGood<C>(s: Chat<C>, c: C, now: int)
    requires Good(s) && c in s.peers
    ensures Good(Touch(s, c, now))
  {
  }

  lemma StillHolds<C>(s: Chat<C>, t: Chat<C>)
    requires Bijective(s) && t.users == s.users
    requires forall c :: c in s.peers ==> c in t.peers && t.peers[c].state == s.peers[c].state && t.peers[c].username == s.peers[c].username
    requires forall c :: c in t.peers && c !in s.peers ==> t.peers[c].state != Authenticated
    ensures Bijective(t)
  {
  }

  /** The invariant of every run. */
  lemma {:induction false} RunGood<C>(events: seq<Event<C>>, parse: seq<byte> -> Fields)
    ensures Good(Run(events, parse))
  {
    if events != [] {
      RunGood(events[..|events| - 1], parse);
      StepGood(Run(events[..|events| - 1], parse), events[|events| - 1], parse);
    }
  }

  /** The invariant as one equivalence: who a name belongs to. */
  lemma NamesAreUsers<C>(events: seq<Event<C>>, parse: seq<byte> -> Fields, name: string, c: C)
    ensures var s := Run(events, parse); Maps(s, name, c) <==> Holds(s, c, name)
  {
    var s := Run(events, parse);
    RunGood(events, parse);
    if Maps(s, name, c) {
      assert Holds(s, s.users[name], name);
    }
  }

  // ---------------------------------------------------------------- timeouts

  function Farewells<C>(s: Chat<C>, order: seq<C>, clock: nat -> int): seq<Notice>
    requires forall c :: c in order ==> c in s.peers
  {
    if order == [] then []
    else
      var k := |order| - 1;
      Farewells(s, order[..k], clock) + Farewell(CloseAll(s, order[..k], clock), order[k], clock(k))
  }

  /** The names that the connections in `order` hold, in that order. */
  function Leavers<C>(s: Chat<C>, order: seq<C>): seq<string>
    requires forall c :: c in order ==> c in s.peers
  {
    if order == [] then []
    else
      var k := |order| - 1;
      Leavers(s, order[..k]) + if s.peers[order[k]].state == Authenticated then [s.peers[order[k]].username] else []
  }

  predicate Distinct<T(==)>(items: seq<T>) {
    forall i, j :: 0 <= i < j < |items| ==> items[i] != items[j]
  }

  function Elements<T(==)>(items: seq<T>): set<T> {
    set x | x in items
  }

  function Staying<C(==)>(s: Chat<C>, order: seq<C>): map<string, C> {
    map n | n in s.users && s.users[n] !in order :: s.users[n]
  }

  /** After the closes in `order`, seen from `s`. */
  ghost predicate AllDeparted<C>(s: Chat<C>, t: Chat<C>, order: seq<C>, clock: nat -> int)
    requires forall c :: c in order ==> c in s.peers
  {
    && t.peers.Keys == s.peers.Keys
    && t.registered == s.registered - Elements(order)
    && t.users == Staying(s, order)
    && OthersHear(s.peers, t.peers, Elements(order), Farewells(s, order, clock))
    && ClosedInTurn(s, t.peers, order, clock)
  }

  /** Those that close hear of the departures before their own. */
  ghost predicate ClosedInTurn<C>(s: Chat<C>, q: map<C, Peer>, order: seq<C>, clock: nat -> int)
    requires q.Keys == s.peers.Keys && forall c :: c in order ==> c in s.peers
  {
    forall i :: 0 <= i < |order| ==> q[order[i]] == HearsIfUser(s.peers[order[i]], Farewells(s, order[..i], clock)).(state := Closed)
  }

  lemma {:induction false} CloseAllDeparts<C>(s: Chat<C>, order: seq<C>, clock: nat -> int)
    requires Good(s) && Distinct(order) && forall c :: c in order ==> c in s.peers
    ensures AllDeparted(s, CloseAll(s, order, clock), order, clock)
  {
    if order == [] {
      assert forall d :: d in s.peers ==> s.peers[d].outbox + [] == s.peers[d].outbox;
      assert Staying(s, order) == s.users;
    } else {
      hide OthersHear, ClosedInTurn, Good;
      var k := |order| - 1;
      CloseAllDeparts(s, order[..k], clock);
      CloseAllGood(s, order[..k], clock);
      CloseDeparts(CloseAll(s, order[..k], clock), order[k], clock(k));
      SplitLast(order);
      NotBefore(order);
      OneMoreDeparts(s, CloseAll(s, order[..k], clock), CloseAll(s, order, clock), order[..k], order[k], clock);
      assert AllDeparted(s, CloseAll(s, order, clock), order, clock);
    }
  }

  lemma OneMoreDeparts<C>(s: Chat<C>, t: Chat<C>, u: Chat<C>, init: seq<C>, c: C, clock: nat -> int)
    requires Good(s) && Good(t) && c in s.peers && c !in init && forall d :: d in init ==> d in s.peers
    requires t == CloseAll(s, init, clock) && AllDeparted(s, t, init, clock)
    requires Departed(t, u, c, clock(|init|))
    ensures AllDeparted(s, u, init + [c], clock)
  {
    hide Good, CloseAll, OthersHear, ClosedInTurn, Elements, Staying;
    SnocParts(init, c);
    OneMoreUserLess(s, t, u, init, c);
    ElementsSnoc(init, c);
    var f, g := Farewells(s, init, clock), Farewell(t, c, clock(|init|));
    OneMoreFarewell(s.peers, t.peers, u.peers, Elements(init), c, f, g);
    OneMoreClosed(s, t.peers, u.peers, init, c, clock, g);
    assert Farewells(s, init + [c], clock) == f + g;
    hide Farewells, Farewell;
    assert u.registered == s.registered - Elements(init + [c]);
    assert AllDeparted(s, u, init + [c], clock);
  }

  lemma SnocParts<T>(init: seq<T>, x: T)
    ensures (init + [x])[..|init|] == init && (init + [x])[|init|] == x
    ensures forall i :: 0 <= i < |init| ==> (init + [x])[i] == init[i]
    ensures forall i :: 0 <= i <= |init| ==> (init + [x])[..i] == init[..i]
  {
  }

  lemma OneMoreFarewell<C>(p: map<C, Peer>, q: map<C, Peer>, r: map<C, Peer>, gone: set<C>, c: C, f: seq<Notice>, g: seq<Notice>)
    requires p.Keys == q.Keys == r.Keys
    requires OthersHear(p, q, gone, f) && OthersHear(q, r, {c}, g)
    ensures OthersHear(p, r, gone + {c}, f + g)
  {
  }

  lemma OneMoreClosed<C>(s: Chat<C>, q: map<C, Peer>, r: map<C, Peer>, init: seq<C>, c: C, clock: nat -> int, g: seq<Notice>)
    requires q.Keys == r.Keys == s.peers.Keys && c in s.peers && c !in init && forall d :: d in init ==> d in s.peers
    requires ClosedInTurn(s, q, init, clock) && OthersHear(s.peers, q, Elements(init), Farewells(s, init, clock))
    requires OthersHear(q, r, {c}, g) && r[c] == q[c].(state := Closed)
    ensures ClosedInTurn(s, r, init + [c], clock)
  {
    hide Farewells, CloseAll;
    SnocParts(init, c);
    var order := init + [c];
    forall i | 0 <= i < |order|
      ensures r[order[i]] == HearsIfUser(s.peers[order[i]], Farewells(s, order[..i], clock)).(state := Closed)
    {
      if i < |init| {
        assert order[..i] == init[..i];
      } else {
        assert order[..i] == init;
      }
    }
  }

  lemma ElementsSnoc<T>(items: seq<T>, x: T)
    ensures Elements(items + [x]) == Elements(items) + {x}
    ensures x !in Elements(items) && Distinct(items) ==> Distinct(items + [x])
  {
  }

  lemma SplitLast<T>(items: seq<T>)
    requires items != []
    ensures items == items[..|items| - 1] + [items[|items| - 1]]
  {
  }

  lemma OneMoreUserLess<C>(s: Chat<C>, t: Chat<C>, u: Chat<C>, init: seq<C>, c: C)
    requires Good(s) && Good(t) && c in s.peers && c in t.peers && t.users == Staying(s, init)
    requires t.peers[c].state == Authenticated ==> u.users == t.users - {t.peers[c].username}
    requires t.peers[c].state != Authenticated ==> u.users == t.users
    ensures u.users == Staying(s, init + [c])
  {
  }

  /**
   * What a survivor is told: for each departure, in order, that the name went offline and then who is left.
   * `F` has nothing else in it.
   */
  predicate OnePerDeparture(notices: seq<Notice>, users: set<string>, names: seq<string>) {
    && |notices| == 2 * |names|
    && forall i :: 0 <= i < |names| ==>
      && notices[2 * i].Offline? && notices[2 * i].name == names[i]
      && notices[2 * i + 1] == Users(users - Elements(names[..i + 1]))
  }

  lemma {:induction false} FarewellsAre<C>(s: Chat<C>, order: seq<C>, clock: nat -> int)
    requires Good(s) && Distinct(order) && forall c :: c in order ==> c in s.peers
    ensures OnePerDeparture(Farewells(s, order, clock), s.users.Keys, Leavers(s, order))
    ensures Elements(Leavers(s, order)) == s.users.Keys - Staying(s, order).Keys
    ensures Distinct(Leavers(s, order))
  {
    if order == [] {
      assert Staying(s, order) == s.users;
    } else {
      hide Good, CloseAll, ClosedInTurn, Staying, OnePerDeparture, Distinct;
      var k := |order| - 1;
      var init, c := order[..k], order[k];
      SplitLast(order);
      NotBefore(order);
      var t := CloseAll(s, init, clock);
      FarewellsAre(s, init, clock);
      CloseAllDeparts(s, init, clock);
      var names, f := Leavers(s, init), Farewells(s, init, clock);
      LeaverLast(s, t, init, c, names);
      assert s.peers[c].state == t.peers[c].state && s.peers[c].username == t.peers[c].username;
      if s.peers[c].state == Authenticated {
        FarewellsSnoc(f, s.users.Keys, names, s.peers[c].username, clock(k));
        StillThere(s, t, init, names);
      } else {
        assert names + [] == names && f + [] == f;
      }
      assert OnePerDeparture(Farewells(s, order, clock), s.users.Keys, Leavers(s, order));
      assert Elements(Leavers(s, order)) == s.users.Keys - Staying(s, order).Keys;
      assert Distinct(Leavers(s, order));
    }
  }

  lemma NotBefore<T>(items: seq<T>)
    requires items != [] && Distinct(items)
    ensures items[|items| - 1] !in items[..|items| - 1] && Distinct(items[..|items| - 1])
  {
  }

  lemma StillThere<C>(s: Chat<C>, t: Chat<C>, init: seq<C>, names: seq<string>)
    requires t.users == Staying(s, init) && Elements(names) == s.users.Keys - Staying(s, init).Keys
    ensures t.users.Keys == s.users.Keys - Elements(names)
  {
  }

  lemma LeaverLast<C>(s: Chat<C>, t: Chat<C>, init: seq<C>, c: C, names: seq<string>)
    requires Good(s) && c in s.peers && c !in init && t.users == Staying(s, init)
    requires Elements(names) == s.users.Keys - t.users.Keys && Distinct(names)
    ensures s.peers[c].state != Authenticated ==> Staying(s, init + [c]) == t.users
    ensures var name := s.peers[c].username; s.peers[c].state == Authenticated ==>
      && Distinct(names + [name])
      && Elements(names + [name]) == s.users.Keys - Staying(s, init + [c]).Keys
  {
    if s.peers[c].state == Authenticated {
      assert Maps(s, s.peers[c].username, c);
      assert s.peers[c].username !in Elements(names);
    }
    forall n | n in s.users
      ensures s.users[n] == c <==> s.peers[c].state == Authenticated && n == s.peers[c].username
    {
      assert Holds(s, s.users[n], n);
    }
    assert Elements(names + [s.peers[c].username]) == Elements(names) + {s.peers[c].username};
  }

  lemma FarewellsSnoc(notices: seq<Notice>, users: set<string>, names: seq<string>, name: string, time: int)
    requires OnePerDeparture(notices, users, names)
    ensures OnePerDeparture(notices + [Offline(name, time), Users(users - Elements(names) - {name})], users, names + [name])
  {
    var more := names + [name];
    assert more[..|names| + 1] == more;
    assert Elements(more) == Elements(names) + {name};
    assert forall i :: 0 <= i <= |names| ==> more[..i] == names[..i];
  }

  /**
   * `tick`: whatever the order of iteration, exactly the connections idle at the one clock reading are closed
   * and lose their names, and every surviving user hears of each departure once.
   */
  lemma TickExact<C>(s: Chat<C>, now: int, timeout: int, order: seq<C>, clock: nat -> int)
    requires Good(s) && Lists(order, Idle(s, now, timeout))
    ensures var t, idle, names := CloseAll(s, order, clock), Idle(s, now, timeout), Leavers(s, order);
      && t.registered == s.registered - idle
      && t.users == (map n | n in s.users && s.users[n] !in idle :: s.users[n])
      && Survive(s.peers, t.peers, idle, Farewells(s, order, clock))
      && OnePerDeparture(Farewells(s, order, clock), s.users.Keys, names)
      && Distinct(names) && Elements(names) == s.users.Keys - t.users.Keys
  {
    hide Good, CloseAll, ClosedInTurn, OthersHear, Farewells, Leavers, OnePerDeparture;
    var t := CloseAll(s, order, clock);
    CloseAllDeparts(s, order, clock);
    FarewellsAre(s, order, clock);
    assert Elements(order) == Idle(s, now, timeout);
    SurviveTick(s, t.peers, order, Idle(s, now, timeout), clock);
    assert t.users == map n | n in s.users && s.users[n] !in Idle(s, now, timeout) :: s.users[n];
  }

  /** The idle are closed, the others are as they were, except that users have heard `notices`. */
  ghost predicate Survive<C>(p: map<C, Peer>, q: map<C, Peer>, idle: set<C>, notices: seq<Notice>) {
    && q.Keys == p.Keys
    && forall c :: c in p ==> if c in idle then q[c].state == Closed else q[c] == HearsIfUser(p[c], notices)
  }

  lemma SurviveTick<C>(s: Chat<C>, q: map<C, Peer>, order: seq<C>, idle: set<C>, clock: nat -> int)
    requires q.Keys == s.peers.Keys && Elements(order) == idle && forall c :: c in order ==> c in s.peers
    requires ClosedInTurn(s, q, order, clock) && OthersHear(s.peers, q, idle, Farewells(s, order, clock))
    ensures Survive(s.peers, q, idle, Farewells(s, order, clock))
  {
  }

  // ---------------------------------------------------------------- a user beyond the reach of the timer

  /** Every user can be timed out. */
  ghost predicate AllRegistered<C>(s: Chat<C>) {
    forall n :: n in s.users ==> s.users[n] in s.registered
  }

  /**
   * Does every user stay within reach of the timer? Exactly if no connection logs in after it was closed,
   * which it can while the packets that came in one batch with its LOGOUT are being dispatched.
   */
  lemma ReachableExactly<C>(s: Chat<C>, e: Event<C>, parse: seq<byte> -> Fields)
    requires Good(s) && AllRegistered(s)
    ensures AllRegistered(Step(s, e, parse)) <==>
      !(e.Received? && e.c in s.peers && e.packet.kind == LOGIN && s.peers[e.c].state == Closed
        && Accepts(s, e.c, parse(e.packet.body)))
  {
    match e
    case Accepted(c, now) =>
    case Touched(c, now) =>
    case Received(c, p, now) =>
      if c in s.peers {
        HandleReachable(s, c, p, parse, now);
      }
    case Lost(c, now) =>
      if c in s.peers {
        CloseReachable(s, c, now);
      }
    case Tick(now, timeout, order, clock) =>
      if Lists(order, Idle(s, now, timeout)) {
        TickExact(s, now, timeout, order, clock);
      }
  }

  lemma CloseReachable<C>(s: Chat<C>, c: C, now: int)
    requires Good(s) && AllRegistered(s) && c in s.peers
    ensures AllRegistered(Close(s, c, now))
  {
  }

  lemma HandleReachable<C>(s: Chat<C>, c: C, p: Packet, parse: seq<byte> -> Fields, now: int)
    requires Good(s) && AllRegistered(s) && c in s.peers
    ensures AllRegistered(Handle(s, c, p, parse, now)) <==>
      !(p.kind == LOGIN && s.peers[c].state == Closed && Accepts(s, c, parse(p.body)))
  {
    var t := Handle(s, c, p, parse, now);
    if p.kind == LOGIN && Accepts(s, c, parse(p.body)) {
      var name := parse(p.body).username;
      LoginJoins(s, c, parse(p.body), now);
      assert Maps(t, name, c);
      assert c in s.registered <==> s.peers[c].state != Closed;
    } else if p.kind == LOGOUT {
      LogoutIsClose(s, c, now);
      CloseReachable(s, c, now);
    } else if t != s {
      var to, notice := Addressed(s, c, p, parse, now);
    }
  }

  /** Three packets on one connection lead to a user that the timer does not see. */
  lemma BeyondTheTimer(parse: seq<byte> -> Fields, login: seq<byte>, a: int)
    requires parse(login).Fields? && parse(login).username != ""
    ensures var enter, leave := Received(0, Packet(LOGIN, login), a), Received(0, Packet(LOGOUT, []), a);
      var s := Run([Accepted(0, a), enter, leave, enter], parse);
      Stranded(s, 0) && !AllRegistered(s)
  {
    hide Good, Login, Logout, AllRegistered, Stranded, Run;
    var enter, leave := Received(0, Packet(LOGIN, login), a), Received(0, Packet(LOGOUT, []), a);
    var s0 := Chat(map[], map[], {});
    FreshRun<int>(parse);
    var s1 := Step(s0, Accepted(0, a), parse);
    var s2 := Step(s1, enter, parse);
    var s3 := Step(s2, leave, parse);
    RunOfFour(Accepted(0, a), enter, leave, enter, parse);
    StepGood(s0, Accepted(0, a), parse);
    StepGood(s1, enter, parse);
    StepGood(s2, leave, parse);
    Relogin(s1, s2, s3, parse(login), a);
    assert Stranded(Step(s3, enter, parse), 0) && !AllRegistered(Step(s3, enter, parse));
  }

  lemma FreshRun<C>(parse: seq<byte> -> Fields)
    ensures Run<C>([], parse) == Chat(map[], map[], {}) && Good(Run<C>([], parse))
  {
  }

  /** Logged in, and out of the timer's sight. */
  predicate Stranded<C(==)>(s: Chat<C>, c: C) {
    c in s.peers && s.peers[c].state == Authenticated && c !in s.registered
  }

  /** A stranded user stays until it logs out by itself in that same batch: no tick closes it. */
  lemma StrandedForever<C>(s: Chat<C>, c: C, now: int, timeout: int, order: seq<C>, clock: nat -> int)
    requires Good(s) && Stranded(s, c) && Lists(order, Idle(s, now, timeout))
    ensures Stranded(CloseAll(s, order, clock), c)
  {
    TickExact(s, now, timeout, order, clock);
  }

  lemma RunOfFour<C>(a: Event<C>, b: Event<C>, c: Event<C>, d: Event<C>, parse: seq<byte> -> Fields)
    ensures Run([a, b, c, d], parse) == Step(Step(Step(Step(Run<C>([], parse), a, parse), b, parse), c, parse), d, parse)
  {
    hide Step, Run;
    FourParts(a, b, c, d);
    RunSnoc([], a, parse);
    RunSnoc([a], b, parse);
    RunSnoc([a, b], c, parse);
    RunSnoc([a, b, c], d, parse);
    assert Run([a, b, c, d], parse) == Step(Step(Step(Step(Run<C>([], parse), a, parse), b, parse), c, parse), d, parse);
  }

  lemma FourParts<T>(a: T, b: T, c: T, d: T)
    ensures [] + [a] == [a] && [a] + [b] == [a, b] && [a, b] + [c] == [a, b, c] && [a, b, c] + [d] == [a, b, c, d]
  {
  }

  lemma RunSnoc<C>(events: seq<Event<C>>, e: Event<C>, parse: seq<byte> -> Fields)
    ensures Run(events + [e], parse) == Step(Run(events, parse), e, parse)
  {
  }

  lemma Relogin(s1: Chat<int>, s2: Chat<int>, s3: Chat<int>, fields: Fields, a: int)
    requires Good(s1) && Good(s2) && Good(s3) && fields.Fields? && fields.username != ""
    requires 0 in s1.peers && s1.peers[0].state == Connecting && s1.users == map[]
    requires s2 == Login(s1, 0, fields, a) && 0 in s2.peers && s3 == Logout(s2, 0, a) && 0 in s3.peers
    ensures var s4 := Login(s3, 0, fields, a); Stranded(s4, 0) && !AllRegistered(s4)
  {
    hide Good, Login, Logout;
    LoginJoins(s1, 0, fields, a);
    LogoutIsClose(s2, 0, a);
    LoginJoins(s3, 0, fields, a);
    var s4 := Login(s3, 0, fields, a);
    assert fields.username in s4.users;
    assert Stranded(s4, 0) && !AllRegistered(s4);
  }
}
