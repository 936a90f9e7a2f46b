/**
 * The sending side of an HTTP connection as a state machine: `send` and `onWrite` of
 * src/server/http_connection.cpp, with the flag that `send` consults and nothing resets.
 */
module HttpSenders {
  import opened Bytes
  import opened Kernel

  /** `interest` is what the reactor has been told: whether to report writability. */
  datatype Out = Out(pending: seq<byte>, writing: bool, closing: bool, interest: bool, open: bool)

  datatype Event = Responded(text: seq<byte>, keepAlive: bool) | Writable(results: seq<SendResult>) | HungUp

  const START: Out := Out([], false, false, false, true)

  function Respond(o: Out, text: seq<byte>, keepAlive: bool): Out {
    Out(o.pending + text, true, o.closing || !keepAlive, o.interest || (!o.writing && o.open), o.open)
  }

  function Close(o: Out): Out {
    o.(open := false, interest := false)
  }

  function Write(o: Out, results: seq<SendResult>): Out {
    var s := SendLoop(|o.pending|, results);
    var rest := o.(pending := o.pending[s.taken..]);
    if s.outcome == Blocked then rest
    else if s.outcome == Broken || o.closing then Close(rest)
    else rest.(interest := false)
  }

  /** A kernel that keeps taking bytes takes all of them, and then a close that is due happens. */
  lemma TakenWhole(o: Out, results: seq<SendResult>)
    requires o.open && TakesEveryTime(results) && |results| >= |o.pending|
    ensures Write(o, results).pending == [] && Write(o, results).open == !o.closing
  {
    EverythingSent(|o.pending|, results);
  }

  /** The reactor reports writability only to those who asked for it. */
  function Step(o: Out, e: Event): Out {
    match e
    case Responded(text, keepAlive) => Respond(o, text, keepAlive)
    case Writable(results) => if o.open && o.interest then Write(o, results) else o
    case HungUp => Close(o)
  }

  function Run(events: seq<Event>): Out {
    if events == [] then START else Step(Run(events[..|events| - 1]), events[|events| - 1])
  }

  predicate NonEmpty(events: seq<Event>) {
    forall i :: 0 <= i < |events| ==> events[i].Responded? ==> events[i].text != []
  }

  /** Bytes are pending and nobody waits for writability. */
  predicate Stalled(o: Out) {
    o.open && o.pending != [] && !o.interest
  }

  /** In no state of the run a wakeup is lost. */
  predicate NeverStalls(events: seq<Event>) {
    !Stalled(Run(events)) && (events == [] || NeverStalls(events[..|events| - 1]))
  }

  /** A write event that sends everything and leaves the connection open. */
  predicate FlushesOpen(o: Out, e: Event) {
    e.Writable? && o.open && o.interest && !o.closing && SendLoop(|o.pending|, e.results).outcome == AllSent
  }

  predicate FlushedOpen(events: seq<Event>) {
    events != [] && (FlushedOpen(events[..|events| - 1]) || FlushesOpen(Run(events[..|events| - 1]), events[|events| - 1]))
  }

  /** An open connection was given a response after everything before had been flushed. */
  predicate RespondedLate(events: seq<Event>) {
    && events != []
    && var init := events[..|events| - 1];
      RespondedLate(init) || (events[|events| - 1].Responded? && Run(init).open && FlushedOpen(init))
  }

  lemma {:induction false} FlushedOrInterested(events: seq<Event>)
    requires NonEmpty(events)
    ensures var o := Run(events);
      && (o.interest ==> o.writing) && (!o.writing ==> o.pending == [])
      && (o.open ==>
        && (FlushedOpen(events) <==> o.writing && !o.interest)
        && (Stalled(o) ==> RespondedLate(events)))
  {
    if events != [] {
      var init, e := events[..|events| - 1], events[|events| - 1];
      FlushedOrInterested(init);
    }
  }

  /** No wakeup is lost exactly if no response is given to a connection after it was flushed and left open. */
  lemma {:induction false} NeverStallsExactly(events: seq<Event>)
    requires NonEmpty(events)
    ensures NeverStalls(events) <==> !RespondedLate(events)
  {
    if events != [] {
      NeverStallsExactly(events[..|events| - 1]);
      FlushedOrInterested(events[..|events| - 1]);
      FlushedOrInterested(events);
    }
  }

  /** Two keep-alive responses, the second after the first was sent: the second is never sent. */
  lemma SecondStalls(first: seq<byte>, second: seq<byte>)
    requires first != [] && second != []
    ensures Stalled(Run([Responded(first, true), Writable([Accepted(|first|)]), Responded(second, true)]))
  {
    var a, b, c := Responded(first, true), Writable([Accepted(|first|)]), Responded(second, true);
    assert [a, b, c][..2] == [a, b] && [a, b][..1] == [a] && [a][..0] == [];
    assert Run([a]) == Out([] + first, true, false, true, true);
    assert [] + first == first;
    assert SendLoop(|first|, [Accepted(|first|)]) == Sending(|first|, AllSent);
    assert Run([a, b]) == Out([], true, false, false, true);
  }

  predicate AllClose(events: seq<Event>) {
    forall i :: 0 <= i < |events| ==> events[i].Responded? ==> !events[i].keepAlive
  }

  /**
   * The server as wired: it sends no keep-alive responses. Then no wakeup is lost, every response makes a close
   * due, and the write event that sends everything closes.
   */
  lemma {:induction false} AsWired(events: seq<Event>)
    requires NonEmpty(events) && AllClose(events)
    ensures NeverStalls(events)
    ensures var o := Run(events); o.open && o.writing ==> o.interest && o.closing
  {
    NeverFlushedOpen(events);
    NeverStallsExactly(events);
    FlushedOrInterested(events);
  }

  lemma {:induction false} NeverFlushedOpen(events: seq<Event>)
    requires NonEmpty(events) && AllClose(events)
    ensures !FlushedOpen(events) && !RespondedLate(events) && (Run(events).writing ==> Run(events).closing)
  {
    if events != [] {
      NeverFlushedOpen(events[..|events| - 1]);
      FlushedOrInterested(events[..|events| - 1]);
    }
  }

  lemma RunSnoc(events: seq<Event>, e: Event)
    ensures Run(events + [e]) == Step(Run(events), e)
  {
    assert (events + [e])[..|events|] == events;
  }
}
