/** What the kernel may answer: the only thing known about sockets. */
module Kernel {
  /** How a read batch ends: in EAGAIN, or in end of file or an error. */
  datatype Ending = Again | HungUp

  /** One result of `send`: bytes taken, EAGAIN, or anything else. */
  datatype SendResult = Accepted(n: nat) | WouldBlock | Failed

  /** How a send loop ends. */
  datatype Flushed = AllSent | Blocked | Broken

  /** What a send loop has done: how many bytes are taken, and how it ended. */
  datatype Sending = Sending(taken: nat, outcome: Flushed)

  predicate Fails(r: SendResult) {
    r == Failed || r == Accepted(0)
  }

  /** The send loop over `pending` bytes, against the answers of the kernel; with none left it would block. */
  function SendLoop(pending: nat, results: seq<SendResult>): (s: Sending)
    ensures s.taken <= pending
    ensures s.outcome == AllSent <==> s.taken == pending
    decreases |results|
  {
    if pending == 0 then Sending(0, AllSent)
    else if results == [] || results[0] == WouldBlock then Sending(0, Blocked)
    else if Fails(results[0]) then Sending(0, Broken)
    else
      var n := if results[0].n <= pending then results[0].n else pending;
      var s := SendLoop(pending - n, results[1..]);
      s.(taken := n + s.taken)
  }

  /** After `i` answers the loop has sent `k` of `total` bytes and goes on with the rest. */
  predicate SentSoFar(total: nat, results: seq<SendResult>, k: nat, i: nat) {
    && k <= total && i <= |results|
    && var s := SendLoop(total - k, results[i..]);
      SendLoop(total, results) == s.(taken := k + s.taken)
  }

  lemma NothingSent(total: nat, results: seq<SendResult>)
    ensures SentSoFar(total, results, 0, 0)
  {
    assert results[0..] == results;
  }

  /** One turn of the loop, at the answer `results[i]`. */
  lemma SendTurn(total: nat, results: seq<SendResult>, k: nat, i: nat)
    requires SentSoFar(total, results, k, i) && k < total
    ensures
      if i == |results| || results[i] == WouldBlock then SendLoop(total, results) == Sending(k, Blocked)
      else if Fails(results[i]) then SendLoop(total, results) == Sending(k, Broken)
      else SentSoFar(total, results, k + (if results[i].n <= total - k then results[i].n else total - k), i + 1)
  {
    if i < |results| {
      assert results[i..][1..] == results[i + 1..];
    }
  }

  /** The kernel takes something every time. */
  predicate TakesEveryTime(results: seq<SendResult>) {
    forall i :: 0 <= i < |results| ==> results[i].Accepted? && results[i].n > 0
  }

  /** A kernel that goes on taking bytes for long enough takes all of them. */
  lemma {:induction false} EverythingSent(pending: nat, results: seq<SendResult>)
    requires TakesEveryTime(results) && |results| >= pending
    ensures SendLoop(pending, results) == Sending(pending, AllSent)
    decreases |results|
  {
    if pending > 0 {
      var n := if results[0].n <= pending then results[0].n else pending;
      EverythingSent(pending - n, results[1..]);
    }
  }

  /** How many bytes the first `k` answers offer to take. */
  function Offered(results: seq<SendResult>, k: nat): nat
    requires k <= |results|
  {
    if k == 0 then 0 else Offered(results, k - 1) + match results[k - 1] case Accepted(n) => n case _ => 0
  }

  /**
   * What the loop does: it goes on while the kernel takes something and something is left; then what is left
   * is taken, or the kernel would block, or the send has failed.
   */
  lemma {:induction false} SendLoopExactly(pending: nat, results: seq<SendResult>, k: nat)
    requires k <= |results| && Offered(results, k) < pending
    requires forall i :: 0 <= i < k ==> results[i].Accepted? && results[i].n > 0
    ensures k == |results| || results[k] == WouldBlock ==> SendLoop(pending, results) == Sending(Offered(results, k), Blocked)
    ensures k < |results| && (results[k] == Failed || results[k] == Accepted(0)) ==>
      SendLoop(pending, results) == Sending(Offered(results, k), Broken)
    ensures k < |results| && results[k].Accepted? && results[k].n >= pending - Offered(results, k) ==>
      SendLoop(pending, results) == Sending(pending, AllSent)
    decreases |results|
  {
    if k > 0 {
      FirstOffered(results, k);
      SendLoopExactly(pending - results[0].n, results[1..], k - 1);
    }
  }

  lemma {:induction false} FirstOffered(results: seq<SendResult>, k: nat)
    requires 0 < k <= |results| && results[0].Accepted?
    ensures Offered(results, k) == results[0].n + Offered(results[1..], k - 1)
  {
    if k > 1 {
      FirstOffered(results, k - 1);
    }
  }

  /** How much one `recv` delivers: something, but no more than there is room for and than there is. */
  function AtMost(n: nat, room: nat, left: nat): (m: nat)
    requires room > 0 && left > 0
    ensures 0 < m <= room && m <= left
  {
    var most := if room < left then room else left;
    if n == 0 then 1 else if n < most then n else most
  }
}
