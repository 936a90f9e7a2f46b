/**
 * The decode loops of the server, over any decoder: bytes arrive in batches, every complete item is taken
 * off the front, the rest waits. The theorems say that the cutting into batches leaves no trace.
 */
module Streams {
  import opened Bytes

  datatype Verdict<+T> = More | Bad | One(size: nat, item: T)

  type Decoder<!T> = seq<byte> -> Verdict<T>

  /** A verdict other than "need more" is final, and an item takes at least one byte. */
  ghost predicate Stable<T(!new)>(decoder: Decoder<T>) {
    Final(decoder) && Sized(decoder)
  }

  ghost predicate Final<T(!new)>(decoder: Decoder<T>) {
    forall data, more :: KeepsVerdict(decoder, data, more)
  }

  ghost predicate KeepsVerdict<T>(decoder: Decoder<T>, data: seq<byte>, more: seq<byte>) {
    !decoder(data).More? ==> decoder(data + more) == decoder(data)
  }

  ghost predicate Sized<T(!new)>(decoder: Decoder<T>) {
    forall data :: decoder(data).One? ==> 0 < decoder(data).size <= |data|
  }

  /** The items taken in order, the bytes left over, and whether the connection is still open. */
  datatype Drained<T> = Drained(items: seq<T>, rest: seq<byte>, open: bool)

  function After<T>(item: T, d: Drained<T>): Drained<T> {
    d.(items := [item] + d.items)
  }

  function Preceded<T>(items: seq<T>, d: Drained<T>): Drained<T> {
    d.(items := items + d.items)
  }

  lemma PrecededAfter<T>(items: seq<T>, item: T, d: Drained<T>)
    ensures Preceded(items, After(item, d)) == Preceded(items + [item], d)
    ensures Preceded(items, Drained([], d.rest, d.open)) == Drained(items, d.rest, d.open)
  {
  }

  /** The decode loop. An item with `stops` closes the connection, as broken bytes do. */
  ghost function Drain<T(!new)>(decoder: Decoder<T>, stops: T -> bool, data: seq<byte>): (d: Drained<T>)
    requires Stable(decoder)
    decreases |data|
  {
    match decoder(data)
    case More => Drained([], data, true)
    case Bad => Drained([], data, false)
    case One(n, item) =>
      if stops(item) then Drained([item], data[n..], false)
      else After(item, Drain(decoder, stops, data[n..]))
  }

  /** Draining in two steps: what the first step leaves, the second starts from, unless it closed. */
  ghost function Resume<T(!new)>(decoder: Decoder<T>, stops: T -> bool, d: Drained<T>, more: seq<byte>): Drained<T>
    requires Stable(decoder)
  {
    if d.open then
      var e := Drain(decoder, stops, d.rest + more);
      Drained(d.items + e.items, e.rest, e.open)
    else d.(rest := d.rest + more)
  }

  lemma DrainOne<T(!new)>(decoder: Decoder<T>, stops: T -> bool, data: seq<byte>)
    requires Stable(decoder) && decoder(data).One?
    ensures var One(n, item) := decoder(data);
      Drain(decoder, stops, data)
      == if stops(item) then Drained([item], data[n..], false) else After(item, Drain(decoder, stops, data[n..]))
  {
  }

  lemma ResumeAfter<T(!new)>(decoder: Decoder<T>, stops: T -> bool, item: T, d: Drained<T>, more: seq<byte>)
    requires Stable(decoder)
    ensures Resume(decoder, stops, After(item, d), more) == After(item, Resume(decoder, stops, d, more))
  {
    hide Drain;
    if d.open {
      var e := Drain(decoder, stops, d.rest + more);
      assert [item] + (d.items + e.items) == ([item] + d.items) + e.items;
    }
  }

  lemma {:induction false} DrainAppend<T(!new)>(decoder: Decoder<T>, stops: T -> bool, data: seq<byte>, more: seq<byte>)
    requires Stable(decoder)
    ensures Drain(decoder, stops, data + more) == Resume(decoder, stops, Drain(decoder, stops, data), more)
    decreases |data|
  {
    assert KeepsVerdict(decoder, data, more);
    match decoder(data) {
      case More =>
        var e := Drain(decoder, stops, data + more);
        assert [] + e.items == e.items;
      case Bad =>
      case One(n, item) =>
        assert (data + more)[n..] == data[n..] + more by { hide *; }
        DrainOne(decoder, stops, data);
        DrainOne(decoder, stops, data + more);
        if !stops(item) {
          DrainAppend(decoder, stops, data[n..], more);
          ResumeAfter(decoder, stops, item, Drain(decoder, stops, data[n..]), more);
        }
    }
  }

  /** A session reading batch after batch; once closed it is out of the reactor and reads nothing. */
  ghost function Feed<T(!new)>(decoder: Decoder<T>, stops: T -> bool, s: Drained<T>, batch: seq<byte>): Drained<T>
    requires Stable(decoder)
  {
    if s.open then Resume(decoder, stops, s, batch) else s
  }

  ghost function FeedAll<T(!new)>(decoder: Decoder<T>, stops: T -> bool, batches: seq<seq<byte>>): Drained<T>
    requires Stable(decoder)
    decreases |batches|
  {
    if batches == [] then Drained([], [], true)
    else Feed(decoder, stops, FeedAll(decoder, stops, batches[..|batches| - 1]), batches[|batches| - 1])
  }

  /** The bytes of the batches that came after the closing one. */
  ghost function Unread<T(!new)>(decoder: Decoder<T>, stops: T -> bool, batches: seq<seq<byte>>): seq<byte>
    requires Stable(decoder)
    decreases |batches|
  {
    if batches == [] then []
    else
      var init := batches[..|batches| - 1];
      if FeedAll(decoder, stops, init).open then []
      else Unread(decoder, stops, init) + batches[|batches| - 1]
  }

  /**
   * Segmentation: for every cut of a stream into batches the items and the verdict are those of one read of
   * the whole stream, and so are the bytes left over, up to those that arrived after the close.
   */
  lemma {:induction false} SegmentationIrrelevant<T(!new)>(decoder: Decoder<T>, stops: T -> bool, batches: seq<seq<byte>>)
    requires Stable(decoder) && decoder([]).More?
    ensures SameAsWhole(FeedAll(decoder, stops, batches), Unread(decoder, stops, batches), Drain(decoder, stops, Concat(batches)))
    decreases |batches|
  {
    if batches != [] {
      var init, last := batches[..|batches| - 1], batches[|batches| - 1];
      SegmentationIrrelevant(decoder, stops, init);
      assert batches == init + [last];
      ConcatSnoc(init, last);
      DrainAppend(decoder, stops, Concat(init), last);
      OneMoreBatch(decoder, stops, FeedAll(decoder, stops, init), Unread(decoder, stops, init), Drain(decoder, stops, Concat(init)), last);
    }
  }

  /** A session against one read of everything: `u` is what came after the session closed. */
  predicate SameAsWhole<T(==)>(s: Drained<T>, u: seq<byte>, whole: Drained<T>) {
    whole == Drained(s.items, s.rest + u, s.open) && (s.open ==> s == whole)
  }

  lemma OneMoreBatch<T(!new)>(decoder: Decoder<T>, stops: T -> bool, s: Drained<T>, u: seq<byte>, whole: Drained<T>, last: seq<byte>)
    requires Stable(decoder) && SameAsWhole(s, u, whole)
    ensures SameAsWhole(Feed(decoder, stops, s, last), if s.open then [] else u + last, Resume(decoder, stops, whole, last))
  {
  }

  /** Any two ways of cutting the same stream are indistinguishable while the session is open. */
  lemma SameStreamSameSession<T(!new)>(decoder: Decoder<T>, stops: T -> bool, a: seq<seq<byte>>, b: seq<seq<byte>>)
    requires Stable(decoder) && decoder([]).More?
    requires Concat(a) == Concat(b)
    ensures FeedAll(decoder, stops, a).items == FeedAll(decoder, stops, b).items
    ensures FeedAll(decoder, stops, a).open == FeedAll(decoder, stops, b).open
    ensures FeedAll(decoder, stops, a).open ==> FeedAll(decoder, stops, a).rest == FeedAll(decoder, stops, b).rest
  {
    SegmentationIrrelevant(decoder, stops, a);
    SegmentationIrrelevant(decoder, stops, b);
  }

  /** What is decoded so far never changes by reading on. */
  lemma DrainPrefix<T(!new)>(decoder: Decoder<T>, stops: T -> bool, data: seq<byte>, more: seq<byte>)
    requires Stable(decoder)
    ensures Drain(decoder, stops, data).items <= Drain(decoder, stops, data + more).items
  {
    DrainAppend(decoder, stops, data, more);
  }

  /** At rest nothing complete is left over. */
  lemma {:induction false} DrainIsComplete<T(!new)>(decoder: Decoder<T>, stops: T -> bool, data: seq<byte>)
    requires Stable(decoder) && Drain(decoder, stops, data).open
    ensures decoder(Drain(decoder, stops, data).rest).More?
    decreases |data|
  {
    if decoder(data).One? {
      DrainIsComplete(decoder, stops, data[decoder(data).size..]);
    }
  }

  /**
   * Segmentation does matter at the end of a connection. The loop that decodes is not reached if a batch ends in
   * a hang-up, so nothing is delivered after the batches before; and that is all there is in the whole stream
   * exactly if the last batch completes no item.
   */
  lemma HangUpLosesBatch<T(!new)>(decoder: Decoder<T>, stops: T -> bool, batches: seq<seq<byte>>, last: seq<byte>)
    requires Stable(decoder) && decoder([]).More?
    ensures var s := FeedAll(decoder, stops, batches);
      s.items == Drain(decoder, stops, Concat(batches + [last])).items
      <==> !s.open || !decoder(s.rest + last).One?
  {
    var s := FeedAll(decoder, stops, batches);
    SegmentationIrrelevant(decoder, stops, batches);
    ConcatSnoc(batches, last);
    DrainAppend(decoder, stops, Concat(batches), last);
    if s.open {
      var e := Drain(decoder, stops, s.rest + last);
      assert e.items == [] <==> !decoder(s.rest + last).One?;
      assert s.items + e.items == s.items <==> e.items == [];
    }
  }

  // ---------------------------------------------------------------- streams of encodings

  function Never<T>(): T -> bool {
    _ => false
  }

  function EncodeAll<T>(encode: T -> seq<byte>, items: seq<T>): seq<byte> {
    if items == [] then [] else encode(items[0]) + EncodeAll(encode, items[1..])
  }

  lemma {:induction false} EncodeAllSnoc<T>(encode: T -> seq<byte>, items: seq<T>, last: T)
    ensures EncodeAll(encode, items + [last]) == EncodeAll(encode, items) + encode(last)
  {
    if items == [] {
      assert [last][1..] == [];
    } else {
      assert (items + [last])[1..] == items[1..] + [last];
      EncodeAllSnoc(encode, items[1..], last);
    }
  }

  /** The decoder takes the encoding of `item` off the front of any stream. */
  ghost predicate Reads<T>(decoder: Decoder<T>, encode: T -> seq<byte>, item: T) {
    forall rest :: ReadsBefore(decoder, encode, item, rest)
  }

  ghost predicate ReadsBefore<T>(decoder: Decoder<T>, encode: T -> seq<byte>, item: T, rest: seq<byte>) {
    decoder(encode(item) + rest) == One(|encode(item)|, item)
  }

  /** Encodings sent back to back come out one by one, whatever follows them. */
  lemma {:induction false} DrainEncoded<T(!new)>(decoder: Decoder<T>, encode: T -> seq<byte>, items: seq<T>, rest: seq<byte>)
    requires Stable(decoder)
    requires forall i :: 0 <= i < |items| ==> Reads(decoder, encode, items[i])
    ensures var e := Drain(decoder, Never(), rest);
      Drain(decoder, Never(), EncodeAll(encode, items) + rest) == Drained(items + e.items, e.rest, e.open)
  {
    hide Drain, ReadsBefore;
    var e := Drain(decoder, Never(), rest);
    if items == [] {
      assert EncodeAll(encode, items) + rest == rest && items + e.items == e.items;
    } else {
      var head, tail := items[0], EncodeAll(encode, items[1..]) + rest;
      Reassociate(encode(head), EncodeAll(encode, items[1..]), rest);
      assert Reads(decoder, encode, head) && ReadsBefore(decoder, encode, head, tail);
      DrainReads(decoder, encode, head, tail);
      DrainEncoded(decoder, encode, items[1..], rest);
      HeadTail(items, e.items);
    }
    assert Drain(decoder, Never(), EncodeAll(encode, items) + rest) == Drained(items + e.items, e.rest, e.open);
  }

  lemma HeadTail<T>(items: seq<T>, more: seq<T>)
    requires items != []
    ensures [items[0]] + (items[1..] + more) == items + more
  {
  }

  lemma DrainReads<T(!new)>(decoder: Decoder<T>, encode: T -> seq<byte>, item: T, tail: seq<byte>)
    requires Stable(decoder) && ReadsBefore(decoder, encode, item, tail)
    ensures Drain(decoder, Never(), encode(item) + tail) == After(item, Drain(decoder, Never(), tail))
  {
  }

  /** An item is read only off its own encoding. */
  ghost predicate Canonical<T>(decoder: Decoder<T>, encode: T -> seq<byte>) {
    forall data :: decoder(data).One? ==> decoder(data).size <= |data| && data[..decoder(data).size] == encode(decoder(data).item)
  }

  /** Nothing is lost or invented: the items, encoded again, and the rest make up the stream. */
  lemma {:induction false} DrainCanonical<T(!new)>(decoder: Decoder<T>, encode: T -> seq<byte>, data: seq<byte>)
    requires Stable(decoder) && Canonical(decoder, encode)
    ensures var d := Drain(decoder, Never(), data); EncodeAll(encode, d.items) + d.rest == data
    decreases |data|
  {
    var d := Drain(decoder, Never(), data);
    if decoder(data).One? {
      var One(n, item) := decoder(data);
      DrainOne(decoder, Never(), data);
      DrainCanonical(decoder, encode, data[n..]);
      assert d.items[1..] == Drain(decoder, Never(), data[n..]).items;
      assert data == encode(item) + data[n..];
      assert EncodeAll(encode, d.items) + d.rest == encode(item) + (EncodeAll(encode, d.items[1..]) + d.rest);
    } else {
      assert EncodeAll(encode, d.items) + d.rest == data;
    }
  }
}
