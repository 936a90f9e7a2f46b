/** The length-prefixed packets of the TCP protocol: src/protocol/packet.cpp and message.h. */
module Packets {
  import opened Bytes
  import opened Streams

  const HEADER_SIZE := 4
  const TYPE_SIZE := 1
  const MAX_BODY_LENGTH := 64 * 1024

  datatype Packet = Packet(kind: byte, body: seq<byte>)

  /** `ok`, or `consumed` -1 (NeedMore) or 0 (Malformed). */
  datatype DecodeResult = NeedMore | Malformed | Decoded(consumed: nat, packet: Packet)

  /** Length in four bytes, most significant first, counting the type; type; body. */
  function Encode(p: Packet): (s: seq<byte>) {
    BigEndian(|p.body| + TYPE_SIZE, HEADER_SIZE) + [p.kind] + p.body
  }

  function Decode(data: seq<byte>): (r: DecodeResult) {
    if |data| < HEADER_SIZE then NeedMore
    else
      var length := FromBigEndian(data[..HEADER_SIZE]);
      if length < TYPE_SIZE || length > MAX_BODY_LENGTH then Malformed
      else if |data| < HEADER_SIZE + length then NeedMore
      else Decoded(HEADER_SIZE + length, Packet(data[HEADER_SIZE], data[HEADER_SIZE + TYPE_SIZE..HEADER_SIZE + length]))
  }

  const WORD := 0x1_0000_0000  // lengths are 32-bit words

  /**
   * `encode`: the vector is sized first, by a length of 32 bits, and then filled in place. With a body too long
   * for that length, what is written runs past the end of the vector.
   */
  method EncodePacket(p: Packet) returns (out: array<byte>, overrun: bool)
    ensures fresh(out) && (overrun <==> |p.body| + TYPE_SIZE >= WORD)
    ensures !overrun ==> out[..] == Encode(p)
  {
    overrun := false;
    var bodyLength := (|p.body| + TYPE_SIZE) % WORD;
    out := new byte[HEADER_SIZE + bodyLength];
    if out.Length < HEADER_SIZE + TYPE_SIZE + |p.body| {
      return out, true;
    }
    var netLen := BigEndian(bodyLength, HEADER_SIZE);
    CopyTo(out, 0, netLen);
    out[HEADER_SIZE] := p.kind;
    if p.body != [] {
      CopyTo(out, HEADER_SIZE + TYPE_SIZE, p.body);
    }
    assert out[..] == out[..HEADER_SIZE] + [out[HEADER_SIZE]] + out[HEADER_SIZE + TYPE_SIZE..];
  }

  /** `memcpy(out + at, data, |data|)` */
  method CopyTo(out: array<byte>, at: nat, data: seq<byte>)
    requires at + |data| <= out.Length
    modifies out
    ensures out[at..at + |data|] == data
    ensures out[..at] == old(out[..at]) && out[at + |data|..] == old(out[at + |data|..])
  {
    for i := 0 to |data|
      invariant forall k :: 0 <= k < i ==> out[at + k] == data[k]
      invariant forall k :: (0 <= k < at || at + |data| <= k < out.Length) ==> out[k] == old(out[k])
    {
      out[at + i] := data[i];
    }
  }

  /** `decode`: the result record is filled step by step. */
  method DecodePacket(data: seq<byte>) returns (consumed: int, packet: Packet, ok: bool)
    ensures match Decode(data)
      case NeedMore => consumed == -1 && !ok
      case Malformed => consumed == 0 && !ok
      case Decoded(n, p) => consumed == n && ok && packet == p
  {
    consumed, packet, ok := 0, Packet(0, []), false;
    if |data| < HEADER_SIZE {
      consumed := -1;
      return;
    }
    var bodyLen := FromBigEndian(data[..HEADER_SIZE]);
    if bodyLen < TYPE_SIZE || bodyLen > MAX_BODY_LENGTH {
      return;
    }
    var totalLen := HEADER_SIZE + bodyLen;
    if |data| < totalLen {
      consumed := -1;
      return;
    }
    packet := packet.(kind := data[HEADER_SIZE]);
    packet := packet.(body := data[HEADER_SIZE + TYPE_SIZE..totalLen]);
    consumed := totalLen;
    ok := true;
  }

  // ---------------------------------------------------------------- laws

  /** What the receiver makes of an encoded packet: the packet if the body fits, a broken stream if not. */
  lemma DecodeEncode(p: Packet, rest: seq<byte>)
    requires |p.body| + TYPE_SIZE < WORD
    ensures Decode(Encode(p) + rest) == if |p.body| < MAX_BODY_LENGTH then Decoded(|Encode(p)|, p) else Malformed
  {
    var length := BigEndian(|p.body| + TYPE_SIZE, HEADER_SIZE);
    Pow256Values();
    BigEndianRoundTrip(|p.body| + TYPE_SIZE, HEADER_SIZE);
    Layout(length, p.kind, p.body, rest);
  }

  /** The bytes of a packet: four that write the length of what follows them, the type, and the body. */
  lemma LayoutOf(p: Packet)
    requires |p.body| + 1 < 0x1_0000_0000
    ensures var s := Encode(p);
      && |s| == 5 + |p.body| && s[4] == p.kind && s[5..] == p.body
      && 0x100_0000 * s[0] as nat + 0x1_0000 * s[1] as nat + 0x100 * s[2] as nat + s[3] as nat == |p.body| + 1
  {
    var n := |p.body| + 1;
    assert ShiftBytes(n, 0) == n && ShiftBytes(n, 1) == n / 256 && ShiftBytes(n, 2) == n / 256 / 256 && ShiftBytes(n, 3) == n / 256 / 256 / 256;
    assert n / 256 / 256 / 256 < 256;
  }

  /** A PING takes five bytes. */
  lemma PingBytes()
    ensures Encode(Packet(7, [])) == [0, 0, 0, 1, 7]
  {
    assert ShiftBytes(1, 0) == 1 && ShiftBytes(1, 1) == 0 && ShiftBytes(1, 2) == 0 && ShiftBytes(1, 3) == 0;
  }

  /** The shortest body that is too long, and the longest that is not. */
  lemma LongIsMalformed(kind: byte)
    ensures Decode(Encode(Packet(kind, Zeros(65536)))) == Malformed
    ensures Decode(Encode(Packet(kind, Zeros(65535)))).Decoded?
  {
    var p, q := Packet(kind, Zeros(65536)), Packet(kind, Zeros(65535));
    DecodeEncode(p, []);
    DecodeEncode(q, []);
    assert Encode(p) + [] == Encode(p) && Encode(q) + [] == Encode(q);
  }

  lemma Layout(length: seq<byte>, kind: byte, body: seq<byte>, rest: seq<byte>)
    requires |length| == HEADER_SIZE
    ensures var data := length + [kind] + body + rest;
      && data[..HEADER_SIZE] == length && data[HEADER_SIZE] == kind
      && data[HEADER_SIZE + TYPE_SIZE..HEADER_SIZE + TYPE_SIZE + |body|] == body
  {
  }

  /** A stream is malformed exactly if it announces nothing or too much, as soon as the four bytes are there that do. */
  lemma MalformedExactly(data: seq<byte>)
    ensures Decode(data).Malformed? <==>
      && |data| >= 4
      && var n := 0x100_0000 * data[0] as nat + 0x1_0000 * data[1] as nat + 0x100 * data[2] as nat + data[3] as nat;
        n == 0 || n > 65536
  {
    if |data| >= 4 {
      FourBytesWrite(data[0], data[1], data[2], data[3]);
      assert data[..4] == [data[0], data[1], data[2], data[3]];
    }
  }

  lemma FourBytesWrite(a: byte, b: byte, c: byte, d: byte)
    ensures FromBigEndian([a, b, c, d]) == 0x100_0000 * a as nat + 0x1_0000 * b as nat + 0x100 * c as nat + d as nat
  {
    FirstByteWeighs(a, [b, c, d]);
    FirstByteWeighs(b, [c, d]);
    FirstByteWeighs(c, [d]);
    FirstByteWeighs(d, []);
    assert [a] + [b, c, d] == [a, b, c, d] && [b] + [c, d] == [b, c, d] && [c] + [d] == [c, d] && [d] + [] == [d];
  }

  /** The encoding is canonical: exactly the bytes that `Encode` writes are read as a packet. */
  lemma DecodeIffEncode(data: seq<byte>, n: nat, p: Packet)
    ensures Decode(data) == Decoded(n, p) <==>
      |p.body| < MAX_BODY_LENGTH && n == |Encode(p)| && Encode(p) <= data
  {
    if Decode(data) == Decoded(n, p) {
      DecodedIsEncoding(data);
    }
    if |p.body| < MAX_BODY_LENGTH && n == |Encode(p)| && Encode(p) <= data {
      DecodeEncode(p, data[n..]);
      assert data == Encode(p) + data[n..];
    }
  }

  lemma DecodedIsEncoding(data: seq<byte>)
    requires Decode(data).Decoded?
    ensures var Decoded(n, p) := Decode(data); n <= |data| && data[..n] == Encode(p) && |p.body| < MAX_BODY_LENGTH
  {
    var Decoded(n, p) := Decode(data);
    FromBigEndianRoundTrip(data[..HEADER_SIZE]);
    assert data[..n] == data[..HEADER_SIZE] + [data[HEADER_SIZE]] + data[HEADER_SIZE + TYPE_SIZE..n];
  }

  lemma VerdictIsStable(data: seq<byte>, more: seq<byte>)
    requires !Decode(data).NeedMore?
    ensures Decode(data + more) == Decode(data)
  {
    assert (data + more)[..HEADER_SIZE] == data[..HEADER_SIZE];
    if Decode(data).Decoded? {
      var n := Decode(data).consumed;
      assert (data + more)[HEADER_SIZE + TYPE_SIZE..n] == data[HEADER_SIZE + TYPE_SIZE..n];
    }
  }

  // ---------------------------------------------------------------- packet streams

  function NextPacket(data: seq<byte>): Verdict<Packet> {
    match Decode(data)
    case NeedMore => More
    case Malformed => Bad
    case Decoded(n, p) => One(n, p)
  }

  lemma NextPacketStable()
    ensures Stable(NextPacket) && NextPacket([]).More?
  {
    forall data, more
      ensures KeepsVerdict(NextPacket, data, more)
    {
      if !Decode(data).NeedMore? {
        VerdictIsStable(data, more);
      }
    }
  }

  predicate IsShort(p: Packet) {
    |p.body| < MAX_BODY_LENGTH
  }

  /**
   * What arrives of packets sent back to back: all that come before the first whose body is too long, which
   * breaks the stream; so all of them, with nothing left over, exactly if no body is too long.
   */
  lemma {:induction false} StreamRoundTrip(packets: seq<Packet>)
    requires forall i :: 0 <= i < |packets| ==> |packets[i].body| + TYPE_SIZE < WORD
    ensures Stable(NextPacket)
    ensures var k := Leading(packets, IsShort);
      Drain(NextPacket, Never(), EncodeAll(Encode, packets)) == Drained(packets[..k], EncodeAll(Encode, packets[k..]), k == |packets|)
  {
    hide Encode, Decode;
    NextPacketStable();
    if packets == [] {
      assert packets[..0] == [] && packets[0..] == [];
    } else if |packets[0].body| < MAX_BODY_LENGTH {
      var k := Leading(packets[1..], IsShort);
      StreamRoundTrip(packets[1..]);
      OneArrives(packets[0], EncodeAll(Encode, packets[1..]));
      OneMore(packets, k);
      assert Leading(packets, IsShort) == k + 1;
    } else {
      assert packets[..0] == [] && packets[0..] == packets;
      DecodeEncode(packets[0], EncodeAll(Encode, packets[1..]));
    }
  }

  lemma OneArrives(p: Packet, tail: seq<byte>)
    requires |p.body| < MAX_BODY_LENGTH
    ensures Stable(NextPacket)
    ensures Drain(NextPacket, Never(), Encode(p) + tail) == After(p, Drain(NextPacket, Never(), tail))
  {
    hide Encode, Decode;
    NextPacketStable();
    DecodeEncode(p, tail);
    DrainReads(NextPacket, Encode, p, tail);
  }

  lemma OneMore<T>(items: seq<T>, k: nat)
    requires items != [] && k < |items|
    ensures items[..k + 1] == [items[0]] + items[1..][..k] && items[k + 1..] == items[1..][k..]
  {
  }

  /** Unique decoding: the packets read off any stream, encoded again, are the bytes that were used up. */
  lemma StreamCanonical(data: seq<byte>)
    ensures Stable(NextPacket)
    ensures var d := Drain(NextPacket, Never(), data); EncodeAll(Encode, d.items) + d.rest == data
  {
    NextPacketStable();
    forall data | NextPacket(data).One?
      ensures NextPacket(data).size <= |data| && data[..NextPacket(data).size] == Encode(NextPacket(data).item)
    {
      DecodedIsEncoding(data);
    }
    DrainCanonical(NextPacket, Encode, data);
  }
}
