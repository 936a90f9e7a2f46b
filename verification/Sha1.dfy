/** The incremental SHA-1 of src/server/ws_handshake.cpp against RFC 3174. */
module Sha1s {
  import opened Bytes

  // ---------------------------------------------------------------- RFC 3174

  datatype Words = Words(a: bv32, b: bv32, c: bv32, d: bv32, e: bv32)

  function Initial(): Words {
    Words(0x67452301, 0xEFCDAB89, 0x98BADCFE, 0x10325476, 0xC3D2E1F0)
  }

  // the circular left shifts that SHA-1 uses

  function Rotl1(x: bv32): bv32 { (x << 1) | (x >> 31) }

  function Rotl5(x: bv32): bv32 { (x << 5) | (x >> 27) }

  function Rotl30(x: bv32): bv32 { (x << 30) | (x >> 2) }

  /** The big-endian word at index `t` of a block. */
  function WordAt(block: seq<byte>, t: nat): bv32
    requires 4 * t + 4 <= |block|
  {
    (block[4 * t] as bv32 << 24) | (block[4 * t + 1] as bv32 << 16) | (block[4 * t + 2] as bv32 << 8) | block[4 * t + 3] as bv32
  }

  function Mix(w3: bv32, w8: bv32, w14: bv32, w16: bv32): bv32 {
    Rotl1(w3 ^ w8 ^ w14 ^ w16)
  }

  /** The word sequence W(0), ..., W(79) of section 6.1, steps a and b. */
  ghost function Schedule(block: seq<byte>, t: nat): bv32
    requires |block| == 64 && t < 80
    decreases block, t
  {
    if t < 16 then WordAt(block, t)
    else Mix(Schedule(block, t - 3), Schedule(block, t - 8), Schedule(block, t - 14), Schedule(block, t - 16))
  }

  // the three logical functions of section 5

  function Ch(b: bv32, c: bv32, d: bv32): bv32 { (b & c) | (!b & d) }

  function Parity(b: bv32, c: bv32, d: bv32): bv32 { b ^ c ^ d }

  function Maj(b: bv32, c: bv32, d: bv32): bv32 { (b & c) | (b & d) | (c & d) }

  function F(t: nat, b: bv32, c: bv32, d: bv32): bv32 {
    if t < 20 then Ch(b, c, d) else if 40 <= t < 60 then Maj(b, c, d) else Parity(b, c, d)
  }

  function K(t: nat): bv32 {
    if t < 20 then 0x5A827999 else if t < 40 then 0x6ED9EBA1 else if t < 60 then 0x8F1BBCDC else 0xCA62C1D6
  }

  function Sum(a: bv32, f: bv32, e: bv32, k: bv32, wt: bv32): bv32 { a + f + e + k + wt }

  /** Step d of section 6.1. */
  function RoundStep(t: nat, w: Words, wt: bv32): Words {
    Words(Sum(Rotl5(w.a), F(t, w.b, w.c, w.d), w.e, K(t), wt), w.a, Rotl30(w.b), w.c, w.d)
  }

  ghost function Rounds(block: seq<byte>, t: nat, h: Words): Words
    requires |block| == 64 && t <= 80
    decreases block, t
  {
    if t == 0 then h else RoundStep(t - 1, Rounds(block, t - 1, h), Schedule(block, t - 1))
  }

  lemma RoundsStep(block: seq<byte>, t: nat, h: Words)
    requires |block| == 64 && t < 80
    ensures Rounds(block, t + 1, h) == RoundStep(t, Rounds(block, t, h), Schedule(block, t))
  {
  }

  function AddWords(h: Words, w: Words): Words {
    Words(h.a + w.a, h.b + w.b, h.c + w.c, h.d + w.d, h.e + w.e)
  }

  ghost function Compress(h: Words, block: seq<byte>): Words
    requires |block| == 64
  {
    AddWords(h, Rounds(block, 80, h))
  }

  /** The chaining value after all the 64-byte blocks of `data`. */
  ghost function FoldBlocks(data: seq<byte>): Words
    requires |data| % 64 == 0
  {
    if data == [] then Initial()
    else Compress(FoldBlocks(data[..|data| - 64]), data[|data| - 64..])
  }

  lemma FoldEmpty()
    ensures FoldBlocks([]) == Initial() && BitCount(0) == 0
  {
  }

  lemma FoldSnoc(data: seq<byte>, block: seq<byte>)
    requires |data| % 64 == 0 && |block| == 64
    ensures FoldBlocks(data + block) == Compress(FoldBlocks(data), block)
  {
  }

  /** Section 4: a one bit, zeros up to 8 bytes short of a block boundary, the length in bits. */
  ghost function Pad(message: seq<byte>): (padded: seq<byte>) {
    message + [0x80] + Zeros((55 - |message|) % 64) + BigEndian(8 * |message|, 8)
  }

  lemma PaddedToBlocks(message: seq<byte>)
    ensures |Pad(message)| % 64 == 0
  {
  }

  function LowByte(w: bv32): byte {
    (w & 0xFF) as bv8 as byte
  }

  function WordBytes(w: bv32): seq<byte> {
    [LowByte(w >> 24), LowByte(w >> 16), LowByte(w >> 8), LowByte(w)]
  }

  function Output(h: Words): (s: seq<byte>)
    ensures |s| == 20
  {
    WordBytes(h.a) + WordBytes(h.b) + WordBytes(h.c) + WordBytes(h.d) + WordBytes(h.e)
  }

  ghost function Digest(message: seq<byte>): (digest: seq<byte>)
    ensures |digest| == 20
  {
    PaddedToBlocks(message);
    Output(FoldBlocks(Pad(message)))
  }

  /** Padding loses nothing: two messages of fewer than 2^64 bits with the same padded form are the same. */
  lemma PadInjective(m: seq<byte>, n: seq<byte>)
    requires 8 * |m| < 0x1_0000_0000_0000_0000 && 8 * |n| < 0x1_0000_0000_0000_0000
    requires Pad(m) == Pad(n)
    ensures m == n
  {
    var p, q := Pad(m), Pad(n);
    assert p[|p| - 8..] == BigEndian(8 * |m|, 8);
    assert q[|q| - 8..] == BigEndian(8 * |n|, 8);
    Pow256Values();
    BigEndianRoundTrip(8 * |m|, 8);
    BigEndianRoundTrip(8 * |n|, 8);
    assert m == p[..|m|] && n == q[..|n|];
  }

  // ---------------------------------------------------------------- the incremental object

  /** The 64-bit counter after `n` bytes. */
  function BitCount(n: nat): nat {
    8 * n % 0x1_0000_0000_0000_0000
  }

  class Sha1 {
    var h: Words
    var totalBits: nat
    const buf: array<byte>
    var bufLen: nat
    ghost var done: seq<byte>  // the blocks digested so far

    ghost predicate Valid()
      reads this, buf
    {
      && buf.Length == 64 && bufLen < 64
      && Chained()
      && totalBits == BitCount(|done| + bufLen)
    }

    ghost predicate Chained()
      reads this`h, this`done
    {
      |done| % 64 == 0 && h == FoldBlocks(done)
    }

    /** Everything `update` has been given. */
    ghost function Message(): seq<byte>
      requires bufLen <= buf.Length
      reads this, buf
    {
      done + buf[..bufLen]
    }

    /** `init` */
    constructor ()
      ensures Valid() && fresh(buf) && Message() == []
    {
      h := Initial();
      totalBits := 0;
      buf := new byte[64];
      bufLen := 0;
      done := [];
      new;
      hide Initial, FoldBlocks, BitCount;
      FoldEmpty();
      assert Valid();
    }

    /** `processBlock`: the schedule in an array, eighty rounds on five variables. */
    method ProcessBlock(block: seq<byte>)
      requires |block| == 64
      modifies this`h
      ensures h == Compress(old(h), block)
    {
      hide WordAt, Mix, RoundStep, AddWords;
      var W := new bv32[80];
      for i := 0 to 16
        invariant h == old(h) && forall k :: 0 <= k < i ==> W[k] == Schedule(block, k)
      {
        W[i] := WordAt(block, i);
      }
      for i := 16 to 80
        invariant h == old(h) && forall k :: 0 <= k < i ==> W[k] == Schedule(block, k)
      {
        W[i] := Mix(W[i - 3], W[i - 8], W[i - 14], W[i - 16]);
      }
      var a, b, c, d, e := h.a, h.b, h.c, h.d, h.e;
      for t := 0 to 80
        invariant h == old(h) && forall k :: 0 <= k < 80 ==> W[k] == Schedule(block, k)
        invariant Words(a, b, c, d, e) == Rounds(block, t, h)
      {
        RoundsStep(block, t, h);
        a, b, c, d, e := Round(t, a, b, c, d, e, W[t]);
      }
      h := AddWords(h, Words(a, b, c, d, e));
    }

    /** One turn of the round loop. */
    static method Round(t: nat, a0: bv32, b0: bv32, c0: bv32, d0: bv32, e0: bv32, wt: bv32)
      returns (a: bv32, b: bv32, c: bv32, d: bv32, e: bv32)
      ensures Words(a, b, c, d, e) == RoundStep(t, Words(a0, b0, c0, d0, e0), wt)
    {
      hide F, K, Sum, Rotl5, Rotl30;
      a, b, c, d, e := a0, b0, c0, d0, e0;
      var f, k := RoundFunction(t, b, c, d);
      var temp := Sum(Rotl5(a), f, e, k, wt);
      e := d;
      d := c;
      c := Rotl30(b);
      b := a;
      a := temp;
    }

    static method RoundFunction(t: nat, b: bv32, c: bv32, d: bv32) returns (f: bv32, k: bv32)
      ensures f == F(t, b, c, d) && k == K(t)
    {
      hide Ch, Parity, Maj;
      if t < 20 {
        f := Ch(b, c, d);
        k := 0x5A827999;
      } else if t < 40 {
        f := Parity(b, c, d);
        k := 0x6ED9EBA1;
      } else if t < 60 {
        f := Maj(b, c, d);
        k := 0x8F1BBCDC;
      } else {
        f := Parity(b, c, d);
        k := 0xCA62C1D6;
      }
    }

    /** Digests the next block of the stream. */
    method Absorb(block: seq<byte>)
      requires |block| == 64 && Chained()
      modifies this`h, this`done
      ensures Chained() && done == old(done) + block
    {
      FoldSnoc(done, block);
      ProcessBlock(block);
      done := done + block;
    }

    /** `memcpy(buf + at, data, |data|)` */
    method Store(at: nat, data: seq<byte>)
      requires at + |data| <= buf.Length
      modifies buf
      ensures buf[..at + |data|] == old(buf[..at]) + data
    {
      for i := 0 to |data|
        invariant forall k :: 0 <= k < at ==> buf[k] == old(buf[k])
        invariant forall k :: 0 <= k < i ==> buf[at + k] == data[k]
      {
        buf[at + i] := data[i];
      }
    }

    /** `update` */
    method Update(data: seq<byte>)
      requires Valid()
      modifies this, buf
      ensures Valid() && Message() == old(Message()) + data
    {
      CountBits(|done| + bufLen, |data|);
      totalBits := (totalBits + |data| * 8) % 0x1_0000_0000_0000_0000;
      Take(data);
    }

    method Take(data: seq<byte>)
      requires buf.Length == 64 && bufLen < 64 && Chained()
      modifies this`h, this`done, this`bufLen, buf
      ensures bufLen < 64 && Chained() && Message() == old(Message()) + data
    {
      hide Chained;
      var pos := 0;
      if bufLen > 0 {
        if |data| < 64 - bufLen {
          KeepAll(data);
          return;
        }
        pos := TopUp(data);
      }
      pos := AbsorbWhole(data, pos, old(Message()));
      KeepRest(data, pos);
      Reassociate(old(Message()), data[..pos], data[pos..]);
      TakeDrop(data, pos);
    }

    method KeepAll(data: seq<byte>)
      requires bufLen + |data| <= buf.Length
      modifies this`bufLen, buf
      ensures bufLen == old(bufLen) + |data| && Message() == old(Message()) + data
    {
      ghost var start := buf[..bufLen];
      Store(bufLen, data);
      bufLen := bufLen + |data|;
      Reassociate(done, start, data);
    }

    /** Fills the buffer up from `data` and digests it. */
    method TopUp(data: seq<byte>) returns (pos: nat)
      requires buf.Length == 64 && 0 < bufLen < 64 <= bufLen + |data| && Chained()
      modifies this`h, this`done, this`bufLen, buf
      ensures bufLen == 0 && pos == 64 - old(bufLen) && Chained()
      ensures done == old(Message()) + data[..pos]
    {
      hide Chained;
      pos := 64 - bufLen;
      Store(bufLen, data[..pos]);
      Absorb(buf[..64]);
      bufLen := 0;
    }

    method KeepRest(data: seq<byte>, pos: nat)
      requires buf.Length == 64 && pos <= |data| < pos + 64 && bufLen == 0
      modifies this`bufLen, buf
      ensures bufLen == |data| - pos && buf[..bufLen] == data[pos..]
    {
      if |data| - pos > 0 {
        Store(0, data[pos..]);
        bufLen := |data| - pos;
      }
    }

    /** The loop of `update` over full blocks, straight from the caller's bytes. */
    method AbsorbWhole(data: seq<byte>, from: nat, ghost start: seq<byte>) returns (pos: nat)
      requires from <= |data| && Chained() && done == start + data[..from]
      modifies this`h, this`done
      ensures from <= pos <= |data| < pos + 64
      ensures Chained() && done == start + data[..pos]
    {
      hide FoldBlocks;
      pos := from;
      while |data| - pos >= 64
        invariant from <= pos <= |data| && Chained()
        invariant done == start + data[..pos]
      {
        Absorb(data[pos..pos + 64]);
        assert data[..pos] + data[pos..pos + 64] == data[..pos + 64];
        pos := pos + 64;
      }
    }

    static lemma CountBits(m: nat, n: nat)
      ensures (BitCount(m) + n * 8) % 0x1_0000_0000_0000_0000 == BitCount(m + n)
    {
    }

    /** `final` */
    method Final() returns (out: seq<byte>)
      requires Valid()
      modifies this, buf
      ensures out == Digest(old(Message()))
    {
      hide FoldBlocks, BitCount, WordBytes, Digest;
      ghost var message, tail := Message(), buf[..bufLen];
      PadTail(done, tail);
      Store(bufLen, [0x80]);
      bufLen := bufLen + 1;
      if bufLen > 56 {
        Store(bufLen, Zeros(64 - bufLen));
        TwoBlocks(done, tail);
        Absorb(buf[..64]);
        bufLen := 0;
      } else {
        OneBlock(done, tail);
      }
      LastBlock(|message|);
      assert done == Pad(message);
      out := Output(h);
      DigestOf(message, done, h);
    }

    /** Fills the buffer with zeros and the bit count, and digests it. */
    method LastBlock(ghost n: nat)
      requires buf.Length == 64 && bufLen <= 56 && totalBits == BitCount(n) && Chained()
      modifies this`h, this`done, buf
      ensures Chained()
      ensures done == old(done) + (old(buf[..bufLen]) + Zeros(56 - bufLen) + BigEndian(8 * n, 8))
    {
      hide Chained;
      BigEndianWraps(8 * n, 8);
      Pow256Values();
      Store(bufLen, Zeros(56 - bufLen));
      Store(56, BigEndian(totalBits, 8));
      Absorb(buf[..64]);
    }
  }

  /** What padding adds to a message of which whole blocks `done` and a rest `tail` are in. */
  ghost function Ending(done: seq<byte>, tail: seq<byte>): seq<byte> {
    tail + [0x80] + Zeros((55 - |tail|) % 64) + BigEndian(8 * |done + tail|, 8)
  }

  lemma PadTail(done: seq<byte>, tail: seq<byte>)
    requires |done| % 64 == 0
    ensures Pad(done + tail) == done + Ending(done, tail)
  {
    assert (55 - |done + tail|) % 64 == (55 - |tail|) % 64;
    Associate(done, tail, Zeros((55 - |tail|) % 64), BigEndian(8 * |done + tail|, 8));
  }

  lemma Associate(done: seq<byte>, tail: seq<byte>, zeros: seq<byte>, length: seq<byte>)
    ensures (done + tail) + [0x80] + zeros + length == done + (tail + [0x80] + zeros + length)
  {
  }

  lemma OneBlock(done: seq<byte>, tail: seq<byte>)
    requires |tail| < 56
    ensures Ending(done, tail) == tail + [0x80] + Zeros(55 - |tail|) + BigEndian(8 * |done + tail|, 8)
  {
  }

  lemma TwoBlocks(done: seq<byte>, tail: seq<byte>)
    requires 56 <= |tail| < 64
    ensures done + Ending(done, tail)
         == (done + (tail + [0x80] + Zeros(63 - |tail|))) + (Zeros(56) + BigEndian(8 * |done + tail|, 8))
  {
  }

  lemma DigestOf(message: seq<byte>, padded: seq<byte>, h: Words)
    requires padded == Pad(message) && |padded| % 64 == 0 && h == FoldBlocks(padded)
    ensures Output(h) == Digest(message)
  {
  }

  /** However a message is cut into updates, empty ones included, the digest is that of the whole. */
  method HashPieces(pieces: seq<seq<byte>>) returns (digest: seq<byte>)
    ensures digest == Digest(Concat(pieces))
  {
    hide FoldBlocks, Digest, BitCount;
    var s := new Sha1();
    for i := 0 to |pieces|
      invariant s.Valid() && fresh(s) && fresh(s.buf)
      invariant s.Message() == Concat(pieces[..i])
    {
      ConcatTake(pieces, i);
      s.Update(pieces[i]);
    }
    ConcatAll(pieces);
    digest := s.Final();
  }
}
