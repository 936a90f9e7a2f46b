/** What the pieces of SHA-1 are, apart from how they are written down: RFC 3174, sections 3 and 5 to 6. */
module Sha1Laws {
  import opened Bytes
  import opened Sha1s

  // ---------------------------------------------------------------- constants

  /** The square of the 30-bit fraction `k` reaches `n` as nearly as it can from below. */
  predicate IsRoot(k: bv32, n: nat) {
    (k as int) * (k as int) <= n * 0x1000_0000_0000_0000 < (k as int + 1) * (k as int + 1)
  }

  /** The constants are 2^30 times the square roots of 2, 3, 5 and 10, rounded down, each for twenty rounds. */
  lemma RoundConstants(t: nat)
    requires t < 80
    ensures IsRoot(K(t), if t < 20 then 2 else if t < 40 then 3 else if t < 60 then 5 else 10)
  {
  }

  /** The chaining value starts with the half-bytes 0 to F, least significant byte first, and F to 0 around them. */
  lemma InitialBytes()
    ensures Output(Initial()) == [0x67, 0x45, 0x23, 0x01, 0xEF, 0xCD, 0xAB, 0x89, 0x98, 0xBA, 0xDC, 0xFE, 0x10, 0x32, 0x54, 0x76, 0xC3, 0xD2, 0xE1, 0xF0]
  {
  }

  // ---------------------------------------------------------------- the logical functions, on the bits of a mask

  /** Where `b` has ones, the choice is `c`; where it has zeros, `d`. */
  lemma ChooseBits(b: bv32, c: bv32, d: bv32)
    ensures Ch(b, c, d) & b == c & b && Ch(b, c, d) & !b == d & !b
  {
  }

  /** Wherever two of the three agree, the majority is what they are. */
  lemma MajorityBits(b: bv32, c: bv32, d: bv32)
    ensures (Maj(b, c, d) ^ b) & !(b ^ c) == 0 && (Maj(b, c, d) ^ b) & !(b ^ d) == 0 && (Maj(b, c, d) ^ c) & !(c ^ d) == 0
  {
  }

  /** Where the first two agree, parity is the third; where they differ, its complement. */
  lemma ParityBits(b: bv32, c: bv32, d: bv32, mask: bv32)
    ensures b & mask == c & mask ==> Parity(b, c, d) & mask == d & mask
    ensures b & mask == !c & mask ==> Parity(b, c, d) & mask == !d & mask
  {
  }

  lemma Rotations(x: bv32)
    ensures Rotl1(x) == x.RotateLeft(1) && Rotl5(x) == x.RotateLeft(5) && Rotl30(x) == x.RotateLeft(30)
  {
  }

  // ---------------------------------------------------------------- words and bytes

  /** The bytes of a block stand in its words from the most significant on. */
  lemma WordPositions(block: seq<byte>, t: nat)
    requires 4 * t + 4 <= |block|
    ensures var w := WordAt(block, t);
      && (w >> 24) & 0xFF == block[4 * t] as bv32 && (w >> 16) & 0xFF == block[4 * t + 1] as bv32
      && (w >> 8) & 0xFF == block[4 * t + 2] as bv32 && w & 0xFF == block[4 * t + 3] as bv32
  {
    var a, b, c, d := block[4 * t], block[4 * t + 1], block[4 * t + 2], block[4 * t + 3];
    SmallByte(a);
    SmallByte(b);
    SmallByte(c);
    SmallByte(d);
    Assemble(a as bv32, b as bv32, c as bv32, d as bv32);
  }

  /** And so do the bytes that are written out. */
  lemma BytePositions(w: bv32)
    ensures WordBytes(w)[0] as bv32 == (w >> 24) & 0xFF && WordBytes(w)[1] as bv32 == (w >> 16) & 0xFF
    ensures WordBytes(w)[2] as bv32 == (w >> 8) & 0xFF && WordBytes(w)[3] as bv32 == w & 0xFF
  {
    hide LowByte;
    LowBits(w >> 24);
    LowBits(w >> 16);
    LowBits(w >> 8);
    LowBits(w);
  }

  /** So a word is read back from the bytes that it was written as. */
  lemma WordOfBytes(block: seq<byte>, t: nat, w: bv32)
    requires 4 * t + 4 <= |block| && WordBytes(w) == block[4 * t..4 * t + 4]
    ensures WordAt(block, t) == w
  {
    hide WordBytes;
    FourBytes(block, 4 * t);
    BytePositions(w);
    Disassemble(w);
  }

  lemma FourBytes(s: seq<byte>, i: nat)
    requires i + 4 <= |s|
    ensures s[i..i + 4] == [s[i], s[i + 1], s[i + 2], s[i + 3]]
  {
  }

  lemma Assemble(a: bv32, b: bv32, c: bv32, d: bv32)
    requires a < 256 && b < 256 && c < 256 && d < 256
    ensures var w := (a << 24) | (b << 16) | (c << 8) | d;
      (w >> 24) & 0xFF == a && (w >> 16) & 0xFF == b && (w >> 8) & 0xFF == c && w & 0xFF == d
  {
  }

  lemma Disassemble(w: bv32)
    ensures w == (((w >> 24) & 0xFF) << 24) | (((w >> 16) & 0xFF) << 16) | (((w >> 8) & 0xFF) << 8) | (w & 0xFF)
  {
  }

  lemma LowBits(w: bv32)
    ensures LowByte(w) as bv32 == w & 0xFF
  {
    var x := (w & 0xFF) as bv8;
    ByteOfBits(x);
    WideBits(x as byte);
    assert x as bv32 == w & 0xFF;
  }

  lemma SmallByte(b: byte)
    ensures b as bv32 < 256
  {
  }

  lemma ByteOfBits(x: bv8)
    ensures (x as byte) as bv8 == x
  {
  }

  lemma WideBits(b: byte)
    ensures (b as bv8) as bv32 == b as bv32
  {
  }
}
