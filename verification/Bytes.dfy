/** Bytes, and the big-endian numbers that every wire format of the server is built from. */
module Bytes {

  newtype byte = b: int | 0 <= b < 256

  /** The bytes of a string literal. */
  function Ascii(s: string): (b: seq<byte>)
    ensures |b| == |s|
  {
    seq(|s|, i requires 0 <= i < |s| => (s[i] as int % 256) as byte)
  }

  function Zeros(n: nat): (s: seq<byte>)
    ensures |s| == n && forall i :: 0 <= i < n ==> s[i] == 0
  {
    seq(n, i => 0)
  }

  /** Exclusive or of the `n` low-order bits. */
  function XorBits(a: nat, b: nat, n: nat): (x: nat)
    ensures x < Pow2(n)
  {
    if n == 0 then 0 else 2 * XorBits(a / 2, b / 2, n - 1) + (a + b) % 2
  }

  function Pow2(n: nat): (p: nat)
    ensures p > 0
  {
    if n == 0 then 1 else 2 * Pow2(n - 1)
  }

  lemma {:induction false} XorBitsTwice(a: nat, b: nat, n: nat)
    ensures XorBits(XorBits(a, b, n), b, n) == a % Pow2(n)
  {
    if n > 0 {
      XorBitsTwice(a / 2, b / 2, n - 1);
      var half := XorBits(a / 2, b / 2, n - 1);
      XorBitsStep(half, a, b, n);
      HalfModulo(a, Pow2(n - 1));
    }
  }

  lemma XorBitsStep(half: nat, a: nat, b: nat, n: nat)
    requires n > 0
    ensures XorBits(2 * half + (a + b) % 2, b, n) == 2 * XorBits(half, b / 2, n - 1) + a % 2
  {
    var x := 2 * half + (a + b) % 2;
    assert x / 2 == half;
    assert (x + b) % 2 == a % 2;
  }

  lemma HalfModulo(a: nat, p: nat)
    requires p > 0
    ensures a % (2 * p) == 2 * (a / 2 % p) + a % 2
  {
    var q, r := a / 2 / p, a / 2 % p;
    assert a == 2 * (q * p + r) + a % 2;
    Remainder(a, 2 * p, q, 2 * r + a % 2);
  }

  lemma Remainder(n: nat, d: nat, q: nat, r: nat)
    requires r < d && n == q * d + r
    ensures n % d == r
  {
    var k := q - n / d;
    assert k * d == n % d - r;
    Multiple(k, d);
  }

  lemma Multiple(k: int, d: int)
    requires d >= 0
    ensures k >= 1 ==> k * d >= d
    ensures k <= -1 ==> k * d <= -d
  {
  }

  /** The `^` of two bytes. */
  function Xor(a: byte, b: byte): (x: byte) {
    Pow2Of8();
    XorBits(a as int, b as int, 8) as byte
  }

  /** Bit `k` of a number, the lowest being bit 0. */
  function Bit(n: nat, k: nat): (b: nat)
    ensures b < 2
  {
    n / Pow2(k) % 2
  }

  /** What exclusive or is: each bit is the sum of the two bits, without carry. */
  lemma XorIsBitwise(a: byte, b: byte, k: nat)
    requires k < 8
    ensures Bit(Xor(a, b) as nat, k) == (Bit(a as nat, k) + Bit(b as nat, k)) % 2
  {
    Pow2Of8();
    XorBitsBit(a as nat, b as nat, 8, k);
  }

  /** Eight binary digits, the first weighing most. */
  datatype Octet = Octet(b7: nat, b6: nat, b5: nat, b4: nat, b3: nat, b2: nat, b1: nat, b0: nat) {
    predicate Binary() {
      b7 < 2 && b6 < 2 && b5 < 2 && b4 < 2 && b3 < 2 && b2 < 2 && b1 < 2 && b0 < 2
    }

    function High(): nat {
      8 * b7 + 4 * b6 + 2 * b5 + b4
    }

    function Value(): nat {
      16 * High() + 8 * b3 + 4 * b2 + 2 * b1 + b0
    }

    function Plus(o: Octet): Octet {
      Octet(Differ(b7, o.b7), Differ(b6, o.b6), Differ(b5, o.b5), Differ(b4, o.b4), Differ(b3, o.b3), Differ(b2, o.b2), Differ(b1, o.b1), Differ(b0, o.b0))
    }
  }

  function Differ(p: nat, q: nat): nat {
    if p == q then 0 else 1
  }

  /** So exclusive or can be taken digit by digit. */
  lemma XorIs(a: byte, b: byte, x: byte, p: Octet, q: Octet)
    requires p.Binary() && q.Binary() && p.Value() == a as nat && q.Value() == b as nat && p.Plus(q).Value() == x as nat
    ensures Xor(a, b) == x
  {
    hide *;
    XorAsBits(a, b, x);
    XorDigits(p, q);
    assert Xor(a, b) == x;
  }

  lemma XorDigits(p: Octet, q: Octet)
    requires p.Binary() && q.Binary()
    ensures XorBits(p.Value(), q.Value(), 8) == p.Plus(q).Value()
  {
    hide XorBits, Differ;
    NoBits(0, 0);
    FourMore(0, 0, 0, p.High(), q.High(), p.b7, p.b6, p.b5, p.b4, q.b7, q.b6, q.b5, q.b4);
    FourMore(p.High(), q.High(), 4, p.Value(), q.Value(), p.b3, p.b2, p.b1, p.b0, q.b3, q.b2, q.b1, q.b0);
  }

  lemma FourMore(a: nat, b: nat, n: nat, x: nat, y: nat, p3: nat, p2: nat, p1: nat, p0: nat, q3: nat, q2: nat, q1: nat, q0: nat)
    requires p3 < 2 && p2 < 2 && p1 < 2 && p0 < 2 && q3 < 2 && q2 < 2 && q1 < 2 && q0 < 2
    requires x == 16 * a + 8 * p3 + 4 * p2 + 2 * p1 + p0 && y == 16 * b + 8 * q3 + 4 * q2 + 2 * q1 + q0
    ensures XorBits(x, y, n + 4)
      == 16 * XorBits(a, b, n) + 8 * Differ(p3, q3) + 4 * Differ(p2, q2) + 2 * Differ(p1, q1) + Differ(p0, q0)
  {
    hide XorBits, Differ;
    var a3, b3 := 2 * a + p3, 2 * b + q3;
    var a2, b2 := 2 * a3 + p2, 2 * b3 + q2;
    var a1, b1 := 2 * a2 + p1, 2 * b2 + q1;
    BitMore(a, b, n, p3, q3);
    BitMore(a3, b3, n + 1, p2, q2);
    BitMore(a2, b2, n + 2, p1, q1);
    BitMore(a1, b1, n + 3, p0, q0);
    assert 2 * a1 + p0 == x && 2 * b1 + q0 == y;
  }

  lemma XorAsBits(a: byte, b: byte, x: byte)
    ensures Xor(a, b) == x <==> XorBits(a as nat, b as nat, 8) == x as nat
  {
    hide XorBits;
    Pow2Of8();
  }

  lemma NoBits(a: nat, b: nat)
    ensures XorBits(a, b, 0) == 0
  {
  }

  lemma BitMore(a: nat, b: nat, n: nat, p: nat, q: nat)
    requires p < 2 && q < 2
    ensures XorBits(2 * a + p, 2 * b + q, n + 1) == 2 * XorBits(a, b, n) + Differ(p, q)
  {
    Doubled(a, p);
    Doubled(b, q);
    assert (2 * a + p + (2 * b + q)) % 2 == (p + q) % 2;
  }

  lemma {:induction false} XorBitsBit(a: nat, b: nat, n: nat, k: nat)
    requires k < n
    ensures Bit(XorBits(a, b, n), k) == (Bit(a, k) + Bit(b, k)) % 2
  {
    hide Bit;
    Doubled(XorBits(a / 2, b / 2, n - 1), (a + b) % 2);
    if k == 0 {
      LowestBit(XorBits(a, b, n));
      LowestBit(a);
      LowestBit(b);
    } else {
      XorBitsBit(a / 2, b / 2, n - 1, k - 1);
      HigherBit(XorBits(a, b, n), k);
      HigherBit(a, k);
      HigherBit(b, k);
    }
    assert Bit(XorBits(a, b, n), k) == (Bit(a, k) + Bit(b, k)) % 2;
  }

  lemma Doubled(half: nat, low: nat)
    requires low < 2
    ensures (2 * half + low) / 2 == half && (2 * half + low) % 2 == low
  {
  }

  lemma LowestBit(n: nat)
    ensures Bit(n, 0) == n % 2
  {
  }

  lemma HigherBit(n: nat, k: nat)
    requires k > 0
    ensures Bit(n, k) == Bit(n / 2, k - 1)
  {
    HalfQuotient(n, Pow2(k - 1));
  }

  lemma HalfQuotient(n: nat, p: nat)
    requires p > 0
    ensures n / (2 * p) == n / 2 / p
  {
    var q, r := n / 2 / p, n / 2 % p;
    assert n == 2 * (q * p + r) + n % 2;
    assert 2 * (q * p) == q * (2 * p);
    Quotient(n, 2 * p, q, 2 * r + n % 2);
  }

  lemma Quotient(n: nat, d: nat, q: nat, r: nat)
    requires r < d && n == q * d + r
    ensures n / d == q
  {
    var k := q - n / d;
    assert k * d == n % d - r;
    Multiple(k, d);
  }

  lemma Pow2Of8()
    ensures Pow2(8) == 256
  {
  }

  lemma XorTwice(a: byte, b: byte)
    ensures Xor(Xor(a, b), b) == a
  {
    Pow2Of8();
    XorAllBits(a as int, b as int, 8);
  }

  lemma XorAllBits(a: nat, b: nat, n: nat)
    requires Pow2(n) == 256 && a < 256
    ensures XorBits(XorBits(a, b, n), b, n) == a
  {
    XorBitsTwice(a, b, n);
    assert a % 256 == a;
  }

  function Pow256(k: nat): (p: nat)
    ensures p > 0
  {
    if k == 0 then 1 else 256 * Pow256(k - 1)
  }

  /** The number that `s` writes in base 256, most significant byte first. */
  function FromBigEndian(s: seq<byte>): (n: nat)
  {
    if s == [] then 0 else 256 * FromBigEndian(s[..|s| - 1]) + s[|s| - 1] as int
  }

  /** The first byte weighs most. */
  lemma {:induction false} FirstByteWeighs(b: byte, s: seq<byte>)
    ensures FromBigEndian([b] + s) == b as nat * Pow256(|s|) + FromBigEndian(s)
  {
    if s == [] {
      assert FromBigEndian([b]) == 256 * FromBigEndian([b][..0]) + b as nat;
    } else {
      var init, last := s[..|s| - 1], s[|s| - 1];
      assert ([b] + s)[..|s|] == [b] + init;
      FirstByteWeighs(b, init);
      assert 256 * (b as nat * Pow256(|init|)) == b as nat * (256 * Pow256(|init|));
    }
  }

  /** `n >> (8 * k)`. */
  function ShiftBytes(n: nat, k: nat): nat {
    if k == 0 then n else ShiftBytes(n, k - 1) / 256
  }

  /** The `k` low-order bytes of `n`, most significant byte first. */
  function BigEndian(n: nat, k: nat): (s: seq<byte>)
    ensures |s| == k
    ensures forall i :: 0 <= i < k ==> s[i] as nat == ShiftBytes(n, k - 1 - i) % 256
  {
    seq(k, i requires 0 <= i < k => (ShiftBytes(n, k - 1 - i) % 256) as byte)
  }

  lemma {:induction false} ShiftMore(n: nat, k: nat)
    ensures ShiftBytes(n / 256, k) == ShiftBytes(n, k + 1)
  {
    if k > 0 {
      ShiftMore(n, k - 1);
    }
  }

  lemma BigEndianSnoc(n: nat, k: nat)
    ensures BigEndian(n, k + 1) == BigEndian(n / 256, k) + [(n % 256) as byte]
  {
    forall i | 0 <= i < k
      ensures BigEndian(n, k + 1)[i] == BigEndian(n / 256, k)[i]
    {
      ShiftMore(n, k - 1 - i);
    }
    assert ShiftBytes(n, 0) == n;
  }

  lemma {:induction false} BigEndianRoundTrip(n: nat, k: nat)
    requires n < Pow256(k)
    ensures FromBigEndian(BigEndian(n, k)) == n
  {
    if k > 0 {
      BigEndianRoundTrip(n / 256, k - 1);
      BigEndianSnoc(n, k - 1);
    }
  }

  lemma {:induction false} FromBigEndianBound(s: seq<byte>)
    ensures FromBigEndian(s) < Pow256(|s|)
  {
    if s != [] {
      FromBigEndianBound(s[..|s| - 1]);
    }
  }

  lemma {:induction false} FromBigEndianRoundTrip(s: seq<byte>)
    ensures BigEndian(FromBigEndian(s), |s|) == s
  {
    if s != [] {
      var init := s[..|s| - 1];
      FromBigEndianRoundTrip(init);
      BigEndianSnoc(FromBigEndian(s), |init|);
      assert s == init + [s[|s| - 1]];
    }
  }

  /** `BigEndian` keeps the low-order bytes only, so a counter may wrap around before it is written. */
  lemma {:induction false} BigEndianWraps(n: nat, k: nat)
    ensures BigEndian(n % Pow256(k), k) == BigEndian(n, k)
  {
    if k > 0 {
      DropHighDigits(n, Pow256(k - 1));
      BigEndianWraps(n / 256, k - 1);
      BigEndianSnoc(n, k - 1);
      BigEndianSnoc(n % Pow256(k), k - 1);
    }
  }

  lemma DropHighDigits(n: nat, p: nat)
    requires p > 0
    ensures n % (256 * p) / 256 == n / 256 % p
    ensures n % (256 * p) % 256 == n % 256
  {
    var q, r := n / 256 / p, n / 256 % p;
    assert n / 256 == q * p + r;
    assert 256 * (q * p) == q * (256 * p);
    Remainder(n, 256 * p, q, 256 * r + n % 256);
  }

  lemma Pow256Values()
    ensures Pow256(1) == 0x100 && Pow256(2) == 0x1_0000
    ensures Pow256(4) == 0x1_0000_0000 && Pow256(8) == 0x1_0000_0000_0000_0000
  {
  }

  lemma Reassociate<T>(a: seq<T>, b: seq<T>, c: seq<T>)
    ensures a + (b + c) == (a + b) + c
  {
  }

  lemma TakeDrop<T>(s: seq<T>, n: nat)
    requires n <= |s|
    ensures s == s[..n] + s[n..]
  {
  }

  /** Taking the next `n` items of a batch behind those taken before. */
  lemma TakeMore<T>(s: seq<T>, batch: seq<T>, i: nat, n: nat)
    requires i + n <= |batch|
    ensures (s + batch[..i]) + batch[i..i + n] == s + batch[..i + n]
  {
    assert batch[..i] + batch[i..i + n] == batch[..i + n];
  }

  /** Moving the next `n` items from the front of what is left to the end of what is done. */
  lemma Advance<T>(done: seq<T>, todo: seq<T>, k: nat, n: nat)
    requires k + n <= |todo|
    ensures (done + todo[..k]) + todo[k..][..n] == done + todo[..k + n]
    ensures todo[k..][n..] == todo[k + n..]
  {
    assert todo[..k] + todo[k..][..n] == todo[..k + n];
  }

  /** How many items come before the first that is not `good`. */
  function Leading<T>(items: seq<T>, good: T -> bool): (k: nat)
    ensures k <= |items|
    ensures forall i :: 0 <= i < k ==> good(items[i])
    ensures k < |items| ==> !good(items[k])
  {
    if items == [] || !good(items[0]) then 0 else 1 + Leading(items[1..], good)
  }

  /** `picked` are exactly those of the `items` that `bs` marks, in order, each once; `ks` are their places. */
  ghost predicate Selects<T>(ks: seq<nat>, bs: seq<bool>, items: seq<T>, picked: seq<T>) {
    && |bs| == |items| && |ks| == |picked|
    && (forall i :: 0 <= i < |ks| ==> ks[i] < |items| && bs[ks[i]] && picked[i] == items[ks[i]])
    && (forall i, j :: 0 <= i < j < |ks| ==> ks[i] < ks[j])
    && (forall k :: 0 <= k < |bs| && bs[k] ==> k in ks)
  }

  lemma SelectsNothing<T>()
    ensures Selects<T>([], [], [], [])
  {
  }

  lemma SelectsMore<T>(ks: seq<nat>, bs: seq<bool>, items: seq<T>, picked: seq<T>, b: bool, x: T)
    requires Selects(ks, bs, items, picked)
    ensures Selects(if b then ks + [|items|] else ks, bs + [b], items + [x], picked + if b then [x] else [])
  {
    var more := ks + [|items|];
    assert more[|ks|] == |items|;
    forall k | 0 <= k < |bs| && bs[k]
      ensures k in more
    {
      assert k in ks;
    }
  }

  /** All the pieces of a stream, one after the other. */
  function Concat<T>(pieces: seq<seq<T>>): (whole: seq<T>)
  {
    if pieces == [] then [] else pieces[0] + Concat(pieces[1..])
  }

  lemma {:induction false} ConcatSnoc<T>(pieces: seq<seq<T>>, last: seq<T>)
    ensures Concat(pieces + [last]) == Concat(pieces) + last
  {
    if pieces == [] {
      assert [last][1..] == [];
    } else {
      assert (pieces + [last])[1..] == pieces[1..] + [last];
      ConcatSnoc(pieces[1..], last);
    }
  }

  lemma ConcatLast<T>(pieces: seq<seq<T>>)
    requires pieces != []
    ensures Concat(pieces) == Concat(pieces[..|pieces| - 1]) + pieces[|pieces| - 1]
  {
    ConcatSnoc(pieces[..|pieces| - 1], pieces[|pieces| - 1]);
    assert pieces == pieces[..|pieces| - 1] + [pieces[|pieces| - 1]];
  }

  lemma ConcatTake<T>(pieces: seq<seq<T>>, i: nat)
    requires i < |pieces|
    ensures Concat(pieces[..i + 1]) == Concat(pieces[..i]) + pieces[i]
  {
    ConcatSnoc(pieces[..i], pieces[i]);
    assert pieces[..i + 1] == pieces[..i] + [pieces[i]];
  }

  lemma ConcatAll<T>(pieces: seq<seq<T>>)
    ensures Concat(pieces[..|pieces|]) == Concat(pieces)
  {
    assert pieces[..|pieces|] == pieces;
  }
}
