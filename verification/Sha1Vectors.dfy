/** Digests that the standards print: "abc" of RFC 3174 section 7.3, the sample handshake of RFC 6455 section 1.3. */
module Sha1Vectors {
  import opened Bytes
  import opened Sha1s
  import opened Sha1Laws
  import Base64
  import Handshake

  // ---------------------------------------------------------------- running the rounds

  /** Ten words of the schedule in a row. */
  ghost predicate Ten(block: seq<byte>, t: nat, a: bv32, b: bv32, c: bv32, d: bv32, e: bv32, f: bv32, g: bv32, h: bv32, i: bv32, j: bv32)
    requires |block| == 64 && t + 10 <= 80
  {
    && Schedule(block, t) == a && Schedule(block, t + 1) == b && Schedule(block, t + 2) == c && Schedule(block, t + 3) == d
    && Schedule(block, t + 4) == e && Schedule(block, t + 5) == f && Schedule(block, t + 6) == g && Schedule(block, t + 7) == h
    && Schedule(block, t + 8) == i && Schedule(block, t + 9) == j
  }

  /** Eight words of a block in a row. */
  ghost predicate Eight(block: seq<byte>, t: nat, a: bv32, b: bv32, c: bv32, d: bv32, e: bv32, f: bv32, g: bv32, h: bv32)
    requires |block| == 64 && t + 8 <= 16
  {
    && WordAt(block, t) == a && WordAt(block, t + 1) == b && WordAt(block, t + 2) == c && WordAt(block, t + 3) == d
    && WordAt(block, t + 4) == e && WordAt(block, t + 5) == f && WordAt(block, t + 6) == g && WordAt(block, t + 7) == h
  }

  lemma TenRounds(block: seq<byte>, t: nat, h: Words)
    requires |block| == 64 && t + 10 <= 80
    ensures var two := RoundStep(t + 1, RoundStep(t, Rounds(block, t, h), Schedule(block, t)), Schedule(block, t + 1));
      var four := RoundStep(t + 3, RoundStep(t + 2, two, Schedule(block, t + 2)), Schedule(block, t + 3));
      var six := RoundStep(t + 5, RoundStep(t + 4, four, Schedule(block, t + 4)), Schedule(block, t + 5));
      var eight := RoundStep(t + 7, RoundStep(t + 6, six, Schedule(block, t + 6)), Schedule(block, t + 7));
      Rounds(block, t + 10, h) == RoundStep(t + 9, RoundStep(t + 8, eight, Schedule(block, t + 8)), Schedule(block, t + 9))
  {
    hide RoundStep, Schedule;
    RoundsStep(block, t, h);
    RoundsStep(block, t + 1, h);
    RoundsStep(block, t + 2, h);
    RoundsStep(block, t + 3, h);
    RoundsStep(block, t + 4, h);
    RoundsStep(block, t + 5, h);
    RoundsStep(block, t + 6, h);
    RoundsStep(block, t + 7, h);
    RoundsStep(block, t + 8, h);
    RoundsStep(block, t + 9, h);
  }

  // ---------------------------------------------------------------- the words of a padded text

  lemma PadParts(m: seq<byte>)
    ensures var z := (55 - |m|) % 64;
      && |Pad(m)| == |m| + z + 9 && Pad(m)[..|m|] == m && Pad(m)[|m|] == 0x80
      && (forall i :: |m| < i <= |m| + z ==> Pad(m)[i] == 0)
      && Pad(m)[|m| + z + 1..] == BigEndian(8 * |m|, 8)
  {
  }

  lemma SmallNumber(n: nat)
    requires n < 0x1_0000
    ensures BigEndian(n, 8) == [0, 0, 0, 0, 0, 0, (n / 256) as byte, (n % 256) as byte]
  {
    assert ShiftBytes(n, 0) == n && ShiftBytes(n, 1) == n / 256 && ShiftBytes(n, 2) == 0 && ShiftBytes(n, 3) == 0;
    assert ShiftBytes(n, 4) == 0 && ShiftBytes(n, 5) == 0 && ShiftBytes(n, 6) == 0 && ShiftBytes(n, 7) == 0;
  }

  lemma SubSlice(s: seq<byte>, from: nat, to: nat, i: nat)
    requires from + i + 4 <= to <= |s|
    ensures s[from..to][i..i + 4] == s[from + i..from + i + 4]
  {
    FourBytes(s[from..to], i);
    FourBytes(s, from + i);
  }

  /** Four characters of a text. */
  predicate Holds(text: string, i: nat, four: string) {
    && i + 4 <= |text| && |four| == 4
    && text[i] == four[0] && text[i + 1] == four[1] && text[i + 2] == four[2] && text[i + 3] == four[3]
  }

  /** The word in which four characters of a text stand. */
  lemma TextWord(block: seq<byte>, t: nat, text: string, at: nat, i: nat, four: string, w: bv32)
    requires |block| == 64 && at + |text| <= 64 && block[at..at + |text|] == Ascii(text)
    requires Holds(text, i, four) && 4 * t == at + i && WordBytes(w) == Ascii(four)
    ensures WordAt(block, t) == w
  {
    hide WordBytes, WordAt;
    assert Ascii(text)[i..i + 4] == Ascii(four);
    SubSlice(block, at, at + |text|, i);
    WordOfBytes(block, t, w);
    assert WordAt(block, t) == w;
  }

  lemma ByteWord(block: seq<byte>, t: nat, w: bv32, a: byte, b: byte, c: byte, d: byte)
    requires |block| == 64 && 4 * t + 4 <= 64 && WordBytes(w) == [a, b, c, d]
    requires block[4 * t] == a && block[4 * t + 1] == b && block[4 * t + 2] == c && block[4 * t + 3] == d
    ensures WordAt(block, t) == w
  {
    hide WordBytes;
    WordOfBytes(block, t, w);
  }

  lemma ZeroWord()
    ensures WordBytes(0) == [0, 0, 0, 0]
  {
  }

  lemma ZeroWords(block: seq<byte>, from: nat, to: nat)
    requires |block| == 64 && from <= to <= 16 && forall i :: 4 * from <= i < 4 * to ==> block[i] == 0
    ensures forall t :: from <= t < to ==> WordAt(block, t) == 0
  {
    hide WordBytes, WordAt;
    ZeroWord();
    forall t | from <= t < to
      ensures WordAt(block, t) == 0
    {
      ByteWord(block, t, 0, 0, 0, 0, 0);
    }
  }

  // ---------------------------------------------------------------- "abc"

  // the one block of "abc", ten rounds at a time

  ghost predicate AbcBlock(block: seq<byte>)
    requires |block| == 64
  {
    && Eight(block, 0, 0x61626380, 0, 0, 0, 0, 0, 0, 0)
    && Eight(block, 8, 0, 0, 0, 0, 0, 0, 0, 0x00000018)
  }

  lemma Abc0(block: seq<byte>)
    requires |block| == 64 && AbcBlock(block)
    ensures Ten(block, 0, 0x61626380, 0, 0, 0, 0, 0, 0, 0, 0, 0)
    ensures Rounds(block, 10, Initial()) == Words(0x8351F929, 0x4B6AE328, 0x27A301F5, 0x664F8C30, 0x0FF1F290)
  {
    hide WordAt;
    TenRounds(block, 0, Initial());
  }

  lemma Abc1(block: seq<byte>)
    requires |block| == 64 && AbcBlock(block)
    ensures Ten(block, 10, 0, 0, 0, 0, 0, 0x00000018, 0xC2C4C700, 0, 0x00000030, 0x85898E01)
    ensures Rounds(block, 20, Initial()) == Words(0xFD9E1D7D, 0xDC64901D, 0x20AA99CA, 0xD3A49608, 0xC82F758B)
  {
    hide WordAt, Rounds;
    Abc0(block);
    TenRounds(block, 10, Initial());
  }

  lemma Abc2(block: seq<byte>)
    requires |block| == 64 && AbcBlock(block)
    ensures Ten(block, 20, 0, 0x00000060, 0x0B131C03, 0x00000030, 0x85898EC1, 0x16263806, 0, 0x00000180, 0x2C4C700C, 0x000000F0)
    ensures Rounds(block, 30, Initial()) == Words(0xC5FBAF5D, 0x8370B52E, 0xD2AA1365, 0x6F8D7EF5, 0x12104EE9)
  {
    hide WordAt, Rounds, AbcBlock;
    Abc0(block);
    Abc1(block);
    TenRounds(block, 20, Initial());
  }

  lemma Abc3(block: seq<byte>)
    requires |block| == 64 && AbcBlock(block)
    ensures Ten(block, 30, 0x93AFB507, 0x5898E048, 0x8E9A9202, 0x00000600, 0xB131C0F0, 0x16263BC6, 0x4EBED41E, 0x626380A1, 0x16263806, 0x000018C0)
    ensures Rounds(block, 40, Initial()) == Words(0x32DE1CBA, 0x4C986405, 0xF718E5CF, 0x03D447F6, 0xF72EEC32)
  {
    hide WordAt, Rounds, AbcBlock;
    Abc1(block);
    Abc2(block);
    TenRounds(block, 30, Initial());
  }

  lemma Abc4(block: seq<byte>)
    requires |block| == 64 && AbcBlock(block)
    ensures Ten(block, 40, 0xD2E138C4, 0x00000F00, 0x3AFB5079, 0x898E04E5, 0xE2BA3C2B, 0x000060C0, 0x053A37CD, 0x74458547, 0xDA9415ED, 0x26380A16)
    ensures Rounds(block, 50, Initial()) == Words(0x120731C5, 0xBAF39337, 0xAFAB40B2, 0x2806E11B, 0x8714787C)
  {
    hide WordAt, Rounds, AbcBlock;
    Abc2(block);
    Abc3(block);
    TenRounds(block, 40, Initial());
  }

  lemma Abc5(block: seq<byte>)
    requires |block| == 64 && AbcBlock(block)
    ensures Ten(block, 50, 0x626383A1, 0x4EBF54DE, 0x3835B44B, 0x0000F600, 0x1E84C7A3, 0x98E04D98, 0x651D16A0, 0x62658CA1, 0x458544D6, 0x44584CB7)
    ensures Rounds(block, 60, Initial()) == Words(0x3F52DE5A, 0x09D785FD, 0x3498BFD4, 0xF211824F, 0xD79915AB)
  {
    hide WordAt, Rounds, AbcBlock;
    Abc3(block);
    Abc4(block);
    TenRounds(block, 50, Initial());
  }

  lemma Abc6(block: seq<byte>)
    requires |block| == 64 && AbcBlock(block)
    ensures Ten(block, 60, 0x7BA06619, 0x6380AEA2, 0x0AE55269, 0x627B49A1, 0x7CD45C9D, 0x000F0000, 0xFB50753A, 0xEC6765E8, 0xBA3C2BE2, 0x0060C000)
    ensures Rounds(block, 70, Initial()) == Words(0x3F2588C2, 0x497093C0, 0xDE37534A, 0x030F7CAD, 0x4405957E)
  {
    hide WordAt, Rounds, AbcBlock;
    Abc4(block);
    Abc5(block);
    TenRounds(block, 60, Initial());
  }

  lemma Abc7(block: seq<byte>)
    requires |block| == 64 && AbcBlock(block)
    ensures Ten(block, 70, 0x3A37CD05, 0x458546F4, 0xB8599DD6, 0x380A1A26, 0x01E02203, 0xE7CC3456, 0xE6E60B69, 0x00F60A00, 0x5795EF4F, 0x822E0879)
    ensures Rounds(block, 80, Initial()) == Words(0x42541B35, 0x5738D5E1, 0x21834873, 0x681E6DF6, 0xD8FDF6AD)
  {
    hide WordAt, Rounds, AbcBlock;
    Abc5(block);
    Abc6(block);
    TenRounds(block, 70, Initial());
  }

  lemma AbcWord()
    ensures WordBytes(0x61626380) == [0x61, 0x62, 0x63, 0x80] && WordBytes(0x00000018) == [0, 0, 0, 0x18]
  {
  }

  lemma AbcPadded()
    ensures |Pad(Ascii("abc"))| == 64 && AbcBlock(Pad(Ascii("abc")))
  {
    hide Pad;
    var block := Pad(Ascii("abc"));
    PadParts(Ascii("abc"));
    SmallNumber(24);
    AbcBytes(block, block[..3], block[56..]);
    AbcWords(block);
  }

  lemma AbcBytes(block: seq<byte>, front: seq<byte>, back: seq<byte>)
    requires |block| == 64 && front == block[..3] && back == block[56..]
    requires front == Ascii("abc") && back == [0, 0, 0, 0, 0, 0, 0, 24]
    ensures block[0] == 0x61 && block[1] == 0x62 && block[2] == 0x63 && block[63] == 24
    ensures forall i :: 56 <= i < 63 ==> block[i] == 0
  {
    assert front[0] == block[0] && front[1] == block[1] && front[2] == block[2];
    assert forall i :: 56 <= i < 64 ==> back[i - 56] == block[i];
  }

  lemma AbcWords(block: seq<byte>)
    requires |block| == 64 && block[0] == 0x61 && block[1] == 0x62 && block[2] == 0x63 && block[3] == 0x80 && block[63] == 24
    requires forall i :: 4 <= i < 63 ==> block[i] == 0
    ensures AbcBlock(block)
  {
    hide WordBytes, WordAt;
    AbcWord();
    ByteWord(block, 0, 0x61626380, 0x61, 0x62, 0x63, 0x80);
    ZeroWords(block, 1, 15);
    ByteWord(block, 15, 0x00000018, 0, 0, 0, 0x18);
    assert AbcBlock(block);
  }

  lemma OneBlock(block: seq<byte>)
    requires |block| == 64
    ensures FoldBlocks(block) == AddWords(Initial(), Rounds(block, 80, Initial()))
  {
    hide Rounds;
    FoldSnoc([], block);
    assert [] + block == block;
  }

  lemma DigestOfOne(m: seq<byte>, w: Words)
    requires |Pad(m)| == 64 && Rounds(Pad(m), 80, Initial()) == w
    ensures Digest(m) == Output(AddWords(Initial(), w))
  {
    hide Rounds, Pad;
    OneBlock(Pad(m));
  }

  lemma AbcOutput()
    ensures Output(AddWords(Initial(), Words(0x42541B35, 0x5738D5E1, 0x21834873, 0x681E6DF6, 0xD8FDF6AD))) == ABC_DIGEST
  {
  }

  const ABC_DIGEST: seq<byte> := [0xA9, 0x99, 0x3E, 0x36, 0x47, 0x06, 0x81, 0x6A, 0xBA, 0x3E, 0x25, 0x71, 0x78, 0x50, 0xC2, 0x6C, 0x9C, 0xD0, 0xD8, 0x9D]

  /** The digest of "abc", as the standard prints it. */
  lemma DigestOfAbc()
    ensures Digest(Ascii("abc")) == ABC_DIGEST
  {
    hide *;
    AbcPadded();
    Abc7(Pad(Ascii("abc")));
    DigestOfOne(Ascii("abc"), Words(0x42541B35, 0x5738D5E1, 0x21834873, 0x681E6DF6, 0xD8FDF6AD));
    AbcOutput();
    assert Digest(Ascii("abc")) == ABC_DIGEST;
  }

  // ---------------------------------------------------------------- the sample of RFC 6455

  // the first block of the sample, ten rounds at a time

  ghost predicate FirstBlock(block: seq<byte>)
    requires |block| == 64
  {
    && Eight(block, 0, 0x6447686C, 0x49484E68, 0x62584273, 0x5A534275, 0x6232356A, 0x5A513D3D, 0x32353845, 0x41464135)
    && Eight(block, 8, 0x2D453931, 0x342D3437, 0x44412D39, 0x3543412D, 0x43354142, 0x30444338, 0x35423131, 0x80000000)
  }

  lemma First0(block: seq<byte>)
    requires |block| == 64 && FirstBlock(block)
    ensures Ten(block, 0, 0x6447686C, 0x49484E68, 0x62584273, 0x5A534275, 0x6232356A, 0x5A513D3D, 0x32353845, 0x41464135, 0x2D453931, 0x342D3437)
    ensures Rounds(block, 10, Initial()) == Words(0xFAAD2675, 0x32BEB05A, 0x4B833980, 0x1CD54FA1, 0x5CC82E5A)
  {
    hide WordAt;
    TenRounds(block, 0, Initial());
  }

  lemma First1(block: seq<byte>)
    requires |block| == 64 && FirstBlock(block)
    ensures Ten(block, 10, 0x44412D39, 0x3543412D, 0x43354142, 0x30444338, 0x35423131, 0x80000000, 0x363CA02C, 0x24E81236, 0x8856B441, 0x06FB3C92)
    ensures Rounds(block, 20, Initial()) == Words(0x091AB97C, 0x8DC510B6, 0xDFAECA5A, 0x75F6BD5D, 0x2801311A)
  {
    hide WordAt, Rounds;
    First0(block);
    TenRounds(block, 10, Initial());
  }

  lemma First2(block: seq<byte>)
    requires |block| == 64 && FirstBlock(block)
    ensures Ten(block, 20, 0x6FB4BCB6, 0x460B16E3, 0x599219AE, 0x35BF9369, 0x3267458E, 0xF828FD04, 0x753A96A7, 0x6336F612, 0xC3D66383, 0x06EB86F9)
    ensures Rounds(block, 30, Initial()) == Words(0x081B63E5, 0x1ABB1C37, 0x95C7DF60, 0x3BC04BC8, 0x1D22CE68)
  {
    hide WordAt, Rounds, FirstBlock;
    First0(block);
    First1(block);
    TenRounds(block, 20, Initial());
  }

  lemma First3(block: seq<byte>)
    requires |block| == 64 && FirstBlock(block)
    ensures Ten(block, 30, 0x73B4FD42, 0xA503C5B8, 0x15CDAE35, 0x531E5DC5, 0x6FB6B7D0, 0x6C16E4AC, 0x4DDD36BD, 0x35D36946, 0xE8AE8B9C, 0x4A933AD0)
    ensures Rounds(block, 40, Initial()) == Words(0x2BA2C83E, 0xD0869081, 0x1A1D8209, 0xD3334889, 0x2779E4F2)
  {
    hide WordAt, Rounds, FirstBlock;
    First1(block);
    First2(block);
    TenRounds(block, 30, Initial());
  }

  lemma First4(block: seq<byte>)
    requires |block| == 64 && FirstBlock(block)
    ensures Ten(block, 40, 0xCE8628B4, 0x415DBA9E, 0x2792F049, 0x8E9B79E7, 0x79C425C5, 0x6353B49D, 0x00994218, 0x8A950ED1, 0xAF5D0B99, 0xFD9883DE)
    ensures Rounds(block, 50, Initial()) == Words(0x065F8486, 0x7510D04F, 0xAAF85D22, 0x37B92DEA, 0x5CBFCCD3)
  {
    hide WordAt, Rounds, FirstBlock;
    First2(block);
    First3(block);
    TenRounds(block, 40, Initial());
  }

  lemma First5(block: seq<byte>)
    requires |block| == 64 && FirstBlock(block)
    ensures Ten(block, 50, 0x1ED8FFEB, 0xF007FF28, 0x425E3674, 0x059631C0, 0xAD6C3C31, 0x860B71D7, 0x87BFC548, 0x3E64F92D, 0x8D0AB761, 0x34E1EE35)
    ensures Rounds(block, 60, Initial()) == Words(0x4872D85A, 0xD284F163, 0x83091F0B, 0x1BBDBFBD, 0x9F8490BC)
  {
    hide WordAt, Rounds, FirstBlock;
    First3(block);
    First4(block);
    TenRounds(block, 50, Initial());
  }

  lemma First6(block: seq<byte>)
    requires |block| == 64 && FirstBlock(block)
    ensures Ten(block, 60, 0x0ACF5108, 0xC2B479DA, 0x6C93370A, 0xF7935BA1, 0xE91C91C1, 0xBED165A2, 0x4C3E4ABE, 0x50D96238, 0xB6587DDE, 0x1A2EE6E6)
    ensures Rounds(block, 70, Initial()) == Words(0x07381B7E, 0x966E049A, 0x33E1963B, 0x14C4C690, 0xF0F0B916)
  {
    hide WordAt, Rounds, FirstBlock;
    First4(block);
    First5(block);
    TenRounds(block, 60, Initial());
  }

  lemma First7(block: seq<byte>)
    requires |block| == 64 && FirstBlock(block)
    ensures Ten(block, 70, 0x2D335896, 0xF3495D0B, 0xF30E0A1D, 0x32CE5459, 0x7165E3B8, 0xAB05FF94, 0xC5949F0B, 0xBCD84E4A, 0x07720392, 0xFF3FF806)
    ensures Rounds(block, 80, Initial()) == Words(0xF48A5426, 0x835995E1, 0x25C11EFB, 0x4A45C402, 0x9A73C2F2)
  {
    hide WordAt, Rounds, FirstBlock;
    First5(block);
    First6(block);
    TenRounds(block, 70, Initial());
  }

  /** The chaining value between the two blocks of the sample. */
  const MIDDLE: Words := Words(0x5BCF7727, 0x7327416A, 0xBE7BFBF9, 0x5A781878, 0x5E46A4E2)

  // the second block of the sample, ten rounds at a time

  ghost predicate SecondBlock(block: seq<byte>)
    requires |block| == 64
  {
    && Eight(block, 0, 0, 0, 0, 0, 0, 0, 0, 0)
    && Eight(block, 8, 0, 0, 0, 0, 0, 0, 0, 0x000001E0)
  }

  lemma Second0(block: seq<byte>)
    requires |block| == 64 && SecondBlock(block)
    ensures Ten(block, 0, 0, 0, 0, 0, 0, 0, 0, 0, 0, 0)
    ensures Rounds(block, 10, MIDDLE) == Words(0x0B0814C3, 0x80946593, 0x8970062F, 0xACEEF2BF, 0xE4E97BEE)
  {
    hide WordAt;
    TenRounds(block, 0, MIDDLE);
  }

  lemma Second1(block: seq<byte>)
    requires |block| == 64 && SecondBlock(block)
    ensures Ten(block, 10, 0, 0, 0, 0, 0, 0x000001E0, 0, 0, 0x000003C0, 0)
    ensures Rounds(block, 20, MIDDLE) == Words(0x2A008B51, 0x2F193A09, 0x9C8663C1, 0x8EB5D103, 0x261B7C9A)
  {
    hide WordAt, Rounds;
    Second0(block);
    TenRounds(block, 10, MIDDLE);
  }

  lemma Second2(block: seq<byte>)
    requires |block| == 64 && SecondBlock(block)
    ensures Ten(block, 20, 0, 0x00000780, 0, 0x000003C0, 0x00000F00, 0, 0, 0x00001E00, 0, 0x00000CC0)
    ensures Rounds(block, 30, MIDDLE) == Words(0x243EE057, 0xF57CB53E, 0xE4C9F7DB, 0xB4B9C9B6, 0x591B19DF)
  {
    hide WordAt, Rounds, SecondBlock;
    Second0(block);
    Second1(block);
    TenRounds(block, 20, MIDDLE);
  }

  lemma Second3(block: seq<byte>)
    requires |block| == 64 && SecondBlock(block)
    ensures Ten(block, 30, 0x00003C00, 0x00000440, 0, 0x00007800, 0x00000F00, 0x00003300, 0x0000F000, 0x00000F00, 0, 0x0001EF00)
    ensures Rounds(block, 40, MIDDLE) == Words(0x6F698F1A, 0xC6FF0CD3, 0xDE5AB7BC, 0x5F6F3CBB, 0x1DA48A85)
  {
    hide WordAt, Rounds, SecondBlock;
    Second1(block);
    Second2(block);
    TenRounds(block, 30, MIDDLE);
  }

  lemma Second4(block: seq<byte>)
    requires |block| == 64 && SecondBlock(block)
    ensures Ten(block, 40, 0, 0x0000CC00, 0x0003C000, 0x00004380, 0, 0x00078F00, 0x0000FF00, 0x00032680, 0x000F0000, 0x0000F000)
    ensures Rounds(block, 50, MIDDLE) == Words(0xA516F265, 0xA39F2041, 0xA8FBE15F, 0xB23368F6, 0xCEF6480E)
  {
    hide WordAt, Rounds, SecondBlock;
    Second2(block);
    Second3(block);
    TenRounds(block, 40, MIDDLE);
  }

  lemma Second5(block: seq<byte>)
    requires |block| == 64 && SecondBlock(block)
    ensures Ten(block, 50, 0x00003300, 0x001EFF00, 0, 0x000CB800, 0x003C0000, 0x00040B00, 0x0000F000, 0x0078FF00, 0x000FF000, 0x00338700)
    ensures Rounds(block, 60, MIDDLE) == Words(0x56119F19, 0x085EB2FE, 0x484A25C5, 0xC140CFE8, 0x686DA050)
  {
    hide WordAt, Rounds, SecondBlock;
    Second3(block);
    Second4(block);
    TenRounds(block, 50, MIDDLE);
  }

  lemma Second6(block: seq<byte>)
    requires |block| == 64 && SecondBlock(block)
    ensures Ten(block, 60, 0x00F00000, 0x000FC300, 0x0000F000, 0x01EFBB00, 0, 0x00CC0000, 0x03C0F000, 0x00438000, 0, 0x078F0000)
    ensures Rounds(block, 70, MIDDLE) == Words(0xBF3A7F95, 0x4E363DB9, 0x025E9447, 0x325FC65A, 0xC5E88BBD)
  {
    hide WordAt, Rounds, SecondBlock;
    Second4(block);
    Second5(block);
    TenRounds(block, 60, MIDDLE);
  }

  lemma Second7(block: seq<byte>)
    requires |block| == 64 && SecondBlock(block)
    ensures Ten(block, 70, 0x00FF0000, 0x03269E00, 0x0F000000, 0x00F0F000, 0x00333C00, 0x1EFF8800, 0, 0x0CB88800, 0x3C00F000, 0x040A4A00)
    ensures Rounds(block, 80, MIDDLE) == Words(0x57AAD805, 0x4D3B0DAC, 0xD27A4A0D, 0x74C040CD, 0x54782008)
  {
    hide WordAt, Rounds, SecondBlock;
    Second5(block);
    Second6(block);
    TenRounds(block, 70, MIDDLE);
  }

  const SAMPLE_KEY := "dGhlIHNhbXBsZSBub25jZQ=="

  lemma KeyText0()
    ensures Holds(SAMPLE_KEY, 0, "dGhl") && Holds(SAMPLE_KEY, 4, "IHNh") && Holds(SAMPLE_KEY, 8, "bXBs")
  {
  }

  lemma KeyBytes0()
    ensures WordBytes(0x6447686C) == Ascii("dGhl") && WordBytes(0x49484E68) == Ascii("IHNh") && WordBytes(0x62584273) == Ascii("bXBs")
  {
  }

  lemma KeyWords0(block: seq<byte>)
    requires |block| == 64 && block[0..24] == Ascii(SAMPLE_KEY)
    ensures WordAt(block, 0) == 0x6447686C && WordAt(block, 1) == 0x49484E68 && WordAt(block, 2) == 0x62584273
  {
    hide *;
    KeyText0();
    KeyBytes0();
    TextWord(block, 0, SAMPLE_KEY, 0, 0, "dGhl", 0x6447686C);
    TextWord(block, 1, SAMPLE_KEY, 0, 4, "IHNh", 0x49484E68);
    TextWord(block, 2, SAMPLE_KEY, 0, 8, "bXBs", 0x62584273);
    assert WordAt(block, 0) == 0x6447686C && WordAt(block, 1) == 0x49484E68 && WordAt(block, 2) == 0x62584273;
  }

  lemma KeyText1()
    ensures Holds(SAMPLE_KEY, 12, "ZSBu") && Holds(SAMPLE_KEY, 16, "b25j") && Holds(SAMPLE_KEY, 20, "ZQ==")
  {
  }

  lemma KeyBytes1()
    ensures WordBytes(0x5A534275) == Ascii("ZSBu") && WordBytes(0x6232356A) == Ascii("b25j") && WordBytes(0x5A513D3D) == Ascii("ZQ==")
  {
  }

  lemma KeyWords1(block: seq<byte>)
    requires |block| == 64 && block[0..24] == Ascii(SAMPLE_KEY)
    ensures WordAt(block, 3) == 0x5A534275 && WordAt(block, 4) == 0x6232356A && WordAt(block, 5) == 0x5A513D3D
  {
    hide *;
    KeyText1();
    KeyBytes1();
    TextWord(block, 3, SAMPLE_KEY, 0, 12, "ZSBu", 0x5A534275);
    TextWord(block, 4, SAMPLE_KEY, 0, 16, "b25j", 0x6232356A);
    TextWord(block, 5, SAMPLE_KEY, 0, 20, "ZQ==", 0x5A513D3D);
    assert WordAt(block, 3) == 0x5A534275 && WordAt(block, 4) == 0x6232356A && WordAt(block, 5) == 0x5A513D3D;
  }

  lemma GuidText0()
    ensures Holds(Handshake.MAGIC_GUID, 0, "258E") && Holds(Handshake.MAGIC_GUID, 4, "AFA5") && Holds(Handshake.MAGIC_GUID, 8, "-E91")
  {
  }

  lemma GuidBytes0()
    ensures WordBytes(0x32353845) == Ascii("258E") && WordBytes(0x41464135) == Ascii("AFA5") && WordBytes(0x2D453931) == Ascii("-E91")
  {
  }

  lemma GuidWords0(block: seq<byte>)
    requires |block| == 64 && block[24..60] == Ascii(Handshake.MAGIC_GUID)
    ensures WordAt(block, 6) == 0x32353845 && WordAt(block, 7) == 0x41464135 && WordAt(block, 8) == 0x2D453931
  {
    hide *;
    GuidText0();
    GuidBytes0();
    TextWord(block, 6, Handshake.MAGIC_GUID, 24, 0, "258E", 0x32353845);
    TextWord(block, 7, Handshake.MAGIC_GUID, 24, 4, "AFA5", 0x41464135);
    TextWord(block, 8, Handshake.MAGIC_GUID, 24, 8, "-E91", 0x2D453931);
    assert WordAt(block, 6) == 0x32353845 && WordAt(block, 7) == 0x41464135 && WordAt(block, 8) == 0x2D453931;
  }

  lemma GuidText1()
    ensures Holds(Handshake.MAGIC_GUID, 12, "4-47") && Holds(Handshake.MAGIC_GUID, 16, "DA-9") && Holds(Handshake.MAGIC_GUID, 20, "5CA-")
  {
  }

  lemma GuidBytes1()
    ensures WordBytes(0x342D3437) == Ascii("4-47") && WordBytes(0x44412D39) == Ascii("DA-9") && WordBytes(0x3543412D) == Ascii("5CA-")
  {
  }

  lemma GuidWords1(block: seq<byte>)
    requires |block| == 64 && block[24..60] == Ascii(Handshake.MAGIC_GUID)
    ensures WordAt(block, 9) == 0x342D3437 && WordAt(block, 10) == 0x44412D39 && WordAt(block, 11) == 0x3543412D
  {
    hide *;
    GuidText1();
    GuidBytes1();
    TextWord(block, 9, Handshake.MAGIC_GUID, 24, 12, "4-47", 0x342D3437);
    TextWord(block, 10, Handshake.MAGIC_GUID, 24, 16, "DA-9", 0x44412D39);
    TextWord(block, 11, Handshake.MAGIC_GUID, 24, 20, "5CA-", 0x3543412D);
    assert WordAt(block, 9) == 0x342D3437 && WordAt(block, 10) == 0x44412D39 && WordAt(block, 11) == 0x3543412D;
  }

  lemma GuidText2()
    ensures Holds(Handshake.MAGIC_GUID, 24, "C5AB") && Holds(Handshake.MAGIC_GUID, 28, "0DC8") && Holds(Handshake.MAGIC_GUID, 32, "5B11")
  {
  }

  lemma GuidBytes2()
    ensures WordBytes(0x43354142) == Ascii("C5AB") && WordBytes(0x30444338) == Ascii("0DC8") && WordBytes(0x35423131) == Ascii("5B11")
  {
  }

  lemma GuidWords2(block: seq<byte>)
    requires |block| == 64 && block[24..60] == Ascii(Handshake.MAGIC_GUID)
    ensures WordAt(block, 12) == 0x43354142 && WordAt(block, 13) == 0x30444338 && WordAt(block, 14) == 0x35423131
  {
    hide *;
    GuidText2();
    GuidBytes2();
    TextWord(block, 12, Handshake.MAGIC_GUID, 24, 24, "C5AB", 0x43354142);
    TextWord(block, 13, Handshake.MAGIC_GUID, 24, 28, "0DC8", 0x30444338);
    TextWord(block, 14, Handshake.MAGIC_GUID, 24, 32, "5B11", 0x35423131);
    assert WordAt(block, 12) == 0x43354142 && WordAt(block, 13) == 0x30444338 && WordAt(block, 14) == 0x35423131;
  }

  lemma SamplePadded()
    ensures var p := Pad(Handshake.Combined(Ascii(SAMPLE_KEY)));
      |p| == 128 && FirstBlock(p[..64]) && SecondBlock(p[64..])
  {
    hide Pad, FirstBlock, SecondBlock;
    var m := Handshake.Combined(Ascii(SAMPLE_KEY));
    PadParts(m);
    SmallNumber(480);
    SampleFirst(Pad(m)[..64], m);
    SampleSecond(Pad(m)[64..], Pad(m)[120..]);
  }

  lemma SampleFirst(block: seq<byte>, m: seq<byte>)
    requires |block| == 64 && m == Handshake.Combined(Ascii(SAMPLE_KEY)) && block[..60] == m
    requires block[60] == 0x80 && block[61] == 0 && block[62] == 0 && block[63] == 0
    ensures FirstBlock(block)
  {
    hide WordBytes, WordAt;
    assert block[0..24] == block[..60][..24] == Ascii(SAMPLE_KEY);
    assert block[24..60] == block[..60][24..] == Ascii(Handshake.MAGIC_GUID);
    KeyWords0(block);
    KeyWords1(block);
    GuidWords0(block);
    GuidWords1(block);
    GuidWords2(block);
    LastWord();
    ByteWord(block, 15, 0x80000000, 0x80, 0, 0, 0);
    assert FirstBlock(block);
  }

  lemma LastWord()
    ensures WordBytes(0x80000000) == [0x80, 0, 0, 0] && WordBytes(0x000001E0) == [0, 0, 1, 0xE0]
  {
  }

  lemma SampleSecond(block: seq<byte>, back: seq<byte>)
    requires |block| == 64 && back == block[56..] == [0, 0, 0, 0, 0, 0, 1, 0xE0]
    requires forall i :: 0 <= i < 56 ==> block[i] == 0
    ensures SecondBlock(block)
  {
    hide WordBytes, WordAt;
    assert forall i :: 56 <= i < 64 ==> back[i - 56] == block[i];
    ZeroWords(block, 0, 15);
    LastWord();
    ByteWord(block, 15, 0x000001E0, 0, 0, 1, 0xE0);
    assert SecondBlock(block);
  }

  lemma TwoBlocks(p: seq<byte>)
    requires |p| == 128
    ensures FoldBlocks(p) == Compress(Compress(Initial(), p[..64]), p[64..])
  {
    hide Compress;
    FoldSnoc([], p[..64]);
    FoldSnoc(p[..64], p[64..]);
    assert [] + p[..64] == p[..64] && p == p[..64] + p[64..];
  }

  lemma DigestOfTwo(m: seq<byte>, w: Words, mid: Words, v: Words)
    requires |Pad(m)| == 128 && Rounds(Pad(m)[..64], 80, Initial()) == w
    requires mid == AddWords(Initial(), w) && Rounds(Pad(m)[64..], 80, mid) == v
    ensures Digest(m) == Output(AddWords(mid, v))
  {
    hide Rounds, Pad;
    TwoBlocks(Pad(m));
  }

  const SAMPLE_DIGEST: seq<byte> := [0xB3, 0x7A, 0x4F, 0x2C, 0xC0, 0x62, 0x4F, 0x16, 0x90, 0xF6, 0x46, 0x06, 0xCF, 0x38, 0x59, 0x45, 0xB2, 0xBE, 0xC4, 0xEA]

  lemma SampleOutput()
    ensures AddWords(Initial(), Words(0xF48A5426, 0x835995E1, 0x25C11EFB, 0x4A45C402, 0x9A73C2F2)) == MIDDLE
    ensures Output(AddWords(MIDDLE, Words(0x57AAD805, 0x4D3B0DAC, 0xD27A4A0D, 0x74C040CD, 0x54782008))) == SAMPLE_DIGEST
  {
  }

  /** The digest of the sample key and the GUID, as the standard prints it. */
  lemma DigestOfSample()
    ensures Digest(Handshake.Combined(Ascii(SAMPLE_KEY))) == SAMPLE_DIGEST
  {
    hide *;
    var m := Handshake.Combined(Ascii(SAMPLE_KEY));
    SamplePadded();
    First7(Pad(m)[..64]);
    Second7(Pad(m)[64..]);
    SampleOutput();
    DigestOfTwo(m, Words(0xF48A5426, 0x835995E1, 0x25C11EFB, 0x4A45C402, 0x9A73C2F2), MIDDLE,
      Words(0x57AAD805, 0x4D3B0DAC, 0xD27A4A0D, 0x74C040CD, 0x54782008));
    assert Digest(Handshake.Combined(Ascii(SAMPLE_KEY))) == SAMPLE_DIGEST;
  }

  // ---------------------------------------------------------------- the accept key of the sample

  lemma SampleFront()
    ensures var d := SAMPLE_DIGEST;
      && Base64.Encode(d[0..]) == "s3pP" + Base64.Encode(d[3..])
      && Base64.Encode(d[3..]) == "LMBi" + Base64.Encode(d[6..])
  {
    hide Base64.Encode;
    Base64.GroupSpelt(SAMPLE_DIGEST, 0, 0xB3, 0x7A, 0x4F, "s3pP");
    Base64.GroupSpelt(SAMPLE_DIGEST, 3, 0x2C, 0xC0, 0x62, "LMBi");
  }

  lemma SampleMiddle()
    ensures var d := SAMPLE_DIGEST;
      && Base64.Encode(d[6..]) == "TxaQ" + Base64.Encode(d[9..])
      && Base64.Encode(d[9..]) == "9kYG" + Base64.Encode(d[12..])
  {
    hide Base64.Encode;
    Base64.GroupSpelt(SAMPLE_DIGEST, 6, 0x4F, 0x16, 0x90, "TxaQ");
    Base64.GroupSpelt(SAMPLE_DIGEST, 9, 0xF6, 0x46, 0x06, "9kYG");
  }

  lemma SampleLater()
    ensures var d := SAMPLE_DIGEST;
      && Base64.Encode(d[12..]) == "zzhZ" + Base64.Encode(d[15..])
      && Base64.Encode(d[15..]) == "RbK+" + Base64.Encode(d[18..])
  {
    hide Base64.Encode;
    Base64.GroupSpelt(SAMPLE_DIGEST, 12, 0xCF, 0x38, 0x59, "zzhZ");
    Base64.GroupSpelt(SAMPLE_DIGEST, 15, 0x45, 0xB2, 0xBE, "RbK+");
  }

  lemma SampleBack()
    ensures Base64.Encode(SAMPLE_DIGEST[18..]) == "xOo" + "="
  {
    Base64.PairSpelt(SAMPLE_DIGEST, 18, 0xC4, 0xEA, "xOo");
  }

  lemma SampleText()
    ensures "s3pP" + ("LMBi" + ("TxaQ" + ("9kYG" + ("zzhZ" + ("RbK+" + ("xOo" + "=")))))) == "s3pPLMBiTxaQ9kYGzzhZRbK+xOo="
  {
  }

  lemma SampleEncoded()
    ensures Base64.Encode(SAMPLE_DIGEST) == "s3pPLMBiTxaQ9kYGzzhZRbK+xOo="
  {
    hide *;
    SampleFront();
    SampleMiddle();
    SampleLater();
    SampleBack();
    SampleText();
    WholeSlice(SAMPLE_DIGEST);
    assert Base64.Encode(SAMPLE_DIGEST) == "s3pPLMBiTxaQ9kYGzzhZRbK+xOo=";
  }

  lemma WholeSlice(s: seq<byte>)
    ensures s[0..] == s
  {
  }

  /** What the server answers to the sample key, as the standard prints it. */
  method SampleAccepted() returns (accept: string)
    ensures accept == "s3pPLMBiTxaQ9kYGzzhZRbK+xOo="
  {
    hide Base64.Encode, Digest, Handshake.Combined;
    DigestOfSample();
    SampleEncoded();
    accept := Handshake.ComputeAcceptKey(Ascii(SAMPLE_KEY));
  }
}
