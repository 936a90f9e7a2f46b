/** What RFC 6455 framing is for: every frame survives the wire, and the decoder accepts nothing else. */
module WsFrameLaws {
  import opened Bytes
  import opened WsFrame

  // ---------------------------------------------------------------- decoder and wire format agree

  /** The second byte of a frame tells the length form, and the bytes after it the length. */
  lemma LengthBytesRead(form: LengthForm, len: nat, masked: bool)
    requires Fits(form, len)
    ensures var s := LengthBytes(form, len, masked);
      && |s| >= 1 && |s| == 1 + ExtendedBytes(s[0])
      && TopBit(s[0]) == masked
      && len == (if form.Short? then Length7(s[0]) else FromBigEndian(s[1..]))
      && (form.Short? <==> ExtendedBytes(s[0]) == 0)
  {
    var s := LengthBytes(form, len, masked);
    Pow256Values();
    if form.Medium? {
      BigEndianRoundTrip(len, 2);
      assert s[1..] == BigEndian(len, 2);
    } else if form.Long? {
      BigEndianRoundTrip(len, 8);
      assert s[1..] == BigEndian(len, 8);
    }
  }

  lemma MaskTwice(payload: seq<byte>, key: seq<byte>)
    requires key == [] || |key| == 4
    ensures Mask(Mask(payload, key), key) == payload
  {
    forall i | 0 <= i < |payload| && key != []
      ensures Mask(Mask(payload, key), key)[i] == payload[i]
    {
      XorTwice(payload[i], key[i % 4]);
    }
  }

  lemma PartsLayout(first: byte, len: seq<byte>, key: seq<byte>, body: seq<byte>, rest: seq<byte>)
    requires |len| >= 1
    ensures var data := [first] + len + key + body + rest;
      var pos := 1 + |len| + |key|;
      && data[0] == first && data[1] == len[0]
      && data[2..1 + |len|] == len[1..] && data[1 + |len|..pos] == key && data[pos..pos + |body|] == body
  {
  }

  lemma FirstByteParts(fin: bool, opcode: byte)
    requires opcode < 16
    ensures var first := (if fin then 128 else 0) + opcode;
      Reserved(first) == 0 && TopBit(first) == fin && Opcode(first) == opcode
  {
  }

  /** Any frame, in any length form that fits, decodes back whatever follows it. */
  lemma WireDecodes(f: Frame, form: LengthForm, key: seq<byte>, wire: seq<byte>, rest: seq<byte>)
    requires WellFormed(f, form, key) && wire == Wire(f, form, key)
    ensures Decode(wire + rest, key != []) == Decoded(|wire|, f)
  {
    hide Decode, Mask, Reserved, TopBit, Opcode, ExtendedBytes, Length7;
    var len := LengthBytes(form, |f.payload|, key != []);
    FirstByteParts(f.fin, f.opcode);
    LengthBytesRead(form, |f.payload|, key != []);
    MaskTwice(f.payload, key);
    ShortIsOne(form, |f.payload|, key != []);
    WireFromParts(f, form, key, (if f.fin then 128 else 0) + f.opcode, len, Mask(f.payload, key));
    hide LengthBytes, Wire;
    PartsDecode((if f.fin then 128 else 0) + f.opcode, len, key, Mask(f.payload, key), rest);
    assert Decode(wire + rest, key != []) == Decoded(|wire|, f);
  }

  lemma ShortIsOne(form: LengthForm, len: nat, masked: bool)
    requires form.Short? ==> len < 126
    ensures |LengthBytes(form, len, masked)| == 1 <==> form.Short?
  {
  }

  lemma PartsDecode(first: byte, len: seq<byte>, key: seq<byte>, body: seq<byte>, rest: seq<byte>)
    requires |len| >= 1 && |len| == 1 + ExtendedBytes(len[0]) && TopBit(len[0]) == (key != [])
    requires |body| == if |len| == 1 then Length7(len[0]) else FromBigEndian(len[1..])
    requires Reserved(first) == 0 && (key == [] || |key| == 4)
    ensures Decode([first] + len + key + body + rest, key != [])
         == Decoded(1 + |len| + |key| + |body|, Frame(TopBit(first), Opcode(first), Mask(body, key)))
  {
    PartsLayout(first, len, key, body, rest);
    DecodeAt([first] + len + key + body + rest, key, body);
  }

  /** The decoder on a stream whose header asks for no more than there is. */
  lemma DecodeAt(data: seq<byte>, key: seq<byte>, body: seq<byte>)
    requires |data| >= 2 && Reserved(data[0]) == 0 && (key == [] || |key| == 4)
    requires |data| >= 2 + ExtendedBytes(data[1]) + |key| + |body|
    requires TopBit(data[1]) == (key != []) && PayloadLength(data) == |body|
    requires data[2 + ExtendedBytes(data[1])..2 + ExtendedBytes(data[1]) + |key|] == key
    requires data[2 + ExtendedBytes(data[1]) + |key|..2 + ExtendedBytes(data[1]) + |key| + |body|] == body
    ensures Decode(data, key != []) == Decoded(2 + ExtendedBytes(data[1]) + |key| + |body|,
      Frame(TopBit(data[0]), Opcode(data[0]), Mask(body, key)))
  {
  }

  /** The length form and the mask key of the frame at the front of `data`. */
  function FormOf(data: seq<byte>): LengthForm
    requires |data| >= 2
  {
    if ExtendedBytes(data[1]) == 0 then Short else if ExtendedBytes(data[1]) == 2 then Medium else Long
  }

  function KeyOf(data: seq<byte>, fromClient: bool): seq<byte>
    requires |data| >= 2 && |data| >= 2 + ExtendedBytes(data[1]) + if fromClient then 4 else 0
  {
    var pos := 2 + ExtendedBytes(data[1]);
    data[pos..pos + if fromClient then 4 else 0]
  }

  lemma LengthRead(data: seq<byte>)
    requires |data| >= 2 && |data| >= 2 + ExtendedBytes(data[1])
    ensures Fits(FormOf(data), PayloadLength(data))
    ensures LengthBytes(FormOf(data), PayloadLength(data), TopBit(data[1])) == data[1..2 + ExtendedBytes(data[1])]
  {
    var ext := ExtendedBytes(data[1]);
    Pow256Values();
    if ext != 0 {
      FromBigEndianBound(data[2..2 + ext]);
      FromBigEndianRoundTrip(data[2..2 + ext]);
      assert data[1..2 + ext] == [data[1]] + data[2..2 + ext];
    }
  }

  /** The first `n` bytes of `data` are `f` on the wire, with this length form and mask key. */
  ghost predicate WireAt(data: seq<byte>, fromClient: bool, n: nat, f: Frame, form: LengthForm, key: seq<byte>) {
    && WellFormed(f, form, key) && (key != []) == fromClient
    && n <= |data| && data[..n] == Wire(f, form, key)
  }

  lemma DecodedIsWire(data: seq<byte>, fromClient: bool)
    requires Decode(data, fromClient).Decoded?
    ensures var Decoded(n, f) := Decode(data, fromClient);
      WireAt(data, fromClient, n, f, FormOf(data), KeyOf(data, fromClient))
  {
    var Decoded(n, f) := Decode(data, fromClient);
    var key := KeyOf(data, fromClient);
    var pos := 2 + ExtendedBytes(data[1]) + |key|;
    LengthRead(data);
    MaskTwice(data[pos..n], key);
    WireFromParts(f, FormOf(data), key, data[0], data[1..2 + ExtendedBytes(data[1])], data[pos..n]);
    Pieces(data, 2 + ExtendedBytes(data[1]), pos, n);
  }

  lemma WireFromParts(f: Frame, form: LengthForm, key: seq<byte>, first: byte, len: seq<byte>, body: seq<byte>)
    requires WellFormed(f, form, key) && first == (if f.fin then 128 else 0) + f.opcode
    requires len == LengthBytes(form, |f.payload|, key != []) && body == Mask(f.payload, key)
    ensures Wire(f, form, key) == [first] + len + key + body
  {
  }

  lemma Pieces(data: seq<byte>, i: nat, j: nat, n: nat)
    requires 1 <= i <= j <= n <= |data|
    ensures data[..n] == [data[0]] + data[1..i] + data[i..j] + data[j..n]
  {
  }

  lemma WireAtDecodes(data: seq<byte>, fromClient: bool, n: nat, f: Frame, form: LengthForm, key: seq<byte>)
    requires WireAt(data, fromClient, n, f, form, key)
    ensures Decode(data, fromClient) == Decoded(n, f)
  {
    WireDecodes(f, form, key, data[..n], data[n..]);
    assert data == data[..n] + data[n..];
  }

  /**
   * The decoder accepts exactly the frames of RFC 6455 section 5.2: any FIN, any four-bit opcode, any of
   * the three length forms that is large enough, and for a server exactly the masked ones.
   */
  lemma DecodeIffWire(data: seq<byte>, fromClient: bool, n: nat, f: Frame)
    ensures Decode(data, fromClient) == Decoded(n, f) <==>
      exists form, key :: WireAt(data, fromClient, n, f, form, key)
  {
    if Decode(data, fromClient) == Decoded(n, f) {
      DecodedIsWire(data, fromClient);
    }
    forall form, key | WireAt(data, fromClient, n, f, form, key)
      ensures Decode(data, fromClient) == Decoded(n, f)
    {
      WireAtDecodes(data, fromClient, n, f, form, key);
    }
  }

  /**
   * The error verdict, in terms of the two header bytes: reserved bits, as soon as these two are there, or no
   * mask bit, once the bytes that extend the length are there.
   */
  lemma ErrorExactly(data: seq<byte>)
    ensures Decode(data, true).ProtocolError? <==>
      && |data| >= 2
      && (data[0] % 128 >= 16
        || (data[1] < 126 || (data[1] == 126 && |data| >= 4) || (data[1] == 127 && |data| >= 10)))
  {
  }

  /** Two that are refused at once: "Hello" without a mask, and a frame with a reserved bit. */
  lemma Refused()
    ensures Decode([0x81, 0x05, 0x48, 0x65, 0x6c, 0x6c, 0x6f], true) == ProtocolError
    ensures Decode([0xc1, 0x80], true) == ProtocolError
  {
  }

  /**
   * Whether waiting can be rewarded: a frame of the wire format can still arrive exactly if the reserved bits
   * and the mask bit, as far as they are there, are right. Otherwise the stream is broken, though the decoder
   * may not say so yet.
   */
  lemma CompletableExactly(data: seq<byte>)
    requires Decode(data, true).NeedMore?
    ensures (exists more :: Decode(data + more, true).Decoded?) <==>
      (data != [] ==> Reserved(data[0]) == 0) && (|data| >= 2 ==> TopBit(data[1]))
  {
    if (data != [] ==> Reserved(data[0]) == 0) && (|data| >= 2 ==> TopBit(data[1])) {
      var more := if |data| == 0 then [129, 128] + Zeros(WORD + 14) else if |data| == 1 then [128] + Zeros(WORD + 14) else Zeros(WORD + 14);
      var all := data + more;
      assert |all| >= WORD + 14 && Reserved(all[0]) == 0 && TopBit(all[1]);
      LengthIsWord(all);
      assert Decode(data + more, true).Decoded?;
    }
    forall more | Decode(data + more, true).Decoded?
      ensures (data != [] ==> Reserved(data[0]) == 0) && (|data| >= 2 ==> TopBit(data[1]))
    {
      assert forall i :: 0 <= i < |data| ==> (data + more)[i] == data[i];
    }
  }

  /** A frame that announces 2^64 - 1 bytes, 14 of which are there: `tryDecode` throws instead of waiting. */
  lemma AnOverflow()
    ensures Overflows([129, 255, 255, 255, 255, 255, 255, 255, 255, 255, 0, 0, 0, 0])
    ensures Decode([129, 255, 255, 255, 255, 255, 255, 255, 255, 255, 0, 0, 0, 0], true) == NeedMore
  {
    var data: seq<byte> := [129, 255, 255, 255, 255, 255, 255, 255, 255, 255, 0, 0, 0, 0];
    var len: seq<byte> := [255, 255, 255, 255, 255, 255, 255, 255];
    assert data[2..10] == len;
    AllOnes(len);
    Pow256Values();
    assert PayloadLength(data) == WORD - 1;
  }

  lemma {:induction false} AllOnes(s: seq<byte>)
    requires forall i :: 0 <= i < |s| ==> s[i] == 255
    ensures FromBigEndian(s) == Pow256(|s|) - 1
  {
    if s != [] {
      AllOnes(s[..|s| - 1]);
    }
  }

  // ---------------------------------------------------------------- round trip through a masking client

  /** What a client makes of a server frame: sets MASK, inserts its key, masks the payload. */
  function AsClient(srv: seq<byte>, key: seq<byte>): seq<byte>
    requires |key| == 4 && |srv| >= 2 && |srv| >= 2 + ExtendedBytes(srv[1])
  {
    var pos := 2 + ExtendedBytes(srv[1]);
    [srv[0], 128 + srv[1] % 128] + srv[2..pos] + key + Mask(srv[pos..], key)
  }

  lemma EncodeIsWire(opcode: byte, payload: seq<byte>)
    requires |payload| < 0x1_0000_0000_0000_0000
    ensures var f := Frame(true, opcode % 16, payload);
      && WellFormed(f, FormFor(|payload|), [])
      && Encode(opcode, payload) == Wire(f, FormFor(|payload|), [])
  {
    var len := LengthBytes(FormFor(|payload|), |payload|, false);
    assert [128 + opcode % 16] + len + [] + payload == [128 + opcode % 16] + len + payload;
  }

  lemma Splice(srv: seq<byte>, first: byte, len: seq<byte>, payload: seq<byte>, key: seq<byte>, x: byte, body: seq<byte>)
    requires |len| >= 1 && srv == [first] + len + payload
    ensures srv[0] == first && srv[1] == len[0] && srv[1 + |len|..] == payload
    ensures [first, x] + srv[2..1 + |len|] + key + body == [first] + ([x] + len[1..]) + key + body
  {
  }

  /**
   * Round trip: a server frame, masked by a client and followed by anything, decodes to FIN, the same
   * opcode and the same payload, and uses up exactly the four bytes of key more than was encoded.
   */
  lemma EncodeMaskDecode(opcode: byte, payload: seq<byte>, key: seq<byte>, rest: seq<byte>)
    requires opcode < 16 && |key| == 4 && |payload| < 0x1_0000_0000_0000_0000
    ensures var srv := Encode(opcode, payload);
      && |srv| >= 2 && |srv| >= 2 + ExtendedBytes(srv[1])
      && Decode(AsClient(srv, key) + rest, true) == Decoded(|srv| + 4, Frame(true, opcode, payload))
  {
    hide Decode, Encode, Wire, AsClient, ExtendedBytes;
    var form := FormFor(|payload|);
    var srv, f := Encode(opcode, payload), Frame(true, opcode, payload);
    MaskingGivesWire(opcode, payload, key, srv);
    WireDecodes(f, form, key, AsClient(srv, key), rest);
    assert Decode(AsClient(srv, key) + rest, true) == Decoded(|srv| + 4, f);
  }

  lemma MaskingGivesWire(opcode: byte, payload: seq<byte>, key: seq<byte>, srv: seq<byte>)
    requires opcode < 16 && |key| == 4 && |payload| < 0x1_0000_0000_0000_0000
    requires srv == Encode(opcode, payload)
    ensures |srv| >= 2 && |srv| >= 2 + ExtendedBytes(srv[1])
    ensures |AsClient(srv, key)| == |srv| + 4
    ensures AsClient(srv, key) == Wire(Frame(true, opcode, payload), FormFor(|payload|), key)
  {
    hide *;
    var form := FormFor(|payload|);
    FormFits(opcode, payload, key);
    var len, masked := LengthBytes(form, |payload|, false), LengthBytes(form, |payload|, true);
    LengthBytesRead(form, |payload|, false);
    MaskedHeader(form, |payload|);
    EncodeParts(opcode, payload, len);
    ClientParts(srv, 128 + opcode, len, payload, key);
    WireFromParts(Frame(true, opcode, payload), form, key, 128 + opcode, masked, Mask(payload, key));
    assert |srv| >= 2 && |srv| >= 2 + ExtendedBytes(srv[1]) && |AsClient(srv, key)| == |srv| + 4;
    assert AsClient(srv, key) == Wire(Frame(true, opcode, payload), form, key);
  }

  lemma FormFits(opcode: byte, payload: seq<byte>, key: seq<byte>)
    requires opcode < 16 && |key| == 4 && |payload| < 0x1_0000_0000_0000_0000
    ensures Fits(FormFor(|payload|), |payload|) && WellFormed(Frame(true, opcode, payload), FormFor(|payload|), key)
    ensures FormFor(|payload|).Short? ==> |payload| < 126
  {
  }

  lemma EncodeParts(opcode: byte, payload: seq<byte>, len: seq<byte>)
    requires opcode < 16 && len == LengthBytes(FormFor(|payload|), |payload|, false)
    ensures Encode(opcode, payload) == [128 + opcode] + len + payload
  {
  }

  lemma ClientParts(srv: seq<byte>, first: byte, len: seq<byte>, payload: seq<byte>, key: seq<byte>)
    requires |len| >= 1 && |len| == 1 + ExtendedBytes(len[0]) && srv == [first] + len + payload && |key| == 4
    ensures |srv| >= 2 && |srv| >= 2 + ExtendedBytes(srv[1]) && |AsClient(srv, key)| == |srv| + 4
    ensures AsClient(srv, key) == [first] + ([128 + len[0] % 128] + len[1..]) + key + Mask(payload, key)
  {
    hide ExtendedBytes, Mask;
    Splice(srv, first, len, payload, key, 128 + len[0] % 128, Mask(payload, key));
  }

  lemma MaskedHeader(form: LengthForm, n: nat)
    requires Fits(form, n)
    ensures var len := LengthBytes(form, n, false);
      |len| >= 1 && [128 + len[0] % 128] + len[1..] == LengthBytes(form, n, true)
  {
  }

  // ---------------------------------------------------------------- unmasking, bit by bit

  /**
   * What the server takes for the payload: each bit of each byte is the sum, without carry, of that bit on the
   * wire and the same bit of one of the four bytes before the payload, which take turns.
   */
  lemma PayloadBits(data: seq<byte>, i: nat, k: nat)
    requires Decode(data, true).Decoded? && i < |Decode(data, true).frame.payload| && k < 8
    ensures var Decoded(n, f) := Decode(data, true);
      var pos := n - |f.payload|;
      && 6 <= pos && n <= |data|
      && Bit(f.payload[i] as nat, k) == (Bit(data[pos + i] as nat, k) + Bit(data[pos - 4 + i % 4] as nat, k)) % 2
  {
    hide Bit, Xor, Decode;
    var Decoded(n, f) := Decode(data, true);
    var pos := n - |f.payload|;
    PayloadIsMasked(data);
    XorIsBitwise(data[pos + i], data[pos - 4 + i % 4], k);
    assert data[pos..n][i] == data[pos + i] && data[pos - 4..pos][i % 4] == data[pos - 4 + i % 4];
  }

  lemma PayloadIsMasked(data: seq<byte>)
    requires Decode(data, true).Decoded?
    ensures var Decoded(n, f) := Decode(data, true);
      var pos := n - |f.payload|;
      6 <= pos && n <= |data| && f.payload == Mask(data[pos..n], data[pos - 4..pos])
  {
    hide Mask, PayloadLength;
  }

  // ---------------------------------------------------------------- the examples of section 5.7

  /** "Hello" as a server sends it, and the PING with that content. */
  lemma HelloSent()
    ensures Encode(1, Ascii("Hello")) == [0x81, 0x05, 0x48, 0x65, 0x6c, 0x6c, 0x6f]
    ensures Encode(9, Ascii("Hello")) == [0x89, 0x05, 0x48, 0x65, 0x6c, 0x6c, 0x6f]
  {
  }

  /** "Hello" as a client sends it, and the PONG with that content. */
  lemma HelloReceived()
    ensures Decode([0x81, 0x85, 0x37, 0xfa, 0x21, 0x3d, 0x7f, 0x9f, 0x4d, 0x51, 0x58], true)
      == Decoded(11, Frame(true, 1, Ascii("Hello")))
    ensures Decode([0x8a, 0x85, 0x37, 0xfa, 0x21, 0x3d, 0x7f, 0x9f, 0x4d, 0x51, 0x58], true)
      == Decoded(11, Frame(true, 10, Ascii("Hello")))
  {
    HelloUnmasked();
    MaskedFive(0x81);
    MaskedFive(0x8a);
  }

  lemma HelloUnmasked()
    ensures Mask([0x7f, 0x9f, 0x4d, 0x51, 0x58], [0x37, 0xfa, 0x21, 0x3d]) == Ascii("Hello")
  {
    hide Xor, Mask;
    XorIs(0x7f, 0x37, 0x48, Octet(0, 1, 1, 1, 1, 1, 1, 1), Octet(0, 0, 1, 1, 0, 1, 1, 1));
    XorIs(0x9f, 0xfa, 0x65, Octet(1, 0, 0, 1, 1, 1, 1, 1), Octet(1, 1, 1, 1, 1, 0, 1, 0));
    XorIs(0x4d, 0x21, 0x6c, Octet(0, 1, 0, 0, 1, 1, 0, 1), Octet(0, 0, 1, 0, 0, 0, 0, 1));
    XorIs(0x51, 0x3d, 0x6c, Octet(0, 1, 0, 1, 0, 0, 0, 1), Octet(0, 0, 1, 1, 1, 1, 0, 1));
    XorIs(0x58, 0x37, 0x6f, Octet(0, 1, 0, 1, 1, 0, 0, 0), Octet(0, 0, 1, 1, 0, 1, 1, 1));
    FiveMasked(0x7f, 0x9f, 0x4d, 0x51, 0x58, 0x37, 0xfa, 0x21, 0x3d, [0x48, 0x65, 0x6c, 0x6c, 0x6f]);
    assert Ascii("Hello") == [0x48, 0x65, 0x6c, 0x6c, 0x6f];
  }

  lemma FiveMasked(a: byte, b: byte, c: byte, d: byte, e: byte, k: byte, l: byte, m: byte, n: byte, p: seq<byte>)
    requires p == [Xor(a, k), Xor(b, l), Xor(c, m), Xor(d, n), Xor(e, k)]
    ensures Mask([a, b, c, d, e], [k, l, m, n]) == p
  {
    hide Xor;
  }

  lemma MaskedFive(first: byte)
    requires first / 16 == 8
    ensures Decode([first, 0x85, 0x37, 0xfa, 0x21, 0x3d, 0x7f, 0x9f, 0x4d, 0x51, 0x58], true)
      == Decoded(11, Frame(true, first % 16, Mask([0x7f, 0x9f, 0x4d, 0x51, 0x58], [0x37, 0xfa, 0x21, 0x3d])))
  {
    hide Mask;
    var data: seq<byte> := [first, 0x85, 0x37, 0xfa, 0x21, 0x3d, 0x7f, 0x9f, 0x4d, 0x51, 0x58];
    assert data[2..6] == [0x37, 0xfa, 0x21, 0x3d] && data[6..11] == [0x7f, 0x9f, 0x4d, 0x51, 0x58];
    assert Decode(data, true) == Decoded(11, Frame(true, first % 16, Mask(data[6..11], data[2..6])));
  }

  /** A text in two fragments, as another server might send it. */
  lemma FragmentsReceived()
    ensures Decode([0x01, 0x03, 0x48, 0x65, 0x6c], false) == Decoded(5, Frame(false, 1, Ascii("Hel")))
    ensures Decode([0x80, 0x02, 0x6c, 0x6f], false) == Decoded(4, Frame(true, 0, Ascii("lo")))
  {
    var first: seq<byte> := [0x01, 0x03, 0x48, 0x65, 0x6c];
    var last: seq<byte> := [0x80, 0x02, 0x6c, 0x6f];
    assert first[2..5] == Ascii("Hel") && last[2..4] == Ascii("lo");
  }

  /** The header of 256 bytes. */
  lemma LongHeader(payload: seq<byte>)
    requires |payload| == 256
    ensures Encode(2, payload) == [0x82, 0x7E, 0x01, 0x00] + payload
  {
    assert BigEndian(256, 2) == [1, 0];
  }

  /** The header of 64 KiB. */
  lemma LongestHeader(payload: seq<byte>)
    requires |payload| == 65536
    ensures Encode(2, payload) == [0x82, 0x7F, 0, 0, 0, 0, 0, 0x01, 0, 0] + payload
  {
    hide BigEndian;
    NumberOf64K();
  }

  lemma NumberOf64K()
    ensures BigEndian(65536, 8) == [0, 0, 0, 0, 0, 1, 0, 0]
  {
    assert ShiftBytes(65536, 0) == 65536 && ShiftBytes(65536, 1) == 256 && ShiftBytes(65536, 2) == 1 && ShiftBytes(65536, 3) == 0;
    assert ShiftBytes(65536, 4) == 0 && ShiftBytes(65536, 5) == 0 && ShiftBytes(65536, 6) == 0 && ShiftBytes(65536, 7) == 0;
  }

  // ---------------------------------------------------------------- verdicts and prefixes

  /** Success and protocol error are final: no later byte changes them. */
  lemma VerdictIsStable(data: seq<byte>, more: seq<byte>, fromClient: bool)
    requires !Decode(data, fromClient).NeedMore?
    ensures Decode(data + more, fromClient) == Decode(data, fromClient)
  {
    if Decode(data, fromClient).Decoded? {
      var Decoded(n, f) := Decode(data, fromClient);
      DecodedIsWire(data, fromClient);
      assert (data + more)[..n] == data[..n];
      WireAtDecodes(data + more, fromClient, n, f, FormOf(data), KeyOf(data, fromClient));
    }
  }

  /** Every proper prefix of an accepted frame asks for more. */
  lemma ProperPrefixNeedsMore(data: seq<byte>, n: nat, fromClient: bool)
    requires Decode(data, fromClient).Decoded? && n < Decode(data, fromClient).consumed
    ensures n <= |data| && Decode(data[..n], fromClient).NeedMore?
  {
    var part := data[..n];
    assert part + data[n..] == data;
    if !Decode(part, fromClient).NeedMore? {
      VerdictIsStable(part, data[n..], fromClient);
    }
  }

  /** A frame from a client takes at least six bytes, one from a server at least two. */
  lemma DecodedSize(data: seq<byte>, fromClient: bool)
    requires Decode(data, fromClient).Decoded?
    ensures (if fromClient then 6 else 2) <= Decode(data, fromClient).consumed <= |data|
  {
  }
}
