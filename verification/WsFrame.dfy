/**
 * WebSocket framing (RFC 6455 sections 5.2 and 5.3): the codec of src/server/ws_frame.cpp.
 * Bytes are numbers below 256; the shifts and masks of the source are divisions and remainders by powers of two.
 */
module WsFrame {
  import opened Bytes

  const TEXT: byte := 0x1
  const CLOSE: byte := 0x8
  const PING: byte := 0x9
  const PONG: byte := 0xA

  datatype Frame = Frame(fin: bool, opcode: byte, payload: seq<byte>)

  /** `consumed` of the source: -1 is NeedMore, 0 is ProtocolError, a positive number is Decoded. */
  datatype DecodeResult = NeedMore | ProtocolError | Decoded(consumed: nat, frame: Frame)

  // ---------------------------------------------------------------- header bytes

  /** `(b >> 7) & 1`: FIN of the first byte, MASK of the second. */
  predicate TopBit(b: byte) { b / 128 == 1 }

  /** `b & 0x70`, the three reserved bits. */
  function Reserved(b: byte): byte { b / 16 % 8 }

  /** `b & 0x0F` */
  function Opcode(b: byte): byte { b % 16 }

  /** `b & 0x7F` */
  function Length7(b: byte): nat { (b % 128) as nat }

  // ---------------------------------------------------------------- wire format

  /** The three ways a frame can write its payload length. */
  datatype LengthForm = Short | Medium | Long

  function FormFor(len: nat): LengthForm {
    if len < 126 then Short else if len < 65536 then Medium else Long
  }

  predicate Fits(form: LengthForm, len: nat) {
    match form
    case Short => len < 126
    case Medium => len < 0x1_0000
    case Long => len < 0x1_0000_0000_0000_0000
  }

  function LengthBytes(form: LengthForm, len: nat, masked: bool): (s: seq<byte>)
    requires form.Short? ==> len < 126
  {
    var bit: byte := if masked then 128 else 0;
    match form
    case Short => [bit + len as byte]
    case Medium => [bit + 126] + BigEndian(len, 2)
    case Long => [bit + 127] + BigEndian(len, 8)
  }

  /** XOR with a repeating 4-byte key; no key leaves the payload as it is. */
  function Mask(payload: seq<byte>, key: seq<byte>): (s: seq<byte>)
    requires key == [] || |key| == 4
    ensures |s| == |payload|
    ensures forall i :: 0 <= i < |s| ==> s[i] == if key == [] then payload[i] else Xor(payload[i], key[i % 4])
  {
    if key == [] then payload else seq(|payload|, i requires 0 <= i < |payload| => Xor(payload[i], key[i % 4]))
  }

  predicate WellFormed(f: Frame, form: LengthForm, key: seq<byte>) {
    && f.opcode < 16
    && Fits(form, |f.payload|)
    && (key == [] || |key| == 4)
  }

  /** The frame diagram of RFC 6455 section 5.2: with a key as a client sends it, without as a server does. */
  function Wire(f: Frame, form: LengthForm, key: seq<byte>): (s: seq<byte>)
    requires WellFormed(f, form, key)
  {
    [(if f.fin then 128 else 0) + f.opcode] + LengthBytes(form, |f.payload|, key != []) + key + Mask(f.payload, key)
  }

  // ---------------------------------------------------------------- decoding

  function ExtendedBytes(b1: byte): (k: nat)
    ensures k <= 8
  {
    if Length7(b1) == 126 then 2 else if Length7(b1) == 127 then 8 else 0
  }

  function PayloadLength(data: seq<byte>): nat
    requires |data| >= 2 && |data| >= 2 + ExtendedBytes(data[1])
  {
    var ext := ExtendedBytes(data[1]);
    if ext == 0 then Length7(data[1]) else FromBigEndian(data[2..2 + ext])
  }

  /**
   * One frame off the front of `data`. A server reads with `fromClient` and then insists on the mask
   * (section 5.1); a client reads without it and insists on its absence.
   */
  function Decode(data: seq<byte>, fromClient: bool): (r: DecodeResult)
  {
    if |data| < 2 then NeedMore
    else if Reserved(data[0]) != 0 then ProtocolError
    else
      var ext := ExtendedBytes(data[1]);
      if |data| < 2 + ext then NeedMore
      else if TopBit(data[1]) != fromClient then ProtocolError
      else
        var pos := 2 + ext + if fromClient then 4 else 0;
        var end := pos + PayloadLength(data);
        if |data| < end then NeedMore
        else Decoded(end, Frame(TopBit(data[0]), Opcode(data[0]), Mask(data[pos..end], data[2 + ext..pos])))
  }

  const WORD := 0x1_0000_0000_0000_0000  // lengths are 64-bit words

  /** The announced end of the frame does not fit a word, and what is left of it when it wraps is there. */
  predicate Overflows(data: seq<byte>) {
    && |data| >= 2 && Reserved(data[0]) == 0
    && |data| >= 2 + ExtendedBytes(data[1]) && TopBit(data[1])
    && WORD <= 2 + ExtendedBytes(data[1]) + 4 + PayloadLength(data)
    && |data| < 2 + ExtendedBytes(data[1]) + 4 + PayloadLength(data) <= WORD + |data|
  }

  /**
   * `tryDecode`: header tests, extended length by a loop, payload unmasked by a loop. The end of the frame is
   * computed in 64 bits; where that wraps, resizing the payload throws, exactly if `Overflows`.
   */
  method TryDecode(data: seq<byte>) returns (r: DecodeResult, thrown: bool)
    ensures thrown <==> Overflows(data)
    ensures thrown ==> Decode(data, true) == NeedMore
    ensures !thrown ==> r == Decode(data, true)
  {
    thrown := false;
    hide PayloadLength, ExtendedBytes, Mask;
    if |data| < 2 {
      return NeedMore, false;
    }
    var b0, b1 := data[0], data[1];
    var fin, opcode, rsv := b0 / 128 % 2, b0 % 16, b0 / 16 % 8;
    if rsv != 0 {
      return ProtocolError, false;
    }
    var mask := b1 / 128 % 2;
    assert (mask == 0 <==> !TopBit(b1)) && (fin == 1 <==> TopBit(b0)) && opcode == Opcode(b0) && rsv == Reserved(b0);
    var complete, plen, pos := ReadLength(data);
    if !complete {
      return NeedMore, false;
    }
    if mask == 0 {
      return ProtocolError, false;
    }
    LengthIsWord(data);
    Wrapped(pos + 4 + plen);
    hide TopBit, Opcode, Reserved;
    // the source reads the four key bytes before this test; the verdict is the same
    if |data| < (pos + 4 + plen) % WORD {
      return NeedMore, false;
    }
    // the test can pass without the payload only if the sum has wrapped: a payload of nearly 2^64 bytes
    if |data| < pos + 4 + plen {
      return NeedMore, true;
    }
    var mkey := data[pos..pos + 4];
    pos := pos + 4;
    var payload := Unmask(data[pos..pos + plen], mkey);
    r := Decoded(pos + plen, Frame(fin == 1, opcode, payload));
    assert r == Decode(data, true);
  }

  lemma Wrapped(n: nat)
    requires n < 2 * WORD
    ensures n % WORD == if n >= WORD then n - WORD else n
  {
    if n >= WORD {
      Bytes.Remainder(n, WORD, 1, n - WORD);
    }
  }

  lemma LengthIsWord(data: seq<byte>)
    requires |data| >= 2 && |data| >= 2 + ExtendedBytes(data[1])
    ensures PayloadLength(data) < WORD
  {
    Pow256Values();
    FromBigEndianBound(data[2..2 + ExtendedBytes(data[1])]);
  }

  /** The 7-bit length, or the two or eight bytes that extend it. */
  method ReadLength(data: seq<byte>) returns (complete: bool, plen: nat, pos: nat)
    requires |data| >= 2
    ensures complete <==> |data| >= 2 + ExtendedBytes(data[1])
    ensures complete ==> plen == PayloadLength(data) && pos == 2 + ExtendedBytes(data[1])
  {
    complete, plen, pos := true, (data[1] % 128) as nat, 2;
    if plen == 126 {
      if |data| < pos + 2 {
        return false, 0, 0;
      }
      plen := ReadBigEndian(data, pos, 2);
      pos := pos + 2;
    } else if plen == 127 {
      if |data| < pos + 8 {
        return false, 0, 0;
      }
      plen := ReadBigEndian(data, pos, 8);
      pos := pos + 8;
    }
  }

  method ReadBigEndian(data: seq<byte>, pos: nat, k: nat) returns (n: nat)
    requires pos + k <= |data|
    ensures n == FromBigEndian(data[pos..pos + k])
  {
    n := 0;
    for i := 0 to k
      invariant n == FromBigEndian(data[pos..pos + i])
    {
      assert data[pos..pos + i + 1][..i] == data[pos..pos + i];
      n := n * 256 + data[pos + i] as nat;
    }
  }

  method Unmask(masked: seq<byte>, mkey: seq<byte>) returns (payload: seq<byte>)
    requires |mkey| == 4
    ensures payload == Mask(masked, mkey)
  {
    payload := [];
    for i := 0 to |masked|
      invariant |payload| == i
      invariant forall k :: 0 <= k < i ==> payload[k] == Xor(masked[k], mkey[k % 4])
    {
      payload := payload + [Xor(masked[i], mkey[i % 4])];
    }
  }

  // ---------------------------------------------------------------- encoding

  /** A server frame: FIN set, no mask, shortest length form. */
  function Encode(opcode: byte, payload: seq<byte>): (s: seq<byte>) {
    [128 + opcode % 16] + LengthBytes(FormFor(|payload|), |payload|, false) + payload
  }

  /** `encodeFrame`: the output vector grows byte by byte. */
  method EncodeFrame(opcode: byte, payload: seq<byte>) returns (out: seq<byte>)
    ensures out == Encode(opcode, payload)
  {
    var len := |payload|;
    out := [128 + opcode % 16];
    if len < 126 {
      out := out + [len as byte];
    } else if len < 65536 {
      out := out + [126];
      out := out + [(len / 256) as byte];
      out := out + [(len % 256) as byte];
      assert ShiftBytes(len, 1) == ShiftBytes(len, 0) / 256;
    } else {
      out := out + [127];
      var digits := EightBytes(len);
      out := out + digits;
    }
    out := out + payload;
  }

  /** The loop that shifts the 64-bit length out, most significant byte first. */
  method EightBytes(len: nat) returns (out: seq<byte>)
    ensures out == BigEndian(len, 8)
  {
    out := [];
    var i := 7;
    while i >= 0
      invariant -1 <= i <= 7 && |out| == 7 - i
      invariant forall k :: 0 <= k < |out| ==> out[k] as nat == ShiftBytes(len, 7 - k) % 256
    {
      out := out + [(ShiftBytes(len, i) % 256) as byte];
      i := i - 1;
    }
  }
}
