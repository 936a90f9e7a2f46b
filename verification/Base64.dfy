/** Base64 (RFC 4648 section 4) and the WebSocket accept key: the rest of src/server/ws_handshake.cpp. */
module Base64 {
  import opened Bytes
  import opened Wrappers

  const UPPER := "ABCDEFGHIJKLMNOPQRSTUVWXYZ"
  const LOWER := "abcdefghijklmnopqrstuvwxyz"
  const DIGITS := "0123456789"
  const ALPHABET := UPPER + LOWER + DIGITS + "+/"

  /** The character for a 6-bit value. */
  function Symbol(v: byte): (c: char)
    requires v < 64
  {
    ALPHABET[v as int]
  }

  // the four 6-bit values in three bytes

  function Six0(b0: byte): (v: byte)
    ensures v < 64
  {
    b0 / 4
  }

  function Six1(b0: byte, b1: byte): (v: byte)
    ensures v < 64
  {
    b0 % 4 * 16 + b1 / 16
  }

  function Six2(b1: byte, b2: byte): (v: byte)
    ensures v < 64
  {
    b1 % 16 * 4 + b2 / 64
  }

  function Six3(b2: byte): (v: byte)
    ensures v < 64
  {
    b2 % 64
  }

  /** Four characters for three bytes. */
  function Group(b0: byte, b1: byte, b2: byte): (s: string)
    ensures |s| == 4
  {
    [Symbol(Six0(b0)), Symbol(Six1(b0, b1)), Symbol(Six2(b1, b2)), Symbol(Six3(b2))]
  }

  function Encode(data: seq<byte>): string {
    if data == [] then ""
    else if |data| == 1 then Group(data[0], 0, 0)[..2] + "=="
    else if |data| == 2 then Group(data[0], data[1], 0)[..3] + "="
    else Group(data[0], data[1], data[2]) + Encode(data[3..])
  }

  /** `base64Encode`: whole groups in a loop, then the one or two bytes that are left. */
  method Base64Encode(data: seq<byte>) returns (out: string)
    ensures out == Encode(data)
  {
    hide Symbol, Six0, Six1, Six2, Six3;
    out := "";
    var i := 0;
    while i + 3 <= |data|
      invariant i <= |data|
      invariant Encode(data) == out + Encode(data[i..])
    {
      var group := EncodeGroup(data[i], data[i + 1], data[i + 2]);
      assert data[i..][3..] == data[i + 3..];
      out := out + group;
      i := i + 3;
    }
    var rest := EncodeRest(data[i..]);
    out := out + rest;
  }

  method EncodeGroup(b0: byte, b1: byte, b2: byte) returns (out: string)
    ensures out == Group(b0, b1, b2)
  {
    hide Symbol;
    out := [];
    out := out + [Symbol(b0 / 4)];
    out := out + [Symbol(b0 % 4 * 16 + b1 / 16)];
    out := out + [Symbol(b1 % 16 * 4 + b2 / 64)];
    out := out + [Symbol(b2 % 64)];
  }

  method EncodeRest(data: seq<byte>) returns (out: string)
    requires |data| < 3
    ensures out == Encode(data)
  {
    hide Symbol;
    out := "";
    if |data| == 1 {
      var b0 := data[0];
      out := out + [Symbol(b0 / 4)];
      out := out + [Symbol(b0 % 4 * 16)];
      out := out + "=";
      out := out + "=";
      assert out == Group(b0, 0, 0)[..2] + "==";
    } else if |data| == 2 {
      var b0, b1 := data[0], data[1];
      out := out + [Symbol(b0 / 4)];
      out := out + [Symbol(b0 % 4 * 16 + b1 / 16)];
      out := out + [Symbol(b1 % 16 * 4)];
      out := out + "=";
      assert out == Group(b0, b1, 0)[..3] + "=";
    }
  }

  // ---------------------------------------------------------------- a decoder, after RFC 4648

  /** The value of a character in the table of section 4. */
  function Value(c: char): Option<byte> {
    if 'A' <= c <= 'Z' then Some((c as int - 'A' as int) as byte)
    else if 'a' <= c <= 'z' then Some((c as int - 'a' as int + 26) as byte)
    else if '0' <= c <= '9' then Some((c as int - '0' as int + 52) as byte)
    else if c == '+' then Some(62)
    else if c == '/' then Some(63)
    else None
  }

  /** Groups of four; padding only in the last; the bits that padding leaves over must be zero. */
  function Decode(s: string): Option<seq<byte>>
  {
    if s == "" then Some([])
    else if |s| < 4 || Value(s[0]).None? || Value(s[1]).None? then None
    else
      var v0, v1 := Value(s[0]).value, Value(s[1]).value;
      if s[2..] == "==" then
        if v1 % 16 == 0 then Some([Byte0(v0, v1)]) else None
      else if Value(s[2]).None? then None
      else
        var v2 := Value(s[2]).value;
        if s[3..] == "=" then
          if v2 % 4 == 0 then Some([Byte0(v0, v1), Byte1(v1, v2)]) else None
        else if Value(s[3]).None? then None
        else
          var v3 := Value(s[3]).value;
          match Decode(s[4..])
          case None => None
          case Some(rest) => Some([Byte0(v0, v1), Byte1(v1, v2), Byte2(v2, v3)] + rest)
  }

  function Byte0(v0: byte, v1: byte): byte { v0 % 64 * 4 + v1 / 16 % 4 }

  function Byte1(v1: byte, v2: byte): byte { v1 % 16 * 16 + v2 / 4 % 16 }

  function Byte2(v2: byte, v3: byte): byte { v2 % 4 * 64 + v3 % 64 }

  // ---------------------------------------------------------------- the two are inverse

  lemma UpperAt(i: nat)
    requires i < 26
    ensures UPPER[i] == 'A' + i as char
  {
  }

  lemma LowerAt(i: nat)
    requires i < 26
    ensures LOWER[i] == 'a' + i as char
  {
  }

  lemma DigitAt(i: nat)
    requires i < 10
    ensures DIGITS[i] == '0' + i as char
  {
  }

  lemma SymbolValue(v: byte)
    requires v < 64
    ensures Value(Symbol(v)) == Some(v) && Symbol(v) != '='
  {
    hide Symbol, Value;
    if v < 26 {
      UpperValue(v);
    } else if v < 52 {
      LowerValue(v);
    } else {
      OtherValue(v);
    }
    assert Value(Symbol(v)) == Some(v) && Symbol(v) != '=';
  }

  lemma UpperValue(v: byte)
    requires v < 26
    ensures Value(Symbol(v)) == Some(v) && Symbol(v) != '='
  {
    UpperAt(v as int);
  }

  lemma LowerValue(v: byte)
    requires 26 <= v < 52
    ensures Value(Symbol(v)) == Some(v) && Symbol(v) != '='
  {
    LowerAt(v as int - 26);
  }

  lemma OtherValue(v: byte)
    requires 52 <= v < 64
    ensures Value(Symbol(v)) == Some(v) && Symbol(v) != '='
  {
    if v < 62 {
      DigitAt(v as int - 52);
    }
  }

  lemma ValueSymbol(c: char)
    requires Value(c).Some?
    ensures Value(c).value < 64 && Symbol(Value(c).value) == c && c != '='
  {
  }

  /** The table of section 4, range by range. */
  lemma Alphabet(v: byte)
    requires v < 64
    ensures Symbol(v) == if v < 26 then 'A' + v as char else if v < 52 then 'a' + (v - 26) as char
      else if v < 62 then '0' + (v - 52) as char else if v == 62 then '+' else '/'
  {
    hide Symbol;
    var c := if v < 26 then 'A' + v as char else if v < 52 then 'a' + (v - 26) as char
      else if v < 62 then '0' + (v - 52) as char else if v == 62 then '+' else '/';
    ValueSymbol(c);
    assert Symbol(v) == c;
  }

  /** Four 6-bit digits write the number that three bytes write, both most significant first. */
  lemma GroupNumber(b0: byte, b1: byte, b2: byte)
    ensures 65536 * b0 as int + 256 * b1 as int + b2 as int
      == 262144 * Six0(b0) as int + 4096 * Six1(b0, b1) as int + 64 * Six2(b1, b2) as int + Six3(b2) as int
  {
  }

  lemma GroupBytes(b0: byte, b1: byte, b2: byte)
    ensures Byte0(Six0(b0), Six1(b0, b1)) == b0
    ensures Byte1(Six1(b0, b1), Six2(b1, b2)) == b1
    ensures Byte2(Six2(b1, b2), Six3(b2)) == b2
  {
    FourBits(b0 % 4, b1 / 16);
    SixBits(b1 % 16, b2 / 64);
  }

  lemma LastBits(b0: byte, b1: byte)
    ensures Six1(b0, 0) % 16 == 0 && Six2(b1, 0) % 4 == 0
  {
  }

  lemma GroupValues(b0: byte, b1: byte, b2: byte)
    ensures var g := Group(b0, b1, b2);
      && Value(g[0]) == Some(Six0(b0)) && Value(g[1]) == Some(Six1(b0, b1))
      && Value(g[2]) == Some(Six2(b1, b2)) && Value(g[3]) == Some(Six3(b2))
      && g[0] != '=' && g[1] != '=' && g[2] != '=' && g[3] != '='
  {
    hide Symbol, Value, Six0, Six1, Six2, Six3;
    SymbolValue(Six0(b0));
    SymbolValue(Six1(b0, b1));
    SymbolValue(Six2(b1, b2));
    SymbolValue(Six3(b2));
    assert GroupReads(b0, b1, b2);
  }

  ghost predicate GroupReads(b0: byte, b1: byte, b2: byte) {
    var g := Group(b0, b1, b2);
    && Value(g[0]) == Some(Six0(b0)) && Value(g[1]) == Some(Six1(b0, b1))
    && Value(g[2]) == Some(Six2(b1, b2)) && Value(g[3]) == Some(Six3(b2))
    && g[0] != '=' && g[1] != '=' && g[2] != '=' && g[3] != '='
  }

  // the branches of the decoder

  lemma DecodeNothing()
    ensures Decode("") == Some([])
  {
  }

  lemma DecodeOne(s: string, v0: byte, v1: byte)
    requires |s| == 4 && s[2..] == "==" && Value(s[0]) == Some(v0) && Value(s[1]) == Some(v1) && v1 % 16 == 0
    ensures Decode(s) == Some([Byte0(v0, v1)])
  {
  }

  lemma DecodeTwo(s: string, v0: byte, v1: byte, v2: byte)
    requires |s| == 4 && s[2] != '=' && s[3] == '='
    requires Value(s[0]) == Some(v0) && Value(s[1]) == Some(v1) && Value(s[2]) == Some(v2) && v2 % 4 == 0
    ensures Decode(s) == Some([Byte0(v0, v1), Byte1(v1, v2)])
  {
  }

  lemma DecodeThree(s: string, v0: byte, v1: byte, v2: byte, v3: byte)
    requires |s| >= 4 && s[2] != '=' && s[3] != '='
    requires Value(s[0]) == Some(v0) && Value(s[1]) == Some(v1) && Value(s[2]) == Some(v2) && Value(s[3]) == Some(v3)
    requires Decode(s[4..]).Some?
    ensures Decode(s) == Some([Byte0(v0, v1), Byte1(v1, v2), Byte2(v2, v3)] + Decode(s[4..]).value)
  {
  }

  /** Every byte string is recovered from its encoding. */
  lemma {:induction false} DecodeEncode(data: seq<byte>)
    ensures Decode(Encode(data)) == Some(data)
  {
    hide Symbol, Value, Byte0, Byte1, Byte2, Six0, Six1, Six2, Six3;
    var s := Encode(data);
    if data == [] {
      DecodeNothing();
    } else if |data| == 1 {
      var b0 := data[0];
      GroupValues(b0, 0, 0);
      GroupBytes(b0, 0, 0);
      LastBits(b0, 0);
      DecodeOne(s, Six0(b0), Six1(b0, 0));
      assert data == [b0];
    } else if |data| == 2 {
      var b0, b1 := data[0], data[1];
      GroupValues(b0, b1, 0);
      GroupBytes(b0, b1, 0);
      LastBits(b0, b1);
      DecodeTwo(s, Six0(b0), Six1(b0, b1), Six2(b1, 0));
      assert data == [b0, b1];
    } else {
      var b0, b1, b2 := data[0], data[1], data[2];
      GroupValues(b0, b1, b2);
      GroupBytes(b0, b1, b2);
      DecodeEncode(data[3..]);
      assert s[4..] == Encode(data[3..]);
      DecodeThree(s, Six0(b0), Six1(b0, b1), Six2(b1, b2), Six3(b2));
      assert data == [b0, b1, b2] + data[3..];
    }
    assert Decode(s) == Some(data);
  }

  lemma ValuesGroup(v0: byte, v1: byte, v2: byte, v3: byte)
    requires v0 < 64 && v1 < 64 && v2 < 64 && v3 < 64
    ensures var b0, b1, b2 := Byte0(v0, v1), Byte1(v1, v2), Byte2(v2, v3);
      Six0(b0) == v0 && Six1(b0, b1) == v1 && Six2(b1, b2) == v2 && Six3(b2) == v3
  {
    hide Byte0, Byte1, Byte2, Six0, Six1, Six2, Six3;
    FirstValues(v0, v1, v2);
    LastValues(v1, v2, v3);
    assert Six2(Byte1(v1, v2), Byte2(v2, v3)) == v2;
  }

  lemma FirstValues(v0: byte, v1: byte, v2: byte)
    requires v0 < 64 && v1 < 64 && v2 < 64
    ensures Six0(Byte0(v0, v1)) == v0 && Six1(Byte0(v0, v1), Byte1(v1, v2)) == v1
  {
    hide Byte1, Six1;
    SixBits(v0, v1 / 16);
    SecondValue(v0, v1, v2);
    assert Six0(Byte0(v0, v1)) == v0;
  }

  lemma SecondValue(v0: byte, v1: byte, v2: byte)
    requires v0 < 64 && v1 < 64 && v2 < 64
    ensures Six1(Byte0(v0, v1), Byte1(v1, v2)) == v1
  {
    hide Byte0, Byte1;
    LowBits(v0, v1);
    HighBits(v1, v2);
    assert Six1(Byte0(v0, v1), Byte1(v1, v2)) == v1;
  }

  lemma LowBits(v0: byte, v1: byte)
    requires v0 < 64 && v1 < 64
    ensures Byte0(v0, v1) % 4 == v1 / 16
  {
    SixBits(v0, v1 / 16);
  }

  lemma HighBits(v1: byte, v2: byte)
    requires v1 < 64 && v2 < 64
    ensures Byte1(v1, v2) / 16 == v1 % 16
  {
    FourBits(v1 % 16, v2 / 4);
  }

  lemma LastValues(v1: byte, v2: byte, v3: byte)
    requires v1 < 64 && v2 < 64 && v3 < 64
    ensures Six2(Byte1(v1, v2), Byte2(v2, v3)) == v2 && Six3(Byte2(v2, v3)) == v3
  {
    FourBits(v1 % 16, v2 / 4);
    TwoBits(v2 % 4, v3);
  }

  lemma SixBits(x: byte, y: byte)
    requires x < 64 && y < 4
    ensures (x * 4 + y) / 4 == x && (x * 4 + y) % 4 == y
  {
  }

  lemma FourBits(x: byte, y: byte)
    requires x < 16 && y < 16
    ensures (x * 16 + y) / 16 == x && (x * 16 + y) % 16 == y
  {
  }

  lemma TwoBits(x: byte, y: byte)
    requires x < 4 && y < 64
    ensures (x * 64 + y) / 64 == x && (x * 64 + y) % 64 == y
  {
  }

  lemma NoBitsLeft(v0: byte, v1: byte, v2: byte)
    requires v0 < 64 && v1 < 64 && v2 < 64
    ensures v1 % 16 == 0 ==> Six1(Byte0(v0, v1), 0) == v1
    ensures v2 % 4 == 0 ==> Six2(Byte1(v1, v2), 0) == v2
  {
    hide Byte0, Byte1, Six1, Six2;
    if v1 % 16 == 0 {
      NoneAfterOne(v0, v1);
    }
    if v2 % 4 == 0 {
      NoneAfterTwo(v1, v2);
    }
    assert v1 % 16 == 0 ==> Six1(Byte0(v0, v1), 0) == v1;
    assert v2 % 4 == 0 ==> Six2(Byte1(v1, v2), 0) == v2;
  }

  lemma NoneAfterOne(v0: byte, v1: byte)
    requires v0 < 64 && v1 < 64 && v1 % 16 == 0
    ensures Six1(Byte0(v0, v1), 0) == v1
  {
    SixBits(v0, v1 / 16);
  }

  lemma NoneAfterTwo(v1: byte, v2: byte)
    requires v1 < 64 && v2 < 64 && v2 % 4 == 0
    ensures Six2(Byte1(v1, v2), 0) == v2
  {
    FourBits(v1 % 16, v2 / 4);
  }

  /** The encoding is the only text that decodes to a given byte string. */
  lemma {:induction false} EncodeDecode(s: string)
    requires Decode(s).Some?
    ensures Encode(Decode(s).value) == s
  {
    hide Symbol, Value, Byte0, Byte1, Byte2, Six0, Six1, Six2, Six3;
    if s != "" {
      ValueSymbol(s[0]);
      ValueSymbol(s[1]);
      var v0, v1 := Value(s[0]).value, Value(s[1]).value;
      if s[2..] == "==" {
        ValuesGroup(v0, v1, 0, 0);
        NoBitsLeft(v0, v1, 0);
        assert s == s[..2] + s[2..];
      } else {
        ValueSymbol(s[2]);
        var v2 := Value(s[2]).value;
        if s[3..] == "=" {
          ValuesGroup(v0, v1, v2, 0);
          NoBitsLeft(v0, v1, v2);
          assert s == s[..3] + s[3..];
        } else {
          ValueSymbol(s[3]);
          ValuesGroup(v0, v1, v2, Value(s[3]).value);
          EncodeDecode(s[4..]);
          assert Decode(s).value[3..] == Decode(s[4..]).value;
          assert s == s[..4] + s[4..];
        }
      }
    }
    assert Encode(Decode(s).value) == s;
  }

  /** Decoding inverts encoding and nothing else decodes: base64 is a bijection onto the canonical texts. */
  lemma DecodeIffEncode(s: string, data: seq<byte>)
    ensures Decode(s) == Some(data) <==> s == Encode(data)
  {
    DecodeEncode(data);
    if Decode(s).Some? {
      EncodeDecode(s);
    }
  }

  lemma {:induction false} EncodedLength(data: seq<byte>)
    ensures |Encode(data)| == (|data| + 2) / 3 * 4
  {
    hide Group;
    if |data| >= 3 {
      EncodedLength(data[3..]);
      assert (|data| - 3 + 2) / 3 + 1 == (|data| + 2) / 3;
    }
  }

  /** Padding: '=' stands only at the end, as often as the last group is short of three bytes. */
  lemma {:induction false} PaddingExactly(data: seq<byte>, i: nat)
    requires i < |Encode(data)|
    ensures Encode(data)[i] == '=' <==> i >= |Encode(data)| - (3 - |data| % 3) % 3
  {
    hide Symbol, Value, Six0, Six1, Six2, Six3;
    EncodedLength(data);
    if |data| >= 3 {
      GroupValues(data[0], data[1], data[2]);
      assert (|data| - 3) % 3 == |data| % 3;
      if i >= 4 {
        PaddingExactly(data[3..], i - 4);
      }
    } else if |data| == 2 {
      GroupValues(data[0], data[1], 0);
    } else {
      GroupValues(data[0], 0, 0);
    }
  }

  /** A 20-byte digest gives 28 characters, of which exactly the last is '='. */
  lemma DigestShape(digest: seq<byte>)
    requires |digest| == 20
    ensures DigestShaped(Encode(digest))
  {
    hide Encode;
    EncodedLength(digest);
    forall i | 0 <= i < 28
      ensures Encode(digest)[i] == '=' <==> i == 27
    {
      PaddingExactly(digest, i);
    }
    assert DigestShaped(Encode(digest));
  }

  ghost predicate DigestShaped(s: string) {
    |s| == 28 && forall i :: 0 <= i < 28 ==> (s[i] == '=' <==> i == 27)
  }

  // ---------------------------------------------------------------- encodings that the standards print

  /** The next three bytes are spelt by any four characters with the right values. */
  lemma GroupSpelt(data: seq<byte>, i: nat, b0: byte, b1: byte, b2: byte, s: string)
    requires i + 3 <= |data| && data[i] == b0 && data[i + 1] == b1 && data[i + 2] == b2
    requires |s| == 4 && Value(s[0]) == Some(Six0(b0)) && Value(s[1]) == Some(Six1(b0, b1))
    requires Value(s[2]) == Some(Six2(b1, b2)) && Value(s[3]) == Some(Six3(b2))
    ensures Encode(data[i..]) == s + Encode(data[i + 3..])
  {
    hide Symbol, Value, Six0, Six1, Six2, Six3;
    ValueSymbol(s[0]);
    ValueSymbol(s[1]);
    ValueSymbol(s[2]);
    ValueSymbol(s[3]);
    assert data[i..][3..] == data[i + 3..];
    assert Group(b0, b1, b2) == s;
  }

  lemma PairSpelt(data: seq<byte>, i: nat, b0: byte, b1: byte, s: string)
    requires i + 2 == |data| && data[i] == b0 && data[i + 1] == b1
    requires |s| == 3 && Value(s[0]) == Some(Six0(b0)) && Value(s[1]) == Some(Six1(b0, b1)) && Value(s[2]) == Some(Six2(b1, 0))
    ensures Encode(data[i..]) == s + "="
  {
    hide Symbol, Value, Six0, Six1, Six2, Six3;
    ValueSymbol(s[0]);
    ValueSymbol(s[1]);
    ValueSymbol(s[2]);
    assert Group(b0, b1, 0)[..3] == s;
  }
}
