/** The text operations of HTTP parsing: finding, cutting, trimming, lower case, decimal numbers. */
module HttpText {
  import opened Bytes
  import opened Wrappers

  const SPACE: byte := 32
  const CR: byte := 13
  const LF: byte := 10
  const COLON: byte := 58
  const CRLF: seq<byte> := [CR, LF]
  const BLANK_LINE: seq<byte> := [CR, LF, CR, LF]

  /** Where `p` first occurs in `s`. */
  function Find(s: seq<byte>, p: seq<byte>): (r: Option<nat>)
    requires p != []
    ensures r.Some? ==> r.value + |p| <= |s| && s[r.value..r.value + |p|] == p && NoneBefore(s, p, r.value)
    ensures r.None? ==> NoneBefore(s, p, |s|)
  {
    if p <= s then Some(0)
    else if s == [] then None
    else
      match Find(s[1..], p)
      case None => Shifted(s, p, |s| - 1); None
      case Some(i) => Shifted(s, p, i); Some(i + 1)
  }

  predicate Occurs(s: seq<byte>, p: seq<byte>, i: nat)
    requires i <= |s|
  {
    p <= s[i..]
  }

  predicate NoneBefore(s: seq<byte>, p: seq<byte>, n: nat)
    requires n <= |s|
  {
    forall i :: 0 <= i < n ==> !Occurs(s, p, i)
  }

  lemma Shifted(s: seq<byte>, p: seq<byte>, n: nat)
    requires s != [] && n < |s| && NoneBefore(s[1..], p, n) && !(p <= s)
    ensures NoneBefore(s, p, n + 1)
  {
    forall i | 0 <= i < n + 1
      ensures !Occurs(s, p, i)
    {
      if i > 0 {
        assert s[1..][i - 1..] == s[i..];
        assert !Occurs(s[1..], p, i - 1);
      } else {
        assert s[0..] == s;
      }
    }
  }

  lemma OccursAt(s: seq<byte>, p: seq<byte>, i: nat)
    requires i + |p| <= |s| && s[i..i + |p|] == p
    ensures Occurs(s, p, i)
  {
    assert s[i..][..|p|] == s[i..i + |p|];
  }

  /** There is only one first occurrence. */
  lemma FirstIsFound(s: seq<byte>, p: seq<byte>, i: nat)
    requires p != [] && i + |p| <= |s| && s[i..i + |p|] == p && NoneBefore(s, p, i)
    ensures Find(s, p) == Some(i)
  {
    OccursAt(s, p, i);
    assert Find(s, p).Some?;
    OccursAt(s, p, Find(s, p).value);
  }

  /** What is found stays found when more text follows. */
  lemma FoundStays(s: seq<byte>, p: seq<byte>, more: seq<byte>)
    requires p != [] && Find(s, p).Some?
    ensures Find(s + more, p) == Find(s, p)
  {
    var i := Find(s, p).value;
    forall j | 0 <= j < i
      ensures !Occurs(s + more, p, j)
    {
      assert !Occurs(s, p, j);
      assert (s + more)[j..][..|p|] == s[j..][..|p|];
    }
    assert (s + more)[i..i + |p|] == s[i..i + |p|];
    FirstIsFound(s + more, p, i);
  }

  datatype Halves = Halves(left: seq<byte>, right: seq<byte>)

  /** The text before and after the first `p`. */
  function Cut(s: seq<byte>, p: seq<byte>): (r: Option<Halves>)
    requires p != []
    ensures r.Some? ==> s == r.value.left + p + r.value.right
  {
    match Find(s, p)
    case None => None
    case Some(i) => Some(Halves(s[..i], s[i + |p|..]))
  }

  lemma CutStays(s: seq<byte>, p: seq<byte>, more: seq<byte>)
    requires p != [] && Cut(s, p).Some?
    ensures Cut(s + more, p) == Some(Halves(Cut(s, p).value.left, Cut(s, p).value.right + more))
  {
    FoundStays(s, p, more);
    var i := Find(s, p).value;
    assert (s + more)[..i] == s[..i] && (s + more)[i + |p|..] == s[i + |p|..] + more;
  }

  lemma CutAt(left: seq<byte>, p: seq<byte>, right: seq<byte>)
    requires p != [] && NoneBefore(left + p + right, p, |left|)
    ensures Cut(left + p + right, p) == Some(Halves(left, right))
  {
    var s := left + p + right;
    assert s[|left|..|left| + |p|] == p;
    FirstIsFound(s, p, |left|);
    assert s[..|left|] == left && s[|left| + |p|..] == right;
  }

  /** A text without the first byte of `p` is cut off whole. */
  lemma CutClean(left: seq<byte>, p: seq<byte>, right: seq<byte>)
    requires p != [] && p[0] !in left
    ensures Cut(left + p + right, p) == Some(Halves(left, right))
  {
    var s := left + p + right;
    forall i | 0 <= i < |left|
      ensures !Occurs(s, p, i)
    {
      assert s[i..][0] == left[i];
    }
    CutAt(left, p, right);
  }

  lemma CutNothing(s: seq<byte>, p: seq<byte>)
    requires p != [] && p[0] !in s
    ensures Cut(s, p) == None
  {
  }

  predicate Blank(b: byte) {
    b == SPACE || b == 9 || b == CR || b == LF
  }

  /** Without the blanks at both ends. */
  function Trim(s: seq<byte>): seq<byte> {
    if s == [] then []
    else if Blank(s[0]) then Trim(s[1..])
    else if Blank(s[|s| - 1]) then Trim(s[..|s| - 1])
    else s
  }

  function Lower(s: seq<byte>): (r: seq<byte>)
    ensures |r| == |s|
  {
    seq(|s|, i requires 0 <= i < |s| => if 65 <= s[i] <= 90 then s[i] + 32 else s[i])
  }

  predicate Digits(s: seq<byte>) {
    forall i :: 0 <= i < |s| ==> 48 <= s[i] <= 57
  }

  function Decimal(n: nat): (s: seq<byte>)
    ensures s != [] && Digits(s)
  {
    if n < 10 then [(48 + n) as byte] else Decimal(n / 10) + [(48 + n % 10) as byte]
  }

  function FromDecimal(s: seq<byte>): nat
    requires Digits(s)
  {
    if s == [] then 0 else 10 * FromDecimal(s[..|s| - 1]) + (s[|s| - 1] - 48) as nat
  }

  function Pow10(k: nat): nat {
    if k == 0 then 1 else 10 * Pow10(k - 1)
  }

  /** The first digit weighs most. */
  lemma {:induction false} FirstDigitWeighs(d: byte, s: seq<byte>)
    requires 48 <= d <= 57 && Digits(s)
    ensures Digits([d] + s) && FromDecimal([d] + s) == (d - 48) as nat * Pow10(|s|) + FromDecimal(s)
  {
    if s == [] {
      assert FromDecimal([d]) == 10 * FromDecimal([d][..0]) + (d - 48) as nat;
    } else {
      var init := s[..|s| - 1];
      assert ([d] + s)[..|s|] == [d] + init;
      FirstDigitWeighs(d, init);
      TenTimes((d - 48) as nat, Pow10(|init|));
    }
  }

  lemma TenTimes(d: nat, p: nat)
    ensures 10 * (d * p) == d * (10 * p)
  {
  }

  lemma {:induction false} DecimalRoundTrip(n: nat)
    ensures FromDecimal(Decimal(n)) == n
  {
    if n >= 10 {
      DecimalRoundTrip(n / 10);
      assert Decimal(n)[..|Decimal(n)| - 1] == Decimal(n / 10);
    } else {
      assert Decimal(n)[..0] == [];
    }
  }
}
