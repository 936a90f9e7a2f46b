/** When two header names are the same, and what trimming leaves, said byte by byte. */
module HttpNames {
  import opened Bytes
  import opened HttpText

  /** The same, or the two forms of one letter. */
  predicate SameLetter(x: byte, y: byte) {
    x == y || (65 <= x <= 90 && y == x + 32) || (65 <= y <= 90 && x == y + 32)
  }

  /** The same but for upper and lower case. */
  predicate SameName(a: seq<byte>, b: seq<byte>) {
    |a| == |b| && forall i :: 0 <= i < |a| ==> SameLetter(a[i], b[i])
  }

  /** Lower case is for that: names are looked up whatever their letter case. */
  lemma LowerExactly(a: seq<byte>, b: seq<byte>)
    ensures Lower(a) == Lower(b) <==> SameName(a, b)
    ensures SameName(a, Lower(a)) && forall i :: 0 <= i < |a| ==> !(65 <= Lower(a)[i] <= 90)
  {
    if Lower(a) == Lower(b) {
      forall i | 0 <= i < |a|
        ensures SameLetter(a[i], b[i])
      {
        assert Lower(a)[i] == Lower(b)[i];
      }
    }
  }

  predicate IsBlank(b: byte) {
    b == 32 || b == 9 || b == 13 || b == 10
  }

  /** `t` is `s` from its first to its last byte that is not blank, and nothing if there is none. */
  ghost predicate Stretch(s: seq<byte>, i: nat, j: nat, t: seq<byte>) {
    && i <= j <= |s| && t == s[i..j]
    && (forall k :: 0 <= k < i ==> IsBlank(s[k])) && (forall k :: j <= k < |s| ==> IsBlank(s[k]))
    && (i < j ==> !IsBlank(s[i]) && !IsBlank(s[j - 1]))
  }

  ghost predicate IsTrimmed(s: seq<byte>, t: seq<byte>) {
    exists i, j :: Stretch(s, i, j, t)
  }

  /** `trim` finds that stretch, and there is only one. */
  lemma TrimExactly(s: seq<byte>, t: seq<byte>)
    ensures t == Trim(s) <==> IsTrimmed(s, t)
  {
    var i, j := TrimStretch(s);
    if IsTrimmed(s, t) {
      var k, l :| Stretch(s, k, l, t);
      StretchIsTrim(s, k, l, t);
    }
  }

  lemma {:induction false} TrimStretch(s: seq<byte>) returns (i: nat, j: nat)
    ensures Stretch(s, i, j, Trim(s))
    decreases |s|
  {
    if s == [] {
      i, j := 0, 0;
    } else if Blank(s[0]) {
      i, j := TrimStretch(s[1..]);
      FrontBlank(s, i, j, Trim(s));
      i, j := i + 1, j + 1;
    } else if Blank(s[|s| - 1]) {
      i, j := TrimStretch(s[..|s| - 1]);
      BackBlank(s, i, j, Trim(s));
    } else {
      i, j := 0, |s|;
      assert s[0..|s|] == s;
    }
  }

  lemma FrontBlank(s: seq<byte>, i: nat, j: nat, t: seq<byte>)
    requires s != [] && IsBlank(s[0]) && Stretch(s[1..], i, j, t)
    ensures Stretch(s, i + 1, j + 1, t)
  {
    assert s[1..][i..j] == s[i + 1..j + 1];
    assert forall k :: 0 < k < |s| ==> s[k] == s[1..][k - 1];
  }

  lemma BackBlank(s: seq<byte>, i: nat, j: nat, t: seq<byte>)
    requires s != [] && IsBlank(s[|s| - 1]) && Stretch(s[..|s| - 1], i, j, t)
    ensures Stretch(s, i, j, t)
  {
    assert s[..|s| - 1][i..j] == s[i..j];
    assert forall k :: 0 <= k < |s| - 1 ==> s[k] == s[..|s| - 1][k];
  }

  lemma {:induction false} StretchIsTrim(s: seq<byte>, i: nat, j: nat, t: seq<byte>)
    requires Stretch(s, i, j, t)
    ensures Trim(s) == t
    decreases |s|
  {
    if i == j {
      AllBlank(s);
    } else if i > 0 {
      assert s[1..][i - 1..j - 1] == s[i..j];
      StretchIsTrim(s[1..], i - 1, j - 1, t);
    } else if j < |s| {
      assert s[..|s| - 1][i..j] == s[i..j];
      StretchIsTrim(s[..|s| - 1], i, j, t);
    } else {
      assert s[0..|s|] == s;
    }
  }

  lemma {:induction false} AllBlank(s: seq<byte>)
    requires forall k :: 0 <= k < |s| ==> IsBlank(s[k])
    ensures Trim(s) == []
  {
    if s != [] {
      AllBlank(s[1..]);
    }
  }
}
