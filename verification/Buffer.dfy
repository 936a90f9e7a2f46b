/** The growable byte queue of src/common/buffer.cpp: a vector with a read and a write position. */
module Buffers {
  import opened Bytes

  const INITIAL_SIZE := 1024

  ghost predicate IsCapacity(n: nat) {
    exists k: nat :: n == INITIAL_SIZE * Pow2(k)
  }

  lemma DoubleIsCapacity(n: nat)
    requires IsCapacity(n)
    ensures IsCapacity(2 * n)
  {
    var k: nat :| n == INITIAL_SIZE * Pow2(k);
    assert 2 * n == INITIAL_SIZE * Pow2(k + 1);
  }

  function Max(a: nat, b: nat): nat {
    if a < b then b else a
  }

  class Buffer {
    var buf: array<byte>
    var readPos: nat
    var writePos: nat
    ghost var Peak: nat  // the largest readable-plus-incoming size any append has asked for

    ghost predicate Valid()
      reads this, buf
    {
      && readPos <= writePos <= buf.Length
      && IsCapacity(buf.Length)
      && buf.Length <= Max(INITIAL_SIZE, 4 * Peak)
    }

    /** What the buffer stands for: the bytes received and not yet consumed. */
    ghost function Contents(): (s: seq<byte>)
      requires readPos <= writePos <= buf.Length
      reads this, buf
    {
      buf[readPos..writePos]
    }

    constructor ()
      ensures Valid() && fresh(buf)
      ensures Contents() == [] && writePos == 0 && buf.Length == INITIAL_SIZE && Peak == 0
    {
      buf := new byte[INITIAL_SIZE];
      readPos, writePos := 0, 0;
      Peak := 0;
      assert Pow2(0) == 1;
    }

    method Append(data: seq<byte>)
      requires Valid()
      modifies this, buf
      ensures Valid() && (buf == old(buf) || fresh(buf))
      ensures Contents() == old(Contents()) + data
      ensures Peak == if data == [] then old(Peak) else Max(old(Peak), |old(Contents())| + |data|)
      // a reallocation happens only when compaction could not have made room
      ensures buf.Length > old(buf.Length) ==> |old(Contents())| + |data| > old(buf.Length)
      ensures buf.Length >= old(buf.Length)
    {
      if |data| == 0 {
        return;
      }
      MakeSpace(|data|);
      CopyIn(data);
      Joined(buf[..], readPos, writePos, writePos + |data|);
      writePos := writePos + |data|;
    }

    static lemma Joined(s: seq<byte>, i: nat, j: nat, k: nat)
      requires i <= j <= k <= |s|
      ensures s[i..k] == s[i..j] + s[j..k]
    {
    }

    /** The memcpy to the write position. */
    method CopyIn(data: seq<byte>)
      requires readPos <= writePos && writePos + |data| <= buf.Length
      modifies buf
      ensures buf[readPos..writePos] == old(buf[readPos..writePos])
      ensures buf[writePos..writePos + |data|] == data
    {
      for i := 0 to |data|
        invariant forall k :: readPos <= k < writePos ==> buf[k] == old(buf[k])
        invariant forall k :: 0 <= k < i ==> buf[writePos + k] == data[k]
      {
        buf[writePos + i] := data[i];
      }
    }

    method Peek() returns (s: seq<byte>)
      requires Valid()
      ensures s == Contents()
    {
      s := buf[readPos..writePos];
    }

    method ReadableBytes() returns (n: nat)
      requires Valid()
      ensures n == |Contents()|
    {
      n := writePos - readPos;
    }

    method Consume(len: nat)
      requires Valid()
      modifies this`readPos
      ensures Valid()
      ensures Contents() == if len <= |old(Contents())| then old(Contents())[len..] else []
    {
      var n := if len > writePos - readPos then writePos - readPos else len;
      readPos := readPos + n;
    }

    method RetrieveAll() returns (s: seq<byte>)
      requires Valid()
      modifies this`readPos, this`writePos
      ensures Valid() && s == old(Contents()) && Contents() == []
    {
      s := buf[readPos..writePos];
      Clear();
    }

    function WritableBytes(): (n: nat)
      requires writePos <= buf.Length
      reads this
    {
      buf.Length - writePos
    }

    /** `recv` into `writeBegin()` followed by `hasWritten`: the bytes land in the fixed tail. */
    method ReceiveInto(data: seq<byte>)
      requires Valid()
      requires |data| <= WritableBytes()
      modifies this`writePos, buf
      ensures Valid() && Contents() == old(Contents()) + data
      ensures writePos == old(writePos) + |data|
    {
      CopyIn(data);
      Joined(buf[..], readPos, writePos, writePos + |data|);
      writePos := writePos + |data|;
    }

    method Clear()
      requires Valid()
      modifies this`readPos, this`writePos
      ensures Valid() && Contents() == [] && writePos == 0
    {
      readPos, writePos := 0, 0;
    }

    /** Makes `len` bytes writable: in place, by moving the contents down, or by doubling. */
    method MakeSpace(len: nat)
      requires Valid() && len > 0
      modifies this, buf
      ensures Valid() && (buf == old(buf) || fresh(buf))
      ensures Contents() == old(Contents()) && WritableBytes() >= len
      ensures Peak == Max(old(Peak), |old(Contents())| + len)
      ensures buf.Length == old(buf.Length) || |old(Contents())| + len > old(buf.Length)
      ensures buf.Length >= old(buf.Length)
    {
      Peak := Max(Peak, writePos - readPos + len);
      if buf.Length - writePos >= len {
        return;
      }
      if readPos + (buf.Length - writePos) >= len {
        Compact();
        return;
      }
      Grow(len);
    }

    method Compact()
      requires readPos <= writePos <= buf.Length
      modifies this`readPos, this`writePos, buf
      ensures readPos == 0 && writePos == old(writePos - readPos)
      ensures buf[..writePos] == old(buf[readPos..writePos])
    {
      var readable := writePos - readPos;
      MoveDown(readable);
      readPos, writePos := 0, readable;
    }

    method Grow(len: nat)
      requires readPos <= writePos <= buf.Length && IsCapacity(buf.Length)
      requires buf.Length < writePos - readPos + len
      modifies this`buf
      ensures fresh(buf) && writePos + len <= buf.Length
      ensures IsCapacity(buf.Length) && 2 * old(buf.Length) <= buf.Length <= 4 * (writePos - readPos + len)
      ensures buf[readPos..writePos] == old(buf[readPos..writePos])
    {
      var newCap := GrownCapacity(buf.Length, writePos, len);
      var grown := new byte[newCap];
      forall i | 0 <= i < buf.Length {
        grown[i] := buf[i];
      }
      assert forall i :: readPos <= i < writePos ==> grown[i] == buf[i];
      assert grown[readPos..writePos] == buf[readPos..writePos];
      buf := grown;
    }

    /** The doubling loop: the least doubling of `cap`, at least one, with room for `len` past `writePos`. */
    static method GrownCapacity(cap: nat, writePos: nat, len: nat) returns (newCap: nat)
      requires IsCapacity(cap)
      ensures IsCapacity(newCap) && newCap >= 2 * cap && newCap >= writePos + len
      ensures newCap > 2 * cap ==> newCap < 2 * (writePos + len)
    {
      DoubleIsCapacity(cap);
      newCap := cap * 2;
      while newCap < writePos + len
        invariant IsCapacity(newCap) && newCap >= 2 * cap
        invariant newCap > 2 * cap ==> newCap < 2 * (writePos + len)
        decreases writePos + len - newCap
      {
        DoubleIsCapacity(newCap);
        newCap := newCap * 2;
      }
    }

    /** The memmove of compaction: overlapping, lowest byte first. */
    method MoveDown(readable: nat)
      requires readPos + readable <= buf.Length
      modifies buf
      ensures buf[..readable] == old(buf[readPos..readPos + readable])
    {
      for i := 0 to readable
        invariant buf[..i] == old(buf[readPos..readPos + i])
        invariant forall k :: i + readPos <= k < buf.Length ==> buf[k] == old(buf[k])
      {
        buf[i] := buf[readPos + i];
        assert buf[..i + 1] == buf[..i] + [buf[i]];
      }
    }
  }
}
