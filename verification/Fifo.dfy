/**
 The circular byte buffer of the bridge driver. Sizes and positions are 16-bit, so the
 verifier also rules out every wrap-around of `size` and `tail`; index arithmetic is done
 in `int`, to which C promotes its operands.
 */
module Fifos {
  import opened Bytes

  newtype uint16 = x: int | 0 <= x < 0x1_0000

  lemma Wrap(x: nat, c: nat)
    requires 0 < c
    ensures x < 2 * c ==> x % c == if x < c then x else x - c
  {
  }

  class Fifo {
    const capacity: uint16
    var size: uint16
    var tail: uint16
    const buf: array<byte>

    ghost predicate Valid()
      reads this
    {
      && 0 < capacity && buf.Length == capacity as int
      && size <= capacity && tail < capacity
    }

    // Position in `buf` of the byte that is `o` places behind the tail.
    function Position(o: nat): (p: nat)
      requires Valid()
      reads this
      ensures p < buf.Length
      ensures o <= capacity as int ==>
                p == if tail as int + o < buf.Length then tail as int + o else tail as int + o - buf.Length
    {
      Wrap(tail as int + o, capacity as int);
      (tail as int + o) % capacity as int
    }

    // The buffered bytes, oldest first.
    ghost function Contents(): (s: bytes)
      requires Valid()
      reads this, buf
      ensures |s| == size as int
    {
      seq(size as int, i requires 0 <= i < size as int reads this, buf requires Valid() => buf[Position(i)])
    }

    constructor (cap: uint16)
      requires 0 < cap
      ensures Valid() && fresh(buf) && capacity == cap && Contents() == []
    {
      capacity, size, tail := cap, 0, 0;
      buf := new byte[cap as int](_ => 0);
    }

    method Peek(offset: nat) returns (c: byte)
      requires Valid() && offset < size as int
      ensures c == Contents()[offset]
    {
      c := buf[Position(offset)];
    }

    method AddByte(c: byte)
      requires Valid() && size < capacity
      modifies this`size, buf
      ensures Valid() && size == old(size) + 1
      ensures Contents() == old(Contents()) + [c]
    {
      buf[Position(size as int)] := c;
      size := size + 1;
    }

    method AddBuf(data: array<byte>, n: nat)
      requires Valid() && data != buf && n <= data.Length
      requires n <= (capacity - size) as int
      modifies this`size, buf
      ensures Valid() && size as int == old(size) as int + n
      ensures Contents() == old(Contents()) + data[..n]
    {
      var i := 0;
      while i < n
        invariant 0 <= i <= n
        invariant Valid() && size as int == old(size) as int + i
        invariant Contents() == old(Contents()) + data[..i]
        invariant data[..] == old(data[..])
      {
        AddByte(data[i]);
        i := i + 1;
      }
    }

    method GetByte() returns (c: byte)
      requires Valid() && 0 < size
      modifies this`size, this`tail
      ensures Valid() && size == old(size) - 1
      ensures old(Contents()) == [c] + Contents()
    {
      c := buf[tail];
      ghost var was := Contents();
      tail := Position(1) as uint16;
      size := size - 1;
      assert was == [c] + Contents();
    }

    method GetBuf(data: array<byte>, n: nat)
      requires Valid() && data != buf && n <= data.Length && n <= size as int
      modifies this`size, this`tail, data
      ensures Valid() && size as int == old(size) as int - n
      ensures old(Contents()) == data[..n] + Contents()
      ensures data[n..] == old(data[n..])
    {
      ghost var was := Contents();
      var i := 0;
      while i < n
        invariant 0 <= i <= n
        invariant Valid() && size as int == old(size) as int - i
        invariant Contents() == was[i..]
        invariant forall j | 0 <= j < i :: data[j] == was[j]
        invariant forall j | i <= j < data.Length :: data[j] == old(data[j])
      {
        var c := GetByte();
        assert was[i..] == [c] + was[i + 1..];
        ghost var left := Contents();
        data[i] := c;
        assert Contents() == left;
        i := i + 1;
      }
      assert was == was[..n] + was[n..];
    }
  }
}
