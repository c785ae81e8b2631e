/** Big-endian reads from a byte string and writes to a growing buffer
    (slave/util/buffer.h). A read that would throw returns None. */
module Buffers {
  import opened Wrappers

  // ---------------------------------------------------------------- numbers as bytes

  type Uint16 = x: int | 0 <= x < 0x1_0000

  type Uint32 = x: int | 0 <= x < 0x1_0000_0000

  function Bytes16(v: Uint16): (b: Bytes)
    ensures |b| == 2
  {
    [v / 256, v % 256]
  }

  function Bytes32(v: Uint32): (b: Bytes)
    ensures |b| == 4
  {
    [v / 0x100_0000, v / 0x1_0000 % 256, v / 256 % 256, v % 256]
  }

  function Value16(b: Bytes): (v: Uint16)
    requires |b| == 2
  {
    (b[0] as int) * 256 + b[1] as int
  }

  function Value32(b: Bytes): (v: Uint32)
    requires |b| == 4
  {
    (b[0] as int) * 0x100_0000 + (b[1] as int) * 0x1_0000 + (b[2] as int) * 256 + b[3] as int
  }

  /** The two octets from i on spell the number, the more significant first. */
  ghost predicate Spells16(b: Bytes, i: nat, v: int) {
    i + 2 <= |b| && b[i] as int * 0x100 + b[i + 1] as int == v
  }

  /** The four octets from i on spell the number, the most significant first. */
  ghost predicate Spells32(b: Bytes, i: nat, v: int) {
    && i + 4 <= |b|
    && b[i] as int * 0x100_0000 + b[i + 1] as int * 0x1_0000 + b[i + 2] as int * 0x100 + b[i + 3] as int == v
  }

  lemma SpelledAt(b: Bytes, i: nat)
    ensures i + 2 <= |b| ==> Spells16(b, i, Value16(b[i..i + 2]))
    ensures i + 4 <= |b| ==> Spells32(b, i, Value32(b[i..i + 4]))
  {
  }

  lemma BigEndianRoundTrip(v: Uint16, w: Uint32)
    ensures Value16(Bytes16(v)) == v && Spells16(Bytes16(v), 0, v)
    ensures Value32(Bytes32(w)) == w && Spells32(Bytes32(w), 0, w)
  {
    var a := w / 256;
    var b := a / 256;
    var c := b / 256;
    assert w == a * 256 + w % 256 && a == b * 256 + a % 256 && b == c * 256 + b % 256;
    assert b == w / 0x1_0000 && c == w / 0x100_0000;
  }

  // ---------------------------------------------------------------- reading

  class InputBuffer {
    const data: Bytes
    var position: nat

    predicate Valid()
      reads this
    {
      position <= |data|
    }

    constructor (data: Bytes)
      ensures Valid() && this.data == data && position == 0
    {
      this.data, position := data, 0;
    }

    method SetPosition(p: nat) returns (ok: bool)
      modifies this
      ensures ok <==> p <= |data|
      ensures position == if ok then p else old(position)
    {
      ok := p <= |data|;
      if ok {
        position := p;
      }
    }

    method ReadData(len: nat) returns (r: Option<Bytes>)
      requires Valid()
      modifies this
      ensures Valid()
      ensures old(position) + len <= |data|
              ==> r == Some(data[old(position)..old(position) + len]) && position == old(position) + len
      ensures old(position) + len > |data| ==> r.None? && position == old(position)
    {
      if position + len > |data| {
        return None;
      }
      r := Some(data[position..position + len]);
      position := position + len;
    }

    method ReadUint8() returns (r: Option<Byte>)
      requires Valid()
      modifies this
      ensures Valid()
      ensures old(position) < |data| ==> r == Some(data[old(position)]) && position == old(position) + 1
      ensures old(position) >= |data| ==> r.None? && position == old(position)
    {
      var b := ReadData(1);
      r := if b.Some? then Some(b.value[0]) else None;
    }

    method ReadUint16() returns (r: Option<Uint16>)
      requires Valid()
      modifies this
      ensures Valid()
      ensures old(position) + 2 <= |data|
              ==> r == Some(Value16(data[old(position)..old(position) + 2])) && position == old(position) + 2
      ensures r.Some? ==> Spells16(data, old(position), r.value)
      ensures old(position) + 2 > |data| ==> r.None? && position == old(position)
    {
      SpelledAt(data, position);
      var b := ReadData(2);
      r := if b.Some? then Some(Value16(b.value)) else None;
    }

    method ReadUint32() returns (r: Option<Uint32>)
      requires Valid()
      modifies this
      ensures Valid()
      ensures old(position) + 4 <= |data|
              ==> r == Some(Value32(data[old(position)..old(position) + 4])) && position == old(position) + 4
      ensures r.Some? ==> Spells32(data, old(position), r.value)
      ensures old(position) + 4 > |data| ==> r.None? && position == old(position)
    {
      SpelledAt(data, position);
      var b := ReadData(4);
      r := if b.Some? then Some(Value32(b.value)) else None;
    }
  }

  // ---------------------------------------------------------------- writing

  class OutputBuffer {
    var buffer: array<Byte>
    var size: nat

    ghost predicate Valid()
      reads this
    {
      size <= buffer.Length
    }

    ghost function Contents(): (s: Bytes)
      requires Valid()
      reads this, buffer
    {
      buffer[..size]
    }

    constructor (len: nat)
      ensures Valid() && fresh(buffer) && buffer.Length == len && Contents() == []
    {
      buffer := new Byte[len];
      size := 0;
    }

    /** Doubles the allocation until it is large enough, keeping the contents. */
    method EnsureAllocated(needed: nat)
      requires Valid()
      modifies this
      ensures Valid() && buffer.Length >= needed && size == old(size)
      ensures buffer == old(buffer) || fresh(buffer)
      ensures Contents() == old(Contents())
    {
      if buffer.Length < needed {
        var newSize := if buffer.Length == 0 then 1024 else buffer.Length;
        while newSize < needed
          invariant newSize >= buffer.Length && newSize > 0
        {
          newSize := newSize * 2;
        }
        var bigger := new Byte[newSize];
        forall i | 0 <= i < size {
          bigger[i] := buffer[i];
        }
        buffer := bigger;
      }
    }

    method WriteData(data: Bytes)
      requires Valid()
      modifies this, buffer
      ensures Valid() && (buffer == old(buffer) || fresh(buffer))
      ensures Contents() == old(Contents()) + data
    {
      EnsureAllocated(size + |data|);
      ghost var was := buffer[..];
      forall i | 0 <= i < |data| {
        buffer[size + i] := data[i];
      }
      assert forall i | 0 <= i < size :: buffer[i] == was[i];
      assert buffer[..size] == was[..size];
      ghost var d := buffer[size..size + |data|];
      forall i | 0 <= i < |data|
        ensures d[i] == data[i]
      {
        assert buffer[size + i] == data[i];
      }
      assert d == data;
      size := size + |data|;
    }

    method WriteUint8(v: Byte)
      requires Valid()
      modifies this, buffer
      ensures Valid() && (buffer == old(buffer) || fresh(buffer))
      ensures Contents() == old(Contents()) + [v]
    {
      WriteData([v]);
    }

    method WriteUint16(v: Uint16)
      requires Valid()
      modifies this, buffer
      ensures Valid() && (buffer == old(buffer) || fresh(buffer))
      ensures Contents() == old(Contents()) + Bytes16(v)
      ensures Spells16(Contents(), |old(Contents())|, v)
    {
      BigEndianRoundTrip(v, 0);
      WriteData(Bytes16(v));
    }

    method WriteUint32(v: Uint32)
      requires Valid()
      modifies this, buffer
      ensures Valid() && (buffer == old(buffer) || fresh(buffer))
      ensures Contents() == old(Contents()) + Bytes32(v)
      ensures Spells32(Contents(), |old(Contents())|, v)
    {
      BigEndianRoundTrip(0, v);
      WriteData(Bytes32(v));
    }

    method Clear()
      requires Valid()
      modifies this
      ensures Valid() && buffer == old(buffer) && Contents() == []
    {
      size := 0;
    }
  }
}
