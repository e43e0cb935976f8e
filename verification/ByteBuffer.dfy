/**
 Big-endian loads and stores and the two cursors over a byte buffer
 (src/base/byte_buffer.cpp).
 */
module ByteBuffer {
  import opened SequenceNumber

  type uint8 = x: int | 0 <= x < 0x100
  type uint24 = x: int | 0 <= x < 0x100_0000
  type uint32 = x: int | 0 <= x < 0x1_0000_0000

  function Bytes16(v: uint16): (r: seq<uint8>)
    ensures |r| == 2
  {
    [v / 0x100, v % 0x100]
  }

  function Bytes24(v: uint24): (r: seq<uint8>)
    ensures |r| == 3
  {
    [v / 0x1_0000, v / 0x100 % 0x100, v % 0x100]
  }

  function Bytes32(v: uint32): (r: seq<uint8>)
    ensures |r| == 4
  {
    Bytes16(v / 0x1_0000) + Bytes16(v % 0x1_0000)
  }

  /** A load reads at an offset the number whose bytes stand there. */
  function Load16(s: seq<uint8>, at: nat): (v: uint16)
    requires at + 2 <= |s|
  {
    (s[at] as int) * 0x100 + s[at + 1]
  }

  function Load24(s: seq<uint8>, at: nat): (v: uint24)
    requires at + 3 <= |s|
  {
    ((s[at] as int) * 0x100 + s[at + 1]) * 0x100 + s[at + 2]
  }

  function Load32(s: seq<uint8>, at: nat): (v: uint32)
    requires at + 4 <= |s|
  {
    assert s[at..at + 4] == s[at..at + 2] + s[at + 2..at + 4];
    (Load16(s, at) as int) * 0x1_0000 + Load16(s, at + 2)
  }

  lemma Stored16(s: seq<uint8>, at: nat, v: uint16)
    requires at + 2 <= |s| && s[at..at + 2] == Bytes16(v)
    ensures Load16(s, at) == v
  {
    assert s[at..at + 2][0] == s[at] && s[at..at + 2][1] == s[at + 1];
  }

  lemma Stored24(s: seq<uint8>, at: nat, v: uint24)
    requires at + 3 <= |s| && s[at..at + 3] == Bytes24(v)
    ensures Load24(s, at) == v
  {
    assert s[at..at + 3][0] == s[at] && s[at..at + 3][1] == s[at + 1] && s[at..at + 3][2] == s[at + 2];
  }

  lemma Stored32(s: seq<uint8>, at: nat, v: uint32)
    requires at + 4 <= |s| && s[at..at + 4] == Bytes32(v)
    ensures Load32(s, at) == v
  {
    var high, low: uint16 := v / 0x1_0000, v % 0x1_0000;
    assert s[at..at + 2] == s[at..at + 4][..2] == Bytes16(high);
    assert s[at + 2..at + 4] == s[at..at + 4][2..] == Bytes16(low);
    Stored16(s, at, high);
    Stored16(s, at + 2, low);
  }

  lemma SliceSplits(p: seq<uint8>, index: nat, a: seq<uint8>, b: seq<uint8>)
    requires index + |a + b| <= |p| && p[index..index + |a + b|] == a + b
    ensures p[index..index + |a|] == a
    ensures p[index + |a|..index + |a| + |b|] == b
  {
    var whole := p[index..index + |a + b|];
    assert p[index..index + |a|] == whole[..|a|];
    assert p[index + |a|..index + |a| + |b|] == whole[|a|..];
  }

  lemma Loaded16(s: seq<uint8>, at: nat)
    requires at + 2 <= |s|
    ensures Bytes16(Load16(s, at)) == s[at..at + 2]
  {
  }

  lemma Loaded32(s: seq<uint8>, at: nat)
    requires at + 4 <= |s|
    ensures Bytes32(Load32(s, at)) == s[at..at + 4]
  {
    hide Bytes16, Load16;
    Loaded16(s, at);
    Loaded16(s, at + 2);
    assert s[at..at + 4] == s[at..at + 2] + s[at + 2..at + 4];
    var high, low: uint16 := Load16(s, at), Load16(s, at + 2);
    assert Load32(s, at) / 0x1_0000 == high && Load32(s, at) % 0x1_0000 == low;
  }

  class ByteWriter {
    const bytes: array<uint8>
    const size: nat
    var len: nat

    ghost predicate Valid()
      reads this
    {
      len <= size <= bytes.Length
    }

    ghost function Written(): seq<uint8>
      requires Valid()
      reads this, bytes
    {
      bytes[..len]
    }

    constructor (bytes: array<uint8>, size: nat)
      requires size <= bytes.Length
      ensures Valid() && this.bytes == bytes && this.size == size && len == 0
    {
      this.bytes := bytes;
      this.size := size;
      len := 0;
    }

    function Left(): nat
      requires Valid()
      reads this
    {
      size - len
    }

    /** Every write either appends all of its bytes or, when they do not fit,
        changes nothing. */
    method WriteBytes(val: seq<uint8>) returns (ok: bool)
      requires Valid()
      modifies this, bytes
      ensures Valid()
      ensures ok == (|val| <= old(Left()))
      ensures Written() == if ok then old(Written()) + val else old(Written())
    {
      if Left() < |val| {
        return false;
      }
      ghost var before := Written();
      var i := 0;
      while i < |val|
        invariant 0 <= i <= |val| && len + i <= size && len == old(len)
        invariant bytes[..len] == before
        invariant bytes[len..len + i] == val[..i]
      {
        bytes[len + i] := val[i];
        i := i + 1;
      }
      assert bytes[..len + |val|] == bytes[..len] + bytes[len..len + |val|];
      len := len + |val|;
      return true;
    }

    method WriteUInt8(val: uint8) returns (ok: bool)
      requires Valid()
      modifies this, bytes
      ensures Valid()
      ensures ok == (1 <= old(Left()))
      ensures Written() == if ok then old(Written()) + [val] else old(Written())
    {
      if Left() < 1 {
        return false;
      }
      bytes[len] := val;
      len := len + 1;
      return true;
    }

    method WriteUInt16(val: uint16) returns (ok: bool)
      requires Valid()
      modifies this, bytes
      ensures Valid()
      ensures ok == (2 <= old(Left()))
      ensures Written() == if ok then old(Written()) + Bytes16(val) else old(Written())
    {
      if Left() < 2 {
        return false;
      }
      bytes[len], bytes[len + 1] := val / 0x100, val % 0x100;
      len := len + 2;
      return true;
    }

    method WriteUInt24(val: uint24) returns (ok: bool)
      requires Valid()
      modifies this, bytes
      ensures Valid()
      ensures ok == (3 <= old(Left()))
      ensures Written() == if ok then old(Written()) + Bytes24(val) else old(Written())
    {
      if Left() < 3 {
        return false;
      }
      bytes[len], bytes[len + 1], bytes[len + 2] := val / 0x1_0000, val / 0x100 % 0x100, val % 0x100;
      len := len + 3;
      return true;
    }

    method WriteUInt32(val: uint32) returns (ok: bool)
      requires Valid()
      modifies this, bytes
      ensures Valid()
      ensures ok == (4 <= old(Left()))
      ensures Written() == if ok then old(Written()) + Bytes32(val) else old(Written())
    {
      if Left() < 4 {
        return false;
      }
      var high, low := val / 0x1_0000, val % 0x1_0000;
      bytes[len], bytes[len + 1] := high / 0x100, high % 0x100;
      bytes[len + 2], bytes[len + 3] := low / 0x100, low % 0x100;
      len := len + 4;
      return true;
    }
  }

  /** A reader never changes the buffer, so the buffer is a value here. */
  class ByteReader {
    const bytes: seq<uint8>
    const end: nat
    var start: nat

    ghost predicate Valid()
      reads this
    {
      start <= end <= |bytes|
    }

    constructor (bytes: seq<uint8>, end: nat)
      requires end <= |bytes|
      ensures Valid() && this.bytes == bytes && this.end == end && start == 0
    {
      this.bytes := bytes;
      this.end := end;
      start := 0;
    }

    function Left(): nat
      requires Valid()
      reads this
    {
      end - start
    }

    method ReadBytes(n: nat) returns (ok: bool, val: seq<uint8>)
      requires Valid()
      modifies this
      ensures Valid()
      ensures ok == (n <= old(Left()))
      ensures start == if ok then old(start) + n else old(start)
      ensures ok ==> val == bytes[old(start)..start]
    {
      if Left() < n {
        return false, [];
      }
      val := bytes[start..start + n];
      start := start + n;
      ok := true;
    }

    method ReadUInt16() returns (ok: bool, val: uint16)
      requires Valid()
      modifies this
      ensures Valid()
      ensures ok == (2 <= old(Left()))
      ensures start == if ok then old(start) + 2 else old(start)
      ensures ok ==> Bytes16(val) == bytes[old(start)..start]
    {
      hide Load16, Bytes16;
      if Left() < 2 {
        return false, 0;
      }
      Loaded16(bytes, start);
      val := Load16(bytes, start);
      start := start + 2;
      ok := true;
    }

    method ReadUInt32() returns (ok: bool, val: uint32)
      requires Valid()
      modifies this
      ensures Valid()
      ensures ok == (4 <= old(Left()))
      ensures start == if ok then old(start) + 4 else old(start)
      ensures ok ==> Bytes32(val) == bytes[old(start)..start]
    {
      hide Load32, Bytes32;
      if Left() < 4 {
        return false, 0;
      }
      Loaded32(bytes, start);
      val := Load32(bytes, start);
      start := start + 4;
      ok := true;
    }

    method Consume(n: int) returns (ok: bool)
      requires Valid()
      modifies this
      ensures Valid()
      ensures ok == (0 <= n <= old(Left()))
      ensures start == if ok then old(start) + n else old(start)
    {
      if n < 0 || Left() < n {
        return false;
      }
      start := start + n;
      return true;
    }
  }
}
