/**
 The table-driven CRC-32 (src/base/crc32.cpp) against its bit-serial definition, as
 used by FINGERPRINT in section 15.5 of RFC 5389.
 */
module Crc32 {
  const POLYNOMIAL: bv32 := 0xEDB88320

  // ---------------------------------------------------------------------
  // The definition: a register that takes in one bit at a time.

  function Xor(a: bv32, b: bv32): bv32 {
    a ^ b
  }

  function Half(c: bv32): bv32 {
    c >> 1
  }

  function LowBit(c: bv32): bv32 {
    c & 1
  }

  /** One shift of the register. */
  function Shift(c: bv32): bv32 {
    if c & 1 == 1 then POLYNOMIAL ^ (c >> 1) else c >> 1
  }

  /** Takes in the n low bits of b, lowest first: each is added to the low end of the
      register, which then shifts. */
  function TakeBits(c: bv32, b: bv32, n: nat): bv32
    decreases n
  {
    if n == 0 then c else TakeBits(Shift(Xor(c, LowBit(b))), Half(b), n - 1)
  }

  function TakeBytes(c: bv32, data: seq<bv8>): bv32 {
    if data == [] then c
    else
      var n := |data| - 1;
      TakeBits(TakeBytes(c, data[..n]), data[n] as bv32, 8)
  }

  /** The CRC of a message: all ones at the start, complemented at the end. */
  function Crc(data: seq<bv8>): bv32 {
    Xor(TakeBytes(0xFFFF_FFFF, data), 0xFFFF_FFFF)
  }

  // ---------------------------------------------------------------------
  // Why eight shifts can be looked up.

  function Shifts(c: bv32, n: nat): bv32
    decreases n
  {
    if n == 0 then c else Shifts(Shift(c), n - 1)
  }

  function Halves(c: bv32, n: nat): bv32
    decreases n
  {
    if n == 0 then c else Halves(Half(c), n - 1)
  }

  lemma XorOfHalves(a: bv32, b: bv32)
    ensures (a ^ b) >> 1 == (a >> 1) ^ (b >> 1)
    ensures (a ^ b) & 1 == 1 <==> (a & 1 == 1) != (b & 1 == 1)
  {
  }

  lemma XorShuffles(p: bv32, x: bv32, y: bv32)
    ensures (p ^ x) ^ (p ^ y) == x ^ y
    ensures (p ^ x) ^ y == p ^ (x ^ y) && x ^ (p ^ y) == p ^ (x ^ y)
  {
  }

  lemma ShiftOfXor(a: bv32, b: bv32)
    ensures Shift(a ^ b) == Shift(a) ^ Shift(b)
  {
    XorOfHalves(a, b);
    XorShuffles(POLYNOMIAL, a >> 1, b >> 1);
  }

  /** Shifting is linear over exclusive or. */
  lemma ShiftIsLinear(a: bv32, b: bv32)
    ensures Shift(Xor(a, b)) == Xor(Shift(a), Shift(b))
  {
    hide Shift;
    ShiftOfXor(a, b);
  }

  lemma {:induction false} ShiftsAreLinear(a: bv32, b: bv32, n: nat)
    ensures Shifts(Xor(a, b), n) == Xor(Shifts(a, n), Shifts(b, n))
    decreases n
  {
    hide Shift, Xor;
    if n > 0 {
      ShiftIsLinear(a, b);
      ShiftsAreLinear(Shift(a), Shift(b), n - 1);
    }
  }

  lemma EvenPart(c: bv32, b: bv32)
    ensures Xor(c, b) == Xor(Xor(c, LowBit(b)), b & 0xFFFF_FFFE)
  {
  }

  lemma ShiftOfEven(b: bv32)
    ensures Shift(b & 0xFFFF_FFFE) == Half(b)
  {
  }

  /** The bits above the lowest can be added before a shift or after it. */
  lemma AddBeforeShift(c: bv32, b: bv32)
    ensures Shift(Xor(c, b)) == Xor(Shift(Xor(c, LowBit(b))), Half(b))
  {
    hide Shift, Xor, LowBit, Half;
    EvenPart(c, b);
    ShiftIsLinear(Xor(c, LowBit(b)), b & 0xFFFF_FFFE);
    ShiftOfEven(b);
  }

  /** Adding all n bits first and shifting then is the same as taking them in one by
      one, but for what lies above them. */
  lemma {:induction false} AddFirst(c: bv32, b: bv32, n: nat)
    ensures Shifts(Xor(c, b), n) == Xor(TakeBits(c, b, n), Halves(b, n))
    decreases n
  {
    hide Shift, Xor, LowBit, Half;
    if n > 0 {
      AddBeforeShift(c, b);
      AddFirst(Shift(Xor(c, LowBit(b))), Half(b), n - 1);
    }
  }

  lemma EightHalves(c: bv32)
    ensures Halves(c, 8) == c >> 8
  {
    var d := Half(Half(Half(Half(c))));
    assert Halves(c, 8) == Halves(Half(c), 7) == Halves(Half(Half(c)), 6);
    assert Halves(Half(Half(c)), 6) == Halves(Half(Half(Half(c))), 5) == Halves(d, 4);
    assert Halves(d, 4) == Halves(Half(d), 3) == Halves(Half(Half(d)), 2);
    assert Halves(Half(Half(d)), 2) == Half(Half(Half(Half(d))));
    FourHalves(c);
    FourHalves(c >> 4);
    assert c >> 4 >> 4 == c >> 8;
  }

  lemma FourHalves(c: bv32)
    ensures Half(Half(Half(Half(c)))) == c >> 4
  {
  }

  /** At least n ones at the low end. */
  predicate Ones(mask: bv32, n: nat)
    decreases n
  {
    n == 0 || (mask & 1 == 1 && Ones(Half(mask), n - 1))
  }

  lemma ShiftOfHigh(h: bv32, mask: bv32)
    requires h & mask == 0 && mask & 1 == 1
    ensures Shift(h) == Half(h) && Half(h) & Half(mask) == 0
  {
  }

  /** Zero bits shift out without adding the polynomial. */
  lemma {:induction false} ShiftsOfHigh(h: bv32, mask: bv32, n: nat)
    requires h & mask == 0 && Ones(mask, n)
    ensures Shifts(h, n) == Halves(h, n)
    decreases n
  {
    hide Shift, Half;
    if n > 0 {
      ShiftOfHigh(h, mask);
      ShiftsOfHigh(Half(h), Half(mask), n - 1);
    }
  }

  lemma EightOnes()
    ensures Ones(0xFF, 8)
  {
    assert Half(0xFF) == 0x7F && Half(0x7F) == 0x3F && Half(0x3F) == 0x1F && Half(0x1F) == 0xF;
    assert Half(0xF) == 7 && Half(7) == 3 && Half(3) == 1;
    assert Ones(1, 1);
    assert Ones(3, 2);
    assert Ones(7, 3);
    assert Ones(0xF, 4);
    assert Ones(0x1F, 5);
    assert Ones(0x3F, 6);
    assert Ones(0x7F, 7);
  }

  lemma Split(c: bv32)
    ensures c == Xor(c & 0xFF, c & 0xFFFF_FF00)
    ensures (c & 0xFFFF_FF00) >> 8 == c >> 8 && (c & 0xFFFF_FF00) & 0xFF == 0
  {
  }

  lemma ShiftsOfSplit(c: bv32, low: bv32, high: bv32)
    requires c == Xor(low, high) && high & 0xFF == 0
    ensures Shifts(c, 8) == Xor(Shifts(low, 8), high >> 8)
  {
    hide Shifts, Halves, Xor, Ones;
    ShiftsAreLinear(low, high, 8);
    EightOnes();
    ShiftsOfHigh(high, 0xFF, 8);
    EightHalves(high);
  }

  /** Eight shifts of any register: those of its low byte, and the rest moved down. */
  lemma EightShifts(c: bv32)
    ensures Shifts(c, 8) == Xor(Shifts(c & 0xFF, 8), c >> 8)
  {
    hide Shifts, Xor;
    Split(c);
    ShiftsOfSplit(c, c & 0xFF, c & 0xFFFF_FF00);
  }

  lemma XorWithZero(a: bv32)
    ensures Xor(a, 0) == a
  {
  }

  lemma ByteFacts(c: bv32, b: bv8)
    ensures (b as bv32) >> 8 == 0 && Xor(c, b as bv32) >> 8 == c >> 8
  {
  }

  /** One table lookup takes in one byte. */
  lemma LookupTakesByte(c: bv32, b: bv8)
    ensures Xor(Shifts(Xor(c, b as bv32) & 0xFF, 8), c >> 8) == TakeBits(c, b as bv32, 8)
  {
    hide Shifts, TakeBits, Halves, Xor;
    var w := b as bv32;
    ByteFacts(c, b);
    AddFirst(c, w, 8);
    EightHalves(w);
    XorWithZero(TakeBits(c, w, 8));
    EightShifts(Xor(c, w));
  }

  // ---------------------------------------------------------------------
  // The program.

  function Entry(table: seq<bv32>, i: bv8): bv32
    requires |table| == 256
  {
    table[i as int]
  }

  ghost predicate IsTable(table: seq<bv32>) {
    |table| == 256 && forall i: bv8 :: Entry(table, i) == Shifts(i as bv32, 8)
  }

  /** The inner loop. */
  method EightTimes(i: bv8) returns (c: bv32)
    ensures c == Shifts(i as bv32, 8)
  {
    hide Shift;
    c := i as bv32;
    for j := 0 to 8
      invariant Shifts(c, 8 - j) == Shifts(i as bv32, 8)
    {
      c := OneShift(c);
    }
  }

  method OneShift(c: bv32) returns (r: bv32)
    ensures r == Shift(c)
  {
    if c & 1 == 1 {
      r := POLYNOMIAL ^ (c >> 1);
    } else {
      r := c >> 1;
    }
  }

  lemma SameByte(a: bv8, b: bv8)
    requires a as int == b as int
    ensures a == b
  {
  }

  lemma NextByte(b: bv8)
    requires b as int < 255
    ensures (b + 1) as int == b as int + 1
  {
  }

  method LoadCrc32Table() returns (table: array<bv32>)
    ensures fresh(table) && IsTable(table[..])
  {
    hide Shifts;
    table := new bv32[256];
    var i, b := 0, 0 as bv8;
    while i < 256
      invariant 0 <= i <= 256 && (i < 256 ==> b as int == i)
      invariant forall k: bv8 :: k as int < i ==> Entry(table[..], k) == Shifts(k as bv32, 8)
    {
      ghost var before := table[..];
      table[i] := EightTimes(b);
      forall k: bv8 | k as int < i + 1 ensures Entry(table[..], k) == Shifts(k as bv32, 8) {
        if k as int == i {
          SameByte(k, b);
        } else {
          assert Entry(table[..], k) == Entry(before, k);
        }
      }
      i := i + 1;
      if i < 256 {
        NextByte(b);
        b := b + 1;
      }
    }
  }

  function LowByte(x: bv32): (b: bv8)
    ensures b as bv32 == x & 0xFF
  {
    (x & 0xFF) as bv8
  }

  /** The loop body. */
  method TakeByte(table: array<bv32>, c: bv32, b: bv8) returns (r: bv32)
    requires IsTable(table[..])
    ensures r == TakeBits(c, b as bv32, 8)
  {
    hide Shifts, TakeBits;
    LookupTakesByte(c, b);
    var index := LowByte(Xor(c, b as bv32));
    assert Entry(table[..], index) == table[index as int];
    r := Xor(table[index as int], c >> 8);
  }

  lemma OneMoreByte(c: bv32, data: seq<bv8>, i: nat)
    requires i < |data|
    ensures TakeBytes(c, data[..i + 1]) == TakeBits(TakeBytes(c, data[..i]), data[i] as bv32, 8)
  {
    hide TakeBits;
    assert data[..i + 1][..i] == data[..i];
  }

  /** For every byte string the program computes the CRC. */
  method Calculate(table: array<bv32>, data: seq<bv8>) returns (crc: bv32)
    requires IsTable(table[..])
    ensures crc == Crc(data)
  {
    hide TakeBits, Xor, IsTable, TakeBytes;
    var c: bv32 := 0xFFFF_FFFF;
    NoBytes(c, data);
    var i := 0;
    while i < |data|
      invariant 0 <= i <= |data| && c == TakeBytes(0xFFFF_FFFF, data[..i])
    {
      OneMoreByte(0xFFFF_FFFF, data, i);
      c := TakeByte(table, c, data[i]);
      i := i + 1;
    }
    assert data[..i] == data;
    crc := Xor(c, 0xFFFF_FFFF);
  }

  lemma NoBytes(c: bv32, data: seq<bv8>)
    ensures TakeBytes(c, data[..0]) == c
  {
  }

  // ---------------------------------------------------------------------
  // A known answer.

  lemma OneMore(c: bv32, data: seq<bv8>, b: bv8)
    ensures TakeBytes(c, data + [b]) == TakeBits(TakeBytes(c, data), b as bv32, 8)
  {
    hide TakeBits;
    assert (data + [b])[..|data|] == data;
  }

  lemma FirstThree(data: seq<bv8>)
    requires TakeBytes(0xFFFF_FFFF, data) == 0xFFFFFFFF
    ensures TakeBytes(0xFFFF_FFFF, data + [0x31] + [0x32] + [0x33]) == 0x77B79C2D
  {
    hide TakeBytes;
    OneMore(0xFFFF_FFFF, data, 0x31);
    OneMore(0xFFFF_FFFF, data + [0x31], 0x32);
    OneMore(0xFFFF_FFFF, data + [0x31] + [0x32], 0x33);
    assert TakeBits(0xFFFFFFFF, 0x31, 8) == 0x7C231048;
    assert TakeBits(0x7C231048, 0x32, 8) == 0xB0ACBB32;
  }

  lemma SecondThree(data: seq<bv8>)
    requires TakeBytes(0xFFFF_FFFF, data) == 0x77B79C2D
    ensures TakeBytes(0xFFFF_FFFF, data + [0x34] + [0x35] + [0x36]) == 0xF68D2C9E
  {
    hide TakeBytes;
    OneMore(0xFFFF_FFFF, data, 0x34);
    OneMore(0xFFFF_FFFF, data + [0x34], 0x35);
    OneMore(0xFFFF_FFFF, data + [0x34] + [0x35], 0x36);
    assert TakeBits(0x77B79C2D, 0x34, 8) == 0x641C1F5C;
    assert TakeBits(0x641C1F5C, 0x35, 8) == 0x340AC5E3;
  }

  lemma ThirdThree(data: seq<bv8>)
    requires TakeBytes(0xFFFF_FFFF, data) == 0xF68D2C9E
    ensures TakeBytes(0xFFFF_FFFF, data + [0x37] + [0x38] + [0x39]) == 0x340BC6D9
  {
    hide TakeBytes;
    OneMore(0xFFFF_FFFF, data, 0x37);
    OneMore(0xFFFF_FFFF, data + [0x37], 0x38);
    OneMore(0xFFFF_FFFF, data + [0x37] + [0x38], 0x39);
    assert TakeBits(0xF68D2C9E, 0x37, 8) == 0xAFFC9660;
    assert TakeBits(0xAFFC9660, 0x38, 8) == 0x651F2550;
  }

  /** The check value of this CRC: that of the ASCII digits 1 to 9. */
  lemma KnownAnswer()
    ensures Crc([0x31, 0x32, 0x33, 0x34, 0x35, 0x36, 0x37, 0x38, 0x39]) == 0xCBF4_3926
  {
    hide TakeBits;
    var three, six := [0x31, 0x32, 0x33], [0x31, 0x32, 0x33, 0x34, 0x35, 0x36];
    FirstThree([]);
    assert [] + [0x31] + [0x32] + [0x33] == three;
    SecondThree(three);
    assert three + [0x34] + [0x35] + [0x36] == six;
    ThirdThree(six);
    assert six + [0x37] + [0x38] + [0x39] == [0x31, 0x32, 0x33, 0x34, 0x35, 0x36, 0x37, 0x38, 0x39];
  }
}
