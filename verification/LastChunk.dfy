/**
 The in-place buffer behind the adaptive encoder: a 14-entry array, a size and
 two flags (class LastChunk in src/rtp_rtcp/transport_feedback.cpp).
 */
module LastChunkBuffer {
  import opened SequenceNumber
  import opened StatusChunk

  class LastChunk {
    const deltaSizes: array<DeltaSize>
    var size: nat
    var allSame: bool
    var hasLargeDelta: bool

    ghost predicate Valid()
      reads this, deltaSizes
    {
      && deltaSizes.Length == ONE_BIT_CAPACITY
      && size <= RUN_LENGTH_CAPACITY
      && (allSame ==> forall i :: 0 <= i < Min(size, ONE_BIT_CAPACITY) ==> deltaSizes[i] == deltaSizes[0])
      && (!allSame ==> size <= ONE_BIT_CAPACITY)
      && (!hasLargeDelta ==> forall i :: 0 <= i < Min(size, ONE_BIT_CAPACITY) ==> deltaSizes[i] < LARGE)
      && (!allSame && size > TWO_BIT_CAPACITY ==> forall i :: 0 <= i < size ==> deltaSizes[i] < LARGE)
    }

    /** The symbols held. Beyond the array only a run of equal symbols fits. */
    ghost function Contents(): (r: seq<DeltaSize>)
      requires Valid()
      reads this, deltaSizes
      ensures |r| == size && Encodable(r)
      ensures forall i :: 0 <= i < Min(size, ONE_BIT_CAPACITY) ==> r[i] == deltaSizes[i]
    {
      if allSame then
        var first := deltaSizes[0];
        seq(size, i => first)
      else
        deltaSizes[..size]
    }

    /** The flags say exactly what is held. Decoding leaves them weaker than that. */
    ghost predicate Exact()
      requires Valid()
      reads this, deltaSizes
    {
      && (allSame <==> AllSame(Contents()))
      && (hasLargeDelta <==> !NoLarge(Contents()))
    }

    constructor ()
      ensures Valid() && Exact() && Contents() == [] && fresh(deltaSizes)
    {
      deltaSizes := new DeltaSize[14](i => 0);
      size, allSame, hasLargeDelta := 0, true, false;
    }

    predicate Empty()
      reads this
    {
      size == 0
    }

    method Clear()
      requires Valid()
      modifies this
      ensures Valid() && Exact() && Contents() == []
    {
      size, allSame, hasLargeDelta := 0, true, false;
    }

    /** Anything it admits is encodable; with exact flags it admits everything
        that is. */
    predicate CanAdd(deltaSize: DeltaSize)
      requires Valid() && deltaSize <= 2
      reads this, deltaSizes
      ensures CanAdd(deltaSize) ==> Encodable(Contents() + [deltaSize])
      ensures Exact() && Encodable(Contents() + [deltaSize]) ==> CanAdd(deltaSize)
    {
      assert AllSame(Contents() + [deltaSize]) ==> AllSame(Contents()) by {
        if AllSame(Contents() + [deltaSize]) {
          var both := Contents() + [deltaSize];
          forall i | 0 <= i < size ensures Contents()[i] == Contents()[0] {
            assert both[i] == both[0];
          }
          assert size > 0 ==> both[size] == both[0];
        }
      }
      assert NoLarge(Contents() + [deltaSize]) ==> NoLarge(Contents()) && deltaSize < LARGE by {
        if NoLarge(Contents() + [deltaSize]) {
          var both := Contents() + [deltaSize];
          forall i | 0 <= i < size ensures Contents()[i] < LARGE {
            assert both[i] < LARGE;
          }
          assert both[size] == deltaSize;
        }
      }
      assert AllSame(Contents() + [deltaSize]) && size > 0 ==> deltaSize == deltaSizes[0] by {
        assert (Contents() + [deltaSize])[size] == deltaSize;
      }
      || size < TWO_BIT_CAPACITY
      || (size < ONE_BIT_CAPACITY && !hasLargeDelta && deltaSize != LARGE)
      || (size < RUN_LENGTH_CAPACITY && allSame && deltaSizes[0] == deltaSize)
    }

    method Add(deltaSize: DeltaSize)
      requires Valid() && deltaSize <= 2 && CanAdd(deltaSize)
      modifies this, deltaSizes
      ensures Valid() && Contents() == old(Contents()) + [deltaSize]
      ensures old(Exact()) ==> Exact()
    {
      ghost var before := Contents();
      if size < ONE_BIT_CAPACITY {
        deltaSizes[size] := deltaSize;
      }
      size := size + 1;
      allSame := allSame && deltaSize == deltaSizes[0];
      hasLargeDelta := hasLargeDelta || deltaSize == LARGE;
      assert Contents() == before + [deltaSize];
      AllSamePush(before, deltaSize);
      NoLargePush(before, deltaSize);
    }

    /** Encodes as one chunk and removes the symbols that EmitCount names. */
    method Emit() returns (chunk: uint16)
      requires Valid()
      requires TWO_BIT_CAPACITY <= size
      modifies this, deltaSizes
      ensures Valid() && Exact() && size < TWO_BIT_CAPACITY
      ensures DecodedFully(chunk) + Contents() == old(Contents())
      ensures old(Exact()) ==>
                && chunk == EmitChunk(old(Contents()))
                && Contents() == old(Contents())[EmitCount(old(Contents()))..]
    {
      ghost var before := Contents();
      if allSame {
        chunk := EncodeRunLength();
        RunLengthRoundTrip(before);
        Clear();
        return;
      }
      if size == ONE_BIT_CAPACITY {
        chunk := EncodeOneBit();
        OneBitRoundTrip(before);
        Clear();
        return;
      }
      chunk := EncodeTwoBit(TWO_BIT_CAPACITY);
      TwoBitRoundTrip(before[..TWO_BIT_CAPACITY]);
      DropTwoBit();
      assert before == before[..TWO_BIT_CAPACITY] + before[TWO_BIT_CAPACITY..];
    }

    /** Removes the seven symbols just encoded, shifting the rest down and
        recomputing the flags. */
    method DropTwoBit()
      requires Valid() && !allSame && TWO_BIT_CAPACITY <= size < ONE_BIT_CAPACITY
      modifies this, deltaSizes
      ensures Valid() && Exact() && Contents() == old(Contents())[TWO_BIT_CAPACITY..]
    {
      ghost var before := Contents();
      ghost var rest := before[TWO_BIT_CAPACITY..];
      size := size - TWO_BIT_CAPACITY;
      allSame, hasLargeDelta := true, false;
      var i := 0;
      while i < size
        invariant 0 <= i <= size == |rest|
        invariant forall j :: 0 <= j < i ==> deltaSizes[j] == rest[j]
        invariant forall j :: i <= j < |rest| ==> deltaSizes[TWO_BIT_CAPACITY + j] == rest[j]
        invariant allSame <==> forall j :: 0 <= j < i ==> rest[j] == rest[0]
        invariant !hasLargeDelta
      {
        var deltaSize := deltaSizes[TWO_BIT_CAPACITY + i];
        deltaSizes[i] := deltaSize;
        allSame := allSame && deltaSize == deltaSizes[0];
        hasLargeDelta := hasLargeDelta || deltaSize == LARGE;
        i := i + 1;
      }
      assert Contents() == rest;
    }

    method EncodeLast() returns (chunk: uint16)
      requires Valid() && size > 0
      ensures Decoded(chunk, size) == Contents()
      ensures allSame ==> chunk == RunLengthChunk(Contents()[0], size)
      ensures !allSame && size <= TWO_BIT_CAPACITY ==> chunk == TwoBitChunk(Contents())
      ensures !allSame && size > TWO_BIT_CAPACITY ==> chunk == OneBitChunk(Contents())
    {
      ghost var now := Contents();
      if allSame {
        chunk := EncodeRunLength();
        RunLengthRoundTrip(now);
      } else if size <= TWO_BIT_CAPACITY {
        chunk := EncodeTwoBit(size);
        assert now[..size] == now;
        TwoBitRoundTrip(now);
      } else {
        chunk := EncodeOneBit();
        OneBitRoundTrip(now);
      }
    }

    method AppendTo(deltas: seq<DeltaSize>) returns (r: seq<DeltaSize>)
      requires Valid()
      ensures r == deltas + Contents()
    {
      if allSame {
        var first := deltaSizes[0];
        r := deltas + seq(size, i => first);
      } else {
        r := deltas + deltaSizes[..size];
      }
    }

    /** Whatever the word, the buffer then holds its first maxSize symbols. */
    method Decode(chunk: uint16, maxSize: nat)
      requires Valid()
      modifies this, deltaSizes
      ensures Valid() && Contents() == Decoded(chunk, maxSize)
      ensures allSame <==> chunk < 0x8000
      ensures hasLargeDelta <==> 0x4000 <= chunk < 0x8000 || chunk >= 0xc000
    {
      if chunk / 0x8000 % 2 == 0 {
        DecodeRunLength(chunk, maxSize);
      } else if chunk / 0x4000 % 2 == 0 {
        DecodeOneBit(chunk, maxSize);
      } else {
        DecodeTwoBit(chunk, maxSize);
      }
    }

    method EncodeOneBit() returns (chunk: uint16)
      requires Valid() && !allSame && NoLarge(Contents())
      ensures chunk == OneBitChunk(Contents())
    {
      ghost var now := Contents();
      var word: nat := 0x8000;
      assert word == Packed(2, now[..0], ONE_BIT_CAPACITY, 1) by {
        PackedZeros(2, 14, 1);
      }
      for i := 0 to size
        invariant word == Packed(2, now[..i], ONE_BIT_CAPACITY, 1)
      {
        // The bits of symbol i are still clear, so adding is or-ing.
        word := word + Shl(deltaSizes[i], ONE_BIT_CAPACITY - 1 - i);
        PackedSetsBits(2, now, ONE_BIT_CAPACITY, 1, i);
      }
      assert now[..size] == now;
      PackedRange(now);
      chunk := word;
    }

    method EncodeTwoBit(count: nat) returns (chunk: uint16)
      requires Valid() && !allSame && count <= size && count <= TWO_BIT_CAPACITY
      ensures chunk == TwoBitChunk(Contents()[..count])
    {
      ghost var now := Contents();
      var word: nat := 0xc000;
      assert word == Packed(3, now[..0], TWO_BIT_CAPACITY, 2) by {
        PackedZeros(3, 7, 2);
      }
      for i := 0 to count
        invariant word == Packed(3, now[..i], TWO_BIT_CAPACITY, 2)
      {
        word := word + Shl(deltaSizes[i], 2 * (TWO_BIT_CAPACITY - 1 - i));
        PackedSetsBits(3, now, TWO_BIT_CAPACITY, 2, i);
      }
      PackedRange(now[..count]);
      chunk := word;
    }

    method EncodeRunLength() returns (chunk: uint16)
      requires Valid() && allSame && size > 0
      ensures chunk == RunLengthChunk(Contents()[0], size)
    {
      chunk := (deltaSizes[0] as int) * 0x2000 + size;
    }

    method DecodeRunLength(chunk: uint16, maxCount: nat)
      requires Valid() && chunk < 0x8000
      modifies this, deltaSizes
      ensures Valid() && Contents() == Decoded(chunk, maxCount)
      ensures allSame && (hasLargeDelta <==> 0x4000 <= chunk)
    {
      size := Min(chunk % 0x2000, maxCount);
      var deltaSize: DeltaSize := chunk / 0x2000 % 4;
      hasLargeDelta, allSame := deltaSize >= LARGE, true;
      for i := 0 to Min(size, ONE_BIT_CAPACITY)
        modifies deltaSizes
        invariant forall j :: 0 <= j < i ==> deltaSizes[j] == deltaSize
      {
        deltaSizes[i] := deltaSize;
      }
    }

    method DecodeOneBit(chunk: uint16, maxSize: nat)
      requires Valid() && 0x8000 <= chunk < 0xc000
      modifies this, deltaSizes
      ensures Valid() && Contents() == Decoded(chunk, maxSize)
      ensures !allSame && !hasLargeDelta
    {
      size := Min(ONE_BIT_CAPACITY, maxSize);
      hasLargeDelta, allSame := false, false;
      for i := 0 to size
        modifies deltaSizes
        invariant forall j :: 0 <= j < i ==> deltaSizes[j] == OneBitSymbol(chunk, j) && deltaSizes[j] < LARGE
      {
        deltaSizes[i] := Shr(chunk, ONE_BIT_CAPACITY - 1 - i) % 2;
      }
    }

    method DecodeTwoBit(chunk: uint16, maxSize: nat)
      requires Valid() && 0xc000 <= chunk
      modifies this, deltaSizes
      ensures Valid() && Contents() == Decoded(chunk, maxSize)
      ensures !allSame && hasLargeDelta
    {
      size := Min(TWO_BIT_CAPACITY, maxSize);
      hasLargeDelta, allSame := true, false;
      for i := 0 to size
        modifies deltaSizes
        invariant forall j :: 0 <= j < i ==> deltaSizes[j] == TwoBitSymbol(chunk, j)
      {
        deltaSizes[i] := Shr(chunk, 2 * (TWO_BIT_CAPACITY - 1 - i)) % 4;
      }
    }
  }

  lemma PackedZeros(marker: nat, w: nat, bits: nat)
    requires bits == 1 || bits == 2
    ensures Packed(marker, [], w, bits) == Shl(marker, bits * w)
  {
    if w > 0 {
      PackedZeros(marker, w - 1, bits);
      if bits == 2 {
        assert Shl(marker, 2 * w) == 2 * (2 * Shl(marker, 2 * (w - 1)));
      }
    }
  }

  lemma AllSamePush(s: seq<DeltaSize>, d: DeltaSize)
    ensures AllSame(s + [d]) <==> AllSame(s) && (s == [] || d == s[0])
  {
    var t := s + [d];
    if AllSame(t) {
      forall i | 0 <= i < |s| ensures s[i] == s[0] {
        assert t[i] == t[0];
      }
      assert t[|s|] == t[0];
    }
  }

  lemma NoLargePush(s: seq<DeltaSize>, d: DeltaSize)
    ensures NoLarge(s + [d]) <==> NoLarge(s) && d < LARGE
  {
    var t := s + [d];
    if NoLarge(t) {
      forall i | 0 <= i < |s| ensures s[i] < LARGE {
        assert t[i] < LARGE;
      }
      assert t[|s|] < LARGE;
    }
  }
}
