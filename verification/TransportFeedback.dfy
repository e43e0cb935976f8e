/**
 One transport-wide feedback message with the fields the program keeps and
 updates in place (src/rtp_rtcp/transport_feedback.cpp).
 */
module TransportFeedbackMessage {
  import opened Wrappers
  import opened SequenceNumber
  import opened ByteBuffer
  import opened RtcpCommon
  import opened StatusChunk
  import opened LastChunkBuffer
  import opened FeedbackSpec
  import opened FeedbackWire

  class TransportFeedback {
    const includeLost: bool
    var header: CommonHeader
    var senderSsrc: uint32
    var mediaSsrc: uint32
    var baseSeqNo: uint16
    var numSeqNo: uint16
    var baseTimeTicks: uint24
    var feedbackSeq: uint8
    var includeTimestamps: bool
    var lastTimestampUs: int
    var receivedPackets: seq<ReceivedPacket>
    var allPackets: seq<PacketStatus>
    /** All but the last encoded packet chunk. */
    var encodedChunks: seq<uint16>
    const lastChunk: LastChunk
    var sizeBytes: nat

    /** The true arrival time of each received packet. */
    ghost var arrivals: seq<int>

    ghost function Repr(): set<object> {
      {this, lastChunk, lastChunk.deltaSizes}
    }

    ghost predicate Valid()
      reads Repr()
    {
      lastChunk.Valid() && sizeBytes <= MAX_SIZE_BYTES
    }

    /** The status of every packet described so far, in order. */
    ghost function Symbols(): seq<DeltaSize>
      requires Valid()
      reads Repr()
    {
      DecodedAll(encodedChunks) + lastChunk.Contents()
    }

    /** Bytes of everything but the deltas. */
    ghost function Overhead(): nat
      requires Valid()
      reads Repr()
    {
      HEADER_SIZE + CHUNK_SIZE * |encodedChunks| + (if lastChunk.Empty() then 0 else CHUNK_SIZE)
    }

    /** The condition the header file promises for every public method. */
    ghost predicate Consistent()
      requires Valid()
      reads Repr()
    {
      && numSeqNo == |Symbols()|
      && Coherent(Symbols(), receivedPackets, baseSeqNo, baseTimeTicks, lastTimestampUs,
                  sizeBytes - Overhead(), includeTimestamps)
    }

    /** The chunks are those of the adaptive encoder run on the symbols. */
    ghost predicate InSync()
      requires Valid()
      reads Repr()
    {
      lastChunk.Exact() && CurrentEncoder() == EncodeRun(Symbols())
    }

    ghost function CurrentEncoder(): (e: Encoder)
      requires Valid()
      reads Repr()
      ensures EncoderInv(e)
    {
      Encoder(encodedChunks, lastChunk.Contents())
    }

    /** What also holds of a message that was filled by AddReceivedPacket. */
    ghost predicate Built()
      requires Valid()
      reads Repr()
    {
      && Consistent()
      && InSync()
      && Faithful(Symbols(), receivedPackets, baseSeqNo, baseTimeTicks, arrivals, includeTimestamps)
      && (includeLost ==> Complete(Symbols(), receivedPackets, baseSeqNo, allPackets))
      && (!includeLost ==> allPackets == [])
    }

    constructor (includeTimestamps: bool, includeLost: bool)
      ensures Valid() && Built() && Symbols() == []
      ensures this.includeTimestamps == includeTimestamps && this.includeLost == includeLost
      ensures lastTimestampUs == 0 && numSeqNo == 0 && baseSeqNo == 0 && receivedPackets == [] && arrivals == []
      ensures fresh(Repr())
    {
      this.includeLost := includeLost;
      header := CommonHeader(0, 0, 0, 0, 0);
      senderSsrc, mediaSsrc, baseSeqNo, numSeqNo, baseTimeTicks, feedbackSeq := 0, 0, 0, 0, 0, 0;
      this.includeTimestamps := includeTimestamps;
      lastTimestampUs := 0;
      receivedPackets, allPackets, encodedChunks, arrivals := [], [], [], [];
      lastChunk := new LastChunk();
      sizeBytes := HEADER_SIZE;
    }

    function GetBaseTimeUs(): int
      reads this
    {
      (baseTimeTicks as int) * BASE_SCALE_FACTOR
    }

    /** Only a message that describes nothing yet may get its base. */
    method SetBase(baseSequence: uint16, refTimestampUs: int)
      requires Valid() && numSeqNo == 0 && refTimestampUs >= 0
      modifies this`baseSeqNo, this`baseTimeTicks, this`lastTimestampUs
      ensures Valid()
      ensures old(Consistent()) ==> Consistent()
      ensures old(Built()) ==> Built() && Symbols() == []
      ensures baseSeqNo == baseSequence && baseTimeTicks == BaseTicks(refTimestampUs)
      ensures lastTimestampUs == GetBaseTimeUs()
    {
      hide Coherent, Faithful, Complete, DecodedAll, BaseTicks, EncodeRun;
      FreshDeltaFits(refTimestampUs);
      Rebased(receivedPackets, baseSeqNo, baseTimeTicks, lastTimestampUs, sizeBytes - Overhead(), includeTimestamps,
              arrivals, allPackets, baseSequence, BaseTicks(refTimestampUs));
      baseSeqNo := baseSequence;
      baseTimeTicks := BaseTicks(refTimestampUs);
      lastTimestampUs := GetBaseTimeUs();
    }

    method SetFeedbackSequenceNumber(feedbackSequence: uint8)
      requires Valid()
      modifies this`feedbackSeq
      ensures Valid() && feedbackSeq == feedbackSequence
      ensures old(Consistent()) ==> Consistent()
      ensures old(Built()) ==> Built()
    {
      feedbackSeq := feedbackSequence;
    }

    method SetMediaSsrc(ssrc: uint32)
      requires Valid()
      modifies this`mediaSsrc
      ensures Valid() && mediaSsrc == ssrc
      ensures old(Consistent()) ==> Consistent()
      ensures old(Built()) ==> Built()
    {
      mediaSsrc := ssrc;
    }

    /** Appends one status, or changes nothing. */
    method AddDeltaSize(deltaSize: DeltaSize) returns (ok: bool)
      requires Valid() && numSeqNo == |Symbols()| && deltaSize <= 2
      modifies this`numSeqNo, this`encodedChunks, this`sizeBytes, lastChunk, lastChunk.deltaSizes
      ensures Valid() && numSeqNo == |Symbols()|
      ensures Symbols() == if ok then old(Symbols()) + [deltaSize] else old(Symbols())
      ensures sizeBytes - Overhead() == old(sizeBytes - Overhead())
      ensures ok ==> sizeBytes + deltaSize <= MAX_SIZE_BYTES
      ensures !ok ==> unchanged(this) && unchanged(lastChunk) && unchanged(lastChunk.deltaSizes)
      ensures old(numSeqNo) == MAX_REPORTED_PACKETS ==> !ok
      ensures old(numSeqNo) < MAX_REPORTED_PACKETS && old(sizeBytes) + 4 <= MAX_SIZE_BYTES ==> ok
      ensures old(InSync()) ==> InSync()
    {
      hide EncoderAdd, EncodeRun;
      PushSymbol(Symbols(), deltaSize);
      if numSeqNo == MAX_REPORTED_PACKETS {
        return false;
      }
      var addChunkSize := if lastChunk.Empty() then CHUNK_SIZE else 0;
      if sizeBytes + deltaSize + addChunkSize > MAX_SIZE_BYTES {
        return false;
      }
      if lastChunk.CanAdd(deltaSize) {
        AppendToLastChunk(deltaSize);
        return true;
      }
      if sizeBytes + deltaSize + CHUNK_SIZE > MAX_SIZE_BYTES {
        return false;
      }
      EmitAndStartLastChunk(deltaSize);
      return true;
    }

    method AppendToLastChunk(deltaSize: DeltaSize)
      requires Valid() && numSeqNo == |Symbols()| < MAX_REPORTED_PACKETS
      requires deltaSize <= 2 && lastChunk.CanAdd(deltaSize)
      requires sizeBytes + (if lastChunk.Empty() then CHUNK_SIZE else 0) <= MAX_SIZE_BYTES
      modifies this`numSeqNo, this`sizeBytes, lastChunk, lastChunk.deltaSizes
      ensures Valid() && numSeqNo == |Symbols()|
      ensures Symbols() == old(Symbols()) + [deltaSize]
      ensures sizeBytes == old(sizeBytes) + (if old(lastChunk.Empty()) then CHUNK_SIZE else 0)
      ensures sizeBytes - Overhead() == old(sizeBytes - Overhead())
      ensures old(lastChunk.Exact()) ==>
                && lastChunk.Exact()
                && CurrentEncoder() == EncoderAdd(old(CurrentEncoder()), deltaSize)
    {
      hide DecodedAll, Encodable, AllSame, NoLarge, DecodedFully, EmitChunk, EmitCount;
      ghost var symbols, pending := Symbols(), lastChunk.Contents();
      sizeBytes := sizeBytes + if lastChunk.Empty() then CHUNK_SIZE else 0;
      lastChunk.Add(deltaSize);
      numSeqNo := numSeqNo + 1;
      assert Symbols() == symbols + [deltaSize];
    }

    method EmitAndStartLastChunk(deltaSize: DeltaSize)
      requires Valid() && numSeqNo == |Symbols()| < MAX_REPORTED_PACKETS
      requires deltaSize <= 2 && !lastChunk.CanAdd(deltaSize)
      requires sizeBytes + CHUNK_SIZE <= MAX_SIZE_BYTES
      modifies this`numSeqNo, this`encodedChunks, this`sizeBytes, lastChunk, lastChunk.deltaSizes
      ensures Valid() && numSeqNo == |Symbols()|
      ensures Symbols() == old(Symbols()) + [deltaSize]
      ensures sizeBytes == old(sizeBytes) + CHUNK_SIZE
      ensures sizeBytes - Overhead() == old(sizeBytes - Overhead())
      ensures old(lastChunk.Exact()) ==>
                && lastChunk.Exact()
                && CurrentEncoder() == EncoderAdd(old(CurrentEncoder()), deltaSize)
    {
      hide DecodedAll, Encodable, AllSame, NoLarge, DecodedFully, EmitChunk, EmitCount;
      ghost var symbols, pending := Symbols(), lastChunk.Contents();
      var chunk := lastChunk.Emit();
      DecodedAllPush(encodedChunks, chunk);
      Regrouped(DecodedAll(encodedChunks), DecodedFully(chunk), lastChunk.Contents(), deltaSize);
      encodedChunks := encodedChunks + [chunk];
      sizeBytes := sizeBytes + CHUNK_SIZE;
      lastChunk.Add(deltaSize);
      numSeqNo := numSeqNo + 1;
    }

    /** The size limit is out of reach for a message that was built here. */
    lemma BuiltFits()
      requires Valid() && Built()
      ensures sizeBytes + 4 <= MAX_SIZE_BYTES
    {
      BuiltSizeBound(Symbols(), receivedPackets, baseSeqNo);
    }

    /** The delta, in ticks, a packet with this time would get. */
    ghost function DeltaFor(timestampUs: int): int
      reads this
    {
      if includeTimestamps then DeltaFull(timestampUs, lastTimestampUs) else 0
    }

    /** How many packets between the last one described and this one are lost. */
    ghost function GapTo(sequenceNumber: uint16): nat
      reads this
    {
      ToUint16(sequenceNumber - (baseSeqNo + numSeqNo))
    }

    /** Exactly what a built message accepts: a delta of 16 bits, a number ahead of
        the last one described, and room in the 16-bit count. */
    ghost predicate Acceptable(sequenceNumber: uint16, timestampUs: int)
      reads this
    {
      && -0x8000 <= DeltaFor(timestampUs) < 0x8000
      && (GapTo(sequenceNumber) == 0 || SeqNumGT(sequenceNumber, ToUint16(baseSeqNo + numSeqNo - 1)))
      && numSeqNo + GapTo(sequenceNumber) < MAX_REPORTED_PACKETS
    }

    /** Describes the next packet, numbered nextSeqNo, as lost. */
    method AddLost(nextSeqNo: uint16) returns (ok: bool)
      requires Valid() && numSeqNo == |Symbols()| && nextSeqNo == ToUint16(baseSeqNo + numSeqNo)
      modifies this`numSeqNo, this`encodedChunks, this`sizeBytes, this`allPackets, lastChunk, lastChunk.deltaSizes
      ensures Valid() && numSeqNo == |Symbols()|
      ensures Symbols() == if ok then old(Symbols()) + [0] else old(Symbols())
      ensures !ok ==> numSeqNo == MAX_REPORTED_PACKETS || sizeBytes + 4 > MAX_SIZE_BYTES
      ensures old(Consistent()) ==> Consistent()
      ensures old(Built()) ==> Built()
    {
      hide Coherent, Faithful, Complete, EncodeRun, DecodedAll, ToUint16;
      OneLost(Symbols(), receivedPackets, baseSeqNo, baseTimeTicks, lastTimestampUs, sizeBytes - Overhead(),
              includeTimestamps, arrivals, allPackets);
      ok := AddDeltaSize(0);
      if !ok {
        return;
      }
      if includeLost {
        allPackets := allPackets + [Lost(nextSeqNo)];
      }
    }

    /** Describes the packets up to sequenceNumber as lost, as far as they fit. */
    method FillGap(sequenceNumber: uint16) returns (ok: bool, ghost filled: nat)
      requires Valid() && numSeqNo == |Symbols()|
      modifies this`numSeqNo, this`encodedChunks, this`sizeBytes, this`allPackets, lastChunk, lastChunk.deltaSizes
      ensures Valid() && numSeqNo == |Symbols()|
      ensures filled <= old(GapTo(sequenceNumber)) && (ok <==> filled == old(GapTo(sequenceNumber)))
      ensures Symbols() == old(Symbols()) + Zeros(filled)
      ensures ok ==> sequenceNumber == ToUint16(baseSeqNo + numSeqNo)
      ensures !ok ==> numSeqNo == MAX_REPORTED_PACKETS || sizeBytes + 4 > MAX_SIZE_BYTES
      ensures old(Consistent()) ==> Consistent()
      ensures old(Built()) ==> Built()
    {
      hide Built, Consistent, DecodedAll, ToUint16, Zeros;
      var nextSeqNo := ToUint16(baseSeqNo + numSeqNo);
      filled := 0;
      GapStep(baseSeqNo + numSeqNo, sequenceNumber, 0);
      NoneLost(Symbols());
      while nextSeqNo != sequenceNumber
        invariant Valid() && numSeqNo == |Symbols()|
        invariant filled <= old(GapTo(sequenceNumber))
        invariant nextSeqNo == ToUint16(baseSeqNo + numSeqNo)
        invariant nextSeqNo == sequenceNumber <==> filled == old(GapTo(sequenceNumber))
        invariant Symbols() == old(Symbols()) + Zeros(filled)
        invariant old(Consistent()) ==> Consistent()
        invariant old(Built()) ==> Built()
        decreases old(GapTo(sequenceNumber)) - filled
      {
        var added := AddLost(nextSeqNo);
        if !added {
          return false, filled;
        }
        OneMoreLost(old(Symbols()), filled);
        filled := filled + 1;
        GapStep(old(baseSeqNo + numSeqNo), sequenceNumber, filled);
        nextSeqNo := Next(nextSeqNo);
      }
      return true, filled;
    }

    /** Accepts exactly what is Acceptable. An accepted packet is described after
        the lost ones in front of it; a refused one changes no time and no
        received packet. */
    method AddReceivedPacket(sequenceNumber: uint16, timestampUs: int) returns (ok: bool)
      requires Valid() && numSeqNo == |Symbols()|
      modifies Repr()
      ensures Valid() && numSeqNo == |Symbols()|
      ensures old(Consistent()) ==> Consistent()
      ensures old(Built()) ==> Built()
      ensures old(Built()) ==> ok == old(Acceptable(sequenceNumber, timestampUs))
      ensures ok ==>
                && -0x8000 <= old(DeltaFor(timestampUs)) < 0x8000
                && Symbols() == old(Symbols()) + Zeros(old(GapTo(sequenceNumber)))
                                + [SizeOfDelta(old(DeltaFor(timestampUs)))]
                && receivedPackets == old(receivedPackets) + [Received(sequenceNumber, old(DeltaFor(timestampUs)))]
                && arrivals == old(arrivals) + [timestampUs]
                && lastTimestampUs == old(lastTimestampUs) + DELTA_SCALE_FACTOR * old(DeltaFor(timestampUs))
      ensures !ok ==>
                && unchanged(`receivedPackets) && unchanged(`lastTimestampUs) && unchanged(`arrivals)
                && |Symbols()| >= old(|Symbols()|)
                && Symbols() == old(Symbols()) + Zeros(|Symbols()| - old(|Symbols()|))
      ensures !(-0x8000 <= old(DeltaFor(timestampUs)) < 0x8000) ==> Symbols() == old(Symbols())
      ensures unchanged(`baseSeqNo) && unchanged(`baseTimeTicks) && unchanged(`includeTimestamps)
      ensures unchanged(`feedbackSeq) && unchanged(`mediaSsrc) && unchanged(`senderSsrc)
    {
      hide Built, Consistent, Symbols, ToUint16, DeltaFull;
      var delta: int16 := 0;
      if includeTimestamps {
        var deltaFull := DeltaFull(timestampUs, lastTimestampUs);
        delta := ToInt16(deltaFull);
        if delta != deltaFull {
          assert Symbols() == Symbols() + Zeros(0);
          return false;
        }
      }
      var nextSeqNo := ToUint16(baseSeqNo + numSeqNo);
      GapStep(baseSeqNo + numSeqNo, sequenceNumber, 0);
      if sequenceNumber != nextSeqNo {
        var lastSeqNo := ToUint16(baseSeqNo + numSeqNo - 1);
        if !SeqNumGT(sequenceNumber, lastSeqNo) {
          assert Symbols() == Symbols() + Zeros(0);
          return false;
        }
      }
      var filledUp, filled := FillGap(sequenceNumber);
      if old(Built()) {
        BuiltFits();
      }
      if !filledUp {
        return false;
      }
      ok := DescribeReceived(sequenceNumber, delta, timestampUs);
      assert ok ==> Symbols() == old(Symbols()) + Zeros(filled) + [SizeOfDelta(delta)];
    }

    /** Describes the next packet as received. */
    method DescribeReceived(sequenceNumber: uint16, delta: int16, ghost timestampUs: int) returns (ok: bool)
      requires Valid() && numSeqNo == |Symbols()| && sequenceNumber == ToUint16(baseSeqNo + numSeqNo)
      requires delta == DeltaFor(timestampUs)
      modifies Repr()
      ensures Valid() && numSeqNo == |Symbols()|
      ensures old(Consistent()) ==> Consistent()
      ensures old(Built()) ==> Built()
      ensures ok ==>
                && Symbols() == old(Symbols()) + [SizeOfDelta(delta)]
                && receivedPackets == old(receivedPackets) + [Received(sequenceNumber, delta)]
                && arrivals == old(arrivals) + [timestampUs]
                && lastTimestampUs == old(lastTimestampUs) + DELTA_SCALE_FACTOR * delta
      ensures !ok ==> unchanged(this) && unchanged(lastChunk) && unchanged(lastChunk.deltaSizes)
      ensures !ok ==> numSeqNo == MAX_REPORTED_PACKETS || sizeBytes + 4 > MAX_SIZE_BYTES
      ensures old(numSeqNo) == MAX_REPORTED_PACKETS ==> !ok
      ensures unchanged(`baseSeqNo) && unchanged(`baseTimeTicks) && unchanged(`includeTimestamps)
      ensures unchanged(`feedbackSeq) && unchanged(`mediaSsrc) && unchanged(`senderSsrc)
    {
      hide Coherent, Faithful, Complete, EncodeRun, DecodedAll, ToUint16, DeltaFull;
      OneReceived(Symbols(), receivedPackets, baseSeqNo, baseTimeTicks, lastTimestampUs, sizeBytes - Overhead(),
                  includeTimestamps, arrivals, allPackets, delta, timestampUs);
      var deltaSize := SizeOfDelta(delta);
      ok := AddDeltaSize(deltaSize);
      if !ok {
        return;
      }
      RecordReceived(sequenceNumber, delta, timestampUs);
      assert Symbols() == old(Symbols()) + [deltaSize];
    }

    method RecordReceived(sequenceNumber: uint16, delta: int16, ghost timestampUs: int)
      requires Valid() && sizeBytes + SizeOfDelta(delta) <= MAX_SIZE_BYTES
      modifies this`receivedPackets, this`allPackets, this`lastTimestampUs, this`sizeBytes, this`arrivals
      ensures receivedPackets == old(receivedPackets) + [Received(sequenceNumber, delta)]
      ensures allPackets ==
              old(allPackets) + (if includeLost then [Arrived(Received(sequenceNumber, delta))] else [])
      ensures lastTimestampUs == old(lastTimestampUs) + DELTA_SCALE_FACTOR * delta
      ensures sizeBytes == old(sizeBytes) + (if includeTimestamps then SizeOfDelta(delta) else 0)
      ensures arrivals == old(arrivals) + [timestampUs]
    {
      receivedPackets := receivedPackets + [Received(sequenceNumber, delta)];
      if includeLost {
        allPackets := allPackets + [Arrived(Received(sequenceNumber, delta))];
      }
      lastTimestampUs := lastTimestampUs + (delta as int) * DELTA_SCALE_FACTOR;
      if includeTimestamps {
        sizeBytes := sizeBytes + SizeOfDelta(delta);
      }
      arrivals := arrivals + [timestampUs];
    }

    /** What the last time would have to be for IsConsistent, which multiplies the
        base time in 32 bits. */
    function TimeChecked(): int
      reads this
    {
      lastTimestampUs + GetBaseTimeUs() - ToInt32(GetBaseTimeUs())
    }

    /** All symbols, and the bytes of everything but the deltas. */
    method CollectSymbols() returns (deltaSizes: seq<DeltaSize>, packetSize: nat)
      requires Valid()
      ensures deltaSizes == Symbols() && packetSize == Overhead()
    {
      hide DecodedAll, Decoded, LastChunk.Contents;
      packetSize, deltaSizes := HEADER_SIZE, [];
      var chunkDecoder := new LastChunk();
      var k := 0;
      NoChunks(encodedChunks);
      while k < |encodedChunks|
        invariant 0 <= k <= |encodedChunks|
        invariant chunkDecoder.Valid() && fresh(chunkDecoder) && fresh(chunkDecoder.deltaSizes)
        invariant deltaSizes == DecodedAll(encodedChunks[..k])
        invariant packetSize == HEADER_SIZE + CHUNK_SIZE * k
      {
        chunkDecoder.Decode(encodedChunks[k], MAX_REPORTED_PACKETS);
        deltaSizes := chunkDecoder.AppendTo(deltaSizes);
        assert encodedChunks[..k + 1] == encodedChunks[..k] + [encodedChunks[k]];
        DecodedAllPush(encodedChunks[..k], encodedChunks[k]);
        packetSize := packetSize + CHUNK_SIZE;
        k := k + 1;
      }
      assert encodedChunks[..k] == encodedChunks;
      if !lastChunk.Empty() {
        deltaSizes := lastChunk.AppendTo(deltaSizes);
        packetSize := packetSize + CHUNK_SIZE;
      }
    }

    /** Decides Consistent while the base time fits 32 bits; after that it denies it. */
    method IsConsistent() returns (r: bool)
      requires Valid()
      ensures baseTimeTicks <= MAX_INT32_TICKS ==> r == Consistent()
      ensures baseTimeTicks > MAX_INT32_TICKS && Consistent() ==> !r
      ensures r <==>
                && numSeqNo == |Symbols()|
                && Coherent(Symbols(), receivedPackets, baseSeqNo, baseTimeTicks, TimeChecked(),
                            sizeBytes - Overhead(), includeTimestamps)
    {
      hide Coherent, DecodedAll, Decoded, LastChunk.Contents, ToInt32;
      CoherentAtOneTime(Symbols(), receivedPackets, baseSeqNo, baseTimeTicks, lastTimestampUs, sizeBytes - Overhead(),
                        includeTimestamps);
      var deltaSizes, packetSize := CollectSymbols();
      if numSeqNo != |deltaSizes| {
        return false;
      }
      r := CheckPackets(deltaSizes, packetSize);
    }

    method CheckPackets(deltaSizes: seq<DeltaSize>, overhead: nat) returns (r: bool)
      requires Valid()
      ensures r == Coherent(deltaSizes, receivedPackets, baseSeqNo, baseTimeTicks, TimeChecked(),
                            sizeBytes - overhead, includeTimestamps)
    {
      hide Matches, ReceivedCount, SumSizes, SumDeltas, ToUint16, ToInt32;
      var packetSize: int := overhead;
      var timestampUs := ToInt32((baseTimeTicks as int) * BASE_SCALE_FACTOR);
      var packet, seqNo := 0, baseSeqNo;
      var i := 0;
      EmptyPrefix(deltaSizes, receivedPackets, baseSeqNo);
      while i < |deltaSizes|
        invariant 0 <= i <= |deltaSizes| && packet == ReceivedCount(deltaSizes[..i]) <= |receivedPackets|
        invariant Matches(deltaSizes[..i], receivedPackets[..packet], baseSeqNo)
        invariant timestampUs == ToInt32((baseTimeTicks as int) * BASE_SCALE_FACTOR)
                                 + DELTA_SCALE_FACTOR * SumDeltas(receivedPackets[..packet])
        invariant packetSize == overhead + (if includeTimestamps then SumSizes(deltaSizes[..i]) else 0)
        invariant seqNo == ToUint16(baseSeqNo + i)
      {
        MatchStep(deltaSizes, receivedPackets, baseSeqNo, i, packet);
        if deltaSizes[i] > 0 {
          if packet == |receivedPackets| {
            return false;
          }
          var p := receivedPackets[packet];
          if p.sequenceNumber != seqNo {
            return false;
          }
          if deltaSizes[i] == 1 && (p.deltaTicks < 0 || p.deltaTicks > 0xff) {
            return false;
          }
          timestampUs := timestampUs + (p.deltaTicks as int) * DELTA_SCALE_FACTOR;
          packet := packet + 1;
        }
        if includeTimestamps {
          packetSize := packetSize + deltaSizes[i];
        }
        seqNo := Next(seqNo);
        NextCounts(baseSeqNo, i);
        i := i + 1;
      }
      assert deltaSizes[..i] == deltaSizes;
      if Matches(deltaSizes, receivedPackets, baseSeqNo) {
        MatchesPrefix(deltaSizes, receivedPackets, baseSeqNo, i);
      }
      assert receivedPackets[..|receivedPackets|] == receivedPackets;
      if packet != |receivedPackets| {
        return false;
      }
      return timestampUs == lastTimestampUs && sizeBytes == packetSize;
    }

    /** The message describes nothing; base and flags stay. */
    method Clear()
      requires Valid()
      modifies this`numSeqNo, this`lastTimestampUs, this`receivedPackets, this`allPackets, this`encodedChunks,
               this`sizeBytes, this`arrivals, lastChunk
      ensures Valid() && Consistent() && Built()
      ensures Symbols() == [] && receivedPackets == [] && allPackets == [] && encodedChunks == []
      ensures lastTimestampUs == GetBaseTimeUs() && sizeBytes == HEADER_SIZE && numSeqNo == 0
    {
      hide DecodedAll, Coherent, Faithful, Complete, EncodeRun;
      numSeqNo := 0;
      lastTimestampUs := GetBaseTimeUs();
      receivedPackets, allPackets, encodedChunks, arrivals := [], [], [], [];
      lastChunk.Clear();
      sizeBytes := HEADER_SIZE;
      NothingDescribed(baseSeqNo, baseTimeTicks, includeTimestamps);
    }

    function Size(): nat
      reads this
    {
      (sizeBytes + 3) / 4 * 4
    }

    lemma HasHeader()
      requires Valid() && Consistent()
      ensures HEADER_SIZE <= sizeBytes <= Size() <= MAX_SIZE_BYTES && Size() - sizeBytes < 4
    {
    }

    /** The 16-bit length field never overflows. */
    function WireHeader(): CommonHeader
      requires HEADER_SIZE <= Size() <= MAX_SIZE_BYTES
      reads this
    {
      CommonHeader(FORMAT_TWCC, if Size() > sizeBytes then 1 else 0, VERSION, RTPFB, (Size() - 4) / 4)
    }

    function WireFields(): Fields
      reads this
    {
      Fields(senderSsrc, mediaSsrc, baseSeqNo, numSeqNo, baseTimeTicks, feedbackSeq)
    }

    /** The header and payload this message is written as, its last chunk being
        the word `last`. */
    ghost function Wire(last: uint16): seq<uint8>
      requires Valid() && Consistent()
      reads Repr()
    {
      HasHeader();
      HeaderBytes(WireHeader())
      + Payload(WireFields(), encodedChunks + (if lastChunk.Empty() then [] else [last]),
                if includeTimestamps then receivedPackets else [], Size() - sizeBytes)
    }

    method SetHeader(h: CommonHeader)
      requires Valid() && Consistent()
      modifies this`header
      ensures Valid() && Consistent() && header == h
      ensures old(Built()) ==> Built()
    {
      header := h;
    }

    /** Writes the whole message, or reports that it does not fit. */
    method Serialize(w: ByteWriter) returns (ok: bool, ghost last: uint16)
      requires Valid() && Consistent() && w.Valid()
      requires {w, w.bytes} !! Repr()
      modifies this`header, w, w.bytes
      ensures Valid() && Consistent() && w.Valid()
      ensures old(Built()) ==> Built()
      ensures !lastChunk.Empty() ==> Decoded(last, lastChunk.size) == lastChunk.Contents()
      ensures ok <==> |Wire(last)| <= old(w.Left())
      ensures ok ==> w.Written() == old(w.Written()) + Wire(last)
    {
      hide Consistent, Built, Payload, HeaderBytes, Decoded, LastChunk.Contents;
      HasHeader();
      SetHeader(WireHeader());
      var words := encodedChunks;
      last := 0;
      if !lastChunk.Empty() {
        var word := lastChunk.EncodeLast();
        last := word;
        words := words + [word];
      }
      assert words == encodedChunks + (if lastChunk.Empty() then [] else [last]);
      ok := WriteMessage(w, header, WireFields(), words, if includeTimestamps then receivedPackets else [],
                         Size() - sizeBytes);
    }

    /** A message that was built with timestamps and describes something is read
        back from its bytes, all of them, unchanged: fields, chunks, symbols (so
        lost positions) and received packets with their deltas. The times the
        reader rebuilds from them are within 125 us of the true ones. */
    lemma RoundTrip(last: uint16, bytes: seq<uint8>)
      requires Valid() && Built() && includeTimestamps && numSeqNo > 0
      requires Decoded(last, lastChunk.size) == lastChunk.Contents()
      requires bytes == Wire(last)
      ensures |bytes| == Size() == 4 + 4 * HeaderAt(bytes, 0).length && PayloadPresent(bytes, 0)
      ensures ParseAt(bytes, 0, |bytes|) ==
              Some(Message(WireFields(), encodedChunks + [last], Symbols(), receivedPackets, true, sizeBytes - 4))
      ensures Accurate(WireFields().baseTimeTicks, receivedPackets, arrivals)
    {
      hide EncodeRun, EncoderAdd, Accurate, Payload, MatchesTightly, WordsCarry, Matches, Decoded, DecodedAll;
      hide HeaderBytes, HeaderAt, PayloadPresent, ParseAt, ParsePayload, LastChunk.Contents, LastChunk.Exact;
      FinishedWordsCarry(encodedChunks, last, lastChunk.Contents());
      HasHeader();
      var words := encodedChunks + [last];
      var padding := Size() - sizeBytes;
      var payload := Payload(WireFields(), words, receivedPackets, padding);
      PayloadRoundTrip(WireFields(), words, Symbols(), receivedPackets, padding, payload);
      MessageRoundTrip(WireHeader(), WireFields(), words, Symbols(), receivedPackets, padding, payload, bytes);
    }

    /** What the bytes of any message say about themselves: version, type and format,
        and, by the padding bit and the last byte, how much padding follows. */
    lemma HeaderTells(last: uint16, bytes: seq<uint8>)
      requires Valid() && Consistent() && bytes == Wire(last)
      ensures |bytes| >= 20
      ensures var h, padding := HeaderAt(bytes, 0), Size() - sizeBytes;
              && h.version == 2 && h.packetType == 205 && h.countOrFormat == 15
              && 4 + 4 * h.length == Size()
              && (h.padding == 1 <==> Size() != sizeBytes)
              && (h.padding == 1 ==> bytes[|bytes| - 1] == padding)
              && (Size() % 4 == 0 && 0 <= padding < 4)
    {
      hide HeaderBytes, HeaderAt, Head, WordBytes, DeltaBlock, Coherent, DecodedAll, LastChunk.Contents;
      HasHeader();
      assert bytes[0..4] == HeaderBytes(WireHeader());
      HeaderRoundTrip(bytes, 0, WireHeader());
      if Size() != sizeBytes {
        assert bytes[|bytes| - 1] == Padding(Size() - sizeBytes)[Size() - sizeBytes - 1];
      }
    }

    method TakeChunk(chunk: uint16, count: nat, deltaSizes: seq<DeltaSize>) returns (r: seq<DeltaSize>)
      requires lastChunk.Valid() && |deltaSizes| <= count
      modifies this`encodedChunks, lastChunk, lastChunk.deltaSizes
      ensures lastChunk.Valid() && encodedChunks == old(encodedChunks) + [chunk]
      ensures lastChunk.Contents() == Decoded(chunk, count - |deltaSizes|)
      ensures r == deltaSizes + Decoded(chunk, count - |deltaSizes|)
    {
      encodedChunks := encodedChunks + [chunk];
      lastChunk.Decode(chunk, count - |deltaSizes|);
      r := lastChunk.AppendTo(deltaSizes);
    }

    /** Reads chunks until they describe `count` packets. */
    method ParseChunks(p: seq<uint8>, end: nat, count: nat)
      returns (ok: bool, index: nat, deltaSizes: seq<DeltaSize>, ghost k: nat)
      requires Valid() && encodedChunks == [] && 16 <= |p| && end <= |p| && count > 0
      modifies this`encodedChunks, lastChunk, lastChunk.deltaSizes
      ensures lastChunk.Valid()
      ensures !ok ==> WordCount(p, end, count, 0) == None
      ensures ok ==>
                && WordCount(p, end, count, 0) == Some(k) && k > 0
                && index == 16 + 2 * k <= end
                && deltaSizes == DecodeWords(WordsAt(p, k), count)
                && encodedChunks == WordsAt(p, k - 1)
                && LastWordDecoded(p, count, k, lastChunk.Contents())
    {
      hide Decoded, LastChunk.Contents, LastChunk.Valid, WordsAt, DecodeWords, WordCount, Load16, LastWordDecoded;
      index := 16;
      deltaSizes := [];
      k := 0;
      NoWords(p, count);
      while |deltaSizes| < count
        invariant lastChunk.Valid()
        invariant index == 16 + 2 * k <= |p| && encodedChunks == WordsAt(p, k)
        invariant deltaSizes == DecodeWords(WordsAt(p, k), count)
        invariant WordCount(p, end, count, 0) == WordCount(p, end, count, k)
        invariant k > 0 ==> index <= end && LastWordDecoded(p, count, k, lastChunk.Contents())
        decreases |p| - index
      {
        if index + CHUNK_SIZE > end {
          WordCountEnds(p, end, count, k);
          return false, index, deltaSizes, k;
        }
        ChunkStep(p, end, count, k);
        LastWordStep(p, count, k);
        var chunk := Load16(p, index);
        index := index + CHUNK_SIZE;
        deltaSizes := TakeChunk(chunk, count, deltaSizes);
        k := k + 1;
      }
      WordCountEnds(p, end, count, k);
      // The last chunk is kept in lastChunk.
      WordsAtPops(p, k);
      encodedChunks := encodedChunks[..|encodedChunks| - 1];
      ok := true;
    }

    /** Reads the delta of every received packet. */
    method ParseDeltas(p: seq<uint8>, start: nat, deltaSizes: seq<DeltaSize>) returns (ok: bool, index: nat)
      requires receivedPackets == [] && allPackets == [] && lastTimestampUs == GetBaseTimeUs()
      requires start + SumSizes(deltaSizes) <= |p|
      modifies this`receivedPackets, this`allPackets, this`lastTimestampUs
      ensures ok <==> ReadDeltas(p, start, deltaSizes, baseSeqNo).Some?
      ensures ok ==>
                && receivedPackets == ReadDeltas(p, start, deltaSizes, baseSeqNo).value
                && (includeLost ==> Complete(deltaSizes, receivedPackets, baseSeqNo, allPackets))
                && (!includeLost ==> allPackets == [])
                && lastTimestampUs == GetBaseTimeUs() + DELTA_SCALE_FACTOR * SumDeltas(receivedPackets)
                && index == start + SumSizes(deltaSizes)
    {
      hide ReadDeltas, Complete, SumSizes, SumDeltas, ToUint16, ToInt16, Load16;
      var seqNo := baseSeqNo;
      index := start;
      var i := 0;
      NothingRead(p, start, deltaSizes, baseSeqNo);
      while i < |deltaSizes|
        invariant 0 <= i <= |deltaSizes| && start + SumSizes(deltaSizes[..i]) <= |p|
        invariant ReadDeltas(p, start, deltaSizes[..i], baseSeqNo) == Some(receivedPackets)
        invariant includeLost ==> Complete(deltaSizes[..i], receivedPackets, baseSeqNo, allPackets)
        invariant !includeLost ==> allPackets == []
        invariant lastTimestampUs == GetBaseTimeUs() + DELTA_SCALE_FACTOR * SumDeltas(receivedPackets)
        invariant index == start + SumSizes(deltaSizes[..i])
        invariant seqNo == ToUint16(baseSeqNo + i)
      {
        DeltaStep(p, start, deltaSizes, baseSeqNo, i);
        // So the check for reading beyond the end can never fire.
        assert index + deltaSizes[i] <= |p|;
        if deltaSizes[i] == 3 {
          return false, index;
        }
        if deltaSizes[i] == 0 {
          SkipStatus(deltaSizes, i, seqNo);
        } else {
          var delta: int16 := if deltaSizes[i] == 1 then p[index] else ToInt16(Load16(p, index));
          PushStatus(deltaSizes, i, seqNo, delta);
          index := index + deltaSizes[i];
        }
        NextCounts(baseSeqNo, i);
        seqNo := Next(seqNo);
        i := i + 1;
      }
      assert deltaSizes[..i] == deltaSizes;
      ok := true;
    }

    method SkipStatus(deltaSizes: seq<DeltaSize>, i: nat, seqNo: uint16)
      requires i < |deltaSizes| && deltaSizes[i] == 0 && seqNo == ToUint16(baseSeqNo + i)
      modifies this`allPackets
      ensures includeLost && old(Complete(deltaSizes[..i], receivedPackets, baseSeqNo, allPackets)) ==>
                Complete(deltaSizes[..i + 1], receivedPackets, baseSeqNo, allPackets)
      ensures !includeLost ==> allPackets == old(allPackets)
    {
      hide Complete, ToUint16;
      if includeLost {
        if Complete(deltaSizes[..i], receivedPackets, baseSeqNo, allPackets) {
          CompleteStep(deltaSizes, i, receivedPackets, baseSeqNo, allPackets, 0);
        }
        allPackets := allPackets + [Lost(seqNo)];
      }
    }

    method PushStatus(deltaSizes: seq<DeltaSize>, i: nat, seqNo: uint16, delta: int16)
      requires i < |deltaSizes| && deltaSizes[i] > 0 && seqNo == ToUint16(baseSeqNo + i)
      requires deltaSizes[i] == 1 ==> 0 <= delta <= 0xff
      modifies this`receivedPackets, this`allPackets, this`lastTimestampUs
      ensures receivedPackets == old(receivedPackets) + [Received(seqNo, delta)]
      ensures includeLost && old(Complete(deltaSizes[..i], receivedPackets, baseSeqNo, allPackets)) ==>
                Complete(deltaSizes[..i + 1], receivedPackets, baseSeqNo, allPackets)
      ensures !includeLost ==> allPackets == old(allPackets)
      ensures lastTimestampUs == old(lastTimestampUs) + DELTA_SCALE_FACTOR * delta
      ensures SumDeltas(receivedPackets) == SumDeltas(old(receivedPackets)) + delta
    {
      hide Complete, ToUint16, SumDeltas;
      PushPacket(receivedPackets, Received(seqNo, delta));
      if includeLost {
        if Complete(deltaSizes[..i], receivedPackets, baseSeqNo, allPackets) {
          CompleteStep(deltaSizes, i, receivedPackets, baseSeqNo, allPackets, delta);
        }
        allPackets := allPackets + [Arrived(Received(seqNo, delta))];
      }
      receivedPackets := receivedPackets + [Received(seqNo, delta)];
      lastTimestampUs := lastTimestampUs + (delta as int) * DELTA_SCALE_FACTOR;
    }

    /** A packet without deltas still says which packets arrived. */
    method ParseStatuses(deltaSizes: seq<DeltaSize>)
      requires receivedPackets == [] && allPackets == [] && lastTimestampUs == GetBaseTimeUs()
      modifies this`receivedPackets, this`allPackets, this`lastTimestampUs
      ensures receivedPackets == WithoutDeltas(deltaSizes, baseSeqNo)
      ensures includeLost ==> Complete(deltaSizes, receivedPackets, baseSeqNo, allPackets)
      ensures !includeLost ==> allPackets == []
      ensures lastTimestampUs == GetBaseTimeUs()
    {
      hide WithoutDeltas, Complete, SumDeltas, ToUint16;
      var seqNo := baseSeqNo;
      var i := 0;
      NothingRead([], 0, deltaSizes, baseSeqNo);
      while i < |deltaSizes|
        invariant 0 <= i <= |deltaSizes|
        invariant receivedPackets == WithoutDeltas(deltaSizes[..i], baseSeqNo)
        invariant includeLost ==> Complete(deltaSizes[..i], receivedPackets, baseSeqNo, allPackets)
        invariant !includeLost ==> allPackets == []
        invariant lastTimestampUs == GetBaseTimeUs()
        invariant seqNo == ToUint16(baseSeqNo + i)
      {
        StatusStep(deltaSizes, baseSeqNo, i);
        if deltaSizes[i] == 0 {
          SkipStatus(deltaSizes, i, seqNo);
        } else {
          PushStatus(deltaSizes, i, seqNo, 0);
        }
        NextCounts(baseSeqNo, i);
        seqNo := Next(seqNo);
        i := i + 1;
      }
      assert deltaSizes[..i] == deltaSizes;
    }

    /** With deltas when the announced length has room for them, without
        otherwise. */
    method ParsePackets(p: seq<uint8>, end: nat, start: nat, deltaSizes: seq<DeltaSize>) returns (ok: bool, index: nat)
      requires receivedPackets == [] && allPackets == [] && lastTimestampUs == GetBaseTimeUs()
      requires start <= end <= |p|
      modifies this`receivedPackets, this`allPackets, this`lastTimestampUs, this`includeTimestamps
      ensures
        var deltas := end >= start + SumSizes(deltaSizes);
        && (ok <==> deltas ==> ReadDeltas(p, start, deltaSizes, baseSeqNo).Some?)
        && (ok ==>
              && receivedPackets == (if deltas then ReadDeltas(p, start, deltaSizes, baseSeqNo).value
                                     else WithoutDeltas(deltaSizes, baseSeqNo))
              && (includeLost ==> Complete(deltaSizes, receivedPackets, baseSeqNo, allPackets))
              && (!includeLost ==> allPackets == [])
              && lastTimestampUs == GetBaseTimeUs() + DELTA_SCALE_FACTOR * SumDeltas(receivedPackets)
              && includeTimestamps == (old(includeTimestamps) && deltas)
              && index == (if deltas then start + SumSizes(deltaSizes) else start))
    {
      hide ReadDeltas, WithoutDeltas, Complete, SumSizes, SumDeltas;
      index := start;
      var recvDeltaSize := SumOf(deltaSizes);
      if end >= index + recvDeltaSize {
        ok, index := ParseDeltas(p, index, deltaSizes);
      } else {
        includeTimestamps := false;
        ParseStatuses(deltaSizes);
        WithoutDeltasMatches(deltaSizes, baseSeqNo);
        ok := true;
      }
    }

    /** What a parsed message is kept as. */
    ghost predicate Holds(m: Message, wereTimestampsIncluded: bool)
      requires Valid()
      reads Repr()
    {
      && WireFields() == m.fields.(senderSsrc := senderSsrc, mediaSsrc := mediaSsrc)
      && numSeqNo == |m.symbols|
      && Symbols() == m.symbols
      && receivedPackets == m.received
      && (includeLost ==> Complete(m.symbols, m.received, baseSeqNo, allPackets))
      && (!includeLost ==> allPackets == [])
      && includeTimestamps == (wereTimestampsIncluded && m.timestamps)
      && lastTimestampUs == GetBaseTimeUs() + DELTA_SCALE_FACTOR * SumDeltas(m.received)
      && sizeBytes == 4 + m.index
      && Overhead() == HEADER_SIZE + CHUNK_SIZE * |m.words|
    }

    /** Takes the fixed fields and forgets everything else. */
    method ReadFields(p: seq<uint8>) returns (statusCount: uint16)
      requires Valid() && 16 <= |p|
      modifies this, lastChunk
      ensures Valid() && Consistent() && Symbols() == []
      ensures statusCount == FieldsAt(p).statusCount
      ensures baseSeqNo == FieldsAt(p).baseSeqNo && baseTimeTicks == FieldsAt(p).baseTimeTicks
      ensures feedbackSeq == FieldsAt(p).feedbackSeq
      ensures receivedPackets == [] && allPackets == [] && encodedChunks == []
      ensures lastTimestampUs == GetBaseTimeUs()
      ensures unchanged(`senderSsrc) && unchanged(`mediaSsrc) && unchanged(`header) && unchanged(`includeTimestamps)
    {
      hide Load16, Load24, Load32, Coherent, Faithful, Complete;
      baseSeqNo := Load16(p, 8);
      statusCount := Load16(p, 10);
      baseTimeTicks := Load24(p, 12);
      feedbackSeq := p[15];
      Clear();
    }

    /** Chunks, then packets, of a message just cleared. */
    method ParseBody(p: seq<uint8>, end: nat, statusCount: uint16) returns (ok: bool)
      requires Valid() && 16 <= |p| && end <= |p| && end <= 4 * 0xffff
      requires statusCount > 0 && FieldsAt(p) == WireFields().(senderSsrc := FieldsAt(p).senderSsrc,
                 mediaSsrc := FieldsAt(p).mediaSsrc, statusCount := statusCount)
      requires receivedPackets == [] && allPackets == [] && encodedChunks == [] && lastTimestampUs == GetBaseTimeUs()
      modifies this, lastChunk, lastChunk.deltaSizes
      ensures Valid()
      ensures ok <==> ParsePayload(p, end).Some?
      ensures ok ==> Holds(ParsePayload(p, end).value, old(includeTimestamps))
      ensures unchanged(`senderSsrc) && unchanged(`mediaSsrc) && unchanged(`header)
    {
      hide ParsePayload, WordCount, WordsAt, DecodeWords, DecodedAll, SumSizes, SumDeltas, ReadDeltas, WithoutDeltas;
      hide Complete, Load16, Load24, Load32, LastWordDecoded, LastChunk.Contents, FieldsAt;
      ParseCases(p, end);
      var chunksOk, index, deltaSizes, k := ParseChunks(p, end, statusCount);
      if !chunksOk {
        return false;
      }
      KeptSymbols(p, end, statusCount, k, lastChunk.Contents());
      numSeqNo := statusCount;
      var packetsOk, last := ParsePackets(p, end, index, deltaSizes);
      if !packetsOk {
        return false;
      }
      sizeBytes := 4 + last;
      ok := true;
    }

    /** Reads the payload p, of which the header announces `end` bytes. */
    method ParsePayloadBytes(p: seq<uint8>, end: nat) returns (ok: bool)
      requires Valid() && 16 <= |p| && end <= |p| && end <= 4 * 0xffff
      modifies this, lastChunk, lastChunk.deltaSizes
      ensures Valid()
      ensures ok <==> ParsePayload(p, end).Some?
      ensures ok ==> Holds(ParsePayload(p, end).value, old(includeTimestamps))
      ensures !ok ==> Consistent() && Symbols() == []
      ensures unchanged(`senderSsrc) && unchanged(`mediaSsrc) && unchanged(`header)
    {
      hide WordCount, Coherent, Holds, DecodedAll, FieldsAt;
      var statusCount := ReadFields(p);
      if statusCount == 0 {
        return false;
      }
      ok := ParseBody(p, end, statusCount);
      if !ok {
        Clear();
      }
    }

    /** A parsed message is consistent except in one case: the object had been
        marked as having no timestamps and the bytes do carry deltas, because
        parsing never sets that mark back. */
    lemma ParsedConsistent(p: seq<uint8>, end: nat, were: bool)
      requires Valid() && 16 <= |p| && end <= |p| && ParsePayload(p, end).Some?
      requires Holds(ParsePayload(p, end).value, were)
      ensures var m := ParsePayload(p, end).value;
              Consistent() <==> were || !m.timestamps || SumSizes(m.symbols) == 0
    {
      hide ParsePayload, Matches, SumSizes, SumDeltas, DecodedAll, LastChunk.Contents, FieldsAt, Complete;
      ParsedAgrees(p, end);
    }

    /** ParseCommonHeader, the type check and ParseCommonFeedback. */
    method ParseFront(reader: ByteReader) returns (ok: bool)
      requires Valid() && reader.Valid() && reader !in Repr()
      modifies this`header, this`senderSsrc, this`mediaSsrc, reader
      ensures Valid() && reader.Valid() && (old(Consistent()) ==> Consistent())
      ensures var at := old(reader.start);
              && (ok <==>
                    && 12 <= old(reader.Left())
                    && HeaderAt(reader.bytes, at).packetType == RTPFB
                    && HeaderAt(reader.bytes, at).countOrFormat == FORMAT_TWCC)
              && (ok ==>
                    && reader.start == at + 12 && header == HeaderAt(reader.bytes, at)
                    && senderSsrc == Load32(reader.bytes, at + 4) && mediaSsrc == Load32(reader.bytes, at + 8))
    {
      hide HeaderAt, Load32, Coherent, DecodedAll, LastChunk.Contents;
      var h, sender, media;
      ok, h := ParseCommonHeader(reader);
      if !ok {
        return;
      }
      header := h;
      if header.packetType != RTPFB || header.countOrFormat != FORMAT_TWCC {
        return false;
      }
      ok, sender, media := ParseCommonFeedback(reader);
      if ok {
        senderSsrc, mediaSsrc := sender, media;
      }
    }

    /** Parses one message in front of the reader. It is accepted exactly when
        ParseAt accepts the bytes, and then kept as ParseAt reads it; the reader
        moves behind the announced length if it holds that much. */
    method Parse(reader: ByteReader) returns (ok: bool)
      requires Valid() && reader.Valid() && reader !in Repr()
      requires PayloadPresent(reader.bytes, reader.start)
      modifies this, lastChunk, lastChunk.deltaSizes, reader
      ensures Valid() && reader.Valid()
      ensures ok <==> ParseAt(reader.bytes, old(reader.start), old(reader.Left())).Some?
      ensures ok ==>
                var m := ParseAt(reader.bytes, old(reader.start), old(reader.Left())).value;
                && Holds(m, old(includeTimestamps))
                && WireFields() == m.fields
                && (Consistent() <==> old(includeTimestamps) || !m.timestamps || SumSizes(m.symbols) == 0)
                && header == HeaderAt(reader.bytes, old(reader.start))
                && var end := old(reader.start) + 4 + 4 * header.length;
                   end <= reader.end ==> reader.start == end
      ensures !ok && old(Consistent()) ==> Consistent()
    {
      hide ParsePayload, HeaderAt, FieldsAt, Coherent, Complete, DecodedAll, LastChunk.Contents, SumSizes, SumDeltas;
      hide Load32;
      ghost var at := reader.start;
      ok := ParseFront(reader);
      if !ok {
        return;
      }
      var payloadLen := 4 * header.length;
      var payload := reader.bytes[reader.start - 8..reader.start - 8 + Max(16, payloadLen)];
      ok := ParsePayloadBytes(payload, payloadLen);
      if !ok {
        return;
      }
      ParsedConsistent(payload, payloadLen, old(includeTimestamps));
      ParsedAgrees(payload, payloadLen);
      SsrcsAt(reader.bytes, at + 4, payload);
      var _ := reader.Consume((payloadLen as int) - 8);
    }
  }

  /** A message with one packet, received one tick after the base time. */
  function OneTick(): seq<uint8> {
    HeaderBytes(CommonHeader(FORMAT_TWCC, 1, VERSION, RTPFB, 5))
    + Payload(Fields(0, 0, 0, 1, 0, 0), [0x2001], [Received(0, 1)], 1)
  }

  ghost const ONE_TICK := Message(Fields(0, 0, 0, 1, 0, 0), [0x2001], [1], [Received(0, 1)], true, 19)

  lemma DeltasWithoutMark()
    ensures |OneTick()| == 24 && PayloadPresent(OneTick(), 0) && HeaderAt(OneTick(), 0).length == 5
    ensures ParseAt(OneTick(), 0, 24) == Some(ONE_TICK)
  {
    hide ParsePayload, ParseAt, HeaderBytes, HeaderAt, Payload;
    var f, words, symbols: seq<DeltaSize>, packets := Fields(0, 0, 0, 1, 0, 0), [0x2001], [1], [Received(0, 1)];
    assert symbols[..0] == [] && packets[..0] == [];
    assert words[..0] == [] && DecodedAll([]) == [];
    assert Decoded(0x2001, 1) == [1];
    var payload := Payload(f, words, packets, 1);
    PayloadRoundTrip(f, words, symbols, packets, 1, payload);
    var h := CommonHeader(FORMAT_TWCC, 1, VERSION, RTPFB, 5);
    MessageRoundTrip(h, f, words, symbols, packets, 1, payload, OneTick());
  }

  /** Parsed into an object that was made without timestamps, these bytes are accepted
      and leave an inconsistent object. */
  method ParseWithoutMark() returns (f: TransportFeedback, parsed: bool, consistent: bool)
    ensures fresh(f.Repr()) && f.Valid() && parsed && !consistent
    ensures f.Symbols() == [1] && f.receivedPackets == [Received(0, 1)] && !f.includeTimestamps
    ensures !f.Consistent()
  {
    hide ParseAt, PayloadPresent, HeaderAt, TransportFeedback.Consistent, TransportFeedback.Built, ToInt32;
    hide TransportFeedback.Symbols, TransportFeedback.TimeChecked, Coherent, Complete, OneTick;
    hide TransportFeedback.Valid, TransportFeedback.Holds, SumSizes;
    DeltasWithoutMark();
    f := new TransportFeedback(false, false);
    var reader := new ByteReader(OneTick(), 24);
    parsed := f.Parse(reader);
    assert ParseAt(reader.bytes, 0, 24).value == ONE_TICK;
    HoldsOneTick(f);
    consistent := f.IsConsistent();
  }

  lemma HoldsOneTick(f: TransportFeedback)
    requires f.Valid() && f.Holds(ONE_TICK, false)
    ensures f.Symbols() == [1] && f.receivedPackets == [Received(0, 1)] && !f.includeTimestamps
    ensures f.baseTimeTicks == 0 && SumSizes(ONE_TICK.symbols) == 1
  {
    hide TransportFeedback.Symbols, SumDeltas;
    assert [1 as DeltaSize][..0] == [];
  }

  lemma SsrcsAt(bytes: seq<uint8>, at: nat, p: seq<uint8>)
    requires 16 <= |p| && at + |p| <= |bytes| && p == bytes[at..at + |p|]
    ensures FieldsAt(p).senderSsrc == Load32(bytes, at)
    ensures FieldsAt(p).mediaSsrc == Load32(bytes, at + 4)
  {
  }

  method SumOf(deltaSizes: seq<DeltaSize>) returns (r: nat)
    ensures r == SumSizes(deltaSizes)
  {
    r := 0;
    for i := 0 to |deltaSizes|
      invariant r == SumSizes(deltaSizes[..i])
    {
      assert deltaSizes[..i + 1][..i] == deltaSizes[..i];
      r := r + deltaSizes[i];
    }
    assert deltaSizes[..|deltaSizes|] == deltaSizes;
  }

  lemma NothingRead(p: seq<uint8>, start: nat, symbols: seq<DeltaSize>, base: uint16)
    requires start <= |p|
    ensures SumSizes(symbols[..0]) == SumDeltas([]) == 0
    ensures ReadDeltas(p, start, symbols[..0], base) == Some([])
    ensures WithoutDeltas(symbols[..0], base) == []
    ensures Complete(symbols[..0], [], base, [])
    ensures ToUint16(base + 0) == base
  {
  }

  method WriteMessage(w: ByteWriter, header: CommonHeader, f: Fields, words: seq<uint16>,
                      packets: seq<ReceivedPacket>, padding: nat) returns (ok: bool)
    requires w.Valid() && padding < 4
    modifies w, w.bytes
    ensures w.Valid()
    ensures ok <==> |HeaderBytes(header) + Payload(f, words, packets, padding)| <= old(w.Left())
    ensures ok ==> w.Written() == old(w.Written()) + (HeaderBytes(header) + Payload(f, words, packets, padding))
  {
    hide Head, WordBytes, DeltaBlock, Padding, HeaderBytes;
    ok := WriteFront(w, header, f);
    if !ok { return; }
    ok := WriteWords(w, words);
    if !ok { return; }
    ok := WriteDeltas(w, packets);
    if !ok { return; }
    ok := WritePadding(w, padding);
  }

  method WriteFront(w: ByteWriter, header: CommonHeader, f: Fields) returns (ok: bool)
    requires w.Valid()
    modifies w, w.bytes
    ensures w.Valid()
    ensures ok <==> |HeaderBytes(header) + Head(f)| <= old(w.Left())
    ensures ok ==> w.Written() == old(w.Written()) + (HeaderBytes(header) + Head(f))
  {
    hide HeaderBytes, Bytes16, Bytes24, Bytes32, Head;
    ok := WriteCommonFeedback(w, header, f.senderSsrc, f.mediaSsrc);
    if !ok { return; }
    ok := WriteFixedFields(w, f);
    HeadParts(header, f);
    if !ok { return; }
    Joined(old(w.Written()), HeaderBytes(header) + Bytes32(f.senderSsrc) + Bytes32(f.mediaSsrc), FixedFields(f));
  }

  lemma Joined(a: seq<uint8>, b: seq<uint8>, c: seq<uint8>)
    ensures a + b + c == a + (b + c)
  {
  }

  ghost function FixedFields(f: Fields): seq<uint8> {
    Bytes16(f.baseSeqNo) + Bytes16(f.statusCount) + Bytes24(f.baseTimeTicks) + [f.feedbackSeq]
  }

  lemma HeadParts(header: CommonHeader, f: Fields)
    ensures HeaderBytes(header) + Head(f) ==
            HeaderBytes(header) + Bytes32(f.senderSsrc) + Bytes32(f.mediaSsrc) + FixedFields(f)
    ensures |FixedFields(f)| == 8
  {
    hide HeaderBytes, Bytes16, Bytes24, Bytes32;
  }

  method WriteFixedFields(w: ByteWriter, f: Fields) returns (ok: bool)
    requires w.Valid()
    modifies w, w.bytes
    ensures w.Valid()
    ensures ok <==> |FixedFields(f)| <= old(w.Left())
    ensures ok ==> w.Written() == old(w.Written()) + FixedFields(f)
  {
    hide Bytes16, Bytes24;
    ok := w.WriteUInt16(f.baseSeqNo);
    if !ok { return; }
    ok := w.WriteUInt16(f.statusCount);
    if !ok { return; }
    ok := w.WriteUInt24(f.baseTimeTicks);
    if !ok { return; }
    ok := w.WriteUInt8(f.feedbackSeq);
  }

  method WriteWords(w: ByteWriter, words: seq<uint16>) returns (ok: bool)
    requires w.Valid()
    modifies w, w.bytes
    ensures w.Valid()
    ensures ok <==> |WordBytes(words)| <= old(w.Left())
    ensures ok ==> w.Written() == old(w.Written()) + WordBytes(words)
  {
    var i := 0;
    while i < |words|
      invariant 0 <= i <= |words| && w.Valid()
      invariant w.Written() == old(w.Written()) + WordBytes(words[..i])
    {
      var done := w.WriteUInt16(words[i]);
      if !done {
        return false;
      }
      assert words[..i + 1][..i] == words[..i];
      i := i + 1;
    }
    assert words[..i] == words;
    return true;
  }

  lemma {:induction false} DeltaBlockGrows(packets: seq<ReceivedPacket>, i: nat)
    requires i <= |packets|
    ensures |DeltaBlock(packets[..i])| <= |DeltaBlock(packets)|
  {
    if i == |packets| {
      assert packets[..i] == packets;
    } else {
      DeltaBlockGrows(packets[..|packets| - 1], i);
      assert packets[..|packets| - 1][..i] == packets[..i];
    }
  }

  method WriteDelta(w: ByteWriter, delta: int16) returns (ok: bool)
    requires w.Valid()
    modifies w, w.bytes
    ensures w.Valid()
    ensures ok <==> |DeltaBytes(delta)| <= old(w.Left())
    ensures ok ==> w.Written() == old(w.Written()) + DeltaBytes(delta)
  {
    if 0 <= delta <= 0xff {
      ok := w.WriteUInt8(delta);
    } else {
      ok := w.WriteUInt16(ToUint16(delta));
    }
  }

  method WriteDeltas(w: ByteWriter, packets: seq<ReceivedPacket>) returns (ok: bool)
    requires w.Valid()
    modifies w, w.bytes
    ensures w.Valid()
    ensures ok <==> |DeltaBlock(packets)| <= old(w.Left())
    ensures ok ==> w.Written() == old(w.Written()) + DeltaBlock(packets)
  {
    hide DeltaBytes;
    var i := 0;
    while i < |packets|
      invariant 0 <= i <= |packets| && w.Valid()
      invariant w.Written() == old(w.Written()) + DeltaBlock(packets[..i])
    {
      assert packets[..i + 1][..i] == packets[..i];
      DeltaBlockGrows(packets, i + 1);
      var done := WriteDelta(w, packets[i].deltaTicks);
      if !done {
        return false;
      }
      i := i + 1;
    }
    assert packets[..i] == packets;
    return true;
  }

  method WritePadding(w: ByteWriter, n: nat) returns (ok: bool)
    requires w.Valid() && n < 4
    modifies w, w.bytes
    ensures w.Valid()
    ensures ok <==> n <= old(w.Left())
    ensures ok ==> w.Written() == old(w.Written()) + Padding(n)
  {
    if n == 0 {
      return true;
    }
    var i := 0;
    while i < n - 1
      invariant 0 <= i <= n - 1 && w.Valid()
      invariant w.Written() == old(w.Written()) + seq(i, j => 0)
    {
      var done := w.WriteUInt8(0);
      if !done {
        return false;
      }
      i := i + 1;
    }
    ok := w.WriteUInt8(n);
  }

  /** The message that describes nothing is all it should be. */
  lemma NothingDescribed(base: uint16, ticks: int, timestamps: bool)
    ensures DecodedAll([]) == [] && EncodeRun([]) == Encoder([], [])
    ensures Coherent([], [], base, ticks, ticks * BASE_SCALE_FACTOR, 0, timestamps)
    ensures Faithful([], [], base, ticks, [], timestamps)
    ensures Complete([], [], base, [])
  {
  }

  /** While nothing is described the base may be any. */
  lemma Rebased(packets: seq<ReceivedPacket>, base: uint16, ticks: int, lastTimestampUs: int, deltaBytes: int,
                timestamps: bool, arrivals: seq<int>, all: seq<PacketStatus>, newBase: uint16, newTicks: int)
    ensures Coherent([], packets, base, ticks, lastTimestampUs, deltaBytes, timestamps) ==>
              Coherent([], packets, newBase, newTicks, newTicks * BASE_SCALE_FACTOR, deltaBytes, timestamps)
    ensures Faithful([], packets, base, ticks, arrivals, timestamps) ==>
              Faithful([], packets, newBase, newTicks, arrivals, timestamps)
    ensures Complete([], packets, base, all) ==> Complete([], packets, newBase, all)
  {
  }

  lemma NoChunks(words: seq<uint16>)
    ensures DecodedAll(words[..0]) == []
  {
  }

  lemma Regrouped(a: seq<DeltaSize>, b: seq<DeltaSize>, c: seq<DeltaSize>, d: DeltaSize)
    ensures a + b + (c + [d]) == a + (b + c) + [d]
  {
  }

  lemma NoneLost(symbols: seq<DeltaSize>)
    ensures symbols + Zeros(0) == symbols
  {
  }

  lemma OneMoreLost(symbols: seq<DeltaSize>, k: nat)
    ensures symbols + Zeros(k) + [0] == symbols + Zeros(k + 1)
  {
    assert Zeros(k + 1) == Zeros(k) + [0];
  }

  function Next(s: uint16): uint16 {
    ToUint16(s + 1)
  }

  lemma NextCounts(from: int, k: nat)
    ensures Next(ToUint16(from + k)) == ToUint16(from + (k + 1))
  {
  }

  lemma EmptyPrefix(symbols: seq<DeltaSize>, packets: seq<ReceivedPacket>, base: uint16)
    ensures ReceivedCount(symbols[..0]) == SumSizes(symbols[..0]) == SumDeltas(packets[..0]) == 0
    ensures Matches(symbols[..0], packets[..0], base)
    ensures ToUint16(base + 0) == base
  {
  }

  /** Counting up from `from`, sequenceNumber is met after exactly the gap. */
  lemma GapStep(from: int, sequenceNumber: uint16, k: nat)
    requires k <= ToUint16(sequenceNumber - from)
    ensures ToUint16(from + k) == sequenceNumber <==> k == ToUint16(sequenceNumber - from)
    ensures Next(ToUint16(from + k)) == ToUint16(from + k + 1)
    ensures k > 0 ==> Next(ToUint16(from + k - 1)) == ToUint16(from + k)
  {
    hide Next, ToUint16;
    NextOne(from + k);
    NextOne(from + k - 1);
    MetAtGap(from, sequenceNumber, k);
  }

  lemma MetAtGap(from: int, sequenceNumber: uint16, k: nat)
    requires k <= ToUint16(sequenceNumber - from)
    ensures ToUint16(from + k) == sequenceNumber <==> k == ToUint16(sequenceNumber - from)
  {
    var gap, turns := ToUint16(sequenceNumber - from), (sequenceNumber - from) / SPAN;
    var short := sequenceNumber + k - gap;
    assert from + k == short - SPAN * turns;
    if short >= 0 {
      HasResidue(from + k, -turns, short);
    } else {
      HasResidue(from + k, -turns - 1, short + SPAN);
    }
  }

  lemma NextOne(x: int)
    ensures Next(ToUint16(x)) == ToUint16(x + 1)
  {
  }
}
