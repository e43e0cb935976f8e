/**
 What one transport-wide feedback message means, independently of how it is
 stored: its symbols, its received packets and its times.
 */
module FeedbackSpec {
  import opened SequenceNumber
  import opened StatusChunk
  import opened TruncatedDivision

  type int16 = x: int | -0x8000 <= x < 0x8000

  const DELTA_SCALE_FACTOR := 250
  const BASE_SCALE_FACTOR := 250 * 0x100
  /** The last base time whose microseconds fit a 32-bit int. */
  const MAX_INT32_TICKS := 33554
  const TIME_WRAP_PERIOD_US := 0x100_0000 * 64000
  const MAX_REPORTED_PACKETS := 0xffff
  const HEADER_SIZE := 20
  const CHUNK_SIZE := 2
  const MAX_SIZE_BYTES := 0x1_0000 * 4

  datatype ReceivedPacket = Received(sequenceNumber: uint16, deltaTicks: int16)

  datatype PacketStatus = Lost(sequenceNumber: uint16) | Arrived(packet: ReceivedPacket)

  // ---------------------------------------------------------------------
  // Time arithmetic.

  function ToInt16(x: int): int16 {
    (x + 0x8000) % 0x1_0000 - 0x8000
  }

  /** What is left of a product of two ints, in two's complement. */
  function ToInt32(x: int): int {
    (x + 0x8000_0000) % 0x1_0000_0000 - 0x8000_0000
  }

  function BaseTicks(refTimestampUs: int): int {
    TruncDiv(TruncMod(refTimestampUs, TIME_WRAP_PERIOD_US), BASE_SCALE_FACTOR)
  }

  /** The rounded number of 250 us ticks between two times, shorter way around. */
  function DeltaFull(timestampUs: int, lastTimestampUs: int): int {
    var wrapped := TruncMod(timestampUs - lastTimestampUs, TIME_WRAP_PERIOD_US);
    var nearest := if wrapped > TIME_WRAP_PERIOD_US / 2 then wrapped - TIME_WRAP_PERIOD_US else wrapped;
    var rounded := nearest + (if nearest < 0 then -(DELTA_SCALE_FACTOR / 2) else DELTA_SCALE_FACTOR / 2);
    TruncDiv(rounded, DELTA_SCALE_FACTOR)
  }

  /** Within 125 us of each other, modulo the period of the base time. */
  ghost predicate Near(a: int, b: int) {
    (a - b + 125) % TIME_WRAP_PERIOD_US <= 250
  }

  lemma TruncModIsCongruent(a: int)
    ensures (TruncMod(a, TIME_WRAP_PERIOD_US) - a) % TIME_WRAP_PERIOD_US == 0
    ensures -TIME_WRAP_PERIOD_US < TruncMod(a, TIME_WRAP_PERIOD_US) < TIME_WRAP_PERIOD_US
    ensures a >= 0 ==> TruncMod(a, TIME_WRAP_PERIOD_US) == a % TIME_WRAP_PERIOD_US
  {
  }

  lemma RoundingError(d: int)
    ensures var q := TruncDiv(d + (if d < 0 then -125 else 125), 250);
            -125 <= 250 * q - d <= 125
  {
  }

  /** Whatever the two times, the delta leads from the last one to within 125 us
      of the new one. */
  lemma DeltaFullIsNear(timestampUs: int, lastTimestampUs: int)
    ensures Near(lastTimestampUs + DELTA_SCALE_FACTOR * DeltaFull(timestampUs, lastTimestampUs), timestampUs)
  {
    var d := timestampUs - lastTimestampUs;
    var q := TruncDiv(d, TIME_WRAP_PERIOD_US);
    var wrapped := TruncMod(d, TIME_WRAP_PERIOD_US);
    var turns := if wrapped > TIME_WRAP_PERIOD_US / 2 then q + 1 else q;
    var nearest := d - TIME_WRAP_PERIOD_US * turns;
    RoundingError(nearest);
    var off := DELTA_SCALE_FACTOR * DeltaFull(timestampUs, lastTimestampUs) - nearest;
    NearAfterTurns(off, -turns);
    assert lastTimestampUs + DELTA_SCALE_FACTOR * DeltaFull(timestampUs, lastTimestampUs) - timestampUs ==
           off + TIME_WRAP_PERIOD_US * -turns;
  }

  /** How far the new time is ahead of the last one, the period taken `turns` times. */
  function Ahead(timestampUs: int, lastTimestampUs: int, turns: int): int {
    timestampUs - lastTimestampUs - TIME_WRAP_PERIOD_US * turns
  }

  /** TruncMod keeps the sign, so a difference is brought to the short way around only
      if it does not lie more than half a period, and some turns, in the past. */
  predicate Unwrappable(timestampUs: int, lastTimestampUs: int) {
    TruncMod(timestampUs - lastTimestampUs, TIME_WRAP_PERIOD_US) >= -(TIME_WRAP_PERIOD_US / 2)
  }

  /** The delta is the short way around, rounded to the nearest tick and half a tick
      away from zero. */
  lemma DeltaIsShortWay(timestampUs: int, lastTimestampUs: int, turns: int)
    requires Unwrappable(timestampUs, lastTimestampUs)
    requires -(TIME_WRAP_PERIOD_US / 2) < Ahead(timestampUs, lastTimestampUs, turns) < TIME_WRAP_PERIOD_US / 2
    ensures var ahead, delta := Ahead(timestampUs, lastTimestampUs, turns), DeltaFull(timestampUs, lastTimestampUs);
            if ahead >= 0 then 250 * delta - 125 <= ahead < 250 * delta + 125
            else 250 * delta - 125 < ahead <= 250 * delta + 125
  {
    var d := timestampUs - lastTimestampUs;
    var q := TruncDiv(d, TIME_WRAP_PERIOD_US);
    var wrapped := TruncMod(d, TIME_WRAP_PERIOD_US);
    OneTurnOnly(d - TIME_WRAP_PERIOD_US * turns, wrapped, q - turns);
  }

  lemma OneTurnOnly(ahead: int, wrapped: int, turns: int)
    requires ahead == wrapped + TIME_WRAP_PERIOD_US * turns
    requires -(TIME_WRAP_PERIOD_US / 2) <= wrapped < TIME_WRAP_PERIOD_US
    requires -(TIME_WRAP_PERIOD_US / 2) < ahead < TIME_WRAP_PERIOD_US / 2
    ensures ahead == if wrapped > TIME_WRAP_PERIOD_US / 2 then wrapped - TIME_WRAP_PERIOD_US else wrapped
  {
  }

  /** A delta in ticks that leads, some turns away, to less than half a tick from the
      new time is the delta. */
  lemma DeltaIsTheOneThatLeads(timestampUs: int, lastTimestampUs: int, delta: int16, turns: int)
    requires Unwrappable(timestampUs, lastTimestampUs)
    requires -125 < lastTimestampUs + 250 * delta + TIME_WRAP_PERIOD_US * turns - timestampUs < 125
    ensures DeltaFull(timestampUs, lastTimestampUs) == delta
  {
    hide DeltaFull, Unwrappable;
    DeltaIsShortWay(timestampUs, lastTimestampUs, turns);
  }

  /** What fits 16 bits: a time less than 8.192 s away, give or take half a tick. */
  lemma DeltaFitsExactly(timestampUs: int, lastTimestampUs: int, turns: int)
    requires Unwrappable(timestampUs, lastTimestampUs)
    requires -(TIME_WRAP_PERIOD_US / 2) < Ahead(timestampUs, lastTimestampUs, turns) < TIME_WRAP_PERIOD_US / 2
    ensures -0x8000 <= DeltaFull(timestampUs, lastTimestampUs) < 0x8000 <==>
            -8_192_125 < Ahead(timestampUs, lastTimestampUs, turns) < 8_191_875
  {
    hide DeltaFull, Unwrappable;
    DeltaIsShortWay(timestampUs, lastTimestampUs, turns);
  }

  /** Later times can always be unwrapped, and so can earlier ones by up to half a period. */
  lemma LaterIsUnwrappable(timestampUs: int, lastTimestampUs: int)
    requires timestampUs - lastTimestampUs >= -(TIME_WRAP_PERIOD_US / 2)
    ensures Unwrappable(timestampUs, lastTimestampUs)
  {
  }

  /** Otherwise, but for less than half a tick, the delta goes the long way around. */
  lemma ShortWayExactly(timestampUs: int, lastTimestampUs: int)
    ensures -(TIME_WRAP_PERIOD_US / 2) <= 250 * DeltaFull(timestampUs, lastTimestampUs) <= TIME_WRAP_PERIOD_US / 2 <==>
            TruncMod(timestampUs - lastTimestampUs, TIME_WRAP_PERIOD_US) > -(TIME_WRAP_PERIOD_US / 2) - 125
  {
  }

  /** One millisecond after a last time close to the end of the period: 4 ticks on the
      clock, and nearly a whole period backwards in the delta. */
  lemma LongWayAround()
    ensures Near(TIME_WRAP_PERIOD_US - 1000 + 250 * 4, 0)
    ensures DeltaFull(0, TIME_WRAP_PERIOD_US - 1000) == 4 - TIME_WRAP_PERIOD_US / 250
  {
  }

  lemma NearAfterTurns(off: int, turns: int)
    requires -125 <= off <= 125
    ensures (off + TIME_WRAP_PERIOD_US * turns + 125) % TIME_WRAP_PERIOD_US <= 250
  {
    var x := off + 125;
    assert x + TIME_WRAP_PERIOD_US * turns == off + TIME_WRAP_PERIOD_US * turns + 125;
    assert (x + TIME_WRAP_PERIOD_US * turns) % TIME_WRAP_PERIOD_US == x;
  }

  /** Against its own base time, rounded down to 64 ms, a packet always has a
      representable delta of at most 256 ticks. */
  lemma FreshDeltaFits(timestampUs: int)
    requires timestampUs >= 0
    ensures 0 <= BaseTicks(timestampUs) < 0x100_0000
    ensures 0 <= DeltaFull(timestampUs, BaseTicks(timestampUs) * BASE_SCALE_FACTOR) <= 256
  {
    var w := timestampUs % TIME_WRAP_PERIOD_US;
    TruncModIsCongruent(timestampUs);
    var base := w / BASE_SCALE_FACTOR * BASE_SCALE_FACTOR;
    var d := timestampUs - base;
    assert d >= 0 && (d - (w - base)) % TIME_WRAP_PERIOD_US == 0;
    assert 0 <= w - base < BASE_SCALE_FACTOR;
    TruncModIsCongruent(d);
    assert TruncMod(d, TIME_WRAP_PERIOD_US) == w - base;
  }

  // ---------------------------------------------------------------------
  // Symbols against received packets.

  function SizeOfDelta(delta: int): DeltaSize {
    if 0 <= delta <= 0xff then 1 else 2
  }

  ghost function SumSizes(symbols: seq<DeltaSize>): nat {
    if symbols == [] then 0 else SumSizes(symbols[..|symbols| - 1]) + symbols[|symbols| - 1]
  }

  ghost function SumDeltas(packets: seq<ReceivedPacket>): int {
    if packets == [] then 0
    else SumDeltas(packets[..|packets| - 1]) + packets[|packets| - 1].deltaTicks
  }

  ghost function ReceivedCount(symbols: seq<DeltaSize>): nat {
    if symbols == [] then 0
    else ReceivedCount(symbols[..|symbols| - 1]) + (if symbols[|symbols| - 1] > 0 then 1 else 0)
  }

  /** Each non-zero symbol has its packet, in order, numbered by its position;
      a one-byte symbol has a delta of one byte. */
  ghost predicate Matches(symbols: seq<DeltaSize>, packets: seq<ReceivedPacket>, base: uint16) {
    if symbols == [] then packets == []
    else
      var n, m := |symbols| - 1, |packets| - 1;
      if symbols[n] == 0 then Matches(symbols[..n], packets, base)
      else
        && packets != []
        && packets[m].sequenceNumber == ToUint16(base + n)
        && (symbols[n] == 1 ==> 0 <= packets[m].deltaTicks <= 0xff)
        && Matches(symbols[..n], packets[..m], base)
  }

  /** As Matches, with every symbol the smallest that carries its delta. */
  ghost predicate MatchesTightly(symbols: seq<DeltaSize>, packets: seq<ReceivedPacket>, base: uint16) {
    if symbols == [] then packets == []
    else
      var n, m := |symbols| - 1, |packets| - 1;
      if symbols[n] == 0 then MatchesTightly(symbols[..n], packets, base)
      else
        && packets != []
        && packets[m].sequenceNumber == ToUint16(base + n)
        && symbols[n] == SizeOfDelta(packets[m].deltaTicks)
        && MatchesTightly(symbols[..n], packets[..m], base)
  }

  /** The received packets with the lost ones filled in. */
  ghost function AllOf(symbols: seq<DeltaSize>, packets: seq<ReceivedPacket>, base: uint16): seq<PacketStatus>
    requires Matches(symbols, packets, base)
  {
    if symbols == [] then []
    else
      var n, m := |symbols| - 1, |packets| - 1;
      if symbols[n] == 0 then AllOf(symbols[..n], packets, base) + [Lost(ToUint16(base + n))]
      else AllOf(symbols[..n], packets[..m], base) + [Arrived(packets[m])]
  }

  ghost function Zeros(n: nat): (r: seq<DeltaSize>)
    ensures |r| == n && forall i :: 0 <= i < n ==> r[i] == 0
  {
    seq(n, i => 0)
  }

  lemma TightMatches(symbols: seq<DeltaSize>, packets: seq<ReceivedPacket>, base: uint16)
    requires MatchesTightly(symbols, packets, base)
    ensures Matches(symbols, packets, base)
    ensures SumSizes(symbols) <= 2 * |symbols|
  {
    if symbols != [] {
      var n, m := |symbols| - 1, |packets| - 1;
      if symbols[n] == 0 { TightMatches(symbols[..n], packets, base); }
      else { TightMatches(symbols[..n], packets[..m], base); }
    }
  }

  /** Growing the full status list one symbol at a time. */
  lemma CompleteStep(symbols: seq<DeltaSize>, i: nat, packets: seq<ReceivedPacket>, base: uint16,
                     all: seq<PacketStatus>, delta: int16)
    requires i < |symbols| && Complete(symbols[..i], packets, base, all)
    ensures symbols[i] == 0 ==>
              Complete(symbols[..i + 1], packets, base, all + [Lost(ToUint16(base + i))])
    ensures symbols[i] > 0 && (symbols[i] == 1 ==> 0 <= delta <= 0xff) ==>
              var p := Received(ToUint16(base + i), delta);
              && Complete(symbols[..i + 1], packets + [p], base, all + [Arrived(p)])
              && SumDeltas(packets + [p]) == SumDeltas(packets) + delta
  {
    assert symbols[..i + 1][..i] == symbols[..i];
    PushPacket(packets, Received(ToUint16(base + i), delta));
  }

  /** Any prefix of matching symbols has its own packets in front of the rest. */
  lemma {:induction false} MatchesPrefix(symbols: seq<DeltaSize>, packets: seq<ReceivedPacket>, base: uint16, i: nat)
    requires Matches(symbols, packets, base) && i <= |symbols|
    ensures ReceivedCount(symbols) == |packets|
    ensures ReceivedCount(symbols[..i]) <= |packets|
    ensures Matches(symbols[..i], packets[..ReceivedCount(symbols[..i])], base)
  {
    if i == |symbols| {
      assert symbols[..i] == symbols;
      if symbols != [] {
        var n, m := |symbols| - 1, |packets| - 1;
        if symbols[n] == 0 { MatchesPrefix(symbols[..n], packets, base, n); }
        else { MatchesPrefix(symbols[..n], packets[..m], base, n); }
      }
      assert packets[..|packets|] == packets;
    } else {
      var n, m := |symbols| - 1, |packets| - 1;
      assert symbols[..n][..i] == symbols[..i];
      if symbols[n] == 0 {
        MatchesPrefix(symbols[..n], packets, base, i);
      } else {
        MatchesPrefix(symbols[..n], packets[..m], base, i);
        var c := ReceivedCount(symbols[..i]);
        assert packets[..m][..c] == packets[..c];
      }
    }
  }

  /** What the i-th symbol asks of the next unused packet. */
  ghost predicate PacketFits(symbols: seq<DeltaSize>, packets: seq<ReceivedPacket>, base: uint16, i: nat, c: nat)
    requires i < |symbols|
  {
    && c < |packets|
    && packets[c].sequenceNumber == ToUint16(base + i)
    && (symbols[i] == 1 ==> 0 <= packets[c].deltaTicks <= 0xff)
  }

  lemma NextFits(symbols: seq<DeltaSize>, packets: seq<ReceivedPacket>, base: uint16, i: nat, c: nat)
    requires i < |symbols| && c == ReceivedCount(symbols[..i]) && symbols[i] > 0
    requires Matches(symbols, packets, base)
    ensures PacketFits(symbols, packets, base, i, c)
  {
    hide ToUint16;
    MatchesPrefix(symbols, packets, base, i + 1);
    assert symbols[..i + 1][..i] == symbols[..i];
  }

  /** Reading front to back, one symbol at a time, decides Matches. */
  lemma MatchStep(symbols: seq<DeltaSize>, packets: seq<ReceivedPacket>, base: uint16, i: nat, c: nat)
    requires i < |symbols| && c == ReceivedCount(symbols[..i]) <= |packets|
    requires Matches(symbols[..i], packets[..c], base)
    ensures SumSizes(symbols[..i + 1]) == SumSizes(symbols[..i]) + symbols[i]
    ensures symbols[i] == 0 ==>
              ReceivedCount(symbols[..i + 1]) == c && Matches(symbols[..i + 1], packets[..c], base)
    ensures symbols[i] > 0 && PacketFits(symbols, packets, base, i, c) ==>
              && ReceivedCount(symbols[..i + 1]) == c + 1
              && Matches(symbols[..i + 1], packets[..c + 1], base)
              && SumDeltas(packets[..c + 1]) == SumDeltas(packets[..c]) + packets[c].deltaTicks
    ensures symbols[i] > 0 && !PacketFits(symbols, packets, base, i, c) ==> !Matches(symbols, packets, base)
  {
    hide ToUint16;
    assert symbols[..i + 1][..i] == symbols[..i];
    if c < |packets| {
      assert packets[..c + 1][..c] == packets[..c];
    }
    if symbols[i] > 0 && Matches(symbols, packets, base) {
      NextFits(symbols, packets, base, i, c);
    }
  }

  lemma PushSymbol(symbols: seq<DeltaSize>, d: DeltaSize)
    ensures (symbols + [d])[..|symbols|] == symbols
    ensures SumSizes(symbols + [d]) == SumSizes(symbols) + d
    ensures EncodeRun(symbols + [d]) == EncoderAdd(EncodeRun(symbols), d)
  {
    assert (symbols + [d])[..|symbols|] == symbols;
  }

  lemma PushPacket(packets: seq<ReceivedPacket>, p: ReceivedPacket)
    ensures (packets + [p])[..|packets|] == packets
    ensures SumDeltas(packets + [p]) == SumDeltas(packets) + p.deltaTicks
  {
    assert (packets + [p])[..|packets|] == packets;
  }

  /** A run of lost packets changes neither the matching nor the sizes. */
  lemma {:induction false} PushLost(symbols: seq<DeltaSize>, packets: seq<ReceivedPacket>, base: uint16, k: nat)
    ensures Matches(symbols, packets, base) <==> Matches(symbols + Zeros(k), packets, base)
    ensures MatchesTightly(symbols, packets, base) <==> MatchesTightly(symbols + Zeros(k), packets, base)
    ensures SumSizes(symbols + Zeros(k)) == SumSizes(symbols)
  {
    if k == 0 {
      assert symbols + Zeros(0) == symbols;
    } else {
      PushLost(symbols, packets, base, k - 1);
      assert symbols + Zeros(k) == (symbols + Zeros(k - 1)) + [0];
      PushSymbol(symbols + Zeros(k - 1), 0);
    }
  }

  // ---------------------------------------------------------------------
  // Times.

  /** The time the far end computes for the i-th received packet. */
  ghost function TimeAt(baseTicks: int, packets: seq<ReceivedPacket>, i: nat): int
    requires i < |packets|
  {
    baseTicks * BASE_SCALE_FACTOR + DELTA_SCALE_FACTOR * SumDeltas(packets[..i + 1])
  }

  /** Rounding does not accumulate: every rebuilt time is within 125 us. */
  ghost predicate Accurate(baseTicks: int, packets: seq<ReceivedPacket>, arrivals: seq<int>) {
    && |packets| == |arrivals|
    && forall i :: 0 <= i < |packets| ==> Near(TimeAt(baseTicks, packets, i), arrivals[i])
  }

  lemma PushAccurate(baseTicks: int, packets: seq<ReceivedPacket>, arrivals: seq<int>, p: ReceivedPacket, t: int)
    requires Accurate(baseTicks, packets, arrivals)
    requires Near(baseTicks * BASE_SCALE_FACTOR + DELTA_SCALE_FACTOR * SumDeltas(packets + [p]), t)
    ensures Accurate(baseTicks, packets + [p], arrivals + [t])
  {
    forall i | 0 <= i < |packets| + 1
      ensures Near(TimeAt(baseTicks, packets + [p], i), (arrivals + [t])[i])
    {
      if i < |packets| {
        assert (packets + [p])[..i + 1] == packets[..i + 1];
      } else {
        assert (packets + [p])[..i + 1] == packets + [p];
      }
    }
  }

  // ---------------------------------------------------------------------
  // A whole message.

  /** What the program checks of a message: symbols, packets, running time and
      bytes of delta agree. */
  ghost predicate Coherent(symbols: seq<DeltaSize>, packets: seq<ReceivedPacket>, base: uint16, ticks: int,
                           lastTimestampUs: int, deltaBytes: int, timestamps: bool) {
    && Matches(symbols, packets, base)
    && lastTimestampUs == ticks * BASE_SCALE_FACTOR + DELTA_SCALE_FACTOR * SumDeltas(packets)
    && deltaBytes == if timestamps then SumSizes(symbols) else 0
  }

  lemma CoherentAtOneTime(symbols: seq<DeltaSize>, packets: seq<ReceivedPacket>, base: uint16, ticks: nat,
                          lastTimestampUs: int, deltaBytes: int, timestamps: bool)
    ensures var product := ticks * BASE_SCALE_FACTOR;
            var seen := lastTimestampUs + product - ToInt32(product);
            && (ticks <= MAX_INT32_TICKS ==> seen == lastTimestampUs)
            && (Coherent(symbols, packets, base, ticks, lastTimestampUs, deltaBytes, timestamps) ==>
                  (Coherent(symbols, packets, base, ticks, seen, deltaBytes, timestamps) <==>
                   ticks <= MAX_INT32_TICKS))
  {
    hide Matches, SumDeltas, SumSizes;
  }

  /** What also holds of a message that was filled packet by packet. */
  ghost predicate Faithful(symbols: seq<DeltaSize>, packets: seq<ReceivedPacket>, base: uint16, ticks: int,
                           arrivals: seq<int>, timestamps: bool) {
    && MatchesTightly(symbols, packets, base)
    && (timestamps ==> Accurate(ticks, packets, arrivals))
  }

  ghost predicate Complete(symbols: seq<DeltaSize>, packets: seq<ReceivedPacket>, base: uint16,
                           all: seq<PacketStatus>) {
    Matches(symbols, packets, base) && all == AllOf(symbols, packets, base)
  }

  lemma OneLost(symbols: seq<DeltaSize>, packets: seq<ReceivedPacket>, base: uint16, ticks: int,
                lastTimestampUs: int, deltaBytes: int, timestamps: bool, arrivals: seq<int>, all: seq<PacketStatus>)
    ensures Coherent(symbols, packets, base, ticks, lastTimestampUs, deltaBytes, timestamps) ==>
              Coherent(symbols + [0], packets, base, ticks, lastTimestampUs, deltaBytes, timestamps)
    ensures Faithful(symbols, packets, base, ticks, arrivals, timestamps) ==>
              Faithful(symbols + [0], packets, base, ticks, arrivals, timestamps)
    ensures Complete(symbols, packets, base, all) ==>
              Complete(symbols + [0], packets, base, all + [Lost(ToUint16(base + |symbols|))])
  {
    PushSymbol(symbols, 0);
  }

  lemma OneReceived(symbols: seq<DeltaSize>, packets: seq<ReceivedPacket>, base: uint16, ticks: int,
                    lastTimestampUs: int, deltaBytes: int, timestamps: bool, arrivals: seq<int>,
                    all: seq<PacketStatus>, delta: int16, t: int)
    requires timestamps ==> delta == DeltaFull(t, lastTimestampUs)
    ensures var p := Received(ToUint16(base + |symbols|), delta);
            var size := SizeOfDelta(delta);
            && (Coherent(symbols, packets, base, ticks, lastTimestampUs, deltaBytes, timestamps) ==>
                  && Coherent(symbols + [size], packets + [p], base, ticks,
                              lastTimestampUs + DELTA_SCALE_FACTOR * delta,
                              deltaBytes + (if timestamps then size else 0), timestamps)
                  && (Faithful(symbols, packets, base, ticks, arrivals, timestamps) ==>
                        Faithful(symbols + [size], packets + [p], base, ticks, arrivals + [t], timestamps)))
            && (Complete(symbols, packets, base, all) ==>
                  Complete(symbols + [size], packets + [p], base, all + [Arrived(p)]))
  {
    var p := Received(ToUint16(base + |symbols|), delta);
    var size := SizeOfDelta(delta);
    PushSymbol(symbols, size);
    PushPacket(packets, p);
    DeltaFullIsNear(t, lastTimestampUs);
    if && Coherent(symbols, packets, base, ticks, lastTimestampUs, deltaBytes, timestamps)
       && timestamps && Accurate(ticks, packets, arrivals) {
      PushAccurate(ticks, packets, arrivals, p, t);
    }
  }

  /** Built messages never come near the size limit: 65535 statuses take at most
      two bytes of delta each and a chunk for every seven. */
  lemma BuiltSizeBound(symbols: seq<DeltaSize>, packets: seq<ReceivedPacket>, base: uint16)
    requires |symbols| <= MAX_REPORTED_PACKETS
    requires MatchesTightly(symbols, packets, base)
    ensures HEADER_SIZE + CHUNK_SIZE * (|EncodeRun(symbols).chunks| + 1) + SumSizes(symbols) < MAX_SIZE_BYTES - 4
  {
    TightMatches(symbols, packets, base);
    EncodeRunCarries(symbols);
  }
}
