/**
 The receive side of transport-wide congestion control: arrivals go into the
 window, and the window is cut into feedback messages
 (src/congestion_controller/receive_side_twcc.cpp).
 */
module ReceiveSideTwcc {
  import opened Wrappers
  import opened SequenceNumber
  import opened ByteBuffer
  import opened StatusChunk
  import opened FeedbackSpec
  import opened TransportFeedbackMessage
  import PacketArrivalMap

  const BACK_WINDOW_MILLIS := 100
  const MAX_TIME_MS := 0x7fff_ffff_ffff_ffff / 1000

  /** The arrival times, in microseconds, of the packets of m numbered from `from`
      and before `end`, in order of their numbers. */
  ghost function TimesUs(m: map<int, int>, from: int, end: int): seq<int>
    decreases end - from
  {
    if end <= from then []
    else TimesUs(m, from, end - 1) + (if end - 1 in m then [m[end - 1] * 1000] else [])
  }

  /** Statuses and times that report exactly the packets of m in [from, end). */
  ghost predicate Describes(symbols: seq<DeltaSize>, arrivals: seq<int>, m: map<int, int>, from: int, end: int) {
    && |symbols| == end - from
    && (forall i :: 0 <= i < |symbols| ==> (symbols[i] > 0 <==> from + i in m))
    && arrivals == TimesUs(m, from, end)
  }

  lemma {:induction false} NoneReceived(m: map<int, int>, from: int, next: int, end: int)
    requires from <= next <= end && forall k :: next <= k < end ==> k !in m
    ensures TimesUs(m, from, end) == TimesUs(m, from, next)
    decreases end - next
  {
    if next < end {
      NoneReceived(m, from, next, end - 1);
    }
  }

  lemma DescribesMore(symbols: seq<DeltaSize>, arrivals: seq<int>, m: map<int, int>,
                      from: int, next: int, s: int, size: DeltaSize)
    requires from <= next <= s && Describes(symbols, arrivals, m, from, next)
    requires (forall k :: next <= k < s ==> k !in m) && s in m && size > 0
    ensures Describes(symbols + Zeros(s - next) + [size], arrivals + [m[s] * 1000], m, from, s + 1)
  {
    NoneReceived(m, from, next, s);
    var more := symbols + Zeros(s - next) + [size];
    forall i | 0 <= i < |more| ensures more[i] > 0 <==> from + i in m {
      if next - from <= i < s - from {
        assert more[i] == Zeros(s - next)[i - (next - from)];
      }
    }
  }

  /** Message f reports exactly the packets of m in [from, end), and at least one;
      its base time is that of the first packet it reports as received. */
  ghost predicate Covers(f: TransportFeedback, m: map<int, int>, from: int, end: int)
    reads f.Repr()
  {
    && f.Valid() && f.Built() && f.includeTimestamps
    && f.baseSeqNo == ToUint16(from)
    && from < end && f.numSeqNo == end - from
    && Describes(f.Symbols(), f.arrivals, m, from, end)
    && f.arrivals != [] && f.baseTimeTicks == BaseTicks(f.arrivals[0])
  }

  ghost function NumbersOf(m: map<int, int>, from: int, end: int): seq<uint16>
    decreases end - from
  {
    if end <= from then []
    else NumbersOf(m, from, end - 1) + (if end - 1 in m then [ToUint16(end - 1)] else [])
  }

  ghost function Numbers(packets: seq<ReceivedPacket>): seq<uint16> {
    seq(|packets|, i requires 0 <= i < |packets| => packets[i].sequenceNumber)
  }

  lemma CountsOn(from: int, n: nat)
    ensures ToUint16(ToUint16(from) + n) == ToUint16(from + n)
  {
  }

  lemma {:induction false} NumbersMatch(symbols: seq<DeltaSize>, packets: seq<ReceivedPacket>, m: map<int, int>,
                                        from: int)
    requires Matches(symbols, packets, ToUint16(from))
    requires forall i :: 0 <= i < |symbols| ==> (symbols[i] > 0 <==> from + i in m)
    ensures Numbers(packets) == NumbersOf(m, from, from + |symbols|)
  {
    hide ToUint16;
    if symbols != [] {
      var n, last := |symbols| - 1, |packets| - 1;
      assert symbols[n] > 0 <==> from + n in m;
      CountsOn(from, n);
      if symbols[n] == 0 {
        NumbersMatch(symbols[..n], packets, m, from);
      } else {
        NumbersMatch(symbols[..n], packets[..last], m, from);
        assert Numbers(packets) == Numbers(packets[..last]) + [packets[last].sequenceNumber];
      }
    }
  }

  /** What a message that covers a piece tells the far end: the numbers of the
      packets received there, in order, each with a time rebuilt to within 125 us
      of its arrival. */
  lemma CoversTells(f: TransportFeedback, m: map<int, int>, from: int, end: int)
    requires Covers(f, m, from, end)
    ensures Numbers(f.receivedPackets) == NumbersOf(m, from, end)
    ensures |f.receivedPackets| == |TimesUs(m, from, end)|
    ensures forall i :: 0 <= i < |f.receivedPackets| ==>
              Near(TimeAt(f.baseTimeTicks, f.receivedPackets, i), TimesUs(m, from, end)[i])
  {
    NumbersMatch(f.Symbols(), f.receivedPackets, m, from);
  }

  /** A message whose running time is `last` may end at next: what is received next, if
      anything is in front of `end`, is too far away in time to be told in 16 bits. */
  ghost predicate MustEnd(last: int, m: map<int, int>, next: int, end: int) {
    forall s :: next <= s < end && s in m && (forall k :: next <= k < s ==> k !in m) ==>
      !(-0x8000 <= DeltaFull(m[s] * 1000, last) < 0x8000)
  }

  lemma MustEndAt(last: int, m: map<int, int>, next: int, s: int, end: int)
    requires next <= s <= end && forall k :: next <= k < s ==> k !in m
    requires s < end ==> s in m && !(-0x8000 <= DeltaFull(m[s] * 1000, last) < 0x8000)
    ensures MustEnd(last, m, next, end)
  {
    hide DeltaFull;
    forall t | next <= t < end && t in m && (forall k :: next <= k < t ==> k !in m)
      ensures !(-0x8000 <= DeltaFull(m[t] * 1000, last) < 0x8000)
    {
      assert t == s;
    }
  }

  /** The messages cut [cuts[0], last cut) into adjacent pieces without a hole or an
      overlap, each reporting exactly its piece, with consecutive numbers, and none
      ends before it must. */
  ghost predicate Tiles(sent: seq<TransportFeedback>, cuts: seq<int>, m: map<int, int>, count: uint8, end: int)
    reads set f, o | f in sent && o in f.Repr() :: o
  {
    && |cuts| == |sent| + 1
    && forall i :: 0 <= i < |sent| ==>
         && Covers(sent[i], m, cuts[i], cuts[i + 1])
         && MustEnd(sent[i].lastTimestampUs, m, cuts[i + 1], end)
         && sent[i].feedbackSeq == (count + i) % 0x100
  }

  lemma NothingSent(cuts: seq<int>, m: map<int, int>, count: uint8, end: int)
    requires |cuts| == 1
    ensures Tiles([], cuts, m, count, end)
  {
  }

  lemma OneMoreSent(sent: seq<TransportFeedback>, cuts: seq<int>, m: map<int, int>, count: uint8, end: int,
                    f: TransportFeedback, cut: int)
    requires Tiles(sent, cuts, m, count, end) && |cuts| == |sent| + 1
    requires Covers(f, m, cuts[|sent|], cut) && f.feedbackSeq == (count + |sent|) % 0x100
    requires MustEnd(f.lastTimestampUs, m, cut, end)
    ensures Tiles(sent + [f], cuts + [cut], m, count, end)
  {
    hide Covers, MustEnd;
  }

  /** Where the first packet of a message can be 2^15 ahead of the number in front
      of the message, the residues must tell which of the two is newer. */
  ghost predicate WidestGapSettled(begin: int, times: seq<int>) {
    PacketArrivalMap.OnlyLast(times) ==> ToUint16(begin + |times| - 1) > ToUint16(begin - 1)
  }

  lemma CountedFrom(from: int, next: int, s: int)
    requires from <= next <= s < next + SPAN
    ensures ToUint16(ToUint16(s) - (ToUint16(from) + (next - from))) == s - next
    ensures ToUint16(ToUint16(from) + (next - from) - 1) == ToUint16(next - 1)
  {
    var turns := from / SPAN;
    assert ToUint16(s) - (ToUint16(from) + (next - from)) == s - next + SPAN * (turns - s / SPAN);
    assert ToUint16(from) + (next - from) - 1 == next - 1 + SPAN * -turns;
    ModTurns(s - next, turns - s / SPAN);
    ModTurns(next - 1, -turns);
  }

  lemma ModTurns(x: int, turns: int)
    ensures (x + SPAN * turns) % SPAN == x % SPAN
  {
  }

  /** A packet from the window, reported in a message that starts in the window, is
      newer in circular order than everything the message reports so far. */
  lemma NextIsNewer(begin: int, times: seq<int>, next: int, s: int)
    requires |times| <= PacketArrivalMap.MAX_NUMBER_OF_PACKETS && WidestGapSettled(begin, times)
    requires begin <= next <= s < begin + |times|
    requires forall k :: next <= k < s ==> k !in PacketArrivalMap.Entries(begin, times)
    ensures SeqNumGT(ToUint16(s), ToUint16(next - 1))
  {
    CircularOrder(s, next - 1);
    if s - (next - 1) == HALF {
      forall i | 0 <= i < |times| - 1 ensures times[i] == 0 {
        assert PacketArrivalMap.Holds(begin, times, begin + i) <==> begin + i in PacketArrivalMap.Entries(begin, times);
      }
    }
  }

  lemma SettledAfterDrop(begin: int, times: seq<int>, n: nat)
    requires n <= |times| <= PacketArrivalMap.MAX_NUMBER_OF_PACKETS && WidestGapSettled(begin, times)
    ensures WidestGapSettled(begin + n, times[n..])
  {
    if n == 0 {
      assert times[n..] == times;
    }
  }

  /** The widest gap can only come from the packet that follows a window just
      emptied, and then the unwrapper has settled it. */
  lemma SettledAfterAdd(begin: int, times: seq<int>, newBegin: int, newTimes: seq<int>, last: int, s: int)
    requires WidestGapSettled(begin, times)
    requires PacketArrivalMap.OnlyLast(newTimes) && times != [] ==>
               newBegin == begin && PacketArrivalMap.OnlyLast(times)
    requires PacketArrivalMap.OnlyLast(newTimes) ==>
               && newBegin == begin && last < begin + |times| && Followable(last, s)
               && begin + |newTimes| == if s < begin + |times| then begin + |times| else s + 1
    ensures WidestGapSettled(newBegin, newTimes)
  {
  }

  ghost predicate InRange(m: map<int, int>) {
    forall k :: k in m ==> 0 < m[k] <= MAX_TIME_MS
  }

  lemma OldDroppedExactly(before: map<int, int>, after: map<int, int>, s: int, limit: int)
    requires InRange(before) && PacketArrivalMap.OldDropped(before, after, s, limit)
    ensures after == PacketArrivalMap.WithoutOld(before, s, limit) && InRange(after)
  {
  }

  /** The recorded arrivals after a packet: once everything was reported, what is old is
      forgotten; then the packet is recorded, if it is new and not too old, and
      pushes out what is 2^15 or more behind it. */
  ghost function AfterPacket(before: map<int, int>, s: int, t: int, allReported: bool, seen: bool, end: int)
    : map<int, int>
  {
    var kept := if allReported then PacketArrivalMap.WithoutOld(before, s, t - BACK_WINDOW_MILLIS) else before;
    if s in kept || (seen && end - s > HALF) then kept else PacketArrivalMap.Windowed(kept, s, t)
  }

  lemma RecordedOnce(before: map<int, int>, culled: map<int, int>, after: map<int, int>, s: int, t: int,
                     allReported: bool, seen: bool, end: int)
    requires culled == if allReported then PacketArrivalMap.WithoutOld(before, s, t - BACK_WINDOW_MILLIS) else before
    ensures s in culled && after == culled ==> after == AfterPacket(before, s, t, allReported, seen, end)
    ensures s !in culled && after == (if !seen || end - s <= HALF then PacketArrivalMap.Windowed(culled, s, t)
                                      else culled) ==>
              after == AfterPacket(before, s, t, allReported, seen, end)
  {
    hide PacketArrivalMap.WithoutOld, PacketArrivalMap.Windowed;
  }

  /** Packet by packet: the first arrival counts, nothing else is recorded, a packet is
      forgotten only if it is too old or old and reported, and then it is. */
  lemma AfterPacketRecords(before: map<int, int>, s: int, t: int, allReported: bool, seen: bool, end: int)
    ensures var after := AfterPacket(before, s, t, allReported, seen, end);
            && (s in before ==> s in after && after[s] == before[s])
            && (s !in before ==>
                  if t != 0 && (!seen || end - s <= HALF) then s in after && after[s] == t else s !in after)
            && (forall k :: k in after && k != s ==> k in before && after[k] == before[k])
            && (forall k :: k in before ==>
                  k in after || k <= s - HALF || (allReported && k < s && before[k] <= t - BACK_WINDOW_MILLIS))
            && (allReported ==>
                  forall k :: k in after && k < s ==>
                    exists j :: j <= k && j in before && before[j] > t - BACK_WINDOW_MILLIS)
  {
  }

  function NewStart(start: Option<int>, s: int, begin: int): int {
    var wanted := if start == None || s < start.value then s else start.value;
    if wanted < begin then begin else wanted
  }

  method NewFeedback(ssrc: uint32, base: uint16, timeUs: int, count: uint8) returns (f: TransportFeedback)
    requires timeUs >= 0
    ensures fresh(f.Repr()) && f.Valid() && f.Built() && f.includeTimestamps
    ensures f.baseSeqNo == base && f.mediaSsrc == ssrc && f.feedbackSeq == count
    ensures f.numSeqNo == |f.Symbols()| == 0 && f.arrivals == []
    ensures f.baseTimeTicks == BaseTicks(timeUs) && f.lastTimestampUs == BaseTicks(timeUs) * BASE_SCALE_FACTOR
  {
    hide TransportFeedback.Built, TransportFeedback.Consistent, BaseTicks;
    f := new TransportFeedback(true, false);
    f.SetMediaSsrc(ssrc);
    f.SetBase(base, timeUs);
    f.SetFeedbackSequenceNumber(count);
  }

  class ReceiveSideTWCC {
    var mediaSsrc: uint32
    var feedbackPacketCount: uint8
    const unwrapper: SeqNumUnwrapper
    /** The next sequence number to report. */
    var periodicWindowStartSeq: Option<int>
    const packetArrivalTimes: PacketArrivalMap.PacketArrivalTimeMap

    ghost function Repr(): set<object> {
      {this, unwrapper, packetArrivalTimes}
    }

    ghost function Arrivals(): map<int, int>
      reads Repr()
    {
      packetArrivalTimes.View()
    }

    ghost predicate Valid()
      reads Repr()
    {
      && unwrapper.Valid() && packetArrivalTimes.Valid()
      && InRange(Arrivals())
      && (periodicWindowStartSeq == None <==> unwrapper.lastValue == None)
      && (periodicWindowStartSeq == None <==> !packetArrivalTimes.hasSeenPacket)
      && (periodicWindowStartSeq.Some? ==>
            packetArrivalTimes.beginSequenceNumber <= periodicWindowStartSeq.value <= packetArrivalTimes.End())
    }

    /** What the reporting loop relies on to make progress. */
    ghost predicate Settled()
      requires Valid()
      reads Repr()
    {
      && PacketArrivalMap.LastReceived(packetArrivalTimes.arrivalTimes)
      && WidestGapSettled(packetArrivalTimes.beginSequenceNumber, packetArrivalTimes.arrivalTimes)
      && (periodicWindowStartSeq.Some? ==>
            && packetArrivalTimes.arrivalTimes != []
            && unwrapper.lastUnwrapped < packetArrivalTimes.End())
    }

    constructor ()
      ensures Valid() && Settled() && Arrivals() == map[] && periodicWindowStartSeq == None
      ensures fresh(Repr())
    {
      mediaSsrc, feedbackPacketCount, periodicWindowStartSeq := 0, 0, None;
      unwrapper := new SeqNumUnwrapper();
      packetArrivalTimes := new PacketArrivalMap.PacketArrivalTimeMap();
    }

    ghost predicate AllReported()
      reads Repr()
    {
      periodicWindowStartSeq.Some? && periodicWindowStartSeq.value >= packetArrivalTimes.End()
    }

    /** When everything has been reported, forgets what is old. */
    method MaybeCullOldPackets(sequenceNumber: int, arrivalTimeMs: int)
      requires packetArrivalTimes.Valid()
      modifies packetArrivalTimes
      ensures packetArrivalTimes.Valid() && packetArrivalTimes.hasSeenPacket == old(packetArrivalTimes.hasSeenPacket)
      ensures packetArrivalTimes.End() == old(packetArrivalTimes.End())
      ensures !old(AllReported()) ==> unchanged(packetArrivalTimes)
      ensures old(AllReported()) ==>
                PacketArrivalMap.Shrunk(old(Arrivals()), Arrivals(), sequenceNumber, arrivalTimeMs - BACK_WINDOW_MILLIS)
      ensures old(AllReported()) ==>
                PacketArrivalMap.OldDropped(old(Arrivals()), Arrivals(), sequenceNumber,
                                            arrivalTimeMs - BACK_WINDOW_MILLIS)
      ensures packetArrivalTimes.arrivalTimes == [] && old(packetArrivalTimes.arrivalTimes) != [] ==>
                packetArrivalTimes.beginSequenceNumber <= sequenceNumber
      ensures periodicWindowStartSeq.Some?
              && old(packetArrivalTimes.beginSequenceNumber) <= periodicWindowStartSeq.value ==>
                packetArrivalTimes.beginSequenceNumber <= periodicWindowStartSeq.value
      ensures old(PacketArrivalMap.LastReceived(packetArrivalTimes.arrivalTimes)) ==>
                PacketArrivalMap.LastReceived(packetArrivalTimes.arrivalTimes)
      ensures old(WidestGapSettled(packetArrivalTimes.beginSequenceNumber, packetArrivalTimes.arrivalTimes)) ==>
                WidestGapSettled(packetArrivalTimes.beginSequenceNumber, packetArrivalTimes.arrivalTimes)
    {
      hide PacketArrivalMap.Entries, PacketArrivalMap.LastReceived, PacketArrivalMap.OnlyLast;
      hide PacketArrivalMap.OldDropped, PacketArrivalMap.Shrunk, PacketArrivalMap.BegunAt;
      if periodicWindowStartSeq.Some? {
        if periodicWindowStartSeq.value >= packetArrivalTimes.End() {
          packetArrivalTimes.RemoveOldPackets(sequenceNumber, arrivalTimeMs - BACK_WINDOW_MILLIS);
          if old(WidestGapSettled(packetArrivalTimes.beginSequenceNumber, packetArrivalTimes.arrivalTimes)) {
            SettledAfterDrop(old(packetArrivalTimes.beginSequenceNumber), old(packetArrivalTimes.arrivalTimes),
                             packetArrivalTimes.beginSequenceNumber - old(packetArrivalTimes.beginSequenceNumber));
          }
        }
      }
    }

    /** Adds the packet if it is new, and moves the next report into the window. */
    method AddOnce(s: int, t: int)
      requires packetArrivalTimes.Valid() && 0 <= t <= MAX_TIME_MS && periodicWindowStartSeq.Some?
      requires InRange(Arrivals())
      modifies packetArrivalTimes, this`periodicWindowStartSeq
      ensures packetArrivalTimes.Valid() && packetArrivalTimes.hasSeenPacket
      ensures InRange(Arrivals())
      ensures s in old(Arrivals()) ==>
                && unchanged(packetArrivalTimes) && unchanged(this)
                && packetArrivalTimes.beginSequenceNumber <= s < packetArrivalTimes.End()
      ensures s !in old(Arrivals()) ==>
                Arrivals() == if !old(packetArrivalTimes.hasSeenPacket) || old(packetArrivalTimes.End()) - s <= HALF
                              then PacketArrivalMap.Windowed(old(Arrivals()), s, t) else old(Arrivals())
      ensures s !in old(Arrivals()) ==>
                periodicWindowStartSeq ==
                Some(if old(periodicWindowStartSeq).value < packetArrivalTimes.beginSequenceNumber
                     then packetArrivalTimes.beginSequenceNumber else old(periodicWindowStartSeq).value)
      ensures old(packetArrivalTimes.hasSeenPacket) ==>
                packetArrivalTimes.End() ==
                if s < old(packetArrivalTimes.End()) then old(packetArrivalTimes.End()) else s + 1
      ensures !old(packetArrivalTimes.hasSeenPacket) ==>
                packetArrivalTimes.End() == s + 1 && packetArrivalTimes.beginSequenceNumber == s
      ensures t != 0 && old(PacketArrivalMap.LastReceived(packetArrivalTimes.arrivalTimes))
              && (old(packetArrivalTimes.hasSeenPacket && packetArrivalTimes.arrivalTimes == []) ==>
                    old(packetArrivalTimes.beginSequenceNumber) <= s) ==>
                && PacketArrivalMap.LastReceived(packetArrivalTimes.arrivalTimes)
                && packetArrivalTimes.arrivalTimes != []
                && (PacketArrivalMap.OnlyLast(packetArrivalTimes.arrivalTimes) ==>
                      && old(packetArrivalTimes.hasSeenPacket)
                      && packetArrivalTimes.beginSequenceNumber == old(packetArrivalTimes.beginSequenceNumber)
                      && (old(PacketArrivalMap.OnlyLast(packetArrivalTimes.arrivalTimes))
                          || old(packetArrivalTimes.arrivalTimes) == []))
    {
      hide PacketArrivalMap.Entries, PacketArrivalMap.LastReceived, PacketArrivalMap.OnlyLast;
      if packetArrivalTimes.HasReceived(s) {
        return;
      }
      packetArrivalTimes.AddPacket(s, t);
      if periodicWindowStartSeq == None || periodicWindowStartSeq.value < packetArrivalTimes.beginSequenceNumber {
        periodicWindowStartSeq := Some(packetArrivalTimes.beginSequenceNumber);
      }
    }

    /** A first arrival is recorded unless it is too old, and later arrivals of the
        same packet change nothing; nothing is forgotten but what the packet
        pushes out of the window or, once everything was reported, what is old.
        The next report starts at this packet if it is older than what was
        reported, as far as the window still reaches. */
    method IncomingPacket(arrivalTimeMs: int, ssrc: uint32, transportSequenceNumber: uint16)
      requires Valid()
      modifies Repr()
      ensures Valid()
      ensures old(Settled()) && arrivalTimeMs != 0 ==> Settled()
      ensures !(0 <= arrivalTimeMs <= MAX_TIME_MS) ==>
                unchanged(this) && unchanged(unwrapper) && unchanged(packetArrivalTimes)
      ensures 0 <= arrivalTimeMs <= MAX_TIME_MS ==>
                && mediaSsrc == ssrc && unwrapper.lastUnwrapped % SPAN == transportSequenceNumber
                && Arrivals() == AfterPacket(old(Arrivals()), unwrapper.lastUnwrapped, arrivalTimeMs,
                                             old(AllReported()), old(packetArrivalTimes.hasSeenPacket),
                                             old(packetArrivalTimes.End()))
                && periodicWindowStartSeq == Some(NewStart(old(periodicWindowStartSeq), unwrapper.lastUnwrapped,
                                                           packetArrivalTimes.beginSequenceNumber))
      ensures packetArrivalTimes.End() >= old(packetArrivalTimes.End()) || !old(packetArrivalTimes.hasSeenPacket)
      ensures unchanged(`feedbackPacketCount)
    {
      hide PacketArrivalMap.Shrunk, PacketArrivalMap.Entries, PacketArrivalMap.LastReceived, PacketArrivalMap.OnlyLast;
      hide PacketArrivalMap.Windowed, PacketArrivalMap.WithoutOld, PacketArrivalMap.OldDropped;
      hide WidestGapSettled, InRange, AfterPacket;
      if arrivalTimeMs < 0 || arrivalTimeMs > MAX_TIME_MS {
        return;
      }
      mediaSsrc := ssrc;
      var s := unwrapper.Unwrap(transportSequenceNumber);
      MaybeCullOldPackets(s, arrivalTimeMs);
      ghost var culled, begin, times :=
        Arrivals(), packetArrivalTimes.beginSequenceNumber, packetArrivalTimes.arrivalTimes;
      if old(AllReported()) {
        OldDroppedExactly(old(Arrivals()), culled, s, arrivalTimeMs - BACK_WINDOW_MILLIS);
      }
      if periodicWindowStartSeq == None || s < periodicWindowStartSeq.value {
        periodicWindowStartSeq := Some(s);
      }
      AddOnce(s, arrivalTimeMs);
      RecordedOnce(old(Arrivals()), culled, Arrivals(), s, arrivalTimeMs, old(AllReported()),
                   old(packetArrivalTimes.hasSeenPacket), old(packetArrivalTimes.End()));
      if old(Settled()) && arrivalTimeMs != 0 {
        SettledAfterAdd(begin, times, packetArrivalTimes.beginSequenceNumber, packetArrivalTimes.arrivalTimes,
                        old(unwrapper.lastUnwrapped), s);
      }
    }

    /** The message reports the packets of [from, next) so far. */
    ghost predicate Reporting(f: TransportFeedback, from: int, next: int)
      reads f.Repr(), Repr()
    {
      && f.Valid() && f.Built() && f.includeTimestamps
      && f.baseSeqNo == ToUint16(from)
      && f.numSeqNo == |f.Symbols()| == next - from
      && f.mediaSsrc == mediaSsrc
      && Describes(f.Symbols(), f.arrivals, Arrivals(), from, next)
      && (f.arrivals != [] ==> f.baseTimeTicks == BaseTicks(f.arrivals[0]))
    }

    method StartMessage(from: int, arrivalTimeMs: int) returns (f: TransportFeedback)
      requires Valid() && arrivalTimeMs >= 0
      modifies this`feedbackPacketCount
      ensures Valid() && (old(Settled()) ==> Settled())
      ensures fresh(f.Repr()) && Reporting(f, from, from) && f.arrivals == []
      ensures f.baseTimeTicks == BaseTicks(arrivalTimeMs * 1000)
      ensures f.lastTimestampUs == BaseTicks(arrivalTimeMs * 1000) * BASE_SCALE_FACTOR
      ensures f.feedbackSeq == old(feedbackPacketCount) && feedbackPacketCount == (old(feedbackPacketCount) + 1) % 0x100
    {
      hide TransportFeedback.Built, TransportFeedback.Consistent, TransportFeedback.Symbols, BaseTicks, ToUint16;
      hide PacketArrivalMap.Entries, InRange, WidestGapSettled, PacketArrivalMap.LastReceived;
      f := NewFeedback(mediaSsrc, ToUint16(from), arrivalTimeMs * 1000, feedbackPacketCount);
      feedbackPacketCount := (feedbackPacketCount + 1) % 0x100;
    }

    /** Reports packet s, the next one received. Only a delta that does not fit can
        keep it out, and never the first packet of a message. */
    method Report(f: TransportFeedback, from: int, next: int, s: int) returns (ok: bool)
      requires Valid() && Settled() && Reporting(f, from, next) && f.Repr() !! Repr()
      requires packetArrivalTimes.beginSequenceNumber <= from <= next <= s < packetArrivalTimes.End()
      requires s in Arrivals() && forall k :: next <= k < s ==> k !in Arrivals()
      requires f.arrivals == [] ==> f.baseTimeTicks == BaseTicks(Arrivals()[s] * 1000)
      modifies f.Repr()
      ensures Valid() && Settled() && Reporting(f, from, if ok then s + 1 else next)
      ensures ok || old(f.arrivals) != [] ==> f.arrivals != []
      ensures ok == (-0x8000 <= DeltaFull(Arrivals()[s] * 1000, old(f.lastTimestampUs)) < 0x8000)
      ensures !ok ==> f.lastTimestampUs == old(f.lastTimestampUs)
      ensures f.feedbackSeq == old(f.feedbackSeq)
    {
      hide TransportFeedback.Built, TransportFeedback.Consistent, TransportFeedback.Symbols, ToUint16, SeqNumGT;
      hide DeltaFull, Describes, PacketArrivalMap.Entries;
      var arrivalTimeMs := packetArrivalTimes.Get(s);
      NextIsNewer(packetArrivalTimes.beginSequenceNumber, packetArrivalTimes.arrivalTimes, next, s);
      CountedFrom(from, next, s);
      DescribesMore(f.Symbols(), f.arrivals, Arrivals(), from, next, s, SizeOfDelta(f.DeltaFor(arrivalTimeMs * 1000)));
      ok := f.AddReceivedPacket(ToUint16(s), arrivalTimeMs * 1000);
    }

    /** Builds one message from the packets numbered from `from` on, and moves the
        window start behind the last one it could take. The message always takes
        the first packet received; there is none only if no packet was. It ends in
        front of `end` only if the next packet received does not fit. */
    method MaybeBuildFeedbackPacket(from: int, end: int) returns (feedback: Option<TransportFeedback>)
      requires Valid() && Settled()
      requires packetArrivalTimes.beginSequenceNumber <= from < end <= packetArrivalTimes.End()
      modifies this`feedbackPacketCount, this`periodicWindowStartSeq
      ensures Valid() && Settled()
      ensures feedback.None? <==> forall k :: from <= k < end ==> k !in Arrivals()
      ensures feedback.None? ==>
                periodicWindowStartSeq == Some(from) && feedbackPacketCount == old(feedbackPacketCount)
      ensures feedback.Some? ==>
                && fresh(feedback.value.Repr())
                && periodicWindowStartSeq.Some? && from < periodicWindowStartSeq.value <= end
                && Covers(feedback.value, Arrivals(), from, periodicWindowStartSeq.value)
                && MustEnd(feedback.value.lastTimestampUs, Arrivals(), periodicWindowStartSeq.value, end)
                && feedback.value.feedbackSeq == old(feedbackPacketCount) && feedback.value.mediaSsrc == mediaSsrc
                && feedbackPacketCount == (old(feedbackPacketCount) + 1) % 0x100
    {
      hide TransportFeedback.Built, TransportFeedback.Consistent, TransportFeedback.Symbols, Describes, BaseTicks;
      hide PacketArrivalMap.Entries, WidestGapSettled, PacketArrivalMap.LastReceived, DeltaFull, ToUint16, MustEnd;
      var s := packetArrivalTimes.Clamp(from);
      var endSeq := packetArrivalTimes.Clamp(end);
      feedback := None;
      var next := from;
      while s < endSeq
        invariant from <= next <= s <= endSeq == end
        invariant Valid() && Settled()
        invariant forall k :: next <= k < s ==> k !in Arrivals()
        invariant next > from ==> next - 1 in Arrivals()
        invariant feedback.None? ==> next == from && feedbackPacketCount == old(feedbackPacketCount)
        invariant feedback.Some? ==>
                    && fresh(feedback.value.Repr()) && from < next && feedback.value.arrivals != []
                    && Reporting(feedback.value, from, next)
                    && feedback.value.feedbackSeq == old(feedbackPacketCount)
                    && feedbackPacketCount == (old(feedbackPacketCount) + 1) % 0x100
      {
        var arrivalTimeMs := packetArrivalTimes.Get(s);
        if arrivalTimeMs != 0 {
          if feedback.None? {
            var started := StartMessage(from, arrivalTimeMs);
            feedback := Some(started);
            FreshDeltaFits(arrivalTimeMs * 1000);
          }
          var added := Report(feedback.value, from, next, s);
          if !added {
            MustEndAt(feedback.value.lastTimestampUs, Arrivals(), next, s, end);
            break;
          }
          next := s + 1;
        }
        s := s + 1;
      }
      ghost var m := Arrivals();
      if feedback.Some? && s == end {
        MustEndAt(feedback.value.lastTimestampUs, m, next, s, end);
      }
      periodicWindowStartSeq := Some(next);
      assert Arrivals() == m;
    }

    lemma LastIsReceived()
      requires Valid() && Settled() && periodicWindowStartSeq.Some?
      ensures packetArrivalTimes.beginSequenceNumber <= periodicWindowStartSeq.value <= packetArrivalTimes.End()
      ensures packetArrivalTimes.End() - 1 in Arrivals()
    {
      assert packetArrivalTimes.Get(packetArrivalTimes.End() - 1) != 0;
    }

    /** The next message in front of the window's end; the pieces reported so far and
        its own fit together. */
    method BuildNext(ghost sent: seq<TransportFeedback>, ghost cuts: seq<int>, ghost count: uint8)
      returns (feedback: Option<TransportFeedback>)
      requires Valid() && Settled() && periodicWindowStartSeq.Some?
      requires periodicWindowStartSeq.value < packetArrivalTimes.End()
      requires Tiles(sent, cuts, Arrivals(), count, packetArrivalTimes.End())
      requires forall f :: f in sent ==> this !in f.Repr()
      requires |cuts| == |sent| + 1 && cuts[|sent|] == periodicWindowStartSeq.value
      requires feedbackPacketCount == (count + |sent|) % 0x100
      modifies this`feedbackPacketCount, this`periodicWindowStartSeq
      ensures Valid() && Settled() && periodicWindowStartSeq.Some? && feedback.Some?
      ensures old(periodicWindowStartSeq.value) < periodicWindowStartSeq.value <= packetArrivalTimes.End()
      ensures fresh(feedback.value.Repr()) && feedback.value.mediaSsrc == mediaSsrc
      ensures Tiles(sent + [feedback.value], cuts + [periodicWindowStartSeq.value], Arrivals(), count,
                    packetArrivalTimes.End())
      ensures feedbackPacketCount == (count + |sent| + 1) % 0x100
    {
      hide Covers, Tiles, MustEnd, Valid, Settled, PacketArrivalMap.Entries;
      LastIsReceived();
      ghost var m := Arrivals();
      feedback := MaybeBuildFeedbackPacket(periodicWindowStartSeq.value, packetArrivalTimes.End());
      LastIsReceived();
      OneMoreSent(sent, cuts, m, count, packetArrivalTimes.End(), feedback.value, periodicWindowStartSeq.value);
    }

    /** Reports everything that has not been reported yet: the messages tile the
        numbers from the old window start to the end of the map, and that is where
        the next report starts. */
    method SendPeriodicFeedbacks() returns (sent: seq<TransportFeedback>, ghost cuts: seq<int>)
      requires Valid() && Settled()
      modifies this`feedbackPacketCount, this`periodicWindowStartSeq
      ensures Valid() && Settled()
      ensures old(periodicWindowStartSeq) == None ==> sent == [] && periodicWindowStartSeq == None
      ensures old(periodicWindowStartSeq).Some? ==>
                && periodicWindowStartSeq == Some(packetArrivalTimes.End()) && |cuts| == |sent| + 1
                && Tiles(sent, cuts, Arrivals(), old(feedbackPacketCount), packetArrivalTimes.End())
                && cuts[0] == old(periodicWindowStartSeq).value && cuts[|sent|] == packetArrivalTimes.End()
      ensures forall f :: f in sent ==> fresh(f.Repr()) && f.mediaSsrc == mediaSsrc
      ensures feedbackPacketCount == (old(feedbackPacketCount) + |sent|) % 0x100
    {
      hide Covers, Tiles, MustEnd, Valid, Settled, PacketArrivalMap.Entries;
      sent := [];
      cuts := [];
      if periodicWindowStartSeq == None {
        return;
      }
      var endSeq := packetArrivalTimes.End();
      cuts := [periodicWindowStartSeq.value];
      NothingSent(cuts, Arrivals(), feedbackPacketCount, endSeq);
      LastIsReceived();
      while periodicWindowStartSeq.value < endSeq
        invariant Valid() && Settled() && periodicWindowStartSeq.Some?
        invariant periodicWindowStartSeq.value <= endSeq == packetArrivalTimes.End()
        invariant forall f :: f in sent ==> fresh(f.Repr()) && f.mediaSsrc == mediaSsrc
        invariant Tiles(sent, cuts, Arrivals(), old(feedbackPacketCount), packetArrivalTimes.End())
        invariant |cuts| == |sent| + 1
        invariant cuts[0] == old(periodicWindowStartSeq).value && cuts[|sent|] == periodicWindowStartSeq.value
        invariant feedbackPacketCount == (old(feedbackPacketCount) + |sent|) % 0x100
        decreases endSeq - periodicWindowStartSeq.value
      {
        var feedback := BuildNext(sent, cuts, old(feedbackPacketCount));
        if feedback.None? {
          break;
        }
        sent := sent + [feedback.value];
        cuts := cuts + [periodicWindowStartSeq.value];
      }
    }
  }
}
