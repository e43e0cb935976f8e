/**
 Packets kept for retransmission: a queue indexed by circular distance that stands
 for a map from sequence number to packet
 (src/transport/send_packet_recorder.cpp).
 */
module SendPacketRecording {
  import opened Wrappers
  import opened SequenceNumber
  import opened ByteBuffer

  const MAX_CAPACITY := 9600
  const MIN_PACKET_DURATION_MS := 1000
  const MIN_PACKET_DURATION_RTT := 3
  const PACKET_CULLING_DELAY_FACTOR := 3

  datatype RtpPacket = RtpPacket(sequenceNumber: uint16, data: seq<uint8>)

  datatype RecordedPacket = RecordedPacket(sendTimeMs: int, packet: Option<RtpPacket>, timesRetransmitted: nat)

  const VACANT := RecordedPacket(0, None, 0)

  // ---------------------------------------------------------------------
  // A queue as a map.

  predicate Populated(q: seq<RecordedPacket>, i: int) {
    0 <= i < |q| && q[i].packet.Some?
  }

  /** Slot i holds the packet numbered first + i or nothing. */
  ghost predicate Numbered(q: seq<RecordedPacket>, first: int) {
    && |q| < SPAN
    && forall i :: Populated(q, i) ==> q[i].packet.value.sequenceNumber == ToUint16(first + i)
  }

  /** The slot in which number s would be. */
  function Slot(s: uint16, first: int): uint16 {
    ToUint16(s - first)
  }

  /** The map the queue stands for. */
  ghost function View(q: seq<RecordedPacket>, first: int): map<uint16, RecordedPacket> {
    map s: uint16 | 0 <= s < SPAN && Populated(q, Slot(s, first)) :: q[Slot(s, first)]
  }

  /** The shape the header file promises. */
  ghost predicate WellShaped(q: seq<RecordedPacket>) {
    q != [] ==> && Populated(q, 0) && Populated(q, |q| - 1)
                && Numbered(q, q[0].packet.value.sequenceNumber)
  }

  function First(q: seq<RecordedPacket>): uint16 {
    if Populated(q, 0) then q[0].packet.value.sequenceNumber else 0
  }

  lemma SlotOf(first: int, i: nat)
    requires i < SPAN
    ensures Slot(ToUint16(first + i), first) == i
  {
  }

  lemma NumberOf(first: int, s: uint16)
    ensures ToUint16(first + Slot(s, first)) == s
  {
  }

  /** Every packet in a slot is in the map under its own number, and only those. */
  lemma ViewHoldsSlots(q: seq<RecordedPacket>, first: int)
    requires Numbered(q, first)
    ensures forall i :: Populated(q, i) ==>
              var s := q[i].packet.value.sequenceNumber;
              s in View(q, first) && View(q, first)[s] == q[i]
    ensures forall s :: s in View(q, first) ==>
              View(q, first)[s].packet.Some? && View(q, first)[s].packet.value.sequenceNumber == s
  {
    forall i | Populated(q, i)
      ensures var s := q[i].packet.value.sequenceNumber;
              s in View(q, first) && View(q, first)[s] == q[i]
    {
      SlotOf(first, i);
    }
    forall s | s in View(q, first) ensures View(q, first)[s].packet.value.sequenceNumber == s {
      var i := Slot(s, first);
      assert Populated(q, i);
      NumberOf(first, s);
    }
  }

  lemma GrownInFront(q: seq<RecordedPacket>, first: int)
    requires Numbered(q, first) && |q| + 1 < SPAN
    ensures Numbered([VACANT] + q, first - 1) && View([VACANT] + q, first - 1) == View(q, first)
  {
    var longer := [VACANT] + q;
    forall i | Populated(longer, i)
      ensures longer[i].packet.value.sequenceNumber == ToUint16(first - 1 + i)
    {
      assert Populated(q, i - 1);
    }
    forall s: uint16
      ensures Populated(longer, Slot(s, first - 1)) <==> Populated(q, Slot(s, first))
      ensures Populated(q, Slot(s, first)) ==> longer[Slot(s, first - 1)] == q[Slot(s, first)]
    {
      assert Slot(s, first - 1) == (if Slot(s, first) == SPAN - 1 then 0 else Slot(s, first) + 1);
    }
  }

  lemma GrownBehind(q: seq<RecordedPacket>, first: int)
    requires Numbered(q, first) && |q| + 1 < SPAN
    ensures Numbered(q + [VACANT], first) && View(q + [VACANT], first) == View(q, first)
  {
    var longer := q + [VACANT];
    assert forall i :: Populated(longer, i) <==> Populated(q, i);
  }

  lemma PutInSlot(q: seq<RecordedPacket>, first: int, i: nat, r: RecordedPacket)
    requires Numbered(q, first) && i < |q|
    requires r.packet.Some? && r.packet.value.sequenceNumber == ToUint16(first + i)
    ensures Numbered(q[i := r], first)
    ensures View(q[i := r], first) == View(q, first)[ToUint16(first + i) := r]
  {
    SlotOf(first, i);
    forall s: uint16 ensures Slot(s, first) == i ==> s == ToUint16(first + i) {
      NumberOf(first, s);
    }
  }

  lemma Vacated(q: seq<RecordedPacket>, first: int, i: nat, r: RecordedPacket)
    requires Numbered(q, first) && i < |q| && r.packet.None?
    ensures Numbered(q[i := r], first)
    ensures View(q[i := r], first) == View(q, first) - {ToUint16(first + i)}
  {
    SlotOf(first, i);
    forall s: uint16 ensures Slot(s, first) == i ==> s == ToUint16(first + i) {
      NumberOf(first, s);
    }
  }

  /** Popping slots from the front forgets exactly the packets in them. */
  lemma Popped(q: seq<RecordedPacket>, first: int, n: nat)
    requires Numbered(q, first) && n <= |q|
    ensures Numbered(q[n..], first + n)
    ensures View(q[n..], first + n) ==
            map s | s in View(q, first) && Slot(s, first) >= n :: View(q, first)[s]
  {
    var rest := q[n..];
    forall i | Populated(rest, i) ensures rest[i].packet.value.sequenceNumber == ToUint16(first + n + i) {
      assert Populated(q, n + i);
    }
    forall s: uint16
      ensures Populated(rest, Slot(s, first + n)) <==>
              Populated(q, Slot(s, first)) && Slot(s, first) >= n
      ensures Slot(s, first) >= n ==> Slot(s, first + n) == Slot(s, first) - n
    {
      PoppedIndex(s - first, n);
    }
  }

  lemma PoppedIndex(d: int, n: nat)
    requires n < SPAN
    ensures ToUint16(d - n) == if ToUint16(d) >= n then ToUint16(d) - n else ToUint16(d) - n + SPAN
  {
  }

  // ---------------------------------------------------------------------
  // Where a number is looked for.

  function GetPacketIndex(q: seq<RecordedPacket>, s: uint16): int
    requires q == [] || Populated(q, 0)
  {
    if q == [] then 0
    else
      var first := q[0].packet.value.sequenceNumber;
      var index := s - first;
      if index == 0 then index
      else if SeqNumGT(s, first) then (if s < first then index + SPAN else index)
      else if s > first then index - SPAN else index
  }

  /** The index is the signed circular distance from the first number; at distance
      2^15 the larger number is ahead. */
  lemma IndexIsDistance(q: seq<RecordedPacket>, s: uint16)
    requires Populated(q, 0)
    ensures var first, i := First(q), GetPacketIndex(q, s);
            && -HALF <= i <= HALF && ToUint16(first + i) == s
            && (i == HALF ==> s > first) && (i == -HALF ==> s < first)
            && i == (if Slot(s, first) < HALF || (Slot(s, first) == HALF && s > first) then Slot(s, first)
                     else Slot(s, first) - SPAN)
  {
    var first := First(q);
    UnwrapStepIsNearest(s, first);
    assert Slot(s, first) == if s >= first then s - first else s - first + SPAN;
    assert GetPacketIndex(q, s) == UnwrapStep(s, first);
  }

  /** A number that the lookup can reach. */
  predicate Reachable(q: seq<RecordedPacket>, s: uint16) {
    Slot(s, First(q)) < HALF || (Slot(s, First(q)) == HALF && s > First(q))
  }

  /** A packet that was retransmitted less than a round-trip time ago. */
  predicate Suppressed(r: RecordedPacket, now: int, rtt: int) {
    r.sendTimeMs != 0 && r.timesRetransmitted > 0 && now < r.sendTimeMs + rtt
  }

  function Retransmitted(r: RecordedPacket, now: int): RecordedPacket {
    r.(timesRetransmitted := r.timesRetransmitted + (if r.sendTimeMs != 0 then 1 else 0), sendTimeMs := now)
  }

  function Duration(rtt: int): int {
    if MIN_PACKET_DURATION_RTT * rtt > MIN_PACKET_DURATION_MS then MIN_PACKET_DURATION_RTT * rtt
    else MIN_PACKET_DURATION_MS
  }

  /** Nothing, or a front packet that may stay. */
  ghost predicate Kept(q: seq<RecordedPacket>, now: int, rtt: int) {
    q != [] ==>
      && Populated(q, 0) && |q| < MAX_CAPACITY
      && q[0].sendTimeMs + PACKET_CULLING_DELAY_FACTOR * Duration(rtt) > now
  }

  /** In milliseconds: a front packet may stay for three seconds, or for nine round-trip
      times if that is longer. */
  lemma KeptForThreeSeconds(q: seq<RecordedPacket>, now: int, rtt: int)
    ensures Kept(q, now, rtt) <==>
            q == [] || (Populated(q, 0) && |q| < 9600
                        && (now - q[0].sendTimeMs < 3000 || now - q[0].sendTimeMs < 9 * rtt))
  {
  }

  /** No packet sent less than three seconds or nine round-trip times ago is culled
      from a queue below the capacity. */
  ghost predicate CulledOnlyOld(q: seq<RecordedPacket>, culled: nat, now: int, rtt: int) {
    forall i :: 0 <= i < culled && Populated(q, i) ==>
      |q| - i >= 9600 || (now - q[i].sendTimeMs >= 3000 && now - q[i].sendTimeMs >= 9 * rtt)
  }

  lemma CulledIsOld(q: seq<RecordedPacket>, culled: nat, now: int, rtt: int)
    requires culled <= |q| && forall n :: 0 <= n < culled ==> !Kept(q[n..], now, rtt)
    ensures CulledOnlyOld(q, culled, now, rtt)
  {
    hide Kept;
    forall i | 0 <= i < culled && Populated(q, i)
      ensures |q| - i >= 9600 || (now - q[i].sendTimeMs >= 3000 && now - q[i].sendTimeMs >= 9 * rtt)
    {
      assert Populated(q[i..], 0) && q[i..][0] == q[i];
      KeptForThreeSeconds(q[i..], now, rtt);
    }
  }

  /** After a retransmission the next one has to wait for the round-trip time. Times of
      0 count as never sent. */
  lemma RetransmissionWaits(r: RecordedPacket, first: int, second: int, rtt: int)
    ensures Suppressed(Retransmitted(r, first), second, rtt) <==>
            first != 0 && (r.timesRetransmitted > 0 || r.sendTimeMs != 0) && second - first < rtt
  {
  }

  lemma PoppedShape(q: seq<RecordedPacket>, n: nat)
    requires WellShaped(q) && n <= |q|
    requires n < |q| ==> Populated(q, n)
    ensures WellShaped(q[n..])
    ensures n < |q| ==> First(q[n..]) == ToUint16(First(q) + n)
    ensures View(q[n..], First(q[n..])) ==
            map s | s in View(q, First(q)) && Slot(s, First(q)) >= n :: View(q, First(q))[s]
  {
    if q != [] {
      var first := First(q);
      Popped(q, first, n);
      if n < |q| {
        Renumbered(q[n..], first + n);
      }
    }
  }

  /** The first number matters only modulo 2^16. */
  lemma Renumbered(q: seq<RecordedPacket>, first: int)
    requires Numbered(q, first)
    ensures Numbered(q, ToUint16(first)) && View(q, ToUint16(first)) == View(q, first)
  {
    forall s: uint16 ensures Slot(s, ToUint16(first)) == Slot(s, first) {
    }
    forall i | Populated(q, i) ensures ToUint16(ToUint16(first) + i) == ToUint16(first + i) {
    }
  }

  lemma NothingRecorded(first: int)
    ensures Numbered([], first) && View([], first) == map[]
  {
  }

  /** A queue, not always well shaped, into which s goes at the given index. */
  ghost predicate Ready(q: seq<RecordedPacket>, first: int, index: int, s: uint16) {
    && Numbered(q, first)
    && -HALF <= index <= HALF && ToUint16(first + index) == s
    && (q == [] ==> index == 0)
    && (index > 0 ==> Populated(q, 0))
    && (q != [] ==> Populated(q, |q| - 1) || index == |q| - 1)
  }

  /** The size and the first number of a queue of n slots from `first` on, once it has
      been made to reach the index. */
  function SizeReaching(n: nat, index: int): (r: nat)
    ensures r >= n
  {
    if index < 0 then n - index else if n <= index then index + 1 else n
  }

  function FirstReaching(first: int, index: int): uint16 {
    ToUint16(if index < 0 then first + index else first)
  }

  lemma FrontNumber(q: seq<RecordedPacket>, first: int)
    requires Numbered(q, first) && Populated(q, 0)
    ensures First(q) == ToUint16(first)
  {
    assert ToUint16(first + 0) == ToUint16(first);
  }

  lemma FrontRemoved(q: seq<RecordedPacket>, popped: nat)
    requires WellShaped(q) && 1 <= popped <= |q|
    requires forall i :: 1 <= i < popped ==> !Populated(q, i)
    requires popped < |q| ==> Populated(q, popped)
    ensures View(q[popped..], First(q[popped..])) == View(q, First(q)) - {First(q)}
  {
    PoppedShape(q, popped);
    var first := First(q);
    assert Slot(first, first) == 0;
    forall s: uint16 | s in View(q, first) && Slot(s, first) < popped ensures s == first {
      assert Populated(q, Slot(s, first));
      NumberOf(first, s);
    }
  }

  /** What a queue comes to when the packet numbered s is taken out of it: s goes back
      in at the index, and size and first number are then as before. */
  ghost predicate TakenOut(before: seq<RecordedPacket>, q: seq<RecordedPacket>, first: int, index: int, s: uint16) {
    && |q| < MAX_CAPACITY && Ready(q, first, index, s)
    && View(q, first) == View(before, First(before)) - {s}
    && SizeReaching(|q|, index) == |before| && FirstReaching(first, index) == First(before)
  }

  lemma IndexOfSlot(q: seq<RecordedPacket>, at: nat)
    requires Populated(q, 0) && at < HALF
    ensures GetPacketIndex(q, ToUint16(First(q) + at)) == at
  {
    IndexIsDistance(q, ToUint16(First(q) + at));
    SlotOf(First(q), at);
  }

  lemma TakenFromMiddle(before: seq<RecordedPacket>, at: nat, s: uint16)
    requires WellShaped(before) && 0 < at < |before| < MAX_CAPACITY && ToUint16(First(before) + at) == s
    ensures var q := before[at := before[at].(packet := None)];
            && Populated(q, 0) && First(q) == First(before) && GetPacketIndex(q, s) == at
            && TakenOut(before, q, First(q), at, s)
  {
    hide Numbered, View;
    Vacated(before, First(before), at, before[at].(packet := None));
    IndexOfSlot(before[at := before[at].(packet := None)], at);
  }

  lemma TakenFromFront(before: seq<RecordedPacket>, popped: nat)
    requires WellShaped(before) && 1 <= popped <= |before| < MAX_CAPACITY
    requires forall i :: 1 <= i < popped ==> !Populated(before, i)
    requires popped < |before| ==> Populated(before, popped)
    ensures var q, s := before[popped..], First(before);
            TakenOut(before, q, if q == [] then s else First(q), GetPacketIndex(q, s), s)
  {
    hide Numbered, View;
    var q, s := before[popped..], First(before);
    FrontRemoved(before, popped);
    PoppedShape(before, popped);
    if q == [] {
      assert Populated(before, |before| - 1);
      NothingRecorded(s);
      NothingRecorded(First([]));
    } else {
      BehindFront(q, s, popped);
    }
  }

  lemma BehindFront(q: seq<RecordedPacket>, s: uint16, n: nat)
    requires Populated(q, 0) && 0 < n < HALF && First(q) == ToUint16(s + n)
    ensures GetPacketIndex(q, s) + n == 0 && ToUint16(First(q) - n) == s
  {
    IndexIsDistance(q, s);
  }

  /** A recorded number stands in the slot of its index. */
  lemma Found(q: seq<RecordedPacket>, s: uint16)
    requires WellShaped(q) && Populated(q, GetPacketIndex(q, s))
    ensures ToUint16(First(q) + GetPacketIndex(q, s)) == s
    ensures SizeReaching(|q|, GetPacketIndex(q, s)) == |q| && (GetPacketIndex(q, s) <= 0 ==> s == First(q))
  {
    hide Numbered;
    IndexIsDistance(q, s);
  }

  /** A number that is not recorded goes in at its index. */
  lemma NewNumber(q: seq<RecordedPacket>, s: uint16)
    requires WellShaped(q)
    requires !Populated(q, GetPacketIndex(q, s))
    ensures var first, index := if q == [] then s else First(q), GetPacketIndex(q, s);
            && Ready(q, first, index, s) && View(q, first) == View(q, First(q))
            && FirstReaching(first, index) == if index <= 0 then s else First(q)
  {
    hide Numbered, View;
    if q == [] {
      NothingRecorded(s);
      NothingRecorded(First([]));
    } else {
      IndexIsDistance(q, s);
    }
  }

  class SendPacketRecorder {
    var packetQueue: seq<RecordedPacket>
    var rttMs: int

    ghost predicate Valid()
      reads this
    {
      WellShaped(packetQueue)
    }

    ghost function Recorded(): map<uint16, RecordedPacket>
      reads this
    {
      View(packetQueue, First(packetQueue))
    }

    constructor ()
      ensures Valid() && packetQueue == [] && Recorded() == map[] && rttMs == -1
    {
      packetQueue, rttMs := [], -1;
    }

    /** Empties one slot; at the front, pops it and the empty slots behind it. */
    method RemovePacket(packetIndex: nat) returns (ghost popped: nat)
      requires Valid() && packetIndex < |packetQueue|
      modifies this`packetQueue
      ensures packetIndex > 0 ==>
                packetQueue == old(packetQueue)[packetIndex := old(packetQueue)[packetIndex].(packet := None)]
      ensures packetIndex == 0 ==>
                && 1 <= popped <= |old(packetQueue)| && packetQueue == old(packetQueue)[popped..] && Valid()
                && (packetQueue != [] ==> Populated(packetQueue, 0))
                && forall i :: 1 <= i < popped ==> !Populated(old(packetQueue), i)
    {
      hide Numbered;
      ghost var before := packetQueue;
      popped := 0;
      packetQueue := packetQueue[packetIndex := packetQueue[packetIndex].(packet := None)];
      if packetIndex == 0 {
        while packetQueue != [] && packetQueue[0].packet.None?
          invariant popped <= |before|
          invariant popped > 0 ==> packetQueue == before[popped..]
          invariant popped == 0 ==> packetQueue == before[0 := before[0].(packet := None)]
          invariant forall i :: 1 <= i < popped ==> !Populated(before, i)
          decreases |packetQueue|
        {
          packetQueue := packetQueue[1..];
          popped := popped + 1;
        }
        PoppedShape(before, popped);
      }
    }

    /** Removes the shortest prefix after which the front packet may stay: room below
        the capacity, and sent less than three durations ago. */
    method CullOldPackets(now: int) returns (ghost culled: nat)
      requires Valid()
      modifies this`packetQueue
      ensures Valid() && Kept(packetQueue, now, rttMs)
      ensures culled <= |old(packetQueue)| && packetQueue == old(packetQueue)[culled..]
      ensures forall n :: 0 <= n < culled ==> !Kept(old(packetQueue)[n..], now, rttMs)
      ensures CulledOnlyOld(old(packetQueue), culled, now, rttMs)
      ensures culled < |old(packetQueue)| ==> First(packetQueue) == ToUint16(First(old(packetQueue)) + culled)
      ensures Recorded() == map s | s in old(Recorded()) && Slot(s, First(old(packetQueue))) >= culled ::
                              old(Recorded())[s]
    {
      hide Numbered, View, CulledOnlyOld;
      ghost var before := packetQueue;
      var packetDurationMs := Duration(rttMs);
      culled := 0;
      while packetQueue != []
        invariant Valid() && culled <= |before| && packetQueue == before[culled..]
        invariant forall n :: 0 <= n < culled ==> !Kept(before[n..], now, rttMs)
        decreases |packetQueue|
      {
        if |packetQueue| < MAX_CAPACITY {
          if packetQueue[0].sendTimeMs + packetDurationMs > now {
            break;
          }
          if packetQueue[0].sendTimeMs + packetDurationMs * PACKET_CULLING_DELAY_FACTOR > now {
            break;
          }
        }
        ghost var popped := RemovePacket(0);
        forall n | culled <= n < culled + popped ensures !Kept(before[n..], now, rttMs) {
          assert Populated(before[n..], 0) <==> Populated(before[culled..], n - culled);
        }
        assert before[culled..][popped..] == before[culled + popped..];
        culled := culled + popped;
      }
      PoppedShape(before, culled);
      CulledIsOld(before, culled, now, rttMs);
    }

    method SetRtt(rttMs: int, now: int) returns (ghost culled: nat)
      requires Valid()
      modifies this
      ensures Valid() && this.rttMs == rttMs && Kept(packetQueue, now, rttMs)
      ensures culled <= |old(packetQueue)| && packetQueue == old(packetQueue)[culled..]
      ensures forall n :: 0 <= n < culled ==> !Kept(old(packetQueue)[n..], now, rttMs)
      ensures CulledOnlyOld(old(packetQueue), culled, now, rttMs)
    {
      this.rttMs := rttMs;
      culled := CullOldPackets(now);
    }

    /** Culls, and then updates the map: the packet replaces one with the same number,
        and no other packet is touched. A packet behind the front becomes the front. */
    method Record(packet: RtpPacket, now: int) returns (ghost culled: nat)
      requires Valid()
      modifies this`packetQueue
      ensures Valid() && |packetQueue| <= MAX_CAPACITY + HALF
      ensures culled <= |old(packetQueue)| && Kept(old(packetQueue)[culled..], now, rttMs)
      ensures forall n :: 0 <= n < culled ==> !Kept(old(packetQueue)[n..], now, rttMs)
      ensures CulledOnlyOld(old(packetQueue), culled, now, rttMs)
      ensures Recorded() ==
              (map s | s in old(Recorded()) && Slot(s, First(old(packetQueue))) >= culled :: old(Recorded())[s])
              [packet.sequenceNumber := RecordedPacket(now, Some(packet), 0)]
      ensures var q, s := old(packetQueue)[culled..], packet.sequenceNumber;
              && |packetQueue| == SizeReaching(|q|, GetPacketIndex(q, s))
              && First(packetQueue) == if GetPacketIndex(q, s) <= 0 then s else First(q)
    {
      hide Numbered, View, WellShaped, Ready, SizeReaching, FirstReaching, CulledOnlyOld;
      culled := CullOldPackets(now);
      var s := packet.sequenceNumber;
      var packetIndex := GetPacketIndex(packetQueue, s);
      ghost var q, kept, first := packetQueue, Recorded(), if packetQueue == [] then s else First(packetQueue);
      if 0 <= packetIndex < |packetQueue| && packetQueue[packetIndex].packet.Some? {
        Found(packetQueue, s);
        packetIndex, first := ReplaceDuplicate(packetIndex, s);
      } else {
        NewNumber(packetQueue, s);
      }
      Place(packetIndex, RecordedPacket(now, Some(packet), 0), first);
      assert Recorded() == kept[s := RecordedPacket(now, Some(packet), 0)];
    }

    /** Empties the slot of an earlier packet with this number, and looks the number
        up again. */
    method ReplaceDuplicate(at: nat, s: uint16) returns (packetIndex: int, ghost first: int)
      requires Valid() && Populated(packetQueue, at) && |packetQueue| < MAX_CAPACITY
      requires ToUint16(First(packetQueue) + at) == s
      modifies this`packetQueue
      ensures packetQueue == [] || Populated(packetQueue, 0)
      ensures TakenOut(old(packetQueue), packetQueue, first, packetIndex, s)
    {
      hide Numbered, View, TakenOut;
      ghost var before := packetQueue;
      ghost var popped := RemovePacket(at);
      if at == 0 {
        TakenFromFront(before, popped);
      } else {
        TakenFromMiddle(before, at, s);
      }
      packetIndex := GetPacketIndex(packetQueue, s);
      first := if packetQueue == [] then s else First(packetQueue);
    }

    /** Grows the queue as far as the index and puts the packet there. */
    method Place(index: int, r: RecordedPacket, ghost firstNumber: int)
      requires |packetQueue| < MAX_CAPACITY && r.packet.Some?
      requires Ready(packetQueue, firstNumber, index, r.packet.value.sequenceNumber)
      modifies this`packetQueue
      ensures Valid() && |packetQueue| <= MAX_CAPACITY + HALF
      ensures Recorded() == View(old(packetQueue), firstNumber)[r.packet.value.sequenceNumber := r]
      ensures |packetQueue| == SizeReaching(|old(packetQueue)|, index)
      ensures First(packetQueue) == FirstReaching(firstNumber, index)
    {
      hide Numbered, View;
      var packetIndex := index;
      ghost var first := firstNumber;
      while packetIndex < 0
        invariant index <= packetIndex && (index < 0 ==> packetIndex <= 0) && (index >= 0 ==> packetIndex == index)
        invariant |packetQueue| == |old(packetQueue)| + (packetIndex - index)
        invariant first == firstNumber - (packetIndex - index)
        invariant Ready(packetQueue, first, packetIndex, r.packet.value.sequenceNumber)
        invariant View(packetQueue, first) == View(old(packetQueue), firstNumber)
      {
        GrownInFront(packetQueue, first);
        assert Populated([VACANT] + packetQueue, |packetQueue|) <==> Populated(packetQueue, |packetQueue| - 1);
        packetQueue := [VACANT] + packetQueue;
        packetIndex, first := packetIndex + 1, first - 1;
      }
      ghost var middle := packetQueue;
      while |packetQueue| <= packetIndex
        invariant |packetQueue| <= packetIndex + 1 || packetQueue == middle
        invariant packetIndex > 0 ==> Populated(packetQueue, 0)
        invariant packetQueue == middle || |packetQueue| - 1 <= packetIndex
        invariant Numbered(packetQueue, first)
        invariant View(packetQueue, first) == View(old(packetQueue), firstNumber)
      {
        GrownBehind(packetQueue, first);
        packetQueue := packetQueue + [VACANT];
      }
      PutInSlot(packetQueue, first, packetIndex, r);
      packetQueue := packetQueue[packetIndex := r];
      Renumbered(packetQueue, first);
      FrontNumber(packetQueue, first);
    }

    /** Finds exactly the packets that are recorded and can be reached; each one
        found carries the number asked for. */
    method Query(s: uint16, now: int) returns (packet: Option<RtpPacket>)
      requires Valid()
      modifies this`packetQueue
      ensures Valid()
      ensures packet.Some? <==>
              s in old(Recorded()) && Reachable(old(packetQueue), s) && !Suppressed(old(Recorded())[s], now, rttMs)
      ensures packet.Some? ==>
                && packet == old(Recorded())[s].packet && packet.value.sequenceNumber == s
                && Recorded() == old(Recorded())[s := Retransmitted(old(Recorded())[s], now)]
      ensures packet.None? ==> packetQueue == old(packetQueue)
      ensures |packetQueue| == |old(packetQueue)| && First(packetQueue) == First(old(packetQueue))
    {
      hide Numbered;
      var index := GetPacketIndex(packetQueue, s);
      if packetQueue == [] {
        return None;
      }
      ghost var first := First(packetQueue);
      IndexIsDistance(packetQueue, s);
      if index < 0 || index >= |packetQueue| || packetQueue[index].packet.None? {
        return None;
      }
      ViewHoldsSlots(packetQueue, first);
      assert Slot(s, first) == index && s in View(packetQueue, first);
      if packetQueue[index].sendTimeMs != 0 && packetQueue[index].timesRetransmitted > 0
         && now < packetQueue[index].sendTimeMs + rttMs {
        return None;
      }
      packet := packetQueue[index].packet;
      PutInSlot(packetQueue, first, index, Retransmitted(packetQueue[index], now));
      packetQueue := packetQueue[index := Retransmitted(packetQueue[index], now)];
    }
  }

  /** Asks for a packet twice. The first time a packet in reach that was never sent
      again is found; the second time it is found again exactly if the round-trip
      time has passed. Each time it is counted. */
  method AskTwice(recorder: SendPacketRecorder, s: uint16, first: int, second: int)
    returns (p: Option<RtpPacket>, q: Option<RtpPacket>)
    requires recorder.Valid() && s in recorder.Recorded() && Reachable(recorder.packetQueue, s)
    modifies recorder`packetQueue
    ensures recorder.Valid()
    ensures old(recorder.Recorded()[s].timesRetransmitted) == 0 ==> p == old(recorder.Recorded()[s].packet) && p.Some?
    ensures p.Some? && old(recorder.Recorded()[s].sendTimeMs) != 0 && first != 0 ==>
              && (if second - first >= recorder.rttMs then q == p else q == None)
              && s in recorder.Recorded()
              && recorder.Recorded()[s].timesRetransmitted ==
                 old(recorder.Recorded()[s].timesRetransmitted) + (if q.Some? then 2 else 1)
  {
    hide Numbered, View, Suppressed, Retransmitted, Slot, First;
    ghost var r := recorder.Recorded()[s];
    if r.sendTimeMs != 0 && first != 0 {
      CountsTwo(r, first, second);
    }
    NeverSentAgain(r, first, recorder.rttMs);
    RetransmissionWaits(r, first, second, recorder.rttMs);
    p := recorder.Query(s, first);
    q := recorder.Query(s, second);
  }

  lemma CountsTwo(r: RecordedPacket, first: int, second: int)
    requires r.sendTimeMs != 0 && first != 0
    ensures Retransmitted(r, first).timesRetransmitted == r.timesRetransmitted + 1
    ensures Retransmitted(Retransmitted(r, first), second).timesRetransmitted == r.timesRetransmitted + 2
  {
  }

  lemma NeverSentAgain(r: RecordedPacket, now: int, rtt: int)
    ensures r.timesRetransmitted == 0 ==> !Suppressed(r, now, rtt)
    ensures Retransmitted(r, now).packet == r.packet
  {
  }

  /** A short queue whose front packet was recorded just now is not culled. */
  lemma FrontStays(q: seq<RecordedPacket>, now: int, rtt: int)
    requires WellShaped(q) && q != [] && |q| < MAX_CAPACITY
    requires First(q) in View(q, First(q)) && View(q, First(q))[First(q)].sendTimeMs == now
    ensures Kept(q[0..], now, rtt) && q[0..] == q && Populated(q, 0)
  {
    hide Numbered;
    assert q[0..] == q;
    SlotOf(First(q), 0);
  }

  lemma FarIndexes(q: seq<RecordedPacket>)
    ensures GetPacketIndex([], 0) == 0
    ensures Populated(q, 0) && First(q) == 0 ==> GetPacketIndex(q, 9000) == 9000 && GetPacketIndex(q, 35536) == -30000
    ensures First(q) == 35536 ==> Slot(9000, First(q)) == 39000 && !Reachable(q, 9000)
    ensures SizeReaching(0, 0) == 1 && SizeReaching(1, 9000) == 9001
  {
  }

  /** Records a packet while nothing is old enough to be culled. */
  method RecordAnother(recorder: SendPacketRecorder, s: uint16, now: int)
    requires recorder.Valid() && |recorder.packetQueue| < MAX_CAPACITY
    requires recorder.packetQueue != [] ==>
               var first := First(recorder.packetQueue);
               first in recorder.Recorded() && recorder.Recorded()[first].sendTimeMs == now
    modifies recorder`packetQueue
    ensures recorder.Valid()
    ensures recorder.Recorded() == old(recorder.Recorded())[s := RecordedPacket(now, Some(RtpPacket(s, [])), 0)]
    ensures var q := old(recorder.packetQueue);
            && (q == [] || Populated(q, 0))
            && |recorder.packetQueue| == SizeReaching(|q|, GetPacketIndex(q, s))
            && First(recorder.packetQueue) == if GetPacketIndex(q, s) <= 0 then s else First(q)
  {
    hide Numbered, View, WellShaped, Kept, GetPacketIndex, SizeReaching, First, Slot;
    ghost var q, before := recorder.packetQueue, recorder.Recorded();
    if q != [] {
      FrontStays(q, now, recorder.rttMs);
    }
    ghost var culled := recorder.Record(RtpPacket(s, []), now);
    assert culled == 0 && q[0..] == q;
    assert (map k | k in before && Slot(k, First(q)) >= culled :: before[k]) == before;
  }

  /** Three packets recorded at the same time, each less than 2^15 from the one in
      front of it: the second one, never sent again, is recorded and not found. */
  method OutOfReach(now: int) returns (recorder: SendPacketRecorder, packet: Option<RtpPacket>)
    ensures fresh(recorder) && recorder.Valid()
    ensures 9000 in recorder.Recorded()
    ensures recorder.Recorded()[9000] == RecordedPacket(now, Some(RtpPacket(9000, [])), 0)
    ensures Slot(9000, First(recorder.packetQueue)) == 39000
    ensures packet == None
  {
    hide View, WellShaped, GetPacketIndex, SizeReaching, First, Slot, Reachable, SendPacketRecorder.Recorded;
    recorder := new SendPacketRecorder();
    FarIndexes(recorder.packetQueue);
    RecordAnother(recorder, 0, now);
    FarIndexes(recorder.packetQueue);
    RecordAnother(recorder, 9000, now);
    FarIndexes(recorder.packetQueue);
    RecordAnother(recorder, 35536, now);
    FarIndexes(recorder.packetQueue);
    packet := recorder.Query(9000, now);
  }
}
