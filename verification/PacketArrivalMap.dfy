/**
 The sliding window of arrival times, at most 2^15 sequence numbers wide
 (src/congestion_controller/packet_arrival_map.cpp). An entry of 0 stands for a
 packet that has not arrived.
 */
module PacketArrivalMap {
  const MAX_NUMBER_OF_PACKETS := 0x8000

  ghost predicate Holds(begin: int, times: seq<int>, k: int) {
    begin <= k < begin + |times| && times[k - begin] != 0
  }

  /** The entries of a window that stand for a packet. */
  ghost function Entries(begin: int, times: seq<int>): map<int, int> {
    map k: int | begin <= k < begin + |times| && Holds(begin, times, k) :: times[k - begin]
  }

  /** What adding a packet does to the entries: numbers 2^15 or more behind it are
      forgotten. */
  ghost function Windowed(m: map<int, int>, sequenceNumber: int, time: int): map<int, int> {
    var kept := map k | k in m && k > sequenceNumber - MAX_NUMBER_OF_PACKETS :: m[k];
    if time == 0 then kept - {sequenceNumber} else kept[sequenceNumber := time]
  }

  function Zeros(n: nat): seq<int> {
    seq(n, i => 0)
  }

  /** The widest possible gap: a full window with nothing but its last packet. */
  ghost predicate OnlyLast(times: seq<int>) {
    && |times| == MAX_NUMBER_OF_PACKETS
    && forall i :: 0 <= i < |times| - 1 ==> times[i] == 0
  }

  /** The header file's promise that the last packet should be received. */
  ghost predicate LastReceived(times: seq<int>) {
    times != [] ==> times[|times| - 1] != 0
  }

  // ---------------------------------------------------------------------
  // The three ways a packet enters a window.

  lemma First(begin: int, s: int, t: int)
    ensures Entries(s, [] + [t]) == Windowed(Entries(begin, []), s, t)
    ensures LastReceived([]) && (t != 0 ==> LastReceived([] + [t])) && !OnlyLast([] + [t])
  {
    assert forall k :: Holds(s, [] + [t], k) <==> k == s && t != 0;
  }

  lemma Replaced(begin: int, times: seq<int>, s: int, t: int)
    requires begin <= s < begin + |times| <= begin + MAX_NUMBER_OF_PACKETS
    ensures Entries(begin, times[s - begin := t]) == Windowed(Entries(begin, times), s, t)
    ensures t != 0 && LastReceived(times) ==> LastReceived(times[s - begin := t])
    ensures t != 0 && LastReceived(times) && OnlyLast(times[s - begin := t]) ==> OnlyLast(times)
  {
    var after := times[s - begin := t];
    if t != 0 && LastReceived(times) && OnlyLast(after) {
      assert after[s - begin] != 0;
      forall i | 0 <= i < |times| - 1 ensures times[i] == 0 {
        assert after[i] == 0;
      }
    }
  }

  lemma PutInFront(begin: int, times: seq<int>, s: int, t: int)
    requires s < begin && begin + |times| - s <= MAX_NUMBER_OF_PACKETS
    ensures var after := (Zeros(begin - s) + times)[0 := t];
            && |after| == begin + |times| - s
            && Entries(s, after) == Windowed(Entries(begin, times), s, t)
            && (t != 0 && LastReceived(times) ==>
                  (LastReceived(after) <==> times != [] || begin - s == 1))
            && (t != 0 ==> !OnlyLast(after))
  {
    var after := (Zeros(begin - s) + times)[0 := t];
    forall k: int
      ensures Holds(s, after, k) <==> (k == s && t != 0) || Holds(begin, times, k)
      ensures Holds(begin, times, k) ==> after[k - s] == times[k - begin]
    {
    }
    assert after[0] == t;
  }

  /** The promise about the last packet can be broken: 3 comes when the window has
      been emptied up to 5. */
  lemma LastNotReceived(t: int)
    requires t != 0
    ensures LastReceived([]) && !LastReceived((Zeros(5 - 3) + [])[0 := t])
  {
    PutInFront(5, [], 3, t);
  }

  lemma PutBehind(begin: int, times: seq<int>, s: int, t: int)
    requires begin + |times| <= s < begin + MAX_NUMBER_OF_PACKETS
    ensures var after := times + Zeros(s - begin - |times|) + [t];
            && |after| == s - begin + 1
            && Entries(begin, after) == Windowed(Entries(begin, times), s, t)
            && (t != 0 ==> LastReceived(after))
            && (times != [] && times[0] != 0 ==> !OnlyLast(after))
            && (OnlyLast(after) ==> s - begin + 1 == MAX_NUMBER_OF_PACKETS)
            && (t != 0 && LastReceived(times) && OnlyLast(after) ==> times == [] || OnlyLast(times))
  {
    var after := times + Zeros(s - begin - |times|) + [t];
    forall k: int
      ensures Holds(begin, after, k) <==> (k == s && t != 0) || Holds(begin, times, k)
      ensures Holds(begin, times, k) ==> after[k - begin] == times[k - begin]
    {
    }
    if OnlyLast(after) && times != [] {
      assert after[0] == times[0] && after[|times| - 1] == times[|times| - 1];
    }
  }

  /** Dropping a prefix forgets the numbers in front of the new beginning. */
  lemma Dropped(begin: int, times: seq<int>, n: nat)
    requires n <= |times|
    ensures Entries(begin + n, times[n..]) ==
            map k | k in Entries(begin, times) && k >= begin + n :: Entries(begin, times)[k]
    ensures LastReceived(times) ==> LastReceived(times[n..])
  {
    forall k: int
      ensures Holds(begin + n, times[n..], k) <==> Holds(begin, times, k) && k >= begin + n
    {
    }
  }

  /** Nothing was lost but old packets in front of s. */
  ghost predicate Shrunk(before: map<int, int>, after: map<int, int>, s: int, limit: int) {
    && (forall k :: k in after ==> k in before && after[k] == before[k])
    && (forall k :: k in before ==> k in after || (k < s && before[k] <= limit))
  }

  lemma DroppedOld(begin: int, times: seq<int>, n: nat, s: int, limit: int)
    requires n <= |times| && forall i :: 0 <= i < n ==> times[i] <= limit && begin + i < s
    ensures Shrunk(Entries(begin, times), Entries(begin + n, times[n..]), s, limit)
  {
    Dropped(begin, times, n);
    forall k | k in Entries(begin, times) && k < begin + n ensures k < s && Entries(begin, times)[k] <= limit {
      assert Holds(begin, times, k) && times[k - begin] <= limit;
    }
  }

  /** What stays when old packets in front of s are dropped, oldest number first: what
      is not in front of s, and what a packet later than the limit shields, itself or
      one in front of it. */
  ghost predicate Shielded(m: map<int, int>, s: int, limit: int, k: int) {
    k >= s || exists j :: j <= k && j in m && m[j] > limit
  }

  ghost function WithoutOld(m: map<int, int>, s: int, limit: int): map<int, int> {
    map k | k in m && Shielded(m, s, limit, k) :: m[k]
  }

  /** What is in front of the beginning is gone. */
  ghost predicate BegunAt(before: map<int, int>, after: map<int, int>, begin: int) {
    after == map k | k in before && k >= begin :: before[k]
  }

  /** Exactly what is old is gone. */
  ghost predicate OldDropped(before: map<int, int>, after: map<int, int>, s: int, limit: int) {
    Positive(before) ==> after == WithoutOld(before, s, limit)
  }

  ghost predicate Positive(m: map<int, int>) {
    forall k :: k in m ==> m[k] > 0
  }

  lemma DroppedExactlyOld(begin: int, times: seq<int>, n: nat, s: int, limit: int)
    requires n <= |times|
    requires forall i :: 0 <= i < n ==> times[i] <= limit && begin + i < s
    requires n < |times| ==> times[n] > limit || begin + n >= s
    ensures OldDropped(Entries(begin, times), Entries(begin + n, times[n..]), s, limit)
  {
    hide Entries, Positive;
    if Positive(Entries(begin, times)) {
      Dropped(begin, times, n);
      forall k | k in Entries(begin, times) ensures k >= begin + n <==> Shielded(Entries(begin, times), s, limit, k) {
        ShieldedBehind(begin, times, n, s, limit, k);
      }
    }
  }

  lemma ShieldedBehind(begin: int, times: seq<int>, n: nat, s: int, limit: int, k: int)
    requires n <= |times| && Positive(Entries(begin, times)) && k in Entries(begin, times)
    requires forall i :: 0 <= i < n ==> times[i] <= limit && begin + i < s
    requires n < |times| ==> times[n] > limit || begin + n >= s
    ensures k >= begin + n <==> Shielded(Entries(begin, times), s, limit, k)
  {
    var m := Entries(begin, times);
    if k >= begin + n && k < s {
      assert times[n] > limit;
      if times[n] != 0 {
        assert Holds(begin, times, begin + n);
        assert begin + n in m && m[begin + n] > limit;
      } else {
        assert m[k] > limit;
      }
    }
    if j :| j <= k && j in m && m[j] > limit {
      assert Holds(begin, times, j) && times[j - begin] > limit;
    }
  }

  /** A prefix that a packet pushes out anyway may be dropped before it is added. */
  lemma DroppedFirst(begin: int, times: seq<int>, n: nat, s: int, t: int)
    requires n <= |times|
    requires forall k :: begin <= k < begin + n && Holds(begin, times, k) ==> k <= s - MAX_NUMBER_OF_PACKETS
    requires s >= begin + |times|
    ensures Windowed(Entries(begin + n, times[n..]), s, t) == Windowed(Entries(begin, times), s, t)
  {
    Dropped(begin, times, n);
  }

  function Distance(a: int, b: int): nat {
    if a < b then b - a else a - b
  }

  class PacketArrivalTimeMap {
    var arrivalTimes: seq<int>
    var beginSequenceNumber: int
    var hasSeenPacket: bool

    ghost predicate Valid()
      reads this
    {
      |arrivalTimes| <= MAX_NUMBER_OF_PACKETS && (!hasSeenPacket ==> arrivalTimes == [])
    }

    /** Sequence number to arrival time, of the packets received. */
    ghost function View(): map<int, int>
      reads this
    {
      Entries(beginSequenceNumber, arrivalTimes)
    }

    function End(): int
      reads this
    {
      beginSequenceNumber + |arrivalTimes|
    }

    constructor ()
      ensures Valid() && View() == map[] && !hasSeenPacket && arrivalTimes == []
      ensures beginSequenceNumber == 0
    {
      arrivalTimes, beginSequenceNumber, hasSeenPacket := [], 0, false;
    }

    /** A packet more than 2^15 behind the end is ignored; any other is recorded and
        pushes out what is too old next to it. The end never moves back. The last
        entry stays a received one except in one case: an older packet, by more
        than one, comes when the window has been emptied. */
    method AddPacket(sequenceNumber: int, arrivalTimeMs: int)
      requires Valid()
      modifies this
      ensures Valid() && hasSeenPacket
      ensures old(hasSeenPacket) && old(End()) - sequenceNumber > MAX_NUMBER_OF_PACKETS ==>
                beginSequenceNumber == old(beginSequenceNumber) && arrivalTimes == old(arrivalTimes)
      ensures !old(hasSeenPacket) || old(End()) - sequenceNumber <= MAX_NUMBER_OF_PACKETS ==>
                && View() == Windowed(old(View()), sequenceNumber, arrivalTimeMs)
                && beginSequenceNumber <= sequenceNumber < End()
      ensures old(hasSeenPacket) ==>
                End() == if sequenceNumber < old(End()) then old(End()) else sequenceNumber + 1
      ensures !old(hasSeenPacket) ==> beginSequenceNumber == sequenceNumber && arrivalTimes == [arrivalTimeMs]
      ensures arrivalTimeMs != 0 && old(LastReceived(arrivalTimes)) ==>
                (LastReceived(arrivalTimes) <==>
                 !(old(hasSeenPacket && arrivalTimes == [])
                   && 1 < old(beginSequenceNumber) - sequenceNumber <= MAX_NUMBER_OF_PACKETS))
      ensures arrivalTimeMs != 0 && old(LastReceived(arrivalTimes)) && OnlyLast(arrivalTimes) ==>
                && old(hasSeenPacket) && beginSequenceNumber == old(beginSequenceNumber)
                && (old(OnlyLast(arrivalTimes)) || old(arrivalTimes) == [])
    {
      hide Windowed, OnlyLast, LastReceived;
      if !hasSeenPacket {
        First(beginSequenceNumber, sequenceNumber, arrivalTimeMs);
        hasSeenPacket := true;
        beginSequenceNumber := sequenceNumber;
        arrivalTimes := arrivalTimes + [arrivalTimeMs];
        return;
      }
      var pos := sequenceNumber - beginSequenceNumber;
      if 0 <= pos < |arrivalTimes| {
        Replaced(beginSequenceNumber, arrivalTimes, sequenceNumber, arrivalTimeMs);
        arrivalTimes := arrivalTimes[pos := arrivalTimeMs];
        return;
      }
      if pos < 0 {
        var missingPackets := -pos;
        if missingPackets + |arrivalTimes| > MAX_NUMBER_OF_PACKETS {
          return;
        }
        PutInFront(beginSequenceNumber, arrivalTimes, sequenceNumber, arrivalTimeMs);
        arrivalTimes := (Zeros(missingPackets) + arrivalTimes)[0 := arrivalTimeMs];
        beginSequenceNumber := sequenceNumber;
        return;
      }
      if pos >= MAX_NUMBER_OF_PACKETS {
        MakeRoom(sequenceNumber, arrivalTimeMs);
        pos := sequenceNumber - beginSequenceNumber;
      }
      PutBehind(beginSequenceNumber, arrivalTimes, sequenceNumber, arrivalTimeMs);
      arrivalTimes := arrivalTimes + Zeros(pos - |arrivalTimes|) + [arrivalTimeMs];
    }

    /** Removes what is 2^15 or more behind the new packet, and then leading
        entries that stand for nothing. */
    method MakeRoom(sequenceNumber: int, arrivalTimeMs: int)
      requires Valid() && sequenceNumber - beginSequenceNumber >= MAX_NUMBER_OF_PACKETS
      modifies this`arrivalTimes, this`beginSequenceNumber
      ensures Valid()
      ensures End() <= sequenceNumber < beginSequenceNumber + MAX_NUMBER_OF_PACKETS
      ensures Windowed(View(), sequenceNumber, arrivalTimeMs) == Windowed(old(View()), sequenceNumber, arrivalTimeMs)
      ensures old(LastReceived(arrivalTimes)) ==>
                if arrivalTimes == [] then beginSequenceNumber == sequenceNumber else arrivalTimes[0] != 0
    {
      var packetsToRemove := sequenceNumber - beginSequenceNumber - MAX_NUMBER_OF_PACKETS + 1;
      if packetsToRemove >= |arrivalTimes| {
        DroppedFirst(beginSequenceNumber, arrivalTimes, |arrivalTimes|, sequenceNumber, arrivalTimeMs);
        assert arrivalTimes[|arrivalTimes|..] == [];
        assert Entries(sequenceNumber, []) == Entries(beginSequenceNumber + |arrivalTimes|, []);
        arrivalTimes := [];
        beginSequenceNumber := sequenceNumber;
      } else {
        ghost var first := packetsToRemove;
        while packetsToRemove < |arrivalTimes| && arrivalTimes[packetsToRemove] == 0
          invariant first <= packetsToRemove <= |arrivalTimes|
          invariant forall i :: first <= i < packetsToRemove ==> arrivalTimes[i] == 0
        {
          packetsToRemove := packetsToRemove + 1;
        }
        DroppedFirst(beginSequenceNumber, arrivalTimes, packetsToRemove, sequenceNumber, arrivalTimeMs);
        arrivalTimes := arrivalTimes[packetsToRemove..];
        beginSequenceNumber := beginSequenceNumber + packetsToRemove;
      }
    }

    /** Drops the longest prefix of entries that are both in front of
        sequenceNumber and not later than the limit. */
    method RemoveOldPackets(sequenceNumber: int, arrivalTimeLimit: int)
      requires Valid()
      modifies this`arrivalTimes, this`beginSequenceNumber
      ensures Valid() && End() == old(End())
      ensures old(beginSequenceNumber) <= beginSequenceNumber <= End()
      ensures arrivalTimes == old(arrivalTimes)[beginSequenceNumber - old(beginSequenceNumber)..]
      ensures forall i :: 0 <= i < beginSequenceNumber - old(beginSequenceNumber) ==>
                old(arrivalTimes)[i] <= arrivalTimeLimit && old(beginSequenceNumber) + i < sequenceNumber
      ensures arrivalTimes != [] ==> arrivalTimes[0] > arrivalTimeLimit || beginSequenceNumber >= sequenceNumber
      ensures old(beginSequenceNumber) < beginSequenceNumber ==> beginSequenceNumber <= sequenceNumber
      ensures BegunAt(old(View()), View(), beginSequenceNumber)
      ensures Shrunk(old(View()), View(), sequenceNumber, arrivalTimeLimit)
      ensures OldDropped(old(View()), View(), sequenceNumber, arrivalTimeLimit)
      ensures old(LastReceived(arrivalTimes)) ==> LastReceived(arrivalTimes)
    {
      hide Entries, Shrunk, LastReceived, OldDropped;
      ghost var times, n := arrivalTimes, 0;
      while arrivalTimes != [] && beginSequenceNumber < sequenceNumber && arrivalTimes[0] <= arrivalTimeLimit
        invariant n > 0 ==> beginSequenceNumber <= sequenceNumber
        invariant 0 <= n <= |times| && beginSequenceNumber == old(beginSequenceNumber) + n
        invariant arrivalTimes == times[n..]
        invariant forall i :: 0 <= i < n ==>
                    times[i] <= arrivalTimeLimit && old(beginSequenceNumber) + i < sequenceNumber
        decreases |arrivalTimes|
      {
        arrivalTimes := arrivalTimes[1..];
        beginSequenceNumber := beginSequenceNumber + 1;
        n := n + 1;
      }
      Dropped(old(beginSequenceNumber), times, n);
      DroppedOld(old(beginSequenceNumber), times, n, sequenceNumber, arrivalTimeLimit);
      DroppedExactlyOld(old(beginSequenceNumber), times, n, sequenceNumber, arrivalTimeLimit);
    }

    predicate HasReceived(sequenceNumber: int)
      reads this
      ensures HasReceived(sequenceNumber) <==> sequenceNumber in View()
      ensures HasReceived(sequenceNumber) ==> beginSequenceNumber <= sequenceNumber < End()
    {
      var pos := sequenceNumber - beginSequenceNumber;
      assert Holds(beginSequenceNumber, arrivalTimes, sequenceNumber) <==> sequenceNumber in View();
      0 <= pos < |arrivalTimes| && arrivalTimes[pos] != 0
    }

    function Get(sequenceNumber: int): (t: int)
      requires beginSequenceNumber <= sequenceNumber < End()
      reads this
      ensures t != 0 <==> sequenceNumber in View()
      ensures t != 0 ==> View()[sequenceNumber] == t
    {
      assert Holds(beginSequenceNumber, arrivalTimes, sequenceNumber) <==> sequenceNumber in View();
      arrivalTimes[sequenceNumber - beginSequenceNumber]
    }

    /** The nearest number of the window or its end. */
    function Clamp(sequenceNumber: int): (c: int)
      reads this
      ensures beginSequenceNumber <= c <= End()
      ensures forall k :: beginSequenceNumber <= k <= End() ==>
                Distance(sequenceNumber, c) <= Distance(sequenceNumber, k)
    {
      if sequenceNumber < beginSequenceNumber then beginSequenceNumber
      else if sequenceNumber > End() then End()
      else sequenceNumber
    }

    method EraseTo(sequenceNumber: int)
      requires Valid()
      modifies this`arrivalTimes, this`beginSequenceNumber
      ensures Valid() && End() == old(End())
      ensures View() == map k | k in old(View()) && k >= sequenceNumber :: old(View())[k]
      ensures beginSequenceNumber >= old(beginSequenceNumber)
    {
      if sequenceNumber > beginSequenceNumber {
        var wanted := sequenceNumber - beginSequenceNumber;
        var count := if wanted < |arrivalTimes| then wanted else |arrivalTimes|;
        Dropped(beginSequenceNumber, arrivalTimes, count);
        assert forall k :: k in View() ==> Holds(beginSequenceNumber, arrivalTimes, k);
        arrivalTimes := arrivalTimes[count..];
        beginSequenceNumber := beginSequenceNumber + count;
      }
    }
  }
}
