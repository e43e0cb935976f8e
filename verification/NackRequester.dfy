/**
 The list of packets to ask for again (src/transport/nack_requester.cpp).

 The ordered containers, keyed by the circular comparison, are sequences here. A
 tree search in such a container is only determined when the container is
 partitioned by the key, so that is all a search promises.
 */
module NackRequesting {
  import opened SequenceNumber
  import opened NackPacking

  const MAX_PACKET_AGE := 10000
  const MAX_NACK_PACKETS := 1000
  const MAX_NACK_RETRIES := 10
  const DEFAULT_RTT_MS := 100
  const SEND_NACK_DELAY_MS := 10

  datatype NackInfo = NackInfo(seqNum: uint16, sendAtSeqNum: uint16, createdAtTime: int, sentAtTime: int, retries: int)

  datatype NackFilter = SeqNumOnly | TimeOnly | SeqNumAndTime

  // ---------------------------------------------------------------------
  // Ordered containers.

  predicate Partitioned(list: seq<uint16>, key: uint16) {
    forall i, j :: 0 <= i < j < |list| && SeqNumGT(key, list[j]) ==> SeqNumGT(key, list[i])
  }

  predicate Sorted(list: seq<uint16>) {
    forall i, j :: 0 <= i < j < |list| ==> SeqNumGT(list[j], list[i])
  }

  /** The first element not less than the key, if the container is partitioned by
      the key, and some position otherwise. */
  method LowerBound(list: seq<uint16>, key: uint16) returns (n: nat)
    ensures n <= |list|
    ensures Partitioned(list, key) ==>
              && (forall i :: 0 <= i < n ==> SeqNumGT(key, list[i]))
              && (forall i :: n <= i < |list| ==> !SeqNumGT(key, list[i]))
  {
    hide SeqNumGT;
    n := 0;
    while n < |list| && SeqNumGT(key, list[n])
      invariant n <= |list|
      invariant forall i :: 0 <= i < n ==> SeqNumGT(key, list[i])
    {
      n := n + 1;
    }
  }

  /** A key that is found is there; in a sorted container a key that is there is found. */
  method Find(list: seq<uint16>, key: uint16) returns (found: bool, n: nat)
    ensures found ==> n < |list| && list[n] == key
    ensures Sorted(list) && key in list ==> found
  {
    hide SeqNumGT;
    n := LowerBound(list, key);
    found := n < |list| && !SeqNumGT(list[n], key) && !SeqNumGT(key, list[n]);
    AntisymmetricAt(if n < |list| then list[n] else key, key);
    if Sorted(list) && key in list {
      SortedHas(list, key);
    }
  }

  lemma AntisymmetricAt(a: uint16, b: uint16)
    ensures SeqNumGT(a, b) || SeqNumGT(b, a) || a == b
    ensures !(SeqNumGT(a, b) && SeqNumGT(b, a)) && !SeqNumGT(a, a)
  {
    if a != b { Trichotomy(a, b); }
  }

  lemma SortedHas(list: seq<uint16>, key: uint16)
    requires Sorted(list) && key in list
    ensures Partitioned(list, key)
    ensures forall n :: 0 <= n < |list| && !SeqNumGT(key, list[n])
                        && (forall i :: 0 <= i < n ==> SeqNumGT(key, list[i]))
              ==> list[n] == key
  {
    hide SeqNumGT;
    var k :| 0 <= k < |list| && list[k] == key;
    forall i | 0 <= i < |list| ensures SeqNumGT(key, list[i]) <==> i < k {
      AntisymmetricAt(key, list[i]);
    }
  }

  /** Afterwards the container has the key and what it had before; it stays sorted
      if the key fits in. */
  method Insert(list: seq<uint16>, key: uint16) returns (r: seq<uint16>)
    ensures r == list || exists n :: 0 <= n <= |list| && r == list[..n] + [key] + list[n..]
    ensures forall k :: k in r <==> k in list || k == key
    ensures Sorted(list) && Partitioned(list, key) ==> Sorted(r)
  {
    hide SeqNumGT;
    var n := LowerBound(list, key);
    if n < |list| && list[n] == key {
      return list;
    }
    r := list[..n] + [key] + list[n..];
    assert list == list[..n] + list[n..];
    if Sorted(list) && Partitioned(list, key) {
      forall i, j | 0 <= i < j < |r| ensures SeqNumGT(r[j], r[i]) {
        if j > n {
          AntisymmetricAt(key, list[j - 1]);
        }
      }
    }
  }

  // ---------------------------------------------------------------------
  // The list as a value.

  function Keys(list: seq<NackInfo>): (r: seq<uint16>)
    ensures |r| == |list| && forall i :: 0 <= i < |r| ==> r[i] == list[i].seqNum
  {
    seq(|list|, i requires 0 <= i < |list| => list[i].seqNum)
  }

  /** How far a number is behind the newest packet. */
  function Behind(newest: uint16, s: uint16): uint16 {
    ToUint16(newest - s)
  }

  /** The list invariant: at most 1000 entries, each between 1 and 10000 behind the
      newest packet, oldest first, and each with retries left. */
  ghost predicate InOrder(list: seq<NackInfo>, newest: uint16) {
    && (forall i :: 0 <= i < |list| ==> 1 <= Behind(newest, list[i].seqNum) <= MAX_PACKET_AGE)
    && (forall i, j :: 0 <= i < j < |list| ==> Behind(newest, list[i].seqNum) > Behind(newest, list[j].seqNum))
  }

  /** Within the age limit the circular comparator is a strict order. */
  lemma OlderIsLess(newest: uint16, a: uint16, b: uint16)
    requires Behind(newest, a) <= 2 * MAX_PACKET_AGE && Behind(newest, b) < HALF
    ensures SeqNumGT(b, a) <==> Behind(newest, b) < Behind(newest, a)
  {
    var x, y := newest - Behind(newest, a), newest - Behind(newest, b);
    assert ToUint16(x) == a && ToUint16(y) == b;
    CircularOrder(y, x);
  }

  lemma InOrderIsSorted(list: seq<NackInfo>, newest: uint16)
    requires InOrder(list, newest)
    ensures Sorted(Keys(list))
  {
    hide SeqNumGT, ToUint16;
    var keys := Keys(list);
    forall i, j | 0 <= i < j < |keys| ensures SeqNumGT(keys[j], keys[i]) {
      OlderIsLess(newest, list[i].seqNum, list[j].seqNum);
    }
  }

  lemma NewNewest(newest: uint16, end: uint16, s: uint16)
    requires SeqNumGT(end, newest) && Behind(end, newest) < HALF && 1 <= Behind(newest, s) <= MAX_PACKET_AGE
    ensures Behind(end, s) == Behind(end, newest) + Behind(newest, s)
    ensures SeqNumGT(ToUint16(end - MAX_PACKET_AGE), s) <==> Behind(end, s) > MAX_PACKET_AGE
  {
    hide SeqNumGT;
    var d := Behind(end, newest) + Behind(newest, s);
    var turns := (end - newest) / SPAN + (newest - s) / SPAN;
    assert end - s == SPAN * turns + d;
    HasResidue(end - s, turns, d);
    CircularOrder(end - MAX_PACKET_AGE, end - d);
    HasResidue(end - d, turns, s);
  }

  /** With the new packet less than 2^15 ahead, the age limit cuts off a prefix. */
  lemma AgeLimitCuts(list: seq<NackInfo>, newest: uint16, end: uint16)
    requires InOrder(list, newest) && SeqNumGT(end, newest) && Behind(end, newest) < HALF
    ensures Partitioned(Keys(list), ToUint16(end - MAX_PACKET_AGE))
    ensures forall i :: 0 <= i < |list| ==>
              && Behind(end, list[i].seqNum) == Behind(end, newest) + Behind(newest, list[i].seqNum)
              && (SeqNumGT(ToUint16(end - MAX_PACKET_AGE), Keys(list)[i]) <==>
                  Behind(end, list[i].seqNum) > MAX_PACKET_AGE)
  {
    hide SeqNumGT, ToUint16;
    forall i | 0 <= i < |list|
      ensures Behind(end, list[i].seqNum) == Behind(end, newest) + Behind(newest, list[i].seqNum)
      ensures SeqNumGT(ToUint16(end - MAX_PACKET_AGE), list[i].seqNum) <==> Behind(end, list[i].seqNum) > MAX_PACKET_AGE
    {
      NewNewest(newest, end, list[i].seqNum);
    }
  }

  // ---------------------------------------------------------------------
  // What becomes of one listing of a packet.

  /** A request for a packet, and the round-trip time in force when it was made. */
  datatype Request = Request(time: int, rtt: int)

  datatype Listing = Listing(seqNum: uint16, createdAtTime: int, requests: seq<Request>)

  /** At most 10 requests, the first at least 10 ms after the listing was made, the
      others at least the round-trip time after the one before. */
  ghost predicate Paced(l: Listing) {
    && |l.requests| <= MAX_NACK_RETRIES
    && (l.requests != [] ==> l.requests[0].time - l.createdAtTime >= SEND_NACK_DELAY_MS)
    && forall i :: 0 < i < |l.requests| ==> l.requests[i].time - l.requests[i - 1].time >= l.requests[i].rtt
  }

  ghost predicate AllPaced(listings: seq<Listing>) {
    forall i :: 0 <= i < |listings| ==> Paced(listings[i])
  }

  /** The entry's fields record the requests made so far. */
  ghost predicate Records(info: NackInfo, l: Listing) {
    && info.seqNum == info.sendAtSeqNum == l.seqNum
    && info.createdAtTime == l.createdAtTime
    && info.retries == |l.requests|
    && info.sentAtTime == (if l.requests == [] then -1 else l.requests[|l.requests| - 1].time)
    && (forall i :: 0 <= i < |l.requests| ==> l.requests[i].time >= 0)
    && Paced(l)
  }

  ghost predicate Tracked(list: seq<NackInfo>, open: seq<Listing>) {
    && |open| == |list|
    && forall i :: 0 <= i < |list| ==> Records(list[i], open[i]) && list[i].retries < MAX_NACK_RETRIES
  }

  /** One call of GetNackBatch: its filter, the clock, and the round-trip time and
      newest packet in force. */
  datatype Round = Round(filter: NackFilter, now: int, rtt: int, newest: uint16)

  predicate Due(info: NackInfo, r: Round) {
    && r.now - info.createdAtTime >= SEND_NACK_DELAY_MS
    && ((r.filter != TimeOnly && info.sentAtTime == -1 && SeqNumGE(r.newest, info.sendAtSeqNum))
        || (r.filter != SeqNumOnly && r.now - info.sentAtTime >= r.rtt))
  }

  /** This request uses up the retries. */
  predicate Last(info: NackInfo) {
    info.retries + 1 >= MAX_NACK_RETRIES
  }

  function Sent(info: NackInfo, r: Round): NackInfo {
    info.(retries := info.retries + 1, sentAtTime := r.now)
  }

  ghost function Requested(l: Listing, r: Round): Listing {
    l.(requests := l.requests + [Request(r.now, r.rtt)])
  }

  lemma RequestKeepsPace(info: NackInfo, l: Listing, r: Round)
    requires Records(info, l) && info.retries < MAX_NACK_RETRIES && r.now >= 0 && Due(info, r)
    ensures Records(Sent(info, r), Requested(l, r))
  {
  }

  // ---------------------------------------------------------------------
  // What one batch takes.

  /** The numbers asked for. */
  function BatchOf(list: seq<NackInfo>, r: Round): seq<uint16> {
    if list == [] then []
    else
      var n := |list| - 1;
      BatchOf(list[..n], r) + if Due(list[n], r) then [list[n].seqNum] else []
  }

  /** The entries that stay. */
  function AfterBatch(list: seq<NackInfo>, r: Round): seq<NackInfo> {
    if list == [] then []
    else
      var n := |list| - 1;
      AfterBatch(list[..n], r)
      + if !Due(list[n], r) then [list[n]] else if Last(list[n]) then [] else [Sent(list[n], r)]
  }

  /** The histories of the entries that stay: one request more for each entry that
      was due, with the clock and the round-trip time of the round. */
  ghost function OpenAfter(list: seq<NackInfo>, open: seq<Listing>, r: Round): (o: seq<Listing>)
    requires |open| == |list|
    ensures |o| == |AfterBatch(list, r)|
  {
    if list == [] then []
    else
      var n := |list| - 1;
      OpenAfter(list[..n], open[..n], r)
      + if !Due(list[n], r) then [open[n]] else if Last(list[n]) then [] else [Requested(open[n], r)]
  }

  /** The histories of the entries that leave, their last request included. */
  ghost function ClosedBy(list: seq<NackInfo>, open: seq<Listing>, r: Round): seq<Listing>
    requires |open| == |list|
  {
    if list == [] then []
    else
      var n := |list| - 1;
      ClosedBy(list[..n], open[..n], r) + if Due(list[n], r) && Last(list[n]) then [Requested(open[n], r)] else []
  }

  lemma NothingAsked(r: Round)
    ensures BatchOf([], r) == [] && AfterBatch([], r) == [] && OpenAfter([], [], r) == [] && ClosedBy([], [], r) == []
  {
  }

  /** No request is forgotten and none made up: the histories, those kept and those
      closed, hold as many requests more as the batch has numbers. */
  lemma {:induction false} EveryRequestLogged(list: seq<NackInfo>, open: seq<Listing>, r: Round)
    requires |open| == |list|
    ensures Count(OpenAfter(list, open, r)) + Count(ClosedBy(list, open, r)) == Count(open) + |BatchOf(list, r)|
  {
    hide Due, Last, Requested, Count;
    if list == [] {
      CountNone();
    } else {
      var n := |list| - 1;
      var l, asked := open[n], Requested(open[n], r);
      var stay, left := OpenAfter(list[..n], open[..n], r), ClosedBy(list[..n], open[..n], r);
      EveryRequestLogged(list[..n], open[..n], r);
      assert open == open[..n] + [l];
      CountMore(open[..n], l);
      assert |asked.requests| == |l.requests| + 1 by { OneRequestMore(l, r); }
      if !Due(list[n], r) {
        CountMore(stay, l);
        assert left + [] == left;
      } else if Last(list[n]) {
        CountMore(left, asked);
        assert stay + [] == stay;
      } else {
        CountMore(stay, asked);
        assert left + [] == left;
      }
    }
  }

  lemma CountNone()
    ensures Count([]) == 0
  {
  }

  lemma OneRequestMore(l: Listing, r: Round)
    ensures |Requested(l, r).requests| == |l.requests| + 1
  {
  }

  ghost function Count(listings: seq<Listing>): nat {
    if listings == [] then 0
    else Count(listings[..|listings| - 1]) + |listings[|listings| - 1].requests|
  }

  lemma CountMore(listings: seq<Listing>, l: Listing)
    ensures Count(listings + [l]) == Count(listings) + |l.requests|
  {
    assert (listings + [l])[..|listings|] == listings;
  }

  /** After a batch by time nothing that is left is due: it is younger than 10 ms, or was
      asked for now or less than the round-trip time ago. */
  lemma {:induction false} NothingDueIsLeft(list: seq<NackInfo>, r: Round)
    requires r.filter == TimeOnly
    ensures forall i :: 0 <= i < |AfterBatch(list, r)| ==>
              var info := AfterBatch(list, r)[i];
              || r.now - info.createdAtTime < SEND_NACK_DELAY_MS
              || info.sentAtTime == r.now || r.now - info.sentAtTime < r.rtt
  {
    if list != [] {
      NothingDueIsLeft(list[..|list| - 1], r);
    }
  }

  /** What a batch by time asks for: the entries at least 10 ms old that were not asked
      for within the round-trip time, those never asked for among them. */
  lemma {:induction false} BatchByTime(list: seq<NackInfo>, r: Round, e: uint16)
    requires r.filter == TimeOnly
    ensures e in BatchOf(list, r) <==>
            exists i :: && 0 <= i < |list| && list[i].seqNum == e
                        && r.now - list[i].createdAtTime >= 10 && r.now - list[i].sentAtTime >= r.rtt
  {
    if list != [] {
      var n := |list| - 1;
      BatchByTime(list[..n], r, e);
      assert forall i :: 0 <= i < n ==> list[..n][i] == list[i];
      if e == list[n].seqNum && r.now - list[n].createdAtTime >= 10 && r.now - list[n].sentAtTime >= r.rtt {
        assert e in BatchOf(list, r);
      }
    }
  }

  /** What a batch by number asks for, in a list in order: the entries at least 10 ms
      old that were never asked for. */
  lemma {:induction false} BatchByNumber(list: seq<NackInfo>, open: seq<Listing>, r: Round, e: uint16)
    requires r.filter == SeqNumOnly && InOrder(list, r.newest) && Tracked(list, open)
    ensures e in BatchOf(list, r) <==>
            exists i :: && 0 <= i < |list| && list[i].seqNum == e
                        && r.now - list[i].createdAtTime >= 10 && open[i].requests == []
  {
    hide ToUint16, SeqNumGE;
    if list != [] {
      var n := |list| - 1;
      BatchByNumber(list[..n], open[..n], r, e);
      assert forall i :: 0 <= i < n ==> list[..n][i] == list[i] && open[..n][i] == open[i];
      ListedIsPassed(r.newest, list[n].seqNum);
      assert Records(list[n], open[n]);
      if e == list[n].seqNum && r.now - list[n].createdAtTime >= 10 && open[n].requests == [] {
        assert e in BatchOf(list, r);
      }
    }
  }

  lemma ListedIsPassed(newest: uint16, s: uint16)
    requires 1 <= Behind(newest, s) <= MAX_PACKET_AGE
    ensures SeqNumGE(newest, s)
  {
  }

  /** An entry is given up after exactly ten requests. */
  lemma {:induction false} GivenUpAfterTen(list: seq<NackInfo>, open: seq<Listing>, r: Round)
    requires Tracked(list, open)
    ensures forall l :: l in ClosedBy(list, open, r) ==> |l.requests| == 10
  {
    if list != [] {
      var n := |list| - 1;
      GivenUpAfterTen(list[..n], open[..n], r);
      assert Records(list[n], open[n]);
    }
  }

  /** The list and the histories while a batch is taken: k entries are done, of which
      `it` stay. */
  ghost predicate Halfway(list: seq<NackInfo>, open0: seq<Listing>, closed0: seq<Listing>, k: nat, r: Round,
                          current: seq<NackInfo>, it: nat, batch: seq<uint16>,
                          open: seq<Listing>, closed: seq<Listing>) {
    && k <= |list| == |open0| && it == |AfterBatch(list[..k], r)|
    && current == AfterBatch(list[..k], r) + list[k..]
    && batch == BatchOf(list[..k], r)
    && open == OpenAfter(list[..k], open0[..k], r) + open0[k..]
    && closed == closed0 + ClosedBy(list[..k], open0[..k], r)
  }

  lemma HalfwayBegins(list: seq<NackInfo>, open0: seq<Listing>, closed0: seq<Listing>, r: Round)
    requires |open0| == |list|
    ensures Halfway(list, open0, closed0, 0, r, list, 0, [], open0, closed0)
  {
  }

  lemma HalfwayEnds(list: seq<NackInfo>, open0: seq<Listing>, closed0: seq<Listing>, k: nat, r: Round,
                    current: seq<NackInfo>, it: nat, batch: seq<uint16>, open: seq<Listing>, closed: seq<Listing>)
    requires Halfway(list, open0, closed0, k, r, current, it, batch, open, closed) && k == |list|
    ensures current == AfterBatch(list, r) && batch == BatchOf(list, r)
    ensures open == OpenAfter(list, open0, r) && closed == closed0 + ClosedBy(list, open0, r)
  {
    assert list[..k] == list && open0[..k] == open0;
  }

  lemma HalfwayStep(list: seq<NackInfo>, open0: seq<Listing>, closed0: seq<Listing>, k: nat, r: Round,
                    current: seq<NackInfo>, it: nat, batch: seq<uint16>, open: seq<Listing>, closed: seq<Listing>)
    requires Halfway(list, open0, closed0, k, r, current, it, batch, open, closed) && k < |list|
    ensures it < |current| == |open| && current[it] == list[k] && open[it] == open0[k]
    ensures var info, l, asked := current[it], Requested(open[it], r), batch + [current[it].seqNum];
            && (!Due(info, r) ==> Halfway(list, open0, closed0, k + 1, r, current, it + 1, batch, open, closed))
            && (Due(info, r) && Last(info) ==>
                  Halfway(list, open0, closed0, k + 1, r, current[..it] + current[it + 1..], it, asked,
                          open[..it] + open[it + 1..], closed + [l]))
            && (Due(info, r) && !Last(info) ==>
                  Halfway(list, open0, closed0, k + 1, r, current[it := Sent(info, r)], it + 1, asked,
                          open[it := l], closed))
  {
    hide Due, Sent, Last, Requested;
    assert list[..k + 1][..k] == list[..k] && open0[..k + 1][..k] == open0[..k];
    Splice(AfterBatch(list[..k], r), list[k..], Sent(list[k], r));
    Splice(OpenAfter(list[..k], open0[..k], r), open0[k..], Requested(open0[k], r));
  }

  lemma Splice<T>(front: seq<T>, back: seq<T>, x: T)
    requires back != []
    ensures (front + back)[|front|] == back[0]
    ensures (front + back)[..|front|] + (front + back)[|front| + 1..] == front + back[1..]
    ensures (front + back)[|front| := x] == front + [x] + back[1..]
    ensures front + back == front + [back[0]] + back[1..]
  {
  }

  /** Every batch is in circular order, so a NACK packet carries it unchanged. */
  lemma {:induction false} BatchInOrder(list: seq<NackInfo>, r: Round)
    requires InOrder(list, r.newest)
    ensures var batch := BatchOf(list, r);
            && CircularlyIncreasing(batch)
            && UnpackAll(Pack(batch)) == batch
            && forall i :: 0 <= i < |batch| ==> batch[i] in Keys(list)
  {
    hide SeqNumGT, ToUint16, Due, Pack, UnpackAll;
    var batch := BatchOf(list, r);
    if list != [] {
      var n := |list| - 1;
      BatchInOrder(list[..n], r);
      var front := BatchOf(list[..n], r);
      forall i | 0 <= i < |front|
        ensures batch[i] in Keys(list) && SeqNumGT(list[n].seqNum, batch[i])
      {
        var k :| 0 <= k < n && Keys(list[..n])[k] == front[i];
        assert Keys(list)[k] == batch[i];
        OlderIsLess(r.newest, list[k].seqNum, list[n].seqNum);
      }
      assert Keys(list)[n] == list[n].seqNum;
    }
    PackKeepsOrderedLists(batch);
  }

  // ---------------------------------------------------------------------
  // Changes that keep the list in order.

  lemma InOrderFrom(list: seq<NackInfo>, newest: uint16, n: nat)
    requires InOrder(list, newest) && n <= |list|
    ensures InOrder(list[n..], newest)
  {
  }

  lemma InOrderWithout(list: seq<NackInfo>, newest: uint16, n: nat)
    requires InOrder(list, newest) && n < |list|
    ensures InOrder(list[..n] + list[n + 1..], newest)
  {
  }

  lemma InOrderWith(list: seq<NackInfo>, newest: uint16, n: nat, info: NackInfo)
    requires InOrder(list, newest) && n < |list| && info.seqNum == list[n].seqNum
    ensures InOrder(list[n := info], newest)
  {
  }

  /** With the new packet less than 2^15 ahead: the first `aged` entries are exactly
      those beyond the age limit, and the list without the first `dropped` is in
      order behind it. */
  ghost predicate AgeCut(list: seq<NackInfo>, newest: uint16, end: uint16, aged: nat, dropped: nat) {
    Behind(end, newest) < HALF ==>
      && dropped <= |list|
      && InOrder(list[dropped..], end) && AllBehind(list[dropped..], end, Behind(end, newest))
      && forall i :: 0 <= i < |list| ==> (i < aged <==> Behind(end, list[i].seqNum) > MAX_PACKET_AGE)
  }

  /** What a search for the age limit cuts off. */
  lemma AgedOut(list: seq<NackInfo>, newest: uint16, end: uint16, n: nat)
    requires InOrder(list, newest) && SeqNumGT(end, newest) && n <= |list|
    requires var key := ToUint16(end - MAX_PACKET_AGE);
             Partitioned(Keys(list), key) ==>
               && (forall i :: 0 <= i < n ==> SeqNumGT(key, Keys(list)[i]))
               && (forall i :: n <= i < |list| ==> !SeqNumGT(key, Keys(list)[i]))
    ensures AgeCut(list, newest, end, n, n)
  {
    hide SeqNumGT, ToUint16, Partitioned;
    if Behind(end, newest) < HALF {
      AgeLimitCuts(list, newest, end);
    }
  }

  /** Further entries may be dropped. */
  lemma CutMore(list: seq<NackInfo>, newest: uint16, end: uint16, aged: nat, dropped: nat)
    requires AgeCut(list, newest, end, aged, aged) && aged <= dropped <= |list|
    ensures AgeCut(list, newest, end, aged, dropped)
  {
    hide ToUint16;
    assert list[dropped..] == list[aged..][dropped - aged..];
  }

  ghost predicate AllBehind(list: seq<NackInfo>, newest: uint16, least: int) {
    forall i :: 0 <= i < |list| ==> Behind(newest, list[i].seqNum) > least
  }

  // ---------------------------------------------------------------------
  // What keyframes allow to drop.

  /** How many entries in front are older than the key. */
  function OlderThan(list: seq<NackInfo>, key: uint16): (n: nat)
    ensures n <= |list|
  {
    if list == [] || !SeqNumGT(key, list[0].seqNum) then 0 else 1 + OlderThan(list[1..], key)
  }

  /** A search for the key in this list is determined. */
  predicate Determined(list: seq<NackInfo>, key: uint16) {
    Partitioned(Keys(list), key)
  }

  lemma {:induction false} SearchFindsOlder(list: seq<NackInfo>, key: uint16, n: nat)
    requires n <= |list|
    requires forall i :: 0 <= i < n ==> SeqNumGT(key, Keys(list)[i])
    requires forall i :: n <= i < |list| ==> !SeqNumGT(key, Keys(list)[i])
    ensures OlderThan(list, key) == n
  {
    hide SeqNumGT;
    if n > 0 {
      assert Keys(list)[0] == list[0].seqNum;
      assert forall i :: 0 <= i < |list| - 1 ==> Keys(list[1..])[i] == Keys(list)[i + 1];
      SearchFindsOlder(list[1..], key, n - 1);
    } else if list != [] {
      assert Keys(list)[0] == list[0].seqNum;
    }
  }

  /** Dropping entries leaves a search determined, and what it finds in its place. */
  lemma {:induction false} OlderBehind(list: seq<NackInfo>, key: uint16, d: nat)
    requires d <= |list| && Determined(list, key)
    ensures Determined(list[d..], key)
    ensures OlderThan(list[d..], key) == if OlderThan(list, key) <= d then 0 else OlderThan(list, key) - d
  {
    hide SeqNumGT;
    assert forall i :: 0 <= i < |list| - d ==> Keys(list[d..])[i] == Keys(list)[i + d];
    if d > 0 {
      assert list[1..][d - 1..] == list[d..];
      assert forall i :: 0 <= i < |list| - 1 ==> Keys(list[1..])[i] == Keys(list)[i + 1];
      OlderBehind(list[1..], key, d - 1);
      if !SeqNumGT(key, list[0].seqNum) {
        assert Keys(list)[0] == list[0].seqNum;
        assert d < |list| ==> Keys(list)[d] == list[d].seqNum && !SeqNumGT(key, Keys(list)[d]);
      }
    } else {
      assert list[0..] == list;
    }
  }

  /** Dropping what is older than the key would not make the room. */
  ghost predicate NoHelp(list: seq<NackInfo>, key: uint16, n: nat) {
    Determined(list, key) ==> |list| - OlderThan(list, key) + n > MAX_NACK_PACKETS
  }

  /** How keyframes make room for n entries, if there is none: the first that helps
      is kept, as first of the keyframes left, and everything older than it goes;
      those in front of it, which do not help, are forgotten. Without one that
      helps none is left. */
  ghost predicate KeyCut(list: seq<NackInfo>, keys: seq<uint16>, n: nat, after: seq<NackInfo>, left: seq<uint16>) {
    && |left| <= |keys| && left == keys[|keys| - |left|..]
    && (|list| + n <= MAX_NACK_PACKETS ==> after == list && left == keys)
    && (forall j :: 0 <= j < |keys| - |left| ==> NoHelp(list, keys[j], n))
    && (|list| + n > MAX_NACK_PACKETS && |after| + n <= MAX_NACK_PACKETS ==>
          left != [] && (Determined(list, left[0]) ==> after == list[OlderThan(list, left[0])..]))
    && (|after| + n > MAX_NACK_PACKETS ==> left == [])
  }

  /** A keyframe is asked for if and only if there is no room and no keyframe could
      have made it, as far as searches are determined. */
  lemma AsksExactlyIfNoneHelps(list: seq<NackInfo>, keys: seq<uint16>, n: nat, after: seq<NackInfo>, left: seq<uint16>)
    requires KeyCut(list, keys, n, after, left)
    requires forall k :: k in keys ==> Determined(list, k)
    ensures |after| + n > MAX_NACK_PACKETS <==>
            && |list| + n > MAX_NACK_PACKETS
            && forall k :: k in keys ==> |list| - OlderThan(list, k) + n > MAX_NACK_PACKETS
  {
    hide Determined, OlderThan;
    if |after| + n <= MAX_NACK_PACKETS && |list| + n > MAX_NACK_PACKETS {
      assert left[0] in keys;
    }
    forall k | |after| + n > MAX_NACK_PACKETS && k in keys ensures NoHelp(list, k, n) {
      var j :| 0 <= j < |keys| && keys[j] == k;
    }
  }

  /** In a list in order every search is determined but for keys that are 22768 to
      32767 ahead of the newest packet. */
  lemma SearchIsDetermined(list: seq<NackInfo>, newest: uint16, key: uint16)
    requires InOrder(list, newest)
    requires !(HALF - MAX_PACKET_AGE <= ToUint16(key - newest) < HALF)
    ensures Determined(list, key)
  {
    hide SeqNumGT;
    forall i, j | 0 <= i < j < |list| && SeqNumGT(key, Keys(list)[j]) ensures SeqNumGT(key, Keys(list)[i]) {
      NewerThanOlder(newest, key, list[i].seqNum, list[j].seqNum);
    }
  }

  lemma NewerThanOlder(newest: uint16, key: uint16, older: uint16, newer: uint16)
    requires 1 <= Behind(newest, newer) < Behind(newest, older) <= MAX_PACKET_AGE
    requires !(HALF - MAX_PACKET_AGE <= ToUint16(key - newest) < HALF) && SeqNumGT(key, newer)
    ensures SeqNumGT(key, older)
  {
  }

  /** Keyframes tried so far: the first i do not help. */
  ghost predicate Tried(list: seq<NackInfo>, keys: seq<uint16>, i: nat, n: nat, left: seq<uint16>) {
    i <= |keys| && left == keys[i..] && forall j :: 0 <= j < i ==> NoHelp(list, keys[j], n)
  }

  /** The keyframe in front of the others was used: everything older than it is gone. */
  ghost predicate Used(list: seq<NackInfo>, dropped: nat, left: seq<uint16>) {
    left != [] && (Determined(list, left[0]) ==> dropped == OlderThan(list, left[0]))
  }

  lemma UsedNow(list: seq<NackInfo>, dropped: nat, left: seq<uint16>, count: nat)
    requires left != [] && count > 0 && dropped + count <= |list|
    requires Determined(list[dropped..], left[0]) ==> count == OlderThan(list[dropped..], left[0])
    ensures Used(list, dropped + count, left)
  {
    hide Determined, OlderThan;
    if Determined(list, left[0]) {
      OlderBehind(list, left[0], dropped);
    }
  }

  lemma CutDone(list: seq<NackInfo>, keys: seq<uint16>, i: nat, n: nat, left: seq<uint16>, dropped: nat)
    requires Tried(list, keys, i, n, left) && dropped <= |list|
    requires |list| + n <= MAX_NACK_PACKETS ==> dropped == 0 && i == 0
    requires dropped > 0 && |list| - dropped + n <= MAX_NACK_PACKETS ==> Used(list, dropped, left)
    requires |list| - dropped + n > MAX_NACK_PACKETS ==> left == []
    ensures KeyCut(list, keys, n, list[dropped..], left)
  {
    hide Determined, OlderThan, NoHelp;
    assert list[0..] == list && keys[0..] == keys;
  }

  lemma NoneTried(list: seq<NackInfo>, keys: seq<uint16>, n: nat)
    ensures Tried(list, keys, 0, n, keys)
  {
    assert keys[0..] == keys;
  }

  /** One search for a keyframe that helps, on what is left of the list. */
  lemma TriedMore(list: seq<NackInfo>, keys: seq<uint16>, i: nat, n: nat, left: seq<uint16>, dropped: nat,
                  skipped: nat, now: seq<uint16>)
    requires Tried(list, keys, i, n, left) && dropped <= |list| && |list| - dropped + n > MAX_NACK_PACKETS
    requires skipped <= |left| && now == left[skipped..]
    requires forall j :: 0 <= j < skipped && Determined(list[dropped..], left[j]) ==>
               OlderThan(list[dropped..], left[j]) == 0
    ensures Tried(list, keys, i + skipped, n, now)
  {
    hide Determined, OlderThan;
    forall j | i <= j < i + skipped ensures NoHelp(list, keys[j], n) {
      assert keys[j] == left[j - i];
      if Determined(list, keys[j]) {
        OlderBehind(list, keys[j], dropped);
      }
    }
  }

  /** An entry newer than the whole list goes behind it. */
  lemma InOrderPlus(list: seq<NackInfo>, newest: uint16, info: NackInfo)
    requires InOrder(list, newest) && 1 <= Behind(newest, info.seqNum) <= MAX_PACKET_AGE
    requires AllBehind(list, newest, Behind(newest, info.seqNum))
    ensures InOrder(list + [info], newest)
    ensures AllBehind(list + [info], newest, Behind(newest, info.seqNum) - 1)
    ensures Partitioned(Keys(list), info.seqNum)
    ensures forall i :: 0 <= i < |list| ==> SeqNumGT(info.seqNum, Keys(list)[i])
  {
    hide SeqNumGT, ToUint16;
    forall i | 0 <= i < |list| ensures SeqNumGT(info.seqNum, list[i].seqNum) {
      OlderIsLess(newest, list[i].seqNum, info.seqNum);
    }
  }

  /** The entries made for the `count` numbers from `start` on: one for each, in
      order, but for those recovered. */
  ghost predicate GapListed(added: seq<NackInfo>, start: uint16, count: nat, recovered: seq<uint16>, time: int) {
    if count == 0 then added == []
    else
      var s, last := ToUint16(start + count - 1), |added| - 1;
      || (s in recovered && GapListed(added, start, count - 1, recovered, time))
      || (&& (Sorted(recovered) ==> s !in recovered)
          && added != [] && added[last] == NackInfo(s, s, time, -1, 0)
          && GapListed(added[..last], start, count - 1, recovered, time))
  }

  /** New entries have made no request yet. */
  ghost function Unasked(added: seq<NackInfo>): seq<Listing> {
    seq(|added|, i requires 0 <= i < |added| => Listing(added[i].seqNum, added[i].createdAtTime, []))
  }

  lemma UnaskedMore(added: seq<NackInfo>, info: NackInfo)
    ensures Unasked(added + [info]) == Unasked(added) + [Listing(info.seqNum, info.createdAtTime, [])]
  {
  }

  lemma NothingListed(start: uint16, recovered: seq<uint16>, time: int, open: seq<Listing>)
    ensures GapListed([], start, 0, recovered, time) && open + Unasked([]) == open
    ensures ToUint16(start + 0) == start
  {
  }

  lemma GapMore(added: seq<NackInfo>, start: uint16, k: nat, recovered: seq<uint16>, time: int)
    requires GapListed(added, start, k, recovered, time)
    ensures var s := ToUint16(start + k);
            && (s in recovered ==> GapListed(added, start, k + 1, recovered, time))
            && ((Sorted(recovered) ==> s !in recovered) ==>
                  GapListed(added + [NackInfo(s, s, time, -1, 0)], start, k + 1, recovered, time))
  {
    hide Sorted;
    var s := ToUint16(start + k);
    assert (added + [NackInfo(s, s, time, -1, 0)])[..|added|] == added;
  }

  lemma SuffixOfSuffix<T>(s: seq<T>, a: nat, b: nat)
    requires a + b <= |s|
    ensures s[a..][b..] == s[a + b..]
  {
  }

  /** What a newer packet does to the list: entries beyond the age limit go, further
      ones only as a keyframe allows and only if there is no room, the skipped
      packets are added, and then one batch is taken; or, if even that makes no
      room, the list is cleared and a keyframe asked for. `keys` are the keyframes
      noted, `left` those that stay. */
  ghost predicate Advanced(before: seq<NackInfo>, after: seq<NackInfo>, keys: seq<uint16>, left: seq<uint16>,
                           requested: seq<uint16>, keyFrame: bool, newest: uint16, recovered: seq<uint16>, time: int,
                           r: Round, aged: nat, dropped: nat, added: seq<NackInfo>) {
    var missing := Behind(r.newest, newest) - 1;
    && missing >= 0 && aged <= dropped <= |before|
    && (missing + 1 < HALF ==>
          forall i :: 0 <= i < |before| ==> (i < aged <==> Behind(r.newest, before[i].seqNum) > MAX_PACKET_AGE))
    && KeyCut(before[aged..], keys, missing, before[dropped..], left)
    && (keyFrame <==> |before| - dropped + missing > MAX_NACK_PACKETS)
    && (keyFrame ==> after == [] && requested == [])
    && (!keyFrame ==>
          && GapListed(added, ToUint16(newest + 1), missing, recovered, time)
          && requested == BatchOf(before[dropped..] + added, r)
          && after == AfterBatch(before[dropped..] + added, r))
  }

  /** And to the histories: those of dropped entries are closed as they are, new
      entries start empty, and the batch is entered; nothing else changes. */
  ghost predicate Logged(before: seq<NackInfo>, open: seq<Listing>, closed: seq<Listing>, keyFrame: bool, r: Round,
                         dropped: nat, added: seq<NackInfo>, newOpen: seq<Listing>, newClosed: seq<Listing>) {
    if keyFrame then newOpen == [] && newClosed == closed + open
    else
      && |open| == |before| && dropped <= |before|
      && var list, listings := before[dropped..] + added, open[dropped..] + Unasked(added);
         && newOpen == OpenAfter(list, listings, r)
         && newClosed == closed + open[..dropped] + ClosedBy(list, listings, r)
  }

  /** The first n histories are closed as they are. */
  ghost predicate Closes(open: seq<Listing>, closed: seq<Listing>, n: nat,
                         newOpen: seq<Listing>, newClosed: seq<Listing>) {
    n <= |open| && newOpen == open[n..] && newClosed == closed + open[..n]
  }

  lemma ClosesNone(open: seq<Listing>, closed: seq<Listing>)
    ensures Closes(open, closed, 0, open, closed)
  {
  }

  lemma ClosesTwice(o1: seq<Listing>, c1: seq<Listing>, n: nat, o2: seq<Listing>, c2: seq<Listing>, m: nat,
                    o3: seq<Listing>, c3: seq<Listing>)
    requires Closes(o1, c1, n, o2, c2) && Closes(o2, c2, m, o3, c3)
    ensures Closes(o1, c1, n + m, o3, c3)
  {
    assert o1[..n + m] == o1[..n] + o1[n..][..m];
  }

  /** A prefix is gone, of exactly what is older than the key if the search for it is
      determined. */
  ghost predicate CutBelow(before: seq<uint16>, after: seq<uint16>, key: uint16) {
    && |after| <= |before| && after == before[|before| - |after|..]
    && (Partitioned(before, key) ==> forall k :: k in after <==> k in before && !SeqNumGT(key, k))
  }

  /** `all` is what was noted before and now; of it, what is beyond the age limit is
      forgotten, as far as the search is determined. */
  ghost predicate NotedAs(before: seq<uint16>, all: seq<uint16>, after: seq<uint16>, s: uint16, add: bool) {
    && (forall k :: k in all <==> k in before || (add && k == s))
    && CutBelow(all, after, ToUint16(s - MAX_PACKET_AGE))
  }

  ghost predicate Noted(before: seq<uint16>, after: seq<uint16>, s: uint16, add: bool) {
    exists all :: NotedAs(before, all, after, s, add)
  }

  lemma SplitsThere(all: seq<uint16>, limit: uint16, n: nat)
    requires n <= |all|
    requires forall i :: 0 <= i < n ==> SeqNumGT(limit, all[i])
    requires forall i :: n <= i < |all| ==> !SeqNumGT(limit, all[i])
    ensures forall k :: k in all[n..] <==> k in all && !SeqNumGT(limit, k)
  {
    hide SeqNumGT;
  }

  /** A packet just noted is kept. */
  lemma JustNotedStays(before: seq<uint16>, all: seq<uint16>, after: seq<uint16>, s: uint16)
    requires NotedAs(before, all, after, s, true) && Partitioned(all, ToUint16(s - MAX_PACKET_AGE))
    ensures s in after
  {
    CircularOrder(s - MAX_PACKET_AGE, s);
  }

  class NackRequester {
    var nackList: seq<NackInfo>
    var keyframeList: seq<uint16>
    var recoveredList: seq<uint16>
    var initialized: bool
    var rttMs: int
    var newestSeqNum: uint16

    /** The history of the entries now in the list, one for one, and of those that
        have left it. */
    ghost var open: seq<Listing>
    ghost var closed: seq<Listing>

    ghost predicate Valid()
      reads this
    {
      && InOrder(nackList, newestSeqNum)
      && |nackList| <= MAX_NACK_PACKETS
      && (!initialized ==> nackList == [])
      && Pacing()
    }

    ghost predicate Pacing()
      reads this
    {
      Tracked(nackList, open) && AllPaced(closed)
    }

    constructor ()
      ensures Valid() && !initialized && nackList == [] && closed == []
    {
      nackList, keyframeList, recoveredList := [], [], [];
      initialized, rttMs, newestSeqNum := false, DEFAULT_RTT_MS, 0;
      open, closed := [], [];
    }

    /** The pacing promise, for every listing ever made, in or out of the list: at most
        10 requests, the first at least 10 ms after the listing was made, each other
        at least the round-trip time then in force after the one before. */
    lemma AllListingsPaced(l: Listing)
      requires Valid() && l in open + closed
      ensures |l.requests| <= MAX_NACK_RETRIES
      ensures l.requests != [] ==> l.requests[0].time >= l.createdAtTime + SEND_NACK_DELAY_MS
      ensures forall i :: 0 < i < |l.requests| ==> l.requests[i].time >= l.requests[i - 1].time + l.requests[i].rtt
    {
      var i :| 0 <= i < |open + closed| && (open + closed)[i] == l;
      if i < |open| {
        RecordsPaced(nackList[i], l);
      } else {
        assert Paced(closed[i - |open|]);
      }
    }

    lemma OneHistoryEach()
      requires Pacing()
      ensures |open| == |nackList|
    {
    }

    ghost function CurrentRound(filter: NackFilter, now: int): Round
      reads this
    {
      Round(filter, now, rttMs, newestSeqNum)
    }

    method UpdateRtt(rttMs: int)
      requires Valid()
      modifies this`rttMs
      ensures Valid() && this.rttMs == rttMs
    {
      this.rttMs := rttMs;
    }

    /** Drops the n oldest entries. */
    method DropFirst(n: nat)
      requires n <= |nackList| && Pacing()
      modifies this`nackList, this`open, this`closed
      ensures nackList == old(nackList)[n..] && Pacing()
      ensures Closes(old(open), old(closed), n, open, closed)
    {
      nackList := nackList[n..];
      closed := closed + open[..n];
      open := open[n..];
    }

    method Remove(n: nat)
      requires n < |nackList| && Pacing()
      modifies this`nackList, this`open, this`closed
      ensures nackList == old(nackList)[..n] + old(nackList)[n + 1..] && Pacing()
      ensures open == old(open)[..n] + old(open)[n + 1..] && closed == old(closed) + [old(open)[n]]
    {
      nackList := nackList[..n] + nackList[n + 1..];
      closed := closed + [open[n]];
      open := open[..n] + open[n + 1..];
    }

    /** Asks for every entry that is due, once, and drops those that used up their
        retries; the batch is in circular order. Exactly the requests made are
        entered in the histories. */
    method GetNackBatch(filter: NackFilter, now: int) returns (batch: seq<uint16>)
      requires Valid() && now >= 0
      modifies this`nackList, this`open, this`closed
      ensures Valid()
      ensures var r := CurrentRound(filter, now);
              && batch == BatchOf(old(nackList), r)
              && nackList == AfterBatch(old(nackList), r)
              && open == OpenAfter(old(nackList), old(open), r)
              && closed == old(closed) + ClosedBy(old(nackList), old(open), r)
      ensures CircularlyIncreasing(batch) && UnpackAll(Pack(batch)) == batch
    {
      hide Due, Sent, Requested, Last, Tracked, AllPaced, InOrder, BatchOf, AfterBatch, OpenAfter, ClosedBy, Halfway;
      hide CircularlyIncreasing, Pack, UnpackAll, ToUint16, Pacing;
      ghost var list, open0, closed0, k := nackList, open, closed, 0;
      var r := Round(filter, now, rttMs, newestSeqNum);
      BatchInOrder(list, r);
      OneHistoryEach();
      HalfwayBegins(list, open0, closed0, r);
      batch := [];
      var it := 0;
      while it < |nackList|
        invariant 0 <= it <= |nackList| && it <= k && |nackList| - it == |list| - k
        invariant Halfway(list, open0, closed0, k, r, nackList, it, batch, open, closed)
        invariant InOrder(nackList, newestSeqNum) && Pacing()
        decreases |list| - k
      {
        it, batch := Visit(list, open0, closed0, k, r, it, batch);
        k := k + 1;
      }
      HalfwayEnds(list, open0, closed0, k, r, nackList, it, batch, open, closed);
    }

    /** One turn of the loop: entry `it` is asked for if it is due. */
    method Visit(ghost list: seq<NackInfo>, ghost open0: seq<Listing>, ghost closed0: seq<Listing>, ghost k: nat,
                 r: Round, it: nat, batch: seq<uint16>)
      returns (next: nat, asked: seq<uint16>)
      requires InOrder(nackList, newestSeqNum) && Pacing() && r.now >= 0 && it < |nackList|
      requires Halfway(list, open0, closed0, k, r, nackList, it, batch, open, closed)
      requires k < |list| && |nackList| - it == |list| - k
      modifies this`nackList, this`open, this`closed
      ensures InOrder(nackList, newestSeqNum) && Pacing()
      ensures Halfway(list, open0, closed0, k + 1, r, nackList, next, asked, open, closed)
      ensures next <= |nackList| && next <= it + 1 && |nackList| - next == |list| - (k + 1)
    {
      hide Due, Sent, Requested, Last, Halfway, InOrder, Pacing, ToUint16;
      OneHistoryEach();
      HalfwayStep(list, open0, closed0, k, r, nackList, it, batch, open, closed);
      next, asked := it + 1, batch;
      if Due(nackList[it], r) {
        asked := batch + [nackList[it].seqNum];
        var done := AskFor(it, r);
        if done {
          next := it;
        }
      }
    }

    /** Counts one request for an entry that is due, and drops it after the last. */
    method AskFor(it: nat, r: Round) returns (done: bool)
      requires it < |nackList| == |open| && InOrder(nackList, newestSeqNum) && Pacing() && r.now >= 0
      requires Due(nackList[it], r)
      modifies this`nackList, this`open, this`closed
      ensures InOrder(nackList, newestSeqNum) && Pacing()
      ensures done == Last(old(nackList)[it])
      ensures nackList == if done then old(nackList)[..it] + old(nackList)[it + 1..]
                          else old(nackList)[it := Sent(old(nackList)[it], r)]
      ensures open == if done then old(open)[..it] + old(open)[it + 1..]
                      else old(open)[it := Requested(old(open)[it], r)]
      ensures closed == if done then old(closed) + [Requested(old(open)[it], r)] else old(closed)
    {
      hide Due, ToUint16, Records;
      RequestKeepsPace(nackList[it], open[it], r);
      InOrderWith(nackList, newestSeqNum, it, Sent(nackList[it], r));
      InOrderWithout(nackList, newestSeqNum, it);
      ghost var l := Requested(open[it], r);
      assert Paced(l) by { RecordsPaced(Sent(nackList[it], r), l); }
      done := Last(nackList[it]);
      if done {
        nackList := nackList[..it] + nackList[it + 1..];
        closed := closed + [l];
        open := open[..it] + open[it + 1..];
      } else {
        nackList := nackList[it := Sent(nackList[it], r)];
        open := open[it := l];
      }
    }

    method OnTimerTimeout(now: int) returns (requested: seq<uint16>)
      requires Valid() && now >= 0
      modifies this`nackList, this`open, this`closed
      ensures Valid() && UnpackAll(Pack(requested)) == requested
      ensures var r := CurrentRound(TimeOnly, now);
              && requested == BatchOf(old(nackList), r)
              && nackList == AfterBatch(old(nackList), r)
              && open == OpenAfter(old(nackList), old(open), r)
              && closed == old(closed) + ClosedBy(old(nackList), old(open), r)
      ensures forall i :: 0 <= i < |nackList| ==>
                now - nackList[i].createdAtTime < 10 || nackList[i].sentAtTime == now
                || now - nackList[i].sentAtTime < rttMs
    {
      hide BatchOf, AfterBatch, OpenAfter, ClosedBy, Tracked, AllPaced, InOrder, Pack, UnpackAll;
      NothingDueIsLeft(nackList, CurrentRound(TimeOnly, now));
      requested := GetNackBatch(TimeOnly, now);
    }

    /** Drops whatever is older than seqNum, which may be any number. */
    method ClearUpTo(seqNum: uint16) returns (ghost dropped: nat)
      requires Valid()
      modifies this`nackList, this`keyframeList, this`recoveredList, this`open, this`closed
      ensures Valid() && dropped <= |old(nackList)| && nackList == old(nackList)[dropped..]
      ensures Closes(old(open), old(closed), dropped, open, closed)
      ensures Partitioned(Keys(old(nackList)), seqNum) ==>
                forall i :: 0 <= i < |old(nackList)| ==> (i < dropped <==> SeqNumGT(seqNum, old(nackList)[i].seqNum))
      ensures CutBelow(old(keyframeList), keyframeList, seqNum) && CutBelow(old(recoveredList), recoveredList, seqNum)
    {
      hide Tracked, AllPaced, SeqNumGT, Partitioned, InOrder, Closes, CutBelow;
      var n := LowerBound(Keys(nackList), seqNum);
      dropped := n;
      InOrderFrom(nackList, newestSeqNum, n);
      DropFirst(n);
      keyframeList := DropBelow(keyframeList, seqNum);
      recoveredList := DropBelow(recoveredList, seqNum);
    }

    /** Drops entries up to the first keyframe that is newer than one, and the
        keyframes before it; false when there is no such keyframe. */
    method RemovePacketsUntilKeyFrame() returns (removed: bool, ghost skipped: nat)
      requires Pacing()
      modifies this`nackList, this`keyframeList, this`open, this`closed
      ensures Pacing() && |nackList| <= |old(nackList)|
      ensures Closes(old(open), old(closed), |old(nackList)| - |nackList|, open, closed)
      ensures skipped <= |old(keyframeList)| && keyframeList == old(keyframeList)[skipped..]
      ensures forall j :: 0 <= j < skipped && Determined(old(nackList), old(keyframeList)[j]) ==>
                OlderThan(old(nackList), old(keyframeList)[j]) == 0
      ensures removed <==> keyframeList != []
      ensures !removed ==> nackList == old(nackList)
      ensures removed ==>
                && |nackList| < |old(nackList)| && nackList == old(nackList)[|old(nackList)| - |nackList|..]
                && (Determined(old(nackList), keyframeList[0]) ==>
                      && |old(nackList)| - |nackList| == OlderThan(old(nackList), keyframeList[0])
                      && (forall i :: 0 <= i < |old(nackList)| - |nackList| ==>
                            SeqNumGT(keyframeList[0], old(nackList)[i].seqNum))
                      && (forall i :: 0 <= i < |nackList| ==> !SeqNumGT(keyframeList[0], nackList[i].seqNum)))
    {
      hide Tracked, AllPaced, SeqNumGT, Partitioned, Closes, OlderThan;
      ClosesNone(open, closed);
      skipped := 0;
      while keyframeList != []
        invariant nackList == old(nackList) && Pacing() && open == old(open) && closed == old(closed)
        invariant skipped <= |old(keyframeList)| && keyframeList == old(keyframeList)[skipped..]
        invariant forall j :: 0 <= j < skipped && Determined(old(nackList), old(keyframeList)[j]) ==>
                    OlderThan(old(nackList), old(keyframeList)[j]) == 0
        decreases |keyframeList|
      {
        var n := LowerBound(Keys(nackList), keyframeList[0]);
        if Determined(nackList, keyframeList[0]) {
          SearchFindsOlder(nackList, keyframeList[0], n);
        }
        if n != 0 {
          DropFirst(n);
          return true, skipped;
        }
        keyframeList := keyframeList[1..];
        skipped := skipped + 1;
      }
      return false, skipped;
    }

    method ShrinkToKeyFrames(newNacks: uint16) returns (ghost dropped: nat)
      requires Pacing()
      modifies this`nackList, this`keyframeList, this`open, this`closed
      ensures Pacing() && Closes(old(open), old(closed), dropped, open, closed)
      ensures dropped <= |old(nackList)| && nackList == old(nackList)[dropped..]
      ensures KeyCut(old(nackList), old(keyframeList), newNacks, nackList, keyframeList)
    {
      hide Tracked, AllPaced, SeqNumGT, Determined, OlderThan, Closes, KeyCut, Tried, Used;
      ghost var tried := 0;
      dropped := 0;
      ClosesNone(open, closed);
      NoneTried(nackList, keyframeList, newNacks);
      var removed := true;
      while removed && |nackList| + newNacks > MAX_NACK_PACKETS
        invariant dropped <= |old(nackList)| && nackList == old(nackList)[dropped..]
        invariant Pacing() && Closes(old(open), old(closed), dropped, open, closed)
        invariant Tried(old(nackList), old(keyframeList), tried, newNacks, keyframeList)
        invariant |old(nackList)| + newNacks <= MAX_NACK_PACKETS ==> dropped == 0 && tried == 0
        invariant removed && dropped > 0 ==> Used(old(nackList), dropped, keyframeList)
        invariant !removed ==> keyframeList == [] && |nackList| + newNacks > MAX_NACK_PACKETS
        decreases |nackList|, removed
      {
        ghost var list, keys, o, c, skipped := nackList, keyframeList, open, closed, 0;
        removed, skipped := RemovePacketsUntilKeyFrame();
        ghost var n := |list| - |nackList|;
        TriedMore(old(nackList), old(keyframeList), tried, newNacks, keys, dropped, skipped, keyframeList);
        SuffixOfSuffix(old(nackList), dropped, n);
        ClosesTwice(old(open), old(closed), dropped, o, c, n, open, closed);
        if removed {
          UsedNow(old(nackList), dropped, keyframeList, n);
        }
        dropped, tried := dropped + n, tried + skipped;
      }
      CutDone(old(nackList), old(keyframeList), tried, newNacks, keyframeList, dropped);
    }

    /** Makes room: drops what is too old and then, while the list with the new
        entries would be too long, what older keyframes allow. */
    method Shrink(end: uint16, newNacks: uint16) returns (ghost aged: nat, ghost dropped: nat)
      requires Valid() && SeqNumGT(end, newestSeqNum)
      modifies this`nackList, this`keyframeList, this`open, this`closed
      ensures Pacing() && Closes(old(open), old(closed), dropped, open, closed)
      ensures aged <= dropped <= |old(nackList)| && nackList == old(nackList)[dropped..]
      ensures AgeCut(old(nackList), newestSeqNum, end, aged, dropped)
      ensures KeyCut(old(nackList)[aged..], old(keyframeList), newNacks, nackList, keyframeList)
    {
      hide Tracked, AllPaced, SeqNumGT, ToUint16, Partitioned, InOrder, AgeCut, Closes, Keys, KeyCut;
      var it := LowerBound(Keys(nackList), ToUint16(end - MAX_PACKET_AGE));
      AgedOut(nackList, newestSeqNum, end, it);
      aged := it;
      DropFirst(it);
      ghost var o, c := open, closed;
      ghost var more := ShrinkToKeyFrames(newNacks);
      dropped := aged + more;
      SuffixOfSuffix(old(nackList), aged, more);
      ClosesTwice(old(open), old(closed), aged, o, c, more, open, closed);
      CutMore(old(nackList), newestSeqNum, end, aged, dropped);
    }

    /** Lists one missing packet that is newer than the whole list. */
    method List(s: uint16, time: int, ghost end: uint16)
      requires InOrder(nackList, end) && Pacing()
      requires 1 <= Behind(end, s) <= MAX_PACKET_AGE && AllBehind(nackList, end, Behind(end, s))
      modifies this`nackList, this`open
      ensures nackList == old(nackList) + [NackInfo(s, s, time, -1, 0)]
      ensures open == old(open) + [Listing(s, time, [])]
      ensures InOrder(nackList, end) && Pacing() && AllBehind(nackList, end, Behind(end, s) - 1)
    {
      hide InOrder, AllBehind, SeqNumGT, Partitioned, ToUint16;
      var info := NackInfo(s, s, time, -1, 0);
      InOrderPlus(nackList, end, info);
      var n := LowerBound(Keys(nackList), s);
      nackList := nackList[..n] + [info] + nackList[n..];
      open := open[..n] + [Listing(s, time, [])] + open[n..];
    }

    method ListGap(start: uint16, end: uint16, time: int) returns (ghost added: seq<NackInfo>)
      requires InOrder(nackList, end) && Pacing()
      requires ToUint16(end - start) <= MAX_NACK_PACKETS && AllBehind(nackList, end, ToUint16(end - start))
      modifies this`nackList, this`open
      ensures InOrder(nackList, end) && Pacing()
      ensures nackList == old(nackList) + added && |added| <= ToUint16(end - start)
      ensures open == old(open) + Unasked(added)
      ensures GapListed(added, start, ToUint16(end - start), recoveredList, time)
    {
      hide InOrder, Tracked, AllPaced, AllBehind, Sorted, GapListed, ToUint16, Behind, Unasked;
      var s := start;
      ghost var k, count := 0, ToUint16(end - start);
      added := [];
      GapCounts(start, end, 0);
      NothingListed(start, recoveredList, time, open);
      while s != end
        invariant k <= count && s == ToUint16(start + k) && (s == end <==> k == count)
        invariant InOrder(nackList, end) && Pacing() && AllBehind(nackList, end, count - k)
        invariant nackList == old(nackList) + added && |added| <= k && open == old(open) + Unasked(added)
        invariant GapListed(added, start, k, recoveredList, time)
        decreases count - k
      {
        GapCounts(start, end, k);
        GapCounts(start, end, k + 1);
        GapMore(added, start, k, recoveredList, time);
        var recovered, _ := Find(recoveredList, s);
        if recovered {
          assert AllBehind(nackList, end, count - k - 1) by { AllBehindLess(nackList, end, count - k); }
        } else {
          List(s, time, end);
          UnaskedMore(added, NackInfo(s, s, time, -1, 0));
          added := added + [NackInfo(s, s, time, -1, 0)];
        }
        k := k + 1;
        s := ToUint16((s as int) + 1);
      }
    }

    /** Lists the packets missing in front of `end`. If even the shortened list has
        no room for them, everything is dropped and a keyframe is asked for. */
    method AddPacketsToNack(start: uint16, end: uint16, time: int)
      returns (keyFrame: bool, ghost aged: nat, ghost dropped: nat, ghost added: seq<NackInfo>)
      requires Valid() && SeqNumGT(end, newestSeqNum) && start == ToUint16(newestSeqNum + 1)
      modifies this`nackList, this`keyframeList, this`open, this`closed
      ensures InOrder(nackList, end) && |nackList| <= MAX_NACK_PACKETS && Pacing()
      ensures aged <= dropped <= |old(nackList)| == |old(open)|
      ensures if keyFrame then open == [] && closed == old(closed) + old(open)
              else open == old(open)[dropped..] + Unasked(added) && closed == old(closed) + old(open)[..dropped]
      ensures KeyCut(old(nackList)[aged..], old(keyframeList), ToUint16(end - start), old(nackList)[dropped..],
                     keyframeList)
      ensures keyFrame <==> |old(nackList)| - dropped + ToUint16(end - start) > MAX_NACK_PACKETS
      ensures Behind(end, newestSeqNum) < HALF ==>
                forall i :: 0 <= i < |old(nackList)| ==>
                  (i < aged <==> Behind(end, old(nackList)[i].seqNum) > MAX_PACKET_AGE)
      ensures keyFrame ==> nackList == []
      ensures !keyFrame ==>
                && nackList == old(nackList)[dropped..] + added
                && GapListed(added, start, ToUint16(end - start), recoveredList, time)
    {
      hide AllPaced, AllBehind, GapListed, Records, KeyCut;
      var numNewNacks := ToUint16(end - start);
      GapLength(newestSeqNum, end);
      added := [];
      keyFrame := false;
      aged, dropped := Shrink(end, numNewNacks);
      if |nackList| + numNewNacks > MAX_NACK_PACKETS {
        ghost var o, c := open, closed;
        DropFirst(|nackList|);
        ClosesTwice(old(open), old(closed), dropped, o, c, |o|, open, closed);
        assert old(open)[..|old(open)|] == old(open);
        return true, aged, dropped, added;
      }
      assert AllBehind(nackList, end, numNewNacks) by { AllBehindLess(nackList, end, numNewNacks + 1); }
      added := ListGap(start, end, time);
    }

    /** Erases up to the lower bound. */
    method DropBelow(list: seq<uint16>, key: uint16) returns (r: seq<uint16>)
      ensures CutBelow(list, r, key)
    {
      hide SeqNumGT, Partitioned;
      var n := LowerBound(list, key);
      r := list[n..];
      if Partitioned(list, key) {
        SplitsThere(list, key, n);
      }
    }

    /** Notes a packet, if asked to, and forgets those beyond the age limit. */
    method Note(list: seq<uint16>, seqNum: uint16, add: bool) returns (r: seq<uint16>)
      ensures Noted(list, r, seqNum, add)
    {
      hide SeqNumGT, ToUint16, Sorted, CutBelow;
      var all := list;
      if add {
        all := Insert(list, seqNum);
      }
      var limit := ToUint16(seqNum - MAX_PACKET_AGE);
      r := DropBelow(all, limit);
      assert NotedAs(list, all, r, seqNum, add);
    }

    /** An out-of-order packet is not missing any more. */
    method TakeOff(seqNum: uint16) returns (nacksSent: int)
      requires Valid()
      modifies this`nackList, this`open, this`closed
      ensures Valid() && |old(open)| == |old(nackList)|
      ensures forall i :: 0 <= i < |old(nackList)| && old(nackList)[i].seqNum == seqNum ==>
                && nackList == old(nackList)[..i] + old(nackList)[i + 1..] && nacksSent == old(nackList)[i].retries
                && open == old(open)[..i] + old(open)[i + 1..] && closed == old(closed) + [old(open)[i]]
      ensures seqNum !in Keys(old(nackList)) ==>
                nackList == old(nackList) && open == old(open) && closed == old(closed) && nacksSent == 0
      ensures seqNum !in Keys(nackList)
    {
      hide Tracked, AllPaced, SeqNumGT, ToUint16, Sorted;
      TrackedLength(nackList, open);
      nacksSent := 0;
      ghost var list := nackList;
      InOrderIsSorted(list, newestSeqNum);
      var found, n := Find(Keys(nackList), seqNum);
      assert forall i :: 0 <= i < |list| ==> Keys(list)[i] == list[i].seqNum;
      if found {
        nacksSent := nackList[n].retries;
        InOrderWithout(nackList, newestSeqNum, n);
        Remove(n);
      }
    }

    /** A packet that is newer and was not recovered: the packets it skips get
        listed, and the first requests that are due are made. */
    method Advance(seqNum: uint16, time: int, now: int)
      returns (requested: seq<uint16>, keyFrame: bool, ghost aged: nat, ghost dropped: nat, ghost added: seq<NackInfo>)
      requires Valid() && initialized && SeqNumGT(seqNum, newestSeqNum) && now >= 0
      modifies this`nackList, this`keyframeList, this`open, this`closed, this`newestSeqNum
      ensures Valid() && newestSeqNum == seqNum
      ensures UnpackAll(Pack(requested)) == requested
      ensures var r := CurrentRound(SeqNumOnly, now);
              && Advanced(old(nackList), nackList, old(keyframeList), keyframeList, requested, keyFrame,
                          old(newestSeqNum), recoveredList, time, r, aged, dropped, added)
              && Logged(old(nackList), old(open), old(closed), keyFrame, r, dropped, added, open, closed)
    {
      hide Tracked, AllPaced, InOrder, GapListed, BatchOf, AfterBatch, OpenAfter, ClosedBy, Pack, UnpackAll, KeyCut;
      GapLength(newestSeqNum, seqNum);
      keyFrame, aged, dropped, added := AddPacketsToNack(ToUint16((newestSeqNum as int) + 1), seqNum, time);
      newestSeqNum := seqNum;
      NothingAsked(CurrentRound(SeqNumOnly, now));
      requested := GetNackBatch(SeqNumOnly, now);
    }

    /** `time` and `now` are the clock readings for new entries and for requests. */
    method OnReceivedPacket(seqNum: uint16, isKeyframe: bool, isRecovered: bool, time: int, now: int)
      returns (nacksSent: int, requested: seq<uint16>, keyFrame: bool, ghost noted: seq<uint16>, ghost aged: nat,
               ghost dropped: nat, ghost added: seq<NackInfo>)
      requires Valid() && now >= 0
      modifies this
      ensures Valid() && initialized && rttMs == old(rttMs) && |old(open)| == |old(nackList)|
      ensures UnpackAll(Pack(requested)) == requested
      ensures newestSeqNum == if !old(initialized) || (SeqNumGT(seqNum, old(newestSeqNum)) && !isRecovered)
                              then seqNum else old(newestSeqNum)
      ensures !old(initialized) ==>
                forall k :: k in keyframeList <==> k in old(keyframeList) || (isKeyframe && k == seqNum)
      ensures old(initialized) && SeqNumGT(seqNum, old(newestSeqNum)) ==>
                && Noted(old(keyframeList), noted, seqNum, isKeyframe)
                && (isRecovered ==> keyframeList == noted)
      ensures if old(initialized) && SeqNumGT(seqNum, old(newestSeqNum)) && isRecovered
              then Noted(old(recoveredList), recoveredList, seqNum, true) else recoveredList == old(recoveredList)
      ensures old(initialized) && !SeqNumGT(seqNum, old(newestSeqNum)) ==> keyframeList == old(keyframeList)
      ensures seqNum !in Keys(nackList)
      ensures newestSeqNum == old(newestSeqNum) || !old(initialized) ==> requested == [] && !keyFrame
      ensures newestSeqNum != old(newestSeqNum) && old(initialized) ==>
                var r := CurrentRound(SeqNumOnly, now);
                && nacksSent == 0
                && Advanced(old(nackList), nackList, noted, keyframeList, requested, keyFrame, old(newestSeqNum),
                            recoveredList, time, r, aged, dropped, added)
                && Logged(old(nackList), old(open), old(closed), keyFrame, r, dropped, added, open, closed)
      ensures (newestSeqNum == old(newestSeqNum) || !old(initialized)) && seqNum !in Keys(old(nackList)) ==>
                nackList == old(nackList) && open == old(open) && closed == old(closed) && nacksSent == 0
      ensures forall i :: 0 <= i < |old(nackList)| && old(nackList)[i].seqNum == seqNum ==>
                && nackList == old(nackList)[..i] + old(nackList)[i + 1..] && nacksSent == old(nackList)[i].retries
                && open == old(open)[..i] + old(open)[i + 1..] && closed == old(closed) + [old(open)[i]]
    {
      hide Tracked, AllPaced, SeqNumGT, Advanced, Logged, Noted;
      TrackedLength(nackList, open);
      nacksSent, requested, keyFrame, noted, aged, dropped, added := 0, [], false, [], 0, 0, [];
      NeverListed(nackList, newestSeqNum, seqNum);
      if !initialized {
        newestSeqNum := seqNum;
        if isKeyframe {
          keyframeList := Insert(keyframeList, seqNum);
        }
        initialized := true;
        return;
      }
      AntisymmetricAt(newestSeqNum, seqNum);
      if seqNum == newestSeqNum {
        return;
      }
      if SeqNumGT(newestSeqNum, seqNum) {
        nacksSent := TakeOff(seqNum);
        return;
      }
      keyframeList := Note(keyframeList, seqNum, isKeyframe);
      noted := keyframeList;
      if isRecovered {
        recoveredList := Note(recoveredList, seqNum, true);
        return;
      }
      requested, keyFrame, aged, dropped, added := Advance(seqNum, time, now);
      NeverListed(nackList, newestSeqNum, seqNum);
    }
  }

  /** Neither the newest packet nor a later one is ever listed. */
  lemma NeverListed(list: seq<NackInfo>, newest: uint16, s: uint16)
    requires InOrder(list, newest)
    ensures newest !in Keys(list)
    ensures SeqNumGT(s, newest) ==> s !in Keys(list)
  {
    forall i | 0 <= i < |list| && SeqNumGT(s, newest) ensures list[i].seqNum != s {
    }
  }

  lemma AllBehindLess(list: seq<NackInfo>, newest: uint16, least: int)
    requires AllBehind(list, newest, least)
    ensures AllBehind(list, newest, least - 1)
  {
  }

  lemma GapLength(newest: uint16, end: uint16)
    requires SeqNumGT(end, newest)
    ensures ToUint16(end - ToUint16(newest + 1)) == Behind(end, newest) - 1
    ensures Behind(end, newest) <= HALF
  {
  }

  /** Counting up from start, the k-th number is as far behind end as is left. */
  lemma GapCounts(start: uint16, end: uint16, k: nat)
    ensures var s := ToUint16(start + k);
            && (k <= ToUint16(end - start) ==>
                  Behind(end, s) == ToUint16(end - start) - k && (s == end <==> k == ToUint16(end - start)))
            && ToUint16(start + (k + 1)) == ToUint16((s as int) + 1)
  {
  }

  lemma TrackedLength(list: seq<NackInfo>, open: seq<Listing>)
    requires Tracked(list, open)
    ensures |open| == |list|
  {
  }

  lemma RecordsPaced(info: NackInfo, l: Listing)
    requires Records(info, l)
    ensures Paced(l)
  {
  }
}
