/** The NACK packet and its bytes (NackPacket in src/rtp_rtcp/rtcp_packet.cpp). */
module NackPacketMessage {
  import opened SequenceNumber
  import opened ByteBuffer
  import opened RtcpCommon
  import opened NackPacking

  const SIZE_MODULUS := 0x1_0000_0000_0000_0000

  ghost function ItemBytes(items: seq<PackedNack>): (r: seq<uint8>)
    ensures |r| == 4 * |items|
  {
    if items == [] then []
    else
      var item := items[|items| - 1];
      ItemBytes(items[..|items| - 1]) + Bytes16(item.firstPid) + Bytes16(item.bitmask)
  }

  /** The n entries that stand at the given offset. */
  ghost function ItemsAt(s: seq<uint8>, at: nat, n: nat): (r: seq<PackedNack>)
    requires at + 4 * n <= |s|
    ensures |r| == n
  {
    if n == 0 then []
    else ItemsAt(s, at, n - 1) + [PackedNack(Load16(s, at + 4 * n - 4), Load16(s, at + 4 * n - 2))]
  }

  lemma {:induction false} ItemsRoundTrip(s: seq<uint8>, at: nat, items: seq<PackedNack>)
    requires at + 4 * |items| <= |s| && s[at..at + 4 * |items|] == ItemBytes(items)
    ensures ItemsAt(s, at, |items|) == items
  {
    hide Bytes16, Load16;
    if items != [] {
      var n := |items| - 1;
      var item := items[n];
      LastItem(s, at, ItemBytes(items[..n]), item);
      ItemsRoundTrip(s, at, items[..n]);
      assert items == items[..n] + [item];
    }
  }

  lemma LastItem(s: seq<uint8>, at: nat, front: seq<uint8>, item: PackedNack)
    requires at + |front| + 4 <= |s|
    requires s[at..at + |front| + 4] == front + Bytes16(item.firstPid) + Bytes16(item.bitmask)
    ensures s[at..at + |front|] == front
    ensures Load16(s, at + |front|) == item.firstPid && Load16(s, at + |front| + 2) == item.bitmask
  {
    hide Bytes16, Load16;
    var pid, blp, end := Bytes16(item.firstPid), Bytes16(item.bitmask), at + |front|;
    SliceSplits(s, at, front + pid, blp);
    SliceSplits(s, at, front, pid);
    Stored16(s, end, item.firstPid);
    Stored16(s, end + 2, item.bitmask);
  }

  /** How many entries a header of this length announces. The subtraction is done
      in size_t: a length below 2 announces more entries than any buffer holds. */
  function Announced(length: uint16): nat {
    (4 * length - 8) % SIZE_MODULUS / 4
  }

  lemma NoItems(s: seq<uint8>, at: nat)
    requires at <= |s|
    ensures UnpackAll(ItemsAt(s, at, 0)) == []
  {
  }

  lemma OneMoreRead(s: seq<uint8>, at: nat, n: nat)
    requires at + 4 * n + 4 <= |s|
    ensures UnpackAll(ItemsAt(s, at, n + 1)) ==
            UnpackAll(ItemsAt(s, at, n)) + Unpack(PackedNack(Load16(s, at + 4 * n), Load16(s, at + 4 * n + 2)))
  {
    hide Load16, Unpack;
    var items := ItemsAt(s, at, n + 1);
    assert items[..n] == ItemsAt(s, at, n);
  }

  method ReadItem(reader: ByteReader) returns (ok: bool, pid: uint16, blp: uint16)
    requires reader.Valid()
    modifies reader
    ensures reader.Valid() && ok == (4 <= old(reader.Left()))
    ensures ok ==>
              && reader.start == old(reader.start) + 4
              && pid == Load16(reader.bytes, old(reader.start)) && blp == Load16(reader.bytes, old(reader.start) + 2)
  {
    hide Load16, Bytes16;
    ghost var at := reader.start;
    blp := 0;
    ok, pid := reader.ReadUInt16();
    if !ok {
      return;
    }
    Stored16(reader.bytes, at, pid);
    ok, blp := reader.ReadUInt16();
    if ok {
      Stored16(reader.bytes, at + 2, blp);
    }
  }

  lemma Rest(list: seq<uint16>, it: nat)
    requires it < |list|
    ensures list[it..][0] == list[it] && list[it..][1..] == list[it + 1..]
  {
  }

  lemma EntryDone(packed: seq<PackedNack>, pid: uint16, bitmask: uint16, rest: seq<uint16>)
    requires rest == [] || Shift(rest[0], pid) > 15
    ensures packed + PackFrom(pid, bitmask, rest) == packed + [PackedNack(pid, bitmask)] + Pack(rest)
  {
  }

  class NackPacket {
    var header: CommonHeader
    var senderSsrc: uint32
    var mediaSsrc: uint32
    var packetLostSequenceNumbers: seq<uint16>

    constructor ()
      ensures packetLostSequenceNumbers == []
    {
      header := CommonHeader(0, 0, 0, 0, 0);
      senderSsrc, mediaSsrc, packetLostSequenceNumbers := 0, 0, [];
    }

    /** The two nested loops that make the entries. */
    method MakeEntries() returns (packed: seq<PackedNack>)
      ensures packed == Pack(packetLostSequenceNumbers)
    {
      hide ToUint16, WithBit, Shift;
      var list := packetLostSequenceNumbers;
      packed := [];
      var it := 0;
      while it < |list|
        invariant 0 <= it <= |list|
        invariant packed + Pack(list[it..]) == Pack(list)
      {
        var firstPid: uint16, bitmask: uint16 := list[it], 0;
        Rest(list, it);
        it := it + 1;
        while it < |list|
          invariant 0 < it <= |list|
          invariant packed + PackFrom(firstPid, bitmask, list[it..]) == Pack(list)
        {
          Rest(list, it);
          var shift := Shift(list[it], firstPid);
          if shift > 15 {
            break;
          }
          bitmask := WithBit(bitmask, shift);
          it := it + 1;
        }
        EntryDone(packed, firstPid, bitmask, list[it..]);
        packed := packed + [PackedNack(firstPid, bitmask)];
      }
    }

    function WireHeader(entries: nat): CommonHeader {
      CommonHeader(FORMAT_NACK, 0, VERSION, RTPFB, ToUint16(entries + 2))
    }

    /** Reports failure only when the fixed part does not fit; entries that do not
        fit any more are silently cut off. */
    method Serialize(w: ByteWriter) returns (ok: bool)
      requires w.Valid()
      modifies this`header, w, w.bytes
      ensures w.Valid() && ok == (12 <= old(w.Left()))
      ensures var items := Pack(packetLostSequenceNumbers);
              var front := HeaderBytes(WireHeader(|items|)) + Bytes32(senderSsrc) + Bytes32(mediaSsrc);
              ok ==>
                && old(w.Written()) + front <= w.Written() <= old(w.Written()) + front + ItemBytes(items)
                && (12 + 4 * |items| <= old(w.Left()) ==> w.Written() == old(w.Written()) + front + ItemBytes(items))
      ensures !ok ==>
                && old(w.Written()) <= w.Written()
                && w.Written() <= old(w.Written()) + (HeaderBytes(header) + Bytes32(senderSsrc) + Bytes32(mediaSsrc))
      ensures var entries := |Pack(packetLostSequenceNumbers)|;
              12 + 4 * entries <= old(w.Left()) && entries + 2 < SPAN ==>
                && |w.Written()| >= |old(w.Written())|
                && Tells(w.Written()[|old(w.Written())|..], senderSsrc, mediaSsrc, packetLostSequenceNumbers)
    {
      hide HeaderBytes, Bytes32, ItemBytes, Pack, Tells;
      var packed := MakeEntries();
      header := WireHeader(|packed|);
      ok := WriteCommonFeedback(w, header, senderSsrc, mediaSsrc);
      if ok {
        WriteItems(w, packed);
      }
      if 12 + 4 * |packed| <= old(w.Left()) && |packed| + 2 < SPAN {
        WireTells(packetLostSequenceNumbers, WireHeader(|packed|), senderSsrc, mediaSsrc,
                  w.Written()[|old(w.Written())|..]);
      }
    }

    /** Appends the numbers named by the announced entries. */
    method Parse(reader: ByteReader) returns (ok: bool)
      requires reader.Valid()
      modifies this, reader
      ensures reader.Valid()
      ensures var at := old(reader.start);
              ok <==> 12 <= old(reader.Left())
                      && 12 + 4 * Announced(HeaderAt(reader.bytes, at).length) <= old(reader.Left())
      ensures ok ==>
                var at := old(reader.start);
                var n := Announced(HeaderAt(reader.bytes, at).length);
                && header == HeaderAt(reader.bytes, at)
                && senderSsrc == Load32(reader.bytes, at + 4) && mediaSsrc == Load32(reader.bytes, at + 8)
                && packetLostSequenceNumbers ==
                   old(packetLostSequenceNumbers) + UnpackAll(ItemsAt(reader.bytes, at + 12, n))
                && reader.start == at + 12 + 4 * n
    {
      hide HeaderAt, Load32, UnpackAll, ItemsAt;
      var h, sender, media;
      ok, h := ParseCommonHeader(reader);
      if !ok {
        return;
      }
      header := h;
      ok, sender, media := ParseCommonFeedback(reader);
      if !ok {
        return;
      }
      senderSsrc, mediaSsrc := sender, media;
      ok := ParseItems(reader, Announced(header.length));
    }

    method ParseItems(reader: ByteReader, nackItems: nat) returns (ok: bool)
      requires reader.Valid()
      modifies this`packetLostSequenceNumbers, reader
      ensures reader.Valid() && (ok <==> 4 * nackItems <= old(reader.Left()))
      ensures ok ==>
                && packetLostSequenceNumbers ==
                   old(packetLostSequenceNumbers) + UnpackAll(ItemsAt(reader.bytes, old(reader.start), nackItems))
                && reader.start == old(reader.start) + 4 * nackItems
    {
      hide UnpackAll, ItemsAt;
      ghost var at := reader.start;
      var index := 0;
      NoItems(reader.bytes, at);
      while index < nackItems
        invariant 0 <= index <= nackItems && reader.Valid() && reader.start == at + 4 * index
        invariant packetLostSequenceNumbers ==
                  old(packetLostSequenceNumbers) + UnpackAll(ItemsAt(reader.bytes, at, index))
      {
        var read, pid, blp := ReadItem(reader);
        if !read {
          return false;
        }
        OneMoreRead(reader.bytes, at, index);
        AppendItem(pid, blp);
        index := index + 1;
      }
      return true;
    }

    /** The PID and then, shifting the bitmask out, the numbers of its set bits. */
    method AppendItem(pid: uint16, blp: uint16)
      modifies this`packetLostSequenceNumbers
      ensures packetLostSequenceNumbers == old(packetLostSequenceNumbers) + Unpack(PackedNack(pid, blp))
    {
      packetLostSequenceNumbers := packetLostSequenceNumbers + [pid];
      var next: uint16, bitmask: nat := ToUint16(pid + 1), blp;
      while bitmask != 0
        invariant packetLostSequenceNumbers + UnpackBits(next, bitmask) ==
                  old(packetLostSequenceNumbers) + Unpack(PackedNack(pid, blp))
      {
        if bitmask % 2 == 1 {
          packetLostSequenceNumbers := packetLostSequenceNumbers + [next];
        }
        bitmask, next := bitmask / 2, ToUint16((next as int) + 1);
      }
    }
  }

  function OneItem(item: PackedNack): (r: seq<uint8>)
    ensures |r| == 4
  {
    Bytes16(item.firstPid) + Bytes16(item.bitmask)
  }

  lemma OneMoreItem(items: seq<PackedNack>, i: nat)
    requires i < |items|
    ensures ItemBytes(items[..i + 1]) == ItemBytes(items[..i]) + OneItem(items[i])
  {
    hide Bytes16;
    assert items[..i + 1][..i] == items[..i];
  }

  lemma ItemPrefixes(items: seq<PackedNack>)
    ensures ItemBytes(items[..0]) == [] && items[..|items|] == items
  {
  }

  /** One entry, as far as it fits. */
  method WriteItem(w: ByteWriter, item: PackedNack)
    requires w.Valid()
    modifies w, w.bytes
    ensures w.Valid()
    ensures old(w.Left()) >= 4 ==> w.Written() == old(w.Written()) + OneItem(item) && w.Left() == old(w.Left()) - 4
    ensures old(w.Left()) < 4 ==>
              w.Left() < 2 && old(w.Written()) <= w.Written() <= old(w.Written()) + OneItem(item)
    ensures old(w.Left()) < 2 ==> w.Written() == old(w.Written())
  {
    hide Bytes16;
    var _ := w.WriteUInt16(item.firstPid);
    var _ := w.WriteUInt16(item.bitmask);
  }

  method WriteItems(w: ByteWriter, items: seq<PackedNack>)
    requires w.Valid()
    modifies w, w.bytes
    ensures w.Valid() && old(w.Written()) <= w.Written() <= old(w.Written()) + ItemBytes(items)
    ensures 4 * |items| <= old(w.Left()) ==> w.Written() == old(w.Written()) + ItemBytes(items)
  {
    hide ItemBytes, OneItem;
    var i := 0;
    ItemPrefixes(items);
    while i < |items|
      invariant 0 <= i <= |items| && w.Valid()
      invariant old(w.Written()) <= w.Written() <= old(w.Written()) + ItemBytes(items[..i])
      invariant 4 * i <= old(w.Left()) ==>
                  w.Written() == old(w.Written()) + ItemBytes(items[..i]) && w.Left() == old(w.Left()) - 4 * i
      invariant 4 * i > old(w.Left()) ==> w.Left() < 2
    {
      OneMoreItem(items, i);
      WriteItem(w, items[i]);
      i := i + 1;
    }
  }

  lemma ItemsBack(bytes: seq<uint8>, header: CommonHeader, items: seq<PackedNack>)
    requires |bytes| == 12 + 4 * |items| && header.length == |items| + 2
    requires bytes[0..4] == HeaderBytes(header) && bytes[12..12 + 4 * |items|] == ItemBytes(items)
    ensures HeaderAt(bytes, 0) == header
    ensures Announced(header.length) == |items| && ItemsAt(bytes, 12, |items|) == items
  {
    hide HeaderBytes, HeaderAt, ItemsAt, ItemBytes;
    HeaderRoundTrip(bytes, 0, header);
    ItemsRoundTrip(bytes, 12, items);
  }

  /** A list that fits the length field comes back as the same set of numbers, and
      a list in circular order as the same list. */
  lemma WireRoundTrip(list: seq<uint16>, header: CommonHeader, senderSsrc: uint32, mediaSsrc: uint32, bytes: seq<uint8>)
    requires |Pack(list)| + 2 < SPAN && header == CommonHeader(FORMAT_NACK, 0, VERSION, RTPFB, |Pack(list)| + 2)
    requires bytes == HeaderBytes(header) + Bytes32(senderSsrc) + Bytes32(mediaSsrc) + ItemBytes(Pack(list))
    ensures HeaderAt(bytes, 0) == header
    ensures 12 + 4 * Announced(header.length) == |bytes|
    ensures var parsed := UnpackAll(ItemsAt(bytes, 12, Announced(header.length)));
            && (forall e: uint16 :: e in parsed <==> e in list)
            && (CircularlyIncreasing(list) ==> parsed == list)
  {
    hide HeaderBytes, Bytes32, HeaderAt, UnpackAll, Pack, ItemsAt, ItemBytes, CircularlyIncreasing;
    var items := Pack(list);
    var ssrcs := Bytes32(senderSsrc) + Bytes32(mediaSsrc);
    assert bytes == HeaderBytes(header) + (ssrcs + ItemBytes(items));
    assert bytes[0..4] == HeaderBytes(header);
    assert bytes == HeaderBytes(header) + ssrcs + ItemBytes(items);
    assert bytes[12..12 + 4 * |items|] == ItemBytes(items);
    ItemsBack(bytes, header, items);
    forall e: uint16 ensures e in UnpackAll(Pack(list)) <==> e in list {
      PackNamesTheSame(list, e);
    }
    if CircularlyIncreasing(list) {
      PackKeepsOrderedLists(list);
    }
  }

  /** What a NACK packet tells whoever reads its bytes: its kind, its own length, the
      two SSRCs, and exactly the numbers of the list, in order if the list is. */
  ghost predicate Tells(bytes: seq<uint8>, senderSsrc: uint32, mediaSsrc: uint32, list: seq<uint16>) {
    && |bytes| >= 12
    && var h := HeaderAt(bytes, 0);
       && h.version == 2 && h.padding == 0 && h.packetType == 205 && h.countOrFormat == 1
       && |bytes| == 4 + 4 * h.length == 12 + 4 * Announced(h.length)
       && Load32(bytes, 4) == senderSsrc && Load32(bytes, 8) == mediaSsrc
       && var parsed := UnpackAll(ItemsAt(bytes, 12, Announced(h.length)));
          && (forall e: uint16 :: e in parsed <==> e in list)
          && (CircularlyIncreasing(list) ==> parsed == list)
  }

  lemma WireTells(list: seq<uint16>, header: CommonHeader, senderSsrc: uint32, mediaSsrc: uint32, bytes: seq<uint8>)
    requires |Pack(list)| + 2 < SPAN && header == CommonHeader(FORMAT_NACK, 0, VERSION, RTPFB, |Pack(list)| + 2)
    requires bytes == HeaderBytes(header) + Bytes32(senderSsrc) + Bytes32(mediaSsrc) + ItemBytes(Pack(list))
    ensures Tells(bytes, senderSsrc, mediaSsrc, list)
  {
    hide HeaderBytes, Bytes32, HeaderAt, UnpackAll, Pack, ItemsAt, ItemBytes, CircularlyIncreasing, Load32;
    WireRoundTrip(list, header, senderSsrc, mediaSsrc, bytes);
    assert bytes[4..8] == Bytes32(senderSsrc) && bytes[8..12] == Bytes32(mediaSsrc);
    Stored32(bytes, 4, senderSsrc);
    Stored32(bytes, 8, mediaSsrc);
  }

  /** A length that leaves no room for the two SSRCs announces more entries than any
      buffer of less than 2^63 bytes holds, any other what is behind them. */
  lemma AnnouncedIsExact(length: uint16)
    ensures if length >= 2 then Announced(length) == length - 2 else 4 * Announced(length) >= SIZE_MODULUS / 2
  {
  }
}
