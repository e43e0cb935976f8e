/**
 RTP packets: where the payload lies, and the way of a packet through a
 retransmission stream and back, section 4 of RFC 4588
 (src/rtp_rtcp/rtp_packet.cpp, src/transport/subscribe_stream.cpp).
 */
module RtpPackets {
  import opened Wrappers
  import opened SequenceNumber
  import opened ByteBuffer

  const MIN_RTP_PACKET_LEN := 12
  const RTP_VERSION := 2
  const RTX_HEADER_SIZE := 2

  type bit7 = x: int | 0 <= x < 0x80

  /** What Parse finds. */
  datatype Layout = Layout(payloadOffset: nat, payloadSize: nat, paddingSize: nat,
                           payloadType: bit7, sequenceNumber: uint16, timestamp: uint32, ssrc: uint32)

  /** End of the fixed header, the contributing sources and the header extension. */
  function HeaderEnd(b: seq<uint8>): (end: Option<nat>)
    requires |b| >= MIN_RTP_PACKET_LEN
    ensures end.Some? ==> MIN_RTP_PACKET_LEN <= end.value <= |b|
  {
    var fixedEnd := MIN_RTP_PACKET_LEN + (b[0] as int) % 16 * 4;
    if |b| < fixedEnd then None
    else if b[0] / 16 % 2 == 0 then Some(fixedEnd)
    else if fixedEnd + 4 > |b| then None
    else
      var capacity := (Load16(b, fixedEnd + 2) as int) * 4;
      if fixedEnd + 4 + capacity > |b| then None else Some(fixedEnd + 4 + capacity)
  }

  function PaddingOf(b: seq<uint8>): (padding: Option<nat>)
    requires |b| >= MIN_RTP_PACKET_LEN
  {
    if b[0] / 32 % 2 == 0 then Some(0)
    else if b[|b| - 1] == 0 then None
    else Some(b[|b| - 1])
  }

  function Parsed(b: seq<uint8>): (r: Option<Layout>)
    ensures r.Some? ==>
              && MIN_RTP_PACKET_LEN <= r.value.payloadOffset
              && r.value.payloadOffset + r.value.payloadSize + r.value.paddingSize == |b|
  {
    if |b| < MIN_RTP_PACKET_LEN || b[0] / 64 != RTP_VERSION then None
    else if HeaderEnd(b).None? || PaddingOf(b).None? then None
    else
      var offset, padding := HeaderEnd(b).value, PaddingOf(b).value;
      if offset + padding > |b| then None
      else Some(Layout(offset, |b| - offset - padding, padding, b[1] % 0x80, Load16(b, 2), Load32(b, 4), Load32(b, 8)))
  }

  /** A header with another payload type, sequence number and source. */
  function Renumbered(h: seq<uint8>, payloadType: bit7, sequenceNumber: uint16, ssrc: uint32): (r: seq<uint8>)
    requires |h| >= MIN_RTP_PACKET_LEN
    ensures |r| == |h|
  {
    h[..1] + [(h[1] as int) / 0x80 * 0x80 + payloadType] + Bytes16(sequenceNumber) + h[4..8] + Bytes32(ssrc) + h[12..]
  }

  /** The retransmission packet: own numbers in the header, the original sequence
      number in front of the original payload. */
  function Wrapped(b: seq<uint8>, l: Layout, payloadType: bit7, sequenceNumber: uint16, ssrc: uint32): seq<uint8>
    requires Parsed(b) == Some(l)
  {
    Renumbered(b[..l.payloadOffset], payloadType, sequenceNumber, ssrc)
    + Bytes16(l.sequenceNumber)
    + b[l.payloadOffset..l.payloadOffset + l.payloadSize]
  }

  /** What RtxRepair makes of an unpadded packet. */
  function Repaired(b: seq<uint8>, l: Layout, payloadType: bit7, sequenceNumber: uint16, ssrc: uint32): seq<uint8>
    requires Parsed(b) == Some(l) && l.paddingSize == 0 && l.payloadSize >= RTX_HEADER_SIZE
  {
    Renumbered(b[..l.payloadOffset], payloadType, sequenceNumber, ssrc) + b[l.payloadOffset + RTX_HEADER_SIZE..]
  }

  lemma RenumberedAt(h: seq<uint8>, payloadType: bit7, sequenceNumber: uint16, ssrc: uint32)
    requires |h| >= MIN_RTP_PACKET_LEN
    ensures var r := Renumbered(h, payloadType, sequenceNumber, ssrc);
            && r[0] == h[0] && r[1] % 0x80 == payloadType && r[1] / 0x80 == h[1] / 0x80
            && r[2..4] == Bytes16(sequenceNumber) && r[4..8] == h[4..8]
            && r[8..12] == Bytes32(ssrc) && r[12..] == h[12..]
  {
    hide Bytes16, Bytes32;
  }

  /** Renumbering back gives the first header again. */
  lemma RenumberedBack(h: seq<uint8>, payloadType: bit7, sequenceNumber: uint16, ssrc: uint32)
    requires |h| >= MIN_RTP_PACKET_LEN
    ensures Renumbered(Renumbered(h, payloadType, sequenceNumber, ssrc),
                       (h[1] as int) % 0x80, Load16(h, 2), Load32(h, 8)) == h
  {
    hide Bytes16, Bytes32, Renumbered, Load16, Load32;
    var r := Renumbered(h, payloadType, sequenceNumber, ssrc);
    RenumberedAt(h, payloadType, sequenceNumber, ssrc);
    RenumberedAt(r, (h[1] as int) % 0x80, Load16(h, 2), Load32(h, 8));
    Loaded16(h, 2);
    Loaded32(h, 8);
    var back := Renumbered(r, (h[1] as int) % 0x80, Load16(h, 2), Load32(h, 8));
    assert back[1] == h[1];
    assert back == back[..1] + [back[1]] + back[2..4] + back[4..8] + back[8..12] + back[12..];
    assert h == h[..1] + [h[1]] + h[2..4] + h[4..8] + h[8..12] + h[12..];
  }

  /** A wrapped packet is laid out like the original, with two bytes more of payload. */
  lemma WrappedLayout(b: seq<uint8>, l: Layout, payloadType: bit7, sequenceNumber: uint16, ssrc: uint32)
    requires Parsed(b) == Some(l) && l.paddingSize == 0
    ensures Parsed(Wrapped(b, l, payloadType, sequenceNumber, ssrc)) ==
            Some(Layout(l.payloadOffset, l.payloadSize + RTX_HEADER_SIZE, 0,
                        payloadType, sequenceNumber, l.timestamp, ssrc))
  {
    hide Bytes16, Bytes32, Renumbered, Load16, Load32;
    var h, w := b[..l.payloadOffset], Wrapped(b, l, payloadType, sequenceNumber, ssrc);
    var r := Renumbered(h, payloadType, sequenceNumber, ssrc);
    RenumberedAt(h, payloadType, sequenceNumber, ssrc);
    assert w[..l.payloadOffset] == r;
    HeaderSame(b, w, r, l.payloadOffset);
    FixedFields(b, w, r, l.payloadOffset, sequenceNumber, ssrc);
  }

  /** A repaired packet is laid out like the retransmitted one, with two bytes less of
      payload. */
  lemma RepairedLayout(b: seq<uint8>, l: Layout, payloadType: bit7, sequenceNumber: uint16, ssrc: uint32)
    requires Parsed(b) == Some(l) && l.paddingSize == 0 && l.payloadSize >= RTX_HEADER_SIZE
    ensures Parsed(Repaired(b, l, payloadType, sequenceNumber, ssrc)) ==
            Some(Layout(l.payloadOffset, l.payloadSize - RTX_HEADER_SIZE, 0,
                        payloadType, sequenceNumber, l.timestamp, ssrc))
  {
    hide Bytes16, Bytes32, Renumbered, Load16, Load32;
    var h, w := b[..l.payloadOffset], Repaired(b, l, payloadType, sequenceNumber, ssrc);
    var r := Renumbered(h, payloadType, sequenceNumber, ssrc);
    RenumberedAt(h, payloadType, sequenceNumber, ssrc);
    assert w[..l.payloadOffset] == r;
    HeaderSame(b, w, r, l.payloadOffset);
    FixedFields(b, w, r, l.payloadOffset, sequenceNumber, ssrc);
  }

  /** The header end depends only on the header. */
  lemma HeaderSame(b: seq<uint8>, w: seq<uint8>, r: seq<uint8>, end: nat)
    requires |b| >= MIN_RTP_PACKET_LEN && HeaderEnd(b) == Some(end) && |w| >= |r| == end && w[..end] == r
    requires r[0] == b[0] && r[12..] == b[..end][12..]
    ensures HeaderEnd(w) == Some(end) && w[0] == b[0] && w[1] == r[1]
  {
    assert w[0] == r[0] && w[1] == r[1];
    var fixedEnd := MIN_RTP_PACKET_LEN + (b[0] as int) % 16 * 4;
    if b[0] / 16 % 2 == 1 {
      assert w[fixedEnd + 2] == r[12..][fixedEnd - 10] == b[fixedEnd + 2];
      assert w[fixedEnd + 3] == r[12..][fixedEnd - 9] == b[fixedEnd + 3];
    }
  }

  lemma FixedFields(b: seq<uint8>, w: seq<uint8>, r: seq<uint8>, end: nat, sequenceNumber: uint16, ssrc: uint32)
    requires 12 <= end <= |b| && |w| >= |r| == end && w[..end] == r
    requires r[2..4] == Bytes16(sequenceNumber) && r[4..8] == b[..end][4..8] && r[8..12] == Bytes32(ssrc)
    ensures Load16(w, 2) == sequenceNumber && Load32(w, 4) == Load32(b, 4) && Load32(w, 8) == ssrc
  {
    hide Bytes16, Bytes32;
    assert w[2..4] == r[2..4] && w[8..12] == r[8..12];
    Stored16(w, 2, sequenceNumber);
    Stored32(w, 8, ssrc);
    assert w[4..8] == r[4..8];
    assert b[4..8] == b[..end][4..8];
    assert forall i :: 4 <= i < 8 ==> w[i] == w[4..8][i - 4] && b[i] == b[4..8][i - 4];
  }

  /** Wrapping an unpadded packet for retransmission and repairing what is parsed on
      the other side, with the original's payload type and source and the number
      carried in front of the payload, gives the original bytes. */
  lemma RtxRoundTrip(b: seq<uint8>, l: Layout, payloadType: bit7, sequenceNumber: uint16, ssrc: uint32)
    requires Parsed(b) == Some(l) && l.paddingSize == 0
    ensures var w := Wrapped(b, l, payloadType, sequenceNumber, ssrc);
            && Parsed(w).Some? && Parsed(w).value.paddingSize == 0 && Parsed(w).value.payloadSize >= RTX_HEADER_SIZE
            && Parsed(w).value.payloadOffset == l.payloadOffset
            && Repaired(w, Parsed(w).value, l.payloadType, Load16(w, l.payloadOffset), l.ssrc) == b
  {
    hide Bytes16, Bytes32, Renumbered, Load16, Load32, HeaderEnd;
    var h, w := b[..l.payloadOffset], Wrapped(b, l, payloadType, sequenceNumber, ssrc);
    WrappedLayout(b, l, payloadType, sequenceNumber, ssrc);
    assert w[l.payloadOffset..l.payloadOffset + 2] == Bytes16(l.sequenceNumber);
    Stored16(w, l.payloadOffset, l.sequenceNumber);
    assert w[..l.payloadOffset] == Renumbered(h, payloadType, sequenceNumber, ssrc);
    HeadOf(b, h, l.payloadOffset);
    RenumberedBack(h, payloadType, sequenceNumber, ssrc);
    assert w[l.payloadOffset + 2..] == b[l.payloadOffset..];
    assert h + b[l.payloadOffset..] == b;
  }

  lemma HeadOf(b: seq<uint8>, h: seq<uint8>, end: nat)
    requires 12 <= end <= |b| && h == b[..end]
    ensures h[1] == b[1] && Load16(h, 2) == Load16(b, 2) && Load32(h, 8) == Load32(b, 8)
  {
  }

  lemma ParsedFills(b: seq<uint8>)
    ensures Parsed(b).Some? ==>
              && MIN_RTP_PACKET_LEN <= Parsed(b).value.payloadOffset
              && Parsed(b).value.payloadOffset + Parsed(b).value.payloadSize + Parsed(b).value.paddingSize == |b|
  {
  }

  // ---------------------------------------------------------------------
  // A packet put together, section 5.1 of RFC 3550.

  datatype Extension = Extension(profile: uint16, data: seq<uint8>)

  datatype Parts = Parts(marker: bool, payloadType: bit7, sequenceNumber: uint16, timestamp: uint32, ssrc: uint32,
                         csrcs: seq<uint32>, extension: Option<Extension>, payload: seq<uint8>, padding: seq<uint8>)

  /** At most 15 sources, an extension of whole words, and padding, if any, whose last
      byte is its length. */
  predicate Sendable(p: Parts) {
    && |p.csrcs| < 16
    && (p.padding != [] ==> p.padding[|p.padding| - 1] == |p.padding|)
    && (p.extension.Some? ==> |p.extension.value.data| % 4 == 0 && |p.extension.value.data| / 4 < SPAN)
  }

  function CsrcBytes(csrcs: seq<uint32>): (r: seq<uint8>)
    ensures |r| == 4 * |csrcs|
  {
    if csrcs == [] then [] else CsrcBytes(csrcs[..|csrcs| - 1]) + Bytes32(csrcs[|csrcs| - 1])
  }

  function ExtensionBytes(e: Option<Extension>): (r: seq<uint8>)
    requires e.Some? ==> |e.value.data| % 4 == 0 && |e.value.data| / 4 < SPAN
    ensures |r| == if e.Some? then 4 + |e.value.data| else 0
  {
    match e
    case None => []
    case Some(x) => Bytes16(x.profile) + Bytes16(|x.data| / 4) + x.data
  }

  function Front(p: Parts): (r: seq<uint8>)
    requires Sendable(p)
    ensures |r| == 12
  {
    [0x80 + (if p.padding != [] then 0x20 else 0) + (if p.extension.Some? then 0x10 else 0) + |p.csrcs|,
     (if p.marker then 0x80 else 0) + p.payloadType]
    + Bytes16(p.sequenceNumber) + Bytes32(p.timestamp) + Bytes32(p.ssrc)
  }

  function Assembled(p: Parts): seq<uint8>
    requires Sendable(p)
  {
    Front(p) + CsrcBytes(p.csrcs) + ExtensionBytes(p.extension) + p.payload + p.padding
  }

  /** Parsing finds the payload behind the sources and the extension, the padding
      behind the payload, and the fields of the header. */
  lemma AssembledParses(p: Parts)
    requires Sendable(p)
    ensures var b, offset := Assembled(p), 12 + 4 * |p.csrcs| + |ExtensionBytes(p.extension)|;
            && Parsed(b) == Some(Layout(offset, |p.payload|, |p.padding|, p.payloadType, p.sequenceNumber,
                                        p.timestamp, p.ssrc))
            && b[offset..offset + |p.payload|] == p.payload
  {
    hide Bytes16, Bytes32, Load16, Load32, CsrcBytes, ExtensionBytes, HeaderEnd, PaddingOf, Front;
    var b, tail := Assembled(p), CsrcBytes(p.csrcs) + ExtensionBytes(p.extension) + p.payload + p.padding;
    assert b == Front(p) + tail;
    FrontFields(b, p, tail);
    EndOfHeader(b, p);
    EndOfPacket(b, p);
  }

  lemma FrontFields(b: seq<uint8>, p: Parts, tail: seq<uint8>)
    requires Sendable(p) && b == Front(p) + tail
    ensures b[0] / 64 == RTP_VERSION && b[0] / 32 % 2 == (if p.padding != [] then 1 else 0)
    ensures b[0] / 16 % 2 == (if p.extension.Some? then 1 else 0) && (b[0] as int) % 16 == |p.csrcs|
    ensures b[1] % 0x80 == p.payloadType
    ensures Load16(b, 2) == p.sequenceNumber && Load32(b, 4) == p.timestamp && Load32(b, 8) == p.ssrc
  {
    hide Bytes16, Bytes32, Load16, Load32;
    assert b[2..4] == Bytes16(p.sequenceNumber) && b[4..8] == Bytes32(p.timestamp) && b[8..12] == Bytes32(p.ssrc);
    Stored16(b, 2, p.sequenceNumber);
    Stored32(b, 4, p.timestamp);
    Stored32(b, 8, p.ssrc);
  }

  lemma EndOfHeader(b: seq<uint8>, p: Parts)
    requires Sendable(p) && b == Assembled(p)
    requires b[0] / 16 % 2 == (if p.extension.Some? then 1 else 0) && (b[0] as int) % 16 == |p.csrcs|
    ensures HeaderEnd(b) == Some(12 + 4 * |p.csrcs| + |ExtensionBytes(p.extension)|)
  {
    hide Bytes16, Bytes32, Load16, CsrcBytes, Front;
    var fixedEnd := 12 + 4 * |p.csrcs|;
    if p.extension.Some? {
      var x := p.extension.value;
      var front := Front(p) + CsrcBytes(p.csrcs) + Bytes16(x.profile);
      assert b[fixedEnd + 2..fixedEnd + 4] == Bytes16(|x.data| / 4) by {
        assert b == front + Bytes16(|x.data| / 4) + (x.data + p.payload + p.padding);
      }
      Stored16(b, fixedEnd + 2, |x.data| / 4);
    }
  }

  lemma EndOfPacket(b: seq<uint8>, p: Parts)
    requires Sendable(p) && b == Assembled(p) && b[0] / 32 % 2 == (if p.padding != [] then 1 else 0)
    ensures PaddingOf(b) == Some(|p.padding|)
    ensures var offset := 12 + 4 * |p.csrcs| + |ExtensionBytes(p.extension)|;
            b[offset..offset + |p.payload|] == p.payload
  {
    hide CsrcBytes, ExtensionBytes, Front;
    if p.padding != [] {
      assert b[|b| - 1] == p.padding[|p.padding| - 1];
    }
  }

  ghost function CsrcsAt(b: seq<uint8>, n: nat): (r: seq<uint32>)
    requires 12 + 4 * n <= |b|
    ensures |r| == n
  {
    if n == 0 then [] else CsrcsAt(b, n - 1) + [Load32(b, 8 + 4 * n)]
  }

  /** The parts of a packet that parses. */
  ghost function PartsOf(b: seq<uint8>, l: Layout): Parts
    requires Parsed(b) == Some(l)
  {
    var n := (b[0] as int) % 16;
    var fixedEnd, end := 12 + 4 * n, l.payloadOffset + l.payloadSize;
    Parts(b[1] / 0x80 == 1, l.payloadType, l.sequenceNumber, l.timestamp, l.ssrc, CsrcsAt(b, n),
          if b[0] / 16 % 2 == 0 then None
          else Some(Extension(Load16(b, fixedEnd), b[fixedEnd + 4..l.payloadOffset])),
          b[l.payloadOffset..end], b[end..])
  }

  lemma {:induction false} CsrcsBack(b: seq<uint8>, n: nat)
    requires 12 + 4 * n <= |b|
    ensures CsrcBytes(CsrcsAt(b, n)) == b[12..12 + 4 * n]
  {
    hide Bytes32, Load32;
    if n > 0 {
      CsrcsBack(b, n - 1);
      Loaded32(b, 8 + 4 * n);
      assert CsrcsAt(b, n)[..n - 1] == CsrcsAt(b, n - 1);
      assert b[12..12 + 4 * n] == b[12..8 + 4 * n] + b[8 + 4 * n..12 + 4 * n];
    }
  }

  lemma PartsAreSendable(b: seq<uint8>, l: Layout)
    requires Parsed(b) == Some(l)
    ensures Sendable(PartsOf(b, l))
    ensures |PartsOf(b, l).padding| == l.paddingSize && (l.paddingSize > 0 <==> b[0] / 32 % 2 == 1)
  {
    hide Load16, Load32, CsrcsAt;
    if l.paddingSize > 0 {
      assert PartsOf(b, l).padding[l.paddingSize - 1] == b[|b| - 1];
    }
  }

  lemma FrontBack(b: seq<uint8>, l: Layout)
    requires Parsed(b) == Some(l)
    ensures Sendable(PartsOf(b, l)) && Front(PartsOf(b, l)) == b[..12]
  {
    hide Bytes16, Bytes32, Load16, Load32, HeaderEnd, CsrcsAt;
    PartsAreSendable(b, l);
    Loaded16(b, 2);
    Loaded32(b, 4);
    Loaded32(b, 8);
    FirstBytes(b, PartsOf(b, l));
    assert b[..12] == [b[0], b[1]] + b[2..4] + b[4..8] + b[8..12];
  }

  lemma FirstBytes(b: seq<uint8>, p: Parts)
    requires |b| >= 2 && b[0] / 64 == 2 && |p.csrcs| == (b[0] as int) % 16
    requires p.extension.Some? <==> b[0] / 16 % 2 == 1
    requires p.padding != [] <==> b[0] / 32 % 2 == 1
    requires p.marker <==> b[1] / 0x80 == 1
    requires p.payloadType == b[1] % 0x80
    ensures b[0] == 0x80 + (if p.padding != [] then 0x20 else 0) + (if p.extension.Some? then 0x10 else 0) + |p.csrcs|
    ensures b[1] == (if p.marker then 0x80 else 0) + p.payloadType
  {
    BitsMakeByte(b[0]);
  }

  lemma BitsMakeByte(x: uint8)
    ensures x == x / 64 * 64 + x / 32 % 2 * 32 + x / 16 % 2 * 16 + x % 16
  {
    assert x / 32 == x / 64 * 2 + x / 32 % 2;
    assert x / 16 == x / 32 * 2 + x / 16 % 2;
  }

  lemma ExtensionBack(b: seq<uint8>, l: Layout)
    requires Parsed(b) == Some(l)
    ensures Sendable(PartsOf(b, l))
    ensures 12 + 4 * ((b[0] as int) % 16) <= l.payloadOffset <= l.payloadOffset + l.payloadSize <= |b|
    ensures ExtensionBytes(PartsOf(b, l).extension) == b[12 + 4 * ((b[0] as int) % 16)..l.payloadOffset]
  {
    hide Bytes16, Load16, Load32, CsrcsAt;
    PartsAreSendable(b, l);
    var fixedEnd := 12 + 4 * ((b[0] as int) % 16);
    if b[0] / 16 % 2 == 1 {
      Loaded16(b, fixedEnd);
      Loaded16(b, fixedEnd + 2);
      assert b[fixedEnd..l.payloadOffset] ==
             b[fixedEnd..fixedEnd + 2] + b[fixedEnd + 2..fixedEnd + 4] + b[fixedEnd + 4..l.payloadOffset];
    }
  }

  /** What is parsed is exactly what can be put together from parts. */
  lemma ParsedExactly(b: seq<uint8>)
    ensures Parsed(b).Some? <==> exists p :: Sendable(p) && Assembled(p) == b
  {
    hide Parsed, Assembled, Sendable, ExtensionBytes;
    if Parsed(b).Some? {
      PutTogetherAgain(b, Parsed(b).value);
    }
    if p :| Sendable(p) && Assembled(p) == b {
      AssembledParses(p);
    }
  }

  lemma PutTogetherAgain(b: seq<uint8>, l: Layout)
    requires Parsed(b) == Some(l)
    ensures Sendable(PartsOf(b, l)) && Assembled(PartsOf(b, l)) == b
  {
    hide Load16, Load32, CsrcsAt, CsrcBytes, ExtensionBytes, Front, Parsed, Sendable;
    var n := (b[0] as int) % 16;
    FrontBack(b, l);
    ExtensionBack(b, l);
    CsrcsBack(b, n);
    InPieces(b, 12 + 4 * n, l.payloadOffset, l.payloadOffset + l.payloadSize);
  }

  lemma InPieces(b: seq<uint8>, i: nat, j: nat, k: nat)
    requires 12 <= i <= j <= k <= |b|
    ensures b == b[..12] + b[12..i] + b[i..j] + b[j..k] + b[k..]
  {
  }

  class RtpPacket {
    var data: array<uint8>
    var payloadOffset: nat
    var payloadSize: nat
    var paddingSize: nat
    var payloadType: bit7
    var sequenceNumber: uint16
    var timestamp: uint32
    var ssrc: uint32

    /** The fields describe the bytes. */
    ghost predicate Valid()
      reads this, data
    {
      Size() <= data.Length && Parsed(Bytes()) == Some(View())
    }

    function Size(): nat
      reads this
    {
      payloadOffset + payloadSize + paddingSize
    }

    ghost function Bytes(): seq<uint8>
      requires Size() <= data.Length
      reads this, data
    {
      data[..Size()]
    }

    ghost function View(): Layout
      reads this
    {
      Layout(payloadOffset, payloadSize, paddingSize, payloadType, sequenceNumber, timestamp, ssrc)
    }

    constructor ()
    {
      data := new uint8[0];
      payloadOffset, payloadSize, paddingSize, payloadType, sequenceNumber, timestamp, ssrc := 0, 0, 0, 0, 0, 0, 0;
    }

    method Create(buffer: seq<uint8>) returns (ok: bool)
      modifies this
      ensures ok <==> Parsed(buffer).Some?
      ensures ok ==> Valid() && Bytes() == buffer && fresh(data)
    {
      hide Parsed;
      ParsedFills(buffer);
      var parsed := Parsed(buffer);
      if parsed.None? {
        return false;
      }
      var l := parsed.value;
      payloadOffset, payloadSize, paddingSize := l.payloadOffset, l.payloadSize, l.paddingSize;
      payloadType, sequenceNumber, timestamp, ssrc := l.payloadType, l.sequenceNumber, l.timestamp, l.ssrc;
      data := new uint8[|buffer|];
      forall i | 0 <= i < |buffer| {
        data[i] := buffer[i];
      }
      assert data[..Size()] == buffer;
      return true;
    }

    method SetPayloadType(payloadType: bit7)
      requires data.Length >= MIN_RTP_PACKET_LEN
      modifies this`payloadType, data
      ensures this.payloadType == payloadType
      ensures data[..] == old(data[..])[1 := (old(data[1]) as int) / 0x80 * 0x80 + payloadType]
    {
      this.payloadType := payloadType;
      data[1] := (data[1] as int) / 0x80 * 0x80 + payloadType;
    }

    method SetSequenceNumber(sequenceNumber: uint16)
      requires data.Length >= MIN_RTP_PACKET_LEN
      modifies this`sequenceNumber, data
      ensures this.sequenceNumber == sequenceNumber
      ensures data[..] == old(data[..2]) + Bytes16(sequenceNumber) + old(data[4..])
    {
      this.sequenceNumber := sequenceNumber;
      data[2], data[3] := sequenceNumber / 0x100, sequenceNumber % 0x100;
    }

    method SetSsrc(ssrc: uint32)
      requires data.Length >= MIN_RTP_PACKET_LEN
      modifies this`ssrc, data
      ensures this.ssrc == ssrc
      ensures data[..] == old(data[..8]) + Bytes32(ssrc) + old(data[12..])
    {
      this.ssrc := ssrc;
      var high, low := ssrc / 0x1_0000, ssrc % 0x1_0000;
      data[8], data[9], data[10], data[11] := high / 0x100, high % 0x100, low / 0x100, low % 0x100;
    }

    /** The three setters together. */
    method Renumber(sequenceNumber: uint16, payloadType: bit7, ssrc: uint32)
      requires data.Length >= MIN_RTP_PACKET_LEN
      modifies this`sequenceNumber, this`payloadType, this`ssrc, data
      ensures this.sequenceNumber == sequenceNumber && this.payloadType == payloadType && this.ssrc == ssrc
      ensures data[..] == Renumbered(old(data[..]), payloadType, sequenceNumber, ssrc)
    {
      hide Bytes16, Bytes32;
      SetPayloadType(payloadType);
      SetSequenceNumber(sequenceNumber);
      SetSsrc(ssrc);
    }

    /** Moves everything behind the offset two places to the front. */
    method MoveDown(offset: nat, count: nat)
      requires offset + count + RTX_HEADER_SIZE <= data.Length
      modifies data
      ensures data[..offset] == old(data[..])[..offset]
      ensures data[offset..offset + count] == old(data[..])[offset + RTX_HEADER_SIZE..offset + RTX_HEADER_SIZE + count]
    {
      ghost var before := data[..];
      var i := 0;
      while i < count
        invariant 0 <= i <= count
        invariant data[..offset] == before[..offset]
        invariant data[offset..offset + i] == before[offset + RTX_HEADER_SIZE..offset + RTX_HEADER_SIZE + i]
        invariant data[offset + i..] == before[offset + i..]
      {
        assert data[offset + RTX_HEADER_SIZE + i] == data[offset + i..][RTX_HEADER_SIZE];
        data[offset + i] := data[offset + RTX_HEADER_SIZE + i];
        i := i + 1;
      }
    }

    /** Turns an unpadded retransmission packet into the original, in place. An empty
        payload, which some senders use as padding, is refused. */
    method RtxRepair(sequenceNumber: uint16, payloadType: bit7, ssrc: uint32) returns (ok: bool)
      requires Valid() && paddingSize == 0 && payloadSize != 1
      modifies this, data
      ensures ok <==> old(payloadSize) > 0
      ensures !ok ==> unchanged(this) && unchanged(data)
      ensures Valid() && data == old(data)
      ensures ok ==>
                && Bytes() == Repaired(old(Bytes()), old(View()), payloadType, sequenceNumber, ssrc)
                && View() == old(View()).(payloadSize := old(payloadSize) - RTX_HEADER_SIZE, payloadType := payloadType,
                                          sequenceNumber := sequenceNumber, ssrc := ssrc)
    {
      hide Bytes16, Bytes32, Parsed, Load16, Load32, Renumbered;
      ParsedFills(Bytes());
      if payloadSize == 0 {
        return false;
      }
      ghost var before := data[..];
      assert payloadOffset >= MIN_RTP_PACKET_LEN;
      Renumber(sequenceNumber, payloadType, ssrc);
      ghost var renumbered := data[..];
      assert before[..Size()] == old(Bytes());
      MoveDown(payloadOffset, payloadSize - RTX_HEADER_SIZE);
      MovedDown(before, payloadOffset, payloadSize, payloadType, sequenceNumber, ssrc, renumbered, data[..]);
      payloadSize := payloadSize - RTX_HEADER_SIZE;
      assert data[..Size()] == data[..][..Size()];
      RepairedLayout(old(Bytes()), old(View()), payloadType, sequenceNumber, ssrc);
      return true;
    }
  }

  lemma RenumberPrefix(b: seq<uint8>, end: nat, payloadType: bit7, sequenceNumber: uint16, ssrc: uint32)
    requires MIN_RTP_PACKET_LEN <= end <= |b|
    ensures Renumbered(b, payloadType, sequenceNumber, ssrc) ==
            Renumbered(b[..end], payloadType, sequenceNumber, ssrc) + b[end..]
  {
    hide Bytes16, Bytes32;
    assert b[12..] == b[..end][12..] + b[end..];
  }

  lemma MovedDown(b: seq<uint8>, offset: nat, size: nat, payloadType: bit7, sequenceNumber: uint16, ssrc: uint32,
                  renumbered: seq<uint8>, after: seq<uint8>)
    requires MIN_RTP_PACKET_LEN <= offset && RTX_HEADER_SIZE <= size && offset + size <= |b| == |after|
    requires renumbered == Renumbered(b, payloadType, sequenceNumber, ssrc)
    requires after[..offset] == renumbered[..offset]
    requires after[offset..offset + size - RTX_HEADER_SIZE] == renumbered[offset + RTX_HEADER_SIZE..offset + size]
    ensures after[..offset + size - RTX_HEADER_SIZE] ==
            Renumbered(b[..offset + size][..offset], payloadType, sequenceNumber, ssrc)
            + b[..offset + size][offset + RTX_HEADER_SIZE..]
  {
    hide Renumbered;
    RenumberPrefix(b, offset, payloadType, sequenceNumber, ssrc);
    assert b[..offset + size][..offset] == b[..offset];
    assert renumbered[offset..] == b[offset..];
    assert renumbered[offset + RTX_HEADER_SIZE..offset + size] == b[offset..][RTX_HEADER_SIZE..size];
    assert b[..offset + size][offset + RTX_HEADER_SIZE..] == b[offset..][RTX_HEADER_SIZE..size];
  }
}
