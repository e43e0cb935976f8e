/**
 The header shared by all RTCP packets (struct RtcpCommonHeader in
 src/rtp_rtcp/rtcp_packet.h) and the two SSRCs of feedback packets.
 */
module RtcpCommon {
  import opened SequenceNumber
  import opened ByteBuffer

  const RTPFB: uint8 := 205
  const FORMAT_NACK := 1
  const FORMAT_TWCC := 15
  const VERSION := 2

  type bit5 = x: int | 0 <= x < 32
  type bit2 = x: int | 0 <= x < 4
  type bit1 = x: int | 0 <= x < 2

  datatype CommonHeader = CommonHeader(countOrFormat: bit5, padding: bit1, version: bit2,
                                       packetType: uint8, length: uint16)

  function HeaderBytes(h: CommonHeader): (r: seq<uint8>)
    ensures |r| == 4
  {
    [(h.version as int) * 64 + (h.padding as int) * 32 + h.countOrFormat, h.packetType] + Bytes16(h.length)
  }

  function HeaderAt(s: seq<uint8>, at: nat): (h: CommonHeader)
    requires at + 4 <= |s|
    ensures HeaderBytes(h) == s[at..at + 4]
  {
    assert s[at + 2..at + 4] == s[at..at + 4][2..];
    CommonHeader(s[at] % 32, s[at] / 32 % 2, s[at] / 64, s[at + 1], Load16(s, at + 2))
  }

  /** Reading the header is the inverse of writing it. */
  lemma HeaderRoundTrip(s: seq<uint8>, at: nat, h: CommonHeader)
    requires at + 4 <= |s| && s[at..at + 4] == HeaderBytes(h)
    ensures HeaderAt(s, at) == h
  {
    var b := HeaderBytes(h);
    assert s[at] == b[0] && s[at + 1] == b[1];
    assert s[at + 2..at + 4] == b[2..] == Bytes16(h.length);
    Stored16(s, at + 2, h.length);
  }

  /** SerializeCommonHeader and SerializeCommonFeedback. */
  method WriteCommonFeedback(w: ByteWriter, header: CommonHeader, senderSsrc: uint32, mediaSsrc: uint32)
    returns (ok: bool)
    requires w.Valid()
    modifies w, w.bytes
    ensures w.Valid()
    ensures ok <==> 12 <= old(w.Left())
    ensures ok ==> w.Written() == old(w.Written()) + (HeaderBytes(header) + Bytes32(senderSsrc) + Bytes32(mediaSsrc))
    ensures old(w.Written()) <= w.Written() <=
            old(w.Written()) + (HeaderBytes(header) + Bytes32(senderSsrc) + Bytes32(mediaSsrc))
  {
    hide HeaderBytes, Bytes32;
    ok := w.WriteBytes(HeaderBytes(header));
    if !ok { return; }
    ok := w.WriteUInt32(senderSsrc);
    if !ok { return; }
    ok := w.WriteUInt32(mediaSsrc);
  }

  method ParseCommonHeader(r: ByteReader) returns (ok: bool, h: CommonHeader)
    requires r.Valid()
    modifies r
    ensures r.Valid() && ok == (4 <= old(r.Left()))
    ensures r.start == if ok then old(r.start) + 4 else old(r.start)
    ensures ok ==> h == HeaderAt(r.bytes, old(r.start))
  {
    hide HeaderAt, HeaderBytes;
    ghost var at := r.start;
    var front;
    h := CommonHeader(0, 0, 0, 0, 0);
    ok, front := r.ReadBytes(4);
    if ok {
      h := HeaderAt(front, 0);
      assert front[0..4] == front;
      HeaderRoundTrip(r.bytes, at, h);
    }
  }

  method ParseCommonFeedback(r: ByteReader) returns (ok: bool, senderSsrc: uint32, mediaSsrc: uint32)
    requires r.Valid()
    modifies r
    ensures r.Valid() && ok == (8 <= old(r.Left()))
    ensures ok ==>
              && r.start == old(r.start) + 8
              && senderSsrc == Load32(r.bytes, old(r.start)) && mediaSsrc == Load32(r.bytes, old(r.start) + 4)
  {
    hide Load32, Bytes32;
    ghost var at := r.start;
    mediaSsrc := 0;
    ok, senderSsrc := r.ReadUInt32();
    if ok {
      Stored32(r.bytes, at, senderSsrc);
      ok, mediaSsrc := r.ReadUInt32();
      if ok {
        Stored32(r.bytes, at + 4, mediaSsrc);
      }
    }
  }
}
