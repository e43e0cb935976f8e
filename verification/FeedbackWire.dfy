/**
 The wire form of transport-wide feedback, section 3.1 of
 draft-holmer-rmcat-transport-wide-cc-extensions-01: what a payload means, what a
 message is written as, and that reading undoes writing.
 */
module FeedbackWire {
  import opened Wrappers
  import opened SequenceNumber
  import opened ByteBuffer
  import opened StatusChunk
  import opened RtcpCommon
  import opened FeedbackSpec

  /** The payload fields in front of the chunks. */
  datatype Fields = Fields(senderSsrc: uint32, mediaSsrc: uint32, baseSeqNo: uint16, statusCount: uint16,
                           baseTimeTicks: uint24, feedbackSeq: uint8)

  datatype Message = Message(fields: Fields, words: seq<uint16>, symbols: seq<DeltaSize>,
                             received: seq<ReceivedPacket>, timestamps: bool, index: nat)

  // ---------------------------------------------------------------------
  // Reading. `end` is the payload length the header announces; the words and
  // deltas may not reach beyond it.

  function FieldsAt(p: seq<uint8>): Fields
    requires 16 <= |p|
  {
    Fields(Load32(p, 0), Load32(p, 4), Load16(p, 8), Load16(p, 10), Load24(p, 12), p[15])
  }

  function WordsAt(p: seq<uint8>, k: nat): (r: seq<uint16>)
    requires 16 + 2 * k <= |p|
    ensures |r| == k
  {
    if k == 0 then [] else WordsAt(p, k - 1) + [Load16(p, 14 + 2 * k)]
  }

  /** Symbols of consecutive chunk words, cut off at `count`. */
  ghost function DecodeWords(words: seq<uint16>, count: nat): (r: seq<DeltaSize>)
    ensures |r| <= count
  {
    if words == [] then []
    else
      var before := DecodeWords(words[..|words| - 1], count);
      before + Decoded(words[|words| - 1], count - |before|)
  }

  /** How many words it takes to describe `count` packets, trying k first. */
  ghost function WordCount(p: seq<uint8>, end: nat, count: nat, k: nat): (r: Option<nat>)
    requires 16 + 2 * k <= |p| && end <= |p|
    ensures r.Some? ==> k <= r.value && 16 + 2 * r.value <= |p| && |DecodeWords(WordsAt(p, r.value), count)| == count
    ensures r.Some? && r.value > k ==> 16 + 2 * r.value <= end
    decreases |p| - 2 * k
  {
    if |DecodeWords(WordsAt(p, k), count)| == count then Some(k)
    else if 16 + 2 * k + CHUNK_SIZE > end then None
    else WordCount(p, end, count, k + 1)
  }

  ghost function ReadDeltas(p: seq<uint8>, index: nat, symbols: seq<DeltaSize>, base: uint16)
    : Option<seq<ReceivedPacket>>
    requires index + SumSizes(symbols) <= |p|
  {
    if symbols == [] then Some([])
    else
      var n := |symbols| - 1;
      var at := index + SumSizes(symbols[..n]);
      match ReadDeltas(p, index, symbols[..n], base)
      case None => None
      case Some(before) =>
        if symbols[n] == 0 then Some(before)
        else if symbols[n] == 1 then Some(before + [Received(ToUint16(base + n), p[at])])
        else if symbols[n] == 2 then Some(before + [Received(ToUint16(base + n), ToInt16(Load16(p, at)))])
        else None
  }

  ghost function WithoutDeltas(symbols: seq<DeltaSize>, base: uint16): seq<ReceivedPacket> {
    if symbols == [] then []
    else
      var n := |symbols| - 1;
      if symbols[n] == 0 then WithoutDeltas(symbols[..n], base)
      else WithoutDeltas(symbols[..n], base) + [Received(ToUint16(base + n), 0)]
  }

  ghost function ParsePayload(p: seq<uint8>, end: nat): Option<Message>
    requires 16 <= |p| && end <= |p|
  {
    var f := FieldsAt(p);
    if f.statusCount == 0 then None
    else
      match WordCount(p, end, f.statusCount, 0)
      case None => None
      case Some(k) =>
        var words := WordsAt(p, k);
        var symbols := DecodeWords(words, f.statusCount);
        var index := 16 + 2 * k;
        if end >= index + SumSizes(symbols) then
          match ReadDeltas(p, index, symbols, f.baseSeqNo)
          case None => None
          case Some(received) =>
            Some(Message(f, words, symbols, received, true, index + SumSizes(symbols)))
        else
          Some(Message(f, words, symbols, WithoutDeltas(symbols, f.baseSeqNo), false, index))
  }

  function Max(a: nat, b: nat): nat {
    if a < b then b else a
  }

  /** ParsePayload, case by case. */
  lemma ParseCases(p: seq<uint8>, end: nat)
    requires 16 <= |p| && end <= |p|
    ensures var f := FieldsAt(p);
            var r := ParsePayload(p, end);
            if f.statusCount == 0 || WordCount(p, end, f.statusCount, 0) == None then r == None
            else
              var k := WordCount(p, end, f.statusCount, 0).value;
              var words := WordsAt(p, k);
              var symbols := DecodeWords(words, f.statusCount);
              var index := 16 + 2 * k;
              if end < index + SumSizes(symbols) then
                r == Some(Message(f, words, symbols, WithoutDeltas(symbols, f.baseSeqNo), false, index))
              else if ReadDeltas(p, index, symbols, f.baseSeqNo) == None then r == None
              else r == Some(Message(f, words, symbols, ReadDeltas(p, index, symbols, f.baseSeqNo).value, true,
                                     index + SumSizes(symbols)))
  {
    hide FieldsAt, WordCount, WordsAt, DecodeWords, ReadDeltas, WithoutDeltas, SumSizes;
  }

  /** The memory a parse may look at: the payload the header announces, and always
      the sixteen bytes of fields. */
  predicate PayloadPresent(bytes: seq<uint8>, start: nat) {
    start + 4 <= |bytes| ==> start + 4 + Max(16, 4 * HeaderAt(bytes, start).length) <= |bytes|
  }

  /** What a reader with `left` bytes at `start` makes of them. */
  ghost function ParseAt(bytes: seq<uint8>, start: nat, left: nat): Option<Message>
    requires start + left <= |bytes| && PayloadPresent(bytes, start)
  {
    if left < 4 then None
    else
      var h := HeaderAt(bytes, start);
      if h.packetType != RTPFB || h.countOrFormat != FORMAT_TWCC || left < 12 then None
      else ParsePayload(bytes[start + 4..start + 4 + Max(16, 4 * h.length)], 4 * h.length)
  }

  /** Whatever bytes were read, the packets returned match the symbols. */
  lemma {:induction false} ReadDeltasMatches(p: seq<uint8>, index: nat, symbols: seq<DeltaSize>, base: uint16)
    requires index + SumSizes(symbols) <= |p|
    ensures var r := ReadDeltas(p, index, symbols, base); r.Some? ==> Matches(symbols, r.value, base)
  {
    if symbols != [] {
      var n := |symbols| - 1;
      ReadDeltasMatches(p, index, symbols[..n], base);
      var r := ReadDeltas(p, index, symbols, base);
      if r.Some? && symbols[n] != 0 {
        assert r.value[..|r.value| - 1] == ReadDeltas(p, index, symbols[..n], base).value;
      }
    }
  }

  lemma {:induction false} WithoutDeltasMatches(symbols: seq<DeltaSize>, base: uint16)
    ensures Matches(symbols, WithoutDeltas(symbols, base), base)
    ensures SumDeltas(WithoutDeltas(symbols, base)) == 0
  {
    if symbols != [] {
      var n := |symbols| - 1;
      WithoutDeltasMatches(symbols[..n], base);
      var r := WithoutDeltas(symbols, base);
      if symbols[n] != 0 {
        assert r[..|r| - 1] == WithoutDeltas(symbols[..n], base);
      }
    }
  }

  lemma ChunkStep(p: seq<uint8>, end: nat, count: nat, k: nat)
    requires 16 + 2 * k + CHUNK_SIZE <= end <= |p|
    requires |DecodeWords(WordsAt(p, k), count)| < count
    ensures WordsAt(p, k + 1) == WordsAt(p, k) + [Load16(p, 16 + 2 * k)]
    ensures DecodeWords(WordsAt(p, k + 1), count) ==
            DecodeWords(WordsAt(p, k), count)
            + Decoded(Load16(p, 16 + 2 * k), count - |DecodeWords(WordsAt(p, k), count)|)
    ensures WordCount(p, end, count, k) == WordCount(p, end, count, k + 1)
  {
    hide Load16, Decoded;
    assert WordsAt(p, k + 1)[..k] == WordsAt(p, k);
  }

  /** The buffer holds what the k-th word added. */
  ghost predicate LastWordDecoded(p: seq<uint8>, count: nat, k: nat, contents: seq<DeltaSize>)
    requires 0 < k && 16 + 2 * k <= |p|
  {
    contents == Decoded(WordsAt(p, k)[k - 1], count - |DecodeWords(WordsAt(p, k - 1), count)|)
  }

  lemma LastWordStep(p: seq<uint8>, count: nat, k: nat)
    requires 16 + 2 * k + CHUNK_SIZE <= |p|
    ensures LastWordDecoded(p, count, k + 1,
                            Decoded(Load16(p, 16 + 2 * k), count - |DecodeWords(WordsAt(p, k), count)|))
  {
    hide Load16, Decoded, DecodeWords;
  }

  lemma NoWords(p: seq<uint8>, count: nat)
    requires 16 <= |p|
    ensures WordsAt(p, 0) == [] && DecodeWords(WordsAt(p, 0), count) == []
  {
  }

  lemma WordsAtPops(p: seq<uint8>, k: nat)
    requires 0 < k && 16 + 2 * k <= |p|
    ensures WordsAt(p, k)[..k - 1] == WordsAt(p, k - 1)
  {
  }

  lemma WordCountEnds(p: seq<uint8>, end: nat, count: nat, k: nat)
    requires 16 + 2 * k <= |p| && end <= |p|
    ensures |DecodeWords(WordsAt(p, k), count)| == count ==> WordCount(p, end, count, k) == Some(k)
    ensures |DecodeWords(WordsAt(p, k), count)| < count && 16 + 2 * k + CHUNK_SIZE > end ==>
              WordCount(p, end, count, k) == None
  {
  }

  /** Whatever bytes were read, what comes out agrees with itself. */
  lemma ParsedAgrees(p: seq<uint8>, end: nat)
    requires 16 <= |p| && end <= |p| && ParsePayload(p, end).Some?
    ensures var m := ParsePayload(p, end).value;
            && Matches(m.symbols, m.received, m.fields.baseSeqNo)
            && m.index == 16 + 2 * |m.words| + (if m.timestamps then SumSizes(m.symbols) else 0) <= end
            && (!m.timestamps ==> SumDeltas(m.received) == 0)
            && |m.symbols| == m.fields.statusCount
            && m.fields == FieldsAt(p)
  {
    hide ReadDeltas, WithoutDeltas, WordCount, WordsAt, DecodeWords, SumSizes, SumDeltas, FieldsAt, Matches;
    ParseCases(p, end);
    var f := FieldsAt(p);
    var k := WordCount(p, end, f.statusCount, 0).value;
    var symbols := DecodeWords(WordsAt(p, k), f.statusCount);
    SomeWords(p, end, f.statusCount, k);
    WithoutDeltasMatches(symbols, f.baseSeqNo);
    if end >= 16 + 2 * k + SumSizes(symbols) {
      ReadDeltasMatches(p, 16 + 2 * k, symbols, f.baseSeqNo);
    }
  }

  lemma SomeWords(p: seq<uint8>, end: nat, count: nat, k: nat)
    requires 16 <= |p| && end <= |p| && count > 0 && WordCount(p, end, count, 0) == Some(k)
    ensures k > 0 && 16 + 2 * k <= end
  {
    hide Decoded;
  }

  /** Reading deltas one symbol at a time. */
  lemma DeltaStep(p: seq<uint8>, index: nat, symbols: seq<DeltaSize>, base: uint16, i: nat)
    requires i < |symbols| && index + SumSizes(symbols) <= |p|
    ensures SumSizes(symbols[..i + 1]) == SumSizes(symbols[..i]) + symbols[i] <= SumSizes(symbols)
    ensures var at := index + SumSizes(symbols[..i]);
            var before := ReadDeltas(p, index, symbols[..i], base);
            var after := ReadDeltas(p, index, symbols[..i + 1], base);
            before.Some? ==>
              && (symbols[i] == 0 ==> after == before)
              && (symbols[i] == 1 ==> after == Some(before.value + [Received(ToUint16(base + i), p[at])]))
              && (symbols[i] == 2 ==>
                    after == Some(before.value + [Received(ToUint16(base + i), ToInt16(Load16(p, at)))]))
              && (symbols[i] == 3 ==> ReadDeltas(p, index, symbols, base) == None)
  {
    hide Load16, ToInt16, ToUint16;
    assert symbols[..i + 1][..i] == symbols[..i];
    ReadDeltasPrefix(p, index, symbols, base, i);
    ReadDeltasPrefix(p, index, symbols, base, i + 1);
  }

  lemma StatusStep(symbols: seq<DeltaSize>, base: uint16, i: nat)
    requires i < |symbols|
    ensures WithoutDeltas(symbols[..i + 1], base) ==
            WithoutDeltas(symbols[..i], base)
            + (if symbols[i] == 0 then [] else [Received(ToUint16(base + i), 0)])
  {
    assert symbols[..i + 1][..i] == symbols[..i];
  }

  /** A prefix that cannot be read makes the whole unreadable. */
  lemma {:induction false} ReadDeltasPrefix(p: seq<uint8>, index: nat, symbols: seq<DeltaSize>, base: uint16, n: nat)
    requires index + SumSizes(symbols) <= |p| && n <= |symbols|
    ensures SumSizes(symbols[..n]) <= SumSizes(symbols)
    ensures ReadDeltas(p, index, symbols, base).Some? ==> ReadDeltas(p, index, symbols[..n], base).Some?
  {
    if n == |symbols| {
      assert symbols[..n] == symbols;
    } else {
      ReadDeltasPrefix(p, index, symbols[..|symbols| - 1], base, n);
      assert symbols[..|symbols| - 1][..n] == symbols[..n];
    }
  }

  /** Without its last word a message is too short, so the words in front of the
      last one were never cut off. */
  lemma {:induction false} FrontWordsAreWhole(words: seq<uint16>, count: nat)
    requires |DecodeWords(words, count)| < count
    ensures DecodeWords(words, count) == DecodedAll(words)
  {
    if words != [] {
      FrontWordsAreWhole(words[..|words| - 1], count);
      DecodedIsPrefix(words[|words| - 1], count - |DecodeWords(words[..|words| - 1], count)|);
    }
  }

  lemma {:induction false} WordCountIsLeast(p: seq<uint8>, end: nat, count: nat, k: nat, j: nat)
    requires 16 + 2 * k <= |p| && end <= |p|
    requires WordCount(p, end, count, k).Some? && k <= j < WordCount(p, end, count, k).value
    ensures |DecodeWords(WordsAt(p, j), count)| < count
    decreases |p| - 2 * k
  {
    if k < j {
      WordCountIsLeast(p, end, count, k + 1, j);
    }
  }

  /** The chunks kept whole and the last one, cut off, are the symbols read. */
  lemma KeptSymbols(p: seq<uint8>, end: nat, count: nat, k: nat, contents: seq<DeltaSize>)
    requires 16 <= |p| && end <= |p| && count > 0
    requires WordCount(p, end, count, 0) == Some(k) && k > 0
    requires LastWordDecoded(p, count, k, contents)
    ensures DecodedAll(WordsAt(p, k - 1)) + contents == DecodeWords(WordsAt(p, k), count)
    ensures |DecodeWords(WordsAt(p, k), count)| == count && contents != []
  {
    hide Decoded, Load16, WordCount, WordsAt, DecodedAll;
    SomeWords(p, end, count, k);
    WordCountIsLeast(p, end, count, 0, k - 1);
    FrontWordsAreWhole(WordsAt(p, k - 1), count);
    WordsAtPops(p, k);
  }

  // ---------------------------------------------------------------------
  // Writing.

  function Head(f: Fields): (r: seq<uint8>)
    ensures |r| == 16
  {
    Bytes32(f.senderSsrc) + Bytes32(f.mediaSsrc) + Bytes16(f.baseSeqNo) + Bytes16(f.statusCount)
    + Bytes24(f.baseTimeTicks) + [f.feedbackSeq]
  }

  function WordBytes(words: seq<uint16>): (r: seq<uint8>)
    ensures |r| == 2 * |words|
  {
    if words == [] then [] else WordBytes(words[..|words| - 1]) + Bytes16(words[|words| - 1])
  }

  function DeltaBytes(delta: int16): seq<uint8> {
    if 0 <= delta <= 0xff then [delta] else Bytes16(ToUint16(delta))
  }

  function DeltaBlock(packets: seq<ReceivedPacket>): seq<uint8> {
    if packets == [] then []
    else DeltaBlock(packets[..|packets| - 1]) + DeltaBytes(packets[|packets| - 1].deltaTicks)
  }

  /** Zeros and, as the last byte, their count. */
  function Padding(n: nat): (r: seq<uint8>)
    requires n < 4
    ensures |r| == n
  {
    if n == 0 then [] else seq(n - 1, i => 0) + [n]
  }

  function Payload(f: Fields, words: seq<uint16>, packets: seq<ReceivedPacket>, padding: nat): seq<uint8>
    requires padding < 4
  {
    Head(f) + WordBytes(words) + DeltaBlock(packets) + Padding(padding)
  }

  // ---------------------------------------------------------------------
  // Reading undoes writing.

  lemma FieldsRoundTrip(f: Fields, p: seq<uint8>)
    requires 16 <= |p| && p[..16] == Head(f)
    ensures FieldsAt(p) == f
  {
    var h := Head(f);
    assert p[0..4] == h[0..4] == Bytes32(f.senderSsrc);
    assert p[4..8] == h[4..8] == Bytes32(f.mediaSsrc);
    assert p[8..10] == h[8..10] == Bytes16(f.baseSeqNo);
    assert p[10..12] == h[10..12] == Bytes16(f.statusCount);
    assert p[12..15] == h[12..15] == Bytes24(f.baseTimeTicks);
    assert p[15] == h[15];
    Stored32(p, 0, f.senderSsrc);
    Stored32(p, 4, f.mediaSsrc);
    Stored16(p, 8, f.baseSeqNo);
    Stored16(p, 10, f.statusCount);
    Stored24(p, 12, f.baseTimeTicks);
  }

  lemma {:induction false} WordsRoundTrip(words: seq<uint16>, p: seq<uint8>, k: nat)
    requires 16 + 2 * |words| <= |p| && p[16..16 + 2 * |words|] == WordBytes(words)
    requires k <= |words|
    ensures WordsAt(p, k) == words[..k]
  {
    if words != [] {
      var n := |words| - 1;
      SliceSplits(p, 16, WordBytes(words[..n]), Bytes16(words[n]));
      if k <= n {
        WordsRoundTrip(words[..n], p, k);
        assert words[..n][..k] == words[..k];
      } else {
        WordsRoundTrip(words[..n], p, n);
        Stored16(p, 16 + 2 * n, words[n]);
        assert WordsAt(p, k) == words[..n] + [words[n]];
      }
    }
  }

  /** The words of a message: whole chunks, short of the count, and a last one
      that completes it. */
  ghost predicate WordsCarry(words: seq<uint16>, symbols: seq<DeltaSize>) {
    && words != []
    && var whole := DecodedAll(words[..|words| - 1]);
       && |whole| < |symbols|
       && whole + Decoded(words[|words| - 1], |symbols| - |whole|) == symbols
  }

  lemma FinishedWordsCarry(chunks: seq<uint16>, last: uint16, pending: seq<DeltaSize>)
    requires pending != [] && Decoded(last, |pending|) == pending
    ensures WordsCarry(chunks + [last], DecodedAll(chunks) + pending)
  {
    hide DecodedAll, Decoded;
    assert (chunks + [last])[..|chunks|] == chunks;
  }

  lemma {:induction false} WholeWords(words: seq<uint16>, count: nat)
    requires |DecodedAll(words)| < count
    ensures DecodeWords(words, count) == DecodedAll(words)
  {
    if words != [] {
      WholeWords(words[..|words| - 1], count);
      DecodedIsPrefix(words[|words| - 1], count - |DecodedAll(words[..|words| - 1])|);
    }
  }

  lemma {:induction false} PrefixIsShorter(words: seq<uint16>, k: nat)
    requires k <= |words|
    ensures |DecodedAll(words[..k])| <= |DecodedAll(words)|
  {
    if k == |words| {
      assert words[..k] == words;
    } else {
      PrefixIsShorter(words[..|words| - 1], k);
      assert words[..|words| - 1][..k] == words[..k];
    }
  }

  lemma CarriedSymbols(words: seq<uint16>, symbols: seq<DeltaSize>, k: nat)
    requires WordsCarry(words, symbols) && k <= |words|
    ensures k < |words| ==> |DecodeWords(words[..k], |symbols|)| < |symbols|
    ensures k == |words| ==> DecodeWords(words[..k], |symbols|) == symbols
  {
    var chunks := words[..|words| - 1];
    if k < |words| {
      PrefixIsShorter(chunks, k);
      assert chunks[..k] == words[..k];
      WholeWords(words[..k], |symbols|);
    } else {
      WholeWords(chunks, |symbols|);
      assert words[..k] == words;
    }
  }

  lemma {:induction false} WordCountRoundTrip(words: seq<uint16>, symbols: seq<DeltaSize>, p: seq<uint8>, k: nat)
    requires WordsCarry(words, symbols)
    requires 16 + 2 * |words| <= |p| && p[16..16 + 2 * |words|] == WordBytes(words)
    requires k <= |words|
    ensures WordCount(p, |p|, |symbols|, k) == Some(|words|)
    decreases |words| - k
  {
    hide WordBytes, DecodeWords, WordsCarry;
    WordsRoundTrip(words, p, k);
    CarriedSymbols(words, symbols, k);
    if k < |words| {
      WordCountRoundTrip(words, symbols, p, k + 1);
    }
  }

  lemma {:induction false} DeltasRoundTrip(symbols: seq<DeltaSize>, packets: seq<ReceivedPacket>, base: uint16,
                                           p: seq<uint8>, index: nat)
    requires MatchesTightly(symbols, packets, base)
    requires index + |DeltaBlock(packets)| <= |p|
    requires p[index..index + |DeltaBlock(packets)|] == DeltaBlock(packets)
    ensures |DeltaBlock(packets)| == SumSizes(symbols)
    ensures ReadDeltas(p, index, symbols, base) == Some(packets)
  {
    hide DeltaBytes, Load16, ToInt16;
    if symbols != [] {
      var n, m := |symbols| - 1, |packets| - 1;
      if symbols[n] == 0 {
        DeltasRoundTrip(symbols[..n], packets, base, p, index);
      } else {
        var at := index + |DeltaBlock(packets[..m])|;
        DeltaBlockSplits(packets, DeltaBlock(packets[..m]), DeltaBytes(packets[m].deltaTicks), p, index);
        DeltasRoundTrip(symbols[..n], packets[..m], base, p, index);
        DeltaBytesRoundTrip(packets[m].deltaTicks, p, at);
        ReadOneDelta(p, index, symbols, base, packets[..m], packets[m]);
        assert packets == packets[..m] + [packets[m]];
      }
    }
  }

  lemma ReadOneDelta(p: seq<uint8>, index: nat, symbols: seq<DeltaSize>, base: uint16,
                     before: seq<ReceivedPacket>, last: ReceivedPacket)
    requires symbols != [] && index + SumSizes(symbols) <= |p|
    requires var n := |symbols| - 1;
             var at := index + SumSizes(symbols[..n]);
             && ReadDeltas(p, index, symbols[..n], base) == Some(before)
             && last.sequenceNumber == ToUint16(base + n)
             && symbols[n] == SizeOfDelta(last.deltaTicks)
             && (symbols[n] == 1 ==> p[at] == last.deltaTicks)
             && (symbols[n] == 2 ==> ToInt16(Load16(p, at)) == last.deltaTicks)
    ensures ReadDeltas(p, index, symbols, base) == Some(before + [last])
  {
    hide Load16, ToInt16, SumSizes, ToUint16;
  }

  lemma DeltaBlockSplits(packets: seq<ReceivedPacket>, front: seq<uint8>, last: seq<uint8>,
                         p: seq<uint8>, index: nat)
    requires packets != []
    requires front == DeltaBlock(packets[..|packets| - 1])
    requires last == DeltaBytes(packets[|packets| - 1].deltaTicks)
    requires index + |DeltaBlock(packets)| <= |p|
    requires p[index..index + |DeltaBlock(packets)|] == DeltaBlock(packets)
    ensures DeltaBlock(packets) == front + last
    ensures p[index..index + |front|] == front
    ensures p[index + |front|..index + |front| + |last|] == last
  {
    assert DeltaBlock(packets) == front + last;
    SliceSplits(p, index, front, last);
  }

  lemma DeltaBytesRoundTrip(delta: int16, p: seq<uint8>, at: nat)
    requires at + |DeltaBytes(delta)| <= |p| && p[at..at + |DeltaBytes(delta)|] == DeltaBytes(delta)
    ensures |DeltaBytes(delta)| == SizeOfDelta(delta)
    ensures SizeOfDelta(delta) == 1 ==> p[at] == delta
    ensures SizeOfDelta(delta) == 2 ==> ToInt16(Load16(p, at)) == delta
  {
    if SizeOfDelta(delta) == 1 {
      assert p[at] == p[at..at + 1][0];
    } else {
      Stored16(p, at, ToUint16(delta));
    }
  }

  lemma PayloadLayout(f: Fields, words: seq<uint16>, packets: seq<ReceivedPacket>, padding: nat, p: seq<uint8>)
    requires padding < 4 && p == Payload(f, words, packets, padding)
    ensures |p| == 16 + 2 * |words| + |DeltaBlock(packets)| + padding
    ensures p[..16] == Head(f)
    ensures p[16..16 + 2 * |words|] == WordBytes(words)
    ensures p[16 + 2 * |words|..16 + 2 * |words| + |DeltaBlock(packets)|] == DeltaBlock(packets)
  {
    hide Head, WordBytes, DeltaBlock, Padding;
  }

  /** Reading a written payload restores every field, every word, every symbol
      (so every lost position) and every received packet with its delta. */
  lemma PayloadRoundTrip(f: Fields, words: seq<uint16>, symbols: seq<DeltaSize>, packets: seq<ReceivedPacket>,
                         padding: nat, p: seq<uint8>)
    requires padding < 4 && p == Payload(f, words, packets, padding)
    requires f.statusCount == |symbols| > 0
    requires WordsCarry(words, symbols)
    requires MatchesTightly(symbols, packets, f.baseSeqNo)
    ensures 16 <= |p| == 16 + 2 * |words| + SumSizes(symbols) + padding
    ensures ParsePayload(p, |p|) == Some(Message(f, words, symbols, packets, true, |p| - padding))
  {
    hide *;
    PayloadLayout(f, words, packets, padding, p);
    FieldsRoundTrip(f, p);
    WordsRoundTrip(words, p, |words|);
    WordCountRoundTrip(words, symbols, p, 0);
    CarriedSymbols(words, symbols, |words|);
    assert words[..|words|] == words;
    DeltasRoundTrip(symbols, packets, f.baseSeqNo, p, 16 + 2 * |words|);
    ParseCases(p, |p|);
  }

  /** A whole written message, header included, is read back; the announced length
      is the rest of it. */
  lemma MessageRoundTrip(h: CommonHeader, f: Fields, words: seq<uint16>, symbols: seq<DeltaSize>,
                         packets: seq<ReceivedPacket>, padding: nat, payload: seq<uint8>, bytes: seq<uint8>)
    requires padding < 4 && payload == Payload(f, words, packets, padding)
    requires f.statusCount == |symbols| > 0
    requires WordsCarry(words, symbols)
    requires MatchesTightly(symbols, packets, f.baseSeqNo)
    requires h.packetType == RTPFB && h.countOrFormat == FORMAT_TWCC && |payload| == 4 * h.length
    requires bytes == HeaderBytes(h) + payload
    ensures PayloadPresent(bytes, 0) && |bytes| == 4 + 4 * HeaderAt(bytes, 0).length
    ensures ParseAt(bytes, 0, |bytes|) == Some(Message(f, words, symbols, packets, true, |payload| - padding))
  {
    hide Payload, WordsCarry, MatchesTightly, ParsePayload, HeaderBytes;
    PayloadRoundTrip(f, words, symbols, packets, padding, payload);
    assert bytes[0..4] == HeaderBytes(h);
    HeaderRoundTrip(bytes, 0, h);
    assert bytes[4..4 + 4 * h.length] == payload;
  }
}
