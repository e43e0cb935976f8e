/**
 The 16-bit packet status chunks of transport-wide feedback and the adaptive
 buffer that fills them (LastChunk in src/rtp_rtcp/transport_feedback.cpp).
 Wire format: sections 3.1.3 and 3.1.4 of
 draft-holmer-rmcat-transport-wide-cc-extensions-01.
 */
module StatusChunk {
  import opened SequenceNumber

  /** 0 not received, 1 or 2 bytes of delta; 3 can only come from the wire. */
  type DeltaSize = x: int | 0 <= x <= 3

  const LARGE := 2
  const RUN_LENGTH_CAPACITY := 0x1fff
  const ONE_BIT_CAPACITY := 14
  const TWO_BIT_CAPACITY := 7

  function Min(a: nat, b: nat): nat {
    if a < b then a else b
  }

  // ---------------------------------------------------------------------
  // Shifts by a whole number of bits.

  function Shl(x: nat, n: nat): nat {
    if n == 0 then x else 2 * Shl(x, n - 1)
  }

  function Shr(x: nat, n: nat): nat {
    if n == 0 then x else Shr(x / 2, n - 1)
  }

  // ---------------------------------------------------------------------
  // What a chunk means.

  function OneBitSymbol(chunk: uint16, i: nat): DeltaSize
    requires i < ONE_BIT_CAPACITY
  {
    Shr(chunk, ONE_BIT_CAPACITY - 1 - i) % 2
  }

  function TwoBitSymbol(chunk: uint16, i: nat): DeltaSize
    requires i < TWO_BIT_CAPACITY
  {
    Shr(chunk, 2 * (TWO_BIT_CAPACITY - 1 - i)) % 4
  }

  /** The symbols of a chunk, at most maxSize of them. */
  function Decoded(chunk: uint16, maxSize: nat): (r: seq<DeltaSize>)
    ensures |r| <= maxSize
    ensures |r| <= RUN_LENGTH_CAPACITY
  {
    if chunk < 0x8000 then
      seq(Min(chunk % 0x2000, maxSize), i => chunk / 0x2000)
    else if chunk < 0xc000 then
      seq(Min(ONE_BIT_CAPACITY, maxSize), i requires 0 <= i < ONE_BIT_CAPACITY => OneBitSymbol(chunk, i))
    else
      seq(Min(TWO_BIT_CAPACITY, maxSize), i requires 0 <= i < TWO_BIT_CAPACITY => TwoBitSymbol(chunk, i))
  }

  /** All symbols of a chunk: kMaxReportedPackets never truncates. */
  function DecodedFully(chunk: uint16): seq<DeltaSize> {
    Decoded(chunk, 0xffff)
  }

  lemma DecodedIsPrefix(chunk: uint16, maxSize: nat)
    ensures Decoded(chunk, maxSize) == DecodedFully(chunk)[..Min(maxSize, |DecodedFully(chunk)|)]
  {
  }

  // ---------------------------------------------------------------------
  // Packing symbols of `bits` bits each behind a type marker.

  function SymbolAt(s: seq<DeltaSize>, i: nat): DeltaSize {
    if i < |s| then s[i] else 0
  }

  /** marker, then w symbols of s (zeros beyond its end), most significant first. */
  function Packed(marker: nat, s: seq<DeltaSize>, w: nat, bits: nat): nat
    requires bits == 1 || bits == 2
  {
    if w == 0 then marker
    else Packed(marker, s, w - 1, bits) * (if bits == 1 then 2 else 4) + SymbolAt(s, w - 1)
  }

  ghost predicate Fit(s: seq<DeltaSize>, bits: nat) {
    bits == 2 || (bits == 1 && forall i :: 0 <= i < |s| ==> s[i] <= 1)
  }

  lemma {:induction false} PackedSymbol(marker: nat, s: seq<DeltaSize>, w: nat, bits: nat, i: nat)
    requires Fit(s, bits) && i < w
    ensures Shr(Packed(marker, s, w, bits), bits * (w - 1 - i)) % (if bits == 1 then 2 else 4) == SymbolAt(s, i)
  {
    var p := Packed(marker, s, w - 1, bits);
    if i < w - 1 {
      PackedSymbol(marker, s, w - 1, bits, i);
      if bits == 1 {
        assert (p * 2 + SymbolAt(s, w - 1)) / 2 == p;
      } else {
        assert (p * 4 + SymbolAt(s, w - 1)) / 2 / 2 == p;
        assert Shr(p * 4 + SymbolAt(s, w - 1), 2 * (w - 1 - i)) ==
               Shr((p * 4 + SymbolAt(s, w - 1)) / 2 / 2, 2 * (w - 2 - i));
      }
    }
  }

  /** Adding one more symbol sets its bits and no others. */
  lemma {:induction false} PackedSetsBits(marker: nat, s: seq<DeltaSize>, w: nat, bits: nat, i: nat)
    requires bits == 1 || bits == 2
    requires i < |s| && i < w
    ensures Packed(marker, s[..i + 1], w, bits) == Packed(marker, s[..i], w, bits) + Shl(s[i], bits * (w - 1 - i))
  {
    if i < w - 1 {
      PackedSetsBits(marker, s, w - 1, bits, i);
      if bits == 2 {
        assert Shl(s[i], 2 * (w - 1 - i)) == 2 * (2 * Shl(s[i], 2 * (w - 2 - i)));
      }
    } else {
      PackedIgnoresTail(marker, s[..i + 1], s[..i], w - 1, bits);
    }
  }

  lemma {:induction false} PackedIgnoresTail(marker: nat, s: seq<DeltaSize>, t: seq<DeltaSize>, w: nat, bits: nat)
    requires bits == 1 || bits == 2
    requires forall i :: 0 <= i < w ==> SymbolAt(s, i) == SymbolAt(t, i)
    ensures Packed(marker, s, w, bits) == Packed(marker, t, w, bits)
  {
    if w > 0 {
      PackedIgnoresTail(marker, s, t, w - 1, bits);
    }
  }

  /** 14 bits are left below the two type bits. */
  lemma PackedRange(s: seq<DeltaSize>)
    ensures 0xc000 <= Packed(3, s, 7, 2) < 0x1_0000
    ensures Fit(s, 1) ==> 0x8000 <= Packed(2, s, 14, 1) < 0xc000
  {
    assert Packed(3, s, 1, 2) == 12 + SymbolAt(s, 0);
    assert Packed(3, s, 3, 2) == (Packed(3, s, 1, 2) * 4 + SymbolAt(s, 1)) * 4 + SymbolAt(s, 2);
    assert Packed(3, s, 5, 2) == (Packed(3, s, 3, 2) * 4 + SymbolAt(s, 3)) * 4 + SymbolAt(s, 4);
    assert Packed(3, s, 7, 2) == (Packed(3, s, 5, 2) * 4 + SymbolAt(s, 5)) * 4 + SymbolAt(s, 6);
    if Fit(s, 1) {
      PackedBound(s, 14);
      assert Shl(1, 14) == 0x4000 by {
        assert Shl(1, 6) == 64 by { assert Shl(1, 3) == 8; }
        assert Shl(1, 9) == 512;
        assert Shl(1, 12) == 4096;
      }
    }
  }

  lemma {:induction false} PackedBound(s: seq<DeltaSize>, w: nat)
    requires Fit(s, 1)
    ensures 2 * Shl(1, w) <= Packed(2, s, w, 1) < 3 * Shl(1, w)
  {
    if w > 0 {
      PackedBound(s, w - 1);
    }
  }

  // ---------------------------------------------------------------------
  // The three encodings.

  ghost predicate AllSame(s: seq<DeltaSize>) {
    forall i :: 0 <= i < |s| ==> s[i] == s[0]
  }

  ghost predicate NoLarge(s: seq<DeltaSize>) {
    forall i :: 0 <= i < |s| ==> s[i] < LARGE
  }

  function RunLengthChunk(symbol: DeltaSize, size: nat): uint16
    requires size <= RUN_LENGTH_CAPACITY
  {
    symbol * 0x2000 + size
  }

  ghost function OneBitChunk(s: seq<DeltaSize>): uint16
    requires NoLarge(s)
  {
    PackedRange(s);
    Packed(2, s, ONE_BIT_CAPACITY, 1)
  }

  ghost function TwoBitChunk(s: seq<DeltaSize>): uint16 {
    PackedRange(s);
    Packed(3, s, TWO_BIT_CAPACITY, 2)
  }

  lemma RunLengthRoundTrip(s: seq<DeltaSize>)
    requires 0 < |s| <= RUN_LENGTH_CAPACITY && AllSame(s)
    ensures DecodedFully(RunLengthChunk(s[0], |s|)) == s
    ensures Decoded(RunLengthChunk(s[0], |s|), |s|) == s
  {
    var c := RunLengthChunk(s[0], |s|);
    assert c % 0x2000 == |s| && c / 0x2000 == s[0];
  }

  lemma OneBitRoundTrip(s: seq<DeltaSize>)
    requires |s| <= ONE_BIT_CAPACITY && NoLarge(s)
    ensures Decoded(OneBitChunk(s), |s|) == s
    ensures |s| == ONE_BIT_CAPACITY ==> DecodedFully(OneBitChunk(s)) == s
  {
    PackedRange(s);
    forall i | 0 <= i < |s| ensures OneBitSymbol(OneBitChunk(s), i) == s[i] {
      PackedSymbol(2, s, ONE_BIT_CAPACITY, 1, i);
    }
  }

  lemma TwoBitRoundTrip(s: seq<DeltaSize>)
    requires |s| <= TWO_BIT_CAPACITY
    ensures Decoded(TwoBitChunk(s), |s|) == s
    ensures |s| == TWO_BIT_CAPACITY ==> DecodedFully(TwoBitChunk(s)) == s
  {
    PackedRange(s);
    forall i | 0 <= i < |s| ensures TwoBitSymbol(TwoBitChunk(s), i) == s[i] {
      PackedSymbol(3, s, TWO_BIT_CAPACITY, 2, i);
    }
  }

  /** What some last chunk can carry, with the remaining count cutting it off. */
  ghost predicate Encodable(s: seq<DeltaSize>) {
    || |s| <= TWO_BIT_CAPACITY
    || (|s| <= ONE_BIT_CAPACITY && NoLarge(s))
    || (|s| <= RUN_LENGTH_CAPACITY && AllSame(s))
  }

  /** Encodable is exactly what the format allows. */
  lemma EncodableIsExact(s: seq<DeltaSize>)
    ensures Encodable(s) <==> exists chunk: uint16 :: Decoded(chunk, |s|) == s
  {
    if Encodable(s) {
      if |s| <= TWO_BIT_CAPACITY {
        TwoBitRoundTrip(s);
        assert Decoded(TwoBitChunk(s), |s|) == s;
      } else if |s| <= ONE_BIT_CAPACITY && NoLarge(s) {
        OneBitRoundTrip(s);
        assert Decoded(OneBitChunk(s), |s|) == s;
      } else {
        RunLengthRoundTrip(s);
        assert Decoded(RunLengthChunk(s[0], |s|), |s|) == s;
      }
    }
    if chunk: uint16 :| Decoded(chunk, |s|) == s {
      var d := Decoded(chunk, |s|);
      if 0x8000 <= chunk < 0xc000 {
        forall i | 0 <= i < |d| ensures d[i] < LARGE {
          assert d[i] == OneBitSymbol(chunk, i);
        }
      }
    }
  }

  // ---------------------------------------------------------------------
  // The adaptive encoder on values: finished chunks and the pending symbols.

  datatype Encoder = Encoder(chunks: seq<uint16>, pending: seq<DeltaSize>)

  ghost function DecodedAll(chunks: seq<uint16>): seq<DeltaSize> {
    if chunks == [] then [] else DecodedAll(chunks[..|chunks| - 1]) + DecodedFully(chunks[|chunks| - 1])
  }

  /** How many pending symbols the next finished chunk takes. */
  ghost function EmitCount(pending: seq<DeltaSize>): nat {
    if AllSame(pending) then |pending|
    else if |pending| == ONE_BIT_CAPACITY then ONE_BIT_CAPACITY
    else TWO_BIT_CAPACITY
  }

  ghost function EmitChunk(pending: seq<DeltaSize>): uint16
    requires TWO_BIT_CAPACITY <= |pending| && Encodable(pending)
  {
    if AllSame(pending) then RunLengthChunk(pending[0], |pending|)
    else if |pending| == ONE_BIT_CAPACITY then OneBitChunk(pending)
    else TwoBitChunk(pending[..TWO_BIT_CAPACITY])
  }

  ghost predicate EncoderInv(e: Encoder) {
    Encodable(e.pending)
  }

  ghost function EncoderAdd(e: Encoder, d: DeltaSize): Encoder
    requires EncoderInv(e)
  {
    if Encodable(e.pending + [d]) then e.(pending := e.pending + [d])
    else Encoder(e.chunks + [EmitChunk(e.pending)], e.pending[EmitCount(e.pending)..] + [d])
  }

  /** A finished chunk decodes, without any count to cut it off, to exactly the
      symbols it took; it took at least seven; what is left accepts any symbol. */
  lemma EmitIsExact(pending: seq<DeltaSize>)
    requires TWO_BIT_CAPACITY <= |pending| && Encodable(pending)
    ensures TWO_BIT_CAPACITY <= EmitCount(pending) <= |pending|
    ensures DecodedFully(EmitChunk(pending)) == pending[..EmitCount(pending)]
    ensures |pending| - EmitCount(pending) < TWO_BIT_CAPACITY
  {
    if AllSame(pending) {
      RunLengthRoundTrip(pending);
    } else if |pending| == ONE_BIT_CAPACITY {
      OneBitRoundTrip(pending);
    } else {
      TwoBitRoundTrip(pending[..TWO_BIT_CAPACITY]);
    }
  }

  /** The finished chunk is the largest: no longer prefix is what some chunk decodes to. */
  ghost predicate EmitsLargest(pending: seq<DeltaSize>) {
    forall chunk: uint16, n :: EmitCount(pending) < n <= |pending| ==> DecodedFully(chunk) != pending[..n]
  }

  /** Exactly when it is: mixed symbols that begin with a run of eight or more are
      taken as seven two-bit symbols although the run alone is longer. */
  lemma EmitIsLargestExactly(pending: seq<DeltaSize>)
    requires TWO_BIT_CAPACITY <= |pending| && Encodable(pending)
    ensures EmitsLargest(pending) <==>
            || AllSame(pending) || |pending| == TWO_BIT_CAPACITY || |pending| == ONE_BIT_CAPACITY
            || !AllSame(pending[..TWO_BIT_CAPACITY + 1])
  {
    hide OneBitSymbol, TwoBitSymbol;
    if !AllSame(pending) && TWO_BIT_CAPACITY < |pending| < ONE_BIT_CAPACITY {
      var run := pending[..TWO_BIT_CAPACITY + 1];
      if AllSame(run) {
        RunLengthRoundTrip(run);
        assert DecodedFully(RunLengthChunk(run[0], |run|)) == pending[..TWO_BIT_CAPACITY + 1];
      } else {
        forall chunk: uint16, n | TWO_BIT_CAPACITY < n <= |pending| ensures DecodedFully(chunk) != pending[..n] {
          var d := DecodedFully(chunk);
          if d == pending[..n] {
            assert chunk < 0x8000;
            assert AllSame(d);
            assert forall i :: 0 <= i < |run| ==> run[i] == d[i];
          }
        }
      }
    }
  }

  /** Such symbols: eight times 0 and then 1, when a 2 comes next. */
  lemma EmitCanBeLarger(pending: seq<DeltaSize>)
    requires pending == [0, 0, 0, 0, 0, 0, 0, 0, 1]
    ensures Encodable(pending) && !Encodable(pending + [2]) && EmitCount(pending) == TWO_BIT_CAPACITY
    ensures DecodedFully(RunLengthChunk(0, 8)) == pending[..8]
    ensures !EmitsLargest(pending)
  {
    var run := pending[..8];
    assert pending[8] == 1 && (pending + [2])[9] == 2;
    RunLengthRoundTrip(run);
    assert !AllSame(pending);
  }

  lemma DecodedAllPush(chunks: seq<uint16>, c: uint16)
    ensures DecodedAll(chunks + [c]) == DecodedAll(chunks) + DecodedFully(c)
  {
    assert (chunks + [c])[..|chunks|] == chunks;
  }

  /** One step neither loses, adds nor reorders a symbol. */
  lemma EncoderAddIsLossless(e: Encoder, d: DeltaSize)
    requires EncoderInv(e)
    ensures EncoderInv(EncoderAdd(e, d))
    ensures var e' := EncoderAdd(e, d);
            DecodedAll(e'.chunks) + e'.pending == DecodedAll(e.chunks) + e.pending + [d]
    ensures EncoderAdd(e, d).pending != []
  {
    if !Encodable(e.pending + [d]) {
      EmitIsExact(e.pending);
      DecodedAllPush(e.chunks, EmitChunk(e.pending));
      var n := EmitCount(e.pending);
      assert e.pending == e.pending[..n] + e.pending[n..];
    }
  }

  /** Finished chunks stay dense: at least seven symbols each. */
  ghost predicate Dense(chunks: seq<uint16>) {
    TWO_BIT_CAPACITY * |chunks| <= |DecodedAll(chunks)|
  }

  lemma EncoderAddIsDense(e: Encoder, d: DeltaSize)
    requires EncoderInv(e) && Dense(e.chunks)
    ensures Dense(EncoderAdd(e, d).chunks)
  {
    if !Encodable(e.pending + [d]) {
      EmitIsExact(e.pending);
      DecodedAllPush(e.chunks, EmitChunk(e.pending));
    }
  }

  /** The encoder after a whole run of symbols. */
  ghost function EncodeRun(symbols: seq<DeltaSize>): (e: Encoder)
    ensures EncoderInv(e)
    ensures symbols != [] ==> e.pending != []
  {
    if symbols == [] then Encoder([], [])
    else
      var e := EncodeRun(symbols[..|symbols| - 1]);
      EncoderAddIsLossless(e, symbols[|symbols| - 1]);
      EncoderAdd(e, symbols[|symbols| - 1])
  }

  /** The last, unfinished chunk. */
  ghost function LastChunkWord(pending: seq<DeltaSize>): uint16
    requires pending != [] && Encodable(pending)
  {
    if AllSame(pending) then RunLengthChunk(pending[0], |pending|)
    else if |pending| <= TWO_BIT_CAPACITY then TwoBitChunk(pending)
    else OneBitChunk(pending)
  }

  lemma LastChunkRoundTrip(pending: seq<DeltaSize>)
    requires pending != [] && Encodable(pending)
    ensures Decoded(LastChunkWord(pending), |pending|) == pending
  {
    if AllSame(pending) {
      RunLengthRoundTrip(pending);
    } else if |pending| <= TWO_BIT_CAPACITY {
      TwoBitRoundTrip(pending);
    } else {
      OneBitRoundTrip(pending);
    }
  }

  ghost function Carried(e: Encoder): seq<DeltaSize> {
    DecodedAll(e.chunks) + e.pending
  }

  lemma {:induction false} EncodeRunCarries(symbols: seq<DeltaSize>)
    ensures Carried(EncodeRun(symbols)) == symbols
    ensures Dense(EncodeRun(symbols).chunks)
  {
    if symbols == [] {
      assert EncodeRun(symbols) == Encoder([], []);
    } else {
      var init, d := symbols[..|symbols| - 1], symbols[|symbols| - 1];
      EncodeRunCarries(init);
      var e := EncodeRun(init);
      assert EncodeRun(symbols) == EncoderAdd(e, d);
      EncoderAddIsLossless(e, d);
      EncoderAddIsDense(e, d);
      assert init + [d] == symbols;
    }
  }

  /** Any run of symbols comes back from its chunks, the last one cut off at the
      remaining count; every finished chunk carries at least seven symbols. */
  lemma EncoderIsLossless(symbols: seq<DeltaSize>)
    requires symbols != []
    ensures var e := EncodeRun(symbols);
            && |DecodedAll(e.chunks)| <= |symbols|
            && DecodedAll(e.chunks) +
               Decoded(LastChunkWord(e.pending), |symbols| - |DecodedAll(e.chunks)|) == symbols
            && Dense(e.chunks)
  {
    EncodeRunCarries(symbols);
    var e := EncodeRun(symbols);
    LastChunkRoundTrip(e.pending);
    assert |symbols| - |DecodedAll(e.chunks)| == |e.pending|;
  }
}
