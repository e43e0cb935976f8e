/**
 Packing lost sequence numbers into PID/BLP entries, section 6.2.1 of RFC 4585
 (NackPacket in src/rtp_rtcp/rtcp_packet.cpp).
 */
module NackPacking {
  import opened SequenceNumber

  /** How many numbers one entry can name: the PID and the 16 after it. */
  const WINDOW := 17

  datatype PackedNack = PackedNack(firstPid: uint16, bitmask: uint16)

  function Pow2(n: nat): nat {
    if n == 0 then 1 else 2 * Pow2(n - 1)
  }

  predicate TestBit(m: nat, i: nat) {
    if i == 0 then m % 2 == 1 else TestBit(m / 2, i - 1)
  }

  function SetBit(m: nat, i: nat): nat {
    if i == 0 then (if m % 2 == 1 then m else m + 1) else 2 * SetBit(m / 2, i - 1) + m % 2
  }

  lemma {:induction false} SetBitFits(m: nat, i: nat, n: nat)
    requires m < Pow2(n) && i < n
    ensures SetBit(m, i) < Pow2(n)
  {
    var half := Pow2(n - 1);
    assert Pow2(n) == 2 * half;
    if i > 0 {
      assert m / 2 < half;
      SetBitFits(m / 2, i - 1, n - 1);
    }
  }

  /** SetBit is bitwise or with one bit: it sets that bit and no other. */
  lemma {:induction false} SetBitSetsOne(m: nat, i: nat, j: nat)
    ensures TestBit(SetBit(m, i), j) <==> j == i || TestBit(m, j)
  {
    if i > 0 && j > 0 {
      SetBitSetsOne(m / 2, i - 1, j - 1);
    }
  }

  lemma {:induction false} BitBelow(m: nat, i: nat)
    requires TestBit(m, i)
    ensures i < m
  {
    if i > 0 {
      BitBelow(m / 2, i - 1);
    }
  }

  function WithBit(m: uint16, i: nat): uint16
    requires i < 16
  {
    assert Pow2(16) == 0x1_0000 by { assert Pow2(8) == 0x100; assert Pow2(12) == 0x1000; }
    SetBitFits(m, i, 16);
    SetBit(m, i)
  }

  // ---------------------------------------------------------------------
  // Unpacking.

  function UnpackBits(pid: uint16, bitmask: nat): (r: seq<uint16>)
    decreases bitmask
  {
    if bitmask == 0 then []
    else (if bitmask % 2 == 1 then [pid] else []) + UnpackBits(ToUint16(pid + 1), bitmask / 2)
  }

  function Unpack(item: PackedNack): seq<uint16> {
    [item.firstPid] + UnpackBits(ToUint16(item.firstPid + 1), item.bitmask)
  }

  function UnpackAll(items: seq<PackedNack>): seq<uint16> {
    if items == [] then []
    else UnpackAll(items[..|items| - 1]) + Unpack(items[|items| - 1])
  }

  lemma {:induction false} UnpackAllFront(item: PackedNack, items: seq<PackedNack>)
    ensures UnpackAll([item] + items) == Unpack(item) + UnpackAll(items)
  {
    var all := [item] + items;
    if items != [] {
      UnpackAllFront(item, items[..|items| - 1]);
      assert all[..|all| - 1] == [item] + items[..|items| - 1];
    } else {
      assert all[..0] == [];
    }
  }

  lemma NextDistance(pid: uint16, e: uint16)
    ensures var d, next := ToUint16(e - pid), ToUint16(pid + 1);
            && (d == 0 <==> e == pid)
            && ToUint16(e - (next as int)) == if d == 0 then 0xffff else d - 1
  {
  }

  lemma {:induction false} BitsNamed(pid: uint16, bitmask: nat, e: uint16)
    requires bitmask < 0x1_0000
    ensures e in UnpackBits(pid, bitmask) <==> TestBit(bitmask, ToUint16(e - pid))
    decreases bitmask
  {
    hide ToUint16;
    var d := ToUint16(e - pid);
    if bitmask == 0 {
      if TestBit(0, d) { BitBelow(0, d); }
    } else {
      NextDistance(pid, e);
      BitsNamed(ToUint16(pid + 1), bitmask / 2, e);
      if d == 0 && TestBit(bitmask / 2, 0xffff) {
        BitBelow(bitmask / 2, 0xffff);
      }
    }
  }

  lemma BitAdded(pid: uint16, bitmask: uint16, shift: nat, e: uint16)
    requires shift < 16
    ensures e in Unpack(PackedNack(pid, WithBit(bitmask, shift))) <==>
            e in Unpack(PackedNack(pid, bitmask)) || e == ToUint16(pid + 1 + shift)
  {
    hide SetBit, TestBit, UnpackBits;
    var first := ToUint16(pid + 1);
    BitsNamed(first, bitmask, e);
    BitsNamed(first, WithBit(bitmask, shift), e);
    SetBitSetsOne(bitmask, shift, ToUint16(e - first));
    assert ToUint16(e - first) == shift <==> e == ToUint16(pid + 1 + shift);
  }

  lemma Wraps(a: int, b: int)
    ensures ToUint16(ToUint16(a) + b) == ToUint16(a + b)
  {
  }

  /** Bits come out in increasing order, so a bit above all others comes last. */
  lemma {:induction false} HighBitLast(pid: uint16, bitmask: nat, shift: nat)
    requires bitmask < Pow2(shift)
    ensures UnpackBits(pid, SetBit(bitmask, shift)) == UnpackBits(pid, bitmask) + [ToUint16(pid + shift)]
    ensures 0 < SetBit(bitmask, shift) < Pow2(shift + 1)
    decreases shift
  {
    hide ToUint16;
    var after, next := SetBit(bitmask, shift), ToUint16(pid + 1);
    if shift == 0 {
      assert UnpackBits(next, 0) == [];
      Wraps(pid, 0);
      assert ToUint16(pid) == pid by { Unwrapped(pid); }
    } else {
      HighBitLast(next, bitmask / 2, shift - 1);
      Wraps(pid + 1, shift - 1);
      assert after / 2 == SetBit(bitmask / 2, shift - 1) && after % 2 == bitmask % 2;
    }
  }

  lemma Unwrapped(pid: uint16)
    ensures ToUint16(pid) == pid
  {
  }

  // ---------------------------------------------------------------------
  // Greedy packing.

  function Shift(e: uint16, pid: uint16): uint16 {
    ToUint16(e - pid - 1)
  }

  function PackFrom(pid: uint16, bitmask: uint16, rest: seq<uint16>): seq<PackedNack>
    decreases |rest|
  {
    if rest == [] then [PackedNack(pid, bitmask)]
    else if Shift(rest[0], pid) <= 15 then PackFrom(pid, WithBit(bitmask, Shift(rest[0], pid)), rest[1..])
    else [PackedNack(pid, bitmask)] + PackFrom(rest[0], 0, rest[1..])
  }

  /** The entries NackPacket::Serialize makes of a list. */
  function Pack(list: seq<uint16>): seq<PackedNack> {
    if list == [] then [] else PackFrom(list[0], 0, list[1..])
  }

  lemma ShiftOf(pid: uint16, e: uint16)
    ensures ToUint16(pid + (Shift(e, pid) + 1)) == e
    ensures ToUint16(pid + 1 + Shift(e, pid)) == e
    ensures ToUint16(ToUint16(pid + 1) + Shift(e, pid)) == e
    ensures ToUint16(e + 0) == e
  {
  }

  lemma NoBits(pid: uint16)
    ensures Unpack(PackedNack(pid, 0)) == [pid]
  {
  }

  lemma UnpackAllOne(item: PackedNack)
    ensures UnpackAll([item]) == Unpack(item)
  {
    UnpackAllFront(item, []);
    assert [item] + [] == [item];
  }

  lemma {:induction false} PackFromNames(pid: uint16, bitmask: uint16, rest: seq<uint16>, e: uint16)
    ensures e in UnpackAll(PackFrom(pid, bitmask, rest)) <==> e in Unpack(PackedNack(pid, bitmask)) || e in rest
    decreases |rest|
  {
    hide UnpackAll, Unpack, WithBit, ToUint16, Shift;
    var item := PackedNack(pid, bitmask);
    UnpackAllOne(item);
    if rest != [] {
      var shift := Shift(rest[0], pid);
      assert e in rest <==> e == rest[0] || e in rest[1..];
      if shift <= 15 {
        PackFromNames(pid, WithBit(bitmask, shift), rest[1..], e);
        BitAdded(pid, bitmask, shift, e);
        ShiftOf(pid, rest[0]);
      } else {
        PackFromNames(rest[0], 0, rest[1..], e);
        NoBits(rest[0]);
        UnpackAllFront(item, PackFrom(rest[0], 0, rest[1..]));
      }
    }
  }

  /** Whatever the list, its entries name exactly its numbers. */
  lemma PackNamesTheSame(list: seq<uint16>, e: uint16)
    ensures e in UnpackAll(Pack(list)) <==> e in list
  {
    if list != [] {
      PackFromNames(list[0], 0, list[1..], e);
      assert list == [list[0]] + list[1..];
    }
  }

  /** Each number is newer, in circular order, than the one before it. */
  predicate CircularlyIncreasing(list: seq<uint16>) {
    forall i :: 0 < i < |list| ==> SeqNumGT(list[i], list[i - 1])
  }

  lemma ChainTail(a: uint16, rest: seq<uint16>)
    requires CircularlyIncreasing([a] + rest) && rest != []
    ensures SeqNumGT(rest[0], a) && CircularlyIncreasing(rest)
    ensures [rest[0]] + rest[1..] == rest
  {
    hide SeqNumGT;
    var all := [a] + rest;
    assert SeqNumGT(all[1], all[0]);
    forall i | 0 < i < |rest| ensures SeqNumGT(rest[i], rest[i - 1]) {
      assert SeqNumGT(all[i + 1], all[i]);
    }
  }

  lemma {:induction false} PackFromKeeps(pid: uint16, bitmask: uint16, k: nat, rest: seq<uint16>)
    requires k <= 16 && bitmask < Pow2(k)
    requires CircularlyIncreasing([ToUint16(pid + k)] + rest)
    ensures UnpackAll(PackFrom(pid, bitmask, rest)) == Unpack(PackedNack(pid, bitmask)) + rest
    decreases |rest|
  {
    hide ToUint16, SeqNumGT, SetBit, UnpackBits, UnpackAll, CircularlyIncreasing, Shift;
    var item := PackedNack(pid, bitmask);
    UnpackAllOne(item);
    if rest != [] {
      ChainTail(ToUint16(pid + k), rest);
      var shift := Shift(rest[0], pid);
      ShiftOf(pid, rest[0]);
      if shift <= 15 {
        ShiftsGrow(pid, k, rest[0]);
        Pow2Grows(k, shift);
        HighBitLast(ToUint16(pid + 1), bitmask, shift);
        PackFromKeeps(pid, WithBit(bitmask, shift), shift + 1, rest[1..]);
      } else {
        ShiftOf(rest[0], rest[0]);
        PackFromKeeps(rest[0], 0, 0, rest[1..]);
        NoBits(rest[0]);
        UnpackAllFront(item, PackFrom(rest[0], 0, rest[1..]));
      }
    }
  }

  lemma ShiftsGrow(pid: uint16, k: nat, e: uint16)
    requires k <= 16 && SeqNumGT(e, ToUint16(pid + k)) && Shift(e, pid) <= 15
    ensures Shift(e, pid) >= k
  {
  }

  lemma {:induction false} Pow2Grows(a: nat, b: nat)
    requires a <= b
    ensures Pow2(a) <= Pow2(b)
    decreases b
  {
    if a < b { Pow2Grows(a, b - 1); }
  }

  /** A list in circular order comes back unchanged: same numbers, same order. */
  lemma PackKeepsOrderedLists(list: seq<uint16>)
    requires CircularlyIncreasing(list)
    ensures UnpackAll(Pack(list)) == list
  {
    if list != [] {
      assert list == [ToUint16(list[0] + 0)] + list[1..];
      PackFromKeeps(list[0], 0, 0, list[1..]);
    }
  }

  // ---------------------------------------------------------------------
  // Greedy packing is optimal.

  predicate Increasing(xs: seq<int>) {
    forall i :: 0 < i < |xs| ==> xs[i - 1] < xs[i]
  }

  /** The numbers at which the entries start, unwrapped. */
  function HeadsFrom(pid: int, rest: seq<int>): seq<int>
    decreases |rest|
  {
    if rest == [] then [pid]
    else if rest[0] - pid < WINDOW then HeadsFrom(pid, rest[1..])
    else [pid] + HeadsFrom(rest[0], rest[1..])
  }

  lemma IncreasingTail(pid: int, rest: seq<int>)
    requires Increasing([pid] + rest) && rest != []
    ensures pid < rest[0] <= rest[|rest| - 1] && Increasing(rest)
    ensures Increasing([rest[0]] + rest[1..]) && Increasing([pid] + rest[1..])
  {
    var all := [pid] + rest;
    IncreasingSpan(all);
    assert all[0] < all[1];
    forall i | 0 < i < |rest| ensures rest[i - 1] < rest[i] {
      assert all[i] < all[i + 1];
    }
    IncreasingSpan(rest);
    assert [rest[0]] + rest[1..] == rest;
    var fewer := [pid] + rest[1..];
    forall i | 0 < i < |fewer| ensures fewer[i - 1] < fewer[i] {
      assert all[if i == 1 then 0 else i] < all[i + 1];
    }
  }

  lemma ShiftIsDistance(pid: int, x: int)
    requires pid < x < pid + SPAN
    ensures Shift(ToUint16(x), ToUint16(pid)) == x - pid - 1
  {
  }

  lemma {:induction false} HeadsCountEntries(pid: int, bitmask: uint16, rest: seq<int>)
    requires Increasing([pid] + rest) && (rest != [] ==> rest[|rest| - 1] - pid < SPAN)
    ensures |HeadsFrom(pid, rest)| == |PackFrom(ToUint16(pid), bitmask, Residues(rest))|
    decreases |rest|
  {
    hide Increasing, ToUint16, Shift, WithBit;
    if rest != [] {
      IncreasingTail(pid, rest);
      assert Residues(rest)[1..] == Residues(rest[1..]) && Residues(rest)[0] == ToUint16(rest[0]);
      ShiftIsDistance(pid, rest[0]);
      if rest[0] - pid < WINDOW {
        HeadsCountEntries(pid, WithBit(bitmask, rest[0] - pid - 1), rest[1..]);
      } else {
        HeadsCountEntries(rest[0], 0, rest[1..]);
      }
    }
  }

  lemma {:induction false} IncreasingSpan(xs: seq<int>)
    requires Increasing(xs)
    ensures forall i, j :: 0 <= i < j < |xs| ==> xs[i] < xs[j]
  {
    if xs != [] {
      var n := |xs| - 1;
      IncreasingSpan(xs[..n]);
      if n > 0 {
        assert xs[n - 1] < xs[n];
        forall i | 0 <= i < n ensures xs[i] < xs[n] {
          if i < n - 1 { assert xs[..n][i] < xs[..n][n - 1]; }
        }
      }
      forall i, j | 0 <= i < j < |xs| ensures xs[i] < xs[j] {
        if j < n { assert xs[..n][i] < xs[..n][j]; }
      }
    }
  }

  /** Entry w can name number e. */
  predicate InWindow(w: uint16, e: uint16) {
    ToUint16(e - w) < WINDOW
  }

  ghost predicate Named(e: uint16, windows: set<uint16>) {
    exists w :: w in windows && InWindow(w, e)
  }

  ghost predicate CoveredBy(list: seq<uint16>, windows: set<uint16>) {
    forall i :: 0 <= i < |list| ==> Named(list[i], windows)
  }

  lemma {:induction false} BitsFit(m: nat, i: nat, n: nat)
    requires TestBit(m, i) && m < Pow2(n)
    ensures i < n
  {
    if n == 0 {
      BitBelow(0, i);
    } else if i > 0 {
      BitsFit(m / 2, i - 1, n - 1);
    }
  }

  /** An entry names nothing outside its window. */
  lemma NamesItsWindow(item: PackedNack, e: uint16)
    requires e in Unpack(item)
    ensures InWindow(item.firstPid, e)
  {
    hide UnpackBits, TestBit;
    var next := ToUint16(item.firstPid + 1);
    if e != item.firstPid {
      BitsNamed(next, item.bitmask, e);
      assert Pow2(16) == 0x1_0000 by { assert Pow2(8) == 0x100; assert Pow2(12) == 0x1000; }
      BitsFit(item.bitmask, ToUint16(e - next), 16);
      assert ToUint16(e - item.firstPid) == ToUint16(e - next) + 1;
    }
  }

  ghost function Starts(items: seq<PackedNack>): set<uint16> {
    set i | i in items :: i.firstPid
  }

  lemma {:induction false} NamedByOne(items: seq<PackedNack>, e: uint16)
    requires e in UnpackAll(items)
    ensures Named(e, Starts(items))
  {
    hide InWindow, Unpack;
    var n := |items| - 1;
    if e in Unpack(items[n]) {
      NamesItsWindow(items[n], e);
      assert items[n].firstPid in Starts(items);
    } else {
      NamedByOne(items[..n], e);
      var w :| w in Starts(items[..n]) && InWindow(w, e);
      assert w in Starts(items);
    }
  }

  /** The greedy entries do name every number of the list. */
  lemma PackCovers(list: seq<uint16>)
    ensures CoveredBy(list, Starts(Pack(list)))
    ensures |Starts(Pack(list))| <= |Pack(list)|
  {
    forall i | 0 <= i < |list| ensures Named(list[i], Starts(Pack(list))) {
      PackNamesTheSame(list, list[i]);
      NamedByOne(Pack(list), list[i]);
    }
    FewStarts(Pack(list));
  }

  lemma {:induction false} FewStarts(items: seq<PackedNack>)
    ensures |Starts(items)| <= |items|
  {
    if items != [] {
      var n := |items| - 1;
      FewStarts(items[..n]);
      assert Starts(items) == Starts(items[..n]) + {items[n].firstPid} by {
        assert items == items[..n] + [items[n]];
      }
    } else {
      assert Starts(items) == {};
    }
  }

  /** Heads are numbers of the list, in order, at least a window apart. */
  lemma {:induction false} HeadsApart(pid: int, rest: seq<int>)
    requires Increasing([pid] + rest)
    ensures var heads := HeadsFrom(pid, rest);
            && heads != [] && heads[0] == pid
            && (forall i :: 0 <= i < |heads| ==> heads[i] in [pid] + rest)
            && (forall i, j :: 0 <= i < j < |heads| ==> heads[i] + WINDOW <= heads[j])
    decreases |rest|
  {
    hide Increasing;
    if rest != [] {
      IncreasingTail(pid, rest);
      assert [rest[0]] + rest[1..] == rest;
      var heads := HeadsFrom(pid, rest);
      if rest[0] - pid < WINDOW {
        HeadsApart(pid, rest[1..]);
      } else {
        HeadsApart(rest[0], rest[1..]);
        var later := HeadsFrom(rest[0], rest[1..]);
        assert heads == [pid] + later;
        forall i, j | 0 <= i < j < |heads| ensures heads[i] + WINDOW <= heads[j] {
          if j > 1 { assert later[0] + WINDOW <= later[j - 1]; }
        }
      }
    }
  }

  /** Numbers at least a window apart, also around the wrap, need a window each. */
  lemma {:induction false} NeedsAWindowEach(heads: seq<int>, windows: set<uint16>)
    requires forall i :: 0 <= i < |heads| ==> Named(ToUint16(heads[i]), windows)
    requires forall i, j :: 0 <= i < j < |heads| ==> heads[i] + WINDOW <= heads[j] < heads[i] + SPAN - 16
    ensures |heads| <= |windows|
    decreases |heads|
  {
    hide InWindow, ToUint16;
    if heads != [] {
      var n := |heads| - 1;
      var w :| w in windows && InWindow(w, ToUint16(heads[n]));
      var others := heads[..n];
      forall i | 0 <= i < n ensures Named(ToUint16(others[i]), windows - {w}) {
        var v :| v in windows && InWindow(v, ToUint16(heads[i]));
        if v == w {
          SharedWindow(heads[i], heads[n], w);
        }
      }
      NeedsAWindowEach(others, windows - {w});
    }
  }

  lemma SharedWindow(x: int, y: int, w: uint16)
    requires x <= y < x + SPAN - 16
    requires InWindow(w, ToUint16(x)) && InWindow(w, ToUint16(y))
    ensures y - x < WINDOW
  {
    Wraps(x, 0 - w);
    Wraps(y, 0 - w);
    Quotient(x - w, y - w);
  }

  lemma Quotient(a: int, b: int)
    requires ToUint16(a) < WINDOW && ToUint16(b) < WINDOW && a <= b < a + SPAN - 16
    ensures b - a < WINDOW
  {
    var i, j := a / SPAN, b / SPAN;
    assert a == SPAN * i + ToUint16(a) && b == SPAN * j + ToUint16(b);
  }

  /** No set of entries that names every number of the list is smaller than the
      greedy one, as long as the list spans less than 65520. */
  lemma GreedyIsOptimal(xs: seq<int>, windows: set<uint16>)
    requires Increasing(xs) && (xs != [] ==> xs[|xs| - 1] - xs[0] < SPAN - 16)
    requires CoveredBy(Residues(xs), windows)
    ensures |Pack(Residues(xs))| <= |windows|
  {
    hide Named, HeadsFrom, PackFrom, Increasing, Residues;
    if xs != [] {
      var pid, rest := xs[0], xs[1..];
      assert xs == [pid] + rest;
      HeadsCountEntries(pid, 0, rest);
      HeadsApart(pid, rest);
      var heads := HeadsFrom(pid, rest);
      assert Residues(xs)[1..] == Residues(rest) && Residues(xs)[0] == ToUint16(pid);
      assert Pack(Residues(xs)) == PackFrom(ToUint16(pid), 0, Residues(rest));
      IncreasingSpan(xs);
      forall i | 0 <= i < |heads|
        ensures Named(ToUint16(heads[i]), windows) && xs[0] <= heads[i] <= xs[|xs| - 1]
      {
        assert heads[i] in xs;
        var k :| 0 <= k < |xs| && xs[k] == heads[i];
        assert Residues(xs)[k] == ToUint16(heads[i]);
      }
      NeedsAWindowEach(heads, windows);
    }
  }

  /** A circularly increasing list of the given span and entries that name it. */
  ghost predicate Instance(xs: seq<int>, windows: set<uint16>, span: nat) {
    && xs != [] && Increasing(xs) && xs[|xs| - 1] - xs[0] == span
    && CircularlyIncreasing(Residues(xs))
    && CoveredBy(Residues(xs), windows)
  }

  ghost predicate OptimalAtSpan(span: nat) {
    forall xs, windows :: Instance(xs, windows, span) ==> |Pack(Residues(xs))| <= |windows|
  }

  lemma FourEntries(span: uint16)
    requires span > 40016
    ensures |Pack([0, 20000, 40000, span])| == 4
  {
    assert PackFrom(span, 0, []) == [PackedNack(span, 0)];
    assert PackFrom(40000, 0, [span]) == [PackedNack(40000, 0)] + PackFrom(span, 0, []);
    assert PackFrom(20000, 0, [40000, span]) == [PackedNack(20000, 0)] + PackFrom(40000, 0, [span]);
    assert PackFrom(0, 0, [20000, 40000, span]) == [PackedNack(0, 0)] + PackFrom(20000, 0, [40000, span]);
  }

  /** From span 65520 on, one entry can name both ends of a list around the wrap,
      and greedy packing can miss that. */
  lemma GreedyMissesTheWrap(span: nat)
    requires SPAN - 16 <= span < SPAN
    ensures !OptimalAtSpan(span)
  {
    hide Pack, TestBit;
    var xs := [0, 20000, 40000, span];
    var windows: set<uint16> := {20000, 40000} + {span};
    assert Residues(xs) == xs;
    assert InWindow(span, 0) && InWindow(20000, 20000) && InWindow(40000, 40000) && InWindow(span, span);
    assert Named(0, windows) && Named(20000, windows) && Named(40000, windows) && Named(span, windows);
    assert |windows| <= 3;
    assert Instance(xs, windows, span);
    FourEntries(span);
  }

  /** The exact condition on the span under which greedy packing is optimal. */
  lemma OptimalExactlyBelow(span: nat)
    requires span < SPAN
    ensures OptimalAtSpan(span) <==> span < SPAN - 16
  {
    if span < SPAN - 16 {
      forall xs, windows | Instance(xs, windows, span) ensures |Pack(Residues(xs))| <= |windows| {
        GreedyIsOptimal(xs, windows);
      }
    } else {
      GreedyMissesTheWrap(span);
    }
  }
}
