/**
 16-bit sequence numbers: the circular comparison and the unwrapper that lifts
 them to unbounded integers (src/base/sequence_number_util.h).
 */
module SequenceNumber {
  import opened Wrappers

  const SPAN := 0x1_0000
  const HALF := 0x8000

  type uint16 = x: int | 0 <= x < 0x1_0000

  function ToUint16(x: int): uint16 {
    x % SPAN
  }

  lemma HasResidue(x: int, turns: int, r: uint16)
    requires x == SPAN * turns + r
    ensures ToUint16(x) == r
  {
  }

  predicate SeqNumGE(a: uint16, b: uint16) {
    if a - b == HALF then a > b else (a - b) % SPAN < HALF
  }

  predicate SeqNumGT(a: uint16, b: uint16) {
    a != b && SeqNumGE(a, b)
  }

  /** Of two different numbers exactly one is the greater, even at distance 2^15. */
  lemma Trichotomy(a: uint16, b: uint16)
    requires a != b
    ensures SeqNumGT(a, b) <==> !SeqNumGT(b, a)
    ensures !SeqNumGT(a, a)
  {
    if a > b {
      assert (a - b) % SPAN == a - b && (b - a) % SPAN == b - a + SPAN;
    } else {
      assert (b - a) % SPAN == b - a && (a - b) % SPAN == a - b + SPAN;
    }
  }

  /** On unwrapped numbers less than 2^15 apart the circular order is the integer
      order; at distance exactly 2^15 the residues decide. */
  lemma CircularOrder(x: int, y: int)
    requires -HALF <= x - y <= HALF
    ensures -HALF < x - y < HALF ==> (SeqNumGT(ToUint16(x), ToUint16(y)) <==> x > y)
    ensures x - y == HALF || x - y == -HALF ==>
              (SeqNumGT(ToUint16(x), ToUint16(y)) <==> ToUint16(x) > ToUint16(y))
  {
    var a, b := ToUint16(x), ToUint16(y);
    assert (a - b) % SPAN == (x - y) % SPAN;
  }

  /** The comparison is transitive on any window narrower than 2^15, which is what
      an ordered container keyed by it relies on. */
  lemma TransitiveOnWindow(lo: int, x: int, y: int, z: int)
    requires lo <= x < lo + HALF && lo <= y < lo + HALF && lo <= z < lo + HALF
    requires SeqNumGT(ToUint16(x), ToUint16(y)) && SeqNumGT(ToUint16(y), ToUint16(z))
    ensures SeqNumGT(ToUint16(x), ToUint16(z))
  {
    CircularOrder(x, y);
    CircularOrder(y, z);
    CircularOrder(x, z);
  }

  /** What Unwrap adds to the last unwrapped value. */
  function UnwrapStep(value: uint16, last: uint16): int {
    if SeqNumGE(value, last) then ToUint16(value - last) else ToUint16(value - last) - SPAN
  }

  /** The step is the one signed distance of magnitude at most 2^15 that leads to
      the new residue; on the tie it goes forward exactly when SeqNumGT says so. */
  lemma UnwrapStepIsNearest(value: uint16, last: uint16)
    ensures -HALF <= UnwrapStep(value, last) <= HALF
    ensures (last + UnwrapStep(value, last)) % SPAN == value
    ensures SeqNumGT(value, last) <==> UnwrapStep(value, last) > 0
    ensures UnwrapStep(value, last) == HALF ==> value > last
    ensures UnwrapStep(value, last) == -HALF ==> value < last
  {
    assert (value - last) % SPAN == if value >= last then value - last else value - last + SPAN;
  }

  /** All values returned for a run of inputs, from the given state. */
  function UnwrapRun(last: Option<uint16>, unwrapped: int, values: seq<uint16>): (r: seq<int>)
    decreases |values|
  {
    if values == [] then []
    else
      var next := match last
        case None => values[0]
        case Some(l) => unwrapped + UnwrapStep(values[0], l);
      [next] + UnwrapRun(Some(values[0]), next, values[1..])
  }

  function Residues(xs: seq<int>): (r: seq<uint16>)
    ensures |r| == |xs|
    ensures forall i :: 0 <= i < |xs| ==> r[i] == xs[i] % SPAN
  {
    if xs == [] then [] else [ToUint16(xs[0])] + Residues(xs[1..])
  }

  /** The moves a receiver can follow: shorter than 2^15, or exactly 2^15 with the
      residues on the matching side. */
  predicate Followable(x: int, y: int) {
    || -HALF < y - x < HALF
    || (y - x == HALF && ToUint16(y) > ToUint16(x))
    || (y - x == -HALF && ToUint16(y) < ToUint16(x))
  }

  lemma StepFollowsExactly(x: int, y: int)
    ensures x + UnwrapStep(ToUint16(y), ToUint16(x)) == y <==> Followable(x, y)
  {
    var d := UnwrapStep(ToUint16(y), ToUint16(x));
    UnwrapStepIsNearest(ToUint16(y), ToUint16(x));
    assert (x + d) % SPAN == y % SPAN;
    if Followable(x, y) {
      assert (x + d - y) % SPAN == 0;
      if y - x == HALF || y - x == -HALF {
        CircularOrder(y, x);
      }
      assert -SPAN < x + d - y < SPAN || x + d - y == SPAN || x + d - y == -SPAN;
    }
  }

  ghost predicate AllFollowable(xs: seq<int>) {
    forall i :: 0 < i < |xs| ==> Followable(xs[i - 1], xs[i])
  }

  lemma {:induction false} UnwrapFrom(x: int, xs: seq<int>)
    ensures UnwrapRun(Some(ToUint16(x)), x, Residues(xs)) == xs <==> AllFollowable([x] + xs)
    decreases |xs|
  {
    var all := [x] + xs;
    if xs != [] {
      var rest := UnwrapRun(Some(ToUint16(xs[0])), xs[0], Residues(xs[1..]));
      StepFollowsExactly(x, xs[0]);
      UnwrapFrom(xs[0], xs[1..]);
      assert [xs[0]] + xs[1..] == xs;
      assert Residues(xs)[1..] == Residues(xs[1..]);
      if Followable(x, xs[0]) {
        assert UnwrapRun(Some(ToUint16(x)), x, Residues(xs)) == [xs[0]] + rest;
        assert rest == xs[1..] <==> [xs[0]] + rest == xs by {
          if [xs[0]] + rest == xs { assert rest == ([xs[0]] + rest)[1..]; }
        }
        if AllFollowable(xs) {
          forall i | 0 < i < |all| ensures Followable(all[i - 1], all[i]) {
            if i > 1 { assert all[i - 1] == xs[i - 2] && all[i] == xs[i - 1]; }
          }
        }
        if AllFollowable(all) {
          forall i | 0 < i < |xs| ensures Followable(xs[i - 1], xs[i]) {
            assert Followable(all[i], all[i + 1]);
          }
        }
      } else {
        assert UnwrapRun(Some(ToUint16(x)), x, Residues(xs))[0] != xs[0];
        assert !Followable(all[0], all[1]);
      }
    }
  }

  /** Unwrapping inverts truncation exactly when the sequence starts in [0, 65535]
      and every move is one a receiver can follow. */
  lemma UnwrapInvertsTruncation(xs: seq<int>)
    requires xs != []
    ensures UnwrapRun(None, 0, Residues(xs)) == xs <==> 0 <= xs[0] < SPAN && AllFollowable(xs)
  {
    hide Followable, UnwrapStep, ToUint16, AllFollowable;
    var x, rest := xs[0], xs[1..];
    UnwrapFrom(x, rest);
    OwnResidue(x);
    assert [x] + rest == xs;
    assert Residues(xs)[1..] == Residues(rest) && Residues(xs)[0] == ToUint16(x);
    var tail := UnwrapRun(Some(ToUint16(x)), ToUint16(x), Residues(rest));
    assert UnwrapRun(None, 0, Residues(xs)) == [ToUint16(x)] + tail;
    SameFront(ToUint16(x), tail, x, rest);
  }

  lemma OwnResidue(x: int)
    ensures ToUint16(x) == x % SPAN
    ensures ToUint16(x) == x <==> 0 <= x < SPAN
  {
  }

  lemma SameFront(a: int, s: seq<int>, b: int, t: seq<int>)
    ensures [a] + s == [b] + t <==> a == b && s == t
  {
    if [a] + s == [b] + t {
      assert a == ([a] + s)[0] && s == ([a] + s)[1..];
    }
  }

  lemma StepLands(before: int, step: int, last: uint16, value: uint16)
    requires before % SPAN == last && (last + step) % SPAN == value
    ensures (before + step) % SPAN == value
  {
  }

  class SeqNumUnwrapper {
    var lastUnwrapped: int
    var lastValue: Option<uint16>

    /** The unwrapped value always has the last residue seen. */
    ghost predicate Valid()
      reads this
    {
      lastValue.Some? ==> lastUnwrapped % SPAN == lastValue.value
    }

    constructor ()
      ensures Valid() && lastValue == None
    {
      lastUnwrapped := 0;
      lastValue := None;
    }

    /** One input moves the state along UnwrapRun by one element. */
    method Unwrap(value: uint16) returns (r: int)
      requires Valid()
      modifies this
      ensures Valid() && lastValue == Some(value) && lastUnwrapped == r
      ensures r % SPAN == value
      ensures [r] == UnwrapRun(old(lastValue), old(lastUnwrapped), [value])
      ensures old(lastValue) == None ==> r == value
      ensures old(lastValue).Some? ==> Followable(old(lastUnwrapped), r)
    {
      if lastValue == None {
        lastUnwrapped := value;
      } else {
        ghost var before, step := lastUnwrapped, UnwrapStep(value, lastValue.value);
        UnwrapStepIsNearest(value, lastValue.value);
        lastUnwrapped := lastUnwrapped + ToUint16(value - lastValue.value);
        if !SeqNumGE(value, lastValue.value) {
          lastUnwrapped := lastUnwrapped - SPAN;
        }
        assert lastUnwrapped == before + step;
        StepLands(before, step, lastValue.value, value);
      }
      lastValue := Some(value);
      r := lastUnwrapped;
    }
  }
}
