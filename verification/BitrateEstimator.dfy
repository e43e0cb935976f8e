/**
 The sliding-window byte counter (src/base/bitrate_estimator.cpp) against its full
 history.
 */
module BitrateEstimation {
  import opened Wrappers
  import opened TruncatedDivision

  const WINDOW_SIZE_MILLIS := 1000
  const MAX_INT64 := 0x7fff_ffff_ffff_ffff

  /** What happened: the clock was looked at, or a sample was added, dated no earlier
      than the newest one kept. */
  datatype Event = Look(now: int) | Sample(bytes: int, time: int)

  datatype Bucket = Bucket(totalBytes: int, numSamples: int, timestamp: int)

  function OldestTime(now: int): int {
    now - WINDOW_SIZE_MILLIS + 1
  }

  /** A sample counts as long as no later look found it older than 999 ms. */
  ghost predicate Counts(history: seq<Event>, i: nat) {
    && i < |history| && history[i].Sample?
    && forall j :: i < j < |history| && history[j].Look? ==> OldestTime(history[j].now) <= history[i].time
  }

  ghost predicate NotBefore(time: int, limit: Option<int>) {
    limit.Some? ==> time >= limit.value
  }

  /** The bytes of the counting samples among the first n, not dated before a limit. */
  ghost function BytesCounted(history: seq<Event>, n: nat, limit: Option<int>): int
    requires n <= |history|
  {
    if n == 0 then 0
    else BytesCounted(history, n - 1, limit)
         + if Counts(history, n - 1) && NotBefore(history[n - 1].time, limit) then history[n - 1].bytes else 0
  }

  ghost function SamplesCounted(history: seq<Event>, n: nat, limit: Option<int>): nat
    requires n <= |history|
  {
    if n == 0 then 0
    else SamplesCounted(history, n - 1, limit)
         + if Counts(history, n - 1) && NotBefore(history[n - 1].time, limit) then 1 else 0
  }

  // ---------------------------------------------------------------------
  // The buckets.

  ghost function BytesIn(buckets: seq<Bucket>, limit: Option<int>): int {
    if buckets == [] then 0
    else (if NotBefore(buckets[0].timestamp, limit) then buckets[0].totalBytes else 0) + BytesIn(buckets[1..], limit)
  }

  ghost function SamplesIn(buckets: seq<Bucket>, limit: Option<int>): int {
    if buckets == [] then 0
    else (if NotBefore(buckets[0].timestamp, limit) then buckets[0].numSamples else 0) + SamplesIn(buckets[1..], limit)
  }

  ghost predicate Ascending(buckets: seq<Bucket>) {
    forall i, j :: 0 <= i < j < |buckets| ==> buckets[i].timestamp <= buckets[j].timestamp
  }

  /** The buckets hold the counting samples, at every cut-off time. */
  ghost predicate Holds(buckets: seq<Bucket>, history: seq<Event>) {
    forall limit :: && BytesIn(buckets, limit) == BytesCounted(history, |history|, limit)
                    && SamplesIn(buckets, limit) == SamplesCounted(history, |history|, limit)
  }

  function Later(limit: Option<int>, t: int): Option<int> {
    if limit.Some? && limit.value >= t then limit else Some(t)
  }

  // ---------------------------------------------------------------------
  // One look, one sample.

  lemma {:induction false} CountedAfterLook(history: seq<Event>, now: int, n: nat, limit: Option<int>)
    requires n <= |history|
    ensures BytesCounted(history + [Look(now)], n, limit) ==
            BytesCounted(history, n, Later(limit, OldestTime(now)))
    ensures SamplesCounted(history + [Look(now)], n, limit) ==
            SamplesCounted(history, n, Later(limit, OldestTime(now)))
  {
    if n > 0 {
      var after, i := history + [Look(now)], n - 1;
      CountedAfterLook(history, now, i, limit);
      if Counts(after, i) {
        assert OldestTime(after[|history|].now) <= after[i].time;
        forall j | i < j < |history| && history[j].Look? ensures OldestTime(history[j].now) <= history[i].time {
          assert after[j] == history[j];
        }
      }
      assert Counts(after, i) <==> Counts(history, i) && history[i].time >= OldestTime(now);
    }
  }

  lemma {:induction false} CountedAfterSample(history: seq<Event>, s: Event, n: nat, limit: Option<int>)
    requires n <= |history| && s.Sample?
    ensures BytesCounted(history + [s], n, limit) == BytesCounted(history, n, limit)
    ensures SamplesCounted(history + [s], n, limit) == SamplesCounted(history, n, limit)
  {
    if n > 0 {
      var after, i := history + [s], n - 1;
      CountedAfterSample(history, s, i, limit);
      if Counts(after, i) {
        forall j | i < j < |history| && history[j].Look? ensures OldestTime(history[j].now) <= history[i].time {
          assert after[j] == history[j];
        }
      }
      assert Counts(after, i) <==> Counts(history, i);
    }
  }

  /** What is left of ascending buckets is what lies behind the cut. */
  lemma {:induction false} RestIsLater(buckets: seq<Bucket>, n: nat, t: int, limit: Option<int>)
    requires n <= |buckets|
    requires forall i :: 0 <= i < |buckets| ==> (i < n <==> buckets[i].timestamp < t)
    ensures BytesIn(buckets[n..], limit) == BytesIn(buckets, Later(limit, t))
    ensures SamplesIn(buckets[n..], limit) == SamplesIn(buckets, Later(limit, t))
    decreases |buckets|
  {
    if buckets != [] {
      var rest, m := buckets[1..], if n == 0 then 0 else n - 1;
      assert forall i :: 0 <= i < |rest| ==> rest[i] == buckets[i + 1];
      RestIsLater(rest, m, t, limit);
      if n > 0 {
        assert rest[m..] == buckets[n..];
      } else {
        assert rest[0..] == rest && buckets[0..] == buckets;
      }
    }
  }

  lemma LookCutsBuckets(buckets: seq<Bucket>, history: seq<Event>, now: int, n: nat)
    requires Holds(buckets, history) && n <= |buckets|
    requires forall i :: 0 <= i < |buckets| ==> (i < n <==> buckets[i].timestamp < OldestTime(now))
    ensures Holds(buckets[n..], history + [Look(now)])
  {
    var after := history + [Look(now)];
    forall limit
      ensures BytesIn(buckets[n..], limit) == BytesCounted(after, |after|, limit)
      ensures SamplesIn(buckets[n..], limit) == SamplesCounted(after, |after|, limit)
    {
      RestIsLater(buckets, n, OldestTime(now), limit);
      CountedAfterLook(history, now, |history|, limit);
      assert !Counts(after, |history|);
    }
  }

  /** Buckets with `bytes` and `samples` more in the last one. */
  function Fuller(buckets: seq<Bucket>, bytes: int, samples: int): seq<Bucket>
    requires buckets != []
  {
    var n := |buckets| - 1;
    var b := buckets[n];
    buckets[n := b.(totalBytes := b.totalBytes + bytes, numSamples := b.numSamples + samples)]
  }

  lemma {:induction false} FullerHas(buckets: seq<Bucket>, bytes: int, samples: int, limit: Option<int>)
    requires buckets != []
    ensures var inside := NotBefore(buckets[|buckets| - 1].timestamp, limit);
            var after := Fuller(buckets, bytes, samples);
            && BytesIn(after, limit) == BytesIn(buckets, limit) + (if inside then bytes else 0)
            && SamplesIn(after, limit) == SamplesIn(buckets, limit) + if inside then samples else 0
    decreases |buckets|
  {
    var after := Fuller(buckets, bytes, samples);
    if |buckets| > 1 {
      FullerHas(buckets[1..], bytes, samples, limit);
      assert after[1..] == Fuller(buckets[1..], bytes, samples);
    } else {
      assert after[1..] == [] && buckets[1..] == [];
    }
  }

  lemma {:induction false} EmptyBucketHasNothing(buckets: seq<Bucket>, t: int, limit: Option<int>)
    ensures BytesIn(buckets + [Bucket(0, 0, t)], limit) == BytesIn(buckets, limit)
    ensures SamplesIn(buckets + [Bucket(0, 0, t)], limit) == SamplesIn(buckets, limit)
    decreases |buckets|
  {
    var after := buckets + [Bucket(0, 0, t)];
    if buckets != [] {
      EmptyBucketHasNothing(buckets[1..], t, limit);
      assert after[1..] == buckets[1..] + [Bucket(0, 0, t)];
    } else {
      assert after[1..] == [];
    }
  }

  lemma SampleFillsBucket(buckets: seq<Bucket>, history: seq<Event>, bytes: int, time: int)
    requires Holds(buckets, history) && buckets != [] && buckets[|buckets| - 1].timestamp == time
    ensures Holds(Fuller(buckets, bytes, 1), history + [Sample(bytes, time)])
  {
    var after := history + [Sample(bytes, time)];
    forall limit
      ensures BytesIn(Fuller(buckets, bytes, 1), limit) == BytesCounted(after, |after|, limit)
      ensures SamplesIn(Fuller(buckets, bytes, 1), limit) == SamplesCounted(after, |after|, limit)
    {
      FullerHas(buckets, bytes, 1, limit);
      CountedAfterSample(history, Sample(bytes, time), |history|, limit);
      assert Counts(after, |history|);
    }
  }

  lemma HoldsAll(buckets: seq<Bucket>, history: seq<Event>)
    requires Holds(buckets, history)
    ensures BytesIn(buckets, None) == BytesCounted(history, |history|, None)
    ensures SamplesIn(buckets, None) == SamplesCounted(history, |history|, None)
  {
  }

  class BitRateEstimator {
    var buckets: seq<Bucket>
    var totalBytes: int
    var firstTimestamp: int
    var overflow: bool
    var numSamples: int

    ghost var history: seq<Event>

    ghost predicate Valid()
      reads this
    {
      && Ascending(buckets) && Holds(buckets, history)
      && numSamples == SamplesIn(buckets, None)
      && (!overflow ==> totalBytes == BytesIn(buckets, None))
    }

    constructor ()
      ensures Valid() && history == [] && buckets == [] && !overflow && firstTimestamp == -1
    {
      buckets, totalBytes, firstTimestamp, overflow, numSamples, history := [], 0, -1, false, 0, [];
    }

    /** The running totals are those of the history. */
    lemma TotalsAreCounted()
      requires Valid()
      ensures numSamples == SamplesCounted(history, |history|, None)
      ensures !overflow ==> totalBytes == BytesCounted(history, |history|, None)
    {
    }

    method EraseOld(now: int)
      requires Valid()
      modifies this`buckets, this`totalBytes, this`numSamples, this`history
      ensures Valid() && history == old(history) + [Look(now)]
      ensures buckets != [] ==>
                && buckets[0].timestamp >= OldestTime(now) && old(buckets) != []
                && buckets[|buckets| - 1] == old(buckets)[|old(buckets)| - 1]
    {
      hide Holds;
      ghost var before, n := buckets, 0;
      var newOldestTime := OldestTime(now);
      while buckets != [] && buckets[0].timestamp < newOldestTime
        invariant n <= |before| && buckets == before[n..] && Ascending(buckets) && history == old(history)
        invariant forall i :: 0 <= i < n ==> before[i].timestamp < newOldestTime
        invariant numSamples == SamplesIn(buckets, None)
        invariant !overflow ==> totalBytes == BytesIn(buckets, None)
        decreases |buckets|
      {
        totalBytes := totalBytes - buckets[0].totalBytes;
        numSamples := numSamples - buckets[0].numSamples;
        buckets := buckets[1..];
        n := n + 1;
      }
      LookCutsBuckets(before, history, now, n);
      history := history + [Look(now)];
    }

    /** A sample is dated now, or like the newest one kept if that is later. */
    method AddData(bytes: int, now: int) returns (time: int)
      requires Valid()
      modifies this
      ensures Valid() && history == old(history) + [Look(now)] + [Sample(bytes, time)]
      ensures time >= now && (old(buckets) == [] ==> time == now)
      ensures time > now ==> old(buckets) != [] && old(buckets)[|old(buckets)| - 1].timestamp == time
      ensures buckets != [] && buckets[|buckets| - 1].timestamp == time
      ensures old(overflow) ==> overflow
      ensures !old(overflow) ==> (overflow <==> BytesCounted(history, |history|, None) >= MAX_INT64)
      ensures firstTimestamp == if old(firstTimestamp) == -1 then now else old(firstTimestamp)
    {
      hide Holds, Ascending, BytesIn, SamplesIn, BytesCounted;
      EraseOld(now);
      if firstTimestamp == -1 {
        firstTimestamp := now;
      }
      time := now;
      if buckets == [] || now != buckets[|buckets| - 1].timestamp {
        if buckets != [] && now < buckets[|buckets| - 1].timestamp {
          time := buckets[|buckets| - 1].timestamp;
        }
        NewBucket(time);
      }
      FillBucket(bytes, time);
      HoldsAll(buckets, history);
      if MAX_INT64 - totalBytes > bytes {
        totalBytes := totalBytes + bytes;
      } else {
        overflow := true;
      }
      numSamples := numSamples + 1;
    }

    method NewBucket(time: int)
      requires Valid() && (buckets != [] ==> buckets[|buckets| - 1].timestamp <= time)
      modifies this`buckets
      ensures Valid() && buckets == old(buckets) + [Bucket(0, 0, time)]
    {
      forall limit
        ensures BytesIn(buckets + [Bucket(0, 0, time)], limit) == BytesIn(buckets, limit)
        ensures SamplesIn(buckets + [Bucket(0, 0, time)], limit) == SamplesIn(buckets, limit)
      {
        EmptyBucketHasNothing(buckets, time, limit);
      }
      buckets := buckets + [Bucket(0, 0, time)];
    }

    method FillBucket(bytes: int, time: int)
      requires Valid() && buckets != [] && buckets[|buckets| - 1].timestamp == time
      modifies this`buckets, this`history
      ensures history == old(history) + [Sample(bytes, time)]
      ensures buckets != [] && buckets[|buckets| - 1].timestamp == time
      ensures Ascending(buckets) && Holds(buckets, history)
      ensures numSamples + 1 == SamplesIn(buckets, None)
      ensures !overflow ==> totalBytes + bytes == BytesIn(buckets, None)
    {
      SampleFillsBucket(buckets, history, bytes, time);
      FullerHas(buckets, bytes, 1, None);
      history := history + [Sample(bytes, time)];
      buckets := Fuller(buckets, bytes, 1);
    }

    /** The length of time the samples are taken to spread over. */
    function ActiveWindowSize(now: int): int
      reads this
    {
      if firstTimestamp == -1 then 0
      else if firstTimestamp <= now - WINDOW_SIZE_MILLIS then WINDOW_SIZE_MILLIS
      else now - firstTimestamp + 1
    }

    /** The rate, before it is rounded as a float: bits per second of the counting
        samples; nothing without enough of them, or after an overflow. */
    method Rate(now: int) returns (r: Option<int>)
      requires Valid()
      modifies this`buckets, this`totalBytes, this`numSamples, this`history
      ensures Valid() && history == old(history) + [Look(now)]
      ensures var samples := SamplesCounted(history, |history|, None);
              r == None <==> samples == 0 || ActiveWindowSize(now) <= 1
                             || (samples == 1 && ActiveWindowSize(now) < WINDOW_SIZE_MILLIS) || overflow
      ensures r.Some? ==>
                r.value == TruncDiv(BytesCounted(history, |history|, None) * 1000, ActiveWindowSize(now)) * 8
    {
      EraseOld(now);
      TotalsAreCounted();
      var activeWindowSize := ActiveWindowSize(now);
      if numSamples == 0 || activeWindowSize <= 1 || (numSamples <= 1 && activeWindowSize < WINDOW_SIZE_MILLIS)
         || overflow {
        return None;
      }
      return Some(TruncDiv(totalBytes * 1000, activeWindowSize) * 8);
    }
  }

  // ---------------------------------------------------------------------
  // A constant stream.

  /** A sample of the same size every millisecond. */
  ghost function Stream(bytes: int, start: int, n: nat): seq<Event> {
    if n == 0 then []
    else Stream(bytes, start, n - 1) + [Look(start + n - 1)] + [Sample(bytes, start + n - 1)]
  }

  /** How many of the n times from start on are not before the limit. */
  function Within(start: int, n: nat, limit: int): nat {
    if limit <= start then n else if limit >= start + n then 0 else start + n - limit
  }

  lemma WithinMore(start: int, n: nat, limit: Option<int>)
    requires n > 0
    ensures var now := start + n - 1;
            var later := Later(limit, OldestTime(now));
            && Within(start, n, later.value) ==
               Within(start, n - 1, later.value) + (if NotBefore(now, limit) then 1 else 0)
            && Later(later, OldestTime(now - 1)) == later
  {
  }

  /** One sample more in the stream. */
  lemma CountedOneMore(before: seq<Event>, bytes: int, now: int, limit: Option<int>)
    ensures var h, later := before + [Look(now)] + [Sample(bytes, now)], Later(limit, OldestTime(now));
            && BytesCounted(h, |h|, limit) ==
               BytesCounted(before, |before|, later) + (if NotBefore(now, limit) then bytes else 0)
            && SamplesCounted(h, |h|, limit) ==
               SamplesCounted(before, |before|, later) + (if NotBefore(now, limit) then 1 else 0)
  {
    var looked := before + [Look(now)];
    CountedAfterSample(looked, Sample(bytes, now), |looked|, limit);
    assert Counts(looked + [Sample(bytes, now)], |looked|);
    CountedAfterLook(before, now, |before|, limit);
    assert !Counts(looked, |before|);
  }

  lemma {:induction false} StreamCounted(bytes: int, start: int, n: nat, limit: Option<int>)
    requires n > 0
    ensures var h, seen := Stream(bytes, start, n), Within(start, n, Later(limit, OldestTime(start + n - 1)).value);
            && BytesCounted(h, |h|, limit) == bytes * seen
            && SamplesCounted(h, |h|, limit) == seen
  {
    hide BytesCounted, SamplesCounted, NotBefore, Within;
    var now := start + n - 1;
    var later := Later(limit, OldestTime(now));
    CountedOneMore(Stream(bytes, start, n - 1), bytes, now, limit);
    WithinMore(start, n, limit);
    if n > 1 {
      StreamCounted(bytes, start, n - 1, later);
    } else {
      NothingCounted(start, later);
    }
    OneMoreTime(bytes, Within(start, n - 1, later.value));
  }

  lemma NothingCounted(start: int, limit: Option<int>)
    requires limit.Some?
    ensures BytesCounted([], 0, limit) == 0 && SamplesCounted([], 0, limit) == 0 && Within(start, 0, limit.value) == 0
  {
  }

  lemma OneMoreTime(bytes: int, seen: int)
    ensures bytes * (seen + 1) == bytes * seen + bytes && bytes * 0 == 0
  {
  }

  /** Looked at once more: all samples of the last second. */
  lemma StreamRate(bytes: nat, start: int, n: nat)
    requires n > 0
    ensures var h, seen := Stream(bytes, start, n) + [Look(start + n - 1)], if n < 1000 then n else 1000;
            BytesCounted(h, |h|, None) == bytes * seen && SamplesCounted(h, |h|, None) == seen
  {
    var h := Stream(bytes, start, n);
    var now := start + n - 1;
    CountedAfterLook(h, now, |h|, None);
    assert !Counts(h + [Look(now)], |h|);
    StreamCounted(bytes, start, n, Some(OldestTime(now)));
  }

  lemma Product(bytes: nat, seen: nat)
    requires seen <= 1000
    ensures 0 <= bytes * seen <= bytes * 1000
    ensures seen > 0 ==> TruncDiv(bytes * seen * 1000, seen) == bytes * 1000
  {
    if seen > 0 {
      assert bytes * seen * 1000 == bytes * 1000 * seen;
      DividesBack(bytes * 1000, seen, bytes * seen * 1000);
    }
  }

  lemma DividesBack(a: nat, k: nat, p: int)
    requires k > 0 && p == a * k
    ensures p >= 0 && p / k == a
  {
    var q, r := p / k, p % k;
    assert k * (a - q) == r by { assert p == k * q + r; }
    MultiplesApart(k, a - q);
  }

  lemma MultiplesApart(k: nat, d: int)
    requires k > 0
    ensures d > 0 ==> k * d >= k
    ensures d < 0 ==> k * d < 0
  {
    if d > 0 {
      assert k * d == k + k * (d - 1);
    }
  }

  /** The rate of a constant stream is its rate, from the second sample on: the window
      grows with the stream until it is a second long. */
  method ConstantStream(bytes: nat, start: nat, n: nat) returns (r: Option<int>)
    requires n >= 2 && bytes * 1000 < MAX_INT64
    ensures r == Some(8 * 1000 * bytes)
  {
    hide Stream, Counts, TruncDiv, BytesCounted, SamplesCounted, Holds, Ascending, BytesIn, SamplesIn, Within;
    var e := new BitRateEstimator();
    NoStream(bytes, start);
    for i := 0 to n
      invariant fresh(e) && e.Valid() && !e.overflow && e.history == Stream(bytes, start, i)
      invariant i == 0 ==> e.buckets == [] && e.firstTimestamp == -1
      invariant i > 0 ==>
                  && e.firstTimestamp == start
                  && e.buckets != [] && e.buckets[|e.buckets| - 1].timestamp == start + i - 1
    {
      StreamGoesOn(bytes, start, i);
      WithinSecond(start, i);
      var time := e.AddData(bytes, start + i);
      StreamCounted(bytes, start, i + 1, None);
      Product(bytes, Within(start, i + 1, OldestTime(start + i)));
    }
    StreamRate(bytes, start, n);
    Product(bytes, if n < 1000 then n else 1000);
    r := e.Rate(start + n - 1);
  }

  lemma WithinSecond(start: int, i: nat)
    ensures Within(start, i + 1, OldestTime(start + i)) <= 1000
  {
  }

  lemma NoStream(bytes: int, start: int)
    ensures Stream(bytes, start, 0) == []
  {
  }

  lemma StreamGoesOn(bytes: int, start: int, i: nat)
    ensures Stream(bytes, start, i + 1) == Stream(bytes, start, i) + [Look(start + i)] + [Sample(bytes, start + i)]
  {
  }
}
