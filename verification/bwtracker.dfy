/** The bandwidth tracker: a ring of per-interval byte counts, against a plain log of what was
    added. Times are nanoseconds of a clock that never goes back. */
module Bandwidth {
  import BitCodes

  const NS_PER_MS := 1_000_000
  const NS_PER_SECOND := 1_000_000_000

  datatype Entry = Entry(time: nat, bytes: nat)

  datatype Bucket = Bucket(start: nat, bytes: nat)

  // ----- intervals and the log -----

  /** The number of the interval that holds time t. */
  function Interval(t: nat, intervalMs: nat): nat
    requires intervalMs > 0
  {
    t / NS_PER_MS / intervalMs
  }

  function StartOf(k: nat, intervalMs: nat): nat {
    k * intervalMs * NS_PER_MS
  }

  /** All bytes the log has for interval k. */
  function Total(log: seq<Entry>, k: nat, intervalMs: nat): (n: nat)
    requires intervalMs > 0
  {
    if log == [] then 0
    else
      var e := log[|log| - 1];
      Total(log[..|log| - 1], k, intervalMs) + if Interval(e.time, intervalMs) == k then e.bytes else 0
  }

  /** No later interval of the log uses the same slot of a ring of count buckets. */
  predicate Kept(log: seq<Entry>, k: nat, count: nat, intervalMs: nat)
    requires intervalMs > 0 && count > 0
  {
    forall i :: 0 <= i < |log| ==>
      Interval(log[i].time, intervalMs) % count == k % count ==> Interval(log[i].time, intervalMs) <= k
  }

  predicate InWindow(k: nat, now: nat, windowSeconds: nat, intervalMs: nat) {
    StartOf(k, intervalMs) <= now <= StartOf(k, intervalMs) + windowSeconds * NS_PER_SECOND
  }

  /** In nanoseconds. */
  lemma WindowInNs(k: nat, now: nat, windowSeconds: nat, intervalMs: nat)
    ensures StartOf(k, intervalMs) == k * intervalMs * 1000000
    ensures InWindow(k, now, windowSeconds, intervalMs) <==>
      k * intervalMs * 1000000 <= now <= k * intervalMs * 1000000 + windowSeconds * 1000000000
  {
  }

  function Rate(bytes: nat, intervalMs: nat): real
    requires intervalMs > 0
  {
    bytes as real * 8.0 / 1000000.0 / (intervalMs as real / 1000.0)
  }

  lemma IntervalBounds(t: nat, intervalMs: nat)
    requires intervalMs > 0
    ensures var k := Interval(t, intervalMs);
            StartOf(k, intervalMs) <= t < StartOf(k, intervalMs) + intervalMs * 1000000
  {
    var ms := t / NS_PER_MS;
    var k := ms / intervalMs;
    assert ms == intervalMs * k + ms % intervalMs;
    assert k * intervalMs == intervalMs * k;
  }

  lemma IntervalOfStart(k: nat, intervalMs: nat)
    requires intervalMs > 0
    ensures Interval(StartOf(k, intervalMs), intervalMs) == k
  {
    assert StartOf(k, intervalMs) / NS_PER_MS == k * intervalMs;
    assert k * intervalMs == intervalMs * k + 0;
    BitCodes.ModIs(k * intervalMs, intervalMs, k, 0);
  }

  /** Starts of different intervals are at least an interval apart. */
  lemma StartsApart(k: nat, n: nat, intervalMs: nat)
    ensures StartOf(k + n, intervalMs) == StartOf(k, intervalMs) + StartOf(n, intervalMs)
    ensures n > 0 ==> StartOf(n, intervalMs) >= intervalMs * 1000000
  {
    assert (k + n) * intervalMs == k * intervalMs + n * intervalMs;
    if n > 0 {
      assert n * intervalMs >= intervalMs;
    }
  }

  lemma IntervalMonotone(t: nat, u: nat, intervalMs: nat)
    requires intervalMs > 0 && t <= u
    ensures Interval(t, intervalMs) <= Interval(u, intervalMs)
  {
    var k, l := Interval(t, intervalMs), Interval(u, intervalMs);
    IntervalBounds(t, intervalMs);
    IntervalBounds(u, intervalMs);
    if l < k {
      StartsApart(l, k - l, intervalMs);
    }
  }

  /** The intervals of the last count that time now can see are never overwritten. */
  lemma RecentKept(log: seq<Entry>, k: nat, now: nat, count: nat, intervalMs: nat)
    requires intervalMs > 0 && count > 0
    requires forall i :: 0 <= i < |log| ==> log[i].time <= now
    requires k + count > Interval(now, intervalMs)
    ensures Kept(log, k, count, intervalMs)
  {
    forall i | 0 <= i < |log| && Interval(log[i].time, intervalMs) % count == k % count
      ensures Interval(log[i].time, intervalMs) <= k
    {
      IntervalMonotone(log[i].time, now, intervalMs);
      var l := Interval(log[i].time, intervalMs);
      if l > k {
        CongruentApart(k, l, count);
      }
    }
  }

  lemma CongruentApart(k: nat, l: nat, count: nat)
    requires count > 0 && k < l && k % count == l % count
    ensures l >= k + count
  {
    var q, q' := k / count, l / count;
    assert k == count * q + k % count && l == count * q' + l % count;
    BitCodes.MulDistributes(count, q', q);
    if q' > q {
      BitCodes.MulAtLeast(count, q' - q);
    } else {
      BitCodes.MulNonNegative(count, q - q');
      BitCodes.MulDistributes(count, q, q');
    }
  }

  /** With a window of whole intervals, and now not on a boundary, the window holds the last
      count intervals and no other. */
  lemma WindowIsRecent(k: nat, now: nat, windowSeconds: nat, count: nat, intervalMs: nat)
    requires intervalMs > 0 && count * intervalMs == windowSeconds * 1000
    requires InWindow(k, now, windowSeconds, intervalMs)
    requires now != StartOf(Interval(now, intervalMs), intervalMs)
    ensures k + count > Interval(now, intervalMs)
  {
    var k0 := Interval(now, intervalMs);
    IntervalBounds(now, intervalMs);
    assert StartOf(count, intervalMs) == windowSeconds * NS_PER_SECOND;
    StartsApart(k, count, intervalMs);
    if k + count <= k0 {
      StartsApart(k + count, k0 - (k + count), intervalMs);
    }
  }

  /** On a boundary the window also reaches the interval count before the current one, which has
      lost its bucket as soon as anything was added in the current one. */
  lemma BoundaryLosesOldest(log: seq<Entry>, k: nat, now: nat, windowSeconds: nat, count: nat, intervalMs: nat)
    requires intervalMs > 0 && count > 0 && count * intervalMs == windowSeconds * 1000
    requires now == StartOf(k + count, intervalMs)
    requires forall i :: 0 <= i < |log| ==> log[i].time <= now
    ensures InWindow(k, now, windowSeconds, intervalMs)
    ensures Kept(log, k, count, intervalMs) <==> forall i :: 0 <= i < |log| ==> log[i].time < now
  {
    StartsApart(k, count, intervalMs);
    assert StartOf(count, intervalMs) == windowSeconds * NS_PER_SECOND;
    IntervalOfStart(k + count, intervalMs);
    SameSlot(k, count);
    forall i | 0 <= i < |log|
      ensures Interval(log[i].time, intervalMs) <= k + count
      ensures Interval(log[i].time, intervalMs) == k + count <==> log[i].time == now
    {
      IntervalMonotone(log[i].time, now, intervalMs);
      IntervalBounds(log[i].time, intervalMs);
    }
    forall i | 0 <= i < |log| && k < Interval(log[i].time, intervalMs) && Interval(log[i].time, intervalMs) % count == k % count
      ensures Interval(log[i].time, intervalMs) == k + count
    {
      CongruentApart(k, Interval(log[i].time, intervalMs), count);
    }
  }

  /** Whatever the window, it reaches at most count intervals back from the current one. */
  lemma WindowReach(k: nat, now: nat, windowSeconds: nat, count: nat, intervalMs: nat)
    requires intervalMs > 0 && count == windowSeconds * 1000 / intervalMs
    requires InWindow(k, now, windowSeconds, intervalMs)
    ensures k <= Interval(now, intervalMs) <= k + count
  {
    var k0, ms := Interval(now, intervalMs), windowSeconds * 1000;
    IntervalBounds(now, intervalMs);
    assert ms == intervalMs * count + ms % intervalMs;
    assert (count + 1) * intervalMs == intervalMs * count + intervalMs;
    if k0 > k + count {
      StartsApart(k, count + 1, intervalMs);
      StartsApart(k + (count + 1), k0 - (k + count + 1), intervalMs);
    } else if k0 < k {
      StartsApart(k0, 1, intervalMs);
      StartsApart(k0 + 1, k - (k0 + 1), intervalMs);
    }
  }

  /** Of the intervals in the window only the one count before the current can have lost its
      bucket, and it has as soon as anything was added in the current one. */
  lemma LostExactly(log: seq<Entry>, k: nat, now: nat, windowSeconds: nat, count: nat, intervalMs: nat)
    requires intervalMs > 0 && count > 0 && count == windowSeconds * 1000 / intervalMs
    requires InWindow(k, now, windowSeconds, intervalMs)
    requires forall i :: 0 <= i < |log| ==> log[i].time <= now
    ensures !Kept(log, k, count, intervalMs) <==>
      k + count == Interval(now, intervalMs) &&
      exists i :: 0 <= i < |log| && Interval(log[i].time, intervalMs) == Interval(now, intervalMs)
  {
    hide Interval, StartOf;
    var k0 := Interval(now, intervalMs);
    WindowReach(k, now, windowSeconds, count, intervalMs);
    if k + count > k0 {
      RecentKept(log, k, now, count, intervalMs);
    } else {
      SameSlot(k, count);
      forall i | 0 <= i < |log| && k < Interval(log[i].time, intervalMs) && Interval(log[i].time, intervalMs) % count == k % count
        ensures Interval(log[i].time, intervalMs) == k0
      {
        IntervalMonotone(log[i].time, now, intervalMs);
        CongruentApart(k, Interval(log[i].time, intervalMs), count);
      }
    }
  }

  lemma SameSlot(k: nat, count: nat)
    requires count > 0
    ensures (k + count) % count == k % count
  {
    assert k == count * (k / count) + k % count;
    assert count * (k / count + 1) == count * (k / count) + count;
    BitCodes.ModIs(k + count, count, k / count + 1, k % count);
  }

  // ----- one slot of the ring -----

  /** Slot j holds one interval of its own with all the bytes the log has for it, and the log has
      no later interval for the slot; or it is fresh and the log has none at all. */
  ghost predicate SlotOk(log: seq<Entry>, j: nat, b: Bucket, count: nat, intervalMs: nat)
    requires intervalMs > 0 && count > 0
  {
    var k := Interval(b.start, intervalMs);
    && b.start == StartOf(k, intervalMs)
    && if k % count == j then
         && b.bytes == Total(log, k, intervalMs) && Kept(log, k, count, intervalMs)
         && (k == 0 || exists i :: 0 <= i < |log| && Interval(log[i].time, intervalMs) == k)
       else
         b == Bucket(0, 0) && forall i :: 0 <= i < |log| ==> Interval(log[i].time, intervalMs) % count != j
  }

  lemma {:induction false} TotalOfNone(log: seq<Entry>, k: nat, intervalMs: nat)
    requires intervalMs > 0
    requires forall i :: 0 <= i < |log| ==> Interval(log[i].time, intervalMs) != k
    ensures Total(log, k, intervalMs) == 0
  {
    if log != [] {
      TotalOfNone(log[..|log| - 1], k, intervalMs);
    }
  }

  lemma TotalAppend(log: seq<Entry>, e: Entry, k: nat, intervalMs: nat)
    requires intervalMs > 0
    ensures Total(log + [e], k, intervalMs) ==
      Total(log, k, intervalMs) + if Interval(e.time, intervalMs) == k then e.bytes else 0
  {
    assert (log + [e])[..|log|] == log;
  }

  /** The bucket that an addition leaves in its slot. */
  function Added(b: Bucket, start: nat, bytes: nat): Bucket {
    if b.start == start then b.(bytes := b.bytes + bytes) else Bucket(start, bytes)
  }

  /** An addition keeps its own slot in order, */
  lemma AddToSlot(log: seq<Entry>, e: Entry, b: Bucket, count: nat, intervalMs: nat)
    requires intervalMs > 0 && count > 0
    requires forall i :: 0 <= i < |log| ==> log[i].time <= e.time
    requires SlotOk(log, Interval(e.time, intervalMs) % count, b, count, intervalMs)
    ensures var k := Interval(e.time, intervalMs);
            SlotOk(log + [e], k % count, Added(b, StartOf(k, intervalMs), e.bytes), count, intervalMs)
  {
    hide Interval, StartOf, Total;
    var k := Interval(e.time, intervalMs);
    var h := Interval(b.start, intervalMs);
    IntervalOfStart(k, intervalMs);
    TotalAppend(log, e, k, intervalMs);
    forall i | 0 <= i < |log| ensures Interval(log[i].time, intervalMs) <= k {
      IntervalMonotone(log[i].time, e.time, intervalMs);
    }
    assert Interval((log + [e])[|log|].time, intervalMs) == k;
    if b.start != StartOf(k, intervalMs) {
      TotalOfNone(log, k, intervalMs);
    }
  }

  /** and leaves the other slots in order. */
  lemma AddToOtherSlot(log: seq<Entry>, e: Entry, j: nat, b: Bucket, count: nat, intervalMs: nat)
    requires intervalMs > 0 && count > 0
    requires SlotOk(log, j, b, count, intervalMs) && j != Interval(e.time, intervalMs) % count
    ensures SlotOk(log + [e], j, b, count, intervalMs)
  {
    hide Interval, StartOf, Total;
    var h := Interval(b.start, intervalMs);
    TotalAppend(log, e, h, intervalMs);
    if i :| 0 <= i < |log| && Interval(log[i].time, intervalMs) == h {
      assert Interval((log + [e])[i].time, intervalMs) == h;
    }
  }

  /** What a slot says about an interval that has not been overwritten. */
  lemma SlotHoldsTotal(log: seq<Entry>, k: nat, b: Bucket, count: nat, intervalMs: nat)
    requires intervalMs > 0 && count > 0
    requires SlotOk(log, k % count, b, count, intervalMs) && Kept(log, k, count, intervalMs)
    ensures b == Bucket(StartOf(k, intervalMs), Total(log, k, intervalMs)) || Total(log, k, intervalMs) == 0
  {
    hide StartOf, Total;
    var h := Interval(b.start, intervalMs);
    if exists i :: 0 <= i < |log| && Interval(log[i].time, intervalMs) == k {
      var i :| 0 <= i < |log| && Interval(log[i].time, intervalMs) == k;
      assert h % count == k % count && k <= h;
    } else {
      TotalOfNone(log, k, intervalMs);
    }
  }

  // ----- the tracker -----

  class BandwidthTracker {
    const windowSeconds: nat
    const bucketIntervalMs: nat
    const bucketCount: nat
    const buckets: array<Bucket>
    ghost var log: seq<Entry>

    /** The source's fallback for an interval of 0 reaches the count but not the field. With that
        interval, or one longer than the window, the first addition divides by zero. */
    constructor (windowSeconds: nat, bucketIntervalMs: nat)
      ensures 0 < bucketIntervalMs <= windowSeconds * 1000 ==> Inv()
      ensures log == [] && fresh(buckets) && buckets.Length == bucketCount
      ensures this.windowSeconds == windowSeconds && this.bucketIntervalMs == bucketIntervalMs
      ensures bucketCount == windowSeconds * 1000 / (if bucketIntervalMs == 0 then 250 else bucketIntervalMs)
    {
      this.windowSeconds := windowSeconds;
      this.bucketIntervalMs := bucketIntervalMs;
      var intervalMs := if bucketIntervalMs == 0 then 250 else bucketIntervalMs;
      var count := windowSeconds * 1000 / intervalMs;
      bucketCount := count;
      buckets := new Bucket[count](_ => Bucket(0, 0));
      log := [];
      new;
      if 0 < bucketIntervalMs <= windowSeconds * 1000 {
        AtLeastOne(windowSeconds * 1000, bucketIntervalMs);
        forall j | 0 <= j < bucketCount ensures SlotOk(log, j, buckets[j], bucketCount, bucketIntervalMs) {
          FreshSlot(j, bucketCount, bucketIntervalMs);
        }
      }
    }

    static lemma AtLeastOne(w: nat, d: nat)
      requires 0 < d <= w
      ensures w / d >= 1
    {
      assert w == d * (w / d) + w % d;
    }

    static lemma FreshSlot(j: nat, count: nat, intervalMs: nat)
      requires intervalMs > 0 && j < count
      ensures SlotOk([], j, Bucket(0, 0), count, intervalMs)
    {
      IntervalOfStart(0, intervalMs);
    }

    ghost predicate Shape()
      reads this
    {
      && 0 < bucketIntervalMs <= windowSeconds * 1000
      && bucketCount > 0 && buckets.Length == bucketCount == windowSeconds * 1000 / bucketIntervalMs
    }

    ghost predicate Inv()
      reads this, buckets
    {
      && Shape()
      && forall j :: 0 <= j < bucketCount ==> SlotOk(log, j, buckets[j], bucketCount, bucketIntervalMs)
    }

    ghost predicate ClockAt(now: nat)
      reads this
    {
      forall i :: 0 <= i < |log| ==> log[i].time <= now
    }

    predicate IsValid(b: Bucket, now: nat)
      reads this
    {
      now - b.start <= windowSeconds * NS_PER_SECOND
    }

    /** Records bytes in the bucket of the current interval. */
    method UpdateBucket(bytes: nat, now: nat)
      requires Inv() && ClockAt(now)
      modifies this`log, buckets
      ensures Inv() && ClockAt(now) && log == old(log) + [Entry(now, bytes)]
    {
      hide SlotOk, Interval, StartOf;
      var ms := now / NS_PER_MS;
      var bucketIndex := ms / bucketIntervalMs % bucketCount;
      var alignedMs := ms - ms % bucketIntervalMs;
      var bucketStart := alignedMs * NS_PER_MS;
      ghost var e, k := Entry(now, bytes), Interval(now, bucketIntervalMs);
      Aligned(now, bucketIntervalMs);
      AddToSlot(log, e, buckets[bucketIndex], bucketCount, bucketIntervalMs);
      ghost var b := buckets[bucketIndex];
      if now - buckets[bucketIndex].start > windowSeconds * NS_PER_SECOND {
        buckets[bucketIndex] := Bucket(bucketStart, 0);
      }
      if buckets[bucketIndex].start != bucketStart {
        buckets[bucketIndex] := Bucket(bucketStart, bytes);
      } else {
        buckets[bucketIndex] := buckets[bucketIndex].(bytes := buckets[bucketIndex].bytes + bytes);
      }
      assert buckets[bucketIndex] == Added(b, bucketStart, bytes);
      forall j | 0 <= j < bucketCount && j != bucketIndex
        ensures SlotOk(log + [e], j, buckets[j], bucketCount, bucketIntervalMs)
      {
        AddToOtherSlot(log, e, j, buckets[j], bucketCount, bucketIntervalMs);
      }
      log := log + [e];
    }

    static lemma Aligned(now: nat, intervalMs: nat)
      requires intervalMs > 0
      ensures var ms := now / NS_PER_MS;
              && ms / intervalMs == Interval(now, intervalMs)
              && (ms - ms % intervalMs) * NS_PER_MS == StartOf(Interval(now, intervalMs), intervalMs)
              && now - StartOf(Interval(now, intervalMs), intervalMs) < intervalMs * NS_PER_MS
    {
      IntervalBounds(now, intervalMs);
      var ms := now / NS_PER_MS;
      assert ms == intervalMs * (ms / intervalMs) + ms % intervalMs;
    }

    function BucketMbps(b: Bucket): real
      requires bucketIntervalMs > 0
      reads this
    {
      Rate(b.bytes, bucketIntervalMs)
    }

    /** The interval bucketCount before the current one is still in the window, its bucket has been
        taken over by the current one, and it had more bytes than any other in the window. */
    ghost predicate OldestLost(now: nat)
      requires bucketIntervalMs > 0
      reads this
    {
      var k0 := Interval(now, bucketIntervalMs);
      && bucketCount <= k0 && InWindow(k0 - bucketCount, now, windowSeconds, bucketIntervalMs)
      && (exists i :: 0 <= i < |log| && Interval(log[i].time, bucketIntervalMs) == k0)
      && forall k: nat {:trigger Total(log, k, bucketIntervalMs)} ::
           InWindow(k, now, windowSeconds, bucketIntervalMs) && k != k0 - bucketCount ==>
           Total(log, k, bucketIntervalMs) < Total(log, k0 - bucketCount, bucketIntervalMs)
    }

    /** With a window of whole intervals and now off a boundary, nothing in the window is lost. */
    lemma OffBoundaryNothingLost(now: nat)
      requires Inv() && ClockAt(now)
      requires WholeIntervals() && now != StartOf(Interval(now, bucketIntervalMs), bucketIntervalMs)
      ensures !OldestLost(now)
    {
      hide Interval, StartOf, Total, SlotOk;
      if OldestLost(now) {
        WindowIsRecent(Interval(now, bucketIntervalMs) - bucketCount, now, windowSeconds, bucketCount, bucketIntervalMs);
      }
    }

    /** The peak is the highest rate of the intervals in the window that still have their bucket:
        it is one of their rates, or 0, and none is higher. It is the highest of the whole window
        exactly when that does not belong to the lost oldest interval alone. */
    method GetPeakMbps(now: nat) returns (peak: real)
      requires Inv() && ClockAt(now)
      ensures peak == 0.0 || exists k ::
        InWindow(k, now, windowSeconds, bucketIntervalMs) && Kept(log, k, bucketCount, bucketIntervalMs) &&
        peak == Rate(Total(log, k, bucketIntervalMs), bucketIntervalMs) &&
        1000.0 * (peak * bucketIntervalMs as real) == 8.0 * Total(log, k, bucketIntervalMs) as real
      ensures forall k: nat {:trigger Total(log, k, bucketIntervalMs)} ::
        InWindow(k, now, windowSeconds, bucketIntervalMs) && Kept(log, k, bucketCount, bucketIntervalMs) ==>
        8.0 * Total(log, k, bucketIntervalMs) as real <= 1000.0 * (peak * bucketIntervalMs as real)
      ensures !OldestLost(now) <==>
        forall k: nat {:trigger Total(log, k, bucketIntervalMs)} :: InWindow(k, now, windowSeconds, bucketIntervalMs) ==>
          8.0 * Total(log, k, bucketIntervalMs) as real <= 1000.0 * (peak * bucketIntervalMs as real)
    {
      hide Rate, Total, Kept, Interval, InWindow, OldestLost, SlotOk;
      peak := HighestRate(now);
      PeakInBits(now, peak, peak * bucketIntervalMs as real);
    }

    method HighestRate(now: nat) returns (peak: real)
      requires Inv() && ClockAt(now)
      ensures peak == 0.0 || exists k ::
        InWindow(k, now, windowSeconds, bucketIntervalMs) && Kept(log, k, bucketCount, bucketIntervalMs) &&
        peak == Rate(Total(log, k, bucketIntervalMs), bucketIntervalMs)
      ensures forall k: nat {:trigger Total(log, k, bucketIntervalMs)} ::
        InWindow(k, now, windowSeconds, bucketIntervalMs) && Kept(log, k, bucketCount, bucketIntervalMs) ==>
        Rate(Total(log, k, bucketIntervalMs), bucketIntervalMs) <= peak
      ensures !OldestLost(now) <==>
        forall k: nat {:trigger Total(log, k, bucketIntervalMs)} :: InWindow(k, now, windowSeconds, bucketIntervalMs) ==>
          Rate(Total(log, k, bucketIntervalMs), bucketIntervalMs) <= peak
    {
      hide SlotOk, Rate, Total, Kept, Interval;
      peak := 0.0;
      for i := 0 to buckets.Length
        invariant peak >= 0.0
        invariant peak == 0.0 || exists j :: 0 <= j < i && IsValid(buckets[j], now) && peak == BucketMbps(buckets[j])
        invariant forall j :: 0 <= j < i && IsValid(buckets[j], now) ==> BucketMbps(buckets[j]) <= peak
      {
        if IsValid(buckets[i], now) {
          var throughput := BucketMbps(buckets[i]);
          if throughput > peak {
            peak := throughput;
          }
        }
      }
      RateOfNothing(bucketIntervalMs);
      if peak > 0.0 {
        ghost var j :| 0 <= j < bucketCount && IsValid(buckets[j], now) && peak == BucketMbps(buckets[j]);
        ValidBucketCounts(log, j, buckets[j], now, windowSeconds, bucketCount, bucketIntervalMs);
      }
      forall k: nat | InWindow(k, now, windowSeconds, bucketIntervalMs) && Kept(log, k, bucketCount, bucketIntervalMs)
        ensures Rate(Total(log, k, bucketIntervalMs), bucketIntervalMs) <= peak
      {
        var j := k % bucketCount;
        SlotHoldsTotal(log, k, buckets[j], bucketCount, bucketIntervalMs);
        if buckets[j] == Bucket(StartOf(k, bucketIntervalMs), Total(log, k, bucketIntervalMs)) {
          assert IsValid(buckets[j], now);
        }
      }
      PeakOfWindow(now, peak);
    }

    /** The same statements about the peak in bits, with its product with the interval as a number
        of its own. */
    lemma PeakInBits(now: nat, peak: real, product: real)
      requires bucketIntervalMs > 0 && bucketCount > 0 && IsProduct(product, peak, bucketIntervalMs as real)
      requires peak == 0.0 || exists k ::
        InWindow(k, now, windowSeconds, bucketIntervalMs) && Kept(log, k, bucketCount, bucketIntervalMs) &&
        peak == Rate(Total(log, k, bucketIntervalMs), bucketIntervalMs)
      ensures peak == 0.0 || exists k ::
        InWindow(k, now, windowSeconds, bucketIntervalMs) && Kept(log, k, bucketCount, bucketIntervalMs) &&
        peak == Rate(Total(log, k, bucketIntervalMs), bucketIntervalMs) &&
        1000.0 * product == 8.0 * Total(log, k, bucketIntervalMs) as real
      ensures forall k: nat {:trigger Total(log, k, bucketIntervalMs)} ::
        Rate(Total(log, k, bucketIntervalMs), bucketIntervalMs) <= peak <==>
        8.0 * Total(log, k, bucketIntervalMs) as real <= 1000.0 * product
    {
      hide Rate, Total, Kept, Interval, InWindow, IsProduct;
      forall k: nat
        ensures peak == Rate(Total(log, k, bucketIntervalMs), bucketIntervalMs) <==>
          1000.0 * product == 8.0 * Total(log, k, bucketIntervalMs) as real
        ensures Rate(Total(log, k, bucketIntervalMs), bucketIntervalMs) <= peak <==>
          8.0 * Total(log, k, bucketIntervalMs) as real <= 1000.0 * product
      {
        RateInBits(Total(log, k, bucketIntervalMs), bucketIntervalMs, peak, product);
      }
    }

    static predicate IsProduct(p: real, x: real, y: real) {
      p == x * y
    }

    /** What a bound on the kept intervals that one of them attains says about the whole window. */
    lemma PeakOfWindow(now: nat, peak: real)
      requires Inv() && ClockAt(now) && peak >= 0.0
      requires peak == 0.0 || exists k ::
        InWindow(k, now, windowSeconds, bucketIntervalMs) && Kept(log, k, bucketCount, bucketIntervalMs) &&
        peak == Rate(Total(log, k, bucketIntervalMs), bucketIntervalMs)
      requires forall k: nat {:trigger Total(log, k, bucketIntervalMs)} ::
        InWindow(k, now, windowSeconds, bucketIntervalMs) && Kept(log, k, bucketCount, bucketIntervalMs) ==>
        Rate(Total(log, k, bucketIntervalMs), bucketIntervalMs) <= peak
      ensures !OldestLost(now) <==>
        forall k: nat {:trigger Total(log, k, bucketIntervalMs)} :: InWindow(k, now, windowSeconds, bucketIntervalMs) ==>
          Rate(Total(log, k, bucketIntervalMs), bucketIntervalMs) <= peak
    {
      hide SlotOk, Rate, Total, Kept, Interval, InWindow;
      var k0 := Interval(now, bucketIntervalMs);
      forall k: nat | InWindow(k, now, windowSeconds, bucketIntervalMs)
        ensures !Kept(log, k, bucketCount, bucketIntervalMs) <==>
          k + bucketCount == k0 && exists i :: 0 <= i < |log| && Interval(log[i].time, bucketIntervalMs) == k0
      {
        LostExactly(log, k, now, windowSeconds, bucketCount, bucketIntervalMs);
      }
      forall a: nat, b: nat ensures a < b <==> Rate(a, bucketIntervalMs) < Rate(b, bucketIntervalMs) {
        RateMonotone(a, b, bucketIntervalMs);
      }
      RateOfNothing(bucketIntervalMs);
      CurrentInWindow(now);
      if OldestLost(now) {
        var oldest: nat := k0 - bucketCount;
        assert Total(log, k0, bucketIntervalMs) < Total(log, oldest, bucketIntervalMs);
        assert Rate(Total(log, oldest, bucketIntervalMs), bucketIntervalMs) > peak;
      } else {
        forall k: nat | InWindow(k, now, windowSeconds, bucketIntervalMs)
          ensures Rate(Total(log, k, bucketIntervalMs), bucketIntervalMs) <= peak
        {
          if !Kept(log, k, bucketCount, bucketIntervalMs) {
            var other: nat :| InWindow(other, now, windowSeconds, bucketIntervalMs) && other != k &&
              Total(log, other, bucketIntervalMs) >= Total(log, k, bucketIntervalMs);
          }
        }
      }
    }

    lemma CurrentInWindow(now: nat)
      requires Shape()
      ensures InWindow(Interval(now, bucketIntervalMs), now, windowSeconds, bucketIntervalMs)
    {
      IntervalBounds(now, bucketIntervalMs);
    }

    /** The window is a whole number of intervals. */
    predicate WholeIntervals() {
      bucketCount * bucketIntervalMs == windowSeconds * 1000
    }

    /** Megabits in a second: eight bits a byte, a thousand milliseconds and a million bits. */
    static lemma RateInBits(bytes: nat, intervalMs: nat, r: real, product: real)
      requires intervalMs > 0 && IsProduct(product, r, intervalMs as real)
      ensures r == Rate(bytes, intervalMs) <==> 1000.0 * product == 8.0 * bytes as real
      ensures Rate(bytes, intervalMs) <= r <==> 8.0 * bytes as real <= 1000.0 * product
    {
      var seconds := intervalMs as real / 1000.0;
      var rate := Rate(bytes, intervalMs);
      assert rate * seconds == bytes as real * 8.0 / 1000000.0;
      assert 1000.0 * (rate * intervalMs as real) == 8.0 * bytes as real;
      ScaledOrder(rate, r, intervalMs as real);
    }

    static lemma ScaledOrder(x: real, y: real, c: real)
      requires c > 0.0
      ensures x <= y <==> x * c <= y * c
      ensures x == y <==> x * c == y * c
    {
      assert (y - x) * c == y * c - x * c;
    }

    static lemma RateMonotone(a: nat, b: nat, intervalMs: nat)
      requires intervalMs > 0
      ensures a < b <==> Rate(a, intervalMs) < Rate(b, intervalMs)
    {
    }

    static lemma RateOfNothing(intervalMs: nat)
      requires intervalMs > 0
      ensures Rate(0, intervalMs) == 0.0
    {
    }

    /** A valid bucket is fresh, or has the bytes of an interval that is in the window and kept. */
    static lemma ValidBucketCounts(log: seq<Entry>, j: nat, b: Bucket, now: nat, windowSeconds: nat, count: nat, intervalMs: nat)
      requires intervalMs > 0 && count > 0 && SlotOk(log, j, b, count, intervalMs)
      requires forall i :: 0 <= i < |log| ==> log[i].time <= now
      requires now - b.start <= windowSeconds * NS_PER_SECOND
      ensures b.bytes == 0 ||
        var k := Interval(b.start, intervalMs);
        InWindow(k, now, windowSeconds, intervalMs) && Kept(log, k, count, intervalMs) && b.bytes == Total(log, k, intervalMs)
    {
      hide Total;
      var k := Interval(b.start, intervalMs);
      if k % count == j {
        if i :| 0 <= i < |log| && Interval(log[i].time, intervalMs) == k {
          IntervalBounds(log[i].time, intervalMs);
        } else {
          assert StartOf(0, intervalMs) == 0;
        }
      }
    }

    /** With a window of whole intervals, and now off a boundary, every interval in the window
        still has its bucket, so the peak is the maximum over the whole window. */
    lemma PeakCoversWindow(now: nat, k: nat)
      requires Inv() && ClockAt(now) && InWindow(k, now, windowSeconds, bucketIntervalMs)
      requires WholeIntervals() && now != StartOf(Interval(now, bucketIntervalMs), bucketIntervalMs)
      ensures Kept(log, k, bucketCount, bucketIntervalMs)
    {
      WindowIsRecent(k, now, windowSeconds, bucketCount, bucketIntervalMs);
      RecentKept(log, k, now, bucketCount, bucketIntervalMs);
    }

    /** No interval among the last bucketCount is lost. */
    lemma RecentIntervalHeld(now: nat, k: nat)
      requires Inv() && ClockAt(now) && k + bucketCount > Interval(now, bucketIntervalMs)
      ensures var b := buckets[k % bucketCount];
              || b == Bucket(StartOf(k, bucketIntervalMs), Total(log, k, bucketIntervalMs))
              || Total(log, k, bucketIntervalMs) == 0
    {
      RecentKept(log, k, now, bucketCount, bucketIntervalMs);
      SlotHoldsTotal(log, k, buckets[k % bucketCount], bucketCount, bucketIntervalMs);
    }
  }

  // ----- a peak below the window's maximum -----

  function TwoAdditions(): seq<Entry> {
    [Entry(0, 1000), Entry(NS_PER_SECOND, 1)]
  }

  lemma TotalsOfTwo(k: nat)
    ensures Total(TwoAdditions(), k, 250) == if k == 0 then 1000 else if k == 4 then 1 else 0
  {
    hide Total;
    assert TwoAdditions() == [Entry(0, 1000)] + [Entry(NS_PER_SECOND, 1)];
    assert [Entry(0, 1000)] == [] + [Entry(0, 1000)];
    assert Interval(0, 250) == 0 && Interval(NS_PER_SECOND, 250) == 4;
    TotalAppend([Entry(0, 1000)], Entry(NS_PER_SECOND, 1), k, 250);
    TotalAppend([], Entry(0, 1000), k, 250);
    TotalOfNone([], k, 250);
  }

  lemma FirstIsLost(k: nat)
    requires InWindow(k, NS_PER_SECOND, 1, 250)
    ensures Kept(TwoAdditions(), k, 4, 250) <==> k != 0
  {
    hide Kept;
    assert Interval(TwoAdditions()[1].time, 250) == 4;
    LostExactly(TwoAdditions(), k, NS_PER_SECOND, 1, 4, 250);
  }

  /** Bytes added at second 0 and at second 1: a window of one second still holds the first
      interval, whose bucket the second addition has taken. */
  method PeakBelowWindow() returns (t: BandwidthTracker, peak: real)
    ensures fresh(t) && t.log == TwoAdditions()
    ensures t.windowSeconds == 1 && t.bucketIntervalMs == 250 && InWindow(0, NS_PER_SECOND, 1, 250)
    ensures Total(t.log, 0, 250) == 1000 && Rate(1000, 250) == 0.032 && peak == 0.000032
  {
    hide Total, Kept, Rate, Interval;
    t := new BandwidthTracker(1, 250);
    t.UpdateBucket(1000, 0);
    t.UpdateBucket(1, NS_PER_SECOND);
    peak := t.GetPeakMbps(NS_PER_SECOND);
    assert t.log == TwoAdditions() && t.bucketCount == 4;
    TotalsOfTwo(0);
    TotalsOfTwo(4);
    FirstIsLost(4);
    BandwidthTracker.RateInBits(1, 250, 0.000032, 0.008);
    BandwidthTracker.RateInBits(1000, 250, 0.032, 8.0);
    if peak != 0.0 {
      ghost var k :| InWindow(k, NS_PER_SECOND, 1, 250) && Kept(t.log, k, 4, 250) &&
        1000.0 * (peak * 250.0) == 8.0 * Total(t.log, k, 250) as real;
      FirstIsLost(k);
      TotalsOfTwo(k);
    }
  }
}
