/**
 * Class `Counter` of Src/Program.cs: one per monitored disk. It keeps the
 * rolling history of samples, the cached time of its oldest sample and a
 * display name derived once from the performance-counter instance name.
 *
 * The two performance-counter readings and the clock are inputs here: `now`,
 * `reading1` and `reading2` are what `DateTime.UtcNow` and the two
 * `NextValue()` calls return.
 */
module Counters {
  import opened Wrappers
  import opened History
  import opened Stats
  import opened DisplayNames

  /** `default(DateTime)`, what `OldestSample` holds before the first sample. */
  const DefaultTime: int := 0

  class Counter {
    /** 2 for a physical disk, 1 for a Hyper-V virtual storage device. */
    const kind: int
    const name: string
    /** Whether a second performance counter was given (the physical disks' average queue length). */
    const hasSecondary: bool

    var history: seq<Sample>
    var oldestSample: int

    /**
     * The class invariant, which only keeps the cached `OldestSample`
     * consistent with the history: it is the front sample's time, or the
     * default time while the history is empty. Ordering and freshness of the
     * history are stated separately, in `Sample`'s postconditions.
     */
    ghost predicate Valid()
      reads this
    {
      (history == [] ==> oldestSample == DefaultTime) &&
      (history != [] ==> oldestSample == history[0].time)
    }

    constructor (kind: int, instanceName: string, hasSecondary: bool)
      ensures Valid()
      ensures this.kind == kind && this.hasSecondary == hasSecondary
      ensures name == DisplayName(instanceName)
      ensures history == [] && oldestSample == DefaultTime
    {
      this.kind := kind;
      this.hasSecondary := hasSecondary;
      name := DisplayName(instanceName);
      history := [];
      oldestSample := DefaultTime;
    }

    /**
     * Appends `(now, reading1, reading2)` (the second reading is 0 without a
     * second counter), then drops samples from the front while the front one
     * is older than 24 hours, and caches the new front time. The new sample is
     * never stale, so the loop never empties the history.
     */
    method Sample(now: int, reading1: real, reading2: real)
      requires Valid()
      modifies this
      ensures Valid()
      ensures history == Evict(old(history) + [History.Sample(now, reading1, if hasSecondary then reading2 else 0.0)], now - Retention)
      ensures history != [] && history[|history| - 1] == History.Sample(now, reading1, if hasSecondary then reading2 else 0.0)
      ensures oldestSample == history[0].time >= now - Retention
      ensures Sorted(old(history)) && NotBefore(old(history), history[|history| - 1]) ==>
                Sorted(history) && AllFresh(history, now - Retention)
      ensures KeepsSpacing(old(history), history, now)
    {
      var s := History.Sample(now, reading1, if hasSecondary then reading2 else 0.0);
      var horizon := now - Retention;
      var h := history;
      var queue := h + [s];
      ghost var full, k := queue, 0;
      while queue[0].time < horizon
        invariant 0 <= k < |full| && queue == full[k..]
        invariant forall j :: 0 <= j < k ==> full[j].time < horizon
        decreases |queue|
      {
        assert full[|full| - 1] == s;
        queue, k := queue[1..], k + 1;
      }
      EvictDrops(full, horizon, k);
      IngestSorted(h, s, horizon);
      SampleKeepsSpacingAll(h, s, now);
      history := queue;
      oldestSample := queue[0].time;
    }

    /** `SampleCount`: the number of samples currently retained. */
    function SampleCount(): (n: nat)
      reads this
      ensures n == |history|
    {
      |history|
    }

    /**
     * `CalcStats(interval)`: one read-only pass over the history, counting the
     * samples at or after `now - interval`; no data when there are none.
     */
    method CalcStats(now: int, interval: int) returns (r: Option<WindowStats>)
      ensures r == StatsOf(history, now, interval)
    {
      var lo := now - interval;
      var h := history;
      var total: nat, busy: nat, behind: nat, queueSum := 0, 0, 0, 0.0;
      var i := 0;
      while i < |h|
        invariant 0 <= i <= |h|
        invariant Counts(total, busy, behind) == CountsOf(h[..i], lo)
        invariant queueSum == QueueSum(h[..i], lo)
      {
        var pt := h[i];
        ghost var before := Counts(total, busy, behind);
        if pt.time >= lo {
          total := total + 1;
          queueSum := queueSum + pt.value2;
          if pt.value1 >= 1.0 {
            busy := busy + 1;
          }
          if pt.value1 > 1.0 {
            behind := behind + 1;
          }
        }
        assert Counts(total, busy, behind) == Add(before, CountOne(pt, lo));
        Snoc(h[..i], pt, lo);
        assert h[..i + 1] == h[..i] + [pt];
        i := i + 1;
      }
      assert h[..i] == h;
      if total == 0 {
        r := None;
      } else {
        r := Some(WindowStats(busy as real / total as real, behind as real / total as real, queueSum / total as real));
      }
      assert r == Ratios(Counts(total, busy, behind), queueSum);
      StatsFromAccumulators(h, now, interval, Counts(total, busy, behind), queueSum);
    }
  }
}
