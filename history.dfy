/**
 * The per-disk sample history of class `Counter` (Src/Program.cs): the sample
 * tuple, the 24-hour retention horizon and the front-eviction step that
 * `Counter.Sample` runs in place.
 *
 * Times are whole milliseconds since DateTime.MinValue.
 */
module History {

  /** 24 hours, the horizon past which samples are dropped from the front. */
  const Retention: int := 24 * 60 * 60 * 1000

  /** One entry of the history queue: `(time, value1, value2)`. */
  datatype Sample = Sample(time: int, value1: real, value2: real)

  /** Timestamps never go down from front to back. */
  ghost predicate Sorted(h: seq<Sample>) {
    forall i, j :: 0 <= i < j < |h| ==> h[i].time <= h[j].time
  }

  /** Every sample is at or after `horizon`, i.e. none would be evicted. */
  ghost predicate AllFresh(h: seq<Sample>, horizon: int) {
    forall i :: 0 <= i < |h| ==> h[i].time >= horizon
  }

  /**
   * What the eviction loop leaves: drop from the front while the front sample
   * is older than `horizon`. The result is a suffix of `h`, everything dropped
   * was stale, and the new front (if any) is not.
   */
  function Evict(h: seq<Sample>, horizon: int): (r: seq<Sample>)
    ensures |r| <= |h| && r == h[|h| - |r|..]
    ensures r != [] ==> r[0].time >= horizon
    ensures forall i :: 0 <= i < |h| - |r| ==> h[i].time < horizon
    decreases |h|
  {
    if h != [] && h[0].time < horizon then Evict(h[1..], horizon) else h
  }

  /**
   * Eviction as the loop performs it: when the first `k` samples are stale and
   * sample `k` (if any) is not, eviction leaves exactly `h[k..]`.
   */
  lemma EvictDrops(h: seq<Sample>, horizon: int, k: int)
    requires 0 <= k <= |h|
    requires forall j :: 0 <= j < k ==> h[j].time < horizon
    requires k < |h| ==> h[k].time >= horizon
    ensures Evict(h, horizon) == h[k..]
  {
    var r := Evict(h, horizon);
    var m := |h| - |r|;
    assert m < |h| ==> h[m] == r[0];
    assert m == k;
  }

  /** Eviction keeps order; on a sorted history it leaves only fresh samples. */
  lemma {:induction false} EvictSorted(h: seq<Sample>, horizon: int)
    requires Sorted(h)
    ensures Sorted(Evict(h, horizon))
    ensures AllFresh(Evict(h, horizon), horizon)
    decreases |h|
  {
    if h != [] && h[0].time < horizon {
      assert Sorted(h[1..]) by {
        forall i, j | 0 <= i < j < |h[1..]| ensures h[1..][i].time <= h[1..][j].time {
          assert h[1..][i] == h[i + 1] && h[1..][j] == h[j + 1];
        }
      }
      EvictSorted(h[1..], horizon);
    } else if h != [] {
      forall i | 0 <= i < |h| ensures h[i].time >= horizon {
        assert h[0].time <= h[i].time;
      }
    }
  }

  /** Appending a sample no older than the newest one keeps the history sorted. */
  lemma AppendSorted(h: seq<Sample>, s: Sample)
    requires Sorted(h)
    requires h == [] || h[|h| - 1].time <= s.time
    ensures Sorted(h + [s])
  {
    var h' := h + [s];
    forall i, j | 0 <= i < j < |h'| ensures h'[i].time <= h'[j].time {
      if j < |h| {
        assert h'[i] == h[i] && h'[j] == h[j];
      } else if i < |h| {
        assert h'[i] == h[i] && h[i].time <= h[|h| - 1].time;
      }
    }
  }

  /** `s` is no older than the newest sample of `h`. */
  predicate NotBefore(h: seq<Sample>, s: Sample) {
    h == [] || h[|h| - 1].time <= s.time
  }

  /**
   * Ingesting in time order keeps the history sorted, and then eviction leaves
   * only samples inside the horizon.
   */
  lemma IngestSorted(h: seq<Sample>, s: Sample, horizon: int)
    ensures Sorted(h) && NotBefore(h, s) ==>
              Sorted(Evict(h + [s], horizon)) && AllFresh(Evict(h + [s], horizon), horizon)
  {
    if Sorted(h) && NotBefore(h, s) {
      AppendSorted(h, s);
      EvictSorted(h + [s], horizon);
    }
  }

  /** Consecutive samples are at least `gap` milliseconds apart. */
  ghost predicate Spaced(h: seq<Sample>, gap: int) {
    forall i :: 0 <= i < |h| - 1 ==> h[i].time + gap <= h[i + 1].time
  }

  /** Samples at least `gap` apart, all within [now - Retention, now]. */
  ghost predicate SpacedWithin(h: seq<Sample>, gap: int, now: int) {
    Spaced(h, gap) &&
    (forall i :: 0 <= i < |h| ==> now - Retention <= h[i].time <= now)
  }

  /**
   * Bounded memory: samples taken at least `gap` milliseconds apart that all
   * lie within the retention horizon number at most Retention / gap + 1.
   */
  lemma {:induction false} BoundedRetention(h: seq<Sample>, gap: int, now: int)
    requires gap > 0
    requires SpacedWithin(h, gap, now)
    ensures |h| <= Retention / gap + 1
  {
    if |h| > 1 {
      SpreadGrows(h, gap);
      assert h[0].time + (|h| - 1) * gap <= h[|h| - 1].time;
      assert (|h| - 1) * gap <= Retention;
      DivBound(|h| - 1, gap, Retention);
    }
  }

  /** The first and last of `gap`-spaced samples are at least (n - 1) * gap apart. */
  lemma {:induction false} SpreadGrows(h: seq<Sample>, gap: int)
    requires h != []
    requires Spaced(h, gap)
    ensures h[0].time + (|h| - 1) * gap <= h[|h| - 1].time
  {
    if |h| > 1 {
      SpreadGrows(h[..|h| - 1], gap);
      assert h[..|h| - 1][|h| - 2] == h[|h| - 2];
    }
  }

  lemma DivBound(n: int, gap: int, bound: int)
    requires gap > 0 && n >= 0 && n * gap <= bound
    ensures n <= bound / gap
  {
    var q := bound / gap;
    if n > q {
      MulMonotone(q + 1, n, gap);
    }
  }

  lemma MulMonotone(a: int, b: int, c: int)
    requires a <= b && c > 0
    ensures a * c <= b * c
  {
    assert b * c - a * c == (b - a) * c;
  }

  /** With one sample per second, at most 86,401 samples are retained (both ends of the 24 h span are kept). */
  lemma OneSecondSpacingBound(h: seq<Sample>, now: int)
    requires SpacedWithin(h, 1000, now)
    ensures |h| <= 86_401
  {
    BoundedRetention(h, 1000, now);
  }

  /**
   * The dashboard loop sleeps 200 ms before each round of samples, so a
   * counter's timestamps are at least 200 ms apart; then at most 432,001
   * samples are retained.
   */
  lemma TickSpacingBound(h: seq<Sample>, now: int)
    requires SpacedWithin(h, 200, now)
    ensures |h| <= 432_001
  {
    BoundedRetention(h, 200, now);
  }

  /** Samples spaced by a non-negative gap are in time order. */
  lemma SpacedSorted(h: seq<Sample>, gap: int)
    requires gap >= 0 && Spaced(h, gap)
    ensures Sorted(h)
  {
    forall i, j | 0 <= i < j < |h| ensures h[i].time <= h[j].time {
      SpacedChain(h, gap, i, j);
    }
  }

  lemma {:induction false} SpacedChain(h: seq<Sample>, gap: int, i: int, j: int)
    requires gap >= 0 && Spaced(h, gap)
    requires 0 <= i <= j < |h|
    ensures h[i].time <= h[j].time
    decreases j - i
  {
    if i < j {
      SpacedChain(h, gap, i, j - 1);
      assert h[j - 1].time + gap <= h[j].time;
    }
  }

  /** Appending a sample at least `gap` after the last one keeps the spacing. */
  lemma AppendSpaced(h: seq<Sample>, s: Sample, gap: int)
    requires Spaced(h, gap)
    requires h == [] || h[|h| - 1].time + gap <= s.time
    ensures Spaced(h + [s], gap)
  {
    var x := h + [s];
    forall i | 0 <= i < |x| - 1 ensures x[i].time + gap <= x[i + 1].time {
      if i < |h| - 1 {
        assert x[i] == h[i] && x[i + 1] == h[i + 1];
      } else {
        assert x[i] == h[|h| - 1] && x[i + 1] == s;
      }
    }
  }

  /** Every suffix of a spaced history is spaced. */
  lemma SuffixSpaced(h: seq<Sample>, gap: int, k: int)
    requires Spaced(h, gap) && 0 <= k <= |h|
    ensures Spaced(h[k..], gap)
  {
    var t := h[k..];
    forall i | 0 <= i < |t| - 1 ensures t[i].time + gap <= t[i + 1].time {
      assert t[i] == h[k + i] && t[i + 1] == h[k + i + 1];
    }
  }

  /**
   * One call of `Counter.Sample` keeps a history whose samples are `gap`
   * apart in that shape, provided the new sample comes at least `gap` after
   * the last one: the retained samples are spaced, lie within the last 24
   * hours, and so number at most Retention / gap + 1.
   */
  lemma SampleKeepsSpacing(h: seq<Sample>, s: Sample, gap: int, now: int)
    requires gap > 0 && Spaced(h, gap) && s.time == now
    requires h == [] || h[|h| - 1].time + gap <= now
    ensures SpacedWithin(Evict(h + [s], now - Retention), gap, now)
    ensures |Evict(h + [s], now - Retention)| <= Retention / gap + 1
  {
    AppendSpaced(h, s, gap);
    EvictSpacedWithin(h + [s], gap, now);
    BoundedRetention(Evict(h + [s], now - Retention), gap, now);
  }

  /** Evicting a spaced history whose last sample is taken at `now` leaves a spaced history inside the horizon. */
  lemma EvictSpacedWithin(x: seq<Sample>, gap: int, now: int)
    requires gap > 0 && Spaced(x, gap) && x != [] && x[|x| - 1].time == now
    ensures SpacedWithin(Evict(x, now - Retention), gap, now)
  {
    var r := Evict(x, now - Retention);
    EvictSpacedFresh(x, gap, now - Retention);
    EvictNotAfterLast(x, gap, now - Retention);
    assert Spaced(r, gap) && AllFresh(r, now - Retention);
  }

  /** Eviction of a spaced history keeps the spacing and leaves only fresh samples. */
  lemma EvictSpacedFresh(x: seq<Sample>, gap: int, horizon: int)
    requires gap > 0 && Spaced(x, gap)
    ensures Spaced(Evict(x, horizon), gap) && AllFresh(Evict(x, horizon), horizon)
  {
    SpacedSorted(x, gap);
    EvictSorted(x, horizon);
    var r := Evict(x, horizon);
    var k := |x| - |r|;
    assert r == x[k..];
    SuffixSpaced(x, gap, k);
  }

  /** No retained sample of a spaced history is later than its last sample. */
  lemma EvictNotAfterLast(x: seq<Sample>, gap: int, horizon: int)
    requires gap > 0 && Spaced(x, gap) && x != []
    ensures forall i :: 0 <= i < |Evict(x, horizon)| ==> Evict(x, horizon)[i].time <= x[|x| - 1].time
  {
    SpacedSorted(x, gap);
    var r := Evict(x, horizon);
    var k := |x| - |r|;
    assert r == x[k..];
    NotAfterLast(x, k);
  }

  /** In a sorted history no sample of a suffix is later than the last sample. */
  lemma NotAfterLast(x: seq<Sample>, k: int)
    requires Sorted(x) && x != [] && 0 <= k <= |x|
    ensures forall i :: 0 <= i < |x[k..]| ==> x[k..][i].time <= x[|x| - 1].time
  {
    forall i | 0 <= i < |x[k..]| ensures x[k..][i].time <= x[|x| - 1].time {
      assert x[k..][i] == x[k + i];
    }
  }

  /**
   * For every gap: if the samples of `h` were `gap` apart and `now` comes at
   * least `gap` after the last of them, the samples of `r` are `gap` apart,
   * lie within the last 24 hours, and number at most Retention / gap + 1.
   */
  ghost predicate KeepsSpacing(h: seq<Sample>, r: seq<Sample>, now: int) {
    forall gap :: gap > 0 && Spaced(h, gap) && (h == [] || h[|h| - 1].time + gap <= now) ==>
      SpacedWithin(r, gap, now) && |r| <= Retention / gap + 1
  }

  /** `SampleKeepsSpacing` for every gap at once. */
  lemma SampleKeepsSpacingAll(h: seq<Sample>, s: Sample, now: int)
    requires s.time == now
    ensures KeepsSpacing(h, Evict(h + [s], now - Retention), now)
  {
    var r := Evict(h + [s], now - Retention);
    forall gap | gap > 0 && Spaced(h, gap) && (h == [] || h[|h| - 1].time + gap <= now)
      ensures SpacedWithin(r, gap, now) && |r| <= Retention / gap + 1
    {
      SampleKeepsSpacing(h, s, gap, now);
    }
  }
}
