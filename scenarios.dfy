/**
 * Worked examples of windowed statistics on small histories. The counting
 * lemmas take the window's lower bound `lo` (that is, now - interval) directly.
 */
module Scenarios {
  import opened Wrappers
  import opened History
  import opened Stats

  /** A one-sample history contributes exactly that sample's counts. */
  lemma CountsOfOne(x: Sample, lo: int)
    ensures CountsOf([x], lo) == CountOne(x, lo)
  {
  }

  /** A two-sample history's counts, unrolled. */
  lemma CountsOfTwo(x: Sample, y: Sample, lo: int)
    ensures CountsOf([x, y], lo) == Add(CountOne(x, lo), CountOne(y, lo))
  {
    CountsOfOne(x, lo);
  }

  /** A three-sample history's counts, unrolled. */
  lemma CountsOfThree(x: Sample, y: Sample, z: Sample, lo: int)
    ensures CountsOf([x, y, z], lo) == Add(Add(CountOne(x, lo), CountOne(y, lo)), CountOne(z, lo))
  {
    var h := [x, y, z];
    assert h[..2] == [x, y];
    CountsOfTwo(x, y, lo);
  }

  /** The secondary sum of three selected samples, unrolled. */
  lemma QueueSumOfThree(x: Sample, y: Sample, z: Sample, lo: int)
    requires Selected(x, lo) && Selected(y, lo) && Selected(z, lo)
    ensures QueueSum([x, y, z], lo) == x.value2 + y.value2 + z.value2
  {
    var h := [x, y, z];
    assert h[..2] == [x, y] && [x, y][..1] == [x] && [x][..0] == [];
    assert QueueSum([x], lo) == x.value2;
    assert QueueSum([x, y], lo) == x.value2 + y.value2;
  }

  lemma RatiosOfThree(c: Counts, sum: real)
    requires c == Counts(3, 2, 2) && sum == 3.0
    ensures Ratios(c, sum) == Some(WindowStats(2.0 / 3.0, 2.0 / 3.0, 1.0))
  {
  }

  /**
   * Three samples one second apart with primary readings 0.5, 1.5 and 2.0 and
   * secondary readings 1, over a 3 s window ending at the newest one: two of
   * three samples are busy, the same two are behind (1.5 and 2.0 both exceed
   * 1), and the average secondary reading is 1.
   */
  lemma ThreeSamples(a: Sample, b: Sample, c: Sample, now: int, interval: int)
    requires a.time == now - 2000 && b.time == now - 1000 && c.time == now && interval == 3000
    requires a.value1 == 0.5 && b.value1 == 1.5 && c.value1 == 2.0
    requires a.value2 == 1.0 && b.value2 == 1.0 && c.value2 == 1.0
    ensures StatsOf([a, b, c], now, interval) == Some(WindowStats(2.0 / 3.0, 2.0 / 3.0, 1.0))
  {
    var lo := now - interval;
    CountsOfThree(a, b, c, lo);
    QueueSumOfThree(a, b, c, lo);
    assert CountOne(a, lo) == Counts(1, 0, 0) && CountOne(b, lo) == Counts(1, 1, 1) && CountOne(c, lo) == Counts(1, 1, 1);
    RatiosOfThree(CountsOf([a, b, c], lo), QueueSum([a, b, c], lo));
    StatsFromAccumulators([a, b, c], now, interval, CountsOf([a, b, c], lo), QueueSum([a, b, c], lo));
  }

  lemma RatiosOfOne(c: Counts, sum: real)
    requires c == Counts(1, 1, 0) && sum == 0.0
    ensures Ratios(c, sum) == Some(WindowStats(1.0, 0.0, 0.0))
  {
  }

  /** One sample with primary reading exactly 1 and no secondary reading: busy, not behind. */
  lemma SingleSample(p: Sample, now: int, interval: int)
    requires p.time == now && p.value1 == 1.0 && p.value2 == 0.0 && interval >= 0
    ensures StatsOf([p], now, interval) == Some(WindowStats(1.0, 0.0, 0.0))
  {
    var h := [p];
    StatsFromAccumulators(h, now, interval, CountsOf(h, now - interval), QueueSum(h, now - interval));
    CountsOfOne(p, now - interval);
    assert h[..0] == [];
    assert QueueSum(h, now - interval) == 0.0;
    RatiosOfOne(CountsOf(h, now - interval), QueueSum(h, now - interval));
  }

  /** An empty history has no data for any window. */
  lemma EmptyHistory(now: int, interval: int)
    ensures StatsOf([], now, interval) == None
  {
  }

  /** A window that starts after the older of two samples counts only the newest one. */
  lemma NarrowWindow(older: Sample, newest: Sample, lo: int)
    requires older.time < lo <= newest.time
    ensures CountsOf([older, newest], lo) == CountsOf([newest], lo)
    ensures CountsOf([older, newest], lo).total == 1
  {
    CountsOfTwo(older, newest, lo);
    CountsOfOne(newest, lo);
  }
}
