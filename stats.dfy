/**
 * The windowed statistics of `Counter.CalcStats` (Src/Program.cs): a sample is
 * selected when its time is at or after `now - interval`; over the selected
 * samples the source counts them, counts "busy" (`value1 >= 1`) and "behind"
 * (`value1 > 1`) ones, sums `value2`, and divides all three by the count.
 *
 * The three integer accumulators and the real `value2` sum are kept apart, so
 * that the lemmas about the counts involve integers only.
 */
module Stats {
  import opened Wrappers
  import opened History

  /** The loop's integer accumulators `total`, `busy` and `behind`. */
  datatype Counts = Counts(total: nat, busy: nat, behind: nat)

  /** busy, behind and average queue, each as a fraction of the selected samples. */
  datatype WindowStats = WindowStats(busy: real, behind: real, queueAvg: real)

  function Add(a: Counts, b: Counts): Counts {
    Counts(a.total + b.total, a.busy + b.busy, a.behind + b.behind)
  }

  lemma AddAssociative(x: Counts, y: Counts, z: Counts)
    ensures Add(Add(x, y), z) == Add(x, Add(y, z))
  {
  }

  predicate Selected(p: Sample, lo: int) {
    p.time >= lo
  }

  /** What one loop iteration adds to the counters for sample `p` when the window starts at `lo`. */
  function CountOne(p: Sample, lo: int): Counts {
    if Selected(p, lo) then
      Counts(1, if p.value1 >= 1.0 then 1 else 0, if p.value1 > 1.0 then 1 else 0)
    else
      Counts(0, 0, 0)
  }

  /**
   * The counters after the loop has visited `h` front to back. Because
   * "behind" (`> 1`) implies "busy" (`>= 1`) and both need the sample to be
   * selected, behind <= busy <= total, and total never exceeds the history size.
   */
  function CountsOf(h: seq<Sample>, lo: int): (c: Counts)
    ensures c.behind <= c.busy <= c.total <= |h|
    decreases |h|
  {
    if h == [] then Counts(0, 0, 0) else Add(CountsOf(h[..|h| - 1], lo), CountOne(h[|h| - 1], lo))
  }

  /** The `queueAvg` accumulator: the sum of `value2` over the selected samples. */
  function QueueSum(h: seq<Sample>, lo: int): (q: real)
    ensures (forall i :: 0 <= i < |h| ==> !Selected(h[i], lo)) ==> q == 0.0
    decreases |h|
  {
    if h == [] then 0.0
    else QueueSum(h[..|h| - 1], lo) + (if Selected(h[|h| - 1], lo) then h[|h| - 1].value2 else 0.0)
  }

  /**
   * The final division by `total`, or no data when `total` is 0 (where the
   * source divides 0 by 0).
   */
  function Ratios(c: Counts, queueSum: real): (r: Option<WindowStats>)
    ensures r.None? <==> c.total == 0
  {
    if c.total == 0 then None
    else
      var n := c.total as real;
      Some(WindowStats(c.busy as real / n, c.behind as real / n, queueSum / n))
  }

  /** Each ratio, multiplied back by the number of selected samples, gives its accumulator. */
  lemma RatiosScaleBack(c: Counts, queueSum: real)
    requires c.total > 0
    ensures var r := Ratios(c, queueSum).value; var n := c.total as real;
      r.busy * n == c.busy as real && r.behind * n == c.behind as real && r.queueAvg * n == queueSum
  {
  }

  /** The result of `CalcStats`: no data exactly when no sample lies in the window, and otherwise ratios in [0, 1]. */
  function StatsOf(h: seq<Sample>, now: int, interval: int): (r: Option<WindowStats>)
    ensures r.None? <==> forall i :: 0 <= i < |h| ==> h[i].time < now - interval
    ensures r.Some? ==> 0.0 <= r.value.behind <= r.value.busy <= 1.0
  {
    var c := CountsOf(h, now - interval);
    TotalZeroIff(h, now - interval);
    if c.total > 0 then FractionBounds(c.behind, c.busy, c.total); Ratios(c, QueueSum(h, now - interval))
    else Ratios(c, QueueSum(h, now - interval))
  }

  lemma FractionBounds(a: nat, b: nat, n: nat)
    requires a <= b <= n && n > 0
    ensures 0.0 <= a as real / n as real <= b as real / n as real <= 1.0
  {
    var x, y, d := a as real, b as real, n as real;
    DivideMonotone(x, y, d);
    DivideMonotone(y, d, d);
    DivideSelf(d);
  }

  lemma DivideSelf(d: real)
    requires d > 0.0
    ensures d / d == 1.0
  {
  }

  /** Dividing by a positive number keeps the order of non-negative numbers. */
  lemma DivideMonotone(x: real, y: real, d: real)
    requires 0.0 <= x <= y && d > 0.0
    ensures 0.0 <= x / d <= y / d
  {
    assert y / d - x / d == (y - x) / d;
  }

  /** Nothing is counted exactly when no sample of the history lies in the window. */
  lemma TotalZeroIff(h: seq<Sample>, lo: int)
    ensures CountsOf(h, lo).total == 0 <==> forall i :: 0 <= i < |h| ==> h[i].time < lo
  {
    if forall i :: 0 <= i < |h| ==> h[i].time < lo {
      NoneSelectedZero(h, lo);
    } else {
      var j :| 0 <= j < |h| && h[j].time >= lo;
      SomeSelectedPositive(h, lo, j);
    }
  }

  lemma {:induction false} NoneSelectedZero(h: seq<Sample>, lo: int)
    requires forall i :: 0 <= i < |h| ==> h[i].time < lo
    ensures CountsOf(h, lo).total == 0
    decreases |h|
  {
    if h != [] {
      var init := h[..|h| - 1];
      forall i | 0 <= i < |init| ensures init[i].time < lo {
        assert init[i] == h[i];
      }
      NoneSelectedZero(init, lo);
    }
  }

  lemma {:induction false} SomeSelectedPositive(h: seq<Sample>, lo: int, j: int)
    requires 0 <= j < |h| && h[j].time >= lo
    ensures CountsOf(h, lo).total > 0
    decreases |h|
  {
    var init := h[..|h| - 1];
    if j < |h| - 1 {
      assert init[j] == h[j];
      SomeSelectedPositive(init, lo, j);
    }
  }

  /** Visiting one more sample adds its contribution. */
  lemma Snoc(h: seq<Sample>, p: Sample, lo: int)
    ensures CountsOf(h + [p], lo) == Add(CountsOf(h, lo), CountOne(p, lo))
    ensures QueueSum(h + [p], lo) == QueueSum(h, lo) + (if Selected(p, lo) then p.value2 else 0.0)
  {
    assert (h + [p])[..|h|] == h;
  }

  /** Counting a concatenation adds the counts of the parts. */
  lemma {:induction false} CountsAppend(a: seq<Sample>, b: seq<Sample>, lo: int)
    ensures CountsOf(a + b, lo) == Add(CountsOf(a, lo), CountsOf(b, lo))
    decreases |b|
  {
    if b == [] {
      assert a + b == a;
    } else {
      var b' := b[..|b| - 1];
      CountsAppend(a, b', lo);
      SplitLast(a, b);
      AddAssociative(CountsOf(a, lo), CountsOf(b', lo), CountOne(b[|b| - 1], lo));
    }
  }

  lemma SplitLast(a: seq<Sample>, b: seq<Sample>)
    requires b != []
    ensures a + b != [] && (a + b)[..|a + b| - 1] == a + b[..|b| - 1] && (a + b)[|a + b| - 1] == b[|b| - 1]
  {
  }

  /** Summing over a concatenation adds the sums of the parts. */
  lemma {:induction false} QueueSumAppend(a: seq<Sample>, b: seq<Sample>, lo: int)
    ensures QueueSum(a + b, lo) == QueueSum(a, lo) + QueueSum(b, lo)
    decreases |b|
  {
    if b == [] {
      assert a + b == a;
    } else {
      QueueSumAppend(a, b[..|b| - 1], lo);
      SplitLast(a, b);
    }
  }

  /** The first sample of `h1` occurs in its permutation `h2`; what is left of both are permutations too. */
  lemma MatchFirst<T>(h1: seq<T>, h2: seq<T>) returns (pre: seq<T>, suf: seq<T>)
    requires h1 != [] && multiset(h1) == multiset(h2)
    ensures h2 == pre + [h1[0]] + suf
    ensures multiset(h1[1..]) == multiset(pre + suf)
  {
    var x := h1[0];
    var i := IndexOf(h2, x);
    pre, suf := h2[..i], h2[i + 1..];
    SplitAt(h2, i);
    DropFirst(h1);
    RemoveOne(pre, x, suf);
  }

  /** An element of a sequence's multiset occurs at some index. */
  lemma IndexOf<T>(h: seq<T>, x: T) returns (i: int)
    requires x in multiset(h)
    ensures 0 <= i < |h| && h[i] == x
  {
    assert x in h;
    i :| 0 <= i < |h| && h[i] == x;
  }

  lemma SplitAt<T>(h: seq<T>, i: int)
    requires 0 <= i < |h|
    ensures h == h[..i] + [h[i]] + h[i + 1..]
  {
  }

  lemma DropFirst<T>(h: seq<T>)
    requires h != []
    ensures multiset(h[1..]) == multiset(h) - multiset{h[0]}
  {
    assert h == [h[0]] + h[1..];
  }

  /** Taking one occurrence of `x` out of a sequence's multiset. */
  lemma RemoveOne<T>(pre: seq<T>, x: T, suf: seq<T>)
    ensures multiset(pre + suf) == multiset(pre + [x] + suf) - multiset{x}
  {
    assert multiset(pre + [x] + suf) == multiset(pre) + multiset{x} + multiset(suf);
    assert multiset(pre + suf) == multiset(pre) + multiset(suf);
  }

  /**
   * The counters do not depend on the order in which the history is visited:
   * any permutation of it gives the same counts.
   */
  lemma {:induction false} CountsPermutation(h1: seq<Sample>, h2: seq<Sample>, lo: int)
    requires multiset(h1) == multiset(h2)
    ensures CountsOf(h1, lo) == CountsOf(h2, lo)
    decreases |h1|
  {
    if h1 == [] {
      assert |h2| == |multiset(h2)| == 0;
    } else {
      var x := h1[0];
      var pre, suf := MatchFirst(h1, h2);
      CountsPermutation(h1[1..], pre + suf, lo);
      assert h1 == [x] + h1[1..];
      CountsAppend([x], h1[1..], lo);
      CountsAppend(pre + [x], suf, lo);
      CountsAppend(pre, [x], lo);
      CountsAppend(pre, suf, lo);
      var cx, cp, cs := CountsOf([x], lo), CountsOf(pre, lo), CountsOf(suf, lo);
      assert CountsOf(h1, lo) == Add(cx, Add(cp, cs));
      assert CountsOf(h2, lo) == Add(Add(cp, cx), cs);
    }
  }

  /** Likewise the `value2` sum. */
  lemma {:induction false} QueueSumPermutation(h1: seq<Sample>, h2: seq<Sample>, lo: int)
    requires multiset(h1) == multiset(h2)
    ensures QueueSum(h1, lo) == QueueSum(h2, lo)
    decreases |h1|
  {
    if h1 == [] {
      assert |h2| == |multiset(h2)| == 0;
    } else {
      var x := h1[0];
      var pre, suf := MatchFirst(h1, h2);
      QueueSumPermutation(h1[1..], pre + suf, lo);
      assert h1 == [x] + h1[1..];
      QueueSumAppend([x], h1[1..], lo);
      QueueSumAppend(pre + [x], suf, lo);
      QueueSumAppend(pre, [x], lo);
      QueueSumAppend(pre, suf, lo);
    }
  }

  /** CalcStats gives the same answer for any ordering of the same samples. */
  lemma StatsOrderIndependent(h1: seq<Sample>, h2: seq<Sample>, now: int, interval: int)
    requires multiset(h1) == multiset(h2)
    ensures StatsOf(h1, now, interval) == StatsOf(h2, now, interval)
  {
    var lo := now - interval;
    CountsPermutation(h1, h2, lo);
    QueueSumPermutation(h1, h2, lo);
    StatsFromAccumulators(h1, now, interval, CountsOf(h1, lo), QueueSum(h1, lo));
    StatsFromAccumulators(h2, now, interval, CountsOf(h1, lo), QueueSum(h1, lo));
  }

  /** The statistics depend on the history only through the two accumulators. */
  lemma StatsFromAccumulators(h: seq<Sample>, now: int, interval: int, c: Counts, q: real)
    requires CountsOf(h, now - interval) == c && QueueSum(h, now - interval) == q
    ensures StatsOf(h, now, interval) == Ratios(c, q)
  {
  }

  /**
   * A window starting earlier selects at least as many samples, and at least
   * as many busy and behind ones.
   */
  lemma {:induction false} CountsMonotone(h: seq<Sample>, lo1: int, lo2: int)
    requires lo2 <= lo1
    ensures CountsOf(h, lo1).total <= CountsOf(h, lo2).total
    ensures CountsOf(h, lo1).busy <= CountsOf(h, lo2).busy
    ensures CountsOf(h, lo1).behind <= CountsOf(h, lo2).behind
    decreases |h|
  {
    if h != [] {
      CountsMonotone(h[..|h| - 1], lo1, lo2);
    }
  }

  /** A longer interval never selects fewer samples. */
  lemma IntervalMonotone(h: seq<Sample>, now: int, interval1: int, interval2: int)
    requires interval1 <= interval2
    ensures CountsOf(h, now - interval1).total <= CountsOf(h, now - interval2).total
  {
    var lo1, lo2 := now - interval1, now - interval2;
    CountsMonotone(h, lo1, lo2);
  }

  /** With non-negative `value2` readings the sum is non-negative. */
  lemma {:induction false} QueueSumNonNegative(h: seq<Sample>, lo: int)
    requires forall i :: 0 <= i < |h| ==> h[i].value2 >= 0.0
    ensures QueueSum(h, lo) >= 0.0
    decreases |h|
  {
    if h != [] {
      var init := h[..|h| - 1];
      assert forall i :: 0 <= i < |init| ==> init[i] == h[i];
      QueueSumNonNegative(init, lo);
    }
  }

  /** With non-negative `value2` readings the average queue is non-negative. */
  lemma QueueAvgNonNegative(h: seq<Sample>, now: int, interval: int)
    requires forall i :: 0 <= i < |h| ==> h[i].value2 >= 0.0
    ensures StatsOf(h, now, interval).Some? ==> StatsOf(h, now, interval).value.queueAvg >= 0.0
  {
    QueueSumNonNegative(h, now - interval);
  }

  /**
   * On a sorted history the selected samples are a suffix `h[k..]`, and
   * `total` is its length.
   */
  lemma {:induction false} WindowIsSuffix(h: seq<Sample>, lo: int) returns (k: nat)
    requires Sorted(h)
    ensures k <= |h|
    ensures forall i :: 0 <= i < |h| ==> (Selected(h[i], lo) <==> k <= i)
    ensures CountsOf(h, lo).total == |h| - k
    decreases |h|
  {
    if h == [] {
      k := 0;
    } else {
      var init, last := h[..|h| - 1], h[|h| - 1];
      assert Sorted(init) by {
        forall i, j | 0 <= i < j < |init| ensures init[i].time <= init[j].time {
          assert init[i] == h[i] && init[j] == h[j];
        }
      }
      var k0 := WindowIsSuffix(init, lo);
      assert CountsOf(h, lo).total == CountsOf(init, lo).total + CountOne(last, lo).total;
      if Selected(last, lo) {
        k := k0;
        forall i | 0 <= i < |h| ensures Selected(h[i], lo) <==> k <= i {
          if i < |init| {
            assert init[i] == h[i];
          }
        }
      } else {
        k := |h|;
        forall i | 0 <= i < |h| ensures h[i].time < lo {
          if i < |h| - 1 {
            assert h[i].time <= h[|h| - 1].time;
          }
        }
      }
    }
  }
}
