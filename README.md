# HyperVDiskUsage in Dafny

HyperVDiskUsage is a console dashboard for Windows disks. For every physical disk and every
Hyper-V virtual storage device, it samples a queue-length performance counter five times a
second. It keeps up to 24 hours of samples per disk. Every five seconds it redraws a table
with three statistics over a lookback interval that the user selects:

- how often the disk was busy (queue length at least 1);
- how often it was behind (queue length above 1);
- for physical disks, the average of a second, averaged queue-length counter.

This project models the core of `Src/Program.cs`:

- **`Counter` class** (`counter.dfy`): constructor, `Sample`, `SampleCount`, `CalcStats`.
  It is a Dafny class with the same fields: the history queue as a `seq<Sample>` and the
  cached `OldestSample` time. Both methods have loops and are proved against these
  specification functions:
  - `History.Evict` (`history.dfy`) is the eviction loop's value. The lemmas about it cover
    ordering, freshness and a bound on the number of retained samples.
  - `Stats.StatsOf` (`stats.dfy`) is the statistics pass. `CountsOf` and `QueueSum` are its
    integer and real accumulators. The lemmas cover the "no data" case, the ratio bounds,
    independence from order, and monotonicity in the interval.
- **Display-name derivation** (`names.dfy`): the four removals of path fragments from a
  counter's instance name. `RemoveAll` models .NET's ordinal `String.Replace(token, "")`.
- **Dashboard loop** (`dashboard.dfy`): the pieces of `Program.Main` that decide what is
  shown. These are the key-to-interval presets, the handling of a burst of key presses, the
  5-second redraw guard, and the header's choice between the selected interval and the span
  of history actually available.
- **Worked examples** (`scenarios.dfy`): small concrete histories and their statistics.

Conventions:

- **Time** is an `int` counting milliseconds. `Counters.DefaultTime` (0) plays the role of
  `default(DateTime)`.
- **The clock** is a parameter `now`, read once per call.
- **Readings** from the performance counters are exact `real` values passed to `Sample`.
- **No data.** `CalcStats` divides by the number of samples in the window, which gives NaN
  in the source when there are none. The model returns `Option.None` in that case.

Three behaviours of the code are easy to misread:

- **Behind fraction.** A sample counts as behind when its primary reading is strictly greater
  than 1 (line 114). For three samples with readings 0.5, 1.5 and 2.0, busy and behind are
  therefore both 2/3 (`Scenarios.ThreeSamples`).
- **Eviction boundary.** Eviction drops a sample only when it is strictly older than 24 hours
  (line 93). A sample exactly 24 hours old is kept, so one sample per second keeps up to
  86,401 samples (`History.OneSecondSpacingBound`).
- **Empty history.** Before the first sample, `OldestSample` is `default(DateTime)`
  (`Counters.Counter.constructor`).

## Model

| member | source | states |
|---|---|---|
| Counters.Counter.constructor | Src/Program.cs:80-86 | keeps the kind and whether a second counter exists; the name is `DisplayName` of the instance name; the history is empty and `OldestSample` is the default time |
| Counters.Counter.Sample | Src/Program.cs:88-96 | the new history is `Evict` of the old history plus the new sample, whose second reading is 0 without a second counter; the new sample is last and is kept; `OldestSample` is the time of the new front sample, inside the 24-hour horizon; a sorted history whose last sample is not after `now` stays sorted and holds only fresh samples; for every gap, if the old samples were that far apart and `now` is at least that far after the last one, the new history is spaced by the gap, lies within the last 24 hours and has at most 24 h / gap + 1 samples (`KeepsSpacing`) |
| Counters.Counter.SampleCount | Src/Program.cs:98 | the number of samples currently retained |
| Counters.Counter.CalcStats | Src/Program.cs:100-119 | the single pass over the history returns exactly `StatsOf(history, now, interval)`, and changes nothing |
| History.Evict | Src/Program.cs:93-94 | the result is a suffix of the history; every dropped sample is older than the horizon, and the new front sample (if any) is not |
| History.EvictDrops | Src/Program.cs:93-94 | when the first `k` samples are older than the horizon and the next one is not, eviction leaves exactly the samples from position `k` on |
| History.EvictSorted | Src/Program.cs:92-95 | on a time-ordered history, eviction keeps the order and leaves only samples at or after the horizon |
| History.IngestSorted | Src/Program.cs:92-95 | appending a sample no earlier than the last one, then evicting, keeps the history ordered and fresh |
| History.BoundedRetention | Src/Program.cs:92-95 | samples at least `gap` ms apart, all within the last 24 hours, number at most 24 h / `gap` + 1 |
| History.SampleKeepsSpacing | Src/Program.cs:92-95 | adding a sample at least `gap` after the last one to a history spaced by `gap`, then evicting, gives a history spaced by `gap` within the last 24 hours, of at most 24 h / `gap` + 1 samples |
| History.SampleKeepsSpacingAll | Src/Program.cs:92-95 | the same for every gap at once, in the form `Counter.Sample` promises |
| History.EvictSpacedWithin | Src/Program.cs:93-94 | evicting a spaced history whose last sample is at `now` leaves a spaced history within the last 24 hours |
| History.OneSecondSpacingBound | Src/Program.cs:93-94 | with one sample per second, at most 86,401 samples are retained |
| History.TickSpacingBound | Src/Program.cs:21-25 | with timestamps at least 200 ms apart, at most 432,001 samples are retained |
| Stats.CountsOf | Src/Program.cs:106-117 | behind ≤ busy ≤ total ≤ number of samples |
| Stats.QueueSum | Src/Program.cs:105-111 | when no sample lies in the window, the sum of second readings is 0 |
| Stats.Ratios | Src/Program.cs:118 | there is no data exactly when nothing was counted |
| Stats.RatiosScaleBack | Src/Program.cs:118 | each ratio times the number of selected samples gives back its accumulator |
| Stats.StatsOf | Src/Program.cs:100-118 | no data exactly when no sample lies in the window; otherwise 0 ≤ behind ≤ busy ≤ 1 |
| Stats.TotalZeroIff | Src/Program.cs:106-110 | the window count is zero if and only if every sample is older than `now - interval` |
| Stats.CountsAppend | Src/Program.cs:106-117 | counting a concatenation adds the counts of its parts |
| Stats.QueueSumAppend | Src/Program.cs:106-117 | summing the second readings of a concatenation adds the two sums |
| Stats.CountsPermutation | Src/Program.cs:106-117 | the counts do not depend on the order of the samples |
| Stats.QueueSumPermutation | Src/Program.cs:106-117 | the sum of second readings does not depend on the order of the samples |
| Stats.StatsOrderIndependent | Src/Program.cs:100-118 | histories with the same samples in any order give the same statistics |
| Stats.CountsMonotone | Src/Program.cs:108-116 | an earlier window start never counts fewer samples, busy samples or behind samples |
| Stats.IntervalMonotone | Src/Program.cs:100-110 | a longer interval never selects fewer samples |
| Stats.QueueAvgNonNegative | Src/Program.cs:111-118 | with non-negative second readings, the average queue is non-negative |
| Stats.WindowIsSuffix | Src/Program.cs:106-110 | on a time-ordered history the selected samples are exactly a suffix, and the total is that suffix's length |
| DisplayNames.RemoveAll | Src/Program.cs:85 | removing every occurrence of a token never lengthens the string |
| DisplayNames.RemoveAllShortens | Src/Program.cs:85 | when the token occurs, removal strictly shortens the string |
| DisplayNames.RemoveAllAbsent | Src/Program.cs:85 | when the token does not occur, the string is unchanged |
| DisplayNames.RemoveAllUnchangedIff | Src/Program.cs:85 | removal leaves the string unchanged if and only if the token does not occur |
| DisplayNames.RemoveAllShortensIfChanged | Src/Program.cs:85 | removal either leaves the string as it is or makes it strictly shorter |
| DisplayNames.RemoveAllLeftToRight | Src/Program.cs:85 | occurrences are found left to right without overlap: "aaa" without "aa" is "a" |
| DisplayNames.DisplayName | Src/Program.cs:85 | the display name is never longer than the instance name |
| DisplayNames.DisplayNameUnchangedIff | Src/Program.cs:85 | the display name equals the instance name if and only if none of the four tokens occurs in it |
| DisplayNames.NestedTokenSurvives | Src/Program.cs:85 | removal is a single pass: "C:C:--d" becomes "C:-d", which still contains the drive token |
| Dashboard.Start | Src/Program.cs:19-20 | the loop starts with a 10-second interval and a last redraw a year back, so the first tick redraws |
| Dashboard.Preset | Src/Program.cs:57-66 | keys D1 to D5 select an interval between 0 and 24 hours; any other key selects none |
| Dashboard.PresetValues | Src/Program.cs:57-66 | the presets are 10 s, 60 s, 10 min, 1 h and 24 h; the last equals the retention horizon |
| Dashboard.RefreshDue | Src/Program.cs:27 | a redraw is due if and only if more than 5 s have passed since the last one |
| Dashboard.RefreshDueLater | Src/Program.cs:27 | once a redraw is due, it stays due at every later time |
| Dashboard.HandleKey | Src/Program.cs:55-66 | one key press moves the last redraw a year back; a D1-D5 key selects its preset, which lies between 0 and 24 hours, and any other key keeps the interval |
| Dashboard.HandleKeys | Src/Program.cs:53-67 | with no keys the state is unchanged; any key moves the last redraw a year back; an interval between 0 and 24 hours stays in that range |
| Dashboard.HandleKeysInterval | Src/Program.cs:53-67 | after a burst of keys, the interval is the preset of the last D1-D5 key, or unchanged if there is none |
| Dashboard.HandleKeysForcesRefresh | Src/Program.cs:53-55 | after any key press, the next tick at any time from then on redraws, keeping the selected interval and setting the last redraw to that time |
| Dashboard.Tick | Src/Program.cs:27-29 | a tick redraws if and only if more than 5 s have passed since the last redraw; a redraw sets the last redraw to `now` and keeps the interval; otherwise nothing changes |
| Dashboard.AvailableInterval | Src/Program.cs:32 | the available span is the oldest sample's age, floored to whole seconds |
| Dashboard.AvailableWithinRetention | Src/Program.cs:32 | when the oldest sample is within the horizon, the available span is between 0 and 24 hours |
| Dashboard.HeaderFor | Src/Program.cs:33-36 | the header shows the smaller of the selected and the available interval, and adds the "not enough data" note exactly when the available one is smaller |
| Scenarios.ThreeSamples | Src/Program.cs:106-118 | three samples in the window with primary readings 0.5, 1.5 and 2.0 and second readings 1 give busy 2/3, behind 2/3 and average queue 1 |
| Scenarios.SingleSample | Src/Program.cs:106-118 | one sample with primary reading exactly 1 is busy but not behind |
| Scenarios.EmptyHistory | Src/Program.cs:100-118 | an empty history has no data for any interval |
| Scenarios.NarrowWindow | Src/Program.cs:108 | a window that starts after the older of two samples counts only the newer one |

## Left out

- Performance counters (lines 13-18, 90-91): discovering disk instances, creating counters, and `NextValue`. These are operating-system calls. Their readings become the parameters of `Sample`, and the presence of a second counter becomes `hasSecondary`.
- The clock: the source reads `DateTime.UtcNow` anew in every eviction-loop check and for every sample in `CalcStats`. It also reads it twice on a tick, once for the redraw guard (line 27) and once for the new `lastCalc` (line 29), once more for the header's available span (line 32), and once per pending key (line 55). The model reads `now` once per call.
- `float`/`double` arithmetic: readings are exact reals, without `float` rounding. The NaN that `CalcStats` produces for an empty window becomes `None`. `Math.Floor` on `TotalSeconds` becomes integer division of non-negative milliseconds.
- Console output (lines 30-31, 37-50): clearing the screen, colours and the formatted rows. This includes sorting the rows by busy fraction and then by name (lines 39 and 45). NaN rows and the culture-dependent string ordering of that sort are not modelled.
- The endless `while (true)` loop with `Thread.Sleep(200)` (lines 21-23): the model has the single steps (`Counter.Sample`, `Dashboard.Tick`, `Dashboard.HandleKeys`, `Counter.CalcStats`), not their interleaving. The 200 ms spacing appears only as an assumption of `History.TickSpacingBound`.
- Reading keys (`Console.KeyAvailable`, `ReadKey`): a burst of pending keys is a `seq<Key>` parameter.
- `counters[0]` (lines 32 and 49): when the machine has no disk, the source throws. The model has no list of counters, so the header and the sample count take one counter's values.
- `AddYears(-1)` is modelled as 365 days. Leap years and `DateTime` range limits (for example, `AddHours(-24)` near `DateTime.MinValue`) are not modelled.
- Counters.Counter.SampleCount: its contract only equates it with the history's length. The bound on that length reaches a `Counter` through `Sample`'s `KeepsSpacing` postcondition and is stated as a number in `History.BoundedRetention` and `History.TickSpacingBound`.
- Stats.StatsOf: its ratios are exact real quotients, not `double` divisions.
