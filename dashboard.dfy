/**
 * The pieces of the dashboard loop in `Program.Main` (Src/Program.cs) that
 * decide what is shown: the selected lookback interval and the keys that
 * change it, the 5-second redraw guard, and the header's choice between the
 * selected interval and the history actually available.
 *
 * The loop variables `interval` and `lastCalc` form a `LoopState`; every step
 * takes the current time `now` as a parameter. Times are milliseconds.
 */
module Dashboard {
  import opened Wrappers
  import History

  const Second: int := 1000
  const RefreshPeriod: int := 5 * Second
  /** The interval selected at start-up. */
  const DefaultInterval: int := 10 * Second
  /** `AddYears(-1)`, taken as 365 days. */
  const OneYear: int := 365 * 24 * 60 * 60 * Second

  /** The keys the loop distinguishes: D1 to D5 select an interval; any other key only refreshes. */
  datatype Key = D1 | D2 | D3 | D4 | D5 | OtherKey

  datatype LoopState = LoopState(interval: int, lastCalc: int)

  /** The screen is redrawn on a tick when more than five seconds have passed since the last redraw. */
  predicate RefreshDue(st: LoopState, now: int): (due: bool)
    ensures due <==> now - st.lastCalc > RefreshPeriod
  {
    now > st.lastCalc + RefreshPeriod
  }

  /** Once a redraw is due it stays due until one happens. */
  lemma RefreshDueLater(st: LoopState, now: int, later: int)
    requires RefreshDue(st, now) && later >= now
    ensures RefreshDue(st, later)
  {
  }

  /** State before the first tick: a ten-second interval and a last redraw a year ago. */
  function Start(now: int): (st: LoopState)
    ensures st.interval == DefaultInterval
    ensures forall t :: t >= now ==> RefreshDue(st, t)
  {
    LoopState(DefaultInterval, now - OneYear)
  }

  /** The interval a key selects, if it selects one. */
  function Preset(k: Key): (d: Option<int>)
    ensures d.Some? <==> k != OtherKey
    ensures d.Some? ==> 0 < d.value <= History.Retention
  {
    match k
    case D1 => Some(10 * Second)
    case D2 => Some(60 * Second)
    case D3 => Some(10 * 60 * Second)
    case D4 => Some(60 * 60 * Second)
    case D5 => Some(24 * 60 * 60 * Second)
    case OtherKey => None
  }

  /** The five presets are 10 s, 60 s, 10 min, 1 h and 24 h; the last is the whole retention horizon. */
  lemma PresetValues()
    ensures Preset(D1) == Some(10_000) && Preset(D2) == Some(60_000)
    ensures Preset(D3) == Some(600_000) && Preset(D4) == Some(3_600_000)
    ensures Preset(D5) == Some(86_400_000) && Preset(D5) == Some(History.Retention)
  {
  }

  /** One pending key press: `lastCalc` is pushed a year back, and a preset key selects its interval. */
  function HandleKey(st: LoopState, k: Key, now: int): (r: LoopState)
    ensures r.lastCalc == now - OneYear
    ensures k == OtherKey ==> r.interval == st.interval
    ensures k != OtherKey ==> r.interval == Preset(k).value && 0 < r.interval <= History.Retention
  {
    LoopState(if Preset(k).Some? then Preset(k).value else st.interval, now - OneYear)
  }

  /** The `while (Console.KeyAvailable)` loop: the pending keys handled in order. */
  function HandleKeys(st: LoopState, keys: seq<Key>, now: int): (r: LoopState)
    ensures keys == [] ==> r == st
    ensures keys != [] ==> r.lastCalc == now - OneYear
    ensures 0 < st.interval <= History.Retention ==> 0 < r.interval <= History.Retention
    decreases |keys|
  {
    if keys == [] then st else HandleKeys(HandleKey(st, keys[0], now), keys[1..], now)
  }

  /** The preset of the last interval-selecting key in `keys`, if any. */
  function LastPreset(keys: seq<Key>): Option<int>
    decreases |keys|
  {
    if keys == [] then None
    else if Preset(keys[|keys| - 1]).Some? then Preset(keys[|keys| - 1])
    else LastPreset(keys[..|keys| - 1])
  }

  lemma {:induction false} LastPresetCons(k: Key, keys: seq<Key>)
    ensures LastPreset([k] + keys) == if LastPreset(keys).Some? then LastPreset(keys) else Preset(k)
    decreases |keys|
  {
    var ks := [k] + keys;
    if keys == [] {
      assert ks[..0] == [];
    } else {
      assert ks[|ks| - 1] == keys[|keys| - 1];
      assert ks[..|ks| - 1] == [k] + keys[..|keys| - 1];
      LastPresetCons(k, keys[..|keys| - 1]);
    }
  }

  /**
   * After a burst of key presses the interval is the one chosen by the last
   * D1..D5 key, or unchanged when none of them was pressed.
   */
  lemma {:induction false} HandleKeysInterval(st: LoopState, keys: seq<Key>, now: int)
    ensures HandleKeys(st, keys, now).interval ==
              if LastPreset(keys).Some? then LastPreset(keys).value else st.interval
    decreases |keys|
  {
    if keys != [] {
      HandleKeysInterval(HandleKey(st, keys[0], now), keys[1..], now);
      assert keys == [keys[0]] + keys[1..];
      LastPresetCons(keys[0], keys[1..]);
    }
  }

  /**
   * Any key press cancels the 5-second wait: the next tick, at any time from
   * `now` on, redraws the screen with the interval the keys selected.
   */
  lemma HandleKeysForcesRefresh(st: LoopState, keys: seq<Key>, now: int, t: int)
    requires keys != [] && t >= now
    ensures Tick(HandleKeys(st, keys, now), t).0
    ensures Tick(HandleKeys(st, keys, now), t).1 == LoopState(HandleKeys(st, keys, now).interval, t)
  {
  }

  /** A tick's redraw decision: when due, the screen is redrawn and `lastCalc` becomes `now`. */
  function Tick(st: LoopState, now: int): (r: (bool, LoopState))
    ensures r.0 <==> RefreshDue(st, now)
    ensures r.1.interval == st.interval
    ensures r.0 ==> forall t :: RefreshDue(r.1, t) <==> t > now + RefreshPeriod
    ensures !r.0 ==> r.1 == st
  {
    if RefreshDue(st, now) then (true, st.(lastCalc := now)) else (false, st)
  }

  /**
   * The history span the header can report: the age of the oldest sample,
   * floored to whole seconds.
   */
  function AvailableInterval(now: int, oldest: int): (avail: int)
    ensures avail % Second == 0
    ensures avail <= now - oldest < avail + Second
  {
    ((now - oldest) / Second) * Second
  }

  /** When the oldest sample is inside the horizon, no more than 24 hours are ever reported. */
  lemma AvailableWithinRetention(now: int, oldest: int)
    requires now - History.Retention <= oldest <= now
    ensures 0 <= AvailableInterval(now, oldest) <= History.Retention
  {
  }

  /** The header line: the selected interval, or the shorter span available with a note. */
  datatype Header = Full(interval: int) | NotEnoughData(available: int, selected: int)

  function ShownWindow(h: Header): int {
    match h
    case Full(i) => i
    case NotEnoughData(a, _) => a
  }

  function Min(a: int, b: int): int {
    if a <= b then a else b
  }

  /** The header reports the smaller of the selected and the available interval, and notes when the latter is the smaller. */
  function HeaderFor(interval: int, available: int): (h: Header)
    ensures ShownWindow(h) == Min(interval, available)
    ensures h.NotEnoughData? <==> available < interval
    ensures h.NotEnoughData? ==> h.selected == interval
  {
    if available >= interval then Full(interval) else NotEnoughData(available, interval)
  }
}
