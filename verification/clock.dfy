/** The monotonic clock of ts/utils/time.ts, in the form it takes when the
    browser has no `performance.now`: `Date.now()` corrected by a drift so that
    the returned time never goes backwards, and `Stopwatch` on top of it.

    `Date.now()` is not modelled; each call of `now` is given the raw reading
    it would have returned. */
module Clock {

  /** The closure's captured `lastValue` and `drift`. */
  datatype ClockState = ClockState(lastValue: int, drift: int)

  /** The state the closure starts from. */
  const INITIAL: ClockState := ClockState(0, 0)

  /** A call of `now` that read `raw` from `Date.now()`: its result and the
      state after it. */
  datatype Reading = Reading(time: int, state: ClockState)

  /** One call of `now`. The result never falls below the previous result and
      becomes the new `lastValue`; the drift only grows, and only when the
      corrected reading would have gone backwards; otherwise the result is the
      corrected reading itself. In every case the result is the raw reading
      plus the new drift. */
  function Now(c: ClockState, raw: int): (r: Reading)
    ensures r.time >= c.lastValue
    ensures r.state.lastValue == r.time
    ensures r.state.drift >= c.drift
    ensures r.time == raw + r.state.drift
    ensures raw + c.drift >= c.lastValue ==> r.time == raw + c.drift && r.state.drift == c.drift
    ensures raw + c.drift < c.lastValue ==>
      r.time == c.lastValue && r.state.drift == c.drift + (c.lastValue - (raw + c.drift))
  {
    var t := raw + c.drift;
    if t < c.lastValue then
      Reading(c.lastValue, ClockState(c.lastValue, c.drift + (c.lastValue - t)))
    else
      Reading(t, ClockState(t, c.drift))
  }

  /** The results of successive calls of `now` for the given raw readings, and
      the state left behind. */
  datatype Trace = Trace(times: seq<int>, state: ClockState)

  function NowAll(c: ClockState, raws: seq<int>): (r: Trace)
    ensures |r.times| == |raws|
    decreases |raws|
  {
    if |raws| == 0 then Trace([], c)
    else
      var first := Now(c, raws[0]);
      var rest := NowAll(first.state, raws[1..]);
      Trace([first.time] + rest.times, rest.state)
  }

  /** Whatever `Date.now()` does, the times `now` returns never decrease, never
      fall below the last value before them, the drift never shrinks, and the
      final `lastValue` is the last time returned. */
  lemma {:induction false} NowMonotonic(c: ClockState, raws: seq<int>)
    ensures forall i, j :: 0 <= i <= j < |raws| ==> NowAll(c, raws).times[i] <= NowAll(c, raws).times[j]
    ensures forall i :: 0 <= i < |raws| ==> c.lastValue <= NowAll(c, raws).times[i]
    ensures NowAll(c, raws).state.drift >= c.drift
    ensures |raws| > 0 ==> NowAll(c, raws).state.lastValue == NowAll(c, raws).times[|raws| - 1]
    ensures |raws| == 0 ==> NowAll(c, raws).state == c
    decreases |raws|
  {
    if |raws| > 0 {
      var first := Now(c, raws[0]);
      NowMonotonic(first.state, raws[1..]);
      var r := NowAll(c, raws);
      var rest := NowAll(first.state, raws[1..]);
      assert r.times == [first.time] + rest.times;
      forall i, j | 0 <= i <= j < |raws|
        ensures r.times[i] <= r.times[j]
      {
        if i > 0 {
          assert r.times[i] == rest.times[i - 1] && r.times[j] == rest.times[j - 1];
        } else if j > 0 {
          assert r.times[j] == rest.times[j - 1];
        }
      }
    }
  }

  /** The closure starts from `lastValue = 0`, so no time it ever returns is
      negative, even if `Date.now()` is. */
  lemma NowNeverNegative(raws: seq<int>)
    ensures forall i :: 0 <= i < |raws| ==> NowAll(INITIAL, raws).times[i] >= 0
  {
    NowMonotonic(INITIAL, raws);
  }

  /** `Stopwatch`: the `now()` value at the last reset. */
  datatype Stopwatch = Stopwatch(origin: int)

  /** A stopwatch reset no later than the clock's last reading. */
  predicate Started(s: Stopwatch, c: ClockState)
  {
    s.origin <= c.lastValue
  }

  /** The stopwatch and clock after `reset()` (also what the constructor does). */
  datatype Reset = Reset(watch: Stopwatch, state: ClockState)

  /** `reset()`: the origin becomes the current `now()`, which is the clock's
      new last value and no earlier than its previous one; the clock moves on
      exactly as one call of `now` moves it. */
  function ResetWatch(c: ClockState, raw: int): (r: Reset)
    ensures r.watch.origin == r.state.lastValue
    ensures r.watch.origin >= c.lastValue
    ensures r.state.drift >= c.drift
    ensures Now(c, raw) == Reading(r.watch.origin, r.state)
  {
    var n := Now(c, raw);
    Reset(Stopwatch(n.time), n.state)
  }

  /** The `elapsed` getter: `now() - origin`. It is never negative for a
      stopwatch reset against the same clock, and reading it keeps the
      stopwatch started. The reading is one call of `now` less the origin. */
  function Elapsed(s: Stopwatch, c: ClockState, raw: int): (r: Reading)
    ensures r.time + s.origin == r.state.lastValue
    ensures r.state.lastValue >= c.lastValue && r.state.drift >= c.drift
    ensures Started(s, c) ==> r.time >= 0 && Started(s, r.state)
    ensures Now(c, raw) == Reading(r.time + s.origin, r.state)
  {
    var n := Now(c, raw);
    Reading(n.time - s.origin, n.state)
  }

  /** Any number of other `now()` calls between a reset and a reading of
      `elapsed` keep the elapsed time non-negative. */
  lemma ElapsedAfterCalls(c: ClockState, raw: int, between: seq<int>, last: int)
    ensures var reset := ResetWatch(c, raw);
            Elapsed(reset.watch, NowAll(reset.state, between).state, last).time >= 0
  {
    var reset := ResetWatch(c, raw);
    NowMonotonic(reset.state, between);
  }
}
