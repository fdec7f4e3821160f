/**
 The display's three timers: the one-shot dim latch, the periodic on/off
 cycle, and the anti-burn-in pixel shift. Each is a pure step on the
 application state that returns the commands it issues.
 */
module Display {
  import opened Types

  /** The loop's display state (`AppState` in the monitor). */
  datatype AppState = AppState(
    lastShiftTime: Instant,
    shiftIndex: nat,
    shiftOffset: Point,
    lastPeriodicToggleTime: Instant,
    isDisplayPeriodicallyOn: bool,
    screenDimmed: bool)

  /** The pixel shift advances once a minute through a fixed two-entry pattern. */
  const ShiftInterval: Duration := 60 * MillisPerSecond
  const ShiftPattern: seq<Point> := [Point(0, 0), Point(1, 0)]

  /** The shift cursor points into the pattern and the offset is the entry it points at. */
  predicate ShiftInvariant(st: AppState, pattern: seq<Point>)
  {
    st.shiftIndex < |pattern| && st.shiftOffset == pattern[st.shiftIndex]
  }

  /** The state the loop starts from: all timers measured from `t0`, the
      display on and bright, and the shift cursor at the pattern's start. */
  function InitialAppState(t0: Instant): (st: AppState)
    ensures ShiftInvariant(st, ShiftPattern)
    ensures st.shiftIndex == 0
    ensures st.lastShiftTime == t0 && st.lastPeriodicToggleTime == t0
    ensures st.isDisplayPeriodicallyOn && !st.screenDimmed
  {
    AppState(t0, 0, Point(0, 0), t0, true, false)
  }

  /** The dim timeout is enabled (at least one whole second) and has elapsed since `start`. */
  predicate DimDue(start: Instant, now: Instant, timeout: Duration)
  {
    AsSecs(timeout) > 0 && DurationSince(now, start) >= timeout
  }

  /** `handle_screen_timeout`: latch the dimmed state, sending the brightness
      command on the one call that sets the latch. */
  function HandleScreenTimeout(start: Instant, now: Instant, timeout: Duration, st: AppState)
    : (r: (AppState, seq<Command>))
    ensures r.0 == st.(screenDimmed := r.0.screenDimmed)
    ensures st.screenDimmed ==> r.0.screenDimmed
    ensures !st.screenDimmed ==> (r.0.screenDimmed <==> DimDue(start, now, timeout))
    ensures r.1 == (if r.0.screenDimmed && !st.screenDimmed then [SetBrightnessMin] else [])
    ensures timeout < MillisPerSecond ==> r == (st, [])
  {
    if AsSecs(timeout) > 0 && !st.screenDimmed && DurationSince(now, start) >= timeout then
      (st.(screenDimmed := true), [SetBrightnessMin])
    else
      (st, [])
  }

  /** The configured length of the phase the display is currently in. */
  function PhaseLength(st: AppState, onDuration: Duration, offDuration: Duration): Duration
  {
    if st.isDisplayPeriodicallyOn then onDuration else offDuration
  }

  /** The current phase has not yet outlasted its configured length, or began at `now`. */
  predicate WithinPhase(st: AppState, now: Instant, onDuration: Duration, offDuration: Duration)
  {
    st.lastPeriodicToggleTime == now ||
    DurationSince(now, st.lastPeriodicToggleTime) < PhaseLength(st, onDuration, offDuration)
  }

  /** `handle_periodic_display`: when enabled, flip the display once its
      current phase has lasted its configured length. */
  function HandlePeriodicDisplay(
    enabled: bool, now: Instant, onDuration: Duration, offDuration: Duration, st: AppState)
    : (r: (AppState, seq<Command>))
    ensures r.0 == st.(isDisplayPeriodicallyOn := r.0.isDisplayPeriodicallyOn,
                       lastPeriodicToggleTime := r.0.lastPeriodicToggleTime)
    ensures r.0.isDisplayPeriodicallyOn != st.isDisplayPeriodicallyOn <==>
              enabled && DurationSince(now, st.lastPeriodicToggleTime) >= PhaseLength(st, onDuration, offDuration)
    ensures r.0.isDisplayPeriodicallyOn != st.isDisplayPeriodicallyOn ==>
              && r.0.lastPeriodicToggleTime == now
              && r.1 == [if r.0.isDisplayPeriodicallyOn then PowerOn else PowerOff]
    ensures r.0.isDisplayPeriodicallyOn == st.isDisplayPeriodicallyOn ==> r == (st, [])
    ensures enabled ==> WithinPhase(r.0, now, onDuration, offDuration)
  {
    if enabled then
      var sinceToggle := DurationSince(now, st.lastPeriodicToggleTime);
      if st.isDisplayPeriodicallyOn && sinceToggle >= onDuration then
        (st.(isDisplayPeriodicallyOn := false, lastPeriodicToggleTime := now), [PowerOff])
      else if !st.isDisplayPeriodicallyOn && sinceToggle >= offDuration then
        (st.(isDisplayPeriodicallyOn := true, lastPeriodicToggleTime := now), [PowerOn])
      else
        (st, [])
    else
      (st, [])
  }

  /** `update_pixel_shift`: once `interval` has passed since the last shift,
      move the cursor one entry along the pattern, wrapping at its end. */
  function UpdatePixelShift(now: Instant, interval: Duration, pattern: seq<Point>, st: AppState)
    : (r: AppState)
    requires |pattern| > 0
    ensures r.screenDimmed == st.screenDimmed
    ensures r.isDisplayPeriodicallyOn == st.isDisplayPeriodicallyOn
    ensures r.lastPeriodicToggleTime == st.lastPeriodicToggleTime
    ensures DurationSince(now, st.lastShiftTime) >= interval ==>
              && r.shiftIndex == (st.shiftIndex + 1) % |pattern|
              && r.lastShiftTime == now
              && ShiftInvariant(r, pattern)
    ensures DurationSince(now, st.lastShiftTime) < interval ==> r == st
    ensures ShiftInvariant(st, pattern) ==> ShiftInvariant(r, pattern)
  {
    if DurationSince(now, st.lastShiftTime) >= interval then
      var index := (st.shiftIndex + 1) % |pattern|;
      st.(shiftIndex := index, shiftOffset := pattern[index], lastShiftTime := now)
    else
      st
  }

  /** With the fixed two-entry pattern each shift changes the offset, and two
      shifts return it to where it was: the offset has period two shifts. */
  lemma ShiftAlternates(t1: Instant, t2: Instant, st: AppState)
    requires ShiftInvariant(st, ShiftPattern)
    requires DurationSince(t1, st.lastShiftTime) >= ShiftInterval
    requires DurationSince(t2, t1) >= ShiftInterval
    ensures UpdatePixelShift(t1, ShiftInterval, ShiftPattern, st).shiftOffset != st.shiftOffset
    ensures UpdatePixelShift(t2, ShiftInterval, ShiftPattern,
              UpdatePixelShift(t1, ShiftInterval, ShiftPattern, st)) ==
            st.(lastShiftTime := t2)
  {
    var s1 := UpdatePixelShift(t1, ShiftInterval, ShiftPattern, st);
    assert s1.shiftIndex == 1 - st.shiftIndex;
  }
}
