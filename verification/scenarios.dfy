/**
 Concrete example runs of the loop, proved of the model.
 */
module Scenarios {
  import opened Types
  import Sink
  import opened Fan
  import opened Display
  import opened ControlLoop

  /** Fan thresholds 70 and 60: the samples 50, 65, 72, 68, 61, 59 leave the
      fan off, off, on, on, on, off, with one write at each switch. */
  lemma FanScenario()
    ensures var fc := FanController(70, 60, false);
            var temps := [50, 65, 72, 68, 61, 59];
            var expected := [false, false, true, true, true, false];
            && (forall k | 1 <= k <= 6 :: FanRun(fc, temps[..k]).0.isRunning == expected[k - 1])
            && FanRun(fc, temps).1 == [FanOn, FanOff]
  {
    var fc := FanController(70, 60, false);
    var temps := [50, 65, 72, 68, 61, 59];
    assert temps[..1] == [50];
    assert temps[..2] == [50, 65] && temps[..2][..1] == [50];
    assert temps[..3] == [50, 65, 72] && temps[..3][..2] == [50, 65];
    assert temps[..4] == [50, 65, 72, 68] && temps[..4][..3] == [50, 65, 72];
    assert temps[..5] == [50, 65, 72, 68, 61] && temps[..5][..4] == [50, 65, 72, 68];
    assert temps[..6] == temps && temps[..5] == [50, 65, 72, 68, 61];
  }

  /** Dim timeout of 300 seconds with a tick every 5 seconds: the tick at
      295 s leaves the screen bright, the tick at 300 s dims it with one
      brightness command, and the tick at 305 s sends nothing. */
  lemma DimScenario(st: AppState)
    requires !st.screenDimmed
    ensures var timeout := 300 * MillisPerSecond;
            var before := HandleScreenTimeout(0, 295 * MillisPerSecond, timeout, st);
            var at := HandleScreenTimeout(0, 300 * MillisPerSecond, timeout, before.0);
            var after := HandleScreenTimeout(0, 305 * MillisPerSecond, timeout, at.0);
            && before == (st, [])
            && at.0.screenDimmed && at.1 == [SetBrightnessMin]
            && after == (at.0, [])
  {
  }

  /** Periodic off with 600 s on and 60 s off, on since time 0: power off at
      600 s, power on at 660 s, and nothing in between. */
  lemma PeriodicScenario(st: AppState)
    requires st.isDisplayPeriodicallyOn && st.lastPeriodicToggleTime == 0
    ensures var on := 600 * MillisPerSecond;
            var off := 60 * MillisPerSecond;
            var early := HandlePeriodicDisplay(true, 599 * MillisPerSecond, on, off, st);
            var down := HandlePeriodicDisplay(true, 600 * MillisPerSecond, on, off, st);
            var dark := HandlePeriodicDisplay(true, 659 * MillisPerSecond, on, off, down.0);
            var up := HandlePeriodicDisplay(true, 660 * MillisPerSecond, on, off, down.0);
            && early == (st, [])
            && down.1 == [PowerOff] && !down.0.isDisplayPeriodicallyOn
            && dark == (down.0, [])
            && up.1 == [PowerOn] && up.0.isDisplayPeriodicallyOn
            && up.0.lastPeriodicToggleTime == 660 * MillisPerSecond
  {
  }

  /** A tick in which every rule fires: the commands come out in step order
      and, the display having just been powered off, nothing is rendered. */
  lemma BusyTickScenario(stats: Stats)
    requires stats.cpuTemp >= 70
    ensures var cfg := DisplayConfig(60 * MillisPerSecond, true, 60 * MillisPerSecond, 10 * MillisPerSecond);
            var s := LoopState(InitialAppState(0), FanController(70, 60, false), 0);
            var r := PlanTick(cfg, s, 60 * MillisPerSecond, stats);
            && r.1 == [SetBrightnessMin, PowerOff, FanOn]
            && r.0.app.shiftOffset == Point(1, 0)
  {
    var cfg := DisplayConfig(60 * MillisPerSecond, true, 60 * MillisPerSecond, 10 * MillisPerSecond);
    var app := InitialAppState(0);
    var now := 60 * MillisPerSecond;
    var dim := HandleScreenTimeout(0, now, cfg.screenTimeout, app);
    assert dim == (app.(screenDimmed := true), [SetBrightnessMin]);
    var periodic := HandlePeriodicDisplay(true, now, cfg.periodicOn, cfg.periodicOff, dim.0);
    assert periodic.1 == [PowerOff] && !periodic.0.isDisplayPeriodicallyOn;
    var shifted := UpdatePixelShift(now, ShiftInterval, ShiftPattern, periodic.0);
    assert shifted.shiftIndex == 1;
    assert HandleFanControl(FanController(70, 60, false), stats.cpuTemp).1 == [FanOn];
    assert dim.1 + periodic.1 == [SetBrightnessMin, PowerOff];
    assert DisplaySteps(cfg, 0, now, app) == (shifted, [SetBrightnessMin, PowerOff]);
    assert RenderStep(shifted, stats) == [];
  }

  /** The same tick when the display rejects the power-off: the brightness
      command has gone out, the failure ends the tick, and the fan is never
      commanded. */
  lemma FailedTickScenario(stats: Stats)
    requires stats.cpuTemp >= 70
    ensures var cfg := DisplayConfig(60 * MillisPerSecond, true, 60 * MillisPerSecond, 10 * MillisPerSecond);
            var s := LoopState(InitialAppState(0), FanController(70, 60, false), 0);
            Tick(cfg, s, TickInput(60 * MillisPerSecond, stats, c => c != PowerOff))
              == Halted([SetBrightnessMin], PowerOff)
  {
    var cfg := DisplayConfig(60 * MillisPerSecond, true, 60 * MillisPerSecond, 10 * MillisPerSecond);
    var s := LoopState(InitialAppState(0), FanController(70, 60, false), 0);
    var accepts := (c: Command) => c != PowerOff;
    BusyTickScenario(stats);
    var cmds := [SetBrightnessMin, PowerOff, FanOn];
    assert PlanTick(cfg, s, 60 * MillisPerSecond, stats).1 == cmds;
    assert cmds[1..] == [PowerOff, FanOn];
    assert Sink.Deliver(cmds[1..], accepts) == Sink.FailedAt([], PowerOff);
    assert Sink.Deliver(cmds, accepts) == Sink.FailedAt([SetBrightnessMin], PowerOff);
  }
}
