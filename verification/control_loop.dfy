/**
 The monitor's main loop: startup, one tick (dim, periodic, shift, fan,
 render, in that order), and a finite run of ticks.
 */
module ControlLoop {
  import opened Types
  import opened Sink
  import opened Fan
  import opened Display

  /** The display settings the loop reads from its configuration. */
  datatype DisplayConfig = DisplayConfig(
    screenTimeout: Duration,
    enablePeriodicOff: bool,
    periodicOn: Duration,
    periodicOff: Duration)

  /** Everything the loop carries from one tick to the next. */
  datatype LoopState = LoopState(app: AppState, fan: FanController, startTime: Instant)

  /** What the outside world supplies to one tick: the clock reading, the
      statistics snapshot, and which commands the hardware accepts. */
  datatype TickInput = TickInput(now: Instant, stats: Stats, accepts: Command -> bool)

  /** A tick, a startup or a run either carries on with a new state and the
      commands it sent, or halts with the commands sent before the one that failed. */
  datatype Outcome =
    | Running(state: LoopState, log: seq<Command>)
    | Halted(log: seq<Command>, failed: Command)

  /** The step of the tick that issues a command: dim, periodic, fan, render. */
  function Stage(c: Command): nat
  {
    match c
    case SetBrightnessMin => 0
    case PowerOff => 1
    case PowerOn => 1
    case FanOn => 2
    case FanOff => 2
    case Render(_, _) => 3
  }

  /** Commands appear in the tick's step order, at most one per step. */
  predicate InStageOrder(cmds: seq<Command>)
  {
    forall i, j :: 0 <= i < j < |cmds| ==> Stage(cmds[i]) < Stage(cmds[j])
  }

  /** Appending commands of step `k` or later to commands of steps before `k`
      keeps the step order. */
  lemma StageOrderConcat(a: seq<Command>, b: seq<Command>, k: nat)
    requires InStageOrder(a) && InStageOrder(b)
    requires forall c | c in a :: Stage(c) < k
    requires forall c | c in b :: k <= Stage(c)
    ensures InStageOrder(a + b)
  {
    forall i, j | 0 <= i < j < |a + b| ensures Stage((a + b)[i]) < Stage((a + b)[j]) {
      if j < |a| {
        assert (a + b)[i] == a[i] && (a + b)[j] == a[j];
      } else if i < |a| {
        assert (a + b)[i] == a[i] && (a + b)[j] == b[j - |a|];
        assert a[i] in a && b[j - |a|] in b;
      } else {
        assert (a + b)[i] == b[i - |a|] && (a + b)[j] == b[j - |a|];
      }
    }
  }

  predicate HasRender(cmds: seq<Command>)
  {
    exists i :: 0 <= i < |cmds| && cmds[i].Render?
  }

  /** The loop before its first tick: the fan is switched off, then every timer
      starts at `t0`. `fc` is the controller as constructed from the configuration. */
  function Startup(fc: FanController, t0: Instant, accepts: Command -> bool): (r: Outcome)
    ensures r.Running? <==> accepts(FanOff)
    ensures r.Halted? ==> r.log == [] && r.failed == FanOff
    ensures r.Running? ==>
              && r.log == [FanOff]
              && !r.state.fan.isRunning
              && r.state.fan.tempOn == fc.tempOn && r.state.fan.tempOff == fc.tempOff
              && r.state.startTime == t0
              && r.state.app.lastShiftTime == t0
              && r.state.app.lastPeriodicToggleTime == t0
              && r.state.app.shiftIndex == 0
              && r.state.app.isDisplayPeriodicallyOn
              && !r.state.app.screenDimmed
              && ShiftInvariant(r.state.app, ShiftPattern)
  {
    var off := SwitchOff(fc);
    match Deliver(off.1, accepts)
    case Delivered => Running(LoopState(InitialAppState(t0), off.0, t0), off.1)
    case FailedAt(sent, failed) => Halted(sent, failed)
  }

  /** The display half of a tick at `now`: dim, then periodic, then pixel shift. */
  function DisplaySteps(cfg: DisplayConfig, start: Instant, now: Instant, app: AppState)
    : (r: (AppState, seq<Command>))
  {
    var dim := HandleScreenTimeout(start, now, cfg.screenTimeout, app);
    var periodic := HandlePeriodicDisplay(
      cfg.enablePeriodicOff, now, cfg.periodicOn, cfg.periodicOff, dim.0);
    (UpdatePixelShift(now, ShiftInterval, ShiftPattern, periodic.0), dim.1 + periodic.1)
  }

  /** The render command a tick sends: only while the display is periodically on. */
  function RenderStep(app: AppState, stats: Stats): (r: seq<Command>)
    ensures HasRender(r) <==> app.isDisplayPeriodicallyOn
    ensures forall c | c in r :: c == Render(stats, app.shiftOffset)
  {
    if app.isDisplayPeriodicallyOn then
      var r := [Render(stats, app.shiftOffset)];
      assert r[0].Render?;
      r
    else []
  }

  /** What one tick at `now` decides, assuming the hardware accepts every
      command: the next state and the commands, in the order the tick sends them. */
  function PlanTick(cfg: DisplayConfig, s: LoopState, now: Instant, stats: Stats)
    : (r: (LoopState, seq<Command>))
    ensures r.0.startTime == s.startTime
    ensures r.0.fan == HandleFanControl(s.fan, stats.cpuTemp).0
    ensures ShiftInvariant(s.app, ShiftPattern) ==> ShiftInvariant(r.0.app, ShiftPattern)
  {
    var display := DisplaySteps(cfg, s.startTime, now, s.app);
    var fan := HandleFanControl(s.fan, stats.cpuTemp);
    (LoopState(display.0, fan.0, s.startTime), display.1 + fan.1 + RenderStep(display.0, stats))
  }

  /** The display half sends at most a brightness command and then a power
      command, and nothing else. */
  lemma DisplayStepsInStageOrder(cfg: DisplayConfig, start: Instant, now: Instant, app: AppState)
    ensures InStageOrder(DisplaySteps(cfg, start, now, app).1)
    ensures forall c | c in DisplaySteps(cfg, start, now, app).1 :: Stage(c) <= 1
  {
    var dim := HandleScreenTimeout(start, now, cfg.screenTimeout, app);
    var periodic := HandlePeriodicDisplay(
      cfg.enablePeriodicOff, now, cfg.periodicOn, cfg.periodicOff, dim.0);
    assert forall c | c in dim.1 :: Stage(c) == 0;
    assert forall c | c in periodic.1 :: Stage(c) == 1;
    StageOrderConcat(dim.1, periodic.1, 1);
  }

  /** A tick sends at most one command per step, in the order dim, periodic,
      fan, render. */
  lemma PlanTickInStageOrder(cfg: DisplayConfig, s: LoopState, now: Instant, stats: Stats)
    ensures InStageOrder(PlanTick(cfg, s, now, stats).1)
  {
    var display := DisplaySteps(cfg, s.startTime, now, s.app);
    var fan := HandleFanControl(s.fan, stats.cpuTemp);
    var render := RenderStep(display.0, stats);
    DisplayStepsInStageOrder(cfg, s.startTime, now, s.app);
    assert forall c | c in fan.1 :: Stage(c) == 2;
    assert forall c | c in render :: Stage(c) == 3;
    StageOrderConcat(display.1, fan.1, 2);
    StageOrderConcat(display.1 + fan.1, render, 3);
  }

  /** Render gating: a tick renders exactly when the display is periodically
      on after the periodic step, and the render carries this tick's snapshot
      at the offset the pixel shift step left. */
  lemma PlanTickRendersOnlyWhenOn(cfg: DisplayConfig, s: LoopState, now: Instant, stats: Stats)
    ensures var r := PlanTick(cfg, s, now, stats);
            && (HasRender(r.1) <==> r.0.app.isDisplayPeriodicallyOn)
            && r.0.app.isDisplayPeriodicallyOn ==
               HandlePeriodicDisplay(cfg.enablePeriodicOff, now, cfg.periodicOn, cfg.periodicOff,
                                     HandleScreenTimeout(s.startTime, now, cfg.screenTimeout, s.app).0).0
                 .isDisplayPeriodicallyOn
            && forall c | c in r.1 && c.Render? :: c == Render(stats, r.0.app.shiftOffset)
  {
    var display := DisplaySteps(cfg, s.startTime, now, s.app);
    var fan := HandleFanControl(s.fan, stats.cpuTemp);
    var render := RenderStep(display.0, stats);
    var cmds := display.1 + fan.1 + render;
    DisplayStepsInStageOrder(cfg, s.startTime, now, s.app);
    assert forall c | c in display.1 + fan.1 :: !c.Render?;
    if display.0.isDisplayPeriodicallyOn {
      assert cmds[|cmds| - 1].Render?;
    } else {
      assert render == [];
      assert cmds == display.1 + fan.1;
    }
  }

  /** The dim latch inside the display half of a tick. */
  lemma DisplayStepsDimLatch(cfg: DisplayConfig, start: Instant, now: Instant, app: AppState)
    ensures var r := DisplaySteps(cfg, start, now, app);
            && (r.0.screenDimmed <==> app.screenDimmed || DimDue(start, now, cfg.screenTimeout))
            && multiset(r.1)[SetBrightnessMin] ==
               if !app.screenDimmed && DimDue(start, now, cfg.screenTimeout) then 1 else 0
  {
    var dim := HandleScreenTimeout(start, now, cfg.screenTimeout, app);
    var periodic := HandlePeriodicDisplay(
      cfg.enablePeriodicOff, now, cfg.periodicOn, cfg.periodicOff, dim.0);
    assert SetBrightnessMin !in periodic.1;
  }

  /** The dim latch inside a tick: the latch is set exactly when it was already
      set or the timeout is due, and the brightness command is sent once, on
      the tick that sets it. */
  lemma PlanTickDimLatch(cfg: DisplayConfig, s: LoopState, now: Instant, stats: Stats)
    ensures var r := PlanTick(cfg, s, now, stats);
            && (r.0.app.screenDimmed <==> s.app.screenDimmed || DimDue(s.startTime, now, cfg.screenTimeout))
            && multiset(r.1)[SetBrightnessMin] ==
               if !s.app.screenDimmed && DimDue(s.startTime, now, cfg.screenTimeout) then 1 else 0
  {
    var r := PlanTick(cfg, s, now, stats);
    var display := DisplaySteps(cfg, s.startTime, now, s.app);
    var rest := HandleFanControl(s.fan, stats.cpuTemp).1 + RenderStep(display.0, stats);
    DisplayStepsDimLatch(cfg, s.startTime, now, s.app);
    assert r.1 == display.1 + rest && r.0.app == display.0;
    assert multiset(r.1)[SetBrightnessMin] == multiset(display.1)[SetBrightnessMin] by {
      assert SetBrightnessMin !in rest;
      assert multiset(display.1 + rest) == multiset(display.1) + multiset(rest);
    }
  }

  /** The display half of a tick applies the periodic rule and the pixel
      shift: a power command is sent exactly when the display flips, the flip
      happens exactly when the phase has lasted its length, and the shift
      cursor advances exactly when the shift interval has passed. */
  lemma DisplayStepsEffects(cfg: DisplayConfig, start: Instant, now: Instant, app: AppState)
    ensures var r := DisplaySteps(cfg, start, now, app);
            && (PowerOff in r.1 <==> app.isDisplayPeriodicallyOn && !r.0.isDisplayPeriodicallyOn)
            && (PowerOn in r.1 <==> !app.isDisplayPeriodicallyOn && r.0.isDisplayPeriodicallyOn)
            && (r.0.isDisplayPeriodicallyOn != app.isDisplayPeriodicallyOn <==>
                  cfg.enablePeriodicOff &&
                  DurationSince(now, app.lastPeriodicToggleTime) >= PhaseLength(app, cfg.periodicOn, cfg.periodicOff))
            && r.0.lastPeriodicToggleTime ==
                 (if r.0.isDisplayPeriodicallyOn != app.isDisplayPeriodicallyOn then now
                  else app.lastPeriodicToggleTime)
            && (cfg.enablePeriodicOff ==> WithinPhase(r.0, now, cfg.periodicOn, cfg.periodicOff))
            && (DurationSince(now, app.lastShiftTime) >= ShiftInterval ==>
                  r.0.shiftIndex == (app.shiftIndex + 1) % |ShiftPattern| && r.0.lastShiftTime == now)
            && (DurationSince(now, app.lastShiftTime) < ShiftInterval ==>
                  && r.0.shiftIndex == app.shiftIndex
                  && r.0.shiftOffset == app.shiftOffset
                  && r.0.lastShiftTime == app.lastShiftTime)
  {
    var dim := HandleScreenTimeout(start, now, cfg.screenTimeout, app);
    var periodic := HandlePeriodicDisplay(
      cfg.enablePeriodicOff, now, cfg.periodicOn, cfg.periodicOff, dim.0);
    assert PowerOff !in dim.1 && PowerOn !in dim.1;
    assert PhaseLength(dim.0, cfg.periodicOn, cfg.periodicOff) == PhaseLength(app, cfg.periodicOn, cfg.periodicOff);
  }

  /** The fan commands among `cmds`, in order. */
  function FanWrites(cmds: seq<Command>): (w: seq<Command>)
    ensures forall c | c in w :: c.FanOn? || c.FanOff?
    ensures |w| <= |cmds|
  {
    if |cmds| == 0 then []
    else
      var c := cmds[|cmds| - 1];
      FanWrites(cmds[..|cmds| - 1]) + (if c.FanOn? || c.FanOff? then [c] else [])
  }

  lemma {:induction false} FanWritesAppend(a: seq<Command>, b: seq<Command>)
    ensures FanWrites(a + b) == FanWrites(a) + FanWrites(b)
  {
    if |b| == 0 {
      assert a + b == a;
    } else {
      var b' := b[..|b| - 1];
      assert (a + b)[..|a + b| - 1] == a + b';
      assert (a + b)[|a + b| - 1] == b[|b| - 1];
      FanWritesAppend(a, b');
    }
  }

  /** A tick sends a fan write exactly when the fan switches, and the fan
      writes among its commands are the hysteresis step's writes. */
  lemma PlanTickFanWrites(cfg: DisplayConfig, s: LoopState, now: Instant, stats: Stats)
    ensures var r := PlanTick(cfg, s, now, stats);
            && (FanOn in r.1 <==> !s.fan.isRunning && r.0.fan.isRunning)
            && (FanOff in r.1 <==> s.fan.isRunning && !r.0.fan.isRunning)
            && FanWrites(r.1) == HandleFanControl(s.fan, stats.cpuTemp).1
  {
    var r := PlanTick(cfg, s, now, stats);
    var display := DisplaySteps(cfg, s.startTime, now, s.app);
    var fan := HandleFanControl(s.fan, stats.cpuTemp);
    var render := RenderStep(display.0, stats);
    DisplayStepsInStageOrder(cfg, s.startTime, now, s.app);
    assert r.1 == display.1 + fan.1 + render;
    assert FanOn !in display.1 && FanOff !in display.1;
    assert FanOn !in render && FanOff !in render;
    assert FanWrites(display.1) == [] by {
      FanWritesNone(display.1);
    }
    assert FanWrites(render) == [] by {
      FanWritesNone(render);
    }
    assert FanWrites(fan.1) == fan.1 by {
      if |fan.1| > 0 {
        assert fan.1[..0] == [];
      }
    }
    FanWritesAppend(display.1, fan.1);
    FanWritesAppend(display.1 + fan.1, render);
  }

  lemma {:induction false} FanWritesNone(cmds: seq<Command>)
    requires FanOn !in cmds && FanOff !in cmds
    ensures FanWrites(cmds) == []
  {
    if |cmds| > 0 {
      FanWritesNone(cmds[..|cmds| - 1]);
    }
  }

  /** A tick sends a power command exactly when the display flips, flips
      exactly when the current phase has lasted its length, and moves the
      shift cursor exactly when the shift interval has passed. */
  lemma PlanTickDisplayEffects(cfg: DisplayConfig, s: LoopState, now: Instant, stats: Stats)
    ensures var r := PlanTick(cfg, s, now, stats);
            && (PowerOff in r.1 <==> s.app.isDisplayPeriodicallyOn && !r.0.app.isDisplayPeriodicallyOn)
            && (PowerOn in r.1 <==> !s.app.isDisplayPeriodicallyOn && r.0.app.isDisplayPeriodicallyOn)
            && (r.0.app.isDisplayPeriodicallyOn != s.app.isDisplayPeriodicallyOn <==>
                  cfg.enablePeriodicOff &&
                  DurationSince(now, s.app.lastPeriodicToggleTime) >= PhaseLength(s.app, cfg.periodicOn, cfg.periodicOff))
            && r.0.app.lastPeriodicToggleTime ==
                 (if r.0.app.isDisplayPeriodicallyOn != s.app.isDisplayPeriodicallyOn then now
                  else s.app.lastPeriodicToggleTime)
            && (cfg.enablePeriodicOff ==> WithinPhase(r.0.app, now, cfg.periodicOn, cfg.periodicOff))
            && (DurationSince(now, s.app.lastShiftTime) >= ShiftInterval ==>
                  r.0.app.shiftIndex == (s.app.shiftIndex + 1) % |ShiftPattern| && r.0.app.lastShiftTime == now)
            && (DurationSince(now, s.app.lastShiftTime) < ShiftInterval ==>
                  && r.0.app.shiftIndex == s.app.shiftIndex
                  && r.0.app.shiftOffset == s.app.shiftOffset
                  && r.0.app.lastShiftTime == s.app.lastShiftTime)
  {
    var r := PlanTick(cfg, s, now, stats);
    var display := DisplaySteps(cfg, s.startTime, now, s.app);
    var rest := HandleFanControl(s.fan, stats.cpuTemp).1 + RenderStep(display.0, stats);
    DisplayStepsEffects(cfg, s.startTime, now, s.app);
    assert r.1 == display.1 + rest && r.0.app == display.0;
    assert PowerOn !in rest && PowerOff !in rest;
  }

  /** With periodic off disabled, a tick keeps the display in its state and
      sends no power command. */
  lemma PlanTickWithoutPeriodicOff(cfg: DisplayConfig, s: LoopState, now: Instant, stats: Stats)
    requires !cfg.enablePeriodicOff
    ensures var r := PlanTick(cfg, s, now, stats);
            && r.0.app.isDisplayPeriodicallyOn == s.app.isDisplayPeriodicallyOn
            && PowerOn !in r.1 && PowerOff !in r.1
  {
    var dim := HandleScreenTimeout(s.startTime, now, cfg.screenTimeout, s.app);
    var display := DisplaySteps(cfg, s.startTime, now, s.app);
    var fan := HandleFanControl(s.fan, stats.cpuTemp);
    var render := RenderStep(display.0, stats);
    assert display.1 == dim.1;
    assert PowerOn !in dim.1 && PowerOn !in fan.1 && PowerOn !in render;
    assert PowerOff !in dim.1 && PowerOff !in fan.1 && PowerOff !in render;
  }

  /** One iteration of the loop: the planned commands are sent in order and
      the first one the hardware rejects ends the process. */
  function Tick(cfg: DisplayConfig, s: LoopState, input: TickInput): (r: Outcome)
    ensures r.Running? <==>
              forall c | c in PlanTick(cfg, s, input.now, input.stats).1 :: input.accepts(c)
    ensures r.Running? ==> (r.state, r.log) == PlanTick(cfg, s, input.now, input.stats)
    ensures r.Halted? ==>
              && !input.accepts(r.failed)
              && (forall c | c in r.log :: input.accepts(c))
              && r.log + [r.failed] <= PlanTick(cfg, s, input.now, input.stats).1
  {
    var plan := PlanTick(cfg, s, input.now, input.stats);
    match Deliver(plan.1, input.accepts)
    case Delivered => Running(plan.0, plan.1)
    case FailedAt(sent, failed) =>
      assert sent + [failed] == plan.1[..|sent| + 1];
      Halted(sent, failed)
  }

  /** The loop run over a finite sequence of ticks, stopping at the first failure. */
  function Run(cfg: DisplayConfig, s0: LoopState, inputs: seq<TickInput>): (r: Outcome)
    ensures r.Running? ==>
              && r.state.startTime == s0.startTime
              && r.state.fan.tempOn == s0.fan.tempOn
              && r.state.fan.tempOff == s0.fan.tempOff
  {
    if |inputs| == 0 then Running(s0, [])
    else
      match Run(cfg, s0, inputs[..|inputs| - 1])
      case Halted(log, failed) => Halted(log, failed)
      case Running(s, log) =>
        match Tick(cfg, s, inputs[|inputs| - 1])
        case Running(s', sent) => Running(s', log + sent)
        case Halted(sent, failed) => Halted(log + sent, failed)
  }

  /** The temperature samples a run feeds to the fan rule. */
  function Temps(inputs: seq<TickInput>): (ts: seq<int>)
    ensures |ts| == |inputs|
    ensures forall i :: 0 <= i < |inputs| ==> ts[i] == inputs[i].stats.cpuTemp
  {
    seq(|inputs|, i requires 0 <= i < |inputs| => inputs[i].stats.cpuTemp)
  }

  /** The clock never goes backwards across the ticks of a run. */
  predicate Monotone(inputs: seq<TickInput>)
  {
    forall i, j :: 0 <= i <= j < |inputs| ==> inputs[i].now <= inputs[j].now
  }

  /** The pixel-shift invariant holds at every tick of a completed run. */
  lemma {:induction false} RunKeepsShiftInvariant(cfg: DisplayConfig, s0: LoopState, inputs: seq<TickInput>)
    requires ShiftInvariant(s0.app, ShiftPattern)
    requires Run(cfg, s0, inputs).Running?
    ensures ShiftInvariant(Run(cfg, s0, inputs).state.app, ShiftPattern)
  {
    if |inputs| > 0 {
      RunKeepsShiftInvariant(cfg, s0, inputs[..|inputs| - 1]);
    }
  }

  /** Some tick of `inputs` finds the dim timeout due. */
  predicate DimDueAtSomeTick(start: Instant, timeout: Duration, inputs: seq<TickInput>)
  {
    exists i :: 0 <= i < |inputs| && DimDue(start, inputs[i].now, timeout)
  }

  lemma DimDueAtSomeTickSnoc(start: Instant, timeout: Duration, inputs: seq<TickInput>)
    requires |inputs| > 0
    ensures DimDueAtSomeTick(start, timeout, inputs) <==>
              DimDueAtSomeTick(start, timeout, inputs[..|inputs| - 1]) ||
              DimDue(start, inputs[|inputs| - 1].now, timeout)
  {
    var prefix := inputs[..|inputs| - 1];
    if DimDueAtSomeTick(start, timeout, inputs) {
      var i :| 0 <= i < |inputs| && DimDue(start, inputs[i].now, timeout);
      if i < |prefix| {
        assert prefix[i] == inputs[i];
      }
    }
    if DimDueAtSomeTick(start, timeout, prefix) {
      var i :| 0 <= i < |prefix| && DimDue(start, prefix[i].now, timeout);
      assert inputs[i] == prefix[i];
    }
  }

  /** The dim latch over a completed run from an undimmed state: the screen
      ends dimmed exactly when some tick found the timeout due, and the
      brightness command was sent exactly once in that case, never otherwise. */
  lemma {:induction false} RunDimsAtMostOnce(cfg: DisplayConfig, s0: LoopState, inputs: seq<TickInput>)
    requires !s0.app.screenDimmed
    requires Run(cfg, s0, inputs).Running?
    ensures Run(cfg, s0, inputs).state.app.screenDimmed <==>
              DimDueAtSomeTick(s0.startTime, cfg.screenTimeout, inputs)
    ensures multiset(Run(cfg, s0, inputs).log)[SetBrightnessMin] ==
              if Run(cfg, s0, inputs).state.app.screenDimmed then 1 else 0
  {
    if |inputs| > 0 {
      var prefix := inputs[..|inputs| - 1];
      var last := inputs[|inputs| - 1];
      RunDimsAtMostOnce(cfg, s0, prefix);
      var prev := Run(cfg, s0, prefix);
      var plan := PlanTick(cfg, prev.state, last.now, last.stats);
      PlanTickDimLatch(cfg, prev.state, last.now, last.stats);
      assert Tick(cfg, prev.state, last) == Running(plan.0, plan.1);
      assert Run(cfg, s0, inputs) == Running(plan.0, prev.log + plan.1);
      assert multiset(prev.log + plan.1) == multiset(prev.log) + multiset(plan.1);
      DimDueAtSomeTickSnoc(s0.startTime, cfg.screenTimeout, inputs);
    }
  }

  /** On a clock that never goes backwards, the screen ends a run dimmed
      exactly when the dim timeout is due at the last tick. */
  lemma RunDimmedIffDueAtLastTick(cfg: DisplayConfig, s0: LoopState, inputs: seq<TickInput>)
    requires !s0.app.screenDimmed
    requires |inputs| > 0 && Monotone(inputs)
    requires Run(cfg, s0, inputs).Running?
    ensures Run(cfg, s0, inputs).state.app.screenDimmed <==>
              DimDue(s0.startTime, inputs[|inputs| - 1].now, cfg.screenTimeout)
  {
    RunDimsAtMostOnce(cfg, s0, inputs);
  }

  /** A timeout under one second disables dimming: no run ever dims the screen
      or sends the brightness command. */
  lemma RunWithoutTimeoutNeverDims(cfg: DisplayConfig, s0: LoopState, inputs: seq<TickInput>)
    requires cfg.screenTimeout < MillisPerSecond
    requires !s0.app.screenDimmed
    requires Run(cfg, s0, inputs).Running?
    ensures !Run(cfg, s0, inputs).state.app.screenDimmed
    ensures SetBrightnessMin !in Run(cfg, s0, inputs).log
  {
    RunDimsAtMostOnce(cfg, s0, inputs);
  }

  /** With periodic off disabled, the display stays in its state for the
      whole run and no power command is ever sent. */
  lemma {:induction false} RunWithoutPeriodicOff(cfg: DisplayConfig, s0: LoopState, inputs: seq<TickInput>)
    requires !cfg.enablePeriodicOff
    requires Run(cfg, s0, inputs).Running?
    ensures Run(cfg, s0, inputs).state.app.isDisplayPeriodicallyOn == s0.app.isDisplayPeriodicallyOn
    ensures PowerOn !in Run(cfg, s0, inputs).log && PowerOff !in Run(cfg, s0, inputs).log
  {
    if |inputs| > 0 {
      var prefix := inputs[..|inputs| - 1];
      var last := inputs[|inputs| - 1];
      RunWithoutPeriodicOff(cfg, s0, prefix);
      var prev := Run(cfg, s0, prefix);
      PlanTickWithoutPeriodicOff(cfg, prev.state, last.now, last.stats);
    }
  }

  /** The clock reading of the last tick of `inputs`, or `t0` before any tick. */
  function LastNow(t0: Instant, inputs: seq<TickInput>): Instant
  {
    if |inputs| == 0 then t0 else inputs[|inputs| - 1].now
  }

  /** With periodic off enabled, on a clock that starts at `t0` and never
      goes backwards, the display's phase after every completed run began no
      later than the last tick and has not outlasted its configured length. */
  lemma {:induction false} RunStaysWithinPhase(
    cfg: DisplayConfig, s0: LoopState, t0: Instant, inputs: seq<TickInput>)
    requires cfg.enablePeriodicOff
    requires s0.app.lastPeriodicToggleTime <= t0
    requires WithinPhase(s0.app, t0, cfg.periodicOn, cfg.periodicOff)
    requires |inputs| > 0 ==> t0 <= inputs[0].now
    requires Monotone(inputs)
    requires Run(cfg, s0, inputs).Running?
    ensures Run(cfg, s0, inputs).state.app.lastPeriodicToggleTime <= LastNow(t0, inputs)
    ensures WithinPhase(Run(cfg, s0, inputs).state.app, LastNow(t0, inputs), cfg.periodicOn, cfg.periodicOff)
  {
    if |inputs| > 0 {
      var prefix := inputs[..|inputs| - 1];
      var last := inputs[|inputs| - 1];
      assert Monotone(prefix) by {
        forall i, j | 0 <= i <= j < |prefix| ensures prefix[i].now <= prefix[j].now {
          assert prefix[i] == inputs[i] && prefix[j] == inputs[j];
        }
      }
      assert Run(cfg, s0, prefix).Running?;
      RunStaysWithinPhase(cfg, s0, t0, prefix);
      var prev := Run(cfg, s0, prefix);
      var plan := PlanTick(cfg, prev.state, last.now, last.stats);
      PlanTickDisplayEffects(cfg, prev.state, last.now, last.stats);
      assert Tick(cfg, prev.state, last) == Running(plan.0, plan.1);
      assert Run(cfg, s0, inputs).state == plan.0;
      assert LastNow(t0, prefix) <= last.now by {
        if |prefix| > 0 {
          assert prefix[|prefix| - 1] == inputs[|inputs| - 2];
        }
      }
    }
  }

  /** Phase bound for periodic off: at each tick of a run as in
      `RunStaysWithinPhase`, the display's current phase has lasted at most
      its configured length plus the gap since the previous tick, and the
      tick flips the display exactly when the phase has reached its length. */
  lemma RunPhaseBound(cfg: DisplayConfig, s0: LoopState, t0: Instant, inputs: seq<TickInput>)
    requires cfg.enablePeriodicOff
    requires s0.app.lastPeriodicToggleTime <= t0
    requires WithinPhase(s0.app, t0, cfg.periodicOn, cfg.periodicOff)
    requires |inputs| > 0 && t0 <= inputs[0].now
    requires Monotone(inputs)
    requires Run(cfg, s0, inputs).Running?
    ensures Run(cfg, s0, inputs[..|inputs| - 1]).Running?
    ensures var before := Run(cfg, s0, inputs[..|inputs| - 1]).state.app;
            var after := Run(cfg, s0, inputs).state.app;
            var previousNow := LastNow(t0, inputs[..|inputs| - 1]);
            var now := inputs[|inputs| - 1].now;
            && before.lastPeriodicToggleTime <= previousNow <= now
            && now - before.lastPeriodicToggleTime <=
                 PhaseLength(before, cfg.periodicOn, cfg.periodicOff) + (now - previousNow)
            && (after.isDisplayPeriodicallyOn != before.isDisplayPeriodicallyOn <==>
                  now - before.lastPeriodicToggleTime >= PhaseLength(before, cfg.periodicOn, cfg.periodicOff))
  {
    var prefix := inputs[..|inputs| - 1];
    var last := inputs[|inputs| - 1];
    assert Monotone(prefix) by {
      forall i, j | 0 <= i <= j < |prefix| ensures prefix[i].now <= prefix[j].now {
        assert prefix[i] == inputs[i] && prefix[j] == inputs[j];
      }
    }
    assert Run(cfg, s0, prefix).Running?;
    RunStaysWithinPhase(cfg, s0, t0, prefix);
    var prev := Run(cfg, s0, prefix);
    var plan := PlanTick(cfg, prev.state, last.now, last.stats);
    PlanTickDisplayEffects(cfg, prev.state, last.now, last.stats);
    assert Tick(cfg, prev.state, last) == Running(plan.0, plan.1);
    assert Run(cfg, s0, inputs).state == plan.0;
    assert LastNow(t0, prefix) <= last.now by {
      if |prefix| > 0 {
        assert prefix[|prefix| - 1] == inputs[|inputs| - 2];
      }
    }
  }

  /** The fan inside a completed run is the fan rule folded over the run's
      temperature samples: display timers and rendering do not affect it. */
  lemma {:induction false} RunFanIsFanRun(cfg: DisplayConfig, s0: LoopState, inputs: seq<TickInput>)
    requires Run(cfg, s0, inputs).Running?
    ensures Run(cfg, s0, inputs).state.fan == FanRun(s0.fan, Temps(inputs)).0
    ensures FanWrites(Run(cfg, s0, inputs).log) == FanRun(s0.fan, Temps(inputs)).1
  {
    if |inputs| > 0 {
      var prefix := inputs[..|inputs| - 1];
      var last := inputs[|inputs| - 1];
      RunFanIsFanRun(cfg, s0, prefix);
      var prev := Run(cfg, s0, prefix);
      var plan := PlanTick(cfg, prev.state, last.now, last.stats);
      PlanTickFanWrites(cfg, prev.state, last.now, last.stats);
      assert Tick(cfg, prev.state, last) == Running(plan.0, plan.1);
      assert Run(cfg, s0, inputs) == Running(plan.0, prev.log + plan.1);
      FanWritesAppend(prev.log, plan.1);
      assert Temps(inputs)[..|inputs| - 1] == Temps(prefix);
    }
  }

  /** Hysteresis over a run started as the monitor starts (fan off) with
      `tempOn > tempOff`: the fan ends running exactly when some sample
      reached `tempOn` and every later sample stayed above `tempOff`. */
  lemma RunFanFollowsHysteresis(cfg: DisplayConfig, s0: LoopState, inputs: seq<TickInput>)
    requires !s0.fan.isRunning
    requires s0.fan.tempOn > s0.fan.tempOff
    requires Run(cfg, s0, inputs).Running?
    ensures Run(cfg, s0, inputs).state.fan.isRunning <==>
              RunningAfter(s0.fan.tempOn, s0.fan.tempOff, Temps(inputs))
  {
    RunFanIsFanRun(cfg, s0, inputs);
    FanRunMatchesHysteresis(s0.fan, Temps(inputs));
  }

  /** A monitor that starts and then completes a run of ticks: the first
      write is the fan switch-off, the shift invariant holds throughout, the
      screen is dimmed exactly when some tick found the timeout due since
      startup, and with `tempOn > tempOff` the fan follows hysteresis over
      the run's samples. */
  lemma StartedRun(
    fc: FanController, t0: Instant, accepts: Command -> bool, cfg: DisplayConfig, inputs: seq<TickInput>)
    requires Startup(fc, t0, accepts).Running?
    requires Run(cfg, Startup(fc, t0, accepts).state, inputs).Running?
    ensures var started := Startup(fc, t0, accepts);
            var r := Run(cfg, started.state, inputs);
            && (started.log + r.log)[0] == FanOff
            && ShiftInvariant(r.state.app, ShiftPattern)
            && (r.state.app.screenDimmed <==> DimDueAtSomeTick(t0, cfg.screenTimeout, inputs))
            && multiset(r.log)[SetBrightnessMin] == (if r.state.app.screenDimmed then 1 else 0)
            && (fc.tempOn > fc.tempOff ==>
                  (r.state.fan.isRunning <==> RunningAfter(fc.tempOn, fc.tempOff, Temps(inputs))))
  {
    var started := Startup(fc, t0, accepts);
    RunKeepsShiftInvariant(cfg, started.state, inputs);
    RunDimsAtMostOnce(cfg, started.state, inputs);
    if fc.tempOn > fc.tempOff {
      RunFanFollowsHysteresis(cfg, started.state, inputs);
    }
  }
}
