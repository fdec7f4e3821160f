# RustBerry PoE monitor: control loop model

This project is a Dafny model of the control loop of the RustBerry PoE monitor. The monitor is a
daemon for a Raspberry Pi with a PoE add-on board. On every tick it runs four step rules in a
fixed order:

1. the **dim latch**: after a configured uptime, the display drops to minimum brightness once
   and stays there;
2. the **periodic on/off timer**: the display alternates between on and off phases of
   configured length;
3. the **anti-burn-in pixel shift**: once a minute, the render offset moves one entry along the
   pattern `(0,0), (1,0)`;
4. the **fan hysteresis rule**: the fan switches on at `temp_on` and off at `temp_off`.

After these steps the tick renders the latest statistics, but only while the display is
periodically on.

Every step is a pure function. It takes the state and returns the new state together with the
commands it issues: `SetBrightnessMin`, `PowerOff`, `PowerOn`, `FanOn`, `FanOff` and
`Render(stats, offset)`. A tick first plans its commands in step order (`PlanTick`). It then
hands them to the hardware (`Sink.Deliver`), which accepts or rejects each one. The first
rejected command ends the tick, and the process exits: this is the `?` after every hardware
call. The monitor's endless loop becomes a finite fold over a sequence of tick inputs (`Run`).
Each input holds a clock reading, a statistics snapshot and the hardware's responses.

Modules:

- `Types` (types.dfy) defines the clock, durations, points, snapshots and commands.
- `Sink` (sink.dfy) sends commands in order and stops at the first failure.
- `Fan` (fan.dfy) holds the hysteresis rule and its fold over samples. It also gives an
  independent reference definition of when the fan runs.
- `Display` (display.dfy) holds the three display timers and the application state.
- `ControlLoop` (control_loop.dfy) holds startup, the tick, the run, and the properties of
  ticks and runs.
- `Scenarios` (scenarios.dfy) holds concrete example runs of the loop.

Modelling choices:

- `Instant` and `Duration` are `nat` milliseconds.
- `Instant::duration_since` saturates to zero when the earlier instant is later (`DurationSince`).
- `Duration::as_secs` rounds down (`AsSecs`). So the dim guard `timeout.as_secs() > 0`
  disables dimming for any timeout under one second, not only for a zero timeout.
- Temperatures are `int` in any fixed unit, since the fan rule only compares them.
- `fan_on` and `fan_off` live in `fan_controller.rs`, which is not part of this model. They are
  assumed to issue their hardware write and set `is_running` to true or false.
  `handle_fan_control` and the startup `fan_off()` call depend on that behaviour.
- The thresholds are not checked against each other. The hysteresis characterisation therefore
  requires `temp_on > temp_off`. `Fan.InvertedThresholdsChatter` shows what happens otherwise:
  with `temp_on <= t <= temp_off`, the fan switches on every tick.

## Model

| member | source | states |
|---|---|---|
| `Sink.Deliver` | src/main.rs:111-145 | Commands are sent in order. Either all are accepted, or the result is the accepted prefix plus the first rejected command, and nothing after that is sent. |
| `Fan.HandleFanControl` | src/main.rs:247-253 | `FanOff` is sent iff the fan runs and temp <= temp_off. `FanOn` is sent iff it is stopped and temp >= temp_on. Otherwise there is no command and no state change. The run state changes exactly when a command is sent, and the thresholds never change. |
| `Fan.FanRunMatchesHysteresis` | src/main.rs:247-253 | Start with the fan stopped and temp_on > temp_off, and fold the rule over any samples. The fan ends running iff some sample reached temp_on and every later sample stayed above temp_off. |
| `Fan.FanStaysOnAboveOff` | src/main.rs:247-250 | No chatter: a running fan stays on with no write while every sample is above temp_off, however it moves below temp_on. |
| `Fan.FanStaysOffBelowOn` | src/main.rs:251-253 | A stopped fan stays off with no write while every sample is below temp_on. |
| `Fan.InvertedThresholdsChatter` | src/main.rs:247-253 | With unchecked thresholds temp_on <= t <= temp_off, n ticks at t send n writes, alternating FanOn and FanOff. |
| `Display.InitialAppState` | src/main.rs:97-104 | The shift and toggle timers both start at the start instant. The shift cursor is at index 0, and offset (0,0) is pattern entry 0, so the pixel-shift invariant holds. The display starts on and not dimmed. |
| `Display.HandleScreenTimeout` | src/main.rs:158-165 | Only `screen_dimmed` can change, and it is never reset. From undimmed it becomes set iff `as_secs() > 0` and the elapsed time is at least the timeout. `SetBrightnessMin` is sent exactly on that transition. A sub-second timeout changes nothing. |
| `Display.HandlePeriodicDisplay` | src/main.rs:177-195 | Only the on flag and the toggle time can change. The display flips iff the feature is enabled and its current phase has lasted its configured length. A flip sends one matching power command and stamps `now`; otherwise nothing changes. When enabled, the new phase has not overrun. |
| `Display.UpdatePixelShift` | src/main.rs:205-208 | Once the interval has passed, the index advances by one modulo the pattern length and the shift time is stamped. Otherwise the state is unchanged. The invariant `index < len && offset == pattern[index]` is preserved, and the dim and periodic fields are never touched. |
| `Display.ShiftAlternates` | src/main.rs:205-207 | With the two-entry pattern, each shift changes the offset, and two shifts restore the original index and offset. |
| `ControlLoop.Startup` | src/main.rs:88-106 | The fan is switched off before the loop starts. If that write fails, the loop never starts. Otherwise the fan is stopped and the thresholds are kept. The start time and both display timers are the start instant, and the shift cursor is at index 0. The display is on and undimmed, and the shift invariant holds. |
| `ControlLoop.RenderStep` | src/main.rs:134-145 | A render is issued iff the display is periodically on, and it carries the snapshot and the current shift offset. |
| `ControlLoop.PlanTick` | src/main.rs:108-145 | A tick keeps the start time. Its fan state is the hysteresis step on this tick's temperature. It preserves the pixel-shift invariant. |
| `ControlLoop.DisplayStepsEffects` | src/main.rs:111-128 | The display half of a tick sends a power command iff the display flips. It flips iff periodic off is enabled and the phase has lasted its length, and a flip stamps the toggle time. When enabled, the new phase has not overrun. The shift cursor advances and the shift time is stamped iff the shift interval has passed; otherwise the shift fields are unchanged. |
| `ControlLoop.PlanTickFanWrites` | src/main.rs:130-132 | A tick sends `FanOn` iff the fan goes from stopped to running. It sends `FanOff` iff the fan goes from running to stopped. Its fan writes are exactly the hysteresis step's writes. |
| `ControlLoop.PlanTickDisplayEffects` | src/main.rs:119-128 | A tick sends `PowerOff` iff the display goes from on to off, and `PowerOn` iff it goes from off to on. It flips iff periodic off is enabled and the phase has lasted its length, and then stamps the toggle time. With periodic off enabled, the new phase has not overrun. Once the shift interval has passed, the cursor moves one entry (mod 2) and the shift time is `now`. Before that, the index, offset and shift time are unchanged. |
| `ControlLoop.DisplayStepsInStageOrder` | src/main.rs:111-126 | The display half of a tick sends at most a brightness command, then a power command. |
| `ControlLoop.PlanTickInStageOrder` | src/main.rs:109-145 | A tick sends at most one command per step, in the order dim, periodic, fan, render. |
| `ControlLoop.PlanTickRendersOnlyWhenOn` | src/main.rs:128-145 | A tick renders iff the display is on after the periodic step. The render carries the tick's snapshot and the offset left by the shift step. |
| `ControlLoop.PlanTickDimLatch` | src/main.rs:111-117 | After a tick, the screen is dimmed iff it was already dimmed or the timeout is due. The tick sends one `SetBrightnessMin` exactly when it sets the latch, and none otherwise. |
| `ControlLoop.PlanTickWithoutPeriodicOff` | src/main.rs:119-126 | With periodic off disabled, a tick keeps the on flag and sends no power command. |
| `ControlLoop.Tick` | src/main.rs:108-145 | A tick completes iff the hardware accepts every planned command, and then it yields the planned state and commands. Otherwise it halts on a rejected command. Everything sent before the rejected command was accepted, and those commands followed by the rejected one form a prefix of the plan. |
| `ControlLoop.Run` | src/main.rs:108-148 | Over a completed run, the start time and the fan thresholds never change. |
| `ControlLoop.RunKeepsShiftInvariant` | src/main.rs:128 | The pixel-shift invariant holds after every completed run that starts in it. |
| `ControlLoop.RunDimsAtMostOnce` | src/main.rs:158-165 | Consider a completed run from an undimmed state. The screen ends dimmed iff some tick found the timeout due. The log then holds exactly one `SetBrightnessMin`, and otherwise none. |
| `ControlLoop.RunDimmedIffDueAtLastTick` | src/main.rs:158-159 | On a clock that never goes backwards, the screen ends a run dimmed iff the timeout is due at the last tick. |
| `ControlLoop.RunWithoutTimeoutNeverDims` | src/main.rs:159 | With a timeout under one second, no run dims the screen or sends `SetBrightnessMin`. |
| `ControlLoop.RunWithoutPeriodicOff` | src/main.rs:177-195 | With periodic off disabled, the on flag never changes over a run and no power command is ever sent. |
| `ControlLoop.RunFanIsFanRun` | src/main.rs:130-132 | The fan inside a run is the hysteresis rule folded over the run's temperature samples. The `FanOn`/`FanOff` commands in the run's log are exactly the writes of that fold, in order. The display timers do not affect either. |
| `ControlLoop.RunStaysWithinPhase` | src/main.rs:177-195 | With periodic off enabled, on a clock that never goes backwards, the phase after every completed run began no later than the last tick and has not outlasted its configured length. |
| `ControlLoop.RunPhaseBound` | src/main.rs:180-194 | In such a run, at each tick the current phase has lasted at most its configured length plus the gap since the previous tick. The tick flips the display iff the phase has reached its length. |
| `ControlLoop.RunFanFollowsHysteresis` | src/main.rs:247-253 | Start a run with the fan stopped, as startup leaves it, and temp_on > temp_off. The fan ends running iff some sample reached temp_on and every later sample stayed above temp_off. |
| `ControlLoop.StartedRun` | src/main.rs:88-148 | After startup and a completed run, the first write was the fan switch-off and the shift invariant holds. The screen is dimmed iff some tick found the timeout due since startup, and then exactly one `SetBrightnessMin` was sent. With temp_on > temp_off, the fan follows hysteresis over the run's samples. |
| `Scenarios.FanScenario` | src/main.rs:247-253 | With thresholds 70/60, the samples 50,65,72,68,61,59 give off,off,on,on,on,off and the writes FanOn, FanOff. |
| `Scenarios.DimScenario` | src/main.rs:158-165 | With a 300 s timeout: bright at 295 s, dimmed with one command at 300 s, no command at 305 s. |
| `Scenarios.PeriodicScenario` | src/main.rs:180-194 | With on=600 s and off=60 s: `PowerOff` at 600 s, `PowerOn` at 660 s, and nothing at 599 s or 659 s. |
| `Scenarios.BusyTickScenario` | src/main.rs:111-145 | In a tick where every rule fires, the commands are exactly brightness, power-off, fan-on in that order, with no render. |
| `Scenarios.FailedTickScenario` | src/main.rs:111-126 | If the power-off is rejected in that tick, only the brightness command has been sent, and the fan is never commanded. |

## Left out

- `gather_stats`, `get_ip_address`, `get_hostname`, `get_cpu_temperature` and `get_ram_usage`
  are left out. They are shell commands, a sysfs read, `sysinfo` calls and float formatting. Each
  tick's statistics snapshot is an input instead.
- `Config::load`, the `config`, `display` and `display_types` modules, `PoeDisplay` and the
  internals of `FanController` are not part of this model. The display and the fan are command
  sinks whose accept/reject answers are inputs. `FanController::new` is taken as given: its
  result is a parameter of `Startup`.
- The infinite `loop`, `thread::sleep(refresh_interval)` and the logging macros are left out. A
  run is a finite sequence of ticks.
- The clock is reduced to millisecond `nat`s. `Instant` resolution below a millisecond is not
  modelled.
- The three `Instant::now()` readings at startup (shift timer, toggle timer, start time) are
  taken as one instant.
- Temperatures are integers. The f32 comparisons with a NaN sample, which would leave the fan
  unchanged, are not modelled.
- The state after a failed command is not modelled. The process exits, so a halted tick returns
  only what was sent and the failing command.
- `ControlLoop.Run`: its own contract only states what stays fixed. What runs do is stated by
  the `Run…` lemmas listed above.
