/**
 The two-threshold hysteresis rule that drives the cooling fan.
 */
module Fan {
  import opened Types

  /** The fan controller's thresholds and its commanded run state. */
  datatype FanController = FanController(tempOn: int, tempOff: int, isRunning: bool)

  /** `fan_on`: the controller module is not part of this model; it is assumed
      to issue the switch-on write and record that the fan now runs. */
  function SwitchOn(fc: FanController): (r: (FanController, seq<Command>))
  {
    (fc.(isRunning := true), [FanOn])
  }

  /** `fan_off`: assumed, like `fan_on`, to issue the write and record the new state. */
  function SwitchOff(fc: FanController): (r: (FanController, seq<Command>))
  {
    (fc.(isRunning := false), [FanOff])
  }

  /** `handle_fan_control`: one hysteresis step on a temperature sample. */
  function HandleFanControl(fc: FanController, cpuTemp: int): (r: (FanController, seq<Command>))
    ensures r.0.tempOn == fc.tempOn && r.0.tempOff == fc.tempOff
    ensures r.1 == [FanOff] <==> fc.isRunning && cpuTemp <= fc.tempOff
    ensures r.1 == [FanOn] <==> !fc.isRunning && cpuTemp >= fc.tempOn
    ensures r.1 == [] || r.1 == [FanOn] || r.1 == [FanOff]
    ensures r.1 == [] <==> r.0.isRunning == fc.isRunning
    ensures r.1 != [] ==> r.0.isRunning == (r.1 == [FanOn])
  {
    if fc.isRunning then
      if cpuTemp <= fc.tempOff then SwitchOff(fc) else (fc, [])
    else if cpuTemp >= fc.tempOn then SwitchOn(fc)
    else (fc, [])
  }

  /** The controller after one step per sample of `temps`, with every write it issued. */
  function FanRun(fc: FanController, temps: seq<int>): (r: (FanController, seq<Command>))
    ensures r.0.tempOn == fc.tempOn && r.0.tempOff == fc.tempOff
    ensures |r.1| <= |temps|
  {
    if |temps| == 0 then (fc, [])
    else
      var prev := FanRun(fc, temps[..|temps| - 1]);
      var next := HandleFanControl(prev.0, temps[|temps| - 1]);
      (next.0, prev.1 + next.1)
  }

  /** Reference definition of hysteresis: starting from a stopped fan, the fan
      runs after `temps` exactly when some sample reached `tempOn` and every
      later sample stayed strictly above `tempOff`. */
  predicate RunningAfter(tempOn: int, tempOff: int, temps: seq<int>)
  {
    exists i :: 0 <= i < |temps| && temps[i] >= tempOn &&
      forall j :: i < j < |temps| ==> temps[j] > tempOff
  }

  /** How the reference definition extends by one sample. */
  lemma RunningAfterSnoc(tempOn: int, tempOff: int, p: seq<int>, t: int)
    ensures RunningAfter(tempOn, tempOff, p + [t]) <==>
              t >= tempOn || (RunningAfter(tempOn, tempOff, p) && t > tempOff)
  {
    var q := p + [t];
    if t >= tempOn {
      assert q[|p|] >= tempOn;
    }
    if RunningAfter(tempOn, tempOff, p) && t > tempOff {
      var i :| 0 <= i < |p| && p[i] >= tempOn && forall j :: i < j < |p| ==> p[j] > tempOff;
      assert q[i] >= tempOn;
      assert forall j :: i < j < |q| ==> q[j] > tempOff by {
        forall j | i < j < |q| ensures q[j] > tempOff {
          if j < |p| { assert q[j] == p[j]; }
        }
      }
    }
    if RunningAfter(tempOn, tempOff, q) && t < tempOn {
      var i :| 0 <= i < |q| && q[i] >= tempOn && forall j :: i < j < |q| ==> q[j] > tempOff;
      assert i < |p|;
      assert q[|p|] > tempOff;
      assert p[i] >= tempOn;
      assert forall j :: i < j < |p| ==> p[j] > tempOff by {
        forall j | i < j < |p| ensures p[j] > tempOff {
          assert p[j] == q[j];
        }
      }
    }
  }

  /** With `tempOn > tempOff`, the fan folded over any temperature sequence
      from a stopped start runs exactly when the reference definition says so. */
  lemma {:induction false} FanRunMatchesHysteresis(fc: FanController, temps: seq<int>)
    requires !fc.isRunning
    requires fc.tempOn > fc.tempOff
    ensures FanRun(fc, temps).0.isRunning <==> RunningAfter(fc.tempOn, fc.tempOff, temps)
  {
    if |temps| > 0 {
      var p := temps[..|temps| - 1];
      var t := temps[|temps| - 1];
      assert temps == p + [t];
      FanRunMatchesHysteresis(fc, p);
      RunningAfterSnoc(fc.tempOn, fc.tempOff, p, t);
    }
  }

  /** No chatter: a running fan stays on, and issues no write, while every
      sample stays above `tempOff`, however much it moves below `tempOn`. */
  lemma {:induction false} FanStaysOnAboveOff(fc: FanController, temps: seq<int>)
    requires fc.isRunning
    requires forall j :: 0 <= j < |temps| ==> temps[j] > fc.tempOff
    ensures FanRun(fc, temps) == (fc, [])
  {
    if |temps| > 0 {
      FanStaysOnAboveOff(fc, temps[..|temps| - 1]);
    }
  }

  /** Symmetrically, a stopped fan stays off, and issues no write, while every
      sample stays below `tempOn`. */
  lemma {:induction false} FanStaysOffBelowOn(fc: FanController, temps: seq<int>)
    requires !fc.isRunning
    requires forall j :: 0 <= j < |temps| ==> temps[j] < fc.tempOn
    ensures FanRun(fc, temps) == (fc, [])
  {
    if |temps| > 0 {
      FanStaysOffBelowOn(fc, temps[..|temps| - 1]);
    }
  }

  /** Thresholds are not checked against each other. When `tempOn <= tempOff`,
      a temperature held between them switches the fan on and off on
      alternate samples: one write on every tick. */
  lemma {:induction false} InvertedThresholdsChatter(fc: FanController, t: int, n: nat)
    requires !fc.isRunning
    requires fc.tempOn <= t <= fc.tempOff
    ensures |FanRun(fc, seq(n, _ => t)).1| == n
    ensures forall k :: 0 <= k < n ==>
              FanRun(fc, seq(n, _ => t)).1[k] == (if k % 2 == 0 then FanOn else FanOff)
    ensures FanRun(fc, seq(n, _ => t)).0.isRunning <==> n % 2 == 1
  {
    if n > 0 {
      var temps := seq(n, _ => t);
      var p := seq(n - 1, _ => t);
      assert temps[..n - 1] == p;
      InvertedThresholdsChatter(fc, t, n - 1);
      var prev := FanRun(fc, p);
      var next := HandleFanControl(prev.0, t);
      assert FanRun(fc, temps) == (next.0, prev.1 + next.1);
      assert next.1 == (if (n - 1) % 2 == 0 then [FanOn] else [FanOff]);
    }
  }
}
