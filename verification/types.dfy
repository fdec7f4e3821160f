/**
 Shared vocabulary of the monitor's control loop: the clock, durations, the
 render offset, one statistics snapshot, and the commands the loop sends to
 the display and the fan.
 */
module Types {

  /** A reading of the monotonic clock, in milliseconds since an arbitrary origin. */
  type Instant = nat

  /** A length of time, in milliseconds. */
  type Duration = nat

  const MillisPerSecond: nat := 1000

  /** `now.duration_since(earlier)`: the time from `earlier` to `now`,
      saturating to zero when `earlier` is the later of the two. */
  function DurationSince(now: Instant, earlier: Instant): (d: Duration)
    ensures earlier <= now ==> earlier + d == now
    ensures now <= earlier ==> d == 0
  {
    if earlier <= now then now - earlier else 0
  }

  /** `Duration::as_secs`: the whole seconds of a duration, rounded down. */
  function AsSecs(d: Duration): (s: nat)
    ensures s * MillisPerSecond <= d < (s + 1) * MillisPerSecond
  {
    d / MillisPerSecond
  }

  /** A pixel offset applied to everything the display draws. */
  datatype Point = Point(x: int, y: int)

  /** One sample of the machine's statistics, already formatted for the display.
      `cpuTemp` is the numeric temperature the fan rule compares; any fixed unit
      (for example millidegrees Celsius) works, since it is only compared. */
  datatype Stats = Stats(
    ipAddress: string,
    cpuUsage: string,
    cpuTemp: int,
    cpuTempStr: string,
    ramUsage: string,
    hostname: string)

  /** A hardware command issued by the loop. */
  datatype Command =
    | SetBrightnessMin
    | PowerOff
    | PowerOn
    | Render(stats: Stats, offset: Point)
    | FanOn
    | FanOff
}
