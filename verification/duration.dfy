/** `format_duration`: milliseconds to "Hh Mm" or "Mm Ss", and "Unknown" for 0. */
module Duration {
  import opened Decimal

  const MillisPerSecond: int := 1000
  const MillisPerMinute: int := 60 * MillisPerSecond
  const MillisPerHour: int := 60 * MillisPerMinute

  /** The two shapes a duration is shown in, and the sentinel for 0. */
  datatype Shown =
    | Unknown
    | HoursMinutes(hours: int, minutes: int)
    | MinutesSeconds(minutes: int, seconds: int)

  /** The unit conversion of `format_duration`. Python's `//` and `%` floor;
      with a positive divisor they agree with Dafny's `/` and `%`. */
  function Breakdown(ms: int): (d: Shown)
    ensures d.Unknown? <==> ms == 0
    ensures d.HoursMinutes? <==> ms >= MillisPerHour
    ensures d.HoursMinutes? ==> d.hours == ms / MillisPerHour && d.minutes == (ms / MillisPerMinute) % 60
    ensures d.MinutesSeconds? ==> d.minutes == ms / MillisPerMinute && d.seconds == (ms / MillisPerSecond) % 60
  {
    if ms == 0 then Unknown
    else
      var seconds := ms / 1000;
      var minutes := seconds / 60;
      var hours := minutes / 60;
      assert minutes == ms / MillisPerMinute;
      assert hours == ms / MillisPerHour;
      if hours > 0 then HoursMinutes(hours, minutes % 60)
      else MinutesSeconds(minutes, seconds % 60)
  }

  /** The text `format_duration` prints for a breakdown. */
  function Render(d: Shown): string {
    match d
    case Unknown => "Unknown"
    case HoursMinutes(h, m) => IntToString(h) + "h " + IntToString(m) + "m"
    case MinutesSeconds(m, s) => IntToString(m) + "m " + IntToString(s) + "s"
  }

  /** `format_duration(milliseconds)`. */
  function FormatDuration(ms: int): (r: string)
    ensures ms == 0 ==> r == "Unknown"
    ensures ms >= MillisPerHour ==>
      r == IntToString(ms / MillisPerHour) + "h " + IntToString((ms / MillisPerMinute) % 60) + "m"
    ensures ms != 0 && ms < MillisPerHour ==>
      r == IntToString(ms / MillisPerMinute) + "m " + IntToString((ms / MillisPerSecond) % 60) + "s"
  {
    Render(Breakdown(ms))
  }

  /** What a breakdown means: the hour shape shows `ms` cut down to whole
      minutes, the minute shape shows it cut down to whole seconds, and the
      smaller unit is always below 60. */
  lemma BreakdownBrackets(ms: int)
    requires ms != 0
    ensures match Breakdown(ms)
      case Unknown => false
      case HoursMinutes(h, m) =>
        && h >= 1 && 0 <= m < 60
        && h * MillisPerHour + m * MillisPerMinute <= ms < h * MillisPerHour + m * MillisPerMinute + MillisPerMinute
      case MinutesSeconds(m, s) =>
        && m < 60 && 0 <= s < 60
        && (ms > 0 ==> m >= 0)
        && m * MillisPerMinute + s * MillisPerSecond <= ms < m * MillisPerMinute + s * MillisPerSecond + MillisPerSecond
  {
  }

  /** The two examples: 0 is unknown and 3661000 ms (1 h 1 min 1 s) is "1h 1m". */
  lemma FormatDurationExamples()
    ensures FormatDuration(0) == "Unknown"
    ensures FormatDuration(3661000) == "1h 1m"
  {
    assert IntToString(1) == "1";
  }
}
