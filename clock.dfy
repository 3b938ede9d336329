/**
 * `parse_datetime` and `set_system_time`, which comm.c and filename.c both
 * define in the same way. The C library calls they rest on (`strptime`,
 * `mktime`, `clock_settime`) are oracles.
 */
module Clock {
  import opened Options
  import opened Bytes

  /** The broken-down time `struct tm` that strptime fills in. */
  datatype Tm = Tm(year: int, month: int, day: int, hour: int, minute: int, second: int)

  /**
   * What the C library answers: `strptime` with the format
   * "%Y-%m-%d %H:%M:%S" (None when it returns NULL), `mktime` (-1 when the
   * time cannot be represented) and whether `clock_settime` of the
   * real-time clock to a number of seconds succeeds.
   */
  datatype TimeOracle = TimeOracle(
    strptime: seq<byte> -> Option<Tm>,
    mktime: Tm -> int,
    clockSettime: int -> bool)

  /**
   * `parse_datetime` followed by `set_system_time`: the seconds the clock
   * was set to, or None when either returned -1. The clock is set only
   * when the text parses, mktime does not return -1 and clock_settime
   * succeeds, and then to exactly the seconds mktime computed.
   */
  function SetClockFrom(o: TimeOracle, text: seq<byte>): (r: Option<int>)
    ensures r.Some? <==>
      o.strptime(text).Some? && o.mktime(o.strptime(text).value) != -1
      && o.clockSettime(o.mktime(o.strptime(text).value))
    ensures r.Some? ==> r.value == o.mktime(o.strptime(text).value) && r.value != -1
  {
    match o.strptime(text)
    case None => None
    case Some(tm) =>
      var seconds := o.mktime(tm);
      if seconds == -1 then None
      else if !o.clockSettime(seconds) then None
      else Some(seconds)
  }
}
