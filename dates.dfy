/** JavaScript `Date` values as integer millisecond time values. Parsing and
    locale formatting are parameters of the model (a `Clock`); the local time
    zone is a fixed offset from UTC. */
module Dates {
  import opened Wrappers

  const MsPerDay: int := 86_400_000

  /** A JavaScript `Date` object: its time value in milliseconds since the
      epoch, or `None` for an invalid date (time value `NaN`). */
  datatype JsDate = JsDate(time: Option<int>)

  /** What the host provides: `new Date(text)` as `parse` (`None` when the
      time value is `NaN`), `toLocaleString` and `toISOString` on a valid time
      value, and the local time zone as `offset` milliseconds ahead of UTC. */
  datatype Clock = Clock(
    parse: string -> Option<int>,
    toLocale: int -> string,
    toIso: int -> string,
    offset: int)

  /** `Date.prototype.toLocaleString`: an invalid date renders as
      "Invalid Date". */
  function LocaleString(d: JsDate, clock: Clock): string {
    match d.time
    case None => "Invalid Date"
    case Some(t) => clock.toLocale(t)
  }

  /** The local calendar day, counted from the epoch, that holds `t`. */
  function LocalDay(t: int, offset: int): int {
    (t + offset) / MsPerDay
  }

  /** `setHours(23, 59, 59, 999)`: the last millisecond of the local day of `t`. */
  function EndOfDay(t: int, offset: int): (e: int)
    ensures LocalDay(e, offset) == LocalDay(t, offset)
    ensures t <= e
  {
    var day := LocalDay(t, offset);
    var e := day * MsPerDay + MsPerDay - 1 - offset;
    assert (e + offset) / MsPerDay == day by {
      assert e + offset == day * MsPerDay + (MsPerDay - 1);
    }
    e
  }

  /** An instant is at or before the end of the day of `t` exactly when its
      local day is not later than that day: the whole day counts. */
  lemma EndOfDayBound(t: int, u: int, offset: int)
    ensures u <= EndOfDay(t, offset) <==> LocalDay(u, offset) <= LocalDay(t, offset)
  {
    var d := LocalDay(t, offset);
    var x := u + offset;
    assert x == (x / MsPerDay) * MsPerDay + x % MsPerDay;
    assert 0 <= x % MsPerDay < MsPerDay;
    if x / MsPerDay <= d {
      assert (x / MsPerDay) * MsPerDay <= d * MsPerDay;
    } else {
      assert (x / MsPerDay) * MsPerDay >= (d + 1) * MsPerDay;
    }
  }
}
