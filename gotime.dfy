/** The part of Go's time package the civil types rely on, restricted to the
    UTC location: an instant is whole seconds since the Unix epoch (no leap
    seconds, so every day has 86400 of them) plus nanoseconds, time.Date
    normalises its fields, and t.Date(), t.Clock(), t.AddDate(), t.Unix(),
    t.IsZero() and t.Before() read or move an instant. */
module GoTime {

  import Arith
  import Calendar

  const SecondsPerDay := 86400
  const NanosPerSecond := 1_000_000_000

  /** Day number of 1970-01-01, the Unix epoch. */
  const UnixEpochDay := 719162

  /** An instant: `unix` seconds since 1970-01-01 00:00:00 UTC and `nsec`
      nanoseconds into that second. */
  datatype Instant = Instant(unix: int, nsec: int)

  /** The nanoseconds lie within their second, as for every instant Go builds. */
  predicate Normal(t: Instant) {
    0 <= t.nsec < NanosPerSecond
  }

  /** The zero value of time.Time: 0001-01-01 00:00:00 UTC. */
  const ZeroInstant := Instant(-UnixEpochDay * SecondsPerDay, 0)

  /** t.IsZero() */
  predicate IsZero(t: Instant) {
    t == ZeroInstant
  }

  /** time.Date(year, month, day, hour, min, sec, nsec, time.UTC). Every field
      may lie outside its range: each carries into the next larger one by floor
      division, so the instant is the plain weighted sum of the fields. */
  function DateUTC(year: int, month: int, day: int, hour: int, min: int, sec: int, nsec: int): Instant {
    var days := Calendar.DayNumber(year, month, day) - UnixEpochDay;
    Instant(days * SecondsPerDay + hour * 3600 + min * 60 + sec + nsec / NanosPerSecond,
            nsec % NanosPerSecond)
  }

  /** t.Date(): the civil date of the day the instant falls in. */
  function CivilOf(t: Instant): Calendar.Civil {
    Calendar.CivilFromDays(t.unix / SecondsPerDay + UnixEpochDay)
  }

  datatype ClockTime = ClockTime(hour: int, minute: int, second: int)

  /** t.Clock(): hour, minute and second within the day. */
  function Clock(t: Instant): (c: ClockTime)
    ensures 0 <= c.hour < 24 && 0 <= c.minute < 60 && 0 <= c.second < 60
    ensures c.hour * 3600 + c.minute * 60 + c.second == t.unix % SecondsPerDay
  {
    var s := t.unix % SecondsPerDay;
    ClockTime(s / 3600, s % 3600 / 60, s % 60)
  }

  /** t.AddDate(years, months, days): add to the civil fields, keep the clock,
      and normalise with time.Date. */
  function AddDate(t: Instant, years: int, months: int, days: int): Instant {
    var c := CivilOf(t);
    var k := Clock(t);
    DateUTC(c.year + years, c.month + months, c.day + days, k.hour, k.minute, k.second, t.nsec)
  }

  /** t.Before(u) */
  predicate Before(t: Instant, u: Instant) {
    t.unix < u.unix || (t.unix == u.unix && t.nsec < u.nsec)
  }

  /** Reading back the fields of an instant built from in-range fields gives the
      civil date time.Date normalised to and the same clock. */
  lemma DateUTCFields(year: int, month: int, day: int, hour: int, min: int, sec: int, nsec: int)
    requires 0 <= hour < 24 && 0 <= min < 60 && 0 <= sec < 60 && 0 <= nsec < NanosPerSecond
    ensures var t := DateUTC(year, month, day, hour, min, sec, nsec);
      && Normal(t)
      && CivilOf(t) == Calendar.CivilFromDays(Calendar.DayNumber(year, month, day))
      && Clock(t) == ClockTime(hour, min, sec)
  {
    var days := Calendar.DayNumber(year, month, day) - UnixEpochDay;
    var x := hour * 3600 + min * 60 + sec;
    Arith.DivUnique(nsec, NanosPerSecond, 0, nsec);
    Arith.DivUnique(days * SecondsPerDay + x, SecondsPerDay, days, x);
    Arith.DivUnique(x, 3600, hour, min * 60 + sec);
    Arith.DivUnique(min * 60 + sec, 60, min, sec);
    Arith.DivUnique(x, 60, hour * 60 + min, sec);
  }

  /** An instant built from in-range fields is the zero instant exactly when
      the fields name 0001-01-01 00:00:00.000000000. */
  lemma DateUTCIsZero(year: int, month: int, day: int, hour: int, min: int, sec: int, nsec: int)
    requires 0 <= hour < 24 && 0 <= min < 60 && 0 <= sec < 60 && 0 <= nsec < NanosPerSecond
    ensures IsZero(DateUTC(year, month, day, hour, min, sec, nsec))
        <==> Calendar.DayNumber(year, month, day) == 0 && hour == 0 && min == 0 && sec == 0 && nsec == 0
  {
    var days := Calendar.DayNumber(year, month, day) - UnixEpochDay;
    var x := hour * 3600 + min * 60 + sec;
    Arith.DivUnique(nsec, NanosPerSecond, 0, nsec);
    if DateUTC(year, month, day, hour, min, sec, nsec).unix == ZeroInstant.unix {
      Arith.DivUnique(days * SecondsPerDay + x, SecondsPerDay, days, x);
      Arith.DivUnique(-UnixEpochDay * SecondsPerDay, SecondsPerDay, -UnixEpochDay, 0);
    }
  }

  /** Adding days to an instant moves it by exactly 86400 seconds per day. */
  lemma AddDaysShift(t: Instant, n: int)
    requires Normal(t)
    ensures AddDate(t, 0, 0, n) == Instant(t.unix + n * SecondsPerDay, t.nsec)
  {
    var c := CivilOf(t);
    var k := Clock(t);
    Calendar.DayNumberInRange(c.year, c.month, c.day);
    Calendar.DayNumberInRange(c.year, c.month, c.day + n);
    Arith.DivUnique(t.nsec, NanosPerSecond, 0, t.nsec);
    assert t.unix == SecondsPerDay * (t.unix / SecondsPerDay) + t.unix % SecondsPerDay;
  }
}
