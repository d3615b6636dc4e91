/** Time (time.go): an hour and minute of the day with a validity flag,
    parsed from "15:04" or "15:04:05", formatted as "%02d:%02d", compared,
    subtracted in minutes, and adapted to text and storage. */
module Times {

  import opened Wrappers
  import Arith
  import Calendar
  import GoTime
  import opened Decimal
  import opened TimeParse
  import opened Driver

  /** A time of day; `valid` is false for "no time". */
  datatype Time = Time(hour: int, minute: int, valid: bool)

  /** Time{}, the zero value. */
  const Zero := Time(0, 0, false)

  /** Hour and minute lie in their ranges. */
  predicate InDay(t: Time) {
    0 <= t.hour < 24 && 0 <= t.minute < 60
  }

  /** TimeOf(t): the hour and minute of `t`, valid unless `t` is the zero
      instant; seconds and nanoseconds are dropped. */
  function TimeOf(t: GoTime.Instant): (tm: Time)
    ensures InDay(tm)
    ensures tm.valid <==> !GoTime.IsZero(t)
    ensures tm.hour * 60 + tm.minute == t.unix % GoTime.SecondsPerDay / 60
  {
    var k := GoTime.Clock(t);
    Arith.DivUnique(k.hour * 3600 + k.minute * 60 + k.second, 60, k.hour * 60 + k.minute, k.second);
    Time(k.hour, k.minute, !GoTime.IsZero(t))
  }

  /** The layout "15:04". */
  const ClockLayout: Layout := [Hour, Lit(':'), ZeroMinute]

  /** What "15:04:05" adds to "15:04". */
  const SecondsLayout: Layout := [Lit(':'), ZeroSecond]

  /** ParseTime(s): "15:04" first; when that fails, "15:04:05", whose result
      and error are returned as they are (the zero time on failure). */
  function ParseTime(s: string): (r: Parsed<Time>)
    ensures r.err.Some? ==> r.err == Some(ParseError(ClockLayout + SecondsLayout))
  {
    var p := Parse(ClockLayout, s);
    if p.Success? then Parsed(TimeOf(p.value), None)
    else
      var q := Parse(ClockLayout + SecondsLayout, s);
      Parsed(TimeOf(InstantOf(q)), if q.Failure? then Some(q.error) else None)
  }

  /** t.String(): "%02d:%02d" when valid, "" otherwise. */
  function String(t: Time): (s: string)
    ensures IsAscii(s)
    ensures s == [] <==> !t.valid
  {
    if t.valid then PadInt(t.hour, 2) + ":" + PadInt(t.minute, 2) else ""
  }

  /** t.ToDate(): time.Date(0, 0, 0, hour, minute, 0, 0, time.UTC). */
  function ToDate(t: Time): GoTime.Instant {
    GoTime.DateUTC(0, 0, 0, t.hour, t.minute, 0, 0)
  }

  /** t.After(tm): the hour decides, and the minute when the hours agree. */
  predicate After(t: Time, tm: Time) {
    if t.hour == tm.hour then t.minute > tm.minute else t.hour > tm.hour
  }

  /** t.Before(tm) */
  predicate Before(t: Time, tm: Time) {
    if t.hour == tm.hour then t.minute < tm.minute else t.hour < tm.hour
  }

  /** t.Subtract(t2): the difference in minutes. */
  function Subtract(t: Time, t2: Time): int {
    (t.hour - t2.hour) * 60 + t.minute - t2.minute
  }

  /** t.MarshalText() */
  function MarshalText(t: Time): seq<byte> {
    Bytes(String(t))
  }

  /** t.Value(): the string when valid, nil otherwise. */
  function Value(t: Time): DriverValue {
    if t.valid then Some(String(t)) else None
  }

  /** A *Time: the target of UnmarshalText and Scan. */
  class TimeRef {
    var value: Time

    constructor (t: Time)
      ensures value == t
    {
      value := t;
    }

    /** (*Time).UnmarshalText: store whatever ParseTime returns, the zero
        time included. */
    method UnmarshalText(data: seq<byte>) returns (err: Option<ParseError>)
      modifies this
      ensures value == ParseTime(Text(data)).value && err == ParseTime(Text(data)).err
    {
      var p := ParseTime(Text(data));
      value := p.value;
      err := p.err;
    }

    /** (*Time).Scan: NULL changes nothing; bytes or a string are parsed and
        stored only when the parse succeeds; any other input is refused. */
    method Scan(v: ScanValue) returns (err: Option<Error>)
      modifies this
      ensures v.Nil? ==> value == old(value) && err == None
      ensures (v.BytesValue? || v.StringValue?) ==>
        var p := ParseTime(ScanText(v));
        if p.err.None? then value == p.value && err == None
        else value == old(value) && err == Some(ParseFailed(p.err.value))
      ensures v.Other? ==> value == old(value) && err == Some(ConversionTypeError)
    {
      match v
      case Nil =>
        err := None;
      case BytesValue(b) =>
        var p := ParseTime(Text(b));
        if p.err.Some? {
          return Some(ParseFailed(p.err.value));
        }
        value := p.value;
        err := None;
      case StringValue(s) =>
        var p := ParseTime(s);
        if p.err.Some? {
          return Some(ParseFailed(p.err.value));
        }
        value := p.value;
        err := None;
      case Other =>
        err := Some(ConversionTypeError);
    }
  }

  // ---------------------------------------------------------------------
  // The text ParseTime accepts

  /** How many digits the hour takes: two when two digits lead, else one. */
  function HourWidth(s: string): (w: nat)
    requires |s| >= 1 && IsDigit(s[0])
    ensures 1 <= w <= 2 && w <= |s| && AllDigits(s[..w])
  {
    if |s| >= 2 && IsDigit(s[1]) then 2 else 1
  }

  /** "H:MM" or "HH:MM" at the start of `s`, with an hour below 24 and a
      minute below 60. */
  predicate ClockPrefix(s: string) {
    && |s| >= 1 && IsDigit(s[0])
    && var w := HourWidth(s);
    && |s| >= w + 3
    && Num(s[..w]) < 24
    && s[w] == ':'
    && AllDigits(s[w + 1..w + 3]) && Num(s[w + 1..w + 3]) < 60
  }

  function ClockHour(s: string): int
    requires ClockPrefix(s)
  {
    Num(s[..HourWidth(s)])
  }

  function ClockMinute(s: string): int
    requires ClockPrefix(s)
  {
    var w := HourWidth(s);
    Num(s[w + 1..w + 3])
  }

  /** What follows the clock. */
  function ClockRest(s: string): string
    requires ClockPrefix(s)
  {
    s[HourWidth(s) + 3..]
  }

  /** ":SS" with seconds below 60 at the start of `r`. */
  predicate SecondsPrefix(r: string) {
    |r| >= 3 && r[0] == ':' && AllDigits(r[1..3]) && Num(r[1..3]) < 60
  }

  /** Exactly ":SS", optionally followed by a fraction of a second. */
  predicate SecondsText(r: string) {
    SecondsPrefix(r) && 3 + FracLen(r[3..]) == |r|
  }

  /** The text ParseTime accepts: a clock, then nothing or seconds. */
  predicate TimeText(s: string) {
    ClockPrefix(s) && (ClockRest(s) == [] || SecondsText(ClockRest(s)))
  }

  /** The layout "15:04" consumes exactly a clock prefix and sets the hour
      and minute from it. */
  lemma ConsumeClockLayout(v: string, f: Fields)
    requires InRange(f)
    ensures Consume(ClockLayout, v, f) ==
      if ClockPrefix(v) then Some(Step(ClockRest(v), f.(hour := ClockHour(v), minute := ClockMinute(v))))
      else None
  {
    var L := ClockLayout;
    assert L[1..] == [Lit(':'), ZeroMinute] && L[1..][1..] == [ZeroMinute] && L[1..][1..][1..] == [];
    var s0 := ChunkStep(Hour, v, f);
    if s0.None? {
      return;
    }
    var w := HourWidth(v);
    var v1, f1 := s0.value.rest, s0.value.fields;
    if w == 1 {
      assert v[..1][..0] == [];
    } else {
      assert v[..2] == v[..w];
    }
    assert v1 == v[w..] && f1 == f.(hour := Num(v[..w]));
    assert Consume(L, v, f) == Consume(L[1..], v1, f1);
    var s1 := ChunkStep(Lit(':'), v1, f1);
    if s1.None? {
      return;
    }
    var v2 := s1.value.rest;
    assert v2 == v[w + 1..] && v[w] == ':';
    assert Consume(L[1..], v1, f1) == Consume(L[1..][1..], v2, f1);
    var s2 := ChunkStep(ZeroMinute, v2, f1);
    if s2.None? {
      if |v| >= w + 3 {
        assert v[w + 1..][..2] == v[w + 1..w + 3];
      }
      return;
    }
    assert v[w + 1..][..2] == v[w + 1..w + 3] && v[w + 1..][2..] == v[w + 3..];
    assert Consume(L[1..][1..], v2, f1) == Consume([], s2.value.rest, s2.value.fields);
  }

  /** The layout ":05" consumes ":SS" and a fraction, and sets the second. */
  lemma ConsumeSecondsLayout(r: string, f: Fields)
    requires InRange(f)
    ensures var c := Consume(SecondsLayout, r, f);
      && (c.Some? <==> SecondsPrefix(r))
      && (c.Some? ==> c.value.rest == r[3 + FracLen(r[3..])..]
                      && c.value.fields == f.(second := Num(r[1..3]),
                                              nsec := if FracLen(r[3..]) == 0 then f.nsec else FracNanos(r[3..])))
  {
    var L := SecondsLayout;
    assert L[1..] == [ZeroSecond] && L[1..][1..] == [];
    var s0 := ChunkStep(Lit(':'), r, f);
    if s0.None? {
      return;
    }
    var r1 := s0.value.rest;
    assert r1 == r[1..];
    assert Consume(L, r, f) == Consume(L[1..], r1, f);
    var s1 := ChunkStep(ZeroSecond, r1, f);
    if s1.None? {
      if |r| >= 3 {
        assert r[1..][..2] == r[1..3];
      }
      return;
    }
    assert r[1..][..2] == r[1..3] && r[1..][2..] == r[3..];
    assert r[3..][FracLen(r[3..])..] == r[3 + FracLen(r[3..])..];
    assert Consume(L[1..], r1, f) == Consume([], s1.value.rest, s1.value.fields);
  }

  /** The zero instant reads as the zero Time. */
  lemma TimeOfZeroInstant()
    ensures TimeOf(GoTime.ZeroInstant) == Zero
  {
    Arith.DivUnique(GoTime.ZeroInstant.unix, GoTime.SecondsPerDay, -GoTime.UnixEpochDay, 0);
  }

  /** TimeOf reads back the hour and minute of an instant built from an
      in-range clock. */
  lemma TimeOfFields(year: int, month: int, day: int, hour: int, min: int, sec: int, nsec: int)
    requires 0 <= hour < 24 && 0 <= min < 60 && 0 <= sec < 60 && 0 <= nsec < GoTime.NanosPerSecond
    ensures var t := GoTime.DateUTC(year, month, day, hour, min, sec, nsec);
      TimeOf(t) == Time(hour, min, !GoTime.IsZero(t))
  {
    GoTime.DateUTCFields(year, month, day, hour, min, sec, nsec);
  }

  /** An instant on 0000-01-01 reads back its hour and minute, and is valid. */
  lemma TimeOfYearZero(hour: int, min: int, sec: int, nsec: int)
    requires 0 <= hour < 24 && 0 <= min < 60 && 0 <= sec < 60 && 0 <= nsec < GoTime.NanosPerSecond
    ensures TimeOf(GoTime.DateUTC(0, 1, 1, hour, min, sec, nsec)) == Time(hour, min, true)
  {
    var t := GoTime.DateUTC(0, 1, 1, hour, min, sec, nsec);
    assert !GoTime.IsZero(t) by {
      GoTime.DateUTCIsZero(0, 1, 1, hour, min, sec, nsec);
      Calendar.DayNumberInRange(0, 1, 1);
      assert Calendar.DaysBeforeYear(0) == -366;
    }
    assert GoTime.Clock(t) == GoTime.ClockTime(hour, min, sec) by {
      GoTime.DateUTCFields(0, 1, 1, hour, min, sec, nsec);
    }
    TimeOfClock(t);
  }

  /** TimeOf keeps the hour and minute t.Clock() reports. */
  lemma TimeOfClock(t: GoTime.Instant)
    ensures var k := GoTime.Clock(t); TimeOf(t) == Time(k.hour, k.minute, !GoTime.IsZero(t))
  {
  }

  /** ParseTime, stated directly: it succeeds exactly on TimeText with the
      written hour and minute, always valid (a parsed time lies in year 0,
      never at the zero instant); otherwise it returns the zero Time and the
      error of "15:04:05". */
  lemma ParseTimeSpec(s: string)
    ensures ParseTime(s) ==
      if TimeText(s) then Parsed(Time(ClockHour(s), ClockMinute(s), true), None)
      else Parsed(Zero, Some(ParseError(ClockLayout + SecondsLayout)))
  {
    if !ClockPrefix(s) {
      ParseNoClock(s);
    } else if ClockRest(s) == [] {
      ParseClockOnly(s);
    } else {
      ParseClockSeconds(s);
    }
  }

  lemma ParseNoClock(s: string)
    requires !ClockPrefix(s)
    ensures ParseTime(s) == Parsed(Zero, Some(ParseError(ClockLayout + SecondsLayout)))
  {
    ConsumeClockLayout(s, Initial);
    ConsumeAppend(ClockLayout, SecondsLayout, s, Initial);
    TimeOfZeroInstant();
  }

  lemma ParseClockOnly(s: string)
    requires ClockPrefix(s) && ClockRest(s) == []
    ensures ParseTime(s) == Parsed(Time(ClockHour(s), ClockMinute(s), true), None)
  {
    ConsumeClockLayout(s, Initial);
    TimeOfYearZero(ClockHour(s), ClockMinute(s), 0, 0);
  }

  lemma ParseClockSeconds(s: string)
    requires ClockPrefix(s) && ClockRest(s) != []
    ensures ParseTime(s) ==
      if SecondsText(ClockRest(s)) then Parsed(Time(ClockHour(s), ClockMinute(s), true), None)
      else Parsed(Zero, Some(ParseError(ClockLayout + SecondsLayout)))
  {
    ConsumeClockLayout(s, Initial);
    ConsumeAppend(ClockLayout, SecondsLayout, s, Initial);
    TimeOfZeroInstant();
    var f := Initial.(hour := ClockHour(s), minute := ClockMinute(s));
    ConsumeSecondsLayout(ClockRest(s), f);
    var c := Consume(SecondsLayout, ClockRest(s), f);
    if c.Some? && c.value.rest == [] {
      var g := c.value.fields;
      TimeOfYearZero(g.hour, g.minute, g.second, g.nsec);
    }
  }

  /** The pieces of "%02d:%02d" sit where ClockPrefix reads them. */
  lemma TimeStringParts(h: string, m: string)
    requires |h| == 2 && |m| == 2
    ensures var s := h + ":" + m;
      |s| == 5 && s[..2] == h && s[2] == ':' && s[3..5] == m
  {
  }

  /** Formatting then parsing gives a valid in-range time back. */
  lemma ParseTimeString(t: Time)
    requires t.valid && InDay(t)
    ensures ParseTime(String(t)) == Parsed(t, None)
  {
    PadIntExact(t.hour, 2);
    PadIntExact(t.minute, 2);
    TimeStringParts(PadInt(t.hour, 2), PadInt(t.minute, 2));
    ParseTimeSpec(String(t));
  }

  /** Marshalling a valid in-range time to text and unmarshalling it gives
      the time back. */
  lemma TextRoundTrip(t: Time)
    requires t.valid && InDay(t)
    ensures ParseTime(Text(MarshalText(t))) == Parsed(t, None)
  {
    ParseTimeString(t);
  }

  /** Value is nil exactly for an invalid time, and a valid in-range time
      scans back from its value. */
  lemma ValueRoundTrip(t: Time)
    ensures Value(t).None? <==> !t.valid
    ensures t.valid && InDay(t) ==> ParseTime(Value(t).value) == Parsed(t, None)
  {
    if t.valid && InDay(t) {
      ParseTimeString(t);
    }
  }

  // ---------------------------------------------------------------------
  // ToDate

  /** time.Date(0, 0, 0) is -0001-11-30: month 0 is December of year -1,
      and day 0 the day before its first. */
  lemma DayZeroZero()
    ensures Calendar.DayNumber(0, 0, 0) == Calendar.DayNumber(-1, 11, 30) < 0
  {
    Calendar.DayNumberInRange(-1, 11, 30);
    Calendar.DayNumberInRange(-1, 12, 0);
    assert Calendar.DaysBeforeYear(-1) == -731;
    Arith.DivUnique(-1, 12, -1, 11);
  }

  /** ToDate places the time on -0001-11-30, the day time.Date(0, 0, 0)
      normalises to, and TimeOf reads the hour and minute back, valid. */
  lemma ToDateDay(t: Time)
    requires InDay(t)
    ensures GoTime.CivilOf(ToDate(t)) == Calendar.Civil(-1, 11, 30)
    ensures GoTime.Clock(ToDate(t)) == GoTime.ClockTime(t.hour, t.minute, 0)
    ensures TimeOf(ToDate(t)) == t.(valid := true)
  {
    var i := ToDate(t);
    ToDateClock(t);
    ToDateCivil(t);
    ToDateNotZero(t);
    TimeOfClock(i);
  }

  lemma ToDateClock(t: Time)
    requires InDay(t)
    ensures GoTime.Clock(ToDate(t)) == GoTime.ClockTime(t.hour, t.minute, 0)
  {
    GoTime.DateUTCFields(0, 0, 0, t.hour, t.minute, 0, 0);
  }

  lemma ToDateCivil(t: Time)
    requires InDay(t)
    ensures GoTime.CivilOf(ToDate(t)) == Calendar.Civil(-1, 11, 30)
  {
    DayZeroZero();
    Calendar.DayNumberInRange(-1, 11, 30);
    CivilOfDateUTC(0, 0, 0, Calendar.Civil(-1, 11, 30), t.hour, t.minute);
  }

  lemma ToDateNotZero(t: Time)
    requires InDay(t)
    ensures !GoTime.IsZero(ToDate(t))
  {
    GoTime.DateUTCIsZero(0, 0, 0, t.hour, t.minute, 0, 0);
    DayZeroZero();
  }

  /** An instant built from fields that denote the day `c` falls on `c`. */
  lemma CivilOfDateUTC(year: int, month: int, day: int, c: Calendar.Civil, hour: int, min: int)
    requires Calendar.Canonical(c) && Calendar.DayNumber(year, month, day) == Calendar.DayNumberOf(c)
    requires 0 <= hour < 24 && 0 <= min < 60
    ensures GoTime.CivilOf(GoTime.DateUTC(year, month, day, hour, min, 0, 0)) == c
  {
    GoTime.DateUTCFields(year, month, day, hour, min, 0, 0);
    Calendar.CivilOfDayNumber(c);
  }

  // ---------------------------------------------------------------------
  // Ordering and difference

  /** Minutes since midnight. */
  function Minutes(t: Time): int {
    t.hour * 60 + t.minute
  }

  /** On in-range times Before, After and Subtract follow the minutes since
      midnight: Before and After are the two strict orders, and the sign of
      Subtract tells which holds. */
  lemma OrderIsMinutes(t: Time, u: Time)
    requires InDay(t) && InDay(u)
    ensures Before(t, u) <==> Minutes(t) < Minutes(u)
    ensures After(t, u) <==> Minutes(t) > Minutes(u)
    ensures Subtract(t, u) == Minutes(t) - Minutes(u)
    ensures Subtract(t, u) > 0 <==> After(t, u)
    ensures Subtract(t, u) < 0 <==> Before(t, u)
  {
  }

  /** After is Before with the arguments swapped, for any fields. */
  lemma AfterIsConverse(t: Time, u: Time)
    ensures After(t, u) <==> Before(u, t)
  {
  }

  /** Before is irreflexive and transitive, and of two times with different
      hour or minute one is before the other. */
  lemma BeforeIsStrictOrder(a: Time, b: Time, c: Time)
    ensures !Before(a, a)
    ensures Before(a, b) && Before(b, c) ==> Before(a, c)
    ensures (a.hour, a.minute) != (b.hour, b.minute) ==> Before(a, b) || Before(b, a)
  {
  }

  /** Differences add up along a chain, and change sign when swapped. */
  lemma SubtractChain(t: Time, u: Time, v: Time)
    ensures Subtract(t, u) + Subtract(u, v) == Subtract(t, v)
    ensures Subtract(t, u) == -Subtract(u, t)
    ensures Subtract(t, t) == 0
  {
  }

  // ---------------------------------------------------------------------
  // Worked cases

  /** The parse cases of the package's own tests: "15:51" and "16:52:33"
      are read; "33:33:33", "15:91" and "91:12" are refused. */
  lemma ParseClockCase()
    ensures ParseTime("15:51") == Parsed(Time(15, 51, true), None)
  {
    ParseTimeString(Time(15, 51, true));
    assert String(Time(15, 51, true)) == "15:51" by {
      assert Decimal.Decimal(15) == "15" && Decimal.Decimal(51) == "51";
    }
  }

  lemma ParseSecondsCase()
    ensures ParseTime("16:52:33") == Parsed(Time(16, 52, true), None)
  {
    var s := "16:52:33";
    assert s[..2] == "16" && s[3..5] == "52" && s[5..] == ":33";
    assert ":33"[1..3] == "33" && ":33"[3..] == "";
    assert Num("16") == 16 && Num("52") == 52 && Num("33") == 33 by {
      assert "16"[..1] == "1" && "52"[..1] == "5" && "33"[..1] == "3";
      assert "1"[..0] == "" && "5"[..0] == "" && "3"[..0] == "";
    }
    ParseTimeSpec(s);
  }

  lemma ParseRejectCases()
    ensures ParseTime("33:33:33") == Parsed(Zero, Some(ParseError(ClockLayout + SecondsLayout)))
    ensures ParseTime("15:91") == Parsed(Zero, Some(ParseError(ClockLayout + SecondsLayout)))
    ensures ParseTime("91:12") == Parsed(Zero, Some(ParseError(ClockLayout + SecondsLayout)))
  {
    assert Num("33") == 33 && Num("91") == 91 by {
      assert "33"[..1] == "3" && "91"[..1] == "9" && "3"[..0] == "" && "9"[..0] == "";
    }
    var a, b, c := "33:33:33", "15:91", "91:12";
    assert a[..2] == "33" && b[3..5] == "91" && c[..2] == "91";
    ParseTimeSpec(a);
    ParseTimeSpec(b);
    ParseTimeSpec(c);
  }
}
