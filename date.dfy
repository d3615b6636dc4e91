/** Date (date.go): a civil date with a validity flag, parsed from and
    formatted to "YYYY-MM-DD", moved by days through UTC instants, compared
    field by field, and adapted to text and storage. */
module Dates {

  import opened Wrappers
  import Arith
  import Calendar
  import GoTime
  import opened Decimal
  import opened TimeParse
  import opened Driver

  /** A date; `valid` is false for "no date". The fields are not required to
      be canonical: conversions normalise them as time.Date does. */
  datatype Date = Date(year: int, month: int, day: int, valid: bool)

  /** Date{}, the zero value. */
  const Zero := Date(0, 0, 0, false)

  function Fields(d: Date): Calendar.Civil {
    Calendar.Civil(d.year, d.month, d.day)
  }

  /** The day number time.Date gives the fields, out-of-range ones included. */
  function DayIndex(d: Date): int {
    Calendar.DayNumber(d.year, d.month, d.day)
  }

  /** DateOf(t): the date `t` falls on; valid unless `t` is the zero instant. */
  function DateOf(t: GoTime.Instant): (d: Date)
    ensures Calendar.Canonical(Fields(d))
    ensures d.valid <==> !GoTime.IsZero(t)
  {
    var c := GoTime.CivilOf(t);
    Date(c.year, c.month, c.day, !GoTime.IsZero(t))
  }

  /** DateOf reads back the calendar day of an instant built from a day and
      an in-range clock; it is valid unless the instant is 0001-01-01
      00:00:00 exactly. */
  lemma DateOfFields(c: Calendar.Civil, hour: int, min: int, sec: int, nsec: int)
    requires Calendar.Canonical(c)
    requires 0 <= hour < 24 && 0 <= min < 60 && 0 <= sec < 60 && 0 <= nsec < GoTime.NanosPerSecond
    ensures DateOf(GoTime.DateUTC(c.year, c.month, c.day, hour, min, sec, nsec))
      == Date(c.year, c.month, c.day, !(c == Calendar.Civil(1, 1, 1) && hour == 0 && min == 0 && sec == 0 && nsec == 0))
  {
    GoTime.DateUTCFields(c.year, c.month, c.day, hour, min, sec, nsec);
    GoTime.DateUTCIsZero(c.year, c.month, c.day, hour, min, sec, nsec);
    Calendar.CivilOfDayNumber(c);
    Calendar.DayZero(c);
  }

  /** The layout "2006-01-02". */
  const DateLayout: Layout := [LongYear, Lit('-'), ZeroMonth, Lit('-'), ZeroDay]

  /** ParseDate(s): time.Parse with "2006-01-02", then DateOf; on failure the
      zero Date and the error. */
  function ParseDate(s: string): (r: Parsed<Date>)
    ensures r.err.Some? ==> r.value == Zero
  {
    var p := Parse(DateLayout, s);
    if p.Failure? then Parsed(Zero, Some(p.error)) else Parsed(DateOf(p.value), None)
  }

  /** d.String(): "%04d-%02d-%02d" when valid, "" otherwise. */
  function String(d: Date): (s: string)
    ensures IsAscii(s)
    ensures s == [] <==> !d.valid
  {
    if d.valid then PadInt(d.year, 4) + "-" + PadInt(d.month, 2) + "-" + PadInt(d.day, 2) else ""
  }

  /** d.In(time.UTC): midnight of the date in UTC. */
  function InUTC(d: Date): GoTime.Instant {
    GoTime.DateUTC(d.year, d.month, d.day, 0, 0, 0, 0)
  }

  /** d.ToTime() */
  function ToTime(d: Date): GoTime.Instant {
    GoTime.DateUTC(d.year, d.month, d.day, 0, 0, 0, 0)
  }

  /** d.AddDays(n): DateOf(d.In(time.UTC).AddDate(0, 0, n)). */
  function AddDays(d: Date, n: int): Date {
    DateOf(GoTime.AddDate(InUTC(d), 0, 0, n))
  }

  /** d.DaysSince(s): the Unix-seconds difference of the two midnights,
      divided by 86400 with Go's truncating division. */
  function DaysSince(d: Date, s: Date): int {
    Arith.Quo(InUTC(d).unix - InUTC(s).unix, GoTime.SecondsPerDay)
  }

  /** d.Before(d2): year, then month, then day. */
  predicate Before(d: Date, d2: Date) {
    if d.year != d2.year then d.year < d2.year
    else if d.month != d2.month then d.month < d2.month
    else d.day < d2.day
  }

  /** d.MarshalText(): the bytes of d.String(). */
  function MarshalText(d: Date): seq<byte> {
    Bytes(String(d))
  }

  /** d.Value(): the string when valid, nil otherwise. */
  function Value(d: Date): DriverValue {
    if d.valid then Some(String(d)) else None
  }

  /** A *Date: the target of UnmarshalText and Scan. */
  class DateRef {
    var value: Date

    constructor (d: Date)
      ensures value == d
    {
      value := d;
    }

    /** (*Date).UnmarshalText: store the parse result, marked valid when the
        parse succeeded; on failure the zero Date. */
    method UnmarshalText(data: seq<byte>) returns (err: Option<ParseError>)
      modifies this
      ensures var p := ParseDate(Text(data));
        && err == p.err
        && value == (if p.err.None? then p.value.(valid := true) else Zero)
    {
      var p := ParseDate(Text(data));
      value := p.value;
      if p.err.None? {
        value := value.(valid := true);
      }
      err := p.err;
    }

    /** (*Date).Scan: NULL resets to the zero Date; bytes or a string are
        parsed and stored only when the parse succeeds; any other input is
        refused and nothing changes. */
    method Scan(v: ScanValue) returns (err: Option<Error>)
      modifies this
      ensures v.Nil? ==> value == Zero && err == None
      ensures (v.BytesValue? || v.StringValue?) ==>
        var p := ParseDate(ScanText(v));
        if p.err.None? then value == p.value && err == None
        else value == old(value) && err == Some(ParseFailed(p.err.value))
      ensures v.Other? ==> value == old(value) && err == Some(ConversionTypeError)
    {
      match v
      case Nil =>
        value := Zero;
        err := None;
      case BytesValue(b) =>
        var p := ParseDate(Text(b));
        if p.err.Some? {
          return Some(ParseFailed(p.err.value));
        }
        value := p.value;
        err := None;
      case StringValue(s) =>
        var p := ParseDate(s);
        if p.err.Some? {
          return Some(ParseFailed(p.err.value));
        }
        value := p.value;
        err := None;
      case Other =>
        err := Some(ConversionTypeError);
    }
  }

  // ---------------------------------------------------------------------
  // The text ParseDate accepts

  /** "YYYY-MM-DD" at the start of `s` with a month in 1..12; the day is
      not checked yet. */
  predicate DatePrefix(s: string) {
    && |s| >= 10
    && AllDigits(s[..4]) && s[4] == '-' && AllDigits(s[5..7]) && s[7] == '-' && AllDigits(s[8..10])
    && 1 <= Num(s[5..7]) <= 12
  }

  /** The year, month and day written at the start of `s`. */
  function PrefixFields(s: string): Calendar.Civil
    requires DatePrefix(s)
  {
    Calendar.Civil(Num(s[..4]), Num(s[5..7]), Num(s[8..10]))
  }

  /** Exactly "YYYY-MM-DD" naming a day of the calendar. */
  predicate DateText(s: string) {
    |s| == 10 && DatePrefix(s) && Calendar.Canonical(PrefixFields(s))
  }

  /** The layout "2006-01-02" consumes exactly a date prefix and sets year,
      month and day from it. */
  lemma ConsumeDateLayout(v: string, f: Fields)
    requires InRange(f)
    ensures Consume(DateLayout, v, f) ==
      if DatePrefix(v) then
        Some(Step(v[10..], f.(year := Num(v[..4]), month := Num(v[5..7]), day := Num(v[8..10]))))
      else None
  {
    var L := DateLayout;
    assert L[1..] == [Lit('-'), ZeroMonth, Lit('-'), ZeroDay];
    assert L[2..] == [ZeroMonth, Lit('-'), ZeroDay];
    assert L[3..] == [Lit('-'), ZeroDay];
    assert L[4..] == [ZeroDay];
    assert L[1..][1..] == L[2..] && L[2..][1..] == L[3..] && L[3..][1..] == L[4..] && L[4..][1..] == [];
    var s0 := ChunkStep(LongYear, v, f);
    if s0.None? {
      return;
    }
    var v1, f1 := s0.value.rest, s0.value.fields;
    assert v1 == v[4..] && AllDigits(v[..4]);
    assert Consume(L, v, f) == Consume(L[1..], v1, f1);
    var s1 := ChunkStep(Lit('-'), v1, f1);
    if s1.None? {
      return;
    }
    var v2 := s1.value.rest;
    assert v2 == v[5..] && v[4] == '-';
    assert Consume(L[1..], v1, f1) == Consume(L[2..], v2, f1);
    var s2 := ChunkStep(ZeroMonth, v2, f1);
    if s2.None? {
      if |v| >= 10 {
        assert v[5..][..2] == v[5..7];
      }
      return;
    }
    var v3, f3 := s2.value.rest, s2.value.fields;
    assert v[5..][..2] == v[5..7] && v[5..][2..] == v[7..];
    assert v3 == v[7..] && AllDigits(v[5..7]) && f3 == f1.(month := Num(v[5..7]));
    assert Consume(L[2..], v2, f1) == Consume(L[3..], v3, f3);
    var s3 := ChunkStep(Lit('-'), v3, f3);
    if s3.None? {
      return;
    }
    var v4 := s3.value.rest;
    assert v4 == v[8..] && v[7] == '-';
    assert Consume(L[3..], v3, f3) == Consume(L[4..], v4, f3);
    var s4 := ChunkStep(ZeroDay, v4, f3);
    if s4.None? {
      if |v| >= 10 {
        assert v[8..][..2] == v[8..10];
      }
      return;
    }
    assert v[8..][..2] == v[8..10] && v[8..][2..] == v[10..];
    assert Consume(L[4..], v4, f3) == Consume([], s4.value.rest, s4.value.fields);
  }

  /** ParseDate, stated directly: it succeeds exactly on DateText, with the
      written fields, valid unless they name 0001-01-01 (the zero instant);
      otherwise it returns the zero Date and an error. */
  lemma ParseDateSpec(s: string)
    ensures ParseDate(s) ==
      if DateText(s) then
        var c := PrefixFields(s);
        Parsed(Date(c.year, c.month, c.day, c != Calendar.Civil(1, 1, 1)), None)
      else Parsed(Zero, Some(ParseError(DateLayout)))
  {
    ConsumeDateLayout(s, Initial);
    if DateText(s) {
      var c := PrefixFields(s);
      GoTime.DateUTCFields(c.year, c.month, c.day, 0, 0, 0, 0);
      GoTime.DateUTCIsZero(c.year, c.month, c.day, 0, 0, 0, 0);
      Calendar.CivilOfDayNumber(c);
      Calendar.DayZero(c);
    }
  }

  /** The pieces of "%04d-%02d-%02d" sit where DatePrefix reads them. */
  lemma DateStringParts(y: string, m: string, d: string)
    requires |y| == 4 && |m| == 2 && |d| == 2
    ensures var s := y + "-" + m + "-" + d;
      |s| == 10 && s[..4] == y && s[4] == '-' && s[5..7] == m && s[7] == '-' && s[8..10] == d
  {
  }

  /** Formatting then parsing gives the date back, for a valid canonical date
      with a four-digit year other than 0001-01-01. */
  lemma ParseDateString(d: Date)
    requires d.valid && Calendar.Canonical(Fields(d)) && 0 <= d.year <= 9999
    requires Fields(d) != Calendar.Civil(1, 1, 1)
    ensures ParseDate(String(d)) == Parsed(d, None)
  {
    PadIntExact(d.year, 4);
    PadIntExact(d.month, 2);
    PadIntExact(d.day, 2);
    DateStringParts(PadInt(d.year, 4), PadInt(d.month, 2), PadInt(d.day, 2));
    ParseDateSpec(String(d));
  }

  /** 0001-01-01 parses without error but as "no date". */
  lemma ParseZeroDate()
    ensures ParseDate("0001-01-01") == Parsed(Date(1, 1, 1, false), None)
  {
    var s := "0001-01-01";
    assert s[..4] == "0001" && s[5..7] == "01" && s[8..10] == "01";
    var z1, z2, z3, y := "0", "00", "000", "0001";
    assert z1[..0] == [] && Num(z1) == 0;
    assert z2[..1] == z1 && Num(z2) == 0;
    assert z3[..2] == z2 && Num(z3) == 0;
    assert y[..3] == z3 && Num(y) == 1;
    var m := "01";
    assert m[..1] == z1 && Num(m) == 1;
    Calendar.DayNumberInRange(1, 1, 1);
    ParseDateSpec(s);
  }

  /** Marshalling a valid canonical date to text and unmarshalling it gives the
      date back; UnmarshalText forces `valid`, so 0001-01-01 survives too. */
  lemma TextRoundTrip(d: Date)
    requires d.valid && Calendar.Canonical(Fields(d)) && 0 <= d.year <= 9999
    ensures var p := ParseDate(Text(MarshalText(d)));
      p.err.None? && p.value.(valid := true) == d
  {
    PadIntExact(d.year, 4);
    PadIntExact(d.month, 2);
    PadIntExact(d.day, 2);
    DateStringParts(PadInt(d.year, 4), PadInt(d.month, 2), PadInt(d.day, 2));
    ParseDateSpec(String(d));
  }

  /** Value is nil exactly for an invalid date; a valid canonical date with a
      four-digit year, other than 0001-01-01, scans back from its value. */
  lemma ValueRoundTrip(d: Date)
    ensures Value(d).None? <==> !d.valid
    ensures d.valid && Calendar.Canonical(Fields(d)) && 0 <= d.year <= 9999 && Fields(d) != Calendar.Civil(1, 1, 1)
      ==> ParseDate(Value(d).value) == Parsed(d, None)
  {
    if d.valid && Calendar.Canonical(Fields(d)) && 0 <= d.year <= 9999 && Fields(d) != Calendar.Civil(1, 1, 1) {
      ParseDateString(d);
    }
  }

  // ---------------------------------------------------------------------
  // Day arithmetic

  /** Midnight UTC of a date is its day number times 86400 seconds. */
  lemma InUTCIsMidnight(d: Date)
    ensures InUTC(d) == GoTime.Instant((DayIndex(d) - GoTime.UnixEpochDay) * GoTime.SecondsPerDay, 0)
  {
    Arith.DivUnique(0, GoTime.NanosPerSecond, 0, 0);
  }

  /** DaysSince is the difference of the day numbers: leap seconds play no
      part, and the truncating division is exact. */
  lemma DaysSinceIsDayDifference(d: Date, s: Date)
    ensures DaysSince(d, s) == DayIndex(d) - DayIndex(s)
  {
    InUTCIsMidnight(d);
    InUTCIsMidnight(s);
    var k := DayIndex(d) - DayIndex(s);
    assert InUTC(d).unix - InUTC(s).unix == k * GoTime.SecondsPerDay;
    Arith.QuoExact(k, GoTime.SecondsPerDay);
  }

  /** Midnight UTC of day number `k` reads back as the civil date of that
      day, valid unless it is day 0, 0001-01-01. */
  lemma DateOfMidnight(k: int)
    ensures var c := Calendar.CivilFromDays(k);
      DateOf(GoTime.Instant((k - GoTime.UnixEpochDay) * GoTime.SecondsPerDay, 0)) == Date(c.year, c.month, c.day, k != 0)
  {
    var u := (k - GoTime.UnixEpochDay) * GoTime.SecondsPerDay;
    Arith.DivUnique(u, GoTime.SecondsPerDay, k - GoTime.UnixEpochDay, 0);
    assert u - GoTime.ZeroInstant.unix == k * GoTime.SecondsPerDay;
  }

  /** d.AddDays(n) reads the date of the midnight of day DayIndex(d) + n. */
  lemma AddDaysMidnight(d: Date, n: int)
    ensures AddDays(d, n) == DateOf(GoTime.Instant((DayIndex(d) + n - GoTime.UnixEpochDay) * GoTime.SecondsPerDay, 0))
  {
    AddDateMidnight(d, n);
  }

  /** Adding n days to the midnight of d moves it to the midnight of day
      DayIndex(d) + n. */
  lemma AddDateMidnight(d: Date, n: int)
    ensures GoTime.AddDate(InUTC(d), 0, 0, n)
         == GoTime.Instant((DayIndex(d) + n - GoTime.UnixEpochDay) * GoTime.SecondsPerDay, 0)
  {
    InUTCIsMidnight(d);
    GoTime.AddDaysShift(InUTC(d), n);
  }

  /** AddDays lands on day DayIndex(d) + n, with canonical fields, and is
      valid unless that day is 0001-01-01; the receiver's `valid` plays no
      part. */
  lemma AddDaysSpec(d: Date, n: int)
    ensures Calendar.Canonical(Fields(AddDays(d, n)))
    ensures DayIndex(AddDays(d, n)) == DayIndex(d) + n
    ensures AddDays(d, n).valid <==> DayIndex(d) + n != 0
    ensures AddDays(d, n) == AddDays(d.(valid := !d.valid), n)
  {
    AddDaysMidnight(d, n);
    AddDaysMidnight(d.(valid := !d.valid), n);
    DateOfMidnight(DayIndex(d) + n);
  }

  /** The inverse law: d.AddDays(n).DaysSince(d) == n for every d and n. */
  lemma AddDaysDaysSince(d: Date, n: int)
    ensures DaysSince(AddDays(d, n), d) == n
  {
    AddDaysSpec(d, n);
    DaysSinceIsDayDifference(AddDays(d, n), d);
  }

  /** DaysSince is zero on equal dates and changes sign when its arguments are
      swapped. */
  lemma DaysSinceAntisymmetric(d: Date, s: Date)
    ensures DaysSince(d, d) == 0
    ensures DaysSince(d, s) == -DaysSince(s, d)
  {
    DaysSinceIsDayDifference(d, d);
    DaysSinceIsDayDifference(d, s);
    DaysSinceIsDayDifference(s, d);
  }

  /** Adding days twice adds the counts. */
  lemma AddDaysTwice(d: Date, a: int, b: int)
    ensures AddDays(AddDays(d, a), b) == AddDays(d, a + b)
  {
    var e := AddDays(d, a);
    AddDaysSpec(d, a);
    AddDaysSpec(e, b);
    AddDaysSpec(d, a + b);
    var x, y := AddDays(e, b), AddDays(d, a + b);
    Calendar.DayNumberInjective(Fields(x), Fields(y));
  }

  /** On a canonical date, AddDays(0) only recomputes `valid`. */
  lemma AddZeroDays(d: Date)
    requires Calendar.Canonical(Fields(d))
    ensures AddDays(d, 0) == d.(valid := Fields(d) != Calendar.Civil(1, 1, 1))
  {
    var e := d.(valid := Fields(d) != Calendar.Civil(1, 1, 1));
    Calendar.DayZero(Fields(d));
    assert Fields(e) == Fields(d) && DayIndex(e) == DayIndex(d);
    AddDaysTo(d, 0, e);
  }

  /** Two canonical dates on the same day with the same flag are equal. */
  lemma SameDate(x: Date, y: Date)
    requires Calendar.Canonical(Fields(x)) && Calendar.Canonical(Fields(y))
    requires DayIndex(x) == DayIndex(y) && x.valid == y.valid
    ensures x == y
  {
    Calendar.DayNumberInjective(Fields(x), Fields(y));
  }

  /** ToTime is midnight UTC of the date: its fields read back as the date and
      its clock as 00:00:00. */
  lemma ToTimeIsMidnight(d: Date)
    requires Calendar.Canonical(Fields(d))
    ensures ToTime(d) == InUTC(d)
    ensures GoTime.CivilOf(ToTime(d)) == Fields(d)
    ensures GoTime.Clock(ToTime(d)) == GoTime.ClockTime(0, 0, 0)
  {
    GoTime.DateUTCFields(d.year, d.month, d.day, 0, 0, 0, 0);
    Calendar.CivilOfDayNumber(Fields(d));
  }

  // ---------------------------------------------------------------------
  // Ordering

  /** Before is a strict order: irreflexive, asymmetric, transitive, and any
      two dates with different fields are ordered one way. */
  lemma BeforeIsStrictOrder(a: Date, b: Date, c: Date)
    ensures !Before(a, a)
    ensures Before(a, b) ==> !Before(b, a)
    ensures Before(a, b) && Before(b, c) ==> Before(a, c)
    ensures Fields(a) != Fields(b) ==> Before(a, b) || Before(b, a)
  {
  }

  /** On canonical dates Before agrees with the instants: a is before b
      exactly when b lies a positive number of days after a. */
  lemma BeforeIsDayOrder(a: Date, b: Date)
    requires Calendar.Canonical(Fields(a)) && Calendar.Canonical(Fields(b))
    ensures Before(a, b) <==> DaysSince(b, a) > 0
  {
    DaysSinceIsDayDifference(b, a);
    assert Before(a, b) <==> Calendar.LexLess(Fields(a), Fields(b));
    if Calendar.LexLess(Fields(a), Fields(b)) {
      Calendar.DayNumberOrder(Fields(a), Fields(b));
    } else if Calendar.LexLess(Fields(b), Fields(a)) {
      Calendar.DayNumberOrder(Fields(b), Fields(a));
    }
  }

  // ---------------------------------------------------------------------
  // Worked cases

  /** AddDays is determined by its day number: a canonical date `e` lying n
      days after d, valid unless it is 0001-01-01, is d.AddDays(n). */
  lemma AddDaysTo(d: Date, n: int, e: Date)
    requires Calendar.Canonical(Fields(e)) && DayIndex(e) == DayIndex(d) + n
    requires e.valid <==> DayIndex(e) != 0
    ensures AddDays(d, n) == e
  {
    var x := AddDays(d, n);
    AddDaysSpec(d, n);
    SameDate(x, e);
  }

  /** Whole years: from a New Year's Day of year y >= 1, the length of the
      year leads to the next New Year's Day, and DaysSince counts it back. */
  lemma WholeYear(y: int)
    requires y >= 1
    ensures AddDays(Date(y, 1, 1, true), Calendar.DaysInYear(y)) == Date(y + 1, 1, 1, true)
    ensures DaysSince(Date(y + 1, 1, 1, true), Date(y, 1, 1, true)) == Calendar.DaysInYear(y)
  {
    Calendar.DayNumberInRange(y, 1, 1);
    Calendar.DayNumberInRange(y + 1, 1, 1);
    Calendar.YearLength(y);
    Calendar.DaysBeforeYearMonotone(1, y);
    AddDaysTo(Date(y, 1, 1, true), Calendar.DaysInYear(y), Date(y + 1, 1, 1, true));
    DaysSinceIsDayDifference(Date(y + 1, 1, 1, true), Date(y, 1, 1, true));
  }

  /** Crossing a year boundary in either direction, for years y >= 1. */
  lemma YearBoundary(y: int)
    requires y >= 1
    ensures AddDays(Date(y, 12, 31, true), 1) == Date(y + 1, 1, 1, true)
    ensures AddDays(Date(y + 1, 1, 1, true), -1) == Date(y, 12, 31, true)
  {
    Calendar.DayNumberInRange(y, 12, 31);
    Calendar.DayNumberInRange(y + 1, 1, 1);
    Calendar.YearLength(y);
    Calendar.MonthLength(y, 12);
    Calendar.DaysBeforeYearMonotone(1, y);
    AddDaysTo(Date(y, 12, 31, true), 1, Date(y + 1, 1, 1, true));
    AddDaysTo(Date(y + 1, 1, 1, true), -1, Date(y, 12, 31, true));
  }

  /** The last day of a month other than December is followed by the first
      of the next month. */
  lemma MonthBoundary(y: int, m: int)
    requires y >= 1 && 1 <= m < 12
    ensures AddDays(Date(y, m, Calendar.DaysIn(y, m), true), 1) == Date(y, m + 1, 1, true)
  {
    Calendar.DayNumberInRange(y, m, Calendar.DaysIn(y, m));
    Calendar.DayNumberInRange(y, m + 1, 1);
    Calendar.MonthLength(y, m);
    Calendar.DaysBeforeYearMonotone(1, y);
    Calendar.DaysBeforeMonthMonotone(y, 1, m + 1);
    AddDaysTo(Date(y, m, Calendar.DaysIn(y, m), true), 1, Date(y, m + 1, 1, true));
  }

  /** At year 0 the day after December 31st is 0001-01-01, Go's zero
      time, so it comes out invalid. */
  lemma YearZeroBoundary()
    ensures AddDays(Date(0, 12, 31, true), 1) == Date(1, 1, 1, false)
  {
    Calendar.DayNumberInRange(0, 12, 31);
    Calendar.DayNumberInRange(1, 1, 1);
    assert Calendar.DaysBeforeYear(0) == -366 && Calendar.IsLeap(0);
    AddDaysTo(Date(0, 12, 31, true), 1, Date(1, 1, 1, false));
  }

  /** The day arithmetic cases of the package's own tests: a year boundary
      both ways, a leap and a common year, a year before the Unix epoch,
      and the 1972 leap second, which plays no part. */
  lemma YearBoundaryCase()
    ensures AddDays(Date(2014, 12, 31, true), 1) == Date(2015, 1, 1, true)
    ensures AddDays(Date(2015, 1, 1, true), -1) == Date(2014, 12, 31, true)
  {
    YearBoundary(2014);
  }

  lemma LeapYearCase()
    ensures AddDays(Date(2004, 1, 1, true), 366) == Date(2005, 1, 1, true)
  {
    assert Calendar.IsLeap(2004);
    WholeYear(2004);
  }

  lemma CommonYearCase()
    ensures AddDays(Date(2001, 1, 1, true), 365) == Date(2002, 1, 1, true)
    ensures DaysSince(Date(102, 1, 1, true), Date(101, 1, 1, true)) == 365
  {
    assert !Calendar.IsLeap(2001) && !Calendar.IsLeap(101);
    WholeYear(2001);
    WholeYear(101);
  }

  lemma LeapSecondCase()
    ensures AddDays(Date(1972, 6, 30, true), 1) == Date(1972, 7, 1, true)
  {
    assert Calendar.DaysIn(1972, 6) == 30;
    MonthBoundary(1972, 6);
  }

  /** The parse cases of the package's own tests: dates are read, trailing
      text, a month 23 and the empty string are refused. */
  lemma ParseDateCase()
    ensures ParseDate("2016-01-02") == Parsed(Date(2016, 1, 2, true), None)
  {
    var s := "2016-01-02";
    assert s[..4] == "2016";
    assert s[5..7] == "01";
    assert s[8..10] == "02";
    assert Num("2016") == 2016 by {
      assert "2016"[..3] == "201" && "201"[..2] == "20" && "20"[..1] == "2" && "2"[..0] == "";
    }
    assert Num("01") == 1 && Num("02") == 2 by {
      assert "01"[..1] == "0" && "02"[..1] == "0" && "0"[..0] == "";
    }
    ParseDateSpec(s);
  }

  lemma ParseOldDateCase()
    ensures ParseDate("0003-02-04") == Parsed(Date(3, 2, 4, true), None)
  {
    var s := "0003-02-04";
    assert s[..4] == "0003";
    assert s[5..7] == "02";
    assert s[8..10] == "04";
    assert Num("0003") == 3 by {
      assert "0003"[..3] == "000" && "000"[..2] == "00" && "00"[..1] == "0" && "0"[..0] == "";
    }
    assert Num("02") == 2 && Num("04") == 4 by {
      assert "02"[..1] == "0" && "04"[..1] == "0" && "0"[..0] == "";
    }
    ParseDateSpec(s);
  }

  lemma ParseRejectCases()
    ensures ParseDate("2016-01-02x") == Parsed(Zero, Some(ParseError(DateLayout)))
    ensures ParseDate("2019-23-11") == Parsed(Zero, Some(ParseError(DateLayout)))
    ensures ParseDate("2019-23-51") == Parsed(Zero, Some(ParseError(DateLayout)))
    ensures ParseDate("") == Parsed(Zero, Some(ParseError(DateLayout)))
  {
    ParseDateSpec("2016-01-02x");
    var m := "2019-23-11";
    assert m[5..7] == "23" && Num("23") == 23 by {
      assert "23"[..1] == "2" && "2"[..0] == "";
    }
    ParseDateSpec(m);
    var n := "2019-23-51";
    assert n[5..7] == "23";
    ParseDateSpec(n);
    ParseDateSpec("");
  }
}
