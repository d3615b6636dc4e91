/** DateTime (datetime.go): a Date and a Time side by side, parsed by trying
    four layouts in turn, formatted as "YYYY-MM-DDTHH:MM", ordered through
    their UTC instants, and adapted to text and storage. */
module DateTimes {

  import opened Wrappers
  import Arith
  import Calendar
  import GoTime
  import opened Decimal
  import opened TimeParse
  import opened Driver
  import Dates
  import Times

  datatype DateTime = DateTime(date: Dates.Date, time: Times.Time)

  /** DateTime{}, the zero value. */
  const Zero := DateTime(Dates.Zero, Times.Zero)

  /** DateTimeOf(t): the date and the time of day of `t`; both are valid
      unless `t` is the zero instant. */
  function DateTimeOf(t: GoTime.Instant): (dt: DateTime)
    ensures dt.date.valid == dt.time.valid == !GoTime.IsZero(t)
    ensures Calendar.Canonical(Dates.Fields(dt.date)) && Times.InDay(dt.time)
  {
    DateTime(Dates.DateOf(t), Times.TimeOf(t))
  }

  /** The layouts ParseDateTime tries, in order: "2006-01-02T15:04",
      "2006-01-02T15:04:05", "2006-01-02 15:04:05", "2006-01-02 15:04". */
  const ClockT: Layout := Dates.DateLayout + [Lit('T')] + Times.ClockLayout
  const SecondsT: Layout := Dates.DateLayout + [Lit('T')] + Times.ClockLayout + Times.SecondsLayout
  const SecondsSpace: Layout := Dates.DateLayout + [Space] + Times.ClockLayout + Times.SecondsLayout
  const ClockSpace: Layout := Dates.DateLayout + [Space] + Times.ClockLayout

  const DtFormats: seq<Layout> := [ClockT, SecondsT, SecondsSpace, ClockSpace]

  /** The instant the first layout that parses `s` gives, if any. */
  function FirstSuccess(layouts: seq<Layout>, s: string): (r: Option<GoTime.Instant>)
    ensures r.Some? <==> exists i | 0 <= i < |layouts| :: Parse(layouts[i], s).Success?
    ensures r.Some? ==> exists i | 0 <= i < |layouts| :: Parse(layouts[i], s) == Success(r.value)
  {
    if layouts == [] then None
    else
      var p := Parse(layouts[0], s);
      if p.Success? then
        assert Parse(layouts[0], s) == Success(p.value);
        Some(p.value)
      else
        var r := FirstSuccess(layouts[1..], s);
        assert forall i | 1 <= i < |layouts| :: layouts[i] == layouts[1..][i - 1];
        r
  }

  /** ParseDateTime(s): try each layout in order and stop at the first that
      parses; if none does, the zero DateTime and the last layout's error. */
  method ParseDateTime(s: string) returns (dt: DateTime, err: Option<ParseError>)
    ensures FirstSuccess(DtFormats, s).Some? ==> dt == DateTimeOf(FirstSuccess(DtFormats, s).value) && err == None
    ensures FirstSuccess(DtFormats, s).None? ==> dt == Zero && err == Some(ParseError(ClockSpace))
  {
    var t := GoTime.ZeroInstant;
    err := None;
    var i := 0;
    while i < |DtFormats|
      invariant 0 <= i <= |DtFormats|
      invariant FirstSuccess(DtFormats, s) == FirstSuccess(DtFormats[i..], s)
      invariant i == 0 ==> err == None
      invariant i > 0 ==> err == Some(ParseError(DtFormats[i - 1]))
    {
      var p := Parse(DtFormats[i], s);
      t := InstantOf(p);
      if p.Success? {
        err := None;
        break;
      }
      err := Some(p.error);
      i := i + 1;
    }
    if err.Some? {
      return Zero, err;
    }
    return DateTimeOf(t), None;
  }

  /** dt.String(): the date, "T" and the time when both are valid, "" otherwise. */
  function String(dt: DateTime): (s: string)
    ensures IsAscii(s)
    ensures s == [] <==> !(dt.date.valid && dt.time.valid)
  {
    if dt.date.valid && dt.time.valid then Dates.String(dt.date) + "T" + Times.String(dt.time) else ""
  }

  /** dt.In(time.UTC): the instant of the date and time in UTC. */
  function InUTC(dt: DateTime): GoTime.Instant {
    GoTime.DateUTC(dt.date.year, dt.date.month, dt.date.day, dt.time.hour, dt.time.minute, 0, 0)
  }

  /** dt.Before(dt2): compare the UTC instants. */
  predicate Before(dt: DateTime, dt2: DateTime) {
    GoTime.Before(InUTC(dt), InUTC(dt2))
  }

  /** dt.MarshalText() */
  function MarshalText(dt: DateTime): seq<byte> {
    Bytes(String(dt))
  }

  /** dt.Value(): the string when date and time are valid, nil otherwise. */
  function Value(dt: DateTime): DriverValue {
    if dt.date.valid && dt.time.valid then Some(String(dt)) else None
  }

  /** A *DateTime: the target of UnmarshalText and Scan. */
  class DateTimeRef {
    var value: DateTime

    constructor (dt: DateTime)
      ensures value == dt
    {
      value := dt;
    }

    /** (*DateTime).UnmarshalText: store whatever ParseDateTime returns. */
    method UnmarshalText(data: seq<byte>) returns (err: Option<ParseError>)
      modifies this
      ensures var r := FirstSuccess(DtFormats, Text(data));
        if r.Some? then value == DateTimeOf(r.value) && err == None
        else value == Zero && err == Some(ParseError(ClockSpace))
    {
      value, err := ParseDateTime(Text(data));
    }

    /** (*DateTime).Scan: NULL changes nothing; bytes or a string are parsed
        and stored only when the parse succeeds; any other input is refused. */
    method Scan(v: ScanValue) returns (err: Option<Error>)
      modifies this
      ensures v.Nil? ==> value == old(value) && err == None
      ensures (v.BytesValue? || v.StringValue?) ==>
        var r := FirstSuccess(DtFormats, ScanText(v));
        if r.Some? then value == DateTimeOf(r.value) && err == None
        else value == old(value) && err == Some(ParseFailed(ParseError(ClockSpace)))
      ensures v.Other? ==> value == old(value) && err == Some(ConversionTypeError)
    {
      match v
      case Nil =>
        err := None;
      case BytesValue(b) =>
        var dt, e := ParseDateTime(Text(b));
        if e.Some? {
          return Some(ParseFailed(e.value));
        }
        value := dt;
        err := None;
      case StringValue(s) =>
        var dt, e := ParseDateTime(s);
        if e.Some? {
          return Some(ParseFailed(e.value));
        }
        value := dt;
        err := None;
      case Other =>
        err := Some(ConversionTypeError);
    }
  }

  // ---------------------------------------------------------------------
  // The text ParseDateTime accepts

  /** The text after the date: after a 'T', or after the run of spaces. */
  function TimePart(s: string): string
    requires |s| >= 11
  {
    if s[10] == 'T' then s[11..] else TrimSpaces(s[10..])
  }

  /** A date, a 'T' or spaces, and a time as ParseTime reads it; the day is
      not checked against its month yet. */
  predicate DateTimeSyntax(s: string) {
    && Dates.DatePrefix(s) && |s| >= 11
    && (s[10] == 'T' || s[10] == ' ')
    && Times.TimeText(TimePart(s))
  }

  /** The text ParseDateTime accepts. */
  predicate DateTimeText(s: string) {
    DateTimeSyntax(s) && Calendar.Canonical(Dates.PrefixFields(s))
  }

  /** The seconds written after the clock, 0 when there are none. */
  function SecondOf(t: string): int
    requires Times.TimeText(t)
  {
    var r := Times.ClockRest(t);
    if r == [] then 0 else Num(r[1..3])
  }

  /** The nanoseconds of the fraction after the seconds, 0 when there is none. */
  function NanosOf(t: string): int
    requires Times.TimeText(t)
  {
    var r := Times.ClockRest(t);
    if r == [] || FracLen(r[3..]) == 0 then 0 else FracNanos(r[3..])
  }

  /** The fields written in accepted text. */
  function WrittenFields(s: string): Fields
    requires DateTimeSyntax(s)
  {
    var c := Dates.PrefixFields(s);
    var t := TimePart(s);
    Fields(c.year, c.month, c.day, Times.ClockHour(t), Times.ClockMinute(t), SecondOf(t), NanosOf(t))
  }

  /** Which of the four layouts fits the text: the separator and whether
      seconds follow decide it. */
  function FormatOf(s: string): (i: nat)
    requires DateTimeSyntax(s)
    ensures i < |DtFormats|
  {
    var seconds := Times.ClockRest(TimePart(s)) != [];
    if s[10] == 'T' then (if seconds then 1 else 0) else (if seconds then 2 else 3)
  }

  /** The layout parts after the date: a separator, the clock, and seconds
      or nothing. */
  predicate TailShape(sep: Chunk, tail: Layout) {
    (sep == Lit('T') || sep == Space) && (tail == [] || tail == Times.SecondsLayout)
  }

  /** What a separator leaves of the text after the date, if it matches. */
  function AfterSep(sep: Chunk, r: string): Option<string>
    requires sep == Lit('T') || sep == Space
  {
    if |r| == 0 then None
    else if sep == Lit('T') then (if r[0] == 'T' then Some(r[1..]) else None)
    else if r[0] == ' ' then Some(TrimSpaces(r)) else None
  }

  /** The text after the separator fits the clock and the tail exactly. */
  predicate TailFits(tail: Layout, t: string) {
    Times.ClockPrefix(t) && (if tail == [] then Times.ClockRest(t) == [] else Times.SecondsText(Times.ClockRest(t)))
  }

  /** Consuming separator, clock and tail to the end of the text. */
  lemma ConsumeAfterDate(sep: Chunk, tail: Layout, r: string, f: Fields)
    requires TailShape(sep, tail) && InRange(f) && f.second == 0 && f.nsec == 0
    ensures var c := Consume([sep] + Times.ClockLayout + tail, r, f);
      && ((c.Some? && c.value.rest == []) <==> (AfterSep(sep, r).Some? && TailFits(tail, AfterSep(sep, r).value)))
      && (c.Some? && c.value.rest == [] ==>
            var t := AfterSep(sep, r).value;
            Times.TimeText(t) &&
            c.value.fields == f.(hour := Times.ClockHour(t), minute := Times.ClockMinute(t),
                                 second := SecondOf(t), nsec := NanosOf(t)))
  {
    var L := [sep] + Times.ClockLayout + tail;
    assert L[0] == sep && L[1..] == Times.ClockLayout + tail;
    var c0 := ChunkStep(sep, r, f);
    if c0.None? {
      return;
    }
    var t := c0.value.rest;
    assert c0.value.fields == f;
    if |r| == 0 {
      assert t == [] && !Times.ClockPrefix(t);
      Times.ConsumeClockLayout(t, f);
      ConsumeAppend(Times.ClockLayout, tail, t, f);
      return;
    }
    assert AfterSep(sep, r) == Some(t);
    Times.ConsumeClockLayout(t, f);
    ConsumeAppend(Times.ClockLayout, tail, t, f);
    if !Times.ClockPrefix(t) {
      return;
    }
    var g := f.(hour := Times.ClockHour(t), minute := Times.ClockMinute(t));
    var rest := Times.ClockRest(t);
    if tail == [] {
      assert Consume([], rest, g) == Some(Step(rest, g));
    } else {
      Times.ConsumeSecondsLayout(rest, g);
      if Times.SecondsPrefix(rest) {
        assert rest[3 + FracLen(rest[3..])..] == [] <==> 3 + FracLen(rest[3..]) == |rest|;
      }
    }
  }

  /** One layout of the four, stated directly: it parses `s` exactly when the
      text has its shape and names a day of the calendar, and then gives the
      instant of the written fields. */
  lemma ParseFormat(i: nat, s: string)
    requires i < |DtFormats|
    ensures Parse(DtFormats[i], s) ==
      if DateTimeText(s) && FormatOf(s) == i then
        var f := WrittenFields(s);
        Success(GoTime.DateUTC(f.year, f.month, f.day, f.hour, f.minute, f.second, f.nsec))
      else Failure(ParseError(DtFormats[i]))
  {
    var sep := if i < 2 then Lit('T') else Space;
    var tail := if i == 1 || i == 2 then Times.SecondsLayout else [];
    var L := DtFormats[i];
    assert L == Dates.DateLayout + ([sep] + Times.ClockLayout + tail);
    ConsumeAppend(Dates.DateLayout, [sep] + Times.ClockLayout + tail, s, Initial);
    Dates.ConsumeDateLayout(s, Initial);
    if !Dates.DatePrefix(s) {
      return;
    }
    var fd := Initial.(year := Num(s[..4]), month := Num(s[5..7]), day := Num(s[8..10]));
    var r := s[10..];
    ConsumeAfterDate(sep, tail, r, fd);
    if |s| >= 11 {
      assert r[0] == s[10] && r[1..] == s[11..];
      if s[10] == 'T' || s[10] == ' ' {
        assert AfterSep(sep, r).Some? ==> AfterSep(sep, r).value == TimePart(s);
      }
    }
  }

  /** Exactly the layout FormatOf names parses accepted text, and none
      parses anything else: at most one layout fits any text, so the order
      in which they are tried does not matter. */
  lemma OneFormatParses(s: string, i: nat)
    requires i < |DtFormats|
    ensures Parse(DtFormats[i], s).Success? <==> DateTimeText(s) && FormatOf(s) == i
  {
    ParseFormat(i, s);
  }

  /** The first layout that parses `s` gives the instant of the written
      fields; there is one exactly when the text is accepted. */
  lemma FirstSuccessSpec(s: string)
    ensures FirstSuccess(DtFormats, s) ==
      if DateTimeText(s) then
        var f := WrittenFields(s);
        Some(GoTime.DateUTC(f.year, f.month, f.day, f.hour, f.minute, f.second, f.nsec))
      else None
  {
    var D := DtFormats;
    FirstSuccessUnroll(D, s);
    if DateTimeText(s) {
      var k := FormatOf(s);
      var f := WrittenFields(s);
      var t := GoTime.DateUTC(f.year, f.month, f.day, f.hour, f.minute, f.second, f.nsec);
      ParseFormat(k, s);
      assert Parse(D[k], s) == Success(t);
      forall j | 0 <= j < k
        ensures Parse(D[j], s).Failure?
      {
        OneFormatParses(s, j);
      }
      if k == 0 {
      } else if k == 1 {
        assert Parse(D[0], s).Failure?;
      } else if k == 2 {
        assert Parse(D[0], s).Failure? && Parse(D[1], s).Failure?;
      } else {
        assert Parse(D[0], s).Failure? && Parse(D[1], s).Failure? && Parse(D[2], s).Failure?;
      }
    } else {
      OneFormatParses(s, 0);
      OneFormatParses(s, 1);
      OneFormatParses(s, 2);
      OneFormatParses(s, 3);
    }
  }

  /** FirstSuccess over four layouts, spelt out. */
  lemma FirstSuccessUnroll(D: seq<Layout>, s: string)
    requires |D| == 4
    ensures FirstSuccess(D, s) ==
      if Parse(D[0], s).Success? then Some(Parse(D[0], s).value)
      else if Parse(D[1], s).Success? then Some(Parse(D[1], s).value)
      else if Parse(D[2], s).Success? then Some(Parse(D[2], s).value)
      else if Parse(D[3], s).Success? then Some(Parse(D[3], s).value)
      else None
  {
    var D1 := D[1..];
    var D2 := D1[1..];
    var D3 := D2[1..];
    assert D1[0] == D[1] && D2[0] == D[2] && D3[0] == D[3] && D3[1..] == [];
    assert FirstSuccess(D3, s) == if Parse(D[3], s).Success? then Some(Parse(D[3], s).value) else None;
    assert FirstSuccess(D2, s) == if Parse(D[2], s).Success? then Some(Parse(D[2], s).value) else FirstSuccess(D3, s);
    assert FirstSuccess(D1, s) == if Parse(D[1], s).Success? then Some(Parse(D[1], s).value) else FirstSuccess(D2, s);
  }

  /** What ParseDateTime returns on accepted text: the written date and
      hour and minute, both valid unless the text names 0001-01-01 00:00:00
      with no fraction. */
  lemma DateTimeOfWritten(s: string)
    requires DateTimeText(s)
    ensures var f := WrittenFields(s);
      var valid := !(Dates.PrefixFields(s) == Calendar.Civil(1, 1, 1) && f.hour == 0 && f.minute == 0 && f.second == 0 && f.nsec == 0);
      DateTimeOf(GoTime.DateUTC(f.year, f.month, f.day, f.hour, f.minute, f.second, f.nsec))
        == DateTime(Dates.Date(f.year, f.month, f.day, valid), Times.Time(f.hour, f.minute, valid))
  {
    var f := WrittenFields(s);
    var t := TimePart(s);
    NanosRange(t);
    Dates.DateOfFields(Dates.PrefixFields(s), f.hour, f.minute, f.second, f.nsec);
    Times.TimeOfFields(f.year, f.month, f.day, f.hour, f.minute, f.second, f.nsec);
  }

  /** The written hour, minute, second and nanoseconds lie in their ranges. */
  lemma NanosRange(t: string)
    requires Times.TimeText(t)
    ensures 0 <= Times.ClockHour(t) < 24 && 0 <= Times.ClockMinute(t) < 60
    ensures 0 <= SecondOf(t) < 60 && 0 <= NanosOf(t) < GoTime.NanosPerSecond
  {
  }

  /** ParseDateTime, stated directly. */
  lemma ParseDateTimeSpec(s: string)
    ensures var r := FirstSuccess(DtFormats, s);
      (r.Some? <==> DateTimeText(s))
      && (r.Some? ==>
            var f := WrittenFields(s);
            var valid := !(Dates.PrefixFields(s) == Calendar.Civil(1, 1, 1) && f.hour == 0 && f.minute == 0 && f.second == 0 && f.nsec == 0);
            DateTimeOf(r.value) == DateTime(Dates.Date(f.year, f.month, f.day, valid), Times.Time(f.hour, f.minute, valid)))
  {
    FirstSuccessSpec(s);
    if DateTimeText(s) {
      DateTimeOfWritten(s);
    }
  }

  // ---------------------------------------------------------------------
  // Round trip

  /** A valid canonical DateTime with a four-digit year and an in-range time,
      other than 0001-01-01T00:00, formats to text ParseDateTime reads back
      as itself, through its first layout. */
  lemma ParseDateTimeString(dt: DateTime)
    requires dt.date.valid && dt.time.valid
    requires Calendar.Canonical(Dates.Fields(dt.date)) && 0 <= dt.date.year <= 9999 && Times.InDay(dt.time)
    requires !(Dates.Fields(dt.date) == Calendar.Civil(1, 1, 1) && dt.time.hour == 0 && dt.time.minute == 0)
    ensures FirstSuccess(DtFormats, String(dt)) == Some(InUTC(dt))
    ensures DateTimeOf(InUTC(dt)) == dt
  {
    var ds, ts := Dates.String(dt.date), Times.String(dt.time);
    assert String(dt) == ds + "T" + ts;
    assert ts + SecondsSuffix(None) == ts;
    assert ds + "T" + ts == ds + (['T'] + ts);
    ParseComposed(dt, 'T', None);
  }

  /** The text the four layouts describe, written from a DateTime: the
      date, a 'T' or a space, the clock, and optionally ":SS". */
  function Composed(dt: DateTime, sep: char, sec: Option<int>): string
    requires dt.date.valid && dt.time.valid
  {
    Dates.String(dt.date) + ([sep] + (Times.String(dt.time) + SecondsSuffix(sec)))
  }

  /** What may follow the clock: ":SS", or nothing. */
  function SecondsSuffix(sec: Option<int>): string {
    if sec.Some? then ":" + PadInt(sec.value, 2) else ""
  }

  /** A formatted date followed by anything is read back as that date. */
  lemma DateThenRest(d: Dates.Date, rest: string)
    requires d.valid && Calendar.Canonical(Dates.Fields(d)) && 0 <= d.year <= 9999
    ensures var s := Dates.String(d) + rest;
      |Dates.String(d)| == 10 && Dates.DatePrefix(s) && Dates.PrefixFields(s) == Dates.Fields(d) && s[10..] == rest
  {
    var ds := Dates.String(d);
    var s := ds + rest;
    PadIntExact(d.year, 4);
    PadIntExact(d.month, 2);
    PadIntExact(d.day, 2);
    Dates.DateStringParts(PadInt(d.year, 4), PadInt(d.month, 2), PadInt(d.day, 2));
    assert s[..4] == ds[..4] && s[5..7] == ds[5..7] && s[8..10] == ds[8..10] && s[4] == ds[4] && s[7] == ds[7];
  }

  /** A formatted time followed by seconds or nothing is time text, read back
      with its hour, minute and seconds and no fraction. */
  lemma TimeThenSeconds(tm: Times.Time, sec: Option<int>)
    requires tm.valid && Times.InDay(tm)
    requires sec.Some? ==> 0 <= sec.value < 60
    ensures var t := Times.String(tm) + SecondsSuffix(sec);
      && Times.TimeText(t) && Times.ClockHour(t) == tm.hour && Times.ClockMinute(t) == tm.minute
      && SecondOf(t) == (if sec.Some? then sec.value else 0) && NanosOf(t) == 0
      && |t| > 0 && IsDigit(t[0])
  {
    var ts := Times.String(tm);
    var tail := SecondsSuffix(sec);
    var t := ts + tail;
    PadIntExact(tm.hour, 2);
    PadIntExact(tm.minute, 2);
    Times.TimeStringParts(PadInt(tm.hour, 2), PadInt(tm.minute, 2));
    assert t[..2] == ts[..2] && t[2] == ':' && t[3..5] == ts[3..5] && t[5..] == tail;
    assert Times.HourWidth(t) == 2;
    if sec.Some? {
      PadIntExact(sec.value, 2);
      assert tail[1..3] == PadInt(sec.value, 2) && tail[3..] == [];
    }
  }

  /** Composed text is accepted, and its written fields are the DateTime's
      with the seconds given. */
  lemma ComposedIsText(dt: DateTime, sep: char, sec: Option<int>)
    requires dt.date.valid && dt.time.valid
    requires Calendar.Canonical(Dates.Fields(dt.date)) && 0 <= dt.date.year <= 9999 && Times.InDay(dt.time)
    requires sep == 'T' || sep == ' '
    requires sec.Some? ==> 0 <= sec.value < 60
    ensures var s := Composed(dt, sep, sec);
      && DateTimeText(s)
      && Dates.PrefixFields(s) == Dates.Fields(dt.date)
      && WrittenFields(s) == Fields(dt.date.year, dt.date.month, dt.date.day, dt.time.hour, dt.time.minute,
                                    if sec.Some? then sec.value else 0, 0)
  {
    var ds := Dates.String(dt.date);
    var t := Times.String(dt.time) + SecondsSuffix(sec);
    var s := Composed(dt, sep, sec);
    DateThenRest(dt.date, [sep] + t);
    TimeThenSeconds(dt.time, sec);
    TimePartAfter(ds, sep, t);
    Assemble(s, t, dt, if sec.Some? then sec.value else 0);
  }

  /** The text after a ten-character date and a separator. */
  lemma TimePartAfter(ds: string, sep: char, t: string)
    requires |ds| == 10 && (sep == 'T' || sep == ' ') && |t| > 0 && t[0] != ' '
    ensures var s := ds + ([sep] + t); |s| >= 11 && s[10] == sep && TimePart(s) == t
  {
    var s := ds + ([sep] + t);
    assert s[10..] == [sep] + t && s[11..] == t;
    if sep == ' ' {
      assert s[10..][1..] == t && TrimSpaces(t) == t;
      assert TrimSpaces(s[10..]) == TrimSpaces(t);
    }
  }

  /** Accepted text from its parts. */
  lemma Assemble(s: string, t: string, dt: DateTime, sec: int)
    requires Dates.DatePrefix(s) && Dates.PrefixFields(s) == Dates.Fields(dt.date)
    requires Calendar.Canonical(Dates.Fields(dt.date))
    requires |s| >= 11 && (s[10] == 'T' || s[10] == ' ') && TimePart(s) == t
    requires Times.TimeText(t) && Times.ClockHour(t) == dt.time.hour && Times.ClockMinute(t) == dt.time.minute
    requires SecondOf(t) == sec && NanosOf(t) == 0
    ensures DateTimeText(s) && Dates.PrefixFields(s) == Dates.Fields(dt.date)
    ensures WrittenFields(s) == Fields(dt.date.year, dt.date.month, dt.date.day, dt.time.hour, dt.time.minute, sec, 0)
  {
  }

  /** Every layout reads its own form of a DateTime back: a 'T' or spaces,
      with or without seconds; the seconds are kept in the instant and
      dropped by DateTimeOf. */
  lemma ParseComposed(dt: DateTime, sep: char, sec: Option<int>)
    requires dt.date.valid && dt.time.valid
    requires Calendar.Canonical(Dates.Fields(dt.date)) && 0 <= dt.date.year <= 9999 && Times.InDay(dt.time)
    requires sep == 'T' || sep == ' '
    requires sec.Some? ==> 0 <= sec.value < 60
    requires !(Dates.Fields(dt.date) == Calendar.Civil(1, 1, 1) && dt.time.hour == 0 && dt.time.minute == 0 && (sec.None? || sec.value == 0))
    ensures var r := FirstSuccess(DtFormats, Composed(dt, sep, sec));
      && r == Some(GoTime.DateUTC(dt.date.year, dt.date.month, dt.date.day, dt.time.hour, dt.time.minute,
                                  if sec.Some? then sec.value else 0, 0))
      && DateTimeOf(r.value) == dt
  {
    var s := Composed(dt, sep, sec);
    ComposedIsText(dt, sep, sec);
    FirstSuccessSpec(s);
    DateTimeOfWritten(s);
  }

  /** Marshalling to text and unmarshalling gives such a DateTime back. */
  lemma TextRoundTrip(dt: DateTime)
    requires dt.date.valid && dt.time.valid
    requires Calendar.Canonical(Dates.Fields(dt.date)) && 0 <= dt.date.year <= 9999 && Times.InDay(dt.time)
    requires !(Dates.Fields(dt.date) == Calendar.Civil(1, 1, 1) && dt.time.hour == 0 && dt.time.minute == 0)
    ensures var r := FirstSuccess(DtFormats, Text(MarshalText(dt))); r.Some? && DateTimeOf(r.value) == dt
  {
    ParseDateTimeString(dt);
  }

  /** Value is nil exactly when the date or the time is invalid. */
  lemma ValueNil(dt: DateTime)
    ensures Value(dt).None? <==> !(dt.date.valid && dt.time.valid)
    ensures Value(dt).Some? ==> Value(dt).value == Dates.String(dt.date) + "T" + Times.String(dt.time)
  {
  }

  /** DateTimeOf reads back the fields of In(time.UTC) of a canonical
      DateTime; both flags come out valid unless it is 0001-01-01 00:00. */
  lemma DateTimeOfInUTC(dt: DateTime)
    requires Calendar.Canonical(Dates.Fields(dt.date)) && Times.InDay(dt.time)
    ensures var valid := !(Dates.Fields(dt.date) == Calendar.Civil(1, 1, 1) && dt.time.hour == 0 && dt.time.minute == 0);
      DateTimeOf(InUTC(dt)) == DateTime(dt.date.(valid := valid), dt.time.(valid := valid))
  {
    Dates.DateOfFields(Dates.Fields(dt.date), dt.time.hour, dt.time.minute, 0, 0);
    Times.TimeOfFields(dt.date.year, dt.date.month, dt.date.day, dt.time.hour, dt.time.minute, 0, 0);
  }

  // ---------------------------------------------------------------------
  // Ordering

  /** Minutes since 0001-01-01 00:00 of the fields, as time.Date counts them. */
  function Stamp(dt: DateTime): int {
    Dates.DayIndex(dt.date) * 1440 + dt.time.hour * 60 + dt.time.minute
  }

  /** The UTC instant of a DateTime is its stamp in seconds, shifted to the
      Unix epoch, with no nanoseconds. */
  lemma InUTCStamp(dt: DateTime)
    ensures InUTC(dt) == GoTime.Instant(Stamp(dt) * 60 - GoTime.UnixEpochDay * GoTime.SecondsPerDay, 0)
  {
    Arith.DivUnique(0, GoTime.NanosPerSecond, 0, 0);
  }

  /** Before compares the stamps, for any fields: it is a strict order. */
  lemma BeforeIsStampOrder(a: DateTime, b: DateTime)
    ensures Before(a, b) <==> Stamp(a) < Stamp(b)
  {
    InUTCStamp(a);
    InUTCStamp(b);
  }

  lemma BeforeIsStrictOrder(a: DateTime, b: DateTime, c: DateTime)
    ensures !Before(a, a)
    ensures Before(a, b) ==> !Before(b, a)
    ensures Before(a, b) && Before(b, c) ==> Before(a, c)
  {
    BeforeIsStampOrder(a, a);
    BeforeIsStampOrder(a, b);
    BeforeIsStampOrder(b, a);
    BeforeIsStampOrder(b, c);
    BeforeIsStampOrder(a, c);
  }

  /** On canonical dates and in-range times, Before is the order of the date,
      then of the time of day. */
  lemma BeforeIsLexicographic(a: DateTime, b: DateTime)
    requires Calendar.Canonical(Dates.Fields(a.date)) && Calendar.Canonical(Dates.Fields(b.date))
    requires Times.InDay(a.time) && Times.InDay(b.time)
    ensures Before(a, b) <==>
      Dates.Before(a.date, b.date) || (Dates.Fields(a.date) == Dates.Fields(b.date) && Times.Before(a.time, b.time))
  {
    BeforeIsStampOrder(a, b);
    Dates.BeforeIsDayOrder(a.date, b.date);
    Dates.BeforeIsDayOrder(b.date, a.date);
    Dates.DaysSinceIsDayDifference(b.date, a.date);
    Times.OrderIsMinutes(a.time, b.time);
    if Dates.DayIndex(a.date) == Dates.DayIndex(b.date) {
      Calendar.DayNumberInjective(Dates.Fields(a.date), Dates.Fields(b.date));
    }
  }

  // ---------------------------------------------------------------------
  // Refused text: the refusals among the package's own parse cases,
  // stated for every text of their kind

  /** A date alone is refused. */
  lemma DateAloneRefused(s: string)
    requires |s| <= 10
    ensures FirstSuccess(DtFormats, s).None?
  {
    ParseDateTimeSpec(s);
  }

  /** Only 'T' and a space separate date and time: "2016-03-22-13:26:33"
      is refused, and so is a lower-case 't'. */
  lemma SeparatorRefused(s: string)
    requires |s| >= 11 && s[10] != 'T' && s[10] != ' '
    ensures FirstSuccess(DtFormats, s).None?
  {
    ParseDateTimeSpec(s);
  }

  /** Text after the seconds that is not a fraction is refused, as in
      "2016-03-22T13:26:33x". */
  lemma TrailingTextRefused(s: string)
    requires |s| >= 11 && Times.ClockPrefix(TimePart(s))
    requires var r := Times.ClockRest(TimePart(s)); |r| >= 4 && r[3] != '.' && r[3] != ','
    ensures FirstSuccess(DtFormats, s).None?
  {
    var r := Times.ClockRest(TimePart(s));
    assert r[3..][0] == r[3] && FracLen(r[3..]) == 0;
    ParseDateTimeSpec(s);
  }

  // ---------------------------------------------------------------------
  // Worked cases

  /** The parse cases of the package's own tests: "2019-08-22T13:26:33" is
      read as 2019-08-22 13:26, both halves valid, the seconds dropped. */
  lemma ParseDateTimeCase()
    ensures var r := FirstSuccess(DtFormats, "2019-08-22T13:26:33");
      r.Some? && DateTimeOf(r.value) == DateTime(Dates.Date(2019, 8, 22, true), Times.Time(13, 26, true))
  {
    var dt := DateTime(Dates.Date(2019, 8, 22, true), Times.Time(13, 26, true));
    CaseText(dt);
    ParseComposed(dt, 'T', Some(33));
  }

  lemma CaseText(dt: DateTime)
    requires dt == DateTime(Dates.Date(2019, 8, 22, true), Times.Time(13, 26, true))
    ensures Composed(dt, 'T', Some(33)) == "2019-08-22T13:26:33"
  {
    CaseDateText();
    CaseTimeText();
  }

  lemma CaseDateText()
    ensures Dates.String(Dates.Date(2019, 8, 22, true)) == "2019-08-22"
  {
    assert Decimal.Decimal(2019) == "2019" && Decimal.Decimal(8) == "8" && Decimal.Decimal(22) == "22";
  }

  lemma CaseTimeText()
    ensures Times.String(Times.Time(13, 26, true)) + SecondsSuffix(Some(33)) == "13:26:33"
  {
    assert Decimal.Decimal(13) == "13" && Decimal.Decimal(26) == "26" && Decimal.Decimal(33) == "33";
  }

  /** The empty string and a date alone are refused. */
  lemma ParseDateTimeShortCases()
    ensures FirstSuccess(DtFormats, "").None?
    ensures FirstSuccess(DtFormats, "2016-03-22").None?
  {
    DateAloneRefused("");
    DateAloneRefused("2016-03-22");
  }

  /** A '-' between date and time is refused. */
  lemma ParseDateTimeSeparatorCase()
    ensures FirstSuccess(DtFormats, "2016-03-22-13:26:33").None?
  {
    var s := "2016-03-22-13:26:33";
    assert s[10] == '-';
    SeparatorRefused(s);
  }

  /** A trailing 'x' after the seconds is refused. */
  lemma ParseDateTimeTrailingCase()
    ensures FirstSuccess(DtFormats, "2016-03-22T13:26:33x").None?
  {
    var s := "2016-03-22T13:26:33x";
    var t := "13:26:33x";
    assert TimePart(s) == t by {
      assert s[10] == 'T' && s[11..] == t;
    }
    assert Times.ClockPrefix(t) && Times.ClockRest(t) == ":33x" by {
      assert t[..2] == "13" && t[3..5] == "26" && t[5..] == ":33x";
      assert Num("13") == 13 && Num("26") == 26 by {
        assert "13"[..1] == "1" && "26"[..1] == "2" && "1"[..0] == "" && "2"[..0] == "";
      }
    }
    TrailingTextRefused(s);
  }
}
