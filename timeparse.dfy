/** Go's time.Parse(layout, value) for the layout elements the civil types use.
    A layout is given already split into the elements Go's nextStdChunk finds
    in it; each element consumes a prefix of the value and may set a field,
    exactly as the corresponding case of Go's parse loop does. When the layout
    is used up the value must be too, then missing fields take their defaults,
    the day is checked against its month, and the fields become an instant
    with time.Date in UTC. */
module TimeParse {

  import opened Wrappers
  import Arith
  import Calendar
  import GoTime
  import opened Decimal

  /** A layout element. */
  datatype Chunk =
    | LongYear      // "2006": exactly four digits
    | ZeroMonth     // "01": exactly two digits, 1..12
    | ZeroDay       // "02": exactly two digits; checked against the month at the end
    | Hour          // "15": one or two digits, 0..23
    | ZeroMinute    // "04": exactly two digits, 0..59
    | ZeroSecond    // "05": exactly two digits, 0..59, then an optional fraction
    | Lit(c: char)  // a literal character other than a space, matched exactly
    | Space         // a space: matches a run of spaces

  type Layout = seq<Chunk>

  /** time.ParseError; only the layout that failed is kept. */
  datatype ParseError = ParseError(layout: Layout)

  /** The fields the parse loop fills in. */
  datatype Fields = Fields(year: int, month: int, day: int, hour: int, minute: int, second: int, nsec: int)

  /** Their values before parsing: month and day -1 stand for "not given". */
  const Initial := Fields(0, -1, -1, 0, 0, 0, 0)

  /** The ranges every field keeps while parsing. */
  predicate InRange(f: Fields) {
    && 0 <= f.year <= 9999
    && (f.month == -1 || 1 <= f.month <= 12)
    && -1 <= f.day <= 99
    && 0 <= f.hour < 24 && 0 <= f.minute < 60 && 0 <= f.second < 60
    && 0 <= f.nsec < GoTime.NanosPerSecond
  }

  /** What is left of the value after an element, and the fields so far. */
  datatype Step = Step(rest: string, fields: Fields)

  /** getnum(s, fixed): two digits, or with `fixed` false a single digit not
      followed by another. */
  function GetNum(s: string, fixed: bool): (r: Option<(int, string)>)
    ensures r.Some? ==> 0 <= r.value.0 < 100 && |r.value.1| < |s|
  {
    if |s| == 0 || !IsDigit(s[0]) then None
    else if |s| < 2 || !IsDigit(s[1]) then
      (if fixed then None else Some((DigitValue(s[0]), s[1..])))
    else
      assert AllDigits(s[..2]);
      NumBound(s[..2]);
      Some((Num(s[..2]), s[2..]))
  }

  /** cutspace: drop the leading spaces. */
  function TrimSpaces(s: string): (r: string)
    ensures |r| <= |s| && (r == [] || r[0] != ' ')
  {
    if s != [] && s[0] == ' ' then TrimSpaces(s[1..]) else s
  }

  /** The length of a fraction of a second at the start of `s`: a period or a
      comma followed by at least one digit, then every digit after it; 0 when
      there is none. */
  function FracLen(s: string): (n: nat)
    ensures n <= |s|
  {
    if |s| >= 2 && (s[0] == '.' || s[0] == ',') && IsDigit(s[1]) then 1 + DigitRun(s[1..]) else 0
  }

  /** parseNanoseconds: the first nine digits of the fraction, scaled to
      nanoseconds; later digits are consumed and ignored. */
  function FracNanos(s: string): (ns: int)
    ensures 0 <= ns < GoTime.NanosPerSecond
  {
    var n := FracLen(s);
    if n == 0 then 0
    else
      var nbytes := if n > 10 then 10 else n;
      assert AllDigits(s[1..nbytes]) by {
        assert s[1..nbytes] == s[1..][..DigitRun(s[1..])][..nbytes - 1];
      }
      NanosBound(s[1..nbytes]);
      Num(s[1..nbytes]) * Pow10(10 - nbytes)
  }

  lemma NanosBound(digits: string)
    requires AllDigits(digits) && 1 <= |digits| <= 9
    ensures 0 <= Num(digits) * Pow10(9 - |digits|) < GoTime.NanosPerSecond
  {
    var k := |digits|;
    NumBound(digits);
    Pow10Add(k, 9 - k);
    assert Pow10(k) * Pow10(9 - k) == Pow10(9) == GoTime.NanosPerSecond;
    Arith.MulStrict(Num(digits), Pow10(k), Pow10(9 - k));
  }

  lemma {:induction false} Pow10Add(a: nat, b: nat)
    ensures Pow10(a + b) == Pow10(a) * Pow10(b)
  {
    if a > 0 {
      Pow10Add(a - 1, b);
      assert Pow10(a) * Pow10(b) == 10 * (Pow10(a - 1) * Pow10(b));
    }
  }

  /** One element of the parse loop. */
  function ChunkStep(c: Chunk, v: string, f: Fields): (r: Option<Step>)
    requires InRange(f)
    ensures r.Some? ==> InRange(r.value.fields) && |r.value.rest| <= |v|
  {
    match c
    case LongYear =>
      if |v| >= 4 && AllDigits(v[..4]) then
        NumBound(v[..4]);
        Some(Step(v[4..], f.(year := Num(v[..4]))))
      else None
    case ZeroMonth =>
      (match GetNum(v, true)
       case None => None
       case Some((m, rest)) => if m <= 0 || 12 < m then None else Some(Step(rest, f.(month := m))))
    case ZeroDay =>
      (match GetNum(v, true)
       case None => None
       case Some((d, rest)) => Some(Step(rest, f.(day := d))))
    case Hour =>
      (match GetNum(v, false)
       case None => None
       case Some((h, rest)) => if h < 0 || 24 <= h then None else Some(Step(rest, f.(hour := h))))
    case ZeroMinute =>
      (match GetNum(v, true)
       case None => None
       case Some((m, rest)) => if m < 0 || 60 <= m then None else Some(Step(rest, f.(minute := m))))
    case ZeroSecond =>
      (match GetNum(v, true)
       case None => None
       case Some((s, rest)) =>
         if s < 0 || 60 <= s then None
         else Some(Step(rest[FracLen(rest)..], f.(second := s, nsec := if FracLen(rest) == 0 then f.nsec else FracNanos(rest)))))
    case Lit(ch) =>
      if |v| > 0 && v[0] == ch then Some(Step(v[1..], f)) else None
    case Space =>
      if |v| > 0 && v[0] != ' ' then None else Some(Step(TrimSpaces(v), f))
  }

  /** The parse loop over a whole layout; the rest of the value is returned. */
  function Consume(layout: Layout, v: string, f: Fields): (r: Option<Step>)
    requires InRange(f)
    ensures r.Some? ==> InRange(r.value.fields)
  {
    if layout == [] then Some(Step(v, f))
    else
      match ChunkStep(layout[0], v, f)
      case None => None
      case Some(st) => Consume(layout[1..], st.rest, st.fields)
  }

  /** time.Parse(layout, value) in UTC. On failure Go also returns the zero
      time, which callers see as GoTime.ZeroInstant. */
  function Parse(layout: Layout, value: string): (r: Result<GoTime.Instant, ParseError>)
    ensures r.Failure? ==> r.error == ParseError(layout)
  {
    match Consume(layout, value, Initial)
    case None => Failure(ParseError(layout))
    case Some(st) =>
      if st.rest != [] then Failure(ParseError(layout))
      else
        var f := st.fields;
        var month := if f.month < 0 then 1 else f.month;
        var day := if f.day < 0 then 1 else f.day;
        if day < 1 || day > Calendar.DaysIn(f.year, month) then Failure(ParseError(layout))
        else Success(GoTime.DateUTC(f.year, month, day, f.hour, f.minute, f.second, f.nsec))
  }

  /** The time.Parse result as Go hands it back: the zero time on failure. */
  function InstantOf(r: Result<GoTime.Instant, ParseError>): GoTime.Instant {
    if r.Success? then r.value else GoTime.ZeroInstant
  }

  /** Parsing a layout made of two parts parses the first, then the second on
      what is left. */
  lemma {:induction false} ConsumeAppend(a: Layout, b: Layout, v: string, f: Fields)
    requires InRange(f)
    ensures Consume(a + b, v, f) ==
      match Consume(a, v, f)
      case None => None
      case Some(st) => Consume(b, st.rest, st.fields)
    decreases |a|
  {
    if a == [] {
      assert a + b == b;
    } else {
      assert (a + b)[0] == a[0];
      assert (a + b)[1..] == a[1..] + b;
      match ChunkStep(a[0], v, f)
      case None =>
      case Some(st) => ConsumeAppend(a[1..], b, st.rest, st.fields);
    }
  }
}
