# dt — civil dates, times of day and date-times, in Dafny

The Go package `dt` provides three value types for database and JSON work:

- `Date`: year, month, day and a `Valid` flag.
- `Time`: hour, minute and a `Valid` flag.
- `DateTime`: a `Date` and a `Time` together.

Each type has the same set of operations:

- a constructor from a Go `time.Time` (`DateOf`, `TimeOf`, `DateTimeOf`);
- a parser (`ParseDate`, `ParseTime`, `ParseDateTime`) built on Go's `time.Parse` with fixed layouts;
- a printer (`String`);
- conversions back to `time.Time`;
- day arithmetic for dates, minute arithmetic for times, and orderings;
- the text and SQL driver hooks `MarshalText`, `UnmarshalText`, `Value` and `Scan`.

This project models all of that in Dafny. The package leans on Go's `time` package, so the model includes the parts of it the package uses, rebuilt from first principles:

- `Calendar`: the proleptic Gregorian calendar. Days are numbered from 0001-01-01, which is day 0. The module has an inverse `CivilFromDays` and proves that day numbers are ordered and injective.
- `GoTime`: an instant in UTC, as Unix seconds and nanoseconds.
  - `DateUTC` is `time.Date` with its normalisation of out-of-range fields.
  - `CivilOf` and `Clock` are `t.Date()` and `t.Clock()`.
  - The module also has `AddDate`, `Before` and `IsZero`. The zero time is 0001-01-01 00:00:00 UTC.
- `TimeParse`: `time.Parse` as an interpreter over a layout that has already been split into chunks. The chunks used are:
  - `2006`: four digits;
  - `01`, `02`, `04`, `05`: exactly two digits;
  - `15`: one or two digits;
  - a literal byte;
  - a run of spaces;
  - an optional fraction after the seconds, introduced by `.` or `,`.

  Values are range-checked and the day is checked against the month length. A missing month or day defaults to 1. Trailing text is an error.
- `Decimal`: digit strings and zero-padded printing (`%02d`, `%04d`).
- `Driver`: byte strings, the `driver.Value` result and the values `Scan` accepts.
- `Arith`: Go's integer division, which truncates toward zero, and Euclidean-division facts.

`Dates`, `Times` and `DateTimes` model `date.go`, `time.go` and `datetime.go`:

- Value types are datatypes.
- `UnmarshalText` and `Scan`, which Go declares on `*Date`, `*Time` and `*DateTime`, are methods of the classes `DateRef`, `TimeRef` and `DateTimeRef`. Each class holds the one value those methods overwrite.
- `ParseDateTime` keeps its loop over the four layouts. It is a method proved against the specification function `FirstSuccess`.

## Model

| member | source | states |
|---|---|---|
| Dates.DateOf | date.go:36-40 | the date read off an instant is a real calendar date, and it is valid exactly when the instant is not Go's zero time |
| Dates.DateOfFields | date.go:36-40 | the date of the instant built from a calendar date and an in-range clock is that calendar date; only 0001-01-01 00:00:00.000000000 comes out invalid |
| Dates.ParseDate | date.go:43-49 | when parsing fails, the zero Date is returned with the error |
| Dates.ParseDateSpec | date.go:43-49 | the reference characterisation. Parsing succeeds exactly for text of the form `DDDD-DD-DD` naming a real date (month 1-12, day within the month). The result carries those fields and is valid unless the date is 0001-01-01. Any other text gives the zero Date and an error naming the layout |
| Dates.ConsumeDateLayout | date.go:44 | reading the layout "2006-01-02" consumes exactly ten characters `DDDD-DD-DD` whose month and day are in range, and stores the three numbers; anything else fails |
| Dates.ParseZeroDate | date.go:43-49 | "0001-01-01" parses without error but yields an invalid Date, because it is Go's zero time |
| Dates.String | date.go:52-57 | the text is ASCII, and it is empty exactly when the Date is invalid |
| Dates.ParseDateString | date.go:52-57 | parsing what `String` prints gives back the same valid Date, for every year 0-9999 except 0001-01-01 |
| Dates.TextRoundTrip | date.go:106-119 | `UnmarshalText` of `MarshalText(d)` succeeds and restores `d` |
| Dates.ValueRoundTrip | date.go:122-127 | `Value` is nil exactly for invalid dates; otherwise its text parses back to the same Date |
| Dates.InUTCIsMidnight | date.go:69-71 | `In(UTC)` is midnight of the date's day: whole days since the Unix epoch times 86400, with no nanoseconds |
| Dates.ToTimeIsMidnight | date.go:100-102 | `ToTime` equals `In(UTC)`, falls on the date itself and reads 00:00:00 |
| Dates.AddDaysSpec | date.go:75-77 | `AddDays` gives a real date exactly `n` days later (earlier for negative `n`). The result is valid unless it is day 0, whatever the validity of the input |
| Dates.DaysSinceIsDayDifference | date.go:81-86 | `DaysSince` is the difference of the two day numbers, with Go's truncating division applied to whole days |
| Dates.AddDaysDaysSince | date.go:79-86 | `DaysSince` is the inverse of `AddDays`: `AddDays(d, n).DaysSince(d) == n` for every `n` |
| Dates.DaysSinceAntisymmetric | date.go:81-86 | a date is 0 days from itself, and swapping the arguments negates the result |
| Dates.AddDaysTwice | date.go:75-77 | adding `a` days then `b` days is adding `a + b` days |
| Dates.AddZeroDays | date.go:75-77 | adding zero days leaves a real date unchanged, except that its validity is recomputed |
| Dates.AddDaysTo | date.go:75-77 | any real date `n` days on from `d`, with validity computed as Go does, is `AddDays(d, n)` |
| Dates.WholeYear | date.go:75-86 | for years from 1 on (at year 0 the next day is 0001-01-01, which comes out invalid), from January 1st, adding the length of the year reaches January 1st of the next year, and `DaysSince` counts the same days back |
| Dates.YearBoundary | date.go:75-77 | for years from 1 on (at year 0 the next day is 0001-01-01, which comes out invalid), one day after December 31st is January 1st of the next year, and one day before is back |
| Dates.YearZeroBoundary | date.go:36-40 | one day after 0000-12-31 is 0001-01-01 marked invalid, because that instant is Go's zero time |
| Dates.MonthBoundary | date.go:75-77 | for January to November of years from 1 on, one day after the last day of the month is the first day of the next month |
| Dates.YearBoundaryCase | date_test.go:151-162 | 2014-12-31 plus 1 day is 2015-01-01, and 2015-01-01 minus 1 day is 2014-12-31 |
| Dates.LeapYearCase | date_test.go:163-168 | 2004-01-01 plus 366 days is 2005-01-01 |
| Dates.CommonYearCase | date_test.go:169-186 | 2001-01-01 plus 365 days is 2002-01-01, and 0102-01-01 is 365 days after 0101-01-01 |
| Dates.LeapSecondCase | date_test.go:175-180 | 1972-06-30 plus 1 day is 1972-07-01; leap seconds play no part |
| Dates.BeforeIsStrictOrder | date.go:89-97 | `Before` is irreflexive, asymmetric, transitive and total on distinct (year, month, day) |
| Dates.BeforeIsDayOrder | date.go:88-97 | for real dates, `Before` agrees with `DaysSince` being positive |
| Dates.ParseDateCase | date_test.go:38-42 | "2016-01-02" parses to 2016-01-02, valid |
| Dates.ParseOldDateCase | date_test.go:43-47 | "0003-02-04" parses to 0003-02-04, valid |
| Dates.ParseRejectCases | date_test.go:48-65 | "2016-01-02x", "2019-23-11", "2019-23-51" and "" are refused with the zero Date and an error |
| Dates.DateRef.constructor | date.go:28-33 | a fresh holder stores the given Date |
| Dates.DateRef.UnmarshalText | date.go:112-119 | the holder takes the parse result with `Valid` forced to true on success, or the zero Date on failure; the parse error is returned |
| Dates.DateRef.Scan | date.go:130-152 | nil resets to the zero Date. Bytes or a string are parsed: on success they replace the value, and on failure the value is kept and the error returned. Any other type is a conversion error that leaves the value alone |
| Times.TimeOf | time.go:39-43 | the time read off an instant is within the day, it is valid exactly when the instant is not the zero time, and it is the instant's minute of its UTC day |
| Times.TimeOfFields | time.go:39-43 | the time of an instant built with an in-range clock is that clock's hour and minute |
| Times.TimeOfZeroInstant | time.go:39-43 | the zero instant gives the zero Time |
| Times.TimeOfYearZero | time.go:50-57 | a clock reading on 0000-01-01, the date `time.Parse` gives a layout without a date, yields a valid Time |
| Times.ParseTime | time.go:50-57 | every error is the error of the second layout "15:04:05" |
| Times.ParseTimeSpec | time.go:50-57 | the reference characterisation. Parsing succeeds exactly for `H:MM` or `HH:MM`, optionally followed by `:SS` and a fraction of one or more digits after `.` or `,` (truncated to nanoseconds), with hour, minute and second in range. The result is the hour and minute, always valid. Anything else gives the zero Time and an error |
| Times.ConsumeClockLayout | time.go:51 | reading "15:04" takes one or two hour digits, a colon and two minute digits in range, and stores them; anything else fails |
| Times.ConsumeSecondsLayout | time.go:53 | reading ":05" takes a colon and two second digits in range, plus an optional fraction, and stores the seconds and nanoseconds |
| Times.ParseNoClock | time.go:50-57 | text not starting with a clock reading is refused |
| Times.ParseClockOnly | time.go:50-57 | a bare clock reading parses under the first layout |
| Times.ParseClockSeconds | time.go:50-57 | a clock reading followed by more text parses exactly when the rest is seconds with an optional fraction |
| Times.String | time.go:61-66 | the text is ASCII, and it is empty exactly when the Time is invalid |
| Times.ParseTimeString | time.go:61-66 | parsing what `String` prints gives back the same valid Time |
| Times.TextRoundTrip | time.go:96-106 | `UnmarshalText` of `MarshalText(t)` restores `t` without error |
| Times.ValueRoundTrip | time.go:109-114 | `Value` is nil exactly for invalid times; otherwise its text parses back to the same Time |
| Times.ToDateDay | time.go:69-71 | `ToDate` falls on day 0 of year 0, normalised to -0001-11-30. Its clock reads hh:mm:00, and `TimeOf` gives back the Time, marked valid |
| Times.DayZeroZero | time.go:69-71 | the day number of year 0, month 0, day 0 is that of -0001-11-30 and precedes the zero time |
| Times.OrderIsMinutes | time.go:74-92 | `Before`, `After` and `Subtract` compare and subtract minutes of the day; the sign of `Subtract` tells `After` from `Before` |
| Times.AfterIsConverse | time.go:74-87 | `t.After(u)` holds exactly when `u.Before(t)` |
| Times.BeforeIsStrictOrder | time.go:82-87 | `Before` is irreflexive, transitive and total on distinct (hour, minute) |
| Times.SubtractChain | time.go:90-92 | differences add up along a chain, are antisymmetric and are 0 on equal times |
| Times.ParseClockCase | time_test.go:25-29 | "15:51" parses to 15:51, valid |
| Times.ParseSecondsCase | time_test.go:30-34 | "16:52:33" parses to 16:52, valid; the seconds are dropped |
| Times.ParseRejectCases | time_test.go:35-38 | "33:33:33" is refused with the zero Time and an error, and so are "15:91" and "91:12", the values the scan test feeds in |
| Times.TimeRef.constructor | time.go:31-35 | a fresh holder stores the given Time |
| Times.TimeRef.UnmarshalText | time.go:102-106 | the holder takes whatever `ParseTime` returns, including the zero Time on failure, and the error is passed on |
| Times.TimeRef.Scan | time.go:117-139 | nil leaves the value alone. Bytes or a string are parsed and replace the value on success, and on failure the value is kept and the error returned. Any other type is a conversion error |
| DateTimes.DateTimeOf | datetime.go:33-38 | both halves carry the same validity, which is false exactly for the zero instant; the date is real and the time within the day |
| DateTimes.FirstSuccess | datetime.go:48-62 | the first success exists exactly when some layout parses, and it is one of the layouts' results |
| DateTimes.ParseDateTime | datetime.go:48-62 | the loop returns `DateTimeOf` of the first layout that parses. When none parses it returns the zero DateTime and the error of the last layout, "2006-01-02 15:04" |
| DateTimes.ParseFormat | datetime.go:40 | each of the four layouts accepts exactly the date-time texts of its own shape (separator `T` or space, seconds present or not), and yields the instant of the written fields |
| DateTimes.OneFormatParses | datetime.go:40-56 | a text is accepted by a layout exactly when it is a date-time text of that layout's shape, so at most one layout matches and the order of the list does not change the result |
| DateTimes.FirstSuccessSpec | datetime.go:48-62 | the reference characterisation. The loop's result is defined exactly for date-time texts: `DDDD-DD-DD`, then `T` or a space, then a time as `ParseTime` accepts it, with or without seconds after either separator. The result is the instant of the written fields |
| DateTimes.FirstSuccessUnroll | datetime.go:51-56 | over four layouts, the first success is the result of the first layout that parses, tried in order |
| DateTimes.ConsumeAfterDate | datetime.go:40 | after the date, a layout's separator and clock consume the rest exactly when it fits the layout's shape, and they store hour, minute, second and nanoseconds |
| DateTimes.ParseDateTimeSpec | datetime.go:48-62 | parsing succeeds exactly for date-time texts. The DateTime has the written date, hour and minute, and is valid unless the text denotes 0001-01-01 00:00:00 |
| DateTimes.DateTimeOfWritten | datetime.go:33-38 | the DateTime of the instant of written fields is those fields, with validity computed from Go's zero time |
| DateTimes.NanosRange | datetime.go:40 | a parsed clock has hour, minute, second and nanoseconds in range |
| DateTimes.String | datetime.go:65-70 | the text is ASCII, and it is empty exactly when either half is invalid |
| DateTimes.ParseDateTimeString | datetime.go:65-70 | parsing what `String` prints finds the instant `In(UTC)` and gives back the same DateTime |
| DateTimes.ParseComposed | datetime.go:40-62 | every one of the four forms, with `T` or a space and with or without seconds (any of 00-59), written from a DateTime is parsed back to it; the seconds reach the instant and are then dropped. Only the zero instant 0001-01-01 00:00:00 is excluded |
| DateTimes.ComposedIsText | datetime.go:65-70 | the printed form, with either separator and optional seconds, is a date-time text whose fields are the DateTime's |
| DateTimes.TextRoundTrip | datetime.go:96-106 | `UnmarshalText` of `MarshalText(dt)` restores `dt` |
| DateTimes.ValueNil | datetime.go:109-114 | `Value` is nil exactly when either half is invalid, and otherwise it is the date, `T`, then the time |
| DateTimes.DateTimeOfInUTC | datetime.go:33-38 | reading `In(UTC)` back with `DateTimeOf` restores the DateTime, with validity recomputed |
| DateTimes.InUTCStamp | datetime.go:85-87 | `In(UTC)` is the DateTime's minute count since 0001-01-01, as Unix seconds, with no nanoseconds |
| DateTimes.BeforeIsStampOrder | datetime.go:90-92 | `Before` compares minute counts |
| DateTimes.BeforeIsStrictOrder | datetime.go:90-92 | `Before` is irreflexive, asymmetric and transitive |
| DateTimes.BeforeIsLexicographic | datetime.go:89-92 | for real dates and in-day times, `Before` is the date order, then the time order on equal dates |
| DateTimes.DateAloneRefused | datetime_test.go:36-44 | text of ten characters or fewer, such as a date alone or the empty string, is refused |
| DateTimes.SeparatorRefused | datetime.go:40-56 | a character other than `T` or a space after the date is refused. This covers `-` and also the lower-case `t` the doc comment mentions |
| DateTimes.TrailingTextRefused | datetime_test.go:50-54 | a clock followed by text that is neither a fraction nor the end is refused, as with "2016-03-22T13:26:33x" |
| DateTimes.ParseDateTimeCase | datetime_test.go:55-62 | "2019-08-22T13:26:33" parses to 2019-08-22 with 13:26, both valid; the seconds are dropped |
| DateTimes.ParseDateTimeShortCases | datetime_test.go:36-44 | the empty string and the date alone "2016-03-22" are refused |
| DateTimes.ParseDateTimeSeparatorCase | datetime_test.go:45-49 | "2016-03-22-13:26:33", with `-` between date and time, is refused |
| DateTimes.ParseDateTimeTrailingCase | datetime_test.go:50-54 | "2016-03-22T13:26:33x", with trailing text, is refused |
| DateTimes.DateTimeRef.constructor | datetime.go:25-28 | a fresh holder stores the given DateTime |
| DateTimes.DateTimeRef.UnmarshalText | datetime.go:102-106 | the holder takes `ParseDateTime`'s result, the zero DateTime on failure, and its error |
| DateTimes.DateTimeRef.Scan | datetime.go:117-139 | nil leaves the value alone. Bytes or a string replace it with the parse result on success, and on failure the value is kept and the error returned. Any other type is a conversion error |
| Calendar.CivilFromDays | date.go:38 | the date computed from a day number is a real date with that day number |
| Calendar.CivilOfDayNumber | date.go:36-40 | day numbering is invertible on real dates |
| Calendar.DayNumberOrder | date.go:89-97 | a date earlier in (year, month, day) order has a smaller day number |
| Calendar.DayNumberInjective | date.go:89-97 | distinct real dates have distinct day numbers |
| Calendar.DayZero | date.go:37 | the only real date with day number 0 is 0001-01-01 |
| Calendar.YearLength | date.go:75-77 | consecutive years are `DaysInYear` apart (366 in leap years) |
| Calendar.CycleShift | date.go:75-77 | 400 Gregorian years are exactly 146097 days |
| GoTime.Clock | time.go:41 | hour, minute and second are in range and make up the seconds into the UTC day |
| GoTime.DateUTCFields | date.go:100-102 | `time.Date` in UTC with in-range clock fields yields a normal instant on the normalised date and at that clock reading |
| GoTime.DateUTCIsZero | date.go:37 | `time.Date` gives the zero time exactly on day 0 at 00:00:00.000000000 |
| GoTime.AddDaysShift | date.go:76 | `AddDate(0, 0, n)` moves an instant by `n` times 86400 seconds |
| TimeParse.Parse | date.go:44 | a failed parse reports the layout it was given |
| TimeParse.ConsumeAppend | datetime.go:40 | reading a concatenated layout is reading the first part and then the second from what remains |
| TimeParse.FracNanos | time.go:46-48 | the nanoseconds read from a fraction after the seconds lie below one second |
| Decimal.Decimal | date.go:54 | the decimal digits of a number read back as that number |
| Decimal.PadIntExact | date.go:54 | zero-padding a number below 10^w to width w gives exactly w digits that read back as the number |
| Decimal.NumLeadingZeros | date.go:54 | leading zeros do not change a digit string's value |
| Driver.Bytes | date.go:107 | converting ASCII text to bytes and back gives the same text |
| Arith.QuoExact | date.go:85 | Go's truncating division of an exact multiple of 86400 returns the multiplier, negative or not |

## Left out

- Time zones: `Date.In`, `DateTime.In` and the values read by `DateOf`, `TimeOf` and `DateTimeOf` are modelled for UTC only. Location offsets, daylight saving and the panic on a nil location are not modelled.
- Go's `int64` seconds and `int` fields are unbounded integers here. Overflow for years far outside 0-9999 is not modelled.
- `time.Parse` is modelled as Go 1.17 and later behave: after `:SS` a fraction may start with `.` or `,`, any number of digits is consumed, and only the first nine count, as nanoseconds. The doc comment of `ParseTime` speaks of one to nine digits after a decimal point; the model follows the library code, which accepts more.
- Layouts are given already split into chunks. Go's layout tokenizer itself (`nextStdChunk`) is not part of this model.
- Error values are modelled as the layout that failed (plus a conversion error for `Scan`). Go's error message texts and `%T` formatting are not modelled.
- `fmt.Sprintf("%04d")` is modelled for years 0-9999. Negative and five-digit years print, but no round trip is claimed for them.
- `String` round trips exclude the DateTime or Date on 0001-01-01 at midnight. That value parses back as invalid, because Go treats it as the zero time; `Dates.ParseZeroDate` states this.
- The doc comment of `ParseDateTime` says the `T` may be a lower-case `t`. The code's layouts accept only `T` or a space, and the model follows the code (`DateTimes.SeparatorRefused`).
- The space-separated texts the tests feed to `Scan` and `UnmarshalText` ("2019-12-31 15:35", "2019-11-04 15:35") are covered by the general `DateTimes.ParseComposed`, not by literal lemmas.
- JSON encoding and the `encoding.TextMarshaler` interface plumbing are not modelled. `MarshalText` is the byte string of `String`, and its error is always nil.
