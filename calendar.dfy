/** The proleptic Gregorian calendar arithmetic that Go's time package performs
    internally: leap years, month lengths, the normalisation time.Date applies to
    out-of-range fields, and the conversion between civil dates and day numbers.
    Day numbers count days since 0001-01-01 (day 0); Dafny's `/` and `%` on `int`
    are floor division and modulus for the positive divisors used here, which is
    what Go's unsigned absolute-time arithmetic amounts to. */
module Calendar {

  import Arith

  /** A civil date as the triple t.Date() returns. */
  datatype Civil = Civil(year: int, month: int, day: int)

  /** Go's isLeap. A zero test of `%` gives the same answer for truncating and
      floor remainders, so negative years agree with Go. */
  predicate IsLeap(year: int) {
    year % 4 == 0 && (year % 100 != 0 || year % 400 == 0)
  }

  function DaysInYear(year: int): int {
    if IsLeap(year) then 366 else 365
  }

  /** Go's daysIn(month, year). */
  function DaysIn(year: int, month: int): int
    requires 1 <= month <= 12
  {
    if month == 2 then (if IsLeap(year) then 29 else 28)
    else if month == 4 || month == 6 || month == 9 || month == 11 then 30
    else 31
  }

  /** Month and day lie in their calendar ranges. */
  predicate Canonical(c: Civil) {
    1 <= c.month <= 12 && 1 <= c.day <= DaysIn(c.year, c.month)
  }

  /** Strict lexicographic order on (year, month, day). */
  predicate LexLess(a: Civil, b: Civil) {
    a.year < b.year
    || (a.year == b.year && a.month < b.month)
    || (a.year == b.year && a.month == b.month && a.day < b.day)
  }

  /** Days from 0001-01-01 to January 1 of `year`. */
  function DaysBeforeYear(year: int): int {
    var y := year - 1;
    365 * y + y / 4 - y / 100 + y / 400
  }

  /** Days in `year` before the first of `month`: Go's daysBefore table, plus
      the leap day from March on. Month 13 stands for the end of the year. */
  function DaysBeforeMonth(year: int, month: int): int
    requires 1 <= month <= 13
  {
    [0, 31, 59, 90, 120, 151, 181, 212, 243, 273, 304, 334, 365][month - 1]
    + (if IsLeap(year) && month > 2 then 1 else 0)
  }

  /** The day number of the date that time.Date(year, month, day, ...) denotes:
      the month is carried into the year by floor division, and the day is an
      offset from the first of the resulting month, so day 0 is the last day of
      the month before and day 32 runs into the next month. */
  function DayNumber(year: int, month: int, day: int): int {
    var y := year + (month - 1) / 12;
    var m := (month - 1) % 12 + 1;
    DaysBeforeYear(y) + DaysBeforeMonth(y, m) + day - 1
  }

  function DayNumberOf(c: Civil): int {
    DayNumber(c.year, c.month, c.day)
  }

  /** For a month already in 1..12 nothing is carried. */
  lemma DayNumberInRange(year: int, month: int, day: int)
    requires 1 <= month <= 12
    ensures DayNumber(year, month, day) == DaysBeforeYear(year) + DaysBeforeMonth(year, month) + day - 1
  {
    Arith.DivUnique(month - 1, 12, 0, month - 1);
  }

  lemma YearLength(year: int)
    ensures DaysBeforeYear(year + 1) == DaysBeforeYear(year) + DaysInYear(year)
  {
    var y := year - 1;
    Arith.DivStep(y, 4);
    Arith.DivStep(y, 100);
    Arith.DivStep(y, 400);
  }

  lemma MonthLength(year: int, month: int)
    requires 1 <= month <= 12
    ensures DaysBeforeMonth(year, month + 1) == DaysBeforeMonth(year, month) + DaysIn(year, month)
  {
  }

  /** The calendar repeats every 400 years, which hold 146097 days. */
  lemma CycleShift(year: int, q: int)
    ensures DaysBeforeYear(year + 400 * q) == DaysBeforeYear(year) + 146097 * q
  {
    var y := year - 1;
    Arith.DivShift(y, 4, 100 * q);
    Arith.DivShift(y, 100, 4 * q);
    Arith.DivShift(y, 400, q);
  }

  /** The year (counted from 0) of a 400-year cycle in which day `r` of the
      cycle falls, searching upward from year `k`. */
  function YearInCycle(r: int, k: int): (y: int)
    requires 0 <= k <= 399 && DaysBeforeYear(k + 1) <= r < 146097
    ensures k <= y <= 399
    ensures DaysBeforeYear(y + 1) <= r < DaysBeforeYear(y + 2)
    decreases 399 - k
  {
    if k < 399 && DaysBeforeYear(k + 2) <= r then YearInCycle(r, k + 1)
    else
      assert DaysBeforeYear(401) == 146097;
      k
  }

  /** The month of `year` in which day `doy` of the year (counted from 0)
      falls, searching upward from `month`. */
  function MonthOfYear(year: int, doy: int, month: int): (m: int)
    requires 1 <= month <= 12 && DaysBeforeMonth(year, month) <= doy < DaysInYear(year)
    ensures month <= m <= 12
    ensures DaysBeforeMonth(year, m) <= doy < DaysBeforeMonth(year, m + 1)
    decreases 12 - month
  {
    if month < 12 && DaysBeforeMonth(year, month + 1) <= doy then MonthOfYear(year, doy, month + 1)
    else month
  }

  /** The year in which day `r` of 400-year cycle `q` falls. */
  function YearOfCycle(q: int, r: int): (year: int)
    requires DaysBeforeYear(1) <= r < 146097
    ensures DaysBeforeYear(year) <= 146097 * q + r < DaysBeforeYear(year + 1)
  {
    var yc := YearInCycle(r, 0);
    var year := 400 * q + yc + 1;
    CycleBounds(q, r, yc, year);
    year
  }

  /** The year in which day number `n` falls: split `n` into 400-year cycles,
      then search the cycle. */
  function YearOfDay(n: int): (year: int)
    ensures DaysBeforeYear(year) <= n < DaysBeforeYear(year + 1)
  {
    CycleStart(n);
    YearOfCycle(n / 146097, n % 146097)
  }

  /** Day `n` is day `n % 146097` of its 400-year cycle, which starts on a year 1. */
  lemma CycleStart(n: int)
    ensures n == 146097 * (n / 146097) + n % 146097
    ensures DaysBeforeYear(1) <= n % 146097 < 146097
  {
  }

  /** Year `yc` of a cycle holding day `r` is, shifted by `q` cycles, the
      year holding day `r` of cycle `q`. */
  lemma CycleBounds(q: int, r: int, yc: int, year: int)
    requires DaysBeforeYear(yc + 1) <= r < DaysBeforeYear(yc + 2) && year == 400 * q + yc + 1
    ensures DaysBeforeYear(year) <= 146097 * q + r < DaysBeforeYear(year + 1)
  {
    CycleYear(q, yc);
  }

  lemma CycleYear(q: int, yc: int)
    ensures DaysBeforeYear(400 * q + yc + 1) == DaysBeforeYear(yc + 1) + 146097 * q
    ensures DaysBeforeYear(400 * q + yc + 1 + 1) == DaysBeforeYear(yc + 2) + 146097 * q
  {
    CycleShift(yc + 1, q);
    CycleShift(yc + 2, q);
  }

  /** The civil date of day number `n`: the inverse of DayNumber, and always
      canonical. */
  function CivilFromDays(n: int): (c: Civil)
    ensures Canonical(c)
    ensures DayNumberOf(c) == n
  {
    var year := YearOfDay(n);
    YearLength(year);
    var doy := n - DaysBeforeYear(year);
    var month := MonthOfYear(year, doy, 1);
    var day := doy - DaysBeforeMonth(year, month) + 1;
    MonthLength(year, month);
    DayNumberInRange(year, month, day);
    Civil(year, month, day)
  }

  lemma {:induction false} DaysBeforeYearMonotone(a: int, b: int)
    requires a <= b
    ensures DaysBeforeYear(a) <= DaysBeforeYear(b)
    decreases b - a
  {
    if a < b {
      YearLength(a);
      DaysBeforeYearMonotone(a + 1, b);
    }
  }

  lemma {:induction false} DaysBeforeMonthMonotone(year: int, a: int, b: int)
    requires 1 <= a <= b <= 13
    ensures DaysBeforeMonth(year, a) <= DaysBeforeMonth(year, b)
    decreases b - a
  {
    if a < b {
      MonthLength(year, a);
      DaysBeforeMonthMonotone(year, a + 1, b);
    }
  }

  /** A canonical date's day number lies within its year. */
  lemma DayNumberWithinYear(c: Civil)
    requires Canonical(c)
    ensures DaysBeforeYear(c.year) <= DayNumberOf(c) < DaysBeforeYear(c.year + 1)
  {
    DayNumberInRange(c.year, c.month, c.day);
    MonthLength(c.year, c.month);
    DaysBeforeMonthMonotone(c.year, c.month + 1, 13);
    YearLength(c.year);
  }

  /** On canonical dates, day numbers follow the lexicographic order of the fields. */
  lemma DayNumberOrder(a: Civil, b: Civil)
    requires Canonical(a) && Canonical(b) && LexLess(a, b)
    ensures DayNumberOf(a) < DayNumberOf(b)
  {
    DayNumberWithinYear(a);
    DayNumberWithinYear(b);
    DayNumberInRange(a.year, a.month, a.day);
    DayNumberInRange(b.year, b.month, b.day);
    if a.year < b.year {
      DaysBeforeYearMonotone(a.year + 1, b.year);
    } else if a.month < b.month {
      MonthLength(a.year, a.month);
      DaysBeforeMonthMonotone(a.year, a.month + 1, b.month);
    }
  }

  /** DayNumber is one-to-one on canonical dates. */
  lemma DayNumberInjective(a: Civil, b: Civil)
    requires Canonical(a) && Canonical(b) && DayNumberOf(a) == DayNumberOf(b)
    ensures a == b
  {
    if LexLess(a, b) {
      DayNumberOrder(a, b);
    } else if LexLess(b, a) {
      DayNumberOrder(b, a);
    }
  }

  /** CivilFromDays undoes DayNumber on canonical dates. */
  lemma CivilOfDayNumber(c: Civil)
    requires Canonical(c)
    ensures CivilFromDays(DayNumberOf(c)) == c
  {
    DayNumberInjective(CivilFromDays(DayNumberOf(c)), c);
  }

  /** Day 0 is 0001-01-01 and no other canonical date. */
  lemma DayZero(c: Civil)
    requires Canonical(c)
    ensures DayNumberOf(c) == 0 <==> c == Civil(1, 1, 1)
  {
    DayNumberInRange(1, 1, 1);
    if DayNumberOf(c) == 0 {
      DayNumberInjective(c, Civil(1, 1, 1));
    }
  }
}
