/**
 * Calendar dates. The source keeps dates as ISO `"YYYY-MM-DD"` strings and
 * compares them either as strings (`===`, `>=`) or through `new Date(...)`.
 * Here a date is a (year, month, day) record: string equality is record
 * equality, string order is `DateLeq` (lexicographic on the three fields),
 * and `new Date(...)` order is the order of `DayNumber`, the count of days
 * in the proleptic Gregorian calendar.
 */
module Calendar {
  import opened Wrappers
  import opened Arith

  datatype Date = Date(year: int, month: int, day: int)

  predicate IsLeapYear(y: int)
  {
    y % 4 == 0 && (y % 100 != 0 || y % 400 == 0)
  }

  function DaysInYear(y: int): int
  {
    if IsLeapYear(y) then 366 else 365
  }

  function DaysInMonth(y: int, m: int): int
  {
    if m == 2 then (if IsLeapYear(y) then 29 else 28)
    else if m == 4 || m == 6 || m == 9 || m == 11 then 30
    else 31
  }

  /** A date a date input can produce: a real day of a four-digit year. */
  predicate ValidDate(d: Date)
  {
    1000 <= d.year <= 9999 && 1 <= d.month <= 12 && 1 <= d.day <= DaysInMonth(d.year, d.month)
  }

  /** Order of ISO `"YYYY-MM-DD"` strings (`<=` on strings in JavaScript). */
  predicate DateLeq(a: Date, b: Date)
  {
    a.year < b.year
    || (a.year == b.year && (a.month < b.month || (a.month == b.month && a.day <= b.day)))
  }

  predicate DateLt(a: Date, b: Date)
  {
    DateLeq(a, b) && a != b
  }

  /** The days in the years `0 .. y - 1` (year 0 is a leap year). */
  function DaysBeforeYear(y: int): int
  {
    365 * y + (y + 3) / 4 - (y + 99) / 100 + (y + 399) / 400
  }

  function DaysBeforeMonth(y: int, m: int): int
  {
    var common :=
      if m <= 1 then 0 else if m == 2 then 31 else if m == 3 then 59 else if m == 4 then 90
      else if m == 5 then 120 else if m == 6 then 151 else if m == 7 then 181
      else if m == 8 then 212 else if m == 9 then 243 else if m == 10 then 273
      else if m == 11 then 304 else 334;
    common + (if m > 2 && IsLeapYear(y) then 1 else 0)
  }

  /** The day count that `new Date("YYYY-MM-DD")` stands for (up to a fixed epoch offset). */
  function DayNumber(d: Date): int
  {
    DaysBeforeYear(d.year) + DaysBeforeMonth(d.year, d.month) + d.day - 1
  }

  lemma FloorStep(y: int, k: int)
    requires k in {4, 100, 400}
    ensures (y + k) / k - (y + k - 1) / k == if y % k == 0 then 1 else 0
  {
    var q, r := y / k, y % k;
    assert y == q * k + r && 0 <= r < k;
    assert (y + k) / k == q + 1 by {
      assert y + k == (q + 1) * k + r;
    }
    if r == 0 {
      assert (y + k - 1) / k == q by { assert y + k - 1 == q * k + (k - 1); }
    } else {
      assert (y + k - 1) / k == q + 1 by { assert y + k - 1 == (q + 1) * k + (r - 1); }
    }
  }

  /** One more year adds that year's length. */
  lemma DaysBeforeNextYear(y: int)
    ensures DaysBeforeYear(y + 1) == DaysBeforeYear(y) + DaysInYear(y)
  {
    var a := (y + 4) / 4 - (y + 3) / 4;
    var b := (y + 100) / 100 - (y + 99) / 100;
    var c := (y + 400) / 400 - (y + 399) / 400;
    FloorStep(y, 4);
    FloorStep(y, 100);
    FloorStep(y, 400);
    assert DaysBeforeYear(y + 1) == DaysBeforeYear(y) + 365 + a - b + c;
    if y % 400 == 0 {
      DivModUnique(y, 4 * (y / 400), 0, 100);
    }
    if y % 100 == 0 {
      DivModUnique(y, 25 * (y / 100), 0, 4);
    }
  }

  /** Within its year, a valid date lies in `[0, DaysInYear)`. */
  lemma DayOfYearInRange(d: Date)
    requires ValidDate(d)
    ensures 0 <= DaysBeforeMonth(d.year, d.month) + d.day - 1 < DaysInYear(d.year)
  {
  }

  /** Later months of the same year start after earlier months end. */
  lemma MonthsOrdered(y: int, m1: int, d1: int, m2: int)
    requires 1 <= m1 < m2 <= 12 && 1 <= d1 <= DaysInMonth(y, m1)
    ensures DaysBeforeMonth(y, m1) + d1 <= DaysBeforeMonth(y, m2)
  {
  }

  lemma {:induction false} YearsOrdered(y1: int, y2: int)
    requires y1 <= y2
    ensures DaysBeforeYear(y1) + 365 * (y2 - y1) <= DaysBeforeYear(y2)
    decreases y2 - y1
  {
    if y1 < y2 {
      YearsOrdered(y1, y2 - 1);
      DaysBeforeNextYear(y2 - 1);
    }
  }

  /** On valid dates, comparing day numbers is comparing ISO date strings. */
  lemma DayNumberOrder(a: Date, b: Date)
    requires ValidDate(a) && ValidDate(b)
    ensures DateLt(a, b) <==> DayNumber(a) < DayNumber(b)
    ensures a == b <==> DayNumber(a) == DayNumber(b)
  {
    if a.year < b.year {
      DayOfYearInRange(a);
      DaysBeforeNextYear(a.year);
      YearsOrdered(a.year + 1, b.year);
    } else if b.year < a.year {
      DayOfYearInRange(b);
      DaysBeforeNextYear(b.year);
      YearsOrdered(b.year + 1, a.year);
    } else if a.month < b.month {
      MonthsOrdered(a.year, a.month, a.day, b.month);
    } else if b.month < a.month {
      MonthsOrdered(a.year, b.month, b.day, a.month);
    }
  }

  /**
   * `calculateAge`: the difference of the years, one less when this year's
   * birthday (month and day) is still to come. `today` is the current date.
   * The result is the number of completed years: the anniversary that many
   * years on has been reached and the next one has not.
   */
  function CalculateAge(birth: Date, today: Date): (age: int)
    ensures DateLeq(Date(birth.year + age, birth.month, birth.day), today)
    ensures DateLt(today, Date(birth.year + age + 1, birth.month, birth.day))
  {
    var age := today.year - birth.year;
    var monthDiff := today.month - birth.month;
    if monthDiff < 0 || (monthDiff == 0 && today.day < birth.day) then age - 1 else age
  }

  /** The completed-years property fixes the age: no other number has it. */
  lemma AgeIsUnique(birth: Date, today: Date, n: int)
    requires DateLeq(Date(birth.year + n, birth.month, birth.day), today)
    requires DateLt(today, Date(birth.year + n + 1, birth.month, birth.day))
    ensures n == CalculateAge(birth, today)
  {
  }

  /**
   * `validateDateRange`: true when either end is missing; otherwise the
   * start must not come after the end, compared as `Date` values.
   */
  function ValidateDateRange(start: Option<Date>, end: Option<Date>): bool
  {
    if start.None? || end.None? then true else DayNumber(start.value) <= DayNumber(end.value)
  }

  /** With both ends given and valid, the check is the ISO-key order. */
  lemma DateRangeIsKeyOrder(start: Date, end: Date)
    requires ValidDate(start) && ValidDate(end)
    ensures ValidateDateRange(Some(start), Some(end)) <==> DateLeq(start, end)
  {
    DayNumberOrder(start, end);
  }
}
