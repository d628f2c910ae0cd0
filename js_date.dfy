/** The part of JavaScript's `Date` that the calendar relies on, on the
    proleptic Gregorian calendar. A `Date` is the triple its getters report
    (`getFullYear()`, `getMonth()` with 0 = January, `getDate()`); its time
    value is a day number counted from 1970-01-01, computed with the
    formulas of ECMAScript's DayFromYear and MakeDay. Time of day and time
    zones are not part of the model: the calendar only ever builds dates at
    local midnight. */
module JsDate {

  datatype Date = Date(year: int, month: int, day: int) {
    /** A date the JavaScript getters can report: a month index in 0..11 and
        a day inside that month. */
    predicate Valid() {
      0 <= month < 12 && 1 <= day <= DaysInMonth(year, month)
    }
  }

  const MsPerDay: int := 86400000

  predicate IsLeapYear(y: int) {
    y % 4 == 0 && (y % 100 != 0 || y % 400 == 0)
  }

  function DaysInYear(y: int): int {
    if IsLeapYear(y) then 366 else 365
  }

  function DaysInMonth(y: int, m: int): (n: int)
    requires 0 <= m < 12
    ensures 28 <= n <= 31
    ensures n == 29 <==> m == 1 && IsLeapYear(y)
  {
    if m == 1 then (if IsLeapYear(y) then 29 else 28)
    else if m == 3 || m == 5 || m == 8 || m == 10 then 30
    else 31
  }

  /** Day number of the first of January of year `y` (ECMAScript
      DayFromYear; `/` by a positive constant is the floor). */
  function DayFromYear(y: int): int {
    365 * (y - 1970) + (y - 1969) / 4 - (y - 1901) / 100 + (y - 1601) / 400
  }

  /** Days of year `y` that come before month `m`. */
  function DaysBeforeMonth(y: int, m: int): int
    requires 0 <= m < 12
  {
    var common :=
      if m == 0 then 0 else if m == 1 then 31 else if m == 2 then 59
      else if m == 3 then 90 else if m == 4 then 120 else if m == 5 then 151
      else if m == 6 then 181 else if m == 7 then 212 else if m == 8 then 243
      else if m == 9 then 273 else if m == 10 then 304 else 334;
    if m >= 2 && IsLeapYear(y) then common + 1 else common
  }

  /** The day number of a date: its time value divided by `MsPerDay`. */
  function DayNumber(d: Date): int
    requires 0 <= d.month < 12
  {
    DayFromYear(d.year) + DaysBeforeMonth(d.year, d.month) + d.day - 1
  }

  /** `getDay()`: 0 = Sunday (ECMAScript WeekDay; 1970-01-01 was a Thursday). */
  function WeekDay(d: Date): (w: int)
    requires 0 <= d.month < 12
    ensures 0 <= w < 7
  {
    (DayNumber(d) + 4) % 7
  }

  /** The year and month that a possibly out-of-range month index denotes:
      month 12 of year y is January of y + 1, month -1 is December of y - 1. */
  function NormalYear(y: int, m: int): int { y + m / 12 }
  function NormalMonth(m: int): (r: int) ensures 0 <= r < 12 { m % 12 }

  /** Day number of the first day of month `m` of year `y`, `m` taken with
      rollover (ECMAScript MakeDay(y, m, 1)). */
  function MonthStart(y: int, m: int): int {
    DayFromYear(NormalYear(y, m)) + DaysBeforeMonth(NormalYear(y, m), NormalMonth(m))
  }

  lemma YearStep(y: int)
    ensures DayFromYear(y + 1) == DayFromYear(y) + DaysInYear(y)
  {
    var a, b, c := if y % 4 == 0 then 1 else 0, if y % 100 == 0 then 1 else 0, if y % 400 == 0 then 1 else 0;
    assert DayFromYear(y + 1) == DayFromYear(y) + 365 + a - b + c by {
      FloorStep4(y);
      FloorStep100(y);
      FloorStep400(y);
    }
    assert DaysInYear(y) == 365 + a - b + c by {
      LeapByFlags(y);
    }
  }

  /** Day 0 is 1 January 1970, a Thursday. */
  lemma Epoch()
    ensures DayFromYear(1970) == 0
    ensures DayNumber(Date(1970, 0, 1)) == 0 && WeekDay(Date(1970, 0, 1)) == 4
  {
  }

  /** A multiple of 400 is one of 100, and a multiple of 100 one of 4. */
  lemma LeapByFlags(y: int)
    ensures y % 400 == 0 ==> y % 100 == 0
    ensures y % 100 == 0 ==> y % 4 == 0
  {
    if y % 400 == 0 {
      MultipleOf400(y);
    }
    if y % 100 == 0 {
      MultipleOf100(y);
    }
  }

  lemma MultipleOf400(y: int)
    requires y % 400 == 0
    ensures y % 100 == 0
  {
    assert y == 100 * (4 * (y / 400));
  }

  lemma MultipleOf100(y: int)
    requires y % 100 == 0
    ensures y % 4 == 0
  {
    assert y == 4 * (25 * (y / 100));
  }

  /** Each of the three floors in DayFromYear goes up by one in the year
      after a multiple of its divisor. */
  lemma FloorStep4(y: int)
    ensures (y + 1 - 1969) / 4 - (y - 1969) / 4 == if y % 4 == 0 then 1 else 0
  {
  }

  lemma FloorStep100(y: int)
    ensures (y + 1 - 1901) / 100 - (y - 1901) / 100 == if y % 100 == 0 then 1 else 0
  {
  }

  lemma FloorStep400(y: int)
    ensures (y + 1 - 1601) / 400 - (y - 1601) / 400 == if y % 400 == 0 then 1 else 0
  {
  }

  /** The first day of the month after (y, m) follows the last day of (y, m). */
  lemma MonthStartNext(y: int, m: int)
    ensures MonthStart(y, m + 1)
         == MonthStart(y, m) + DaysInMonth(NormalYear(y, m), NormalMonth(m))
  {
    var ny, nm := NormalYear(y, m), NormalMonth(m);
    MonthSucc(ny, nm);
    if nm == 11 {
      assert NormalYear(y, m + 1) == ny + 1 && NormalMonth(m + 1) == 0;
      MonthStartInRange(ny + 1, 0);
    } else {
      assert NormalYear(y, m + 1) == ny && NormalMonth(m + 1) == nm + 1;
      MonthStartInRange(ny, nm + 1);
    }
    MonthStartInRange(ny, nm);
  }

  /** The first day of month m follows the last day of month m - 1. */
  lemma MonthStartPrev(y: int, m: int)
    ensures MonthStart(y, m)
         == MonthStart(y, m - 1) + DaysInMonth(NormalYear(y, m - 1), NormalMonth(m - 1))
  {
    MonthStartNext(y, m - 1);
  }

  /** The day after the last day of month m of year y is the first of the
      next month. */
  lemma MonthSucc(y: int, m: int)
    requires 0 <= m < 12
    ensures DayFromYear(y) + DaysBeforeMonth(y, m) + DaysInMonth(y, m)
         == if m == 11 then DayFromYear(y + 1) else DayFromYear(y) + DaysBeforeMonth(y, m + 1)
  {
    MonthEndWithinYear(y, m);
    if m == 11 {
      YearStep(y);
    }
  }

  lemma MonthStartInRange(y: int, m: int)
    requires 0 <= m < 12
    ensures MonthStart(y, m) == DayFromYear(y) + DaysBeforeMonth(y, m)
  {
    assert NormalYear(y, m) == y && NormalMonth(m) == m;
  }

  /** Brings a day of month `m` of year `y` that may lie before the 1st or
      after the last day into range, moving across months and years the way
      a JavaScript Date does. */
  function Normalize(y: int, m: int, d: int): (r: Date)
    requires 0 <= m < 12
    ensures r.Valid()
    ensures DayNumber(r) == DayFromYear(y) + DaysBeforeMonth(y, m) + d - 1
    decreases if d < 1 then 1 else 0, if d < 1 then -d else d
  {
    if d < 1 then
      var py := if m == 0 then y - 1 else y;
      var pm := if m == 0 then 11 else m - 1;
      MonthSucc(py, pm);
      Normalize(py, pm, d + DaysInMonth(py, pm))
    else if DaysInMonth(y, m) < d then
      var ny := if m == 11 then y + 1 else y;
      var nm := if m == 11 then 0 else m + 1;
      MonthSucc(y, m);
      Normalize(ny, nm, d - DaysInMonth(y, m))
    else
      Date(y, m, d)
  }

  /** The date whose fields a Date built from (y, m, d) reports, with month
      and day rollover (ECMAScript MakeDay; what `setMonth`, `setFullYear` and
      `setDate` compute). */
  function MakeDate(y: int, m: int, d: int): (r: Date)
    ensures r.Valid()
    ensures DayNumber(r) == MonthStart(y, m) + d - 1
  {
    Normalize(NormalYear(y, m), NormalMonth(m), d)
  }

  /** The year that `new Date(y, …)` and `Date.UTC(y, …)` use: years 0..99
      denote 1900..1999. */
  function JsYear(y: int): int {
    if 0 <= y <= 99 then 1900 + y else y
  }

  /** `new Date(y, m, d)`. */
  function NewDate(y: int, m: int, d: int): (r: Date)
    ensures r.Valid()
    ensures DayNumber(r) == MonthStart(JsYear(y), m) + d - 1
  {
    MakeDate(JsYear(y), m, d)
  }

  /** `Date.UTC(y, m, d)`: a time value in milliseconds. */
  function DateUtc(y: int, m: int, d: int): (t: int)
    ensures t == GetTime(NewDate(y, m, d))
  {
    (MonthStart(JsYear(y), m) + d - 1) * MsPerDay
  }

  /** A two-digit year names the same day as the year 1900 later, in the
      constructor and in `Date.UTC` alike; other years are taken as they are. */
  lemma TwoDigitYears(y: int, m: int, d: int)
    ensures 0 <= y <= 99 ==> NewDate(y, m, d) == NewDate(y + 1900, m, d)
    ensures 0 <= y <= 99 ==> DateUtc(y, m, d) == DateUtc(y + 1900, m, d)
    ensures !(0 <= y <= 99) ==> NewDate(y, m, d) == MakeDate(y, m, d)
  {
  }

  /** 1900 years hold 460 leap days, or 461 when they start at year 0 (whose
      window [0, 1900) holds five multiples of 400). */
  lemma CenturyShift(y: int)
    requires 0 <= y <= 99
    ensures DayFromYear(y + 1900) == DayFromYear(y) + (if y == 0 then 693961 else 693960)
    ensures y != 0 ==> IsLeapYear(y + 1900) == IsLeapYear(y)
    ensures IsLeapYear(0) && !IsLeapYear(1900)
  {
    assert (y + 1900 - 1969) / 4 == (y - 1969) / 4 + 475;
    assert (y + 1900 - 1901) / 100 == (y - 1901) / 100 + 19;
    assert (y + 1900 - 1601) / 400 == (if y == 0 then (y - 1601) / 400 + 5 else (y - 1601) / 400 + 4);
  }

  /** The day that `Date.UTC` gives the fields of a date in the years 0..99,
      counted from the date's own day number. */
  lemma TwoDigitYearShift(date: Date)
    requires date.Valid() && 0 <= date.year <= 99
    ensures DateUtc(date.year, date.month, date.day)
            == (DayNumber(date) + (if date.year == 0 && date.month < 2 then 693961 else 693960)) * MsPerDay
  {
    CenturyShift(date.year);
    MonthStartInRange(date.year + 1900, date.month);
  }

  /** `getTime()` of a date at midnight. */
  function GetTime(d: Date): int
    requires d.Valid()
  {
    DayNumber(d) * MsPerDay
  }

  /** `date.setMonth(m)`: the day of month is kept and may roll over. */
  function SetMonth(date: Date, m: int): (r: Date)
    ensures r.Valid()
    ensures DayNumber(r) == MonthStart(date.year, m) + date.day - 1
    ensures 1 <= date.day <= 28 ==> r == Date(NormalYear(date.year, m), NormalMonth(m), date.day)
  {
    MakeDate(date.year, m, date.day)
  }

  /** `date.setFullYear(y)`: month and day are kept and may roll over. */
  function SetFullYear(date: Date, y: int): (r: Date)
    ensures r.Valid()
    ensures DayNumber(r) == MonthStart(y, date.month) + date.day - 1
    ensures 0 <= date.month < 12 && 1 <= date.day <= 28 ==> r == Date(y, date.month, date.day)
    ensures date.Valid() && date.month == 1 && date.day == 29 && !IsLeapYear(y) ==> r == Date(y, 2, 1)
  {
    MakeDate(y, date.month, date.day)
  }

  /** The date k days after a valid date: the valid date whose day number
      is k more. `new Date(y, m, d + k)` builds it (AddDaysIsMakeDate). */
  ghost function AddDays(date: Date, k: int): (r: Date)
    requires date.Valid()
    ensures r.Valid() && DayNumber(r) == DayNumber(date) + k
  {
    MonthStartInRange(date.year, date.month);
    var later := MakeDate(date.year, date.month, date.day + k);
    assert later.Valid() && DayNumber(later) == DayNumber(date) + k;
    var r: Date :| r.Valid() && DayNumber(r) == DayNumber(date) + k;
    r
  }

  /** `new Date(y, m, d + k)` for a valid date (y, m, d) is the date k days
      later. */
  lemma AddDaysIsMakeDate(date: Date, k: int)
    requires date.Valid()
    ensures AddDays(date, k) == MakeDate(date.year, date.month, date.day + k)
  {
    MonthStartInRange(date.year, date.month);
    DayNumberInjective(AddDays(date, k), MakeDate(date.year, date.month, date.day + k));
  }

  /** A valid date is its own normalisation. */
  lemma MakeDateOfValid(date: Date)
    requires date.Valid()
    ensures MakeDate(date.year, date.month, date.day) == date
  {
    assert NormalYear(date.year, date.month) == date.year;
    assert NormalMonth(date.month) == date.month;
  }

  lemma {:induction false} DayFromYearMonotone(a: int, b: int)
    requires a < b
    ensures DayFromYear(a) + DaysInYear(a) <= DayFromYear(b)
    decreases b - a
  {
    YearStep(a);
    if a + 1 < b {
      DayFromYearMonotone(a + 1, b);
    }
  }

  lemma MonthEndWithinYear(y: int, m: int)
    requires 0 <= m < 12
    ensures DaysBeforeMonth(y, m) + DaysInMonth(y, m) <= DaysInYear(y)
    ensures m < 11 ==> DaysBeforeMonth(y, m) + DaysInMonth(y, m) == DaysBeforeMonth(y, m + 1)
  {
  }

  lemma {:induction false} DaysBeforeMonthMonotone(y: int, a: int, b: int)
    requires 0 <= a < b < 12
    ensures DaysBeforeMonth(y, a) + DaysInMonth(y, a) <= DaysBeforeMonth(y, b)
    decreases b - a
  {
    MonthEndWithinYear(y, a);
    if a + 1 < b {
      MonthEndWithinYear(y, a + 1);
      DaysBeforeMonthMonotone(y, a + 1, b);
    }
  }

  /** Two valid dates with the same time value are the same date: a Date's
      fields are a function of its time value. */
  lemma DayNumberInjective(a: Date, b: Date)
    requires a.Valid() && b.Valid()
    requires DayNumber(a) == DayNumber(b)
    ensures a == b
  {
    MonthEndWithinYear(a.year, a.month);
    MonthEndWithinYear(b.year, b.month);
    if a.year < b.year {
      DayFromYearMonotone(a.year, b.year);
      assert false;
    } else if b.year < a.year {
      DayFromYearMonotone(b.year, a.year);
      assert false;
    }
    if a.month < b.month {
      DaysBeforeMonthMonotone(a.year, a.month, b.month);
      assert false;
    } else if b.month < a.month {
      DaysBeforeMonthMonotone(a.year, b.month, a.month);
      assert false;
    }
  }
}
