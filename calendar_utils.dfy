/** services/calendarUtils.ts: the Javanese market-day cycle, the fixed
    holiday table and the 42-cell month grid. */
module CalendarUtils {
  import opened Wrappers
  import opened JsDate
  import opened Types

  // ---------------------------------------------------------------------
  // Javanese Pasaran
  // ---------------------------------------------------------------------

  const Pasaran: seq<string> := ["Legi", "Pahing", "Pon", "Wage", "Kliwon"]
  /** 1 January 2024, a Pahing day. */
  const RefDate: Date := NewDate(2024, 0, 1)
  const RefPasaranIndex: int := 1

  /** JavaScript's `%` on integers: the remainder has the sign of the
      dividend and is smaller than the divisor in magnitude. */
  function JsRem(a: int, b: int): (r: int)
    requires b > 0
    ensures -b < r < b
    ensures (r < 0 ==> a < 0) && (r > 0 ==> a > 0)
    ensures r % b == a % b
  {
    if a > 0 then a % b
    else if a == 0 then 0
    else
      var t, q := (-a) % b, (-a) / b;
      assert a == -t + b * -q;
      AddMultiple(-t, b, -q);
      -t
  }

  /** Adding a multiple of b leaves the residue modulo b alone. */
  lemma AddMultiple(x: int, b: int, k: int)
    requires b > 0
    ensures (x + b * k) % b == x % b
  {
    var q, r := x / b, x % b;
    assert x + b * k == b * (q + k) + r;
    ModUnique(x + b * k, b, q + k, r);
  }

  /** Euclidean division is unique: a remainder in 0 .. b-1 is the residue. */
  lemma ModUnique(n: int, b: int, q: int, r: int)
    requires b > 0 && 0 <= r < b && n == b * q + r
    ensures n % b == r
  {
    var q', r' := n / b, n % b;
    assert b * q - b * q' == r' - r;
    Distribute(b, q, q');
    if q != q' {
      MultipleAtLeast(b, q - q');
      assert false;
    }
  }

  lemma Distribute(b: int, x: int, y: int)
    ensures b * (x - y) == b * x - b * y
  {
  }

  /** A nonzero multiple of b is at least b in magnitude. */
  lemma {:induction false} MultipleAtLeast(b: int, k: int)
    requires b > 0 && k != 0
    ensures b * k >= b || b * k <= -b
    decreases if k < 0 then -k else k
  {
    if k > 1 {
      MultipleAtLeast(b, k - 1);
      assert b * k == b * (k - 1) + b;
    } else if k < -1 {
      MultipleAtLeast(b, k + 1);
      assert b * k == b * (k + 1) - b;
    }
  }

  /** The position in the cycle `diffDays` days after the reference date:
      the JavaScript remainder, moved up by 5 when negative, is the
      mathematical residue. */
  function PasaranIndex(diffDays: int): (i: int)
    ensures 0 <= i < 5
    ensures i == (RefPasaranIndex + diffDays) % 5
  {
    var index := JsRem(RefPasaranIndex + diffDays, 5);
    if index < 0 then index + 5 else index
  }

  /** The five names are distinct, so a label determines its position in the
      cycle. */
  lemma PasaranNamesDistinct(i: int, j: int)
    requires 0 <= i < 5 && 0 <= j < 5 && i != j
    ensures Pasaran[i] != Pasaran[j]
  {
    assert Pasaran[0][0] == 'L' && Pasaran[3][0] == 'W' && Pasaran[4][0] == 'K';
    assert Pasaran[1][0] == 'P' && Pasaran[1][1] == 'a';
    assert Pasaran[2][0] == 'P' && Pasaran[2][1] == 'o';
  }

  /** `Math.floor(diff / 86400000)` of a difference of two midnight time
      values is the difference of their day numbers. */
  lemma WholeDays(a: int, b: int)
    ensures (a * MsPerDay - b * MsPerDay) / MsPerDay == a - b
  {
    assert a * MsPerDay - b * MsPerDay == (a - b) * MsPerDay;
  }

  /** `getJavanesePasaran` as written: both dates are rebuilt with
      `Date.UTC(getFullYear(), getMonth(), getDate())`, which reads the years
      0..99 as 1900..1999. */
  function JavanesePasaranAsWritten(date: Date): (r: string)
    requires date.Valid()
    ensures r in Pasaran
  {
    var d := DateUtc(date.year, date.month, date.day);
    var ref := DateUtc(RefDate.year, RefDate.month, RefDate.day);
    var diffDays := (d - ref) / MsPerDay;
    Pasaran[PasaranIndex(diffDays)]
  }

  /** `getJavanesePasaran` with the day difference taken from the dates'
      own time values. */
  function JavanesePasaran(date: Date): (r: string)
    requires date.Valid()
    ensures r in Pasaran
  {
    var diffDays := (GetTime(date) - GetTime(RefDate)) / MsPerDay;
    Pasaran[PasaranIndex(diffDays)]
  }

  function PasaranPhase(n: int): (i: int)
    ensures 0 <= i < 5
  {
    (1 + n - 19723) % 5
  }

  /** The phase of a day number written as 5 * q + r days past the day
      before the reference date. */
  lemma PhaseByQuotient(n: int, q: int, r: int)
    requires 0 <= r < 5 && 1 + n - 19723 == 5 * q + r
    ensures PasaranPhase(n) == r
  {
  }

  lemma MultipleOfFive(k: int, n: int)
    requires k == 5 * n
    ensures k % 5 == 0
  {
  }

  lemma PhaseAgrees(x: int, y: int)
    ensures PasaranPhase(x) == PasaranPhase(y) <==> (x - y) % 5 == 0
  {
  }

  /** The reference date and the other fixed days the lemmas below use,
      as day numbers. */
  lemma RefDateIs()
    ensures RefDate == Date(2024, 0, 1)
  {
  }

  lemma DayOfRefDate()
    ensures DayNumber(Date(2024, 0, 1)) == 19723
  {
  }

  lemma MonthStartOf2024()
    ensures MonthStart(2024, 0) == 19723
  {
  }

  lemma DayFromYear1900()
    ensures DayFromYear(1900) == -25567
  {
  }

  lemma YearZeroDayNumbers()
    ensures DayNumber(Date(0, 1, 27)) == -719471
    ensures DayNumber(Date(0, 2, 3)) == -719466
  {
  }

  /** The label's position in the cycle is one more than the number of days
      since the reference date, modulo 5 (day 19723 is 1 January 2024). */
  lemma PasaranIndexOfDate(date: Date)
    requires date.Valid()
    ensures DayNumber(RefDate) == 19723
    ensures JavanesePasaran(date) == Pasaran[PasaranPhase(DayNumber(date))]
  {
    RefDateIs();
    DayOfRefDate();
    WholeDays(DayNumber(date), 19723);
  }

  lemma PasaranAtReference()
    ensures JavanesePasaran(Date(2024, 0, 1)) == "Pahing"
  {
    PasaranIndexOfDate(Date(2024, 0, 1));
    PhaseByQuotient(19723, 0, 1);
  }

  /** Two dates carry the same Pasaran exactly when they lie a multiple of
      five days apart, before or after the reference date alike. */
  lemma PasaranPeriod(a: Date, b: Date)
    requires a.Valid() && b.Valid()
    ensures JavanesePasaran(a) == JavanesePasaran(b) <==> (DayNumber(a) - DayNumber(b)) % 5 == 0
  {
    PasaranIndexOfDate(a);
    PasaranIndexOfDate(b);
    var na, nb := DayNumber(a), DayNumber(b);
    PhaseAgrees(na, nb);
    if PasaranPhase(na) != PasaranPhase(nb) {
      PasaranNamesDistinct(PasaranPhase(na), PasaranPhase(nb));
    }
  }

  /** Any multiple of five days earlier or later, the Pasaran repeats. */
  lemma PasaranRepeatsEveryFiveDays(date: Date, n: int)
    requires date.Valid()
    ensures JavanesePasaran(AddDays(date, 5 * n)) == JavanesePasaran(date)
  {
    var later := AddDays(date, 5 * n);
    PasaranPeriod(later, date);
    MultipleOfFive(DayNumber(later) - DayNumber(date), n);
  }

  /** Outside the years 0..99 the code as written computes the same label. */
  lemma PasaranAsWrittenOutsideTwoDigitYears(date: Date)
    requires date.Valid() && !(0 <= date.year <= 99)
    ensures JavanesePasaranAsWritten(date) == JavanesePasaran(date)
  {
    MonthStartInRange(date.year, date.month);
    RefDateIs();
    MonthStartOf2024();
    DayOfRefDate();
    WholeDays(DayNumber(date), 19723);
  }

  /** The code as written mislabels exactly the days from 1 January to
      29 February of year 0; on every other day it computes the corrected
      label. */
  lemma PasaranAsWrittenExactlyOutsideEarlyYearZero(date: Date)
    requires date.Valid()
    ensures JavanesePasaranAsWritten(date) == JavanesePasaran(date) <==> !(date.year == 0 && date.month < 2)
  {
    if 0 <= date.year <= 99 {
      PasaranAsWrittenInTwoDigitYears(date);
    } else {
      PasaranAsWrittenOutsideTwoDigitYears(date);
    }
  }

  /** In the years 0..99 `Date.UTC` lands 693961 days later before March of
      year 0, one more than a multiple of five, and 693960 days later
      everywhere else. */
  lemma PasaranAsWrittenInTwoDigitYears(date: Date)
    requires date.Valid() && 0 <= date.year <= 99
    ensures JavanesePasaranAsWritten(date) == JavanesePasaran(date) <==> !(date.year == 0 && date.month < 2)
  {
    var n := DayNumber(date);
    var early := date.year == 0 && date.month < 2;
    var shift := if early then 693961 else 693960;
    TwoDigitYearShift(date);
    PasaranAsWrittenOfUtcDay(date, n + shift);
    PasaranIndexOfDate(date);
    ShiftedPhase(n, early);
  }

  /** Shifting a day number by 693960 keeps its phase; by 693961 it does
      not, so the label changes. */
  lemma ShiftedPhase(n: int, early: bool)
    ensures var shift := if early then 693961 else 693960;
            Pasaran[PasaranPhase(n + shift)] == Pasaran[PasaranPhase(n)] <==> !early
  {
    var shift := if early then 693961 else 693960;
    assert shift == 5 * 138792 + (if early then 1 else 0);
    PhaseAgrees(n + shift, n);
    if early {
      PasaranNamesDistinct(PasaranPhase(n + shift), PasaranPhase(n));
    }
  }

  /** The label as written depends only on the day number that `Date.UTC`
      gives the date's fields. */
  lemma PasaranAsWrittenOfUtcDay(date: Date, n: int)
    requires date.Valid() && DateUtc(date.year, date.month, date.day) == n * MsPerDay
    ensures JavanesePasaranAsWritten(date) == Pasaran[PasaranPhase(n)]
  {
    RefDateIs();
    MonthStartOf2024();
    WholeDays(n, 19723);
  }

  /** The first days of the months of 1900, a common year, as day numbers. */
  lemma MonthStartOf1900(m: int)
    requires 0 <= m < 12
    ensures JsYear(0) == 1900
    ensures MonthStart(1900, m) == -25567 + DaysBeforeMonth(1900, m)
  {
    MonthStartInRange(1900, m);
    DayFromYear1900();
  }

  /** As written, 27 February of year 0 is labelled as 27 February 1900. */
  lemma AsWrittenFebruaryOfYearZero()
    ensures JavanesePasaranAsWritten(Date(0, 1, 27)) == "Wage"
  {
    assert DateUtc(0, 1, 27) == -25510 * MsPerDay by {
      MonthStartOf1900(1);
    }
    PasaranAsWrittenOfUtcDay(Date(0, 1, 27), -25510);
    PhaseByQuotient(-25510, -9047, 3);
  }

  /** As written, 3 March of year 0 is labelled as 3 March 1900. */
  lemma AsWrittenMarchOfYearZero()
    ensures JavanesePasaranAsWritten(Date(0, 2, 3)) == "Pon"
  {
    assert DateUtc(0, 2, 3) == -25506 * MsPerDay by {
      MonthStartOf1900(2);
    }
    PasaranAsWrittenOfUtcDay(Date(0, 2, 3), -25506);
    PhaseByQuotient(-25506, -9046, 2);
  }

  /** Both days carry Pon: their day numbers are five apart and one more
      than a multiple of five, counted from the reference date. */
  lemma PasaranOfYearZeroDays()
    ensures JavanesePasaran(Date(0, 1, 27)) == "Pon"
    ensures JavanesePasaran(Date(0, 2, 3)) == "Pon"
  {
    var a, b := Date(0, 1, 27), Date(0, 2, 3);
    YearZeroDayNumbers();
    PasaranIndexOfDate(a);
    PasaranIndexOfDate(b);
    PhaseByQuotient(-719471, -147839, 2);
    PhaseByQuotient(-719466, -147838, 2);
    assert Pasaran[2] == "Pon";
  }

  /** 27 February and 3 March of year 0 are five days apart (year 0 is a
      leap year), yet the code as written gives them different labels: it
      computes the labels of 27 February and 3 March 1900, four days apart. */
  lemma PasaranAsWrittenBreaksInYearZero()
    ensures AddDays(Date(0, 1, 27), 5) == Date(0, 2, 3)
    ensures JavanesePasaranAsWritten(Date(0, 1, 27)) == "Wage"
    ensures JavanesePasaranAsWritten(Date(0, 2, 3)) == "Pon"
    ensures JavanesePasaran(Date(0, 1, 27)) == JavanesePasaran(Date(0, 2, 3)) == "Pon"
  {
    var a, b := Date(0, 1, 27), Date(0, 2, 3);
    YearZeroDayNumbers();
    DayNumberInjective(AddDays(a, 5), b);
    AsWrittenFebruaryOfYearZero();
    AsWrittenMarchOfYearZero();
    PasaranOfYearZeroDays();
  }

  /** The mislabel can be seen across a new year: 27 December of year -1 and
      1 January of year 0 are five days apart and both Legi, but as written
      the second is labelled Pahing. */
  lemma PasaranAsWrittenBreaksAtYearZero()
    ensures AddDays(Date(-1, 11, 27), 5) == Date(0, 0, 1)
    ensures JavanesePasaranAsWritten(Date(-1, 11, 27)) == JavanesePasaran(Date(-1, 11, 27)) == "Legi"
    ensures JavanesePasaranAsWritten(Date(0, 0, 1)) == "Pahing"
    ensures JavanesePasaran(Date(0, 0, 1)) == "Legi"
  {
    var a, b := Date(-1, 11, 27), Date(0, 0, 1);
    NewYearOfYearZeroDayNumbers();
    DayNumberInjective(AddDays(a, 5), b);
    PasaranAsWrittenOutsideTwoDigitYears(a);
    PasaranIndexOfDate(a);
    PasaranIndexOfDate(b);
    PhaseByQuotient(-719533, -147851, 0);
    PhaseByQuotient(-719528, -147850, 0);
    assert DateUtc(0, 0, 1) == -25567 * MsPerDay by {
      MonthStartOf1900(0);
    }
    PasaranAsWrittenOfUtcDay(b, -25567);
    PhaseByQuotient(-25567, -9058, 1);
  }

  lemma NewYearOfYearZeroDayNumbers()
    ensures DayNumber(Date(-1, 11, 27)) == -719533
    ensures DayNumber(Date(0, 0, 1)) == -719528
  {
  }

  /** And both days are on one screen: in the grid of December of year -1,
      cell 29 is the 27th and cell 34 is 1 January of year 0. */
  lemma YearZeroInDecemberGrid(today: Date, intl: Intl)
    ensures Grid(-1, 11, today, intl)[29].date == Date(-1, 11, 27)
    ensures Grid(-1, 11, today, intl)[34].date == Date(0, 0, 1)
  {
    DecemberOfYearMinusOne();
    GridCurrentMonth(-1, 11, today, intl, 29);
    GridTrailingPadding(-1, 11, today, intl, 34);
  }

  /** December of year -1 starts on a Wednesday and has 31 days, and its
      month 12 is January of year 0. */
  lemma DecemberOfYearMinusOne()
    ensures FirstOfMonth(-1, 11) == Date(-1, 11, 1)
    ensures LeadingDays(-1, 11) == 3 && MonthLength(-1, 11) == 31
    ensures NewDate(-1, 12, 1) == Date(0, 0, 1)
  {
    assert DayNumber(Date(-1, 11, 1)) == -719559;
    assert MonthStart(-1, 12) == -719528 by {
      assert NormalYear(-1, 12) == 0 && NormalMonth(12) == 0;
    }
    NewDateIs(-1, 12, 1, Date(0, 0, 1));
  }

  // ---------------------------------------------------------------------
  // Fixed holidays and the host's calendar conversions
  // ---------------------------------------------------------------------

  /** The fixed-date holidays; the year plays no part. */
  function GetHoliday(date: Date): (r: Option<string>)
    ensures r.Some? <==> (date.month, date.day) in {(0, 1), (4, 1), (5, 1), (7, 17), (11, 25)}
    ensures (date.month, date.day) == (0, 1) ==> r == Some("Tahun Baru Masehi")
    ensures (date.month, date.day) == (4, 1) ==> r == Some("Hari Buruh")
    ensures (date.month, date.day) == (5, 1) ==> r == Some("Hari Lahir Pancasila")
    ensures (date.month, date.day) == (7, 17) ==> r == Some("HUT RI")
    ensures (date.month, date.day) == (11, 25) ==> r == Some("Hari Natal")
  {
    if date.month == 0 && date.day == 1 then Some("Tahun Baru Masehi")
    else if date.month == 4 && date.day == 1 then Some("Hari Buruh")
    else if date.month == 5 && date.day == 1 then Some("Hari Lahir Pancasila")
    else if date.month == 7 && date.day == 17 then Some("HUT RI")
    else if date.month == 11 && date.day == 25 then Some("Hari Natal")
    else None
  }

  lemma HolidayIgnoresYear(date: Date, y: int)
    ensures GetHoliday(date.(year := y)) == GetHoliday(date)
  {
  }

  /** The host's `Intl.DateTimeFormat` for the Islamic Umm al-Qura and the
      Chinese calendars; `None` when the host throws. */
  datatype Intl = Intl(hijri: Date -> Option<string>, chinese: Date -> Option<string>)

  function GetHijriDate(intl: Intl, date: Date): (r: string)
    ensures intl.hijri(date).None? ==> r == ""
    ensures intl.hijri(date).Some? ==> r == intl.hijri(date).value
  {
    intl.hijri(date).GetOr("")
  }

  function GetChineseDate(intl: Intl, date: Date): (r: string)
    ensures intl.chinese(date).None? ==> r == ""
    ensures intl.chinese(date).Some? ==> r == intl.chinese(date).value
  {
    intl.chinese(date).GetOr("")
  }

  // ---------------------------------------------------------------------
  // The month grid
  // ---------------------------------------------------------------------

  /** The record every loop of `generateCalendarGrid` pushes: the labels come
      from the date alone. */
  function Labelled(d: Date, isCurrentMonth: bool, isToday: bool, dayOfMonth: int, intl: Intl): DayData
    requires d.Valid()
  {
    DayData(d, isCurrentMonth, isToday, dayOfMonth,
            GetHijriDate(intl, d), JavanesePasaran(d), GetChineseDate(intl, d),
            GetHoliday(d), WeekDay(d) == 0 || WeekDay(d) == 6)
  }

  /** The 1st of the month that a possibly out-of-range month index names,
      as `new Date(year, month, 1)` reports it (FirstOfMonthIs). */
  function FirstOfMonth(year: int, month: int): (d: Date)
    ensures d.Valid()
  {
    Date(NormalYear(JsYear(year), month), NormalMonth(month), 1)
  }

  /** Padding days before the 1st: the weekday of the 1st. */
  function LeadingDays(year: int, month: int): (n: int)
    ensures 0 <= n < 7
  {
    WeekDay(FirstOfMonth(year, month))
  }

  function MonthLength(year: int, month: int): (n: int)
    ensures 28 <= n <= 31
  {
    var first := FirstOfMonth(year, month);
    DaysInMonth(first.year, first.month)
  }

  /** The date of cell k: the valid date k days after the Sunday on or
      before the 1st. */
  ghost function GridDate(year: int, month: int, k: int): (d: Date)
    ensures d.Valid()
    ensures DayNumber(d) == DayNumber(FirstOfMonth(year, month)) + k - LeadingDays(year, month)
  {
    AddDays(FirstOfMonth(year, month), k - LeadingDays(year, month))
  }

  /** The month grid: 42 consecutive days from the Sunday on or before the
      1st; the days of the month itself are the current-month cells, and
      only one of those can be today. */
  ghost function Grid(year: int, month: int, today: Date, intl: Intl): (g: seq<DayData>)
    ensures |g| == 42
  {
    seq(42, k => Cell(year, month, today, intl, k))
  }

  /** Cell k of the grid. */
  ghost function Cell(year: int, month: int, today: Date, intl: Intl, k: int): DayData {
    var d := GridDate(year, month, k);
    var current := LeadingDays(year, month) <= k < LeadingDays(year, month) + MonthLength(year, month);
    Labelled(d, current, current && d == today, d.day, intl)
  }

  /** `new Date(y, m, d)` is the valid date whose day number MakeDay gives. */
  lemma NewDateIs(y: int, m: int, d: int, expected: Date)
    requires expected.Valid()
    requires DayNumber(expected) == MonthStart(JsYear(y), m) + d - 1
    ensures NewDate(y, m, d) == expected
  {
    DayNumberInjective(NewDate(y, m, d), expected);
  }

  /** `new Date(year, month, 1)` with the month index brought into range. */
  lemma FirstOfMonthIs(year: int, month: int)
    ensures NewDate(year, month, 1) == FirstOfMonth(year, month)
  {
    var first := FirstOfMonth(year, month);
    MonthStartInRange(first.year, first.month);
    NewDateIs(year, month, 1, first);
  }

  /** `new Date(year, month, 0)`: the last day of the previous month. */
  lemma PrevMonthEnd(year: int, month: int)
    ensures var py, pm := NormalYear(JsYear(year), month - 1), NormalMonth(month - 1);
            NewDate(year, month, 0) == Date(py, pm, DaysInMonth(py, pm))
  {
    var py, pm := NormalYear(JsYear(year), month - 1), NormalMonth(month - 1);
    var last := Date(py, pm, DaysInMonth(py, pm));
    assert DayNumber(last) == MonthStart(JsYear(year), month) - 1 by {
      MonthStartPrev(JsYear(year), month);
    }
    NewDateIs(year, month, 0, last);
  }

  /** `new Date(year, month + 1, 0)`: the last day of the month. */
  lemma MonthEnd(year: int, month: int)
    ensures var first := FirstOfMonth(year, month);
            NewDate(year, month + 1, 0) == Date(first.year, first.month, MonthLength(year, month))
  {
    var first := FirstOfMonth(year, month);
    var last := Date(first.year, first.month, MonthLength(year, month));
    assert DayNumber(last) == MonthStart(JsYear(year), month + 1) - 1 by {
      MonthStartNext(JsYear(year), month);
    }
    NewDateIs(year, month + 1, 0, last);
  }

  /** Cell k before the 1st is `new Date(year, month - 1, prevMonthDays - i)`
      with i = lead - 1 - k. */
  lemma LeadingCellDate(year: int, month: int, k: int)
    requires 0 <= k < LeadingDays(year, month)
    ensures GridDate(year, month, k)
         == NewDate(year, month - 1, NewDate(year, month, 0).day - (LeadingDays(year, month) - 1 - k))
  {
    var x := NewDate(year, month, 0).day - (LeadingDays(year, month) - 1 - k);
    assert DayNumber(GridDate(year, month, k)) == MonthStart(JsYear(year), month - 1) + x - 1 by {
      PrevMonthEnd(year, month);
      MonthStartPrev(JsYear(year), month);
    }
    NewDateIs(year, month - 1, x, GridDate(year, month, k));
  }

  /** Cell lead + i - 1 is `new Date(year, month, i)`, whose day is i. */
  lemma MonthCellDate(year: int, month: int, i: int)
    requires 1 <= i <= MonthLength(year, month)
    ensures var k := LeadingDays(year, month) + i - 1;
            var first := FirstOfMonth(year, month);
            && GridDate(year, month, k) == NewDate(year, month, i)
            && GridDate(year, month, k) == Date(first.year, first.month, i)
  {
    var first := FirstOfMonth(year, month);
    var d := Date(first.year, first.month, i);
    DayNumberInjective(GridDate(year, month, LeadingDays(year, month) + i - 1), d);
    DayNumberInjective(NewDate(year, month, i), d);
  }

  /** The month after (year, month) starts `MonthLength` days after the 1st. */
  lemma NextMonthStart(year: int, month: int)
    ensures MonthStart(JsYear(year), month + 1)
         == DayNumber(FirstOfMonth(year, month)) + MonthLength(year, month)
  {
    FirstOfMonthIs(year, month);
    MonthStartNext(JsYear(year), month);
  }

  /** Cell lead + dim + i - 1 is `new Date(year, month + 1, i)`, whose day is i. */
  lemma TrailingCellDate(year: int, month: int, i: int)
    requires 1 <= i <= 28
    ensures var k := LeadingDays(year, month) + MonthLength(year, month) + i - 1;
            && GridDate(year, month, k) == NewDate(year, month + 1, i)
            && GridDate(year, month, k).day == i
  {
    var first := FirstOfMonth(year, month);
    var k := LeadingDays(year, month) + MonthLength(year, month) + i - 1;
    var g := GridDate(year, month, k);
    assert DayNumber(g) == DayNumber(first) + MonthLength(year, month) + i - 1;
    NextMonthStart(year, month);
    NewDateIs(year, month + 1, i, g);
    assert NewDate(year, month + 1, i).day == i by {
      TrailingDay(year, month + 1, i);
    }
  }

  /** A day 1..28 of any month is kept as it is. */
  lemma TrailingDay(year: int, month: int, i: int)
    requires 1 <= i <= 28
    ensures NewDate(year, month, i) == Date(NormalYear(JsYear(year), month), NormalMonth(month), i)
  {
  }

  /** Appending element n of s to the first n elements gives the first
      n + 1. */
  lemma PrefixStep<T>(s: seq<T>, n: int, done: seq<T>, c: T)
    requires 0 <= n < |s| && done == s[..n] && c == s[n]
    ensures done + [c] == s[..n + 1]
  {
    assert s[..n + 1] == s[..n] + [s[n]];
  }

  /** The record the first loop builds for i: the day prevMonthDays - i of
      the previous month, grid cell lead - 1 - i. */
  method LeadingRecord(year: int, month: int, today: Date, intl: Intl, prevMonthDays: int, i: int)
    returns (c: DayData)
    requires prevMonthDays == NewDate(year, month, 0).day
    requires 0 <= i < LeadingDays(year, month)
    ensures c == Grid(year, month, today, intl)[LeadingDays(year, month) - 1 - i]
  {
    var d := NewDate(year, month - 1, prevMonthDays - i);
    LeadingCellDate(year, month, LeadingDays(year, month) - 1 - i);
    GridCell(year, month, today, intl, LeadingDays(year, month) - 1 - i);
    c := Labelled(d, false, false, d.day, intl);
  }

  /** The record the second loop builds for day i of the month, grid cell
      lead + i - 1; it is marked today when its fields are today's. */
  method MonthRecord(year: int, month: int, today: Date, intl: Intl, i: int)
    returns (c: DayData)
    requires 1 <= i <= MonthLength(year, month)
    ensures c == Grid(year, month, today, intl)[LeadingDays(year, month) + i - 1]
  {
    var d := NewDate(year, month, i);
    var isToday := d.day == today.day && d.month == today.month && d.year == today.year;
    MonthCellDate(year, month, i);
    GridCell(year, month, today, intl, LeadingDays(year, month) + i - 1);
    c := Labelled(d, true, isToday, i, intl);
  }

  /** The record the third loop builds for day i of the next month, grid
      cell lead + dim + i - 1. */
  method TrailingRecord(year: int, month: int, today: Date, intl: Intl, i: int)
    returns (c: DayData)
    requires 1 <= i <= 28
    requires LeadingDays(year, month) + MonthLength(year, month) + i <= 42
    ensures c == Grid(year, month, today, intl)[LeadingDays(year, month) + MonthLength(year, month) + i - 1]
  {
    var d := NewDate(year, month + 1, i);
    TrailingCellDate(year, month, i);
    GridCell(year, month, today, intl, LeadingDays(year, month) + MonthLength(year, month) + i - 1);
    c := Labelled(d, false, false, i, intl);
  }

  /** `generateCalendarGrid`: leading days of the previous month, the days of
      the month, then days of the next month up to 42 cells. */
  method GenerateCalendarGrid(year: int, month: int, today: Date, intl: Intl)
    returns (days: seq<DayData>)
    ensures days == Grid(year, month, today, intl)
  {
    var firstDayOfMonth := NewDate(year, month, 1);
    var daysInMonth := NewDate(year, month + 1, 0).day;
    var startDayOfWeek := WeekDay(firstDayOfMonth);
    assert daysInMonth == MonthLength(year, month) by { MonthEnd(year, month); }
    days := PushPreviousMonthDays(year, month, today, intl, startDayOfWeek);
    days := PushMonthDays(year, month, today, intl, daysInMonth, days);
    var remainingCells := 42 - |days|;
    days := PushNextMonthDays(year, month, today, intl, remainingCells, days);
  }

  /** The first loop: the last `startDayOfWeek` days of the previous month,
      oldest first. */
  method PushPreviousMonthDays(year: int, month: int, today: Date, intl: Intl, startDayOfWeek: int)
    returns (days: seq<DayData>)
    requires startDayOfWeek == LeadingDays(year, month)
    ensures |days| == startDayOfWeek
    ensures days == Grid(year, month, today, intl)[..startDayOfWeek]
  {
    ghost var g := Grid(year, month, today, intl);
    days := [];
    var prevMonthDays := NewDate(year, month, 0).day;
    var i := startDayOfWeek - 1;
    while i >= 0
      invariant -1 <= i < startDayOfWeek
      invariant days == g[..startDayOfWeek - 1 - i]
    {
      var c := LeadingRecord(year, month, today, intl, prevMonthDays, i);
      PrefixStep(g, startDayOfWeek - 1 - i, days, c);
      days := days + [c];
      i := i - 1;
    }
  }

  /** The second loop: days 1..daysInMonth, today's cell marked. */
  method PushMonthDays(year: int, month: int, today: Date, intl: Intl, daysInMonth: int, leading: seq<DayData>)
    returns (days: seq<DayData>)
    requires daysInMonth == MonthLength(year, month)
    requires |leading| == LeadingDays(year, month)
    requires leading == Grid(year, month, today, intl)[..|leading|]
    ensures |days| == |leading| + daysInMonth
    ensures days == Grid(year, month, today, intl)[..|days|]
  {
    ghost var g := Grid(year, month, today, intl);
    days := leading;
    for i := 1 to daysInMonth + 1
      invariant days == g[..|leading| + i - 1]
    {
      var c := MonthRecord(year, month, today, intl, i);
      PrefixStep(g, |leading| + i - 1, days, c);
      days := days + [c];
    }
  }

  /** The third loop: days 1, 2, … of the next month up to `remainingCells`. */
  method PushNextMonthDays(year: int, month: int, today: Date, intl: Intl, remainingCells: int, done: seq<DayData>)
    returns (days: seq<DayData>)
    requires |done| == LeadingDays(year, month) + MonthLength(year, month)
    requires done == Grid(year, month, today, intl)[..|done|]
    requires remainingCells == 42 - |done|
    ensures days == Grid(year, month, today, intl)
  {
    ghost var g := Grid(year, month, today, intl);
    days := done;
    for i := 1 to remainingCells + 1
      invariant days == g[..|done| + i - 1]
    {
      var c := TrailingRecord(year, month, today, intl, i);
      PrefixStep(g, |done| + i - 1, days, c);
      days := days + [c];
    }
    assert g[..42] == g;
  }

  // ---------------------------------------------------------------------
  // Properties of the grid
  // ---------------------------------------------------------------------

  lemma GridCell(year: int, month: int, today: Date, intl: Intl, k: int)
    requires 0 <= k < 42
    ensures Grid(year, month, today, intl)[k] == Cell(year, month, today, intl, k)
  {
  }

  /** Cell k falls on weekday k % 7: every row runs Sunday to Saturday. */
  lemma CellWeekDay(year: int, month: int, k: int)
    ensures WeekDay(GridDate(year, month, k)) == k % 7
  {
    var first, lead := FirstOfMonth(year, month), LeadingDays(year, month);
    WeekDayAfter(first, k - lead);
    assert WeekDay(GridDate(year, month, k)) == (lead + (k - lead)) % 7;
  }

  /** k days after a date, the weekday has moved on by k modulo 7. */
  lemma WeekDayAfter(d: Date, k: int)
    requires d.Valid()
    ensures WeekDay(AddDays(d, k)) == (WeekDay(d) + k) % 7
  {
    var n := DayNumber(d);
    WeekDayShift(n + 4, k);
  }

  lemma WeekDayShift(m: int, k: int)
    ensures (m + k) % 7 == (m % 7 + k) % 7
  {
    var q := m / 7;
    assert m + k == (m % 7 + k) + 7 * q;
  }

  /** Consecutive cells hold consecutive days. */
  lemma CellsConsecutive(year: int, month: int, k: int)
    ensures DayNumber(GridDate(year, month, k + 1)) == DayNumber(GridDate(year, month, k)) + 1
    ensures GridDate(year, month, k + 1) == AddDays(GridDate(year, month, k), 1)
  {
    var d := GridDate(year, month, k);
    DayNumberInjective(GridDate(year, month, k + 1), AddDays(d, 1));
  }

  /** A valid date lies in the month of (year, month) exactly when its day
      number falls in the month's `MonthLength` days from the 1st. */
  lemma InMonthIffInRange(year: int, month: int, d: Date)
    requires d.Valid()
    ensures var first := FirstOfMonth(year, month);
            (d.year == first.year && d.month == first.month)
              <==> DayNumber(first) <= DayNumber(d) < DayNumber(first) + MonthLength(year, month)
  {
    var first := FirstOfMonth(year, month);
    FirstOfMonthIs(year, month);
    var n := DayNumber(d) - DayNumber(first) + 1;
    if DayNumber(first) <= DayNumber(d) < DayNumber(first) + MonthLength(year, month) {
      DayNumberInjective(d, Date(first.year, first.month, n));
    }
  }

  /** Exactly the cells lead .. lead + dim - 1 hold days of the month itself. */
  lemma CellInMonth(year: int, month: int, k: int)
    ensures var first, d := FirstOfMonth(year, month), GridDate(year, month, k);
            (d.year == first.year && d.month == first.month)
              <==> LeadingDays(year, month) <= k < LeadingDays(year, month) + MonthLength(year, month)
  {
    InMonthIffInRange(year, month, GridDate(year, month, k));
  }

  /** Distinct cells hold distinct dates. */
  lemma CellDatesDistinct(year: int, month: int, j: int, k: int)
    requires j != k
    ensures GridDate(year, month, j) != GridDate(year, month, k)
  {
    assert DayNumber(GridDate(year, month, j)) - DayNumber(GridDate(year, month, k)) == j - k;
  }

  /** For a month index in 0..11 and a four-digit year, the 1st is the date
      those fields name. */
  lemma FirstOfPlainMonth(year: int, month: int)
    requires 0 <= month < 12 && !(0 <= year <= 99)
    ensures FirstOfMonth(year, month) == Date(year, month, 1)
  {
    FirstOfMonthIs(year, month);
  }

  /** Rows run Sunday to Saturday, so the weekend cells are the first and
      last column. */
  lemma GridColumns(year: int, month: int, today: Date, intl: Intl, k: int)
    requires 0 <= k < 42
    ensures var c := Grid(year, month, today, intl)[k];
            && WeekDay(c.date) == k % 7
            && (c.isWeekend <==> k % 7 == 0 || k % 7 == 6)
  {
    GridCell(year, month, today, intl, k);
    CellWeekDay(year, month, k);
  }

  /** The 42 cells are 42 consecutive days. */
  lemma GridConsecutive(year: int, month: int, today: Date, intl: Intl, k: int)
    requires 0 <= k < 41
    ensures var g := Grid(year, month, today, intl);
            g[k + 1].date == AddDays(g[k].date, 1)
  {
    GridCell(year, month, today, intl, k);
    GridCell(year, month, today, intl, k + 1);
    CellsConsecutive(year, month, k);
  }

  /** The current-month cells are the cells lead .. lead + dim - 1, they hold
      exactly the days of the month, and cell lead + i - 1 holds day i. */
  lemma GridCurrentMonth(year: int, month: int, today: Date, intl: Intl, k: int)
    requires 0 <= k < 42
    ensures var c, first := Grid(year, month, today, intl)[k], FirstOfMonth(year, month);
            var lead := LeadingDays(year, month);
            && (c.isCurrentMonth <==> lead <= k < lead + MonthLength(year, month))
            && (c.isCurrentMonth <==> c.date.year == first.year && c.date.month == first.month)
            && (c.isCurrentMonth ==> c.date == Date(first.year, first.month, k - lead + 1))
            && c.dayOfMonth == c.date.day
  {
    GridCell(year, month, today, intl, k);
    CellInMonth(year, month, k);
    var lead := LeadingDays(year, month);
    if lead <= k < lead + MonthLength(year, month) {
      MonthCellDate(year, month, k - lead + 1);
    }
  }

  /** A cell is marked today exactly when it is a current-month cell whose
      date is `today`. */
  lemma GridToday(year: int, month: int, today: Date, intl: Intl, k: int)
    requires 0 <= k < 42
    ensures var c := Grid(year, month, today, intl)[k];
            c.isToday <==> c.isCurrentMonth && c.date == today
  {
    GridCell(year, month, today, intl, k);
  }

  /** At most one cell is marked today. */
  lemma GridTodayUnique(year: int, month: int, today: Date, intl: Intl, j: int, k: int)
    requires 0 <= j < 42 && 0 <= k < 42
    ensures var g := Grid(year, month, today, intl);
            g[j].isToday && g[k].isToday ==> j == k
  {
    GridCell(year, month, today, intl, j);
    GridCell(year, month, today, intl, k);
    if j != k {
      CellDatesDistinct(year, month, j, k);
    }
  }

  /** Some cell is marked today exactly when `today` is a day of the month
      shown. */
  lemma GridTodayPresent(year: int, month: int, today: Date, intl: Intl)
    ensures var g, first := Grid(year, month, today, intl), FirstOfMonth(year, month);
            (exists k :: 0 <= k < 42 && g[k].isToday)
              <==> today.Valid() && today.year == first.year && today.month == first.month
  {
    var g, first := Grid(year, month, today, intl), FirstOfMonth(year, month);
    if exists k :: 0 <= k < 42 && g[k].isToday {
      var k :| 0 <= k < 42 && g[k].isToday;
      TodayCellInMonth(year, month, today, intl, k);
    }
    if today.Valid() && today.year == first.year && today.month == first.month {
      TodayHasCell(year, month, today, intl);
    }
  }

  /** A cell marked today holds a valid date of the month shown. */
  lemma TodayCellInMonth(year: int, month: int, today: Date, intl: Intl, k: int)
    requires 0 <= k < 42 && Grid(year, month, today, intl)[k].isToday
    ensures var first := FirstOfMonth(year, month);
            today.Valid() && today.year == first.year && today.month == first.month
  {
    GridToday(year, month, today, intl, k);
    GridCurrentMonth(year, month, today, intl, k);
  }

  /** A day of the month shown is marked in cell lead + day - 1. */
  lemma TodayHasCell(year: int, month: int, today: Date, intl: Intl)
    requires var first := FirstOfMonth(year, month);
             today.Valid() && today.year == first.year && today.month == first.month
    ensures var k := LeadingDays(year, month) + today.day - 1;
            0 <= k < 42 && Grid(year, month, today, intl)[k].isToday
  {
    var k := LeadingDays(year, month) + today.day - 1;
    MonthCellDate(year, month, today.day);
    GridCell(year, month, today, intl, k);
  }

  /** Each cell's labels are those of its date alone; cells five apart carry
      the same Pasaran. */
  lemma GridLabels(year: int, month: int, today: Date, intl: Intl, k: int)
    requires 0 <= k < 42
    ensures var g := Grid(year, month, today, intl);
            && g[k].javaneseDate == JavanesePasaran(g[k].date)
            && g[k].holiday == GetHoliday(g[k].date)
            && g[k].hijriDate == GetHijriDate(intl, g[k].date)
            && g[k].chineseDate == GetChineseDate(intl, g[k].date)
            && (k + 5 < 42 ==> g[k + 5].javaneseDate == g[k].javaneseDate)
  {
    GridCell(year, month, today, intl, k);
    if k + 5 < 42 {
      GridCell(year, month, today, intl, k + 5);
      var a, b := GridDate(year, month, k + 5), GridDate(year, month, k);
      assert DayNumber(a) == DayNumber(b) + 5 * 1;
      PasaranPeriod(a, b);
    }
  }

  /** The cells before the 1st are the last `lead` days of the previous
      month. */
  lemma GridLeadingPadding(year: int, month: int, today: Date, intl: Intl, k: int)
    requires 0 <= k < LeadingDays(year, month)
    ensures var c, last := Grid(year, month, today, intl)[k], NewDate(year, month, 0);
            && c.date == Date(last.year, last.month, last.day - (LeadingDays(year, month) - 1 - k))
            && !c.isCurrentMonth
  {
    GridCell(year, month, today, intl, k);
    var last, lead := NewDate(year, month, 0), LeadingDays(year, month);
    var d := Date(last.year, last.month, last.day - (lead - 1 - k));
    assert DayNumber(d) == DayNumber(last) - (lead - 1 - k);
    DayNumberInjective(GridDate(year, month, k), d);
  }

  /** Between 5 and 14 cells come after the month: the 1st, 2nd, … of the
      next month. */
  lemma GridTrailingPadding(year: int, month: int, today: Date, intl: Intl, k: int)
    requires LeadingDays(year, month) + MonthLength(year, month) <= k < 42
    ensures var c, lead, dim := Grid(year, month, today, intl)[k], LeadingDays(year, month), MonthLength(year, month);
            && 5 <= 42 - lead - dim <= 14
            && c.date == NewDate(year, month + 1, k - lead - dim + 1)
            && c.dayOfMonth == k - lead - dim + 1
            && !c.isCurrentMonth
  {
    GridCell(year, month, today, intl, k);
    var lead, dim := LeadingDays(year, month), MonthLength(year, month);
    TrailingCellDate(year, month, k - lead - dim + 1);
  }
}
