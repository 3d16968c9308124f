/** Gregorian dates and Julian day numbers (drizzled/calendar.cc).

    Every division in the source has non-negative operands on the dates treated
    here, so C's truncating `/` and `%` agree with Dafny's. */
module Calendar {
  import opened Basics

  const ABSOLUTE_DAY_ONE := 1721425

  /** The largest year for which the 32-bit sum `year + 4800` does not wrap. */
  const MAX_YEAR := 0xFFFF_FFFF - 4800

  // The source's month tables, entry for entry: index i is month i + 1, or the
  // end of month i in the cumulative ones.
  function DaysInMonthTable(leap: bool, i: nat): nat
    requires i < 12
  {
    match i
    case 1 => if leap then 29 else 28
    case 3 => 30
    case 5 => 30
    case 8 => 30
    case 10 => 30
    case _ => 31
  }

  const LEAP_DAYS_TO_END_MONTH: seq<nat> := [0, 31, 60, 91, 121, 151, 182, 213, 244, 274, 305, 335, 366]
  const NORMAL_DAYS_TO_END_MONTH: seq<nat> := [0, 31, 59, 90, 120, 150, 181, 212, 243, 273, 304, 334, 365]

  datatype Date = Date(year: nat, month: nat, day: nat)

  function DaysInYear(year: nat): nat {
    if year % 2 == 1 then 365
    else if year % 4 == 0 && (year % 100 != 0 || (year % 400 == 0 && year != 0)) then 366
    else 365
  }

  predicate IsLeapYear(year: nat) { DaysInYear(year) == 366 }

  function DaysInMonth(year: nat, month: nat): nat
    requires 1 <= month <= 12
  {
    DaysInMonthTable(IsLeapYear(year), month - 1)
  }

  function DaysToEndMonthTable(year: nat): seq<nat> {
    if IsLeapYear(year) then LEAP_DAYS_TO_END_MONTH else NORMAL_DAYS_TO_END_MONTH
  }

  function JulianDayNumber(date: Date): int
    requires 1 <= date.month <= 12 && date.year <= 0xFFFF_FFFF
  {
    var a := (14 - date.month) / 12;
    var y := (date.year + 4800) % 0x1_0000_0000 - a;
    var m := date.month + 12 * a - 3;
    date.day + MonthDays(m) + YearDays(y) - 32045
  }

  /** Days before the m-th month of a year that starts in March. */
  function MonthDays(m: int): int { (153 * m + 2) / 5 }

  function YearDays(y: int): int { 365 * y + y / 4 - y / 100 + y / 400 }

  function AbsoluteDayNumber(julianDay: int): int { julianDay - ABSOLUTE_DAY_ONE }

  /** 400-year cycles, centuries, four-year cycles and years of a calendar whose years start
      in March, and the day of the year. */
  datatype MarchCycles = MarchCycles(g: int, c: int, b: int, a: int, da: int) {
    function Year(): int { g * 400 + c * 100 + b * 4 + a }

    ghost predicate Valid() {
      && 0 <= g && 0 <= c <= 3 && 0 <= b <= 24 && 0 <= a <= 3 && 0 <= da <= 365
      && (da == 365 ==> a == 3 && (b == 24 ==> c == 3))
      && (4800 < Year() || (4800 == Year() && 306 <= da))
    }
  }

  function CyclesOf(julianDay: int): (k: MarchCycles)
    requires ABSOLUTE_DAY_ONE < julianDay
    ensures k.Valid()
    ensures julianDay + 32044 == 146097 * k.g + 36524 * k.c + 1461 * k.b + 365 * k.a + k.da
  {
    var j := julianDay + 32044;
    var g := j / 146097;
    var dg := j % 146097;
    var (c, dc) := CenturyOf(dg);
    var b := dc / 1461;
    var db := dc % 1461;
    var (a, da) := YearOf(db);
    MarchCycles(g, c, b, a, da)
  }

  function CenturyOf(dg: int): (r: (int, int))
    requires 0 <= dg < 146097
    ensures 0 <= r.0 <= 3 && 0 <= r.1 <= 36524 && (r.1 == 36524 ==> r.0 == 3)
    ensures dg == 36524 * r.0 + r.1
  {
    var c := (dg / 36524 + 1) * 3 / 4;
    (c, dg - c * 36524)
  }

  function YearOf(db: int): (r: (int, int))
    requires 0 <= db < 1461
    ensures 0 <= r.0 <= 3 && 0 <= r.1 <= 365 && (r.1 == 365 ==> r.0 == 3)
    ensures db == 365 * r.0 + r.1
  {
    var a := (db / 365 + 1) * 3 / 4;
    (a, db - a * 365)
  }

  function FromJulianDayNumber(julianDay: int): Date
    requires ABSOLUTE_DAY_ONE < julianDay
  {
    var k := CyclesOf(julianDay);
    MarchToDate(k.Year(), k.da)
  }

  /** Day `da` of the year `y` that starts in March 4801 years before year 1 of the calendar. */
  function MarchToDate(y: int, da: int): Date
    requires 4800 <= y && 0 <= da <= 365
  {
    var m := (da * 5 + 308) / 153 - 2;
    var d := da - (m + 4) * 153 / 5 + 122;
    MarchMonth(da, m);
    Date(y - 4800 + (m + 2) / 12, (m + 2) % 12 + 1, (d as real + 1.5).Floor)
  }

  // -------------------------------------------------------------------------
  // The calendar itself: the leap-year rule, the month lengths, plain counting.

  predicate ValidDate(date: Date) {
    && 1 <= date.year && 1 <= date.month <= 12
    && 1 <= date.day <= DaysInMonth(date.year, date.month)
  }

  /** The days of the years 1, ..., year - 1. */
  ghost function DaysBeforeYear(year: nat): nat
    requires 1 <= year
  {
    if year == 1 then 0 else DaysBeforeYear(year - 1) + DaysInYear(year - 1)
  }

  ghost function DaysBeforeMonth(year: nat, month: nat): nat
    requires 1 <= month <= 13
  {
    if month == 1 then 0 else DaysBeforeMonth(year, month - 1) + DaysInMonth(year, month - 1)
  }

  /** The number of a date found by counting, with 1 January of year 1 as day 1. */
  ghost function CountedDays(date: Date): nat
    requires 1 <= date.year && 1 <= date.month <= 12
  {
    DaysBeforeYear(date.year) + DaysBeforeMonth(date.year, date.month) + date.day
  }

  ghost function NextDate(date: Date): Date
    requires ValidDate(date)
  {
    if date.day < DaysInMonth(date.year, date.month) then date.(day := date.day + 1)
    else if date.month < 12 then Date(date.year, date.month + 1, 1)
    else Date(date.year + 1, 1, 1)
  }

  ghost predicate Earlier(d: Date, e: Date) {
    || d.year < e.year
    || (d.year == e.year && d.month < e.month)
    || (d.year == e.year && d.month == e.month && d.day < e.day)
  }

  // -------------------------------------------------------------------------
  // The closed form counts days.

  lemma {:induction false} YearsClosedForm(year: nat)
    requires 1 <= year
    ensures DaysBeforeYear(year) == YearDays(year - 1)
  {
    if year != 1 {
      YearsClosedForm(year - 1);
      LeapStep(year - 1);
    }
  }

  /** Each of the three floor terms steps exactly at its own multiples. */
  lemma LeapStep(y: nat)
    requires 1 <= y
    ensures DaysInYear(y) == YearDays(y) - YearDays(y - 1)
  {
    FloorStep(y, 4);
    FloorStep(y, 100);
    FloorStep(y, 400);
    LeapRule(y);
  }

  lemma LeapRule(y: nat)
    requires 1 <= y
    ensures DaysInYear(y) == 365 + (if y % 4 == 0 then 1 else 0) - (if y % 100 == 0 then 1 else 0)
                                 + (if y % 400 == 0 then 1 else 0)
  {
    Multiple(y, 400, 100, 4);
    Multiple(y, 100, 4, 25);
    Multiple(y, 4, 2, 2);
  }

  lemma Multiple(y: nat, k: nat, d: nat, e: nat)
    requires 1 <= d && k == d * e
    ensures k != 0 && y % k == 0 ==> y % d == 0
  {
    if k != 0 && y % k == 0 {
      assert y == d * (e * (y / k));
      DivUnique(y, d, e * (y / k), 0);
    }
  }

  lemma FloorStep(y: nat, k: nat)
    requires 1 <= y && 1 < k
    ensures y / k - (y - 1) / k == if y % k == 0 then 1 else 0
  {
    var q, r := y / k, y % k;
    assert y == k * q + r;
    if r == 0 {
      DivUnique(y - 1, k, q - 1, k - 1);
    } else {
      DivUnique(y - 1, k, q, r - 1);
    }
  }

  lemma FloorShift(y: int, k: int, n: int)
    requires 0 < k
    ensures (y + k * n) / k == y / k + n && (y + k * n) % k == y % k
  {
    assert y + k * n == k * (y / k + n) + y % k;
    DivUnique(y + k * n, k, y / k + n, y % k);
  }

  lemma YearDaysShift(y: int, n: int)
    ensures YearDays(y + 400 * n) == YearDays(y) + 146097 * n
  {
    FloorShift(y, 4, 100 * n);
    FloorShift(y, 100, 4 * n);
    FloorShift(y, 400, n);
  }

  lemma MonthsCounted(year: nat, month: nat)
    requires 1 <= month <= 12
    ensures DaysBeforeMonth(year, month)
         == if month <= 2 then MonthDays(month + 9) - 306 else MonthDays(month - 3) + DaysInYear(year) - 306
    ensures DaysBeforeMonth(year, 13) == DaysInYear(year)
  {
    ghost var feb := DaysInMonth(year, 2);
    assert DaysBeforeMonth(year, 2) == 31;
    assert DaysBeforeMonth(year, 3) == 31 + feb;
    assert DaysBeforeMonth(year, 5) == 92 + feb;
    assert DaysBeforeMonth(year, 7) == 153 + feb;
    assert DaysBeforeMonth(year, 9) == 215 + feb;
    assert DaysBeforeMonth(year, 11) == 276 + feb;
    assert DaysBeforeMonth(year, 13) == 337 + feb;
  }

  /** A year counted from March: its last two months belong to the next calendar year. */
  lemma MarchYearCounted(year: nat, month: nat)
    requires 1 <= year && 1 <= month <= 12
    ensures
      var a := if month <= 2 then 1 else 0;
      DaysBeforeYear(year) + DaysBeforeMonth(year, month)
      == YearDays(year - a) + MonthDays(month + 12 * a - 3) - 306
  {
    YearsClosedForm(year);
    MonthsCounted(year, month);
    LeapStep(year);
  }

  lemma ClosedFormParts(date: Date, a: int)
    requires 1 <= date.month <= 12 && date.year <= MAX_YEAR
    requires a == if date.month <= 2 then 1 else 0
    ensures JulianDayNumber(date)
         == date.day + MonthDays(date.month + 12 * a - 3) + YearDays(date.year - a + 4800) - 32045
  {
    assert (14 - date.month) / 12 == a;
    assert (date.year + 4800) % 0x1_0000_0000 == date.year + 4800;
  }

  /** The closed form equals the count of whole years, whole months and days. */
  lemma ClosedFormCountsDays(date: Date)
    requires ValidDate(date) && date.year <= MAX_YEAR
    ensures AbsoluteDayNumber(JulianDayNumber(date)) == CountedDays(date)
  {
    var a := if date.month <= 2 then 1 else 0;
    MarchYearCounted(date.year, date.month);
    YearDaysShift(date.year - a, 12);
    ClosedFormParts(date, a);
  }

  /** The cumulative tables have a wrong entry for the end of May, and only there. */
  lemma CumulativeTableIsExactExceptMay(year: nat, month: nat)
    requires 1 <= year && 1 <= month <= 13
    ensures DaysToEndMonthTable(year)[month - 1] == DaysBeforeMonth(year, month) <==> month != 6
    ensures month == 6 ==> DaysToEndMonthTable(year)[5] == DaysBeforeMonth(year, 6) - 1
  {
    ghost var feb := DaysInMonth(year, 2);
    assert DaysBeforeMonth(year, 2) == 31;
    assert DaysBeforeMonth(year, 3) == 31 + feb;
    assert DaysBeforeMonth(year, 5) == 92 + feb;
    assert DaysBeforeMonth(year, 7) == 153 + feb;
    assert DaysBeforeMonth(year, 9) == 215 + feb;
    assert DaysBeforeMonth(year, 11) == 276 + feb;
    assert DaysBeforeMonth(year, 13) == 337 + feb;
  }

  /** So counting with the source's own table agrees with the closed form exactly outside June. */
  lemma TableCountAgreesOutsideJune(date: Date)
    requires ValidDate(date) && date.year <= MAX_YEAR
    ensures AbsoluteDayNumber(JulianDayNumber(date))
         == DaysBeforeYear(date.year) + DaysToEndMonthTable(date.year)[date.month - 1] + date.day
       <==> date.month != 6
  {
    ClosedFormCountsDays(date);
    CumulativeTableIsExactExceptMay(date.year, date.month);
  }

  lemma NextDayCounted(date: Date)
    requires ValidDate(date)
    ensures ValidDate(NextDate(date))
    ensures CountedDays(NextDate(date)) == CountedDays(date) + 1
  {
    ghost var next := NextDate(date);
    MonthLengthsPositive(next.year, next.month);
    if date.day == DaysInMonth(date.year, date.month) {
      if date.month < 12 {
        MonthFollows(date.year, date.month);
      } else {
        YearFollows(date.year);
      }
    }
  }

  lemma MonthFollows(year: nat, month: nat)
    requires 1 <= month <= 12
    ensures DaysBeforeMonth(year, month + 1) == DaysBeforeMonth(year, month) + DaysInMonth(year, month)
  {
  }

  lemma YearFollows(year: nat)
    requires 1 <= year
    ensures DaysBeforeYear(year + 1) == DaysBeforeYear(year) + DaysBeforeMonth(year, 12) + DaysInMonth(year, 12)
    ensures DaysBeforeMonth(year + 1, 1) == 0
  {
    MonthsCounted(year, 12);
  }

  /** The next calendar day always has the next number. */
  lemma NextDayIsNextNumber(date: Date)
    requires ValidDate(date) && NextDate(date).year <= MAX_YEAR
    ensures ValidDate(NextDate(date))
    ensures JulianDayNumber(NextDate(date)) == JulianDayNumber(date) + 1
  {
    NextDayCounted(date);
    ClosedFormCountsDays(date);
    ClosedFormCountsDays(NextDate(date));
  }

  lemma MonthLengthsPositive(year: nat, month: nat)
    requires 1 <= month <= 12
    ensures 28 <= DaysInMonth(year, month) <= 31
  {
  }

  lemma LeapYearsRepeat(year: nat)
    requires 1 <= year
    ensures DaysInYear(year + 400) == DaysInYear(year)
  {
    YearDaysShift(year, 1);
    YearDaysShift(year - 1, 1);
    LeapStep(year);
    LeapStep(year + 400);
  }

  lemma FourCenturiesCounted(date: Date)
    requires ValidDate(date)
    ensures ValidDate(date.(year := date.year + 400))
    ensures CountedDays(date.(year := date.year + 400)) == CountedDays(date) + 146097
  {
    LeapYearsRepeat(date.year);
    YearsClosedForm(date.year);
    YearsClosedForm(date.year + 400);
    YearDaysShift(date.year - 1, 1);
    SameMonths(date.year, date.year + 400, date.month);
  }

  /** 400 years are always 146097 days. */
  lemma FourCenturies(date: Date)
    requires ValidDate(date) && date.year + 400 <= MAX_YEAR
    ensures ValidDate(date.(year := date.year + 400))
    ensures JulianDayNumber(date.(year := date.year + 400)) == JulianDayNumber(date) + 146097
  {
    FourCenturiesCounted(date);
    ClosedFormCountsDays(date);
    ClosedFormCountsDays(date.(year := date.year + 400));
  }

  lemma {:induction false} SameMonths(y: nat, z: nat, month: nat)
    requires 1 <= month <= 13 && DaysInYear(y) == DaysInYear(z)
    ensures DaysBeforeMonth(y, month) == DaysBeforeMonth(z, month)
  {
    if month > 1 {
      SameMonths(y, z, month - 1);
    }
  }

  lemma {:induction false} EarlierYearsCount(y: nat, z: nat)
    requires 1 <= y < z
    ensures DaysBeforeYear(y) + DaysInYear(y) <= DaysBeforeYear(z)
  {
    if y + 1 < z {
      EarlierYearsCount(y, z - 1);
    }
  }

  lemma {:induction false} EarlierMonthsCount(year: nat, m: nat, n: nat)
    requires 1 <= m < n <= 13
    ensures DaysBeforeMonth(year, m) + DaysInMonth(year, m) <= DaysBeforeMonth(year, n)
  {
    if m + 1 < n {
      EarlierMonthsCount(year, m, n - 1);
    }
  }

  lemma EarlierCountsLess(d: Date, e: Date)
    requires ValidDate(d) && ValidDate(e) && Earlier(d, e)
    ensures CountedDays(d) < CountedDays(e)
  {
    if d.year < e.year {
      EarlierYearsCount(d.year, e.year);
      EarlierMonthsCount(d.year, d.month, 13);
      MonthsCounted(d.year, 12);
    } else if d.month < e.month {
      EarlierMonthsCount(d.year, d.month, e.month);
    }
  }

  /** Day numbers order dates exactly as the calendar does, so no two dates share one. */
  lemma DayNumbersOrderDates(d: Date, e: Date)
    requires ValidDate(d) && ValidDate(e) && d.year <= MAX_YEAR && e.year <= MAX_YEAR
    ensures JulianDayNumber(d) < JulianDayNumber(e) <==> Earlier(d, e)
    ensures JulianDayNumber(d) == JulianDayNumber(e) <==> d == e
  {
    ClosedFormCountsDays(d);
    ClosedFormCountsDays(e);
    if Earlier(d, e) {
      EarlierCountsLess(d, e);
    } else if Earlier(e, d) {
      EarlierCountsLess(e, d);
    }
  }

  // -------------------------------------------------------------------------
  // Decoding.

  lemma MarchYearQuotients(g: int, c: int, b: int, a: int)
    requires 0 <= g && 0 <= c <= 3 && 0 <= b <= 24 && 0 <= a <= 3
    ensures
      var y := 400 * g + 100 * c + 4 * b + a;
      YearDays(y) == 146097 * g + 36524 * c + 1461 * b + 365 * a
  {
    var y := 400 * g + 100 * c + 4 * b + a;
    DivUnique(y, 4, 100 * g + 25 * c + b, a);
    DivUnique(y, 100, 4 * g + c, 4 * b + a);
    DivUnique(y, 400, g, 100 * c + 4 * b + a);
  }

  lemma MarchMonth(da: int, m: int)
    requires 0 <= da <= 365 && m == (da * 5 + 308) / 153 - 2
    ensures 0 <= m <= 11
    ensures da - (m + 4) * 153 / 5 + 122 == da - MonthDays(m)
    ensures 0 <= da - MonthDays(m) <= 30
    ensures m == 1 || m == 3 || m == 6 || m == 8 ==> da - MonthDays(m) <= 29
    ensures m == 11 ==> da - MonthDays(m) == da - 337
    ensures (m + 2) / 12 == if m < 10 then 0 else 1
    ensures (m + 2) % 12 + 1 == if m < 10 then m + 3 else m - 9
    ensures 306 <= da ==> 10 <= m
  {
  }

  lemma MarchDate(y: int, da: int)
    requires 4800 < y || (y == 4800 && 306 <= da)
    requires 0 <= da <= 365 && (da == 365 ==> IsLeapYear(y - 4799))
    ensures ValidDate(MarchToDate(y, da))
    ensures ABSOLUTE_DAY_ONE + CountedDays(MarchToDate(y, da)) == YearDays(y) + da - 32044
  {
    var m := (da * 5 + 308) / 153 - 2;
    MarchMonth(da, m);
    HalfDay(da - MonthDays(m));
    var a := if m < 10 then 0 else 1;
    var date := MarchToDate(y, da);
    assert date == Date(y - 4800 + a, if m < 10 then m + 3 else m - 9, da - MonthDays(m) + 1);
    MarchDayInMonth(date.year, m, da, date.day);
    MarchYearCounted(date.year, date.month);
    YearDaysShift(y - 4800, 12);
  }

  lemma MarchDayInMonth(year: nat, m: int, da: int, day: nat)
    requires 0 <= m <= 11 && 1 <= day <= 31
    requires m == 1 || m == 3 || m == 6 || m == 8 ==> day <= 30
    requires m == 11 ==> day == da - 336
    requires da <= 365 && (da == 365 ==> m < 11 || IsLeapYear(year))
    ensures day <= DaysInMonth(year, if m < 10 then m + 3 else m - 9)
  {
  }

  /** A 366-day March-based year ends in the February of a leap year. */
  lemma LeapAfterMarch(g: int, c: int, b: int)
    requires 0 <= g && 0 <= c <= 3 && 0 <= b <= 24 && (b == 24 ==> c == 3)
    requires 4800 < 400 * g + 100 * c + 4 * b + 4
    ensures IsLeapYear(400 * g + 100 * c + 4 * b + 3 - 4799)
  {
    var y := 400 * g + 100 * c + 4 * b + 3 - 4799;
    assert y == 400 * (g - 12) + 100 * c + 4 * (b + 1);
    DivUnique(y, 2, 200 * (g - 12) + 50 * c + 2 * (b + 1), 0);
    DivUnique(y, 4, 100 * (g - 12) + 25 * c + b + 1, 0);
    if b == 24 {
      DivUnique(y, 400, g - 11, 0);
      DivUnique(y, 100, 4 * (g - 11), 0);
    } else {
      DivUnique(y, 100, 4 * (g - 12) + c, 4 * (b + 1));
    }
  }

  lemma HalfDay(d: int)
    requires 0 <= d
    ensures (d as real + 1.5).Floor == d + 1
  {
    assert d as real + 1.5 == (d + 1) as real + 0.5;
  }

  /** Every day number from 1 January of year 1 on decodes to a real date whose count it is. */
  lemma DecodedDate(julianDay: int)
    requires ABSOLUTE_DAY_ONE < julianDay
    ensures ValidDate(FromJulianDayNumber(julianDay))
    ensures CountedDays(FromJulianDayNumber(julianDay)) == AbsoluteDayNumber(julianDay)
  {
    CyclesToDate(julianDay, CyclesOf(julianDay));
  }

  lemma CyclesToDate(julianDay: int, k: MarchCycles)
    requires k.Valid()
    requires julianDay + 32044 == 146097 * k.g + 36524 * k.c + 1461 * k.b + 365 * k.a + k.da
    ensures ValidDate(MarchToDate(k.Year(), k.da))
    ensures CountedDays(MarchToDate(k.Year(), k.da)) == AbsoluteDayNumber(julianDay)
  {
    MarchYearQuotients(k.g, k.c, k.b, k.a);
    if k.da == 365 {
      LeapAfterMarch(k.g, k.c, k.b);
    }
    MarchDate(k.Year(), k.da);
  }

  /** Day number to date and back is the identity. */
  lemma DayNumberRoundTrip(julianDay: int)
    requires ABSOLUTE_DAY_ONE < julianDay && FromJulianDayNumber(julianDay).year <= MAX_YEAR
    ensures JulianDayNumber(FromJulianDayNumber(julianDay)) == julianDay
  {
    DecodedDate(julianDay);
    ClosedFormCountsDays(FromJulianDayNumber(julianDay));
  }

  /** Date to day number and back is the identity. */
  lemma DateRoundTrip(date: Date)
    requires ValidDate(date) && date.year <= MAX_YEAR
    ensures ABSOLUTE_DAY_ONE < JulianDayNumber(date)
    ensures FromJulianDayNumber(JulianDayNumber(date)) == date
  {
    ClosedFormCountsDays(date);
    var decoded := FromJulianDayNumber(JulianDayNumber(date));
    DecodedDate(JulianDayNumber(date));
    if Earlier(decoded, date) {
      EarlierCountsLess(decoded, date);
    } else if Earlier(date, decoded) {
      EarlierCountsLess(date, decoded);
    }
  }
}
