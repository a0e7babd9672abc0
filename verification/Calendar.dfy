/**
 Days since 1970-01-01 as dates of the proleptic Gregorian calendar.

 `CivilFromDays` is the launcher's closed formula. The reference it is proved against is the
 calendar itself: month lengths, leap years, and the day after each day.
 */
module Calendar {
  datatype Date = Date(year: int, month: int, day: int)

  // ----- The calendar -----

  predicate IsLeap(year: int) {
    year % 4 == 0 && (year % 100 != 0 || year % 400 == 0)
  }

  function DaysInMonth(year: int, month: int): int {
    if month == 2 then (if IsLeap(year) then 29 else 28)
    else if month == 4 || month == 6 || month == 9 || month == 11 then 30
    else 31
  }

  predicate ValidDate(d: Date) {
    1 <= d.month <= 12 && 1 <= d.day <= DaysInMonth(d.year, d.month)
  }

  function NextDate(d: Date): Date {
    if d.day < DaysInMonth(d.year, d.month) then d.(day := d.day + 1)
    else if d.month < 12 then Date(d.year, d.month + 1, 1)
    else Date(d.year + 1, 1, 1)
  }

  predicate Before(d: Date, e: Date) {
    d.year < e.year
    || (d.year == e.year && (d.month < e.month || (d.month == e.month && d.day < e.day)))
  }

  // ----- The formula -----

  function CivilFromDays(days: int): Date {
    var z := days + 719_468;
    var era := z / 146_097;
    var doe := z % 146_097;
    var yoe := (doe - doe / 1_460 + doe / 36_524 - doe / 146_096) / 365;
    var doy := doe - (365 * yoe + yoe / 4 - yoe / 100);
    var mp := (5 * doy + 2) / 153;
    var day := doy - (153 * mp + 2) / 5 + 1;
    var month := if mp < 10 then mp + 3 else mp - 9;
    var year := yoe + era * 400 + (if month <= 2 then 1 else 0);
    Date(year, month, day)
  }

  // ----- Years of an era, counted from March -----

  /** Days of an era before its year `y`, which begins on 1 March. */
  function YearStart(y: int): int {
    365 * y + y / 4 - y / 100
  }

  function YearOfEra(doe: int): int {
    (doe - doe / 1_460 + doe / 36_524 - doe / 146_096) / 365
  }

  /** The year that starts in March of year-of-era `y` ends with a February of year `y + 1`. */
  predicate LongYear(y: int) {
    (y + 1) % 4 == 0 && ((y + 1) % 100 != 0 || (y + 1) % 400 == 0)
  }

  function YearLength(y: int): int {
    if LongYear(y) then 366 else 365
  }

  /** An era day as whole centuries, whole four-year cycles, whole years and days. */
  ghost predicate Splits(doe: int, century: int, cycle: int, rest: int) {
    && doe == 36_524 * century + 1_461 * cycle + rest
    && 0 <= century < 4 && 0 <= cycle < 25 && 0 <= rest < 1_461
    && (rest == 1_460 ==> cycle < 24 || century == 3)
  }

  lemma SplitEra(doe: int) returns (century: int, cycle: int, rest: int)
    requires 0 <= doe < 146_097
    ensures Splits(doe, century, cycle, rest)
  {
    century := if doe == 146_096 then 3 else doe / 36_524;
    var inCentury := doe - 36_524 * century;
    cycle := inCentury / 1_461;
    rest := inCentury % 1_461;
  }

  function YearInCycle(rest: int): int {
    if rest == 1_460 then 3 else rest / 365
  }

  lemma YearOfSplit(doe: int, century: int, cycle: int, rest: int)
    requires Splits(doe, century, cycle, rest)
    ensures YearOfEra(doe) == 100 * century + 4 * cycle + YearInCycle(rest)
  {
    var carry := if 24 * century + cycle + rest >= 1_460 then 1 else 0;
    assert doe / 1_460 == 25 * century + cycle + carry;
    assert doe / 36_524 - doe / 146_096 == century;
    assert doe - doe / 1_460 + doe / 36_524 - doe / 146_096
           == 365 * (100 * century + 4 * cycle) + (rest - carry);
    assert (rest - carry) / 365 == YearInCycle(rest);
  }

  lemma StartOfSplit(century: int, cycle: int, year: int)
    requires 0 <= century < 4 && 0 <= cycle < 25 && 0 <= year < 4
    ensures YearStart(100 * century + 4 * cycle + year)
            == 36_524 * century + 1_461 * cycle + 365 * year
  {
  }

  /** The correction terms locate every day of an era in its year. */
  lemma YearOfEraLocates(doe: int)
    requires 0 <= doe < 146_097
    ensures 0 <= YearOfEra(doe) < 400
    ensures 0 <= doe - YearStart(YearOfEra(doe)) < YearLength(YearOfEra(doe))
  {
    var century, cycle, rest := SplitEra(doe);
    YearOfSplit(doe, century, cycle, rest);
    StartOfSplit(century, cycle, YearInCycle(rest));
    if rest == 1_460 {
      assert LongYear(100 * century + 4 * cycle + 3);
    }
  }

  lemma NextYearStart(y: int)
    requires 0 <= y < 400
    ensures if y == 399 then YearStart(y) + YearLength(y) == 146_097
            else YearStart(y + 1) == YearStart(y) + YearLength(y)
  {
    assert (y + 1) / 4 == y / 4 + (if (y + 1) % 4 == 0 then 1 else 0);
    assert (y + 1) / 100 == y / 100 + (if (y + 1) % 100 == 0 then 1 else 0);
    assert (y + 1) % 100 == 0 ==> (y + 1) % 4 == 0;
    assert y < 399 ==> (y + 1) % 400 != 0;
  }

  // ----- Months of a year counted from March -----

  /** Day `doy` of a year from March, whose January and February belong to the next year. */
  function DateInYear(year: int, doy: int): Date {
    var mp := (5 * doy + 2) / 153;
    var day := doy - (153 * mp + 2) / 5 + 1;
    var month := if mp < 10 then mp + 3 else mp - 9;
    Date(year + (if month <= 2 then 1 else 0), month, day)
  }

  lemma DateInYearIsCalendar(year: int, doy: int)
    requires 0 <= doy < (if IsLeap(year + 1) then 366 else 365)
    ensures ValidDate(DateInYear(year, doy))
    ensures if doy + 1 < (if IsLeap(year + 1) then 366 else 365)
            then NextDate(DateInYear(year, doy)) == DateInYear(year, doy + 1)
            else NextDate(DateInYear(year, doy)) == DateInYear(year + 1, 0)
  {
  }

  lemma LeapAcrossEras(era: int, y: int)
    requires 0 <= y < 400
    ensures IsLeap(y + era * 400 + 1) <==> LongYear(y)
  {
    ErasKeepRemainders(y + 1, era);
  }

  lemma ErasKeepRemainders(n: int, era: int)
    ensures (n + era * 400) % 4 == n % 4
    ensures (n + era * 400) % 100 == n % 100
    ensures (n + era * 400) % 400 == n % 400
  {
    assert (n + era * 400) / 4 == n / 4 + era * 100;
    assert (n + era * 400) / 100 == n / 100 + era * 4;
    assert (n + era * 400) / 400 == n / 400 + era;
  }

  function EraDate(era: int, doe: int): Date {
    DateInYear(YearOfEra(doe) + era * 400, doe - YearStart(YearOfEra(doe)))
  }

  lemma FormulaIsEraDate(days: int, z: int)
    requires z == days + 719_468
    ensures CivilFromDays(days) == EraDate(z / 146_097, z % 146_097)
  {
    hide *;
    ShiftedFormula(days);
  }

  lemma ShiftedFormula(days: int)
    ensures CivilFromDays(days) == EraDate((days + 719_468) / 146_097, (days + 719_468) % 146_097)
  {
  }

  /** Inside an era, a year's days follow each other through the calendar. */
  lemma WithinYear(era: int, y: int, doy: int)
    requires 0 <= y < 400 && 0 <= doy < YearLength(y)
    ensures ValidDate(DateInYear(y + era * 400, doy))
    ensures NextDate(DateInYear(y + era * 400, doy))
            == if doy + 1 < YearLength(y) then DateInYear(y + era * 400, doy + 1)
               else DateInYear(y + era * 400 + 1, 0)
  {
    LeapAcrossEras(era, y);
    DateInYearIsCalendar(y + era * 400, doy);
  }

  // ----- Main results -----

  /** Every day number, before or after 1970, names a date of the calendar. */
  lemma CivilIsValid(days: int)
    ensures ValidDate(CivilFromDays(days))
  {
    hide *;
    var z := days + 719_468;
    FormulaIsEraDate(days, z);
    EraDateIsValid(z / 146_097, z % 146_097);
  }

  lemma EraDateIsValid(era: int, doe: int)
    requires 0 <= doe < 146_097
    ensures ValidDate(EraDate(era, doe))
  {
    hide *;
    var y := YearOfEra(doe);
    YearOfEraLocates(doe);
    WithinYear(era, y, doe - YearStart(y));
    EraDateAt(era, doe, y, doe - YearStart(y));
  }

  lemma EpochIsDayZero()
    ensures CivilFromDays(0) == Date(1970, 1, 1)
  {
    hide CivilFromDays;
    assert 719_468 / 146_097 == 4 && 719_468 % 146_097 == 135_080;
    assert YearOfEra(135_080) == 369 && YearStart(369) == 134_774;
    assert DateInYear(1969, 306) == Date(1970, 1, 1);
    FormulaIsEraDate(0, 719_468);
  }

  /** The next day of an era is the next day of its year, or the first of the next year or era. */
  lemma NextDayOfEra(doe: int)
    requires 0 <= doe < 146_096
    ensures var y := YearOfEra(doe);
            var doy := doe - YearStart(y);
            if doy + 1 < YearLength(y) then YearOfEra(doe + 1) == y
            else y < 399 && YearOfEra(doe + 1) == y + 1 && doe + 1 == YearStart(y + 1)
  {
    var y := YearOfEra(doe);
    YearOfEraLocates(doe);
    NextYearStart(y);
    YearUnique(doe + 1, if doe - YearStart(y) + 1 < YearLength(y) then y else y + 1);
  }

  lemma LastDayOfEra()
    ensures YearOfEra(146_096) == 399 && 146_096 - YearStart(399) + 1 == YearLength(399)
    ensures YearOfEra(0) == 0 && YearStart(0) == 0
  {
  }

  lemma NextEraDay(z: int)
    ensures if z % 146_097 == 146_096
            then (z + 1) / 146_097 == z / 146_097 + 1 && (z + 1) % 146_097 == 0
            else (z + 1) / 146_097 == z / 146_097 && (z + 1) % 146_097 == z % 146_097 + 1
  {
  }

  /** The next day number names the next date of the calendar. */
  lemma CivilSteps(days: int)
    ensures CivilFromDays(days + 1) == NextDate(CivilFromDays(days))
  {
    hide *;
    var z := days + 719_468;
    FormulaIsEraDate(days, z);
    FormulaIsEraDate(days + 1, z + 1);
    NextEraDay(z);
    EraSteps(z / 146_097, z % 146_097);
  }

  lemma EraDateAt(era: int, doe: int, y: int, doy: int)
    requires YearOfEra(doe) == y && doe - YearStart(y) == doy
    ensures EraDate(era, doe) == DateInYear(y + era * 400, doy)
  {
  }

  lemma EraSteps(era: int, doe: int)
    requires 0 <= doe < 146_097
    ensures NextDate(EraDate(era, doe))
            == if doe == 146_096 then EraDate(era + 1, 0) else EraDate(era, doe + 1)
  {
    hide *;
    YearOfEraLocates(doe);
    if doe == 146_096 {
      LastDayOfEra();
      EraStepsTo(era, doe, era + 1, 0);
    } else {
      NextDayOfEra(doe);
      EraStepsTo(era, doe, era, doe + 1);
    }
  }

  lemma EraStepsTo(era: int, doe: int, nextEra: int, nextDoe: int)
    requires var y, next := YearOfEra(doe), YearOfEra(nextDoe);
             var doy := doe - YearStart(y);
             && 0 <= y < 400 && 0 <= doy < YearLength(y)
             && if doy + 1 < YearLength(y)
                then next == y && nextEra == era && nextDoe == doe + 1
                else next + nextEra * 400 == y + era * 400 + 1 && nextDoe == YearStart(next)
    ensures NextDate(EraDate(era, doe)) == EraDate(nextEra, nextDoe)
  {
    hide *;
    var y, next := YearOfEra(doe), YearOfEra(nextDoe);
    WithinYear(era, y, doe - YearStart(y));
    EraDateAt(era, doe, y, doe - YearStart(y));
    EraDateAt(nextEra, nextDoe, next, nextDoe - YearStart(next));
  }

  lemma YearUnique(doe: int, y: int)
    requires 0 <= doe < 146_097 && 0 <= y < 400
    requires 0 <= doe - YearStart(y) < YearLength(y)
    ensures YearOfEra(doe) == y
  {
    YearOfEraLocates(doe);
    var x := YearOfEra(doe);
    if x < y {
      YearStartsApart(x, y);
    } else if y < x {
      YearStartsApart(y, x);
    }
  }

  lemma {:induction false} YearStartsApart(x: int, y: int)
    requires 0 <= x < y < 400
    ensures YearStart(x) + YearLength(x) <= YearStart(y)
    decreases y
  {
    NextYearStart(y - 1);
    if x < y - 1 {
      YearStartsApart(x, y - 1);
    }
  }

  // ----- Counting days -----

  /** Days of the calendar before the first of January of a year. */
  function DaysBeforeYear(year: int): int {
    365 * year + (year - 1) / 4 - (year - 1) / 100 + (year - 1) / 400
  }

  function DaysBeforeMonth(year: int, month: int): int
    requires 1 <= month <= 12
    decreases month
  {
    if month == 1 then 0 else DaysBeforeMonth(year, month - 1) + DaysInMonth(year, month - 1)
  }

  /** Days from 1970-01-01 to a date, counted year by year and month by month. */
  function DayCount(d: Date): int
    requires ValidDate(d)
  {
    DaysBeforeYear(d.year) - DaysBeforeYear(1970) + DaysBeforeMonth(d.year, d.month) + d.day - 1
  }

  lemma YearCounts(year: int)
    ensures DaysBeforeYear(year + 1) == DaysBeforeYear(year) + (if IsLeap(year) then 366 else 365)
  {
    FourthCounts(year);
    HundredthCounts(year);
    FourHundredthCounts(year);
    LeapDays(year);
  }

  lemma FourthCounts(n: int)
    ensures n / 4 == (n - 1) / 4 + (if n % 4 == 0 then 1 else 0)
  {
  }

  lemma HundredthCounts(n: int)
    ensures n / 100 == (n - 1) / 100 + (if n % 100 == 0 then 1 else 0)
  {
  }

  lemma FourHundredthCounts(n: int)
    ensures n / 400 == (n - 1) / 400 + (if n % 400 == 0 then 1 else 0)
  {
  }

  lemma LeapDays(year: int)
    ensures (if IsLeap(year) then 1 else 0)
            == (if year % 4 == 0 then 1 else 0) - (if year % 100 == 0 then 1 else 0)
               + (if year % 400 == 0 then 1 else 0)
  {
    if year % 400 == 0 {
      assert year == 100 * (year / 400 * 4);
    }
    if year % 100 == 0 {
      assert year == 4 * (year / 100 * 25);
    }
  }

  lemma YearIsTwelveMonths(year: int)
    ensures DaysBeforeMonth(year, 12) + 31 == if IsLeap(year) then 366 else 365
  {
    assert DaysBeforeMonth(year, 4) == DaysBeforeMonth(year, 2) + DaysInMonth(year, 2) + 31;
    assert DaysBeforeMonth(year, 7) == DaysBeforeMonth(year, 4) + 91;
    assert DaysBeforeMonth(year, 10) == DaysBeforeMonth(year, 7) + 92;
    assert DaysBeforeMonth(year, 12) == DaysBeforeMonth(year, 10) + 61;
  }

  /** The count advances by one with the calendar. */
  lemma NextDateCounts(d: Date)
    requires ValidDate(d)
    ensures ValidDate(NextDate(d)) && DayCount(NextDate(d)) == DayCount(d) + 1
  {
    if d.day == DaysInMonth(d.year, d.month) && d.month == 12 {
      YearCounts(d.year);
      YearIsTwelveMonths(d.year);
    }
  }

  lemma EpochCountsZero()
    ensures ValidDate(Date(1970, 1, 1)) && DayCount(Date(1970, 1, 1)) == 0
  {
  }

  /** The formula inverts the count: day number `n` is the date `n` days from 1970-01-01. */
  lemma {:induction false} CivilInvertsCount(days: int)
    ensures ValidDate(CivilFromDays(days)) && DayCount(CivilFromDays(days)) == days
    decreases if days < 0 then -days else days
  {
    hide *;
    if days == 0 {
      EpochIsDayZero();
      EpochCountsZero();
    } else if days > 0 {
      CivilInvertsCount(days - 1);
      CivilSteps(days - 1);
      NextDateCounts(CivilFromDays(days - 1));
    } else {
      CivilInvertsCount(days + 1);
      CivilSteps(days);
      CivilIsValid(days);
      NextDateCounts(CivilFromDays(days));
    }
  }

  lemma {:induction false} YearsApart(x: int, y: int)
    requires x < y
    ensures DaysBeforeYear(x) + (if IsLeap(x) then 366 else 365) <= DaysBeforeYear(y)
    decreases y - x
  {
    YearCounts(y - 1);
    if x < y - 1 {
      YearsApart(x, y - 1);
    }
  }

  lemma {:induction false} MonthsApart(year: int, m: int, n: int)
    requires 1 <= m < n <= 12
    ensures DaysBeforeMonth(year, m) + DaysInMonth(year, m) <= DaysBeforeMonth(year, n)
    decreases n
  {
    if m < n - 1 {
      MonthsApart(year, m, n - 1);
    }
  }

  lemma DayOfYearBound(d: Date)
    requires ValidDate(d)
    ensures 1 <= DaysBeforeMonth(d.year, d.month) + d.day <= if IsLeap(d.year) then 366 else 365
  {
    YearIsTwelveMonths(d.year);
    if d.month < 12 {
      MonthsApart(d.year, d.month, 12);
    }
    if d.month > 1 {
      MonthsApart(d.year, 1, d.month);
    }
  }

  /** An earlier date has a smaller count. */
  lemma CountIsMonotone(d: Date, e: Date)
    requires ValidDate(d) && ValidDate(e) && Before(d, e)
    ensures DayCount(d) < DayCount(e)
  {
    DayOfYearBound(d);
    DayOfYearBound(e);
    if d.year < e.year {
      YearsApart(d.year, e.year);
    } else if d.month < e.month {
      MonthsApart(d.year, d.month, e.month);
    }
  }

  /** Every date of the calendar is reached, by exactly one day number. */
  lemma CountInvertsCivil(d: Date)
    requires ValidDate(d)
    ensures CivilFromDays(DayCount(d)) == d
  {
    var e := CivilFromDays(DayCount(d));
    CivilInvertsCount(DayCount(d));
    if Before(d, e) {
      CountIsMonotone(d, e);
    } else if Before(e, d) {
      CountIsMonotone(e, d);
    }
  }

  /** Later day numbers name later dates. */
  lemma CivilIsMonotone(m: int, n: int)
    requires m < n
    ensures Before(CivilFromDays(m), CivilFromDays(n))
  {
    CivilInvertsCount(m);
    CivilInvertsCount(n);
    if Before(CivilFromDays(n), CivilFromDays(m)) {
      CountIsMonotone(CivilFromDays(n), CivilFromDays(m));
    }
  }
}
