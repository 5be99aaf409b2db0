/** Days since 1970-01-01 in the proleptic Gregorian calendar: the closed formula of the source
    against a count that walks the calendar year by year and month by month. */
module CivilDays {
  import opened Foundations

  // ------------------------------------------------------------------ the closed formula

  function DaysFromCivil(year: int, month: int, day: int): int
    requires 1 <= month <= 12
  {
    var y := if month <= 2 then year - 1 else year;
    var era := if y >= 0 then y / 400 else TruncDiv(y - 399, 400);
    var yoe := y - era * 400;
    var mp := if month > 2 then month - 3 else month + 9;
    var doy := (153 * mp + 2) / 5 + day - 1;
    var doe := yoe * 365 + yoe / 4 - yoe / 100 + doy;
    era * 146_097 + doe - 719_468
  }

  predicate FitsI32(x: int) {
    -0x8000_0000 <= x <= 0x7fff_ffff
  }

  predicate FitsU32(x: int) {
    0 <= x <= 0xffff_ffff
  }

  /** Every intermediate value of the formula fits the 32-bit type it has, in the order in which they
      are computed. */
  predicate IntermediatesFit(year: int, month: int, day: int)
    requires 1 <= month <= 12
  {
    var y := if month <= 2 then year - 1 else year;
    FitsI32(y) && (y < 0 ==> FitsI32(y - 399)) &&
    var era := if y >= 0 then y / 400 else TruncDiv(y - 399, 400);
    FitsI32(era * 400) && FitsU32(y - era * 400) &&
    var yoe := y - era * 400;
    var mp := if month > 2 then month - 3 else month + 9;
    FitsU32(153 * mp + 2) && FitsU32((153 * mp + 2) / 5 + day) && FitsU32((153 * mp + 2) / 5 + day - 1) &&
    var doy := (153 * mp + 2) / 5 + day - 1;
    FitsU32(yoe * 365 + yoe / 4) && FitsU32(yoe * 365 + yoe / 4 - yoe / 100) && FitsU32(yoe * 365 + yoe / 4 - yoe / 100 + doy)
  }

  /** For every 32-bit year: nothing overflows exactly when the year, counted from March, is at least
      399 above the smallest one. */
  lemma {:induction false} FitExactlyWhen(year: int, month: int, day: int)
    requires FitsI32(year) && 1 <= month <= 12 && 1 <= day <= 31
    ensures IntermediatesFit(year, month, day) <==> (if month <= 2 then year - 1 else year) >= -0x8000_0000 + 399
  {
    var y := if month <= 2 then year - 1 else year;
    var era := if y >= 0 then y / 400 else TruncDiv(y - 399, 400);
    assert 0 <= y - era * 400 < 400;
  }

  // ------------------------------------------------------------------ the calendar

  predicate IsLeap(y: int) {
    y % 4 == 0 && (y % 100 != 0 || y % 400 == 0)
  }

  function YearLength(y: int): int {
    if IsLeap(y) then 366 else 365
  }

  function MonthLength(y: int, m: int): int
    requires 1 <= m <= 12
  {
    if m == 2 then (if IsLeap(y) then 29 else 28)
    else if m == 4 || m == 6 || m == 9 || m == 11 then 30
    else 31
  }

  datatype Date = Date(year: int, month: int, day: int) {
    predicate Valid() {
      1 <= month <= 12 && 1 <= day <= MonthLength(year, month)
    }
  }

  /** Days from 1970-01-01 to January 1 of `y`, one year at a time, in either direction. */
  function DaysBeforeYear(y: int): int
    decreases if y >= 1970 then y - 1970 else 1970 - y
  {
    if y == 1970 then 0
    else if y > 1970 then DaysBeforeYear(y - 1) + YearLength(y - 1)
    else DaysBeforeYear(y + 1) - YearLength(y)
  }

  function DaysBeforeMonth(y: int, m: int): int
    requires 1 <= m <= 12
    decreases m
  {
    if m == 1 then 0 else DaysBeforeMonth(y, m - 1) + MonthLength(y, m - 1)
  }

  function DayCount(d: Date): int
    requires d.Valid()
  {
    DaysBeforeYear(d.year) + DaysBeforeMonth(d.year, d.month) + d.day - 1
  }

  function NextDay(d: Date): (r: Date)
    requires d.Valid()
    ensures r.Valid()
  {
    if d.day < MonthLength(d.year, d.month) then Date(d.year, d.month, d.day + 1)
    else if d.month < 12 then Date(d.year, d.month + 1, 1)
    else Date(d.year + 1, 1, 1)
  }

  // ------------------------------------------------------------------ agreement

  /** March 1 of year `y`, as the formula counts it. */
  function MarchFirst(y: int): int {
    365 * y + y / 4 - y / 100 + y / 400 - 719_468
  }

  lemma {:induction false} FormulaFromMarch(year: int, month: int, day: int)
    requires 1 <= month <= 12
    ensures DaysFromCivil(year, month, day)
         == if month > 2 then MarchFirst(year) + (153 * (month - 3) + 2) / 5 + day - 1
            else MarchFirst(year - 1) + (153 * (month + 9) + 2) / 5 + day - 1
  {
    var y := if month <= 2 then year - 1 else year;
    var q, r := y / 400, y % 400;
    assert (if y >= 0 then y / 400 else TruncDiv(y - 399, 400)) == q;
    assert y / 4 == 100 * q + r / 4 && y / 100 == 4 * q + r / 100;
  }

  /** Divisions of a year by its place in the 400-year cycle. */
  lemma {:induction false} CycleParts(q: int, r: int)
    requires 0 <= r < 400
    ensures var y := 400 * q + r;
      && y / 4 == 100 * q + r / 4 && y / 100 == 4 * q + r / 100 && y / 400 == q
      && (IsLeap(y) <==> r % 4 == 0 && (r % 100 != 0 || r == 0))
  {
  }

  lemma {:induction false} MarchFirstAt(q: int, r: int)
    requires 0 <= r < 400
    ensures MarchFirst(400 * q + r) == 146_097 * q + 365 * r + r / 4 - r / 100 - 719_468
  {
    CycleParts(q, r);
  }

  lemma {:induction false} QuarterUp(r: nat)
    requires 0 < r
    ensures r / 4 == (r - 1) / 4 + if r % 4 == 0 then 1 else 0
  {
  }

  lemma {:induction false} CenturyUp(r: nat)
    requires 0 < r
    ensures r / 100 == (r - 1) / 100 + if r % 100 == 0 then 1 else 0
    ensures r % 100 == 0 ==> r % 4 == 0
  {
    assert r % 100 == 0 ==> r == 4 * (25 * (r / 100));
  }

  /** One year on inside the cycle. */
  lemma {:induction false} CycleYear(r: int)
    requires 0 < r < 400
    ensures r / 4 - r / 100 == (r - 1) / 4 - (r - 1) / 100 + if r % 4 == 0 && r % 100 != 0 then 1 else 0
  {
    QuarterUp(r);
    CenturyUp(r);
  }

  lemma {:induction false} CycleStep(q: int, r: int)
    requires 0 <= r < 400
    ensures MarchFirst(400 * q + r)
         == MarchFirst(400 * q + r - 1) + if r % 4 == 0 && (r % 100 != 0 || r == 0) then 366 else 365
  {
    MarchFirstAt(q, r);
    if r == 0 {
      MarchFirstAt(q - 1, 399);
    } else {
      MarchFirstAt(q, r - 1);
      CycleYear(r);
    }
  }

  lemma {:induction false} MarchStep(y: int)
    ensures MarchFirst(y) == MarchFirst(y - 1) + YearLength(y)
  {
    CycleStep(y / 400, y % 400);
    CycleParts(y / 400, y % 400);
  }

  lemma {:induction false} JanuaryFromMarch(y: int)
    ensures DaysBeforeYear(y) == MarchFirst(y - 1) + 306
    decreases if y >= 1970 then y - 1970 else 1970 - y
  {
    if y > 1970 {
      JanuaryFromMarch(y - 1);
      MarchStep(y - 1);
    } else if y < 1970 {
      JanuaryFromMarch(y + 1);
      MarchStep(y);
    }
  }

  lemma {:induction false} MonthOffsets(y: int, m: int)
    requires 1 <= m <= 12
    ensures DaysBeforeMonth(y, m)
         == if m > 2 then (153 * (m - 3) + 2) / 5 + YearLength(y) - 306 else (153 * (m + 9) + 2) / 5 - 306
    decreases m
  {
    if m == 1 {
    } else {
      MonthOffsets(y, m - 1);
    }
  }

  /** The formula is the calendar, for every valid date of every year. */
  lemma {:induction false} FormulaIsCalendar(d: Date)
    requires d.Valid()
    ensures DaysFromCivil(d.year, d.month, d.day) == DayCount(d)
  {
    FormulaFromMarch(d.year, d.month, d.day);
    JanuaryFromMarch(d.year);
    MarchStep(d.year);
    MonthOffsets(d.year, d.month);
  }

  lemma {:induction false} YearFilled(y: int)
    ensures DaysBeforeMonth(y, 12) + MonthLength(y, 12) == YearLength(y)
    ensures DaysBeforeYear(y + 1) == DaysBeforeYear(y) + YearLength(y)
  {
    MonthOffsets(y, 12);
  }

  lemma {:induction false} NextDayCount(d: Date)
    requires d.Valid()
    ensures DayCount(NextDay(d)) == DayCount(d) + 1
  {
    YearFilled(d.year);
  }

  /** The day after a date has the next number. */
  lemma {:induction false} NextDayIsNextNumber(d: Date)
    requires d.Valid()
    ensures var n := NextDay(d);
            DaysFromCivil(n.year, n.month, n.day) == DaysFromCivil(d.year, d.month, d.day) + 1
  {
    FormulaIsCalendar(d);
    FormulaIsCalendar(NextDay(d));
    NextDayCount(d);
  }

  predicate Before(a: Date, b: Date) {
    a.year < b.year || (a.year == b.year && (a.month < b.month || (a.month == b.month && a.day < b.day)))
  }

  lemma {:induction false} MonthsAscend(y: int, m: int, n: int)
    requires 1 <= m < n <= 12
    ensures DaysBeforeMonth(y, m) + MonthLength(y, m) <= DaysBeforeMonth(y, n)
  {
    if m + 1 == n {
    } else {
      MonthsAscend(y, m, n - 1);
    }
  }

  lemma {:induction false} YearsAscend(x: int, y: int)
    requires x < y
    ensures DaysBeforeYear(x) + YearLength(x) <= DaysBeforeYear(y)
    decreases y - x
  {
    YearFilled(y - 1);
    if x + 1 == y {
    } else {
      YearsAscend(x, y - 1);
    }
  }

  lemma {:induction false} InsideYear(d: Date)
    requires d.Valid()
    ensures DaysBeforeYear(d.year) <= DayCount(d) < DaysBeforeYear(d.year) + YearLength(d.year)
  {
    YearFilled(d.year);
    MonthOffsets(d.year, d.month);
    if d.month < 12 {
      MonthsAscend(d.year, d.month, 12);
    }
  }

  /** Date order is number order, so no two dates share a number. */
  lemma {:induction false} OrderPreserved(a: Date, b: Date)
    requires a.Valid() && b.Valid()
    ensures Before(a, b) <==> DaysFromCivil(a.year, a.month, a.day) < DaysFromCivil(b.year, b.month, b.day)
  {
    FormulaIsCalendar(a);
    FormulaIsCalendar(b);
    if Before(a, b) {
      Ascending(a, b);
    } else if Before(b, a) {
      Ascending(b, a);
    }
  }

  lemma {:induction false} Ascending(a: Date, b: Date)
    requires a.Valid() && b.Valid() && Before(a, b)
    ensures DayCount(a) < DayCount(b)
  {
    if a.year < b.year {
      InsideYear(a);
      InsideYear(b);
      YearsAscend(a.year, b.year);
    } else if a.month < b.month {
      MonthsAscend(a.year, a.month, b.month);
    }
  }
}
