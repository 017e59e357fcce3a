/** The proleptic Gregorian calendar, as Python's `datetime.date` and `calendar.monthrange` define it.

    A day is an ordinal: 1 is 1 January of year 1.  Months are numbered through all years, so that
    month `m` of year `y` has index `12 * y + m - 1`.  Years are unbounded in both directions.
 */
module Calendar {

  /** Instants are microseconds, counted from midnight UTC at the start of ordinal day 0. */
  const DAY: int := 86_400_000_000

  function DayStart(day: int): int { day * DAY }

  function DayOf(instant: int): int { instant / DAY }

  lemma DayOfBounds(instant: int, day: int)
    ensures DayStart(day) <= instant <==> day <= DayOf(instant)
  {
  }

  predicate IsLeap(year: int) {
    year % 4 == 0 && (year % 100 != 0 || year % 400 == 0)
  }

  function DaysInMonth(year: int, month: int): (n: int)
    requires 1 <= month <= 12
    ensures 28 <= n <= 31
  {
    if month == 2 then (if IsLeap(year) then 29 else 28)
    else if month in {4, 6, 9, 11} then 30
    else 31
  }

  function DaysBeforeYear(year: int): int {
    var p := year - 1;
    365 * p + p / 4 - p / 100 + p / 400
  }

  function DaysBeforeMonth(year: int, month: int): nat
    requires 1 <= month <= 12
  {
    [0, 31, 59, 90, 120, 151, 181, 212, 243, 273, 304, 334][month - 1] + if month > 2 && IsLeap(year) then 1 else 0
  }

  datatype Date = Date(year: int, month: int, day: int) {
    predicate Valid() {
      1 <= month <= 12 && 1 <= day <= DaysInMonth(year, month)
    }

    function Ordinal(): int
      requires 1 <= month <= 12
    {
      DaysBeforeYear(year) + DaysBeforeMonth(year, month) + day
    }

    function Month(): int { 12 * year + month - 1 }

    /** Python compares dates field by field. */
    predicate AtMost(that: Date) {
      year < that.year
      || (year == that.year && (month < that.month || (month == that.month && day <= that.day)))
    }
  }

  function MonthDays(month: int): (n: int)
    ensures 28 <= n <= 31
  {
    DaysInMonth(month / 12, month % 12 + 1)
  }

  function MonthOrdinal(month: int): int {
    Date(month / 12, month % 12 + 1, 1).Ordinal()
  }

  /** The ordinal of the first day of a month, counted month by month from January of year 1. */
  function MonthStart(month: int): int
    decreases if month < 12 then 12 - month else month - 12
  {
    if month == 12 then 1
    else if month > 12 then MonthStart(month - 1) + MonthDays(month - 1)
    else MonthStart(month + 1) - MonthDays(month)
  }

  lemma LeapDayQuotients(year: int)
    ensures year / 4 - (year - 1) / 4 == if year % 4 == 0 then 1 else 0
    ensures year / 100 - (year - 1) / 100 == if year % 100 == 0 then 1 else 0
    ensures year / 400 - (year - 1) / 400 == if year % 400 == 0 then 1 else 0
  {
  }

  lemma LeapDivisors(year: int)
    ensures year % 400 == 0 ==> year % 100 == 0
    ensures year % 100 == 0 ==> year % 4 == 0
  {
  }

  lemma YearLength(year: int)
    ensures DaysBeforeYear(year + 1) == DaysBeforeYear(year) + if IsLeap(year) then 366 else 365
  {
    LeapDayQuotients(year);
    LeapDivisors(year);
  }

  lemma FormulaStep(month: int)
    ensures MonthOrdinal(month + 1) == MonthOrdinal(month) + MonthDays(month)
  {
    var year := month / 12;
    if month % 12 == 11 {
      assert (month + 1) / 12 == year + 1 && (month + 1) % 12 == 0;
      YearLength(year);
    } else {
      assert (month + 1) / 12 == year && (month + 1) % 12 == month % 12 + 1;
    }
  }

  /** The closed day formula agrees with counting month lengths, before and after year 1. */
  lemma {:induction false} FormulaCountsMonths(month: int)
    ensures MonthOrdinal(month) == MonthStart(month)
    decreases if month < 12 then 12 - month else month - 12
  {
    if month > 12 {
      FormulaCountsMonths(month - 1);
      FormulaStep(month - 1);
    } else if month < 12 {
      FormulaCountsMonths(month + 1);
      FormulaStep(month);
    }
  }

  lemma MonthsAreAdjacent(month: int)
    ensures MonthStart(month + 1) == MonthStart(month) + MonthDays(month)
  {
  }

  lemma {:induction false} MonthStartGrows(a: int, b: int)
    requires a <= b
    ensures MonthStart(a) + 28 * (b - a) <= MonthStart(b)
    decreases b - a
  {
    if a < b {
      MonthStartGrows(a, b - 1);
      MonthsAreAdjacent(b - 1);
    }
  }

  /** A month that starts no later than the given day, to search from. */
  function EarlyMonth(day: int): (month: int)
    ensures MonthStart(month) <= day
  {
    var p := if day >= 1 then (day - 1) / 366 else (day - 1) / 365;
    assert MonthOrdinal(12 * (p + 1)) == DaysBeforeYear(p + 1) + 1;
    FormulaCountsMonths(12 * (p + 1));
    12 * (p + 1)
  }

  function MonthFrom(day: int, month: int): (m: int)
    requires MonthStart(month) <= day
    ensures MonthStart(m) <= day < MonthStart(m + 1)
    decreases day - MonthStart(month)
  {
    MonthsAreAdjacent(month);
    if day < MonthStart(month + 1) then month else MonthFrom(day, month + 1)
  }

  /** The month that contains a day. */
  function MonthOf(day: int): (m: int)
    ensures MonthStart(m) <= day < MonthStart(m + 1)
  {
    MonthFrom(day, EarlyMonth(day))
  }

  lemma MonthOfUnique(day: int, m: int)
    requires MonthStart(m) <= day < MonthStart(m + 1)
    ensures MonthOf(day) == m
  {
    var k := MonthOf(day);
    if k < m {
      MonthStartGrows(k + 1, m);
    } else if m < k {
      MonthStartGrows(m + 1, k);
    }
  }

  lemma MonthOfMonotone(a: int, b: int)
    requires a <= b
    ensures MonthOf(a) <= MonthOf(b)
  {
    if MonthOf(b) < MonthOf(a) {
      MonthStartGrows(MonthOf(b) + 1, MonthOf(a));
    }
  }

  /** The date with a given ordinal, Python's `date.fromordinal`. */
  function FromOrdinal(day: int): (d: Date)
    ensures d.Valid() && d.Ordinal() == day
  {
    var m := MonthOf(day);
    MonthsAreAdjacent(m);
    FormulaCountsMonths(m);
    Date(m / 12, m % 12 + 1, day - MonthStart(m) + 1)
  }

  lemma DateInMonth(d: Date)
    requires d.Valid()
    ensures MonthOf(d.Ordinal()) == d.Month()
    ensures MonthDays(d.Month()) == DaysInMonth(d.year, d.month)
    ensures d.Ordinal() == MonthStart(d.Month()) + d.day - 1
  {
    var m := d.Month();
    assert m / 12 == d.year && m % 12 == d.month - 1;
    FormulaCountsMonths(m);
    MonthsAreAdjacent(m);
    MonthOfUnique(d.Ordinal(), m);
  }

  /** Dates and ordinals are in bijection ... */
  lemma FromOrdinalInverts(d: Date)
    requires d.Valid()
    ensures FromOrdinal(d.Ordinal()) == d
  {
    DateInMonth(d);
  }

  lemma MonthThenDay(ma: int, da: int, mb: int, db: int)
    requires 1 <= da <= MonthDays(ma) && 1 <= db <= MonthDays(mb)
    ensures MonthStart(ma) + da <= MonthStart(mb) + db <==> ma < mb || (ma == mb && da <= db)
  {
    MonthsAreAdjacent(ma);
    MonthsAreAdjacent(mb);
    if ma < mb {
      MonthStartGrows(ma + 1, mb);
    } else if mb < ma {
      MonthStartGrows(mb + 1, ma);
    }
  }

  /** ... and comparing dates field by field is comparing their ordinals. */
  lemma AtMostIsOrdinalOrder(a: Date, b: Date)
    requires a.Valid() && b.Valid()
    ensures a.AtMost(b) <==> a.Ordinal() <= b.Ordinal()
  {
    DateInMonth(a);
    DateInMonth(b);
    MonthThenDay(a.Month(), a.day, b.Month(), b.day);
    assert a.AtMost(b) <==> a.Month() < b.Month() || (a.Month() == b.Month() && a.day <= b.day);
  }

  /** `weekday_code`: 0 for Sunday to 6 for Saturday.  Python's `weekday` counts from Monday, and
      ordinal 1 is a Monday. */
  function Weekday(day: int): (w: int)
    ensures 0 <= w < 7
  {
    var pythonWeekday := (day + 6) % 7;
    (pythonWeekday + 1) % 7
  }

  lemma WeekdayIsOrdinalMod7(day: int)
    ensures Weekday(day) == day % 7
  {
  }
}
