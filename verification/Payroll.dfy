/** Coach payroll: `fixed_prorated` and `earnings_for` of `coach_service.py`.

    Money is in cents.  Decimal arithmetic is exact here, on `real`.
 */
module Payroll {
  import opened Basics
  import opened Calendar
  import opened Sums

  // ----- Rounding ------------------------------------------------------------------------------

  /** `Decimal.quantize(Decimal("1"), ROUND_HALF_EVEN)`. */
  function RoundHalfEven(x: real): (r: int)
    ensures -0.5 <= r as real - x <= 0.5
    ensures r as real - x in {0.5, -0.5} ==> r % 2 == 0
  {
    var f := x.Floor;
    var part := x - f as real;
    if part < 0.5 then f
    else if part > 0.5 then f + 1
    else if f % 2 == 0 then f
    else f + 1
  }

  /** The contract of `RoundHalfEven` leaves no choice: nearest integer, ties to even. */
  lemma HalfEvenIsUnique(x: real, r: int)
    requires -0.5 <= r as real - x <= 0.5
    requires r as real - x in {0.5, -0.5} ==> r % 2 == 0
    ensures r == RoundHalfEven(x)
  {
    var q := RoundHalfEven(x);
    assert -1.0 <= (r - q) as real <= 1.0;
    assert r - q in {-1, 0, 1};
  }

  /** Rounding two parts apart moves the sum by at most one cent. */
  lemma RoundingSplit(x: real, y: real)
    ensures -1 <= RoundHalfEven(x + y) - RoundHalfEven(x) - RoundHalfEven(y) <= 1
  {
    var d := RoundHalfEven(x + y) - RoundHalfEven(x) - RoundHalfEven(y);
    assert -1.5 <= d as real <= 1.5;
  }

  // ----- The monthly salary, day by day --------------------------------------------------------

  /** `Decimal(monthly) * Decimal(days) / Decimal(in_month)`. */
  function Share(monthly: int, days: int, inMonth: int): real
    requires inMonth > 0
  {
    monthly as real * days as real / inMonth as real
  }

  /** What a monthly salary pays on each day. */
  function Salary(monthly: int): int -> real {
    (day: int) => Share(monthly, 1, MonthDays(MonthOf(day)))
  }

  /** What accrues on the days `lo` up to but not including `hi`, one by one. */
  function Accrual(rate: int -> real, lo: int, hi: int): real
    decreases hi - lo
  {
    if hi <= lo then 0.0 else Accrual(rate, lo, hi - 1) + rate(hi - 1)
  }

  lemma {:induction false} AccrualSplit(rate: int -> real, lo: int, mid: int, hi: int)
    requires lo <= mid <= hi
    ensures Accrual(rate, lo, hi) == Accrual(rate, lo, mid) + Accrual(rate, mid, hi)
    decreases hi - mid
  {
    if mid < hi {
      AccrualSplit(rate, lo, mid, hi - 1);
    }
  }

  function Times(n: nat, rate: real): real {
    if n == 0 then 0.0 else Times(n - 1, rate) + rate
  }

  lemma {:induction false} TimesIsProduct(n: nat, rate: real)
    ensures Times(n, rate) == n as real * rate
  {
    if n > 0 {
      TimesIsProduct(n - 1, rate);
      Distribute((n - 1) as real, rate);
      assert n as real == (n - 1) as real + 1.0;
    }
  }

  lemma Distribute(n: real, rate: real)
    ensures (n + 1.0) * rate == n * rate + rate
  {
  }

  lemma Rearrange(a: real, n: real, b: real)
    requires b > 0.0
    ensures a * n / b == n * (a * 1.0 / b)
    ensures a * b / b == a
  {
  }

  lemma ShareIsTimes(monthly: int, days: nat, inMonth: int)
    requires inMonth > 0
    ensures Share(monthly, days, inMonth) == Times(days, Share(monthly, 1, inMonth))
    ensures Share(monthly, inMonth, inMonth) == monthly as real
  {
    TimesIsProduct(days, Share(monthly, 1, inMonth));
    Rearrange(monthly as real, days as real, inMonth as real);
  }

  lemma {:induction false} ConstantRate(rate: int -> real, r: real, lo: int, hi: int)
    requires lo <= hi
    requires forall d | lo <= d < hi :: rate(d) == r
    ensures Accrual(rate, lo, hi) == Times(hi - lo, r)
    decreases hi - lo
  {
    if lo < hi {
      ConstantRate(rate, r, lo, hi - 1);
    }
  }

  /** Inside one month, the daily sum is the source's `monthly * overlap_days / days_in_month`. */
  lemma AccrualInMonth(monthly: int, m: int, lo: int, hi: int)
    requires MonthStart(m) <= lo <= hi <= MonthStart(m + 1)
    ensures Accrual(Salary(monthly), lo, hi) == Share(monthly, hi - lo, MonthDays(m))
    ensures Accrual(Salary(monthly), lo, hi) == monthly as real * (hi - lo) as real / MonthDays(m) as real
  {
    var r := Share(monthly, 1, MonthDays(m));
    forall d | lo <= d < hi
      ensures Salary(monthly)(d) == r
    {
      MonthOfUnique(d, m);
    }
    ConstantRate(Salary(monthly), r, lo, hi);
    ShareIsTimes(monthly, hi - lo, MonthDays(m));
  }

  lemma WholeMonth(monthly: int, m: int)
    ensures Accrual(Salary(monthly), MonthStart(m), MonthStart(m + 1)) == monthly as real
  {
    hide *;
    MonthsAreAdjacent(m);
    AccrualInMonth(monthly, m, MonthStart(m), MonthStart(m + 1));
    ShareIsTimes(monthly, 1, MonthDays(m));
  }

  /** Whole months pay exactly the salary each, whatever their lengths. */
  lemma {:induction false} WholeMonthsAccrueExactly(monthly: int, m: int, n: nat)
    ensures Accrual(Salary(monthly), MonthStart(m), MonthStart(m + n)) == (n * monthly) as real
  {
    hide MonthStart, Salary, Share;
    if n > 0 {
      var k := m + n - 1;
      WholeMonthsAccrueExactly(monthly, m, n - 1);
      MonthStartGrows(m, k);
      MonthStartGrows(k, k + 1);
      AccrualSplit(Salary(monthly), MonthStart(m), MonthStart(k), MonthStart(k + 1));
      WholeMonth(monthly, k);
      assert n * monthly == (n - 1) * monthly + monthly;
    }
  }

  lemma OverlapAccrues(monthly: int, m: int, lo: int, from: int, to: int)
    requires lo <= from <= to && MonthStart(m) <= from && to <= MonthStart(m) + MonthDays(m)
    ensures Accrual(Salary(monthly), lo, to) ==
            Accrual(Salary(monthly), lo, from) + Share(monthly, to - from, MonthDays(m))
  {
    MonthsAreAdjacent(m);
    AccrualSplit(Salary(monthly), lo, from, to);
    AccrualInMonth(monthly, m, from, to);
  }

  /** `_first_of_next_month`, branch for branch. */
  function FirstOfNextMonth(d: Date): (r: Date)
    requires d.Valid()
    ensures r.Valid() && r.day == 1 && r.Month() == d.Month() + 1
  {
    if d.month == 12 then Date(d.year + 1, 1, 1) else Date(d.year, d.month + 1, 1)
  }

  lemma MonthOfCursor(d: Date)
    requires d.Valid()
    ensures var first, last := d.(day := 1), d.(day := DaysInMonth(d.year, d.month));
            && first.Ordinal() == MonthStart(d.Month())
            && last.Valid() && first.Valid()
            && last.Ordinal() + 1 == first.Ordinal() + DaysInMonth(d.year, d.month)
            && first.Ordinal() <= d.Ordinal() <= last.Ordinal()
            && FirstOfNextMonth(d).Ordinal() == last.Ordinal() + 1
    ensures MonthDays(d.Month()) == DaysInMonth(d.year, d.month)
  {
    hide Date.Ordinal, MonthStart;
    DateInMonth(d);
    DateInMonth(d.(day := 1));
    DateInMonth(d.(day := DaysInMonth(d.year, d.month)));
    DateInMonth(FirstOfNextMonth(d));
    MonthsAreAdjacent(d.Month());
  }

  /** `fixed_prorated`: the month walk computes the rounded daily sum, and the overlaps it pays for add up to the
      span. */
  method FixedProrated(monthly: int, spanFrom: Date, spanTo: Date) returns (cents: int, ghost overlaps: int)
    requires spanFrom.Valid() && spanTo.Valid()
    ensures overlaps == Max(0, spanTo.Ordinal() + 1 - spanFrom.Ordinal())
    ensures cents == RoundHalfEven(Accrual(Salary(monthly), spanFrom.Ordinal(), spanTo.Ordinal() + 1))
  {
    hide Date.Ordinal, Date.Month, DaysInMonth, MonthStart, MonthDays, Salary, Share, RoundHalfEven, FirstOfNextMonth;
    AtMostIsOrdinalOrder(spanFrom, spanTo);
    if !spanFrom.AtMost(spanTo) {
      return RoundHalfEven(0.0), 0;
    }
    var lo, hi := spanFrom.Ordinal(), spanTo.Ordinal();
    var total := 0.0;
    overlaps := 0;
    var cursor := spanFrom.(day := 1);
    MonthOfCursor(spanFrom);
    AtMostIsOrdinalOrder(cursor, spanTo);
    while cursor.AtMost(spanTo)
      invariant cursor.Valid() && cursor.day == 1
      invariant cursor.AtMost(spanTo) <==> cursor.Ordinal() <= hi
      invariant lo < cursor.Ordinal() + DaysInMonth(cursor.year, cursor.month)
      invariant total == Accrual(Salary(monthly), lo, Max(lo, Min(cursor.Ordinal(), hi + 1)))
      invariant overlaps == Max(lo, Min(cursor.Ordinal(), hi + 1)) - lo
      decreases hi - cursor.Ordinal()
    {
      var daysInMonth := DaysInMonth(cursor.year, cursor.month);
      var monthEnd := cursor.(day := daysInMonth);
      var ovStart := Max(cursor.Ordinal(), lo);
      var ovEnd := Min(monthEnd.Ordinal(), hi);
      var overlapDays := ovEnd - ovStart + 1;
      MonthOfCursor(cursor);
      MonthsAreAdjacent(cursor.Month());
      assert Max(0, overlapDays) == OverlapDays(cursor.Month(), lo, hi + 1);
      if overlapDays > 0 {
        OverlapAccrues(monthly, cursor.Month(), lo, ovStart, ovEnd + 1);
        total := total + Share(monthly, overlapDays, daysInMonth);
        overlaps := overlaps + overlapDays;
      }
      cursor := FirstOfNextMonth(cursor);
      AtMostIsOrdinalOrder(cursor, spanTo);
    }
    cents := RoundHalfEven(total);
  }

  /** n whole calendar months pay exactly n salaries. */
  lemma WholeMonthsPayExactly(monthly: int, m: int, n: nat)
    ensures RoundHalfEven(Accrual(Salary(monthly), MonthStart(m), MonthStart(m + n))) == n * monthly
  {
    WholeMonthsAccrueExactly(monthly, m, n);
  }

  /** Two adjacent spans pay what their union pays, give or take one cent. */
  lemma AdjacentSpansWithinOneCent(monthly: int, lo: int, mid: int, hi: int)
    requires lo <= mid <= hi
    ensures -1 <= RoundHalfEven(Accrual(Salary(monthly), lo, hi))
                  - RoundHalfEven(Accrual(Salary(monthly), lo, mid))
                  - RoundHalfEven(Accrual(Salary(monthly), mid, hi)) <= 1
  {
    AccrualSplit(Salary(monthly), lo, mid, hi);
    RoundingSplit(Accrual(Salary(monthly), lo, mid), Accrual(Salary(monthly), mid, hi));
  }

  /** The days of a month that the month walk pays for. */
  function OverlapDays(m: int, lo: int, hi: int): int {
    Max(0, Min(MonthStart(m + 1), hi) - Max(MonthStart(m), lo))
  }

  function TotalOverlap(m: int, n: nat, lo: int, hi: int): int {
    if n == 0 then 0 else TotalOverlap(m, n - 1, lo, hi) + OverlapDays(m + n - 1, lo, hi)
  }

  lemma {:induction false} OverlapsSoFar(n: nat, lo: int, hi: int)
    requires lo < hi
    ensures TotalOverlap(MonthOf(lo), n, lo, hi) == Max(0, Min(MonthStart(MonthOf(lo) + n), hi) - lo)
  {
    hide MonthStart, MonthOf;
    var m := MonthOf(lo);
    if n > 0 {
      OverlapsSoFar(n - 1, lo, hi);
      MonthStartGrows(m + n - 1, m + n);
      if n > 1 {
        MonthStartGrows(m + 1, m + n - 1);
      }
    }
  }

  /** The overlaps of the months that a span touches add up to the length of the span. */
  lemma OverlapsCoverSpan(lo: int, hi: int)
    requires lo < hi
    ensures MonthOf(lo) <= MonthOf(hi - 1)
    ensures TotalOverlap(MonthOf(lo), MonthOf(hi - 1) - MonthOf(lo) + 1, lo, hi) == hi - lo
  {
    hide MonthStart, MonthOf;
    MonthOfMonotone(lo, hi - 1);
    OverlapsSoFar(MonthOf(hi - 1) - MonthOf(lo) + 1, lo, hi);
  }

  // ----- Links, and the rows they are paid for -------------------------------------------------

  datatype PayModel = Fixed | PerSession | PerAttendance

  datatype Coach = Coach(id: nat, hiredAt: int, cancelledAt: Option<int>, frozenAt: Option<int>)

  /** A link's label: the owner's text, or the one `bulk_action` writes for a substitute on a range of days. */
  datatype Role = Named(text: string) | Substitute(from: int, to: int)

  datatype Link =
    Link(classId: nat, role: Role, model: PayModel, amount: nat, startsOn: int, endsOn: Option<int>)

  datatype SessionRow = SessionRow(headCoach: Option<nat>, classId: nat, scheduled: bool, startsAt: int)

  datatype EntryRow = EntryRow(coach: Option<nat>, classId: nat, effective: bool, enteredAt: int)

  datatype Books = Books(scheduleOn: bool, sessions: seq<SessionRow>, entries: seq<EntryRow>)

  /** The rows of `count_scheduled_for_coach`. */
  function SessionIds(b: Books, coach: nat, classId: nat, since: int, until: int): set<int> {
    set i | 0 <= i < |b.sessions| && b.sessions[i].headCoach == Some(coach) && b.sessions[i].classId == classId
            && b.sessions[i].scheduled && since <= b.sessions[i].startsAt < until
  }

  /** The rows of `count_effective_for_coach_class`. */
  function EntryIds(b: Books, coach: nat, classId: nat, since: int, until: int): set<int> {
    set i | 0 <= i < |b.entries| && b.entries[i].coach == Some(coach) && b.entries[i].classId == classId
            && b.entries[i].effective && since <= b.entries[i].enteredAt < until
  }

  /** The days of `count_distinct_days_for_coach_class`. */
  function EntryDays(b: Books, coach: nat, classId: nat, since: int, until: int): set<int> {
    set i | i in EntryIds(b, coach, classId, since, until) :: DayOf(b.entries[i].enteredAt)
  }

  /** `unit_count` of a link paid on the days `lo` to `hi`. */
  function Units(b: Books, coach: nat, link: Link, lo: int, hi: int): int {
    var since, until := DayStart(lo), DayStart(hi + 1);
    match link.model
    case Fixed => hi - lo + 1
    case PerSession =>
      if b.scheduleOn then |SessionIds(b, coach, link.classId, since, until)|
      else |EntryDays(b, coach, link.classId, since, until)|
    case PerAttendance => |EntryIds(b, coach, link.classId, since, until)|
  }

  function Cents(b: Books, coach: nat, link: Link, lo: int, hi: int): int {
    if link.model.Fixed? then RoundHalfEven(Accrual(Salary(link.amount), lo, hi + 1))
    else Units(b, coach, link, lo, hi) * link.amount
  }

  method PayForLink(b: Books, coach: nat, link: Link, lo: int, hi: int) returns (cents: int, units: int)
    ensures cents == Cents(b, coach, link, lo, hi) && units == Units(b, coach, link, lo, hi)
  {
    var since, until := DayStart(lo), DayStart(hi + 1);
    match link.model
    case Fixed =>
      var pay, _ := FixedProrated(link.amount, FromOrdinal(lo), FromOrdinal(hi));
      cents := pay;
      units := hi - lo + 1;
    case PerSession =>
      if b.scheduleOn {
        units := |SessionIds(b, coach, link.classId, since, until)|;
      } else {
        units := |EntryDays(b, coach, link.classId, since, until)|;
      }
      cents := units * link.amount;
    case PerAttendance =>
      units := |EntryIds(b, coach, link.classId, since, until)|;
      cents := units * link.amount;
  }

  // ----- Windows -------------------------------------------------------------------------------

  /** The last day of the coach's lifetime that a query up to `to` can pay. */
  function LifetimeEnd(c: Coach, to: int): int {
    var e := match c.cancelledAt case Some(d) => Min(to, d) case None => to;
    match c.frozenAt case Some(d) => Min(e, d - 1) case None => e
  }

  /** `_coach_effective_window`. */
  function EffectiveWindow(c: Coach, from: int, to: int): Option<(int, int)> {
    var start, end := Max(from, c.hiredAt), LifetimeEnd(c, to);
    if end < start then None else Some((start, end))
  }

  function SpanFrom(link: Link, lo: int): int { Max(lo, link.startsOn) }

  function SpanTo(link: Link, hi: int): int {
    match link.endsOn case Some(e) => Min(hi, e) case None => hi
  }

  /** What one link pays in the coach's effective window; 0 when the link's span is empty. */
  function WindowCents(b: Books, coach: nat, link: Link, lo: int, hi: int): int {
    if SpanTo(link, hi) < SpanFrom(link, lo) then 0
    else Cents(b, coach, link, SpanFrom(link, lo), SpanTo(link, hi))
  }

  /** What one link pays for a query. */
  function LinkCents(b: Books, c: Coach, link: Link, from: int, to: int): int {
    WindowCents(b, c.id, link, Max(from, c.hiredAt), LifetimeEnd(c, to))
  }

  function TotalCents(b: Books, c: Coach, links: seq<Link>, from: int, to: int): int {
    if links == [] then 0
    else TotalCents(b, c, links[..|links| - 1], from, to) + LinkCents(b, c, links[|links| - 1], from, to)
  }

  predicate PaidOn(c: Coach, link: Link, from: int, to: int) {
    SpanFrom(link, Max(from, c.hiredAt)) <= SpanTo(link, LifetimeEnd(c, to))
  }

  // ----- The breakdown -------------------------------------------------------------------------

  datatype Row = Row(classId: nat, role: Role, model: PayModel, amount: nat, cents: int, units: int)

  datatype Breakdown = Breakdown(
    effective: Option<(int, int)>, total: int, rows: seq<Row>, byClass: map<nat, int>, byModel: map<PayModel, int>)

  datatype Earnings = Ok(breakdown: Breakdown) | InvalidRange

  /** `list_active_links_for_coach_in_range`: the coach's links that overlap the window. */
  predicate Overlaps(link: Link, lo: int, hi: int) {
    link.startsOn <= hi && (link.endsOn.None? || lo <= link.endsOn.value)
  }

  /** The rows of a breakdown: one for each link with a non-empty span, inside the window. */
  function RowsFor(b: Books, coach: nat, links: seq<Link>, lo: int, hi: int): seq<Row> {
    if links == [] then []
    else
      var link := links[|links| - 1];
      var f, t := SpanFrom(link, lo), SpanTo(link, hi);
      RowsFor(b, coach, links[..|links| - 1], lo, hi)
      + if t < f then []
        else [Row(link.classId, link.role, link.model, link.amount,
                  Cents(b, coach, link, f, t), Units(b, coach, link, f, t))]
  }

  ghost function RowTotal(rows: seq<Row>): int { Sum(rows, (r: Row) => true, (r: Row) => r.cents) }

  ghost function ClassTotals(rows: seq<Row>): map<nat, int> {
    GroupSum(rows, (r: Row) => true, (r: Row) => r.classId, (r: Row) => r.cents)
  }

  ghost function ModelTotals(rows: seq<Row>): map<PayModel, int> {
    GroupSum(rows, (r: Row) => true, (r: Row) => r.model, (r: Row) => r.cents)
  }

  lemma {:induction false} RowsAddUp(b: Books, c: Coach, links: seq<Link>, from: int, to: int)
    ensures RowTotal(RowsFor(b, c.id, links, Max(from, c.hiredAt), LifetimeEnd(c, to))) ==
            TotalCents(b, c, links, from, to)
  {
    if links != [] {
      var lo, hi := Max(from, c.hiredAt), LifetimeEnd(c, to);
      var init, link := links[..|links| - 1], links[|links| - 1];
      RowsAddUp(b, c, init, from, to);
      var rows := RowsFor(b, c.id, init, lo, hi);
      var all := RowsFor(b, c.id, links, lo, hi);
      if SpanFrom(link, lo) <= SpanTo(link, hi) {
        var row := all[|rows|];
        assert all == rows + [row];
        SumAppend(rows, row, (r: Row) => true, (r: Row) => r.cents);
      } else {
        assert all == rows;
      }
    }
  }

  /** Outside the coach's lifetime nothing is paid. */
  lemma {:induction false} NoWindowNoPay(b: Books, c: Coach, links: seq<Link>, from: int, to: int)
    requires EffectiveWindow(c, from, to).None?
    ensures TotalCents(b, c, links, from, to) == 0
  {
    if links != [] {
      NoWindowNoPay(b, c, links[..|links| - 1], from, to);
    }
  }

  /** `earnings_for`, after the coach was found. */
  method EarningsFor(b: Books, c: Coach, links: seq<Link>, from: int, to: int) returns (r: Earnings)
    ensures r.InvalidRange? <==> to < from
    ensures r.Ok? ==> r.breakdown.effective == EffectiveWindow(c, from, to)
    ensures r.Ok? ==> r.breakdown.total == TotalCents(b, c, links, from, to)
    ensures r.Ok? ==>
              r.breakdown.rows == match EffectiveWindow(c, from, to)
                                  case None => []
                                  case Some(w) => RowsFor(b, c.id, links, w.0, w.1)
    ensures r.Ok? ==> r.breakdown.byClass == ClassTotals(r.breakdown.rows)
    ensures r.Ok? ==> r.breakdown.byModel == ModelTotals(r.breakdown.rows)
  {
    if to < from {
      return InvalidRange;
    }
    var window := EffectiveWindow(c, from, to);
    if window.None? {
      NoWindowNoPay(b, c, links, from, to);
      return Ok(Breakdown(None, 0, [], map[], map[]));
    }
    var (lo, hi) := window.value;
    var total, rows := 0, [];
    var byClass: map<nat, int>, byModel: map<PayModel, int> := map[], map[];
    for i := 0 to |links|
      invariant rows == RowsFor(b, c.id, links[..i], lo, hi)
      invariant total == RowTotal(rows)
      invariant byClass == ClassTotals(rows) && byModel == ModelTotals(rows)
    {
      var link := links[i];
      assert links[..i + 1][..i] == links[..i];
      if !Overlaps(link, lo, hi) {
        continue;
      }
      var spanFrom, spanTo := SpanFrom(link, lo), SpanTo(link, hi);
      if spanTo < spanFrom {
        continue;
      }
      var cents, units := PayForLink(b, c.id, link, spanFrom, spanTo);
      var row := Row(link.classId, link.role, link.model, link.amount, cents, units);
      total := total + cents;
      byClass := Bump(byClass, link.classId, cents);
      byModel := Bump(byModel, link.model, cents);
      SumAppend(rows, row, (r: Row) => true, (r: Row) => r.cents);
      GroupSumAppend(rows, row, (r: Row) => true, (r: Row) => r.classId, (r: Row) => r.cents);
      GroupSumAppend(rows, row, (r: Row) => true, (r: Row) => r.model, (r: Row) => r.cents);
      rows := rows + [row];
    }
    assert links[..|links|] == links;
    RowsAddUp(b, c, links, from, to);
    r := Ok(Breakdown(window, total, rows, byClass, byModel));
  }

  /** A breakdown conserves money: the two maps add up to the rows. */
  lemma BreakdownConserves(rows: seq<Row>)
    ensures SumMap(ClassTotals(rows)) == RowTotal(rows) == SumMap(ModelTotals(rows))
  {
    GroupSumConserves(rows, (r: Row) => true, (r: Row) => r.classId, (r: Row) => r.cents);
    GroupSumConserves(rows, (r: Row) => true, (r: Row) => r.model, (r: Row) => r.cents);
  }

  /** A class's entry in the map is the sum of its rows; a class without rows has no entry. */
  lemma ClassTotalIsItsRows(rows: seq<Row>, classId: nat)
    ensures var own := (r: Row) => r.classId == classId;
            && (classId in ClassTotals(rows) <==> exists r :: r in rows && own(r))
            && (classId in ClassTotals(rows) ==> ClassTotals(rows)[classId] == Sum(rows, own, (r: Row) => r.cents))
  {
    var own := (r: Row) => r.classId == classId;
    GroupSumAt(rows, (r: Row) => true, (r: Row) => r.classId, (r: Row) => r.cents, classId, own);
  }

  /** The same for a pay model. */
  lemma ModelTotalIsItsRows(rows: seq<Row>, model: PayModel)
    ensures var own := (r: Row) => r.model == model;
            && (model in ModelTotals(rows) <==> exists r :: r in rows && own(r))
            && (model in ModelTotals(rows) ==> ModelTotals(rows)[model] == Sum(rows, own, (r: Row) => r.cents))
  {
    var own := (r: Row) => r.model == model;
    GroupSumAt(rows, (r: Row) => true, (r: Row) => r.model, (r: Row) => r.cents, model, own);
  }

  /** A day of a coach's lifetime: hired, not cancelled before it, and not frozen by it. */
  predicate Employed(c: Coach, day: int) {
    && c.hiredAt <= day
    && (c.cancelledAt.Some? ==> day <= c.cancelledAt.value)
    && (c.frozenAt.Some? ==> day < c.frozenAt.value)
  }

  predicate InForce(link: Link, day: int) {
    link.startsOn <= day && (link.endsOn.Some? ==> day <= link.endsOn.value)
  }

  /** The days that a link is paid for are exactly those of the query, of the coach's lifetime and of the link. */
  lemma PaidSpanInsideLifetime(c: Coach, link: Link, from: int, to: int, day: int)
    ensures SpanFrom(link, Max(from, c.hiredAt)) <= day <= SpanTo(link, LifetimeEnd(c, to)) <==>
            from <= day <= to && Employed(c, day) && InForce(link, day)
  {
  }

  /** The window of a breakdown, when there is one, holds exactly the days of the query and of the coach's lifetime. */
  lemma WindowExactly(c: Coach, from: int, to: int, day: int)
    ensures var w := EffectiveWindow(c, from, to);
            (w.Some? && w.value.0 <= day <= w.value.1) <==> from <= day <= to && Employed(c, day)
    ensures EffectiveWindow(c, from, to).Some? ==>
              EffectiveWindow(c, from, to).value.0 <= EffectiveWindow(c, from, to).value.1
  {
  }

  /** The rows of a breakdown are the links with a day to pay, in order, with their own columns, cents and units. */
  lemma {:induction false} RowsAreLinks(b: Books, coach: nat, links: seq<Link>, lo: int, hi: int)
    ensures forall r | r in RowsFor(b, coach, links, lo, hi) ::
              exists link | link in links ::
                && SpanFrom(link, lo) <= SpanTo(link, hi)
                && r.classId == link.classId && r.role == link.role && r.model == link.model && r.amount == link.amount
                && r.cents == WindowCents(b, coach, link, lo, hi)
                && r.units == Units(b, coach, link, SpanFrom(link, lo), SpanTo(link, hi))
    ensures |RowsFor(b, coach, links, lo, hi)| == Count(links, (link: Link) => SpanFrom(link, lo) <= SpanTo(link, hi))
  {
    hide Cents, Units, SpanFrom, SpanTo;
    if links != [] {
      var init, last := links[..|links| - 1], links[|links| - 1];
      RowsAreLinks(b, coach, init, lo, hi);
      assert last in links;
      forall link | link in init
        ensures link in links
      {
      }
    }
  }

  // ----- What one more row in the books is worth -----------------------------------------------

  /** A check-in that a link is paid for in a query: effective, of this coach and class, on a paid day. */
  predicate Pays(c: Coach, link: Link, from: int, to: int, e: EntryRow) {
    var day := DayOf(e.enteredAt);
    && e.effective && e.coach == Some(c.id) && e.classId == link.classId
    && from <= day <= to && Employed(c, day) && InForce(link, day)
  }

  /** A held session that a link is paid for in a query. */
  predicate PaysSession(c: Coach, link: Link, from: int, to: int, s: SessionRow) {
    var day := DayOf(s.startsAt);
    && s.scheduled && s.headCoach == Some(c.id) && s.classId == link.classId
    && from <= day <= to && Employed(c, day) && InForce(link, day)
  }

  /** Another check-in that pays stands on the same day. */
  predicate DayTaken(b: Books, c: Coach, link: Link, from: int, to: int, e: EntryRow) {
    exists i | 0 <= i < |b.entries| ::
      Pays(c, link, from, to, b.entries[i]) && DayOf(b.entries[i].enteredAt) == DayOf(e.enteredAt)
  }

  lemma SinceUntil(t: int, lo: int, hi: int)
    ensures DayStart(lo) <= t < DayStart(hi + 1) <==> lo <= DayOf(t) <= hi
  {
    DayOfBounds(t, lo);
    DayOfBounds(t, hi + 1);
  }

  /** The paid days of a link in a query, as a half-open range of instants. */
  predicate PaidRange(c: Coach, link: Link, from: int, to: int, since: int, until: int) {
    var lo, hi := SpanFrom(link, Max(from, c.hiredAt)), SpanTo(link, LifetimeEnd(c, to));
    lo <= hi && since == DayStart(lo) && until == DayStart(hi + 1)
  }

  lemma InPaidRange(c: Coach, link: Link, from: int, to: int, since: int, until: int, t: int)
    requires PaidRange(c, link, from, to, since, until)
    ensures since <= t < until <==> from <= DayOf(t) <= to && Employed(c, DayOf(t)) && InForce(link, DayOf(t))
  {
    PaidSpanInsideLifetime(c, link, from, to, DayOf(t));
    SinceUntil(t, SpanFrom(link, Max(from, c.hiredAt)), SpanTo(link, LifetimeEnd(c, to)));
  }

  lemma EntryCounts(b: Books, c: Coach, link: Link, from: int, to: int, since: int, until: int, i: int)
    requires PaidRange(c, link, from, to, since, until)
    ensures i in EntryIds(b, c.id, link.classId, since, until) <==>
            0 <= i < |b.entries| && Pays(c, link, from, to, b.entries[i])
  {
    hide PaidRange, Employed, InForce, DayOf;
    if 0 <= i < |b.entries| {
      InPaidRange(c, link, from, to, since, until, b.entries[i].enteredAt);
    }
  }

  lemma DayCounts(b: Books, c: Coach, link: Link, from: int, to: int, since: int, until: int, e: EntryRow)
    requires PaidRange(c, link, from, to, since, until)
    ensures DayOf(e.enteredAt) in EntryDays(b, c.id, link.classId, since, until) <==> DayTaken(b, c, link, from, to, e)
  {
    forall i
      ensures i in EntryIds(b, c.id, link.classId, since, until) <==>
              0 <= i < |b.entries| && Pays(c, link, from, to, b.entries[i])
    {
      EntryCounts(b, c, link, from, to, since, until, i);
    }
    hide PaidRange, EntryIds, Pays, DayOf;
  }

  lemma AddOne(s: set<int>, x: int)
    ensures |s + {x}| == |s| + if x in s then 0 else 1
    ensures s + {} == s
  {
    if x in s {
      assert s + {x} == s;
    }
  }

  lemma EntryIdsGrow(b: Books, coach: nat, k: nat, since: int, until: int, e: EntryRow)
    ensures var more, n := b.(entries := b.entries + [e]), |b.entries|;
            && n !in EntryIds(b, coach, k, since, until)
            && EntryIds(more, coach, k, since, until) ==
               EntryIds(b, coach, k, since, until) + (if n in EntryIds(more, coach, k, since, until) then {n} else {})
            && EntryDays(more, coach, k, since, until) ==
               EntryDays(b, coach, k, since, until)
               + (if n in EntryIds(more, coach, k, since, until) then {DayOf(e.enteredAt)} else {})
  {
    hide DayOf;
    var more, n := b.(entries := b.entries + [e]), |b.entries|;
    assert forall i | 0 <= i < n :: more.entries[i] == b.entries[i];
    assert more.entries[n] == e;
  }

  lemma EntriesGrow(b: Books, c: Coach, link: Link, from: int, to: int, since: int, until: int, e: EntryRow)
    requires PaidRange(c, link, from, to, since, until)
    ensures var more := b.(entries := b.entries + [e]);
            && |EntryIds(more, c.id, link.classId, since, until)| ==
               |EntryIds(b, c.id, link.classId, since, until)| + (if Pays(c, link, from, to, e) then 1 else 0)
            && |EntryDays(more, c.id, link.classId, since, until)| ==
               |EntryDays(b, c.id, link.classId, since, until)|
               + (if Pays(c, link, from, to, e) && !DayTaken(b, c, link, from, to, e) then 1 else 0)
  {
    hide *;
    var more, n := b.(entries := b.entries + [e]), |b.entries|;
    assert more.entries[n] == e;
    EntryIdsGrow(b, c.id, link.classId, since, until, e);
    EntryCounts(more, c, link, from, to, since, until, n);
    DayCounts(b, c, link, from, to, since, until, e);
    AddOne(EntryIds(b, c.id, link.classId, since, until), n);
    AddOne(EntryDays(b, c.id, link.classId, since, until), DayOf(e.enteredAt));
  }

  /** One more check-in adds the link's amount under pay per attendance if and only if it pays; under pay per session
      without the schedule, if and only if it is also the first that pays on its day; and otherwise nothing. */
  lemma EntryAddsPay(b: Books, c: Coach, link: Link, from: int, to: int, e: EntryRow)
    ensures LinkCents(b.(entries := b.entries + [e]), c, link, from, to) ==
            LinkCents(b, c, link, from, to)
            + if link.model == PerAttendance && Pays(c, link, from, to, e) then link.amount
              else if link.model == PerSession && !b.scheduleOn && Pays(c, link, from, to, e)
                      && !DayTaken(b, c, link, from, to, e) then link.amount
              else 0
  {
    var lo, hi := SpanFrom(link, Max(from, c.hiredAt)), SpanTo(link, LifetimeEnd(c, to));
    if lo <= hi {
      EntriesGrow(b, c, link, from, to, DayStart(lo), DayStart(hi + 1), e);
      PayAdds(Units(b, c.id, link, lo, hi), 1, link.amount);
    } else {
      PaidSpanInsideLifetime(c, link, from, to, DayOf(e.enteredAt));
    }
    hide RoundHalfEven, Accrual, Salary, EntryIds, EntryDays, DayTaken, DayStart, Pays, SpanFrom, SpanTo, LifetimeEnd;
  }

  lemma SessionIdsGrow(b: Books, coach: nat, k: nat, since: int, until: int, s: SessionRow)
    ensures var more, n := b.(sessions := b.sessions + [s]), |b.sessions|;
            && n !in SessionIds(b, coach, k, since, until)
            && (n in SessionIds(more, coach, k, since, until) <==>
                s.headCoach == Some(coach) && s.classId == k && s.scheduled && since <= s.startsAt < until)
            && SessionIds(more, coach, k, since, until) ==
               SessionIds(b, coach, k, since, until)
               + (if n in SessionIds(more, coach, k, since, until) then {n} else {})
  {
    var more, n := b.(sessions := b.sessions + [s]), |b.sessions|;
    assert forall i | 0 <= i < n :: more.sessions[i] == b.sessions[i];
    assert more.sessions[n] == s;
  }

  lemma SessionsGrow(b: Books, c: Coach, link: Link, from: int, to: int, since: int, until: int, s: SessionRow)
    requires PaidRange(c, link, from, to, since, until)
    ensures |SessionIds(b.(sessions := b.sessions + [s]), c.id, link.classId, since, until)| ==
            |SessionIds(b, c.id, link.classId, since, until)| + if PaysSession(c, link, from, to, s) then 1 else 0
  {
    hide PaidRange, Employed, InForce, DayOf, SessionIds;
    InPaidRange(c, link, from, to, since, until, s.startsAt);
    SessionIdsGrow(b, c.id, link.classId, since, until, s);
    AddOne(SessionIds(b, c.id, link.classId, since, until), |b.sessions|);
  }

  /** One more session adds the link's amount under pay per session with the schedule on if and only if it pays. */
  lemma SessionAddsPay(b: Books, c: Coach, link: Link, from: int, to: int, s: SessionRow)
    ensures LinkCents(b.(sessions := b.sessions + [s]), c, link, from, to) ==
            LinkCents(b, c, link, from, to)
            + if link.model == PerSession && b.scheduleOn && PaysSession(c, link, from, to, s) then link.amount else 0
  {
    var lo, hi := SpanFrom(link, Max(from, c.hiredAt)), SpanTo(link, LifetimeEnd(c, to));
    if lo <= hi {
      SessionsGrow(b, c, link, from, to, DayStart(lo), DayStart(hi + 1), s);
      PayAdds(Units(b, c.id, link, lo, hi), 1, link.amount);
    } else {
      PaidSpanInsideLifetime(c, link, from, to, DayOf(s.startsAt));
    }
    hide RoundHalfEven, Accrual, Salary, SessionIds, DayStart, PaysSession, SpanFrom, SpanTo, LifetimeEnd;
  }

  /** With empty books only FIXED links pay: the rounded salary of the paid days. */
  lemma EmptyBooksPay(scheduleOn: bool, c: Coach, link: Link, from: int, to: int)
    ensures var lo, hi := SpanFrom(link, Max(from, c.hiredAt)), SpanTo(link, LifetimeEnd(c, to));
            LinkCents(Books(scheduleOn, [], []), c, link, from, to) ==
            if link.model == Fixed && lo <= hi then RoundHalfEven(Accrual(Salary(link.amount), lo, hi + 1)) else 0
  {
    hide RoundHalfEven, Accrual, Salary;
  }

  /** The units of a span are what its pay is for: days, or as many amounts as were paid. */
  lemma UnitsExactly(b: Books, coach: nat, link: Link, lo: int, hi: int)
    requires lo <= hi
    ensures link.model == Fixed ==> lo + Units(b, coach, link, lo, hi) == hi + 1
    ensures link.model != Fixed ==> Cents(b, coach, link, lo, hi) == Units(b, coach, link, lo, hi) * link.amount
  {
    hide RoundHalfEven, Accrual, Salary;
  }

  // ----- Splitting a query ---------------------------------------------------------------------

  /** Half-open day ranges never count a row, or a day, on both sides of a boundary. */
  lemma UnitsSplit(b: Books, coach: nat, link: Link, lo: int, mid: int, hi: int)
    requires lo <= mid < hi
    ensures Units(b, coach, link, lo, hi) == Units(b, coach, link, lo, mid) + Units(b, coach, link, mid + 1, hi)
  {
    var s, m, u := DayStart(lo), DayStart(mid + 1), DayStart(hi + 1);
    var k := link.classId;
    match link.model
    case Fixed =>
    case PerSession =>
      assert SessionIds(b, coach, k, s, u) == SessionIds(b, coach, k, s, m) + SessionIds(b, coach, k, m, u);
      DaysSplit(b, coach, k, lo, mid, hi);
    case PerAttendance =>
      assert EntryIds(b, coach, k, s, u) == EntryIds(b, coach, k, s, m) + EntryIds(b, coach, k, m, u);
  }

  lemma DaysSplit(b: Books, coach: nat, k: nat, lo: int, mid: int, hi: int)
    requires lo <= mid < hi
    ensures |EntryDays(b, coach, k, DayStart(lo), DayStart(hi + 1))| ==
            |EntryDays(b, coach, k, DayStart(lo), DayStart(mid + 1))|
            + |EntryDays(b, coach, k, DayStart(mid + 1), DayStart(hi + 1))|
  {
    var all := EntryDays(b, coach, k, DayStart(lo), DayStart(hi + 1));
    var left := EntryDays(b, coach, k, DayStart(lo), DayStart(mid + 1));
    var right := EntryDays(b, coach, k, DayStart(mid + 1), DayStart(hi + 1));
    assert forall d | d in left :: d <= mid;
    assert forall d | d in right :: mid < d;
    var ids := EntryIds(b, coach, k, DayStart(lo), DayStart(hi + 1));
    assert ids == EntryIds(b, coach, k, DayStart(lo), DayStart(mid + 1))
                  + EntryIds(b, coach, k, DayStart(mid + 1), DayStart(hi + 1));
    assert all == left + right;
    assert left !! right;
  }

  lemma CentsSplit(b: Books, coach: nat, link: Link, lo: int, mid: int, hi: int)
    requires lo <= mid < hi
    ensures var d := Cents(b, coach, link, lo, hi) - Cents(b, coach, link, lo, mid)
                     - Cents(b, coach, link, mid + 1, hi);
            if link.model.Fixed? then -1 <= d <= 1 else d == 0
  {
    hide Units, RoundHalfEven, Accrual, Salary;
    if link.model.Fixed? {
      AdjacentSpansWithinOneCent(link.amount, lo, mid + 1, hi + 1);
    } else {
      UnitsSplit(b, coach, link, lo, mid, hi);
      PayAdds(Units(b, coach, link, lo, mid), Units(b, coach, link, mid + 1, hi), link.amount);
    }
  }

  lemma PayAdds(x: int, y: int, amount: int)
    ensures (x + y) * amount == x * amount + y * amount
  {
  }

  /** The number of FIXED links paid both up to `mid` and after it. */
  function FixedInBoth(c: Coach, links: seq<Link>, from: int, mid: int, to: int): nat {
    if links == [] then 0
    else
      var link := links[|links| - 1];
      FixedInBoth(c, links[..|links| - 1], from, mid, to)
      + if link.model.Fixed? && PaidOn(c, link, from, mid) && PaidOn(c, link, mid + 1, to) then 1 else 0
  }

  lemma LinkSplit(b: Books, c: Coach, link: Link, from: int, mid: int, to: int)
    requires from <= mid < to
    ensures var d := LinkCents(b, c, link, from, to) - LinkCents(b, c, link, from, mid)
                     - LinkCents(b, c, link, mid + 1, to);
            if link.model.Fixed? && PaidOn(c, link, from, mid) && PaidOn(c, link, mid + 1, to)
            then -1 <= d <= 1 else d == 0
  {
    var lo, hi := SpanFrom(link, Max(from, c.hiredAt)), SpanTo(link, LifetimeEnd(c, to));
    assert SpanTo(link, LifetimeEnd(c, mid)) == Min(hi, mid);
    assert SpanFrom(link, Max(mid + 1, c.hiredAt)) == Max(lo, mid + 1);
    if lo <= mid < hi {
      CentsSplit(b, c.id, link, lo, mid, hi);
    }
  }

  /** Splitting a payroll query at any day boundary moves the coach's total by at most one cent for each FIXED
      link paid in both halves; lifetime clipping, link clipping and the half-open counts all compose. */
  lemma {:induction false} SplitQuery(b: Books, c: Coach, links: seq<Link>, from: int, mid: int, to: int)
    requires from <= mid < to
    ensures var d := TotalCents(b, c, links, from, to) - TotalCents(b, c, links, from, mid)
                     - TotalCents(b, c, links, mid + 1, to);
            var slack: int := FixedInBoth(c, links, from, mid, to);
            -slack <= d && d <= slack
  {
    if links != [] {
      SplitQuery(b, c, links[..|links| - 1], from, mid, to);
      LinkSplit(b, c, links[|links| - 1], from, mid, to);
    }
  }
}
