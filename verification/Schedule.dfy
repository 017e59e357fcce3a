/** Recurring templates and the session rows they spawn: `schedule_materialize.py`, the two tables of migration 0012,
    and the effect of every `ScheduleService` command on their rows.

    A table is a sequence of rows and a row's id is its index, so an INSERT appends.
 */
module Schedule {
  import opened Basics
  import opened Calendar
  import opened TimeZone

  const HORIZON_DAYS: int := 56

  datatype Template = Template(
    classId: nat, weekdays: set<int>, startTime: int, endTime: int, head: nat, assistant: Option<nat>,
    startsOn: int, endsOn: Option<int>, active: bool)
  {
    /** The shape validators of the entity, which are also the CHECKs of the table. */
    predicate Valid() {
      && weekdays != {}
      && (forall w | w in weekdays :: 0 <= w < 7)
      && 0 <= startTime < endTime < DAY
      && (endsOn.Some? ==> startsOn <= endsOn.value)
    }

    predicate Covers(day: int) {
      && active
      && startsOn <= day
      && (endsOn.Some? ==> day <= endsOn.value)
      && Weekday(day) in weekdays
    }
  }

  datatype Status = Scheduled | Cancelled

  datatype Session = Session(
    template: Option<nat>, classId: nat, startsAt: int, endsAt: int, head: Option<nat>, assistant: Option<nat>,
    status: Status, customized: bool, cancelledAt: Option<int>, reason: Option<string>, notes: Option<string>)
  {
    /** `ck_sessions_time_order` and `ck_sessions_cancelled_shape`. */
    predicate Check() {
      startsAt < endsAt && (status.Cancelled? <==> cancelledAt.Some?)
    }

    /** What `ux_sessions_template_starts` forbids two rows to share. */
    predicate SameKey(that: Session) {
      template.Some? && template == that.template && startsAt == that.startsAt
    }
  }

  type Rows = seq<Session>

  predicate KeyTaken(rows: Rows, row: Session) {
    exists i | 0 <= i < |rows| :: rows[i].SameKey(row)
  }

  predicate KeysUnique(rows: Rows) {
    forall i, j | 0 <= i < j < |rows| :: !rows[i].SameKey(rows[j])
  }

  predicate RowsValid(rows: Rows) {
    KeysUnique(rows) && forall i | 0 <= i < |rows| :: rows[i].Check()
  }

  // ----- Dates ---------------------------------------------------------------------------------

  predicate Increasing(dates: seq<int>) {
    forall i, j | 0 <= i < j < |dates| :: dates[i] < dates[j]
  }

  /** The covered dates from `lo` to `hi`, in order. */
  function Covered(t: Template, lo: int, hi: int): seq<int>
    decreases hi - lo
  {
    if hi < lo then [] else Covered(t, lo, hi - 1) + if t.Covers(hi) then [hi] else []
  }

  lemma {:induction false} CoveredClips(t: Template, lo: int, hi: int, start: int, end: int)
    requires lo <= start && end <= hi
    requires forall d | lo <= d <= hi && t.Covers(d) :: start <= d <= end
    ensures Covered(t, lo, hi) == Covered(t, start, end)
    decreases hi - lo
  {
    if lo <= hi {
      CoveredClips(t, lo, hi - 1, start, if end < hi then end else end - 1);
    }
  }

  /** `materialize_dates`. */
  method MaterializeDates(t: Template, from: int, to: int) returns (out: seq<int>)
    ensures out == Covered(t, from, to)
  {
    if to < from {
      return [];
    }
    if !t.active {
      CoveredClips(t, from, to, from, from - 1);
      return [];
    }
    var start := Max(from, t.startsOn);
    var end := if t.endsOn.None? then to else Min(to, t.endsOn.value);
    if end < start {
      CoveredClips(t, from, to, from, from - 1);
      return [];
    }
    CoveredClips(t, from, to, start, end);
    out := [];
    var cursor := start;
    while cursor <= end
      invariant start <= cursor <= end + 1
      invariant out == Covered(t, start, cursor - 1)
    {
      if t.Covers(cursor) {
        out := out + [cursor];
      }
      cursor := cursor + 1;
    }
  }

  /** The result holds exactly the covered dates of the range, strictly increasing. */
  lemma {:induction false} CoveredExactly(t: Template, lo: int, hi: int)
    ensures forall d :: d in Covered(t, lo, hi) <==> (lo <= d <= hi && t.Covers(d))
    ensures Increasing(Covered(t, lo, hi))
    decreases hi - lo
  {
    if lo <= hi {
      CoveredExactly(t, lo, hi - 1);
      var before := Covered(t, lo, hi - 1);
      assert forall i | 0 <= i < |before| :: before[i] in before;
    }
  }

  /** Adjacent ranges concatenate to the whole. */
  lemma {:induction false} CoveredConcatenates(t: Template, lo: int, mid: int, hi: int)
    requires lo <= mid + 1 && mid <= hi
    ensures Covered(t, lo, hi) == Covered(t, lo, mid) + Covered(t, mid + 1, hi)
    decreases hi - mid
  {
    if mid < hi {
      CoveredConcatenates(t, lo, mid, hi - 1);
    }
  }

  function WeekCount(weekdays: set<int>, day: int, n: nat): nat {
    if n == 0 then 0 else WeekCount(weekdays, day, n - 1) + if Weekday(day + n - 1) in weekdays then 1 else 0
  }

  lemma {:induction false} CoveredCount(t: Template, from: int, n: nat)
    requires t.active && t.startsOn <= from && (t.endsOn.Some? ==> from + n - 1 <= t.endsOn.value)
    ensures |Covered(t, from, from + n - 1)| == WeekCount(t.weekdays, from, n)
  {
    if n > 0 {
      CoveredCount(t, from, n - 1);
    }
  }

  lemma {:induction false} DropWeekday(weekdays: set<int>, w: int, day: int, n: nat)
    requires w in weekdays
    ensures WeekCount(weekdays, day, n) == WeekCount(weekdays - {w}, day, n) + WeekCount({w}, day, n)
  {
    if n > 0 {
      DropWeekday(weekdays, w, day, n - 1);
    }
  }

  lemma WeekdayHit(w: int, day: int, i: int)
    requires 0 <= w < 7 && 0 <= i < 7
    ensures Weekday(day + i) == w <==> (w - day) % 7 == i
  {
  }

  lemma {:induction false} OneWeekday(w: int, day: int, n: nat)
    requires 0 <= w < 7 && n <= 7
    ensures WeekCount({w}, day, n) == if (w - day) % 7 < n then 1 else 0
  {
    if n > 0 {
      OneWeekday(w, day, n - 1);
      WeekdayHit(w, day, n - 1);
    }
  }

  lemma {:induction false} EachWeekdayOnce(weekdays: set<int>, day: int, k: nat)
    requires k <= 7 && forall w | w in weekdays :: 0 <= w < k
    ensures WeekCount(weekdays, day, 7) == |weekdays|
  {
    hide WeekCount;
    if k == 0 {
      assert forall w :: w !in weekdays;
      NoWeekday(day, 7);
    } else if k - 1 in weekdays {
      DropWeekday(weekdays, k - 1, day, 7);
      OneWeekday(k - 1, day, 7);
      EachWeekdayOnce(weekdays - {k - 1}, day, k - 1);
    } else {
      EachWeekdayOnce(weekdays, day, k - 1);
    }
  }

  lemma {:induction false} NoWeekday(day: int, n: nat)
    ensures WeekCount({}, day, n) == 0
  {
    if n > 0 {
      NoWeekday(day, n - 1);
    }
  }

  /** Any n whole weeks inside an active template's dates hold exactly n times the number of its weekdays. */
  lemma {:induction false} WholeWeeks(t: Template, from: int, n: nat)
    requires t.Valid() && t.active && t.startsOn <= from && (t.endsOn.Some? ==> from + 7 * n - 1 <= t.endsOn.value)
    ensures |Covered(t, from, from + 7 * n - 1)| == n * |t.weekdays|
  {
    hide Weekday, WeekCount, Template.Covers;
    if n > 0 {
      var last := from + 7 * (n - 1);
      WholeWeeks(t, from, n - 1);
      CoveredConcatenates(t, from, last - 1, last + 6);
      CoveredCount(t, last, 7);
      EachWeekdayOnce(t.weekdays, last, 7);
      assert n * |t.weekdays| == (n - 1) * |t.weekdays| + |t.weekdays|;
    }
  }

  // ----- Rows a template spawns ----------------------------------------------------------------

  /** `session_timestamps`. */
  function StartsAt(z: Zone, t: Template, day: int): int { z.ToUtc(DayStart(day) + t.startTime) }

  function EndsAt(z: Zone, t: Template, day: int): int { z.ToUtc(DayStart(day) + t.endTime) }

  function TemplateRow(z: Zone, tid: nat, t: Template, day: int): Session {
    Session(Some(tid), t.classId, StartsAt(z, t, day), EndsAt(z, t, day), Some(t.head), t.assistant,
            Scheduled, false, None, None, None)
  }

  lemma StartsOnItsDate(z: Zone, t: Template, day: int)
    requires z.Regular() && t.Valid()
    ensures z.LocalDate(StartsAt(z, t, day)) == day
  {
    hide Zone.Regular, Zone.LocalDate, Zone.ToUtc;
    DateRoundTrip(z, DayStart(day) + t.startTime);
  }

  lemma StartsGrow(z: Zone, t: Template, a: int, b: int)
    requires z.Regular()
    ensures StartsAt(z, t, a) < StartsAt(z, t, b) <==> a < b
  {
    hide Zone.Regular, Zone.ToUtc;
    if a < b {
      LaterDatesStartLater(z, DayStart(a) + t.startTime, DayStart(b) + t.startTime);
    } else if b < a {
      LaterDatesStartLater(z, DayStart(b) + t.startTime, DayStart(a) + t.startTime);
    }
  }

  /** Every INSERT of the loop passes the CHECKs; PostgreSQL tests them before it looks for a conflict. */
  predicate CanExtend(z: Zone, tid: nat, t: Template, dates: seq<int>) {
    forall d | d in dates :: TemplateRow(z, tid, t, d).Check()
  }

  /** One row for each date whose key no row has yet. */
  function NewRows(z: Zone, rows: Rows, tid: nat, t: Template, dates: seq<int>): Rows {
    if dates == [] then []
    else
      var row := TemplateRow(z, tid, t, dates[|dates| - 1]);
      NewRows(z, rows, tid, t, dates[..|dates| - 1]) + if KeyTaken(rows, row) then [] else [row]
  }

  lemma {:induction false} NewRowsFacts(z: Zone, rows: Rows, tid: nat, t: Template, dates: seq<int>)
    ensures forall r | r in NewRows(z, rows, tid, t, dates) ::
              exists d :: d in dates && r == TemplateRow(z, tid, t, d) && !KeyTaken(rows, r)
    ensures forall d | d in dates ::
              KeyTaken(rows, TemplateRow(z, tid, t, d)) || TemplateRow(z, tid, t, d) in NewRows(z, rows, tid, t, dates)
  {
    if dates != [] {
      var init, last := dates[..|dates| - 1], dates[|dates| - 1];
      NewRowsFacts(z, rows, tid, t, init);
      forall r | r in NewRows(z, rows, tid, t, init)
        ensures exists d :: d in dates && r == TemplateRow(z, tid, t, d) && !KeyTaken(rows, r)
      {
        var d :| d in init && r == TemplateRow(z, tid, t, d) && !KeyTaken(rows, r);
        assert d in dates;
      }
      assert last in dates;
    }
  }

  /** The new rows keep the table valid. */
  lemma {:induction false} NewRowsKeepValid(z: Zone, rows: Rows, tid: nat, t: Template, dates: seq<int>)
    requires z.Regular() && RowsValid(rows) && Increasing(dates) && CanExtend(z, tid, t, dates)
    ensures RowsValid(rows + NewRows(z, rows, tid, t, dates))
  {
    hide Zone.Regular;
    if dates != [] {
      var init, last := dates[..|dates| - 1], dates[|dates| - 1];
      NewRowsKeepValid(z, rows, tid, t, init);
      NewRowsFacts(z, rows, tid, t, init);
      var some, row := NewRows(z, rows, tid, t, init), TemplateRow(z, tid, t, last);
      forall r | r in some
        ensures !r.SameKey(row)
      {
        var d :| d in init && r == TemplateRow(z, tid, t, d);
        StartsGrow(z, t, d, last);
      }
      if !KeyTaken(rows, row) {
        assert rows + NewRows(z, rows, tid, t, dates) == rows + some + [row];
      } else {
        assert rows + NewRows(z, rows, tid, t, dates) == rows + some;
      }
    }
  }

  /** After an extension the key of every date is taken ... */
  lemma ExtensionTakesEveryKey(z: Zone, rows: Rows, tid: nat, t: Template, dates: seq<int>)
    ensures forall d | d in dates :: KeyTaken(rows + NewRows(z, rows, tid, t, dates), TemplateRow(z, tid, t, d))
  {
    NewRowsFacts(z, rows, tid, t, dates);
    var some := NewRows(z, rows, tid, t, dates);
    var all := rows + some;
    forall d | d in dates
      ensures KeyTaken(all, TemplateRow(z, tid, t, d))
    {
      var row := TemplateRow(z, tid, t, d);
      if KeyTaken(rows, row) {
        var i :| 0 <= i < |rows| && rows[i].SameKey(row);
        assert all[i].SameKey(row);
      } else {
        var i :| 0 <= i < |some| && some[i] == row;
        assert all[|rows| + i].SameKey(row);
      }
    }
  }

  /** ... and where every key is taken, nothing is inserted. */
  lemma {:induction false} NothingNew(z: Zone, rows: Rows, tid: nat, t: Template, dates: seq<int>)
    requires forall d | d in dates :: KeyTaken(rows, TemplateRow(z, tid, t, d))
    ensures NewRows(z, rows, tid, t, dates) == []
  {
    if dates != [] {
      assert dates[|dates| - 1] in dates;
      NothingNew(z, rows, tid, t, dates[..|dates| - 1]);
    }
  }

  // ----- Rewriting future rows -----------------------------------------------------------------

  /** The rows of `list_for_template_future` that the loops do not skip. */
  predicate IsTarget(s: Session, tid: nat, now: int) {
    s.template == Some(tid) && now <= s.startsAt && s.status.Scheduled? && !s.customized
  }

  function Rewrite(z: Zone, t: Template, s: Session): Session {
    var day := z.LocalDate(s.startsAt);
    s.(startsAt := StartsAt(z, t, day), endsAt := EndsAt(z, t, day), head := Some(t.head), assistant := t.assistant)
  }

  function Rewritten(z: Zone, rows: Rows, tid: nat, t: Template, now: int): Rows {
    seq(|rows|, i requires 0 <= i < |rows| => if IsTarget(rows[i], tid, now) then Rewrite(z, t, rows[i]) else rows[i])
  }

  /** `deactivate_template`: what it does to each row. */
  function CancelFuture(rows: Rows, tid: nat, now: int): Rows {
    seq(|rows|, i requires 0 <= i < |rows| =>
      if IsTarget(rows[i], tid, now)
      then rows[i].(status := Cancelled, cancelledAt := Some(now), reason := Some("template deactivated"))
      else rows[i])
  }

  datatype Action = Cancel(reason: Option<string>) | SwapCoach(coach: nat)

  predicate InBulk(s: Session, classId: nat, from: int, to: int) {
    s.classId == classId && s.status.Scheduled? && DayStart(from) <= s.startsAt < DayStart(to + 1)
  }

  function Act(s: Session, a: Action, now: int): Session {
    match a
    case Cancel(why) => s.(status := Cancelled, cancelledAt := Some(now), reason := why, customized := true)
    case SwapCoach(c) => s.(head := Some(c), customized := true)
  }

  /** `bulk_action`: what it does to each row. */
  function Bulk(rows: Rows, classId: nat, from: int, to: int, a: Action, now: int): Rows {
    seq(|rows|, i requires 0 <= i < |rows| =>
      if InBulk(rows[i], classId, from, to) then Act(rows[i], a, now) else rows[i])
  }

  /** The optional fields of `update_session`. */
  datatype Patch = Patch(
    head: Option<nat>, assistant: Option<nat>, startsAt: Option<int>, endsAt: Option<int>, notes: Option<string>)

  function Edit(s: Session, p: Patch): Session {
    if p == Patch(None, None, None, None, None) then s
    else s.(head := OrElse(p.head, s.head), assistant := OrElse(p.assistant, s.assistant),
            startsAt := Or(p.startsAt, s.startsAt), endsAt := Or(p.endsAt, s.endsAt),
            notes := OrElse(p.notes, s.notes), customized := true)
  }

  // ----- Transactions --------------------------------------------------------------------------

  datatype State = State(templates: seq<Template>, rows: Rows) {
    ghost predicate Valid() {
      && (forall i | 0 <= i < |templates| :: templates[i].Valid())
      && (forall i | 0 <= i < |rows| && rows[i].template.Some? :: rows[i].template.value < |templates|)
      && RowsValid(rows)
    }
  }

  /** What is asked.  `CreateTemplate` and `ExtendHorizons` are several transactions run without another call in
      between; the last two operations are those transactions one by one, which other calls may interrupt. */
  datatype Op =
    | CreateTemplate(t: Template)
    | UpdateTemplate(tid: nat, edited: Template)
    | DeactivateTemplate(tid: nat)
    | CreateAdhoc(row: Session)
    | UpdateSession(id: nat, patch: Patch)
    | CancelSession(id: nat, why: Option<string>)
    | BulkAction(classId: nat, from: int, to: int, action: Action)
    | ExtendHorizons(order: seq<nat>)
    | InsertTemplate(t: Template)
    | ExtendListed(tid: nat, listed: Template)

  /** One call: the UTC clock, the server's local date, and what is asked. */
  datatype Call = Call(now: int, today: int, op: Op)

  function Horizon(t: Template, today: int): seq<int> { Covered(t, today, today + HORIZON_DAYS) }

  /** `_materialize_horizon`, one transaction. */
  function Extended(z: Zone, rows: Rows, tid: nat, t: Template, today: int): Option<Rows> {
    if CanExtend(z, tid, t, Horizon(t, today)) then Some(rows + NewRows(z, rows, tid, t, Horizon(t, today))) else None
  }

  /** `update_template`, one transaction: the row of the template, the rewrite and the extension commit together. */
  function Updated(z: Zone, st: State, tid: nat, t: Template, now: int, today: int): Option<State> {
    var rows := Rewritten(z, st.rows, tid, t, now);
    if tid < |st.templates| && t.Valid() && RowsValid(rows) && CanExtend(z, tid, t, Horizon(t, today))
    then Some(State(st.templates[tid := t], rows + NewRows(z, rows, tid, t, Horizon(t, today))))
    else None
  }

  /** The nightly loop over the templates `order`: a failing template rolls back alone. */
  function Nightly(z: Zone, templates: seq<Template>, rows: Rows, order: seq<nat>, today: int): Rows
    requires forall i | 0 <= i < |order| :: order[i] < |templates|
  {
    if order == [] then rows
    else
      var before, tid := Nightly(z, templates, rows, order[..|order| - 1], today), order[|order| - 1];
      match Extended(z, before, tid, templates[tid], today)
      case Some(after) => after
      case None => before
  }

  /** What `list_all_active` may return: every active template once, in any order. */
  ghost predicate ListsActive(templates: seq<Template>, order: seq<nat>) {
    && (forall i | 0 <= i < |order| :: order[i] < |templates| && templates[order[i]].active)
    && (forall k | 0 <= k < |templates| && templates[k].active :: k in order)
    && (forall i, j | 0 <= i < j < |order| :: order[i] != order[j])
  }

  /** The committed effect of a call; `None` when it is refused or its transaction aborts. */
  ghost function Apply(z: Zone, st: State, c: Call): Option<State> {
    var rows := st.rows;
    match c.op
    case CreateTemplate(t) =>
      // The template commits before its rows are inserted, and stays when they cannot be.
      if !t.Valid() then None
      else
        var tid := |st.templates|;
        Some(State(st.templates + [t], Or(Extended(z, rows, tid, t, c.today), rows)))
    case UpdateTemplate(tid, edited) =>
      if tid < |st.templates| then Updated(z, st, tid, edited.(classId := st.templates[tid].classId), c.now, c.today)
      else None
    case DeactivateTemplate(tid) =>
      if tid < |st.templates|
      then Some(State(st.templates[tid := st.templates[tid].(active := false)], CancelFuture(rows, tid, c.now)))
      else None
    case CreateAdhoc(row) =>
      var s := row.(template := None, status := Scheduled, customized := true, cancelledAt := None, reason := None);
      if s.Check() then Some(st.(rows := rows + [s])) else None
    case UpdateSession(id, patch) =>
      if id < |rows| && rows[id].status.Scheduled? && RowsValid(rows[id := Edit(rows[id], patch)])
      then Some(st.(rows := rows[id := Edit(rows[id], patch)])) else None
    case CancelSession(id, why) =>
      if id < |rows| && rows[id].status.Scheduled?
      then Some(st.(rows := rows[id := Act(rows[id], Cancel(why), c.now)])) else None
    case BulkAction(classId, from, to, action) =>
      if from <= to <= from + 366 then Some(st.(rows := Bulk(rows, classId, from, to, action, c.now))) else None
    case ExtendHorizons(order) =>
      if ListsActive(st.templates, order) then Some(st.(rows := Nightly(z, st.templates, rows, order, c.today)))
      else None
    case InsertTemplate(t) =>
      if t.Valid() then Some(st.(templates := st.templates + [t])) else None
    case ExtendListed(tid, listed) =>
      // The caller read the template in an earlier transaction; its row may have changed since.
      if tid < |st.templates| && listed.Valid()
      then (match Extended(z, rows, tid, listed, c.today)
            case Some(after) => Some(st.(rows := after))
            case None => None)
      else None
  }

  ghost function Step(z: Zone, st: State, c: Call): State { Or(Apply(z, st, c), st) }

  ghost function Run(z: Zone, st: State, calls: seq<Call>): State {
    if calls == [] then st else Step(z, Run(z, st, calls[..|calls| - 1]), calls[|calls| - 1])
  }
}
