/** What each schedule command does to the two tables, column by column: its acceptance and every field of every row. */
module ScheduleEffects {
  import opened Basics
  import opened Calendar
  import opened TimeZone
  import opened Schedule
  import opened ScheduleRuns

  // ----- Extensions ----------------------------------------------------------------------------

  /** The template runs on a date: from its first day to its last, on one of its weekdays, while it is active. */
  predicate RunsOn(t: Template, day: int) {
    t.active && t.startsOn <= day && (t.endsOn.None? || day <= t.endsOn.value) && day % 7 in t.weekdays
  }

  /** An untouched session of the template on a date: its class, its hours by the wall clock, its coaches. */
  predicate IsSessionOf(z: Zone, tid: nat, t: Template, day: int, s: Session) {
    && s.template == Some(tid) && s.classId == t.classId
    && s.startsAt == z.ToUtc(DayStart(day) + t.startTime) && s.endsAt == z.ToUtc(DayStart(day) + t.endTime)
    && s.head == Some(t.head) && s.assistant == t.assistant
    && s.status == Scheduled && !s.customized
    && s.cancelledAt == None && s.reason == None && s.notes == None
  }

  /** Some row of the template starts at an instant. */
  predicate Holds(rows: Rows, tid: nat, start: int) {
    exists j | 0 <= j < |rows| :: rows[j].template == Some(tid) && rows[j].startsAt == start
  }

  /** A session of a date in the eight weeks from today, whose start no row held before. */
  ghost predicate AddedFor(z: Zone, before: Rows, tid: nat, t: Template, today: int, s: Session) {
    exists d :: today <= d <= today + 56 && RunsOn(t, d) && IsSessionOf(z, tid, t, d, s)
                && !Holds(before, tid, s.startsAt)
  }

  /** Every session of those eight weeks has its start held. */
  ghost predicate AllHeld(z: Zone, rows: Rows, tid: nat, t: Template, today: int) {
    forall d | today <= d <= today + 56 && RunsOn(t, d) :: Holds(rows, tid, z.ToUtc(DayStart(d) + t.startTime))
  }

  /** The rows `before` stay as they are, and each date that the template runs on in the eight weeks from today gets its
      session unless a row held the start. */
  ghost predicate ExtendedBy(z: Zone, before: Rows, after: Rows, tid: nat, t: Template, today: int) {
    && before <= after
    && (forall i | |before| <= i < |after| :: AddedFor(z, before, tid, t, today, after[i]))
    && AllHeld(z, after, tid, t, today)
  }

  lemma RunsOnIsCovers(t: Template, day: int)
    ensures RunsOn(t, day) <==> t.Covers(day)
  {
    WeekdayIsOrdinalMod7(day);
  }

  lemma HoldsIsKeyTaken(rows: Rows, row: Session, tid: nat)
    requires row.template == Some(tid)
    ensures KeyTaken(rows, row) <==> Holds(rows, tid, row.startsAt)
  {
    if KeyTaken(rows, row) {
      var i :| 0 <= i < |rows| && rows[i].SameKey(row);
      assert rows[i].template == Some(tid) && rows[i].startsAt == row.startsAt;
    }
    if Holds(rows, tid, row.startsAt) {
      var j :| 0 <= j < |rows| && rows[j].template == Some(tid) && rows[j].startsAt == row.startsAt;
      assert rows[j].SameKey(row);
    }
  }

  lemma InsertedSession(z: Zone, rows: Rows, tid: nat, t: Template, d: int)
    ensures IsSessionOf(z, tid, t, d, TemplateRow(z, tid, t, d))
    ensures KeyTaken(rows, TemplateRow(z, tid, t, d)) <==> Holds(rows, tid, z.ToUtc(DayStart(d) + t.startTime))
    ensures TemplateRow(z, tid, t, d).startsAt == z.ToUtc(DayStart(d) + t.startTime)
  {
    HoldsIsKeyTaken(rows, TemplateRow(z, tid, t, d), tid);
    hide Zone.ToUtc, KeyTaken, Holds, DayStart;
  }

  lemma InsertedRows(z: Zone, rows: Rows, tid: nat, t: Template, today: int, s: Session)
    requires s in NewRows(z, rows, tid, t, Horizon(t, today))
    ensures AddedFor(z, rows, tid, t, today, s)
  {
    NewRowsFacts(z, rows, tid, t, Horizon(t, today));
    InHorizon(t, today);
    hide Zone.ToUtc, KeyTaken, Holds, DayStart, Horizon, RunsOn, TemplateRow, NewRows, IsSessionOf;
    var d :| d in Horizon(t, today) && s == TemplateRow(z, tid, t, d) && !KeyTaken(rows, s);
    InsertedSession(z, rows, tid, t, d);
  }

  lemma HeldStarts(z: Zone, rows: Rows, tid: nat, t: Template, today: int)
    ensures AllHeld(z, rows + NewRows(z, rows, tid, t, Horizon(t, today)), tid, t, today)
  {
    ExtensionTakesEveryKey(z, rows, tid, t, Horizon(t, today));
    InHorizon(t, today);
    hide Zone.ToUtc, KeyTaken, Holds, DayStart, Horizon, RunsOn, TemplateRow, NewRows;
    var after := rows + NewRows(z, rows, tid, t, Horizon(t, today));
    forall d | today <= d <= today + 56 && RunsOn(t, d)
      ensures Holds(after, tid, z.ToUtc(DayStart(d) + t.startTime))
    {
      InsertedSession(z, after, tid, t, d);
    }
  }

  lemma ExtensionEffect(z: Zone, rows: Rows, tid: nat, t: Template, today: int)
    requires Extended(z, rows, tid, t, today).Some?
    ensures ExtendedBy(z, rows, Extended(z, rows, tid, t, today).value, tid, t, today)
  {
    var some := NewRows(z, rows, tid, t, Horizon(t, today));
    var after := rows + some;
    assert Extended(z, rows, tid, t, today) == Some(after);
    hide Extended, NewRows, Horizon, AddedFor, AllHeld;
    HeldStarts(z, rows, tid, t, today);
    forall i | |rows| <= i < |after|
      ensures AddedFor(z, rows, tid, t, today, after[i])
    {
      assert after[i] in some;
      InsertedRows(z, rows, tid, t, today, after[i]);
    }
  }

  /** A spring-forward swallows one of the sessions of the eight weeks. */
  ghost predicate SomeSwallowed(z: Zone, t: Template, today: int) {
    exists d :: today <= d <= today + 56 && RunsOn(t, d) && Swallowed(z, t, d)
  }

  lemma ExtendedUnlessSwallowed(z: Zone, rows: Rows, tid: nat, t: Template, today: int)
    requires z.Regular() && t.Valid()
    ensures Extended(z, rows, tid, t, today).None? <==> SomeSwallowed(z, t, today)
  {
    var dates := Horizon(t, today);
    ExtensionFailsOnlyInGaps(z, tid, t, dates);
    InHorizon(t, today);
    assert Extended(z, rows, tid, t, today).None? <==> !CanExtend(z, tid, t, dates);
    hide *;
    SomeInHorizon(z, t, today, dates);
  }

  lemma SomeInHorizon(z: Zone, t: Template, today: int, dates: seq<int>)
    requires forall d :: d in dates <==> today <= d <= today + 56 && RunsOn(t, d)
    ensures (forall d | d in dates :: !Swallowed(z, t, d)) <==> !SomeSwallowed(z, t, today)
  {
    hide RunsOn, Swallowed;
  }

  lemma InHorizon(t: Template, today: int)
    ensures forall d :: d in Horizon(t, today) <==> today <= d <= today + 56 && RunsOn(t, d)
  {
    CoveredExactly(t, today, today + HORIZON_DAYS);
    hide Covered, RunsOn, Template.Covers;
    forall d
      ensures d in Horizon(t, today) <==> today <= d <= today + 56 && RunsOn(t, d)
    {
      RunsOnIsCovers(t, d);
    }
  }

  // ----- Templates -----------------------------------------------------------------------------

  /** A created template is stored as given, with its sessions, or without any when one of them is swallowed. */
  lemma CreationEffect(z: Zone, st: State, now: int, today: int, t: Template)
    requires z.Regular() && st.Valid() && t.Valid()
    ensures var after := Step(z, st, Call(now, today, CreateTemplate(t)));
            && after.templates == st.templates + [t]
            && (if SomeSwallowed(z, t, today) then after.rows == st.rows
                else ExtendedBy(z, st.rows, after.rows, |st.templates|, t, today))
  {
    ExtendedUnlessSwallowed(z, st.rows, |st.templates|, t, today);
    assert RowsValid(st.rows);
    hide Extended, ExtendedBy, SomeSwallowed, Zone.Regular, Template.Valid, RowsValid;
    if !SomeSwallowed(z, t, today) {
      ExtensionEffect(z, st.rows, |st.templates|, t, today);
    }
  }

  /** One transaction of the nightly job, for a template as it was listed. */
  lemma ListedExtensionEffect(z: Zone, st: State, now: int, today: int, tid: nat, listed: Template)
    requires z.Regular() && st.Valid() && listed.Valid() && tid < |st.templates|
    ensures var after := Step(z, st, Call(now, today, ExtendListed(tid, listed)));
            && after.templates == st.templates
            && (if SomeSwallowed(z, listed, today) then after.rows == st.rows
                else ExtendedBy(z, st.rows, after.rows, tid, listed, today))
  {
    ExtendedUnlessSwallowed(z, st.rows, tid, listed, today);
    assert RowsValid(st.rows);
    hide Extended, ExtendedBy, SomeSwallowed, Zone.Regular, Template.Valid, RowsValid;
    if !SomeSwallowed(z, listed, today) {
      ExtensionEffect(z, st.rows, tid, listed, today);
    }
  }

  /** The rows of a template that an edit or a deactivation reaches. */
  predicate Reached(s: Session, tid: nat, now: int) {
    s.template == Some(tid) && now <= s.startsAt && s.status == Scheduled && !s.customized
  }

  /** A row that an edit of the template reached: same row, same local date, the template's hours and coaches. */
  predicate MovedTo(z: Zone, t: Template, s: Session, r: Session) {
    var day := z.LocalDate(s.startsAt);
    r == s.(startsAt := z.ToUtc(DayStart(day) + t.startTime), endsAt := z.ToUtc(DayStart(day) + t.endTime),
            head := Some(t.head), assistant := t.assistant)
  }

  /** The tables after a committed edit: the template, its reached rows, and then the sessions of the dates it adds. */
  ghost predicate Edited(z: Zone, st: State, after: State, tid: nat, t: Template, now: int, today: int) {
    && tid < |st.templates| && after.templates == st.templates[tid := t]
    && |st.rows| <= |after.rows|
    && (forall i | 0 <= i < |st.rows| ::
          if Reached(st.rows[i], tid, now) then MovedTo(z, t, st.rows[i], after.rows[i])
          else after.rows[i] == st.rows[i])
    && ExtendedBy(z, after.rows[..|st.rows|], after.rows, tid, t, today)
  }

  /** A committed edit stores the template with its class as it was, gives the rows it reaches the new hours and coaches
      on their own dates, leaves the others, and inserts the sessions of the dates it adds. */
  lemma EditEffect(z: Zone, st: State, now: int, today: int, tid: nat, edited: Template)
    requires z.Regular() && st.Valid() && Apply(z, st, Call(now, today, UpdateTemplate(tid, edited))).Some?
    ensures tid < |st.templates|
    ensures var after := Apply(z, st, Call(now, today, UpdateTemplate(tid, edited))).value;
            Edited(z, st, after, tid, edited.(classId := st.templates[tid].classId), now, today)
  {
    var t := edited.(classId := st.templates[tid].classId);
    var mid := Rewritten(z, st.rows, tid, t, now);
    assert Extended(z, mid, tid, t, today).Some? && RowsValid(mid);
    var after := Apply(z, st, Call(now, today, UpdateTemplate(tid, edited))).value;
    assert after == State(st.templates[tid := t], Extended(z, mid, tid, t, today).value);
    RewrittenEffect(z, st.rows, tid, t, now);
    ExtensionEffect(z, mid, tid, t, today);
    EditParts(z, st, after, mid, tid, t, now, today);
  }

  /** An edit, from its three parts to its columns. */
  lemma EditPlan(z: Zone, st: State, now: int, today: int, tid: nat, edited: Template)
    requires z.Regular() && st.Valid()
    ensures var c := Call(now, today, UpdateTemplate(tid, edited));
            && Step(z, st, c).Valid() && Step(z, st, c) == Or(Apply(z, st, c), st)
            && (if tid < |st.templates| then
                  var t := edited.(classId := st.templates[tid].classId);
                  && Apply(z, st, c) == Updated(z, st, tid, t, now, today)
                  && (Apply(z, st, c).Some? ==> Edited(z, st, Apply(z, st, c).value, tid, t, now, today))
                else Apply(z, st, c) == None)
  {
    StepKeepsValid(z, st, Call(now, today, UpdateTemplate(tid, edited)));
    if Apply(z, st, Call(now, today, UpdateTemplate(tid, edited))).Some? {
      EditEffect(z, st, now, today, tid, edited);
    }
    hide Edited, Updated, State.Valid;
  }

  lemma RewrittenEffect(z: Zone, rows: Rows, tid: nat, t: Template, now: int)
    ensures var mid := Rewritten(z, rows, tid, t, now);
            && |mid| == |rows|
            && forall i | 0 <= i < |rows| ::
                 if Reached(rows[i], tid, now) then MovedTo(z, t, rows[i], mid[i]) else mid[i] == rows[i]
  {
    hide Zone.LocalDate, Zone.ToUtc;
  }

  lemma EditParts(z: Zone, st: State, after: State, mid: Rows, tid: nat, t: Template, now: int, today: int)
    requires tid < |st.templates| && after.templates == st.templates[tid := t] && |mid| == |st.rows|
    requires forall i | 0 <= i < |mid| ::
               if Reached(st.rows[i], tid, now) then MovedTo(z, t, st.rows[i], mid[i]) else mid[i] == st.rows[i]
    requires ExtendedBy(z, mid, after.rows, tid, t, today)
    ensures Edited(z, st, after, tid, t, now, today)
  {
    assert mid <= after.rows;
    assert after.rows[..|st.rows|] == mid;
    hide ExtendedBy, MovedTo, Reached;
  }

  /** A deactivation switches the template off, cancels the rows it reaches with its time and reason, and changes
      nothing else; it is refused only for want of the template. */
  lemma DeactivationEffect(z: Zone, st: State, now: int, today: int, tid: nat)
    ensures var o := Apply(z, st, Call(now, today, DeactivateTemplate(tid)));
            && (o.Some? <==> tid < |st.templates|)
            && (o.Some? ==>
                  && o.value.templates == st.templates[tid := st.templates[tid].(active := false)]
                  && |o.value.rows| == |st.rows|
                  && forall i | 0 <= i < |st.rows| ::
                       o.value.rows[i] ==
                       if Reached(st.rows[i], tid, now)
                       then st.rows[i].(status := Cancelled, cancelledAt := Some(now),
                                        reason := Some("template deactivated"))
                       else st.rows[i])
  {
  }

  /** While a template is off, no extension inserts a row for it. */
  lemma InactiveInsertsNothing(z: Zone, rows: Rows, tid: nat, t: Template, today: int)
    requires !t.active
    ensures Extended(z, rows, tid, t, today) == Some(rows)
  {
    CoveredClips(t, today, today + HORIZON_DAYS, today, today - 1);
    assert rows + [] == rows;
  }

  /** A whole nightly job keeps the templates and every row; each row it adds is a session of an active template, and
      each active template that loses no session to a spring-forward has all its sessions of the eight weeks. */
  lemma NightEffect(z: Zone, st: State, now: int, today: int, order: seq<nat>)
    requires z.Regular() && st.Valid() && ListsActive(st.templates, order)
    ensures var after := Step(z, st, Call(now, today, ExtendHorizons(order)));
            && after.templates == st.templates && st.rows <= after.rows
            && (forall i | |st.rows| <= i < |after.rows| ::
                  exists tid: nat, d: int ::
                    && tid < |st.templates| && today <= d <= today + 56 && RunsOn(st.templates[tid], d)
                    && IsSessionOf(z, tid, st.templates[tid], d, after.rows[i]))
            && (forall tid: nat, d: int |
                  && tid < |st.templates| && !SomeSwallowed(z, st.templates[tid], today)
                  && today <= d <= today + 56 && RunsOn(st.templates[tid], d) ::
                  Holds(after.rows, tid, z.ToUtc(DayStart(d) + st.templates[tid].startTime)))
  {
    NightlyEffect(z, st, today, order);
    var after := Nightly(z, st.templates, st.rows, order, today);
    NightlyOnlyAppends(z, st.templates, st.rows, order, today);
    hide Zone.Regular, State.Valid, Holds, SomeSwallowed, Nightly, IsSessionOf;
    forall tid: nat, d: int | tid < |st.templates| && !SomeSwallowed(z, st.templates[tid], today)
                              && today <= d <= today + 56 && RunsOn(st.templates[tid], d)
      ensures Holds(after, tid, z.ToUtc(DayStart(d) + st.templates[tid].startTime))
    {
      assert tid in order;
    }
  }

  ghost predicate AddedByJob(z: Zone, templates: seq<Template>, today: int, s: Session) {
    exists tid: nat, d: int ::
      && tid < |templates| && today <= d <= today + 56 && RunsOn(templates[tid], d)
      && IsSessionOf(z, tid, templates[tid], d, s)
  }

  lemma HeldStaysHeld(z: Zone, rows: Rows, all: Rows, tid: nat, t: Template, today: int)
    requires rows <= all && AllHeld(z, rows, tid, t, today)
    ensures AllHeld(z, all, tid, t, today)
  {
    hide RunsOn, Zone.ToUtc;
    forall d | today <= d <= today + 56 && RunsOn(t, d)
      ensures Holds(all, tid, z.ToUtc(DayStart(d) + t.startTime))
    {
      var j :| 0 <= j < |rows| && rows[j].template == Some(tid)
               && rows[j].startsAt == z.ToUtc(DayStart(d) + t.startTime);
      assert all[j] == rows[j];
    }
  }

  lemma JobStep(z: Zone, templates: seq<Template>, before: Rows, after: Rows, tid: nat, today: int)
    requires tid < |templates| && ExtendedBy(z, before, after, tid, templates[tid], today)
    ensures before <= after && AllHeld(z, after, tid, templates[tid], today)
    ensures forall i | |before| <= i < |after| :: AddedByJob(z, templates, today, after[i])
  {
    hide RunsOn, Zone.ToUtc, Holds, IsSessionOf;
  }

  lemma {:induction false} NightlyEffect(z: Zone, st: State, today: int, order: seq<nat>)
    requires z.Regular() && st.Valid() && forall i | 0 <= i < |order| :: order[i] < |st.templates|
    ensures var after := Nightly(z, st.templates, st.rows, order, today);
            && st.rows <= after
            && (forall i | |st.rows| <= i < |after| :: AddedByJob(z, st.templates, today, after[i]))
            && (forall tid | tid in order && !SomeSwallowed(z, st.templates[tid], today) ::
                  AllHeld(z, after, tid, st.templates[tid], today))
  {
    hide Zone.Regular, State.Valid, AddedByJob, AllHeld, SomeSwallowed, Extended, RowsValid, Template.Valid;
    if order != [] {
      var init, tid := order[..|order| - 1], order[|order| - 1];
      var t, before := st.templates[tid], Nightly(z, st.templates, st.rows, init, today);
      assert order == init + [tid];
      NightlyEffect(z, st, today, init);
      NightlyKeepsValid(z, st, init, today);
      ValidParts(State(st.templates, before), tid);
      ExtendedUnlessSwallowed(z, before, tid, t, today);
      if !SomeSwallowed(z, t, today) {
        var after := Extended(z, before, tid, t, today).value;
        ExtensionEffect(z, before, tid, t, today);
        JobStep(z, st.templates, before, after, tid, today);
        forall u | u in init && !SomeSwallowed(z, st.templates[u], today)
          ensures AllHeld(z, after, u, st.templates[u], today)
        {
          HeldStaysHeld(z, before, after, u, st.templates[u], today);
        }
      }
    }
  }

  lemma ValidParts(st: State, tid: nat)
    requires st.Valid() && tid < |st.templates|
    ensures RowsValid(st.rows) && st.templates[tid].Valid()
  {
  }

  // ----- Sessions ------------------------------------------------------------------------------

  /** An ad-hoc session is accepted exactly when it ends after it starts, and is then stored as given, customised. */
  lemma AdhocEffect(z: Zone, st: State, now: int, today: int, row: Session)
    ensures var o := Apply(z, st, Call(now, today, CreateAdhoc(row)));
            && (o.Some? <==> row.startsAt < row.endsAt)
            && (o.Some? ==>
                  && o.value.templates == st.templates
                  && o.value.rows == st.rows + [Session(None, row.classId, row.startsAt, row.endsAt, row.head,
                                                        row.assistant, Scheduled, true, None, None, row.notes)])
  {
  }

  /** Another row of the same template starts at an instant. */
  predicate HeldByOther(rows: Rows, id: nat, start: int) {
    exists j | 0 <= j < |rows| && j != id && id < |rows| ::
      rows[id].template.Some? && rows[j].template == rows[id].template && rows[j].startsAt == start
  }

  /** An owner's edit of a session is accepted exactly for a scheduled row when nothing is asked, or when the row still
      ends after it starts and no other row of its template has its start. */
  lemma SessionEditAccepted(z: Zone, st: State, now: int, today: int, id: nat, p: Patch)
    requires st.Valid()
    ensures Apply(z, st, Call(now, today, UpdateSession(id, p))).Some? <==>
            && id < |st.rows| && st.rows[id].status == Scheduled
            && var start := if p.startsAt.Some? then p.startsAt.value else st.rows[id].startsAt;
               var end := if p.endsAt.Some? then p.endsAt.value else st.rows[id].endsAt;
               start < end && !HeldByOther(st.rows, id, start)
  {
    if id < |st.rows| && st.rows[id].status == Scheduled {
      var row := Edit(st.rows[id], p);
      assert st.rows[id].Check();
      PutRow(st.rows, id, row);
      assert st.rows[id := row][id] == row;
    }
  }

  lemma PutRow(rows: Rows, id: nat, row: Session)
    requires RowsValid(rows) && id < |rows| && row.template == rows[id].template
    ensures RowsValid(rows[id := row]) <==> row.Check() && !HeldByOther(rows, id, row.startsAt)
  {
    var after := rows[id := row];
    assert after[id] == row;
    if HeldByOther(rows, id, row.startsAt) {
      var j :| 0 <= j < |rows| && j != id && rows[id].template.Some? && rows[j].template == rows[id].template
               && rows[j].startsAt == row.startsAt;
      assert after[j].SameKey(after[id]) && after[id].SameKey(after[j]);
    } else if row.Check() {
      forall i, j | 0 <= i < j < |after|
        ensures !after[i].SameKey(after[j])
      {
        assert !rows[i].SameKey(rows[j]);
      }
    }
  }

  /** It changes the columns asked for and no other, and marks the row customised when something was asked. */
  lemma SessionEditEffect(z: Zone, st: State, now: int, today: int, id: nat, p: Patch)
    requires Apply(z, st, Call(now, today, UpdateSession(id, p))).Some?
    ensures var after := Apply(z, st, Call(now, today, UpdateSession(id, p))).value;
            && after.templates == st.templates && id < |after.rows| == |st.rows|
            && (forall i | 0 <= i < |st.rows| && i != id :: after.rows[i] == st.rows[i])
            && var s, r := st.rows[id], after.rows[id];
               && r.head == (if p.head.Some? then p.head else s.head)
               && r.assistant == (if p.assistant.Some? then p.assistant else s.assistant)
               && r.startsAt == (if p.startsAt.Some? then p.startsAt.value else s.startsAt)
               && r.endsAt == (if p.endsAt.Some? then p.endsAt.value else s.endsAt)
               && r.notes == (if p.notes.Some? then p.notes else s.notes)
               && r.customized == (s.customized || p.head.Some? || p.assistant.Some? || p.startsAt.Some?
                                   || p.endsAt.Some? || p.notes.Some?)
               && r.template == s.template && r.classId == s.classId && r.status == s.status
               && r.cancelledAt == s.cancelledAt && r.reason == s.reason
  {
    hide RowsValid;
  }

  /** A session is cancelled exactly when it is scheduled; the row is marked customised, and no other changes. */
  lemma SessionCancelEffect(z: Zone, st: State, now: int, today: int, id: nat, why: Option<string>)
    ensures var o := Apply(z, st, Call(now, today, CancelSession(id, why)));
            && (o.Some? <==> id < |st.rows| && st.rows[id].status == Scheduled)
            && (o.Some? ==>
                  && o.value.templates == st.templates
                  && o.value.rows == st.rows[id := st.rows[id].(status := Cancelled, cancelledAt := Some(now),
                                                               reason := why, customized := true)])
  {
  }

  /** A bulk action takes a range of at most 366 days beyond its first, and changes exactly the scheduled rows of the
      class that start on its UTC days: to cancelled, or to the new head coach, and to customised. */
  lemma BulkEffect(
      z: Zone, st: State, now: int, today: int, classId: nat, from: int, to: int, action: Action)
    ensures var o := Apply(z, st, Call(now, today, Op.BulkAction(classId, from, to, action)));
            && (o.Some? <==> from <= to && to - from <= 366)
            && (o.Some? ==>
                  && o.value.templates == st.templates && |o.value.rows| == |st.rows|
                  && forall i | 0 <= i < |st.rows| ::
                       var s := st.rows[i];
                       o.value.rows[i] ==
                       if s.classId == classId && s.status == Scheduled && from <= DayOf(s.startsAt) <= to
                       then match action
                            case Cancel(why) =>
                              s.(status := Cancelled, cancelledAt := Some(now), reason := why, customized := true)
                            case SwapCoach(coach) => s.(head := Some(coach), customized := true)
                       else s)
  {
    forall i | 0 <= i < |st.rows|
      ensures InBulk(st.rows[i], classId, from, to) <==>
              && st.rows[i].classId == classId && st.rows[i].status == Scheduled
              && from <= DayOf(st.rows[i].startsAt) <= to
    {
      DayOfBounds(st.rows[i].startsAt, from);
      DayOfBounds(st.rows[i].startsAt, to + 1);
    }
  }
}
