/** What the schedule keeps over any run of commands and nightly jobs. */
module ScheduleRuns {
  import opened Basics
  import opened Calendar
  import opened TimeZone
  import opened Schedule

  // ----- One extension -------------------------------------------------------------------------

  /** An extension inserts exactly one row for each covered date whose key is missing and leaves every other row as it
      was; run again on the same day it inserts nothing. */
  lemma ExtensionIsExact(z: Zone, rows: Rows, tid: nat, t: Template, today: int)
    requires z.Regular() && RowsValid(rows) && CanExtend(z, tid, t, Horizon(t, today))
    ensures var all := Extended(z, rows, tid, t, today).value;
            && rows <= all
            && RowsValid(all)
            && (forall i | |rows| <= i < |all| ::
                  exists d :: today <= d <= today + HORIZON_DAYS && t.Covers(d)
                              && all[i] == TemplateRow(z, tid, t, d) && !KeyTaken(rows, all[i]))
            && (forall d | today <= d <= today + HORIZON_DAYS && t.Covers(d) ::
               KeyTaken(all, TemplateRow(z, tid, t, d)))
            && Extended(z, all, tid, t, today) == Some(all)
  {
    hide Zone.Regular, Zone.ToUtc;
    var dates := Horizon(t, today);
    var some := NewRows(z, rows, tid, t, dates);
    var all := rows + some;
    CoveredExactly(t, today, today + HORIZON_DAYS);
    NewRowsFacts(z, rows, tid, t, dates);
    NewRowsKeepValid(z, rows, tid, t, dates);
    ExtensionTakesEveryKey(z, rows, tid, t, dates);
    NothingNew(z, all, tid, t, dates);
    assert all + [] == all;
    forall i | |rows| <= i < |all|
      ensures exists d :: today <= d <= today + HORIZON_DAYS && t.Covers(d)
                          && all[i] == TemplateRow(z, tid, t, d) && !KeyTaken(rows, all[i])
    {
      assert all[i] in some;
      var d :| d in dates && all[i] == TemplateRow(z, tid, t, d) && !KeyTaken(rows, all[i]);
    }
  }

  /** A spring-forward swallows the template's session on a date. */
  ghost predicate Swallowed(z: Zone, t: Template, day: int) {
    Lost(z, DayStart(day) + t.startTime, DayStart(day) + t.endTime)
  }

  /** An extension fails exactly when a spring-forward swallows one of the sessions it would insert. */
  lemma ExtensionFailsOnlyInGaps(z: Zone, tid: nat, t: Template, dates: seq<int>)
    requires z.Regular() && t.Valid()
    ensures CanExtend(z, tid, t, dates) <==> forall d | d in dates :: !Swallowed(z, t, d)
  {
    hide Zone.Regular, Lost;
    forall d | d in dates
      ensures TemplateRow(z, tid, t, d).Check() <==> !Swallowed(z, t, d)
    {
      EndAfterStart(z, DayStart(d) + t.startTime, DayStart(d) + t.endTime);
    }
  }

  // ----- The tables stay valid -----------------------------------------------------------------

  lemma ExtendedKeepsValid(z: Zone, st: State, tid: nat, t: Template, today: int)
    requires z.Regular() && st.Valid() && tid < |st.templates| && CanExtend(z, tid, t, Horizon(t, today))
    ensures State(st.templates, st.rows + NewRows(z, st.rows, tid, t, Horizon(t, today))).Valid()
  {
    hide Zone.Regular;
    CoveredExactly(t, today, today + HORIZON_DAYS);
    NewRowsKeepValid(z, st.rows, tid, t, Horizon(t, today));
    NewRowsFacts(z, st.rows, tid, t, Horizon(t, today));
    var some := NewRows(z, st.rows, tid, t, Horizon(t, today));
    assert forall i | 0 <= i < |some| :: some[i] in some;
  }

  lemma {:induction false} NightlyKeepsValid(z: Zone, st: State, order: seq<nat>, today: int)
    requires z.Regular() && st.Valid()
    requires forall i | 0 <= i < |order| :: order[i] < |st.templates|
    ensures State(st.templates, Nightly(z, st.templates, st.rows, order, today)).Valid()
  {
    hide Zone.Regular, State.Valid, CanExtend, NewRows, Covered;
    if order != [] {
      var init, tid := order[..|order| - 1], order[|order| - 1];
      NightlyKeepsValid(z, st, init, today);
      var before := State(st.templates, Nightly(z, st.templates, st.rows, init, today));
      if CanExtend(z, tid, st.templates[tid], Horizon(st.templates[tid], today)) {
        ExtendedKeepsValid(z, before, tid, st.templates[tid], today);
      }
    }
  }

  /** Changing rows without changing keys, and keeping the CHECKs, keeps the table valid. */
  lemma SameKeysStayValid(rows: Rows, after: Rows)
    requires RowsValid(rows) && |after| == |rows|
    requires forall i | 0 <= i < |rows| ::
               after[i].template == rows[i].template && after[i].startsAt == rows[i].startsAt && after[i].Check()
    ensures RowsValid(after)
  {
    forall i, j | 0 <= i < j < |after|
      ensures !after[i].SameKey(after[j])
    {
      assert !rows[i].SameKey(rows[j]);
    }
  }

  lemma AppendWithoutTemplate(rows: Rows, s: Session)
    requires RowsValid(rows) && s.template.None? && s.Check()
    ensures RowsValid(rows + [s])
  {
  }

  lemma StepKeepsValid(z: Zone, st: State, c: Call)
    requires z.Regular() && st.Valid()
    ensures Step(z, st, c).Valid()
  {
    hide Zone.Regular, NewRows, Rewrite, CanExtend, Covered, RowsValid;
    var rows := st.rows;
    assert RowsValid(rows);
    match c.op
    case CreateTemplate(t) =>
      if t.Valid() {
        var mid := State(st.templates + [t], rows);
        assert mid.Valid();
        if CanExtend(z, |st.templates|, t, Horizon(t, c.today)) {
          ExtendedKeepsValid(z, mid, |st.templates|, t, c.today);
        }
      }
    case UpdateTemplate(tid, edited) =>
      if Apply(z, st, c).Some? {
        var t := edited.(classId := st.templates[tid].classId);
        var mid := State(st.templates[tid := t], Rewritten(z, rows, tid, t, c.now));
        TargetsKeepTemplate(z, rows, tid, t, c.now);
        assert mid.Valid();
        ExtendedKeepsValid(z, mid, tid, t, c.today);
      }
    case DeactivateTemplate(tid) =>
      ChecksHold(rows);
      SameKeysStayValid(rows, CancelFuture(rows, tid, c.now));
    case CreateAdhoc(row) =>
      var s := row.(template := None, status := Scheduled, customized := true, cancelledAt := None, reason := None);
      if s.Check() {
        AppendWithoutTemplate(rows, s);
      }
    case UpdateSession(id, patch) =>
    case CancelSession(id, why) =>
      if id < |rows| && rows[id].status.Scheduled? {
        ChecksHold(rows);
        SameKeysStayValid(rows, rows[id := Act(rows[id], Cancel(why), c.now)]);
      }
    case BulkAction(classId, from, to, action) =>
      ChecksHold(rows);
      SameKeysStayValid(rows, Bulk(rows, classId, from, to, action, c.now));
    case ExtendHorizons(order) =>
      if ListsActive(st.templates, order) {
        NightlyKeepsValid(z, st, order, c.today);
      }
    case InsertTemplate(t) =>
    case ExtendListed(tid, listed) =>
      if Apply(z, st, c).Some? {
        ExtendedKeepsValid(z, st, tid, listed, c.today);
      }
  }

  lemma ChecksHold(rows: Rows)
    requires RowsValid(rows)
    ensures forall i | 0 <= i < |rows| :: rows[i].Check()
  {
  }

  lemma TargetsKeepTemplate(z: Zone, rows: Rows, tid: nat, t: Template, now: int)
    ensures |Rewritten(z, rows, tid, t, now)| == |rows|
    ensures forall i | 0 <= i < |rows| :: Rewritten(z, rows, tid, t, now)[i].template == rows[i].template
  {
  }

  // ----- Future rows agree with their template -------------------------------------------------

  /** The start, end and coaches that a template gives for a row's local date. */
  ghost predicate MatchesTemplate(z: Zone, t: Template, s: Session) {
    var day := z.LocalDate(s.startsAt);
    && s.startsAt == StartsAt(z, t, day) && s.endsAt == EndsAt(z, t, day)
    && s.head == Some(t.head) && s.assistant == t.assistant
  }

  /** A row that its template governs: still ahead, still scheduled, never edited by the owner. */
  predicate Governed(s: Session, now: int) {
    s.template.Some? && IsTarget(s, s.template.value, now)
  }

  ghost predicate Agrees(z: Zone, st: State, now: int) {
    forall i | 0 <= i < |st.rows| && Governed(st.rows[i], now) ::
      st.rows[i].template.value < |st.templates|
      && MatchesTemplate(z, st.templates[st.rows[i].template.value], st.rows[i])
  }

  lemma TemplateRowMatches(z: Zone, tid: nat, t: Template, day: int)
    requires z.Regular() && t.Valid()
    ensures MatchesTemplate(z, t, TemplateRow(z, tid, t, day))
  {
    hide Zone.Regular, Zone.LocalDate, Zone.ToUtc;
    StartsOnItsDate(z, t, day);
  }

  lemma RewriteMatches(z: Zone, t: Template, s: Session)
    requires z.Regular() && t.Valid()
    ensures MatchesTemplate(z, t, Rewrite(z, t, s))
    ensures z.LocalDate(Rewrite(z, t, s).startsAt) == z.LocalDate(s.startsAt)
  {
    hide Zone.Regular, Zone.LocalDate, Zone.ToUtc;
    StartsOnItsDate(z, t, z.LocalDate(s.startsAt));
  }

  /** Two templates put the session of a date at the same time, with the same coaches. */
  predicate SameSession(z: Zone, t: Template, u: Template, day: int) {
    && StartsAt(z, t, day) == StartsAt(z, u, day) && EndsAt(z, t, day) == EndsAt(z, u, day)
    && t.head == u.head && t.assistant == u.assistant
  }

  /** On every date for which an extension from the listed template would insert a row ahead of now, the template still
      has the hours and coaches that were listed. */
  predicate Fresh(z: Zone, st: State, tid: nat, listed: Template, today: int, now: int)
    requires tid < |st.templates|
  {
    forall d | d in Horizon(listed, today) ::
      && now <= StartsAt(z, listed, d)
      && !KeyTaken(st.rows, TemplateRow(z, tid, listed, d))
      ==> SameSession(z, listed, st.templates[tid], d)
  }

  lemma MatchesIsSameSession(z: Zone, tid: nat, listed: Template, t: Template, day: int)
    requires z.Regular() && listed.Valid()
    ensures MatchesTemplate(z, t, TemplateRow(z, tid, listed, day)) <==> SameSession(z, listed, t, day)
  {
    hide Zone.Regular, Zone.LocalDate, Zone.ToUtc;
    StartsOnItsDate(z, listed, day);
  }

  /** An extension from a template read earlier keeps the rows in agreement if and only if it is fresh. */
  lemma ListedExtensionAgreesExactly(z: Zone, st: State, tid: nat, listed: Template, today: int, now: int)
    requires z.Regular() && st.Valid() && Agrees(z, st, now) && tid < |st.templates| && listed.Valid()
    ensures Agrees(z, st.(rows := st.rows + NewRows(z, st.rows, tid, listed, Horizon(listed, today))), now)
            <==> Fresh(z, st, tid, listed, today, now)
  {
    hide Zone.Regular, MatchesTemplate, SameSession, Covered, State.Valid, StartsAt, EndsAt, KeyTaken;
    var t := st.templates[tid];
    var dates := Horizon(listed, today);
    var some := NewRows(z, st.rows, tid, listed, dates);
    var all := st.rows + some;
    NewRowsFacts(z, st.rows, tid, listed, dates);
    if Fresh(z, st, tid, listed, today, now) {
      forall i | 0 <= i < |some| && Governed(some[i], now)
        ensures some[i].template == Some(tid) && MatchesTemplate(z, t, some[i])
      {
        assert some[i] in some;
        var d :| d in dates && some[i] == TemplateRow(z, tid, listed, d) && !KeyTaken(st.rows, some[i]);
        MatchesIsSameSession(z, tid, listed, t, d);
      }
    }
    if Agrees(z, st.(rows := all), now) {
      forall d | d in dates && now <= StartsAt(z, listed, d) && !KeyTaken(st.rows, TemplateRow(z, tid, listed, d))
        ensures SameSession(z, listed, t, d)
      {
        var row := TemplateRow(z, tid, listed, d);
        var i :| 0 <= i < |some| && some[i] == row;
        assert all[|st.rows| + i] == row && Governed(row, now);
        MatchesIsSameSession(z, tid, listed, t, d);
      }
    }
  }

  /** An extension from the template as it stands is fresh. */
  lemma CurrentIsFresh(z: Zone, st: State, tid: nat, today: int, now: int)
    requires tid < |st.templates|
    ensures Fresh(z, st, tid, st.templates[tid], today, now)
  {
  }

  lemma ExtendedAgrees(z: Zone, st: State, tid: nat, today: int, now: int)
    requires z.Regular() && st.Valid() && Agrees(z, st, now) && tid < |st.templates|
    ensures var t := st.templates[tid];
            Agrees(z, st.(rows := st.rows + NewRows(z, st.rows, tid, t, Horizon(t, today))), now)
  {
    assert st.templates[tid].Valid();
    hide Zone.Regular, Agrees, Fresh, NewRows, Horizon, State.Valid;
    CurrentIsFresh(z, st, tid, today, now);
    ListedExtensionAgreesExactly(z, st, tid, st.templates[tid], today, now);
  }

  lemma {:induction false} NightlyAgrees(z: Zone, st: State, order: seq<nat>, today: int, now: int)
    requires z.Regular() && st.Valid() && Agrees(z, st, now)
    requires forall i | 0 <= i < |order| :: order[i] < |st.templates|
    ensures Agrees(z, State(st.templates, Nightly(z, st.templates, st.rows, order, today)), now)
  {
    hide Zone.Regular, State.Valid, Agrees, CanExtend, NewRows, Covered;
    if order != [] {
      var init, tid := order[..|order| - 1], order[|order| - 1];
      NightlyAgrees(z, st, init, today, now);
      NightlyKeepsValid(z, st, init, today);
      var before := State(st.templates, Nightly(z, st.templates, st.rows, init, today));
      ExtendedAgrees(z, before, tid, today, now);
    }
  }

  /** The rewrite gives every governed row of the template what the edited template says. */
  lemma RewrittenAgrees(z: Zone, st: State, tid: nat, t: Template, now: int)
    requires z.Regular() && st.Valid() && Agrees(z, st, now) && tid < |st.templates| && t.Valid()
    ensures Agrees(z, State(st.templates[tid := t], Rewritten(z, st.rows, tid, t, now)), now)
  {
    hide Zone.Regular, MatchesTemplate, Rewrite, State.Valid;
    var after := Rewritten(z, st.rows, tid, t, now);
    forall i | 0 <= i < |after| && Governed(after[i], now)
      ensures after[i].template.value < |st.templates|
      ensures MatchesTemplate(z, st.templates[tid := t][after[i].template.value], after[i])
    {
      if IsTarget(st.rows[i], tid, now) {
        RewriteMatches(z, t, st.rows[i]);
        RewriteKeepsTemplate(z, t, st.rows[i]);
      } else {
        assert Governed(st.rows[i], now);
      }
    }
  }

  lemma RewriteKeepsTemplate(z: Zone, t: Template, s: Session)
    ensures Rewrite(z, t, s).template == s.template
  {
  }

  /** A call that commits rows from a template read before it changed. */
  ghost predicate Stale(z: Zone, st: State, c: Call) {
    && c.op.ExtendListed? && Apply(z, st, c).Some?
    && !Fresh(z, st, c.op.tid, c.op.listed, c.today, c.now)
  }

  /** Each call keeps every governed row in agreement if and only if it is not stale. */
  lemma StepAgreesExactly(z: Zone, st: State, c: Call)
    requires z.Regular() && st.Valid() && Agrees(z, st, c.now)
    ensures Agrees(z, Step(z, st, c), c.now) <==> !Stale(z, st, c)
  {
    hide Agrees, Fresh, Zone.Regular, NewRows, CanExtend, Horizon, State.Valid;
    if c.op.ExtendListed? {
      if Apply(z, st, c).Some? {
        ListedExtensionAgreesExactly(z, st, c.op.tid, c.op.listed, c.today, c.now);
      }
    } else {
      StepAgrees(z, st, c);
    }
  }

  lemma StepAgrees(z: Zone, st: State, c: Call)
    requires z.Regular() && st.Valid() && Agrees(z, st, c.now) && !c.op.ExtendListed?
    ensures Agrees(z, Step(z, st, c), c.now)
  {
    hide Zone.Regular, MatchesTemplate, NewRows, Rewrite, CanExtend, Covered, RowsValid;
    match c.op
    case CreateTemplate(t) =>
      if t.Valid() {
        var mid := State(st.templates + [t], st.rows);
        assert Agrees(z, mid, c.now);
        ExtendedAgrees(z, mid, |st.templates|, c.today, c.now);
      }
    case UpdateTemplate(tid, edited) =>
      if Apply(z, st, c).Some? {
        var t := edited.(classId := st.templates[tid].classId);
        var mid := State(st.templates[tid := t], Rewritten(z, st.rows, tid, t, c.now));
        RewrittenAgrees(z, st, tid, t, c.now);
        TargetsKeepTemplate(z, st.rows, tid, t, c.now);
        assert mid.Valid();
        assert mid.templates[tid] == t;
        ExtendedAgrees(z, mid, tid, c.today, c.now);
      }
    case DeactivateTemplate(tid) =>
      if tid < |st.templates| {
        DeactivatedAgrees(z, st, tid, c.now);
      }
    case CreateAdhoc(row) =>
    case UpdateSession(id, patch) =>
    case CancelSession(id, why) =>
    case BulkAction(classId, from, to, action) =>
    case ExtendHorizons(order) =>
      if ListsActive(st.templates, order) {
        NightlyAgrees(z, st, order, c.today, c.now);
      }
    case InsertTemplate(t) =>
  }

  lemma DeactivatedAgrees(z: Zone, st: State, tid: nat, now: int)
    requires Agrees(z, st, now) && tid < |st.templates|
    ensures var templates := st.templates[tid := st.templates[tid].(active := false)];
            Agrees(z, State(templates, CancelFuture(st.rows, tid, now)), now)
  {
    hide StartsAt, EndsAt, Zone.LocalDate;
    var after := CancelFuture(st.rows, tid, now);
    forall i | 0 <= i < |after| && Governed(after[i], now)
      ensures after[i] == st.rows[i] && after[i].template != Some(tid)
    {
      assert !IsTarget(st.rows[i], tid, now);
    }
  }

  /** The clock of a run never goes back. */
  predicate Ordered(calls: seq<Call>) {
    forall i, j | 0 <= i <= j < |calls| :: calls[i].now <= calls[j].now
  }

  predicate After(calls: seq<Call>, now: int) {
    forall i | 0 <= i < |calls| :: calls[i].now <= now
  }

  lemma LaterAgrees(z: Zone, st: State, earlier: int, now: int)
    requires Agrees(z, st, earlier) && earlier <= now
    ensures Agrees(z, st, now)
  {
    hide MatchesTemplate;
    forall i | 0 <= i < |st.rows| && Governed(st.rows[i], now)
      ensures Governed(st.rows[i], earlier)
    {
    }
  }

  /** Every call of a run leaves the rows in agreement at its own time. */
  ghost predicate AgreesThroughout(z: Zone, calls: seq<Call>) {
    calls == [] || (AgreesThroughout(z, calls[..|calls| - 1])
                    && Agrees(z, Run(z, State([], []), calls), calls[|calls| - 1].now))
  }

  /** No call of a run is stale when it comes. */
  ghost predicate NoneStale(z: Zone, calls: seq<Call>) {
    calls == [] || (NoneStale(z, calls[..|calls| - 1])
                    && !Stale(z, Run(z, State([], []), calls[..|calls| - 1]), calls[|calls| - 1]))
  }

  /** Every extension of a run comes before its template changes. */
  ghost predicate Uninterrupted(z: Zone, calls: seq<Call>) {
    calls == [] ||
    var init, c := calls[..|calls| - 1], calls[|calls| - 1];
    var templates := Run(z, State([], []), init).templates;
    Uninterrupted(z, init)
    && (c.op.ExtendListed? && c.op.tid < |templates| ==> c.op.listed == templates[c.op.tid])
  }

  /** Over every run in which other calls may come between the transactions of a creation or of a nightly job, the
      tables stay valid; and the rows agree with their templates after every call if and only if no extension is
      stale: then each future, scheduled, non-customised row has exactly the start, end and coaches that its template
      gives for the row's local date. */
  lemma {:induction false} FutureRowsAgreeExactly(z: Zone, calls: seq<Call>)
    requires z.Regular() && Ordered(calls)
    ensures Run(z, State([], []), calls).Valid()
    ensures AgreesThroughout(z, calls) <==> NoneStale(z, calls)
    ensures NoneStale(z, calls) ==> forall now | After(calls, now) :: Agrees(z, Run(z, State([], []), calls), now)
  {
    hide Zone.Regular, Apply, Step, Agrees, Stale, State.Valid;
    if calls == [] {
      EmptyRun(z);
    } else {
      var init, c := calls[..|calls| - 1], calls[|calls| - 1];
      var st := Run(z, State([], []), init);
      FutureRowsAgreeExactly(z, init);
      StepKeepsValid(z, st, c);
      if NoneStale(z, init) {
        assert After(init, c.now);
        StepAgreesExactly(z, st, c);
      }
      if NoneStale(z, calls) {
        forall now | After(calls, now)
          ensures Agrees(z, Run(z, State([], []), calls), now)
        {
          LaterAgrees(z, Step(z, st, c), c.now, now);
        }
      }
    }
  }

  lemma EmptyRun(z: Zone)
    ensures Run(z, State([], []), []) == State([], []) && State([], []).Valid()
    ensures forall now :: Agrees(z, State([], []), now)
  {
  }

  /** In every state reached by whole commands and whole nightly jobs, each future, scheduled, non-customised row of
      a template has exactly the start, end and coaches that the template gives for the row's local date, and no two
      rows of a template share a start. */
  lemma FutureRowsAgree(z: Zone, calls: seq<Call>, now: int)
    requires z.Regular() && Ordered(calls) && After(calls, now) && Uninterrupted(z, calls)
    ensures Run(z, State([], []), calls).Valid()
    ensures Agrees(z, Run(z, State([], []), calls), now)
  {
    hide Zone.Regular, Agrees, Run, State.Valid, NoneStale, Uninterrupted;
    FutureRowsAgreeExactly(z, calls);
    UninterruptedIsFresh(z, calls);
  }

  lemma {:induction false} UninterruptedIsFresh(z: Zone, calls: seq<Call>)
    requires z.Regular() && Uninterrupted(z, calls)
    ensures NoneStale(z, calls)
  {
    hide Zone.Regular, Run, Apply, State.Valid, Fresh;
    if calls != [] {
      var init, c := calls[..|calls| - 1], calls[|calls| - 1];
      var st := Run(z, State([], []), init);
      UninterruptedIsFresh(z, init);
      EmptyRun(z);
      RunKeepsValid(z, State([], []), init);
      if Stale(z, st, c) {
        ExtensionTid(z, st, c);
      }
      if c.op.ExtendListed? && c.op.tid < |st.templates| {
        CurrentIsFresh(z, st, c.op.tid, c.today, c.now);
      }
    }
  }

  lemma ExtensionTid(z: Zone, st: State, c: Call)
    requires c.op.ExtendListed? && Apply(z, st, c).Some?
    ensures c.op.tid < |st.templates|
  {
  }

  /** A creation that nothing interrupts is its two transactions. */
  lemma CreationIsItsTransactions(z: Zone, st: State, now: int, today: int, t: Template)
    ensures Step(z, st, Call(now, today, CreateTemplate(t))) ==
            Step(z, Step(z, st, Call(now, today, InsertTemplate(t))), Call(now, today, ExtendListed(|st.templates|, t)))
  {
    hide Extended, Template.Valid;
  }

  /** The transactions of a nightly job that listed the templates `order`. */
  function JobCalls(templates: seq<Template>, order: seq<nat>, now: int, today: int): seq<Call>
    requires forall i | 0 <= i < |order| :: order[i] < |templates|
  {
    seq(|order|, k requires 0 <= k < |order| => Call(now, today, ExtendListed(order[k], templates[order[k]])))
  }

  /** A nightly job that nothing interrupts is its transactions, one for each listed template. */
  lemma {:induction false} JobIsItsTransactions(z: Zone, st: State, order: seq<nat>, now: int, today: int)
    requires st.Valid() && forall i | 0 <= i < |order| :: order[i] < |st.templates|
    ensures Run(z, st, JobCalls(st.templates, order, now, today))
            == State(st.templates, Nightly(z, st.templates, st.rows, order, today))
  {
    hide Extended, Template.Valid;
    if order != [] {
      var n := |order| - 1;
      JobIsItsTransactions(z, st, order[..n], now, today);
      var calls := JobCalls(st.templates, order, now, today);
      assert calls[..n] == JobCalls(st.templates, order[..n], now, today);
      assert st.templates[order[n]].Valid();
    }
  }

  // ----- Rows that templates must not touch ----------------------------------------------------

  predicate Protected(s: Session, now: int) {
    s.customized || s.status.Cancelled? || s.startsAt < now
  }

  predicate TemplateDriven(op: Op) {
    || op.CreateTemplate? || op.UpdateTemplate? || op.DeactivateTemplate?
    || op.ExtendHorizons? || op.InsertTemplate? || op.ExtendListed?
  }

  lemma {:induction false} NightlyOnlyAppends(
      z: Zone, templates: seq<Template>, rows: Rows, order: seq<nat>, today: int)
    requires forall i | 0 <= i < |order| :: order[i] < |templates|
    ensures rows <= Nightly(z, templates, rows, order, today)
  {
    if order != [] {
      NightlyOnlyAppends(z, templates, rows, order[..|order| - 1], today);
    }
  }

  lemma TemplateCallKeepsProtected(z: Zone, st: State, c: Call, i: nat)
    requires TemplateDriven(c.op) && i < |st.rows| && Protected(st.rows[i], c.now)
    ensures |st.rows| <= |Step(z, st, c).rows| && Step(z, st, c).rows[i] == st.rows[i]
  {
    hide NewRows, CanExtend, Covered, RowsValid, Rewrite;
    if c.op.ExtendHorizons? && ListsActive(st.templates, c.op.order) {
      NightlyOnlyAppends(z, st.templates, st.rows, c.op.order, c.today);
    }
  }

  /** Over any run of template edits, deactivations, reactivations and nightly jobs, no field of a customised,
      cancelled or past row ever changes. */
  lemma {:induction false} ProtectedRowsNeverChange(z: Zone, st: State, calls: seq<Call>, i: nat)
    requires Ordered(calls) && forall k | 0 <= k < |calls| :: TemplateDriven(calls[k].op)
    requires i < |st.rows| && (calls != [] ==> Protected(st.rows[i], calls[0].now))
    ensures |st.rows| <= |Run(z, st, calls).rows| && Run(z, st, calls).rows[i] == st.rows[i]
  {
    hide Apply;
    if calls != [] {
      var init, c := calls[..|calls| - 1], calls[|calls| - 1];
      ProtectedRowsNeverChange(z, st, init, i);
      TemplateCallKeepsProtected(z, Run(z, st, init), c, i);
    }
  }

  /** No call changes any field of a cancelled row. */
  lemma CallKeepsCancelled(z: Zone, st: State, c: Call, i: nat)
    requires i < |st.rows| && st.rows[i].status.Cancelled?
    ensures |st.rows| <= |Step(z, st, c).rows| && Step(z, st, c).rows[i] == st.rows[i]
  {
    hide NewRows, CanExtend, Covered, RowsValid, Rewrite;
    if c.op.ExtendHorizons? && ListsActive(st.templates, c.op.order) {
      NightlyOnlyAppends(z, st.templates, st.rows, c.op.order, c.today);
    }
  }

  lemma {:induction false} CancelledRowsNeverChange(z: Zone, st: State, calls: seq<Call>, i: nat)
    requires i < |st.rows| && st.rows[i].status.Cancelled?
    ensures |st.rows| <= |Run(z, st, calls).rows| && Run(z, st, calls).rows[i] == st.rows[i]
  {
    hide Step;
    if calls != [] {
      CancelledRowsNeverChange(z, st, calls[..|calls| - 1], i);
      CallKeepsCancelled(z, Run(z, st, calls[..|calls| - 1]), calls[|calls| - 1], i);
    }
  }

  /** Rows cancelled by a deactivation keep their key over any run: no later call, reactivation and owner edits
      included, changes them or puts another row at the same start. */
  lemma DeactivatedRowsAreNotRecreated(z: Zone, st: State, c: Call, calls: seq<Call>, i: nat)
    requires z.Regular() && st.Valid() && c.op.DeactivateTemplate? && c.op.tid < |st.templates|
    requires i < |st.rows| && IsTarget(st.rows[i], c.op.tid, c.now)
    ensures var end := Run(z, Step(z, st, c), calls);
            && i < |end.rows| && end.rows[i].status.Cancelled?
            && end.rows[i].template == Some(c.op.tid) && end.rows[i].startsAt == st.rows[i].startsAt
            && forall j | 0 <= j < |end.rows| && j != i :: !end.rows[i].SameKey(end.rows[j])
  {
    hide Zone.Regular, RowsValid;
    var mid := Step(z, st, c);
    CancelledRowsNeverChange(z, mid, calls, i);
    StepKeepsValid(z, st, c);
    RunKeepsValid(z, mid, calls);
    UniqueAround(Run(z, mid, calls).rows, i);
  }

  lemma UniqueAround(rows: Rows, i: nat)
    requires RowsValid(rows) && i < |rows|
    ensures forall j | 0 <= j < |rows| && j != i :: !rows[i].SameKey(rows[j])
  {
    forall j | 0 <= j < |rows| && j != i
      ensures !rows[i].SameKey(rows[j])
    {
      if j < i {
        assert !rows[j].SameKey(rows[i]);
      }
    }
  }

  lemma {:induction false} RunKeepsValid(z: Zone, st: State, calls: seq<Call>)
    requires z.Regular() && st.Valid()
    ensures Run(z, st, calls).Valid()
  {
    hide Zone.Regular, State.Valid, Apply, Step;
    if calls != [] {
      RunKeepsValid(z, st, calls[..|calls| - 1]);
      StepKeepsValid(z, Run(z, st, calls[..|calls| - 1]), calls[|calls| - 1]);
    }
  }

  /** An edit that drops a weekday leaves the rows of that weekday scheduled, on their dates. */
  lemma DroppedWeekdaysStay(z: Zone, st: State, tid: nat, t: Template, now: int, today: int, i: nat)
    requires z.Regular() && Updated(z, st, tid, t, now, today).Some?
    requires i < |st.rows| && IsTarget(st.rows[i], tid, now)
    ensures var row := Updated(z, st, tid, t, now, today).value.rows[i];
            row.status.Scheduled? && z.LocalDate(row.startsAt) == z.LocalDate(st.rows[i].startsAt)
  {
    hide Zone.Regular, Zone.LocalDate, NewRows, RowsValid, CanExtend, Covered;
    RewriteMatches(z, t, st.rows[i]);
  }

  /** Protection is row by row: an edit aborts when some other row of the template already holds the start that one
      of its governed rows would move to. */
  lemma EditAbortsOnTakenStart(z: Zone, st: State, tid: nat, t: Template, now: int, today: int, i: nat, j: nat)
    requires i < |st.rows| && j < |st.rows|
    requires IsTarget(st.rows[i], tid, now) && !IsTarget(st.rows[j], tid, now)
    requires st.rows[j].SameKey(Rewrite(z, t, st.rows[i]))
    ensures Updated(z, st, tid, t, now, today).None?
  {
    var rows := Rewritten(z, st.rows, tid, t, now);
    assert rows[j].SameKey(rows[i]) && rows[i].SameKey(rows[j]);
  }

  // ----- When a template edit commits ----------------------------------------------------------

  /** A row that the rewrite leaves alone, customised, cancelled or past, holds a start that a rewritten row would
      get. */
  ghost predicate StartTaken(z: Zone, rows: Rows, tid: nat, t: Template, now: int) {
    exists i, j | 0 <= i < |rows| && 0 <= j < |rows| ::
      IsTarget(rows[i], tid, now) && !IsTarget(rows[j], tid, now) && rows[j].SameKey(Rewrite(z, t, rows[i]))
  }

  /** A spring-forward swallows the session of a row that is to be rewritten, on the row's own date. */
  ghost predicate TargetSwallowed(z: Zone, rows: Rows, tid: nat, t: Template, now: int) {
    exists i | 0 <= i < |rows| :: IsTarget(rows[i], tid, now) && Swallowed(z, t, z.LocalDate(rows[i].startsAt))
  }

  lemma RewriteCheck(z: Zone, t: Template, s: Session)
    requires z.Regular() && t.Valid() && s.status.Scheduled? && s.Check()
    ensures Rewrite(z, t, s).Check() <==> !Swallowed(z, t, z.LocalDate(s.startsAt))
  {
    hide Zone.Regular, Lost, Zone.LocalDate;
    var day := z.LocalDate(s.startsAt);
    EndAfterStart(z, DayStart(day) + t.startTime, DayStart(day) + t.endTime);
  }

  /** Two rows that are to be rewritten stand on one local date. */
  predicate DateShared(z: Zone, rows: Rows, tid: nat, now: int) {
    exists i, j | 0 <= i < j < |rows| ::
      && IsTarget(rows[i], tid, now) && IsTarget(rows[j], tid, now)
      && z.LocalDate(rows[i].startsAt) == z.LocalDate(rows[j].startsAt)
  }

  /** Two rewritten rows of a template collide if and only if they stand on one date. */
  lemma TargetsCollideExactly(z: Zone, t: Template, tid: nat, now: int, s: Session, u: Session)
    requires z.Regular() && t.Valid() && IsTarget(s, tid, now) && IsTarget(u, tid, now)
    ensures Rewrite(z, t, s).SameKey(Rewrite(z, t, u)) <==> z.LocalDate(s.startsAt) == z.LocalDate(u.startsAt)
  {
    hide Zone.Regular, Zone.LocalDate, StartsAt, EndsAt;
    StartsOnItsDate(z, t, z.LocalDate(s.startsAt));
    StartsOnItsDate(z, t, z.LocalDate(u.startsAt));
  }

  /** Rows that agree with their template never share a date: a common date would be a common start. */
  lemma TargetsStayApart(z: Zone, st: State, tid: nat, now: int)
    requires st.Valid() && Agrees(z, st, now)
    ensures !DateShared(z, st.rows, tid, now)
  {
    hide Zone.LocalDate, StartsAt, EndsAt;
    forall i, j | 0 <= i < j < |st.rows| && IsTarget(st.rows[i], tid, now) && IsTarget(st.rows[j], tid, now)
      ensures z.LocalDate(st.rows[i].startsAt) != z.LocalDate(st.rows[j].startsAt)
    {
      assert Governed(st.rows[i], now) && Governed(st.rows[j], now);
      assert !st.rows[i].SameKey(st.rows[j]);
    }
  }

  lemma RewrittenChecksExactly(z: Zone, rows: Rows, tid: nat, t: Template, now: int)
    requires z.Regular() && RowsValid(rows) && t.Valid()
    ensures (forall r | r in Rewritten(z, rows, tid, t, now) :: r.Check()) <==> !TargetSwallowed(z, rows, tid, t, now)
  {
    var after := Rewritten(z, rows, tid, t, now);
    ChecksHold(rows);
    hide Zone.Regular, Zone.LocalDate, Rewrite, Swallowed, Session.Check, KeysUnique;
    forall i | 0 <= i < |rows|
      ensures after[i].Check() <==> !(IsTarget(rows[i], tid, now) && Swallowed(z, t, z.LocalDate(rows[i].startsAt)))
    {
      if IsTarget(rows[i], tid, now) {
        RewriteCheck(z, t, rows[i]);
      }
    }
    if TargetSwallowed(z, rows, tid, t, now) {
      var i :| 0 <= i < |rows| && IsTarget(rows[i], tid, now) && Swallowed(z, t, z.LocalDate(rows[i].startsAt));
      assert after[i] in after;
    }
  }

  lemma TakenStartCollides(z: Zone, rows: Rows, tid: nat, t: Template, now: int)
    requires StartTaken(z, rows, tid, t, now)
    ensures !KeysUnique(Rewritten(z, rows, tid, t, now))
  {
    hide Rewrite;
    var after := Rewritten(z, rows, tid, t, now);
    var i, j :| 0 <= i < |rows| && 0 <= j < |rows| && IsTarget(rows[i], tid, now) && !IsTarget(rows[j], tid, now)
                && rows[j].SameKey(Rewrite(z, t, rows[i]));
    assert after[j].SameKey(after[i]) && after[i].SameKey(after[j]);
  }

  lemma SharedDateCollides(z: Zone, rows: Rows, tid: nat, t: Template, now: int)
    requires z.Regular() && t.Valid() && DateShared(z, rows, tid, now)
    ensures !KeysUnique(Rewritten(z, rows, tid, t, now))
  {
    hide Zone.Regular, Zone.LocalDate, Rewrite;
    var after := Rewritten(z, rows, tid, t, now);
    var i, j :| 0 <= i < j < |rows| && IsTarget(rows[i], tid, now) && IsTarget(rows[j], tid, now)
                && z.LocalDate(rows[i].startsAt) == z.LocalDate(rows[j].startsAt);
    TargetsCollideExactly(z, t, tid, now, rows[i], rows[j]);
    assert after[i].SameKey(after[j]);
  }

  lemma RowsStayApart(z: Zone, rows: Rows, tid: nat, t: Template, now: int, i: nat, j: nat)
    requires z.Regular() && RowsValid(rows) && t.Valid() && i < j < |rows|
    requires !StartTaken(z, rows, tid, t, now) && !DateShared(z, rows, tid, now)
    ensures !Rewritten(z, rows, tid, t, now)[i].SameKey(Rewritten(z, rows, tid, t, now)[j])
  {
    assert !rows[i].SameKey(rows[j]);
    hide Zone.Regular, Zone.LocalDate, Rewrite, RowsValid;
    if IsTarget(rows[i], tid, now) && IsTarget(rows[j], tid, now) {
      TargetsCollideExactly(z, t, tid, now, rows[i], rows[j]);
    } else if IsTarget(rows[i], tid, now) {
      assert !rows[j].SameKey(Rewrite(z, t, rows[i]));
    } else if IsTarget(rows[j], tid, now) {
      assert !rows[i].SameKey(Rewrite(z, t, rows[j]));
    }
  }

  lemma RewrittenKeysExactly(z: Zone, rows: Rows, tid: nat, t: Template, now: int)
    requires z.Regular() && RowsValid(rows) && t.Valid()
    ensures KeysUnique(Rewritten(z, rows, tid, t, now)) <==>
            !StartTaken(z, rows, tid, t, now) && !DateShared(z, rows, tid, now)
  {
    var after := Rewritten(z, rows, tid, t, now);
    assert |after| == |rows|;
    hide Zone.Regular, Rewritten, StartTaken, DateShared, RowsValid, Session.SameKey;
    if StartTaken(z, rows, tid, t, now) {
      TakenStartCollides(z, rows, tid, t, now);
    } else if DateShared(z, rows, tid, now) {
      SharedDateCollides(z, rows, tid, t, now);
    } else {
      forall i, j | 0 <= i < j < |after|
        ensures !after[i].SameKey(after[j])
      {
        RowsStayApart(z, rows, tid, t, now, i, j);
      }
    }
  }

  /** The rewrite breaks a constraint of the table only in those three ways. */
  lemma RewriteValidExactly(z: Zone, rows: Rows, tid: nat, t: Template, now: int)
    requires z.Regular() && RowsValid(rows) && t.Valid()
    ensures RowsValid(Rewritten(z, rows, tid, t, now)) <==>
            && !StartTaken(z, rows, tid, t, now)
            && !DateShared(z, rows, tid, now)
            && !TargetSwallowed(z, rows, tid, t, now)
  {
    hide *;
    RewrittenKeysExactly(z, rows, tid, t, now);
    RewrittenChecksExactly(z, rows, tid, t, now);
    SplitValid(Rewritten(z, rows, tid, t, now));
  }

  lemma SplitValid(rows: Rows)
    ensures RowsValid(rows) <==> KeysUnique(rows) && forall r | r in rows :: r.Check()
  {
    hide KeysUnique, Session.Check;
    assert forall i | 0 <= i < |rows| :: rows[i] in rows;
  }

  /** From any valid tables a template edit commits if and only if the template exists, its new shape is valid, no row
      that the rewrite leaves alone holds a start it needs, no two rewritten rows share a date, and no spring-forward
      swallows a session that it would move or insert. */
  lemma EditCommitsExactly(z: Zone, st: State, tid: nat, t: Template, now: int, today: int)
    requires z.Regular() && st.Valid()
    ensures Updated(z, st, tid, t, now, today).Some? <==>
            && tid < |st.templates| && t.Valid()
            && !StartTaken(z, st.rows, tid, t, now)
            && !DateShared(z, st.rows, tid, now)
            && !TargetSwallowed(z, st.rows, tid, t, now)
            && (forall d | today <= d <= today + HORIZON_DAYS && t.Covers(d) :: !Swallowed(z, t, d))
  {
    hide Zone.Regular, StartTaken, DateShared, TargetSwallowed, Swallowed, RowsValid, CanExtend, NewRows;
    if tid < |st.templates| && t.Valid() {
      RewriteValidExactly(z, st.rows, tid, t, now);
      ExtensionFailsOnlyInGaps(z, tid, t, Horizon(t, today));
      CoveredExactly(t, today, today + HORIZON_DAYS);
    }
  }

  /** Where rows agree with their templates, as they do unless a stale extension came before, no date is shared, and the
      other conditions decide. */
  lemma AgreeingEditCommitsExactly(z: Zone, st: State, tid: nat, t: Template, now: int, today: int)
    requires z.Regular() && st.Valid() && Agrees(z, st, now)
    ensures Updated(z, st, tid, t, now, today).Some? <==>
            && tid < |st.templates| && t.Valid()
            && !StartTaken(z, st.rows, tid, t, now)
            && !TargetSwallowed(z, st.rows, tid, t, now)
            && (forall d | today <= d <= today + HORIZON_DAYS && t.Covers(d) :: !Swallowed(z, t, d))
  {
    hide *;
    TargetsStayApart(z, st, tid, now);
    EditCommitsExactly(z, st, tid, t, now, today);
  }

  /** While two governed rows of a template share a date, every edit of it is rolled back, whatever it changes. */
  lemma SharedDateBlocksEdits(z: Zone, st: State, tid: nat, now: int)
    requires z.Regular() && st.Valid() && DateShared(z, st.rows, tid, now)
    ensures forall t, today :: Updated(z, st, tid, t, now, today).None?
  {
    hide *;
    forall t, today
      ensures Updated(z, st, tid, t, now, today).None?
    {
      EditCommitsExactly(z, st, tid, t, now, today);
    }
  }

  // ----- Runs that end in an aborted edit ------------------------------------------------------

  /** One class a day at the given hours, on one date only. */
  function OneDay(day: int, from: int, until: int): Template {
    Template(0, {0, 1, 2, 3, 4, 5, 6}, from, until, 0, None, day, Some(day), true)
  }

  lemma OneDayHorizon(day: int, from: int, until: int)
    requires 0 <= from < until < DAY
    ensures OneDay(day, from, until).Valid() && Horizon(OneDay(day, from, until), day) == [day]
  {
    var t := OneDay(day, from, until);
    CoveredClips(t, day, day + HORIZON_DAYS, day, day);
    assert Weekday(day) in t.weekdays;
    assert Covered(t, day, day - 1) == [];
  }

  const UTC: Zone := Zone(0, [])
  const NINE: Template := OneDay(7, 9 * HOUR, 10 * HOUR)
  const ELEVEN: Template := OneDay(7, 11 * HOUR, 12 * HOUR)
  const AT_NINE: Session := TemplateRow(UTC, 0, NINE, 7)
  const MOVE: Patch := Patch(None, None, Some(DayStart(7) + 11 * HOUR), Some(DayStart(7) + 12 * HOUR), None)
  const MOVED: Session := Edit(AT_NINE, MOVE)

  lemma ExampleRows()
    ensures UTC.Regular()
    ensures AT_NINE.startsAt == DayStart(7) + 9 * HOUR && AT_NINE.endsAt == DayStart(7) + 10 * HOUR
    ensures AT_NINE.status.Scheduled? && !AT_NINE.customized && AT_NINE.template == Some(0) && AT_NINE.cancelledAt.None?
    ensures MOVED.startsAt == DayStart(7) + 11 * HOUR && MOVED.endsAt == DayStart(7) + 12 * HOUR
    ensures MOVED.status.Scheduled? && MOVED.customized && MOVED.template == Some(0) && MOVED.cancelledAt.None?
    ensures Rewrite(UTC, ELEVEN, AT_NINE).startsAt == MOVED.startsAt
  {
    assert UTC.WallPassed(DayStart(7) + 9 * HOUR) == 0;
    assert UTC.LocalDate(AT_NINE.startsAt) == 7;
  }

  /** The nine o'clock row is inserted where no row holds its key. */
  lemma InsertNine(rows: Rows)
    requires !KeyTaken(rows, AT_NINE)
    ensures Extended(UTC, rows, 0, NINE, 7) == Some(rows + [AT_NINE])
  {
    OneDayHorizon(7, 9 * HOUR, 10 * HOUR);
    ExampleRows();
    hide Covered, TemplateRow, OneDay;
    assert AT_NINE.Check();
    assert CanExtend(UTC, 0, NINE, [7]);
    hide KeyTaken;
    assert NewRows(UTC, rows, 0, NINE, [7]) == [AT_NINE] by {
      assert [7][..0] == [] && NewRows(UTC, rows, 0, NINE, []) == [];
      assert [] + [AT_NINE] == [AT_NINE];
    }
  }

  /** A template at nine; the owner moves its row to eleven; the nightly job puts a row back at nine; the template
      can no longer be moved to eleven. */
  lemma EditAfterMoveAborts()
    ensures var now := DayStart(7);
            var calls := [Call(now, 7, CreateTemplate(NINE)), Call(now, 7, UpdateSession(0, MOVE)),
                          Call(now, 7, ExtendHorizons([0]))];
            && Run(UTC, State([], []), calls) == State([NINE], [MOVED, AT_NINE])
            && Apply(UTC, Run(UTC, State([], []), calls), Call(now, 7, UpdateTemplate(0, ELEVEN))) == None
  {
    var now := DayStart(7);
    var c1, c2, c3 := Call(now, 7, CreateTemplate(NINE)), Call(now, 7, UpdateSession(0, MOVE)),
        Call(now, 7, ExtendHorizons([0]));
    ExampleCreate();
    ExampleMove();
    ExampleNight();
    RunThree(UTC, c1, c2, c3);
    ExampleRows();
    hide Zone.Regular, Extended, Rewrite, Horizon, Step, Run, DayStart, TemplateRow, Edit;
    EditAbortsOnTakenStart(UTC, State([NINE], [MOVED, AT_NINE]), 0, ELEVEN, now, 7, 1, 0);
    assert ELEVEN.(classId := NINE.classId) == ELEVEN;
  }

  lemma ExampleCreate()
    ensures Step(UTC, State([], []), Call(DayStart(7), 7, CreateTemplate(NINE))) == State([NINE], [AT_NINE])
  {
    OneDayHorizon(7, 9 * HOUR, 10 * HOUR);
    InsertNine([]);
    hide Extended, Horizon, TemplateRow, DayStart;
    assert [] + [NINE] == [NINE] && [] + [AT_NINE] == [AT_NINE];
  }

  lemma ExampleMove()
    ensures Step(UTC, State([NINE], [AT_NINE]), Call(DayStart(7), 7, UpdateSession(0, MOVE))) == State([NINE], [MOVED])
  {
    ExampleRows();
    hide Edit, TemplateRow, DayStart;
    assert [AT_NINE][0 := MOVED] == [MOVED];
    assert RowsValid([MOVED]);
  }

  lemma NineIsFree()
    ensures !KeyTaken([MOVED], AT_NINE)
  {
    ExampleRows();
    hide TemplateRow, Edit, DayStart;
  }

  lemma ExampleNight()
    ensures Step(UTC, State([NINE], [MOVED]), Call(DayStart(7), 7, ExtendHorizons([0]))) ==
            State([NINE], [MOVED, AT_NINE])
  {
    NineIsFree();
    InsertNine([MOVED]);
    hide Extended, TemplateRow, Edit, DayStart, KeyTaken;
    assert NINE.active && ListsActive([NINE], [0]);
    assert [0][..0] == [] && Nightly(UTC, [NINE], [MOVED], [], 7) == [MOVED];
    assert [MOVED] + [AT_NINE] == [MOVED, AT_NINE];
  }

  lemma RunThree(z: Zone, c1: Call, c2: Call, c3: Call)
    ensures Run(z, State([], []), [c1, c2, c3]) == Step(z, Step(z, Step(z, State([], []), c1), c2), c3)
  {
    hide Step;
    var calls := [c1, c2, c3];
    assert calls[..2] == [c1, c2] && [c1, c2][..1] == [c1] && [c1][..0] == [];
    assert Run(z, State([], []), [c1]) == Step(z, State([], []), c1);
    assert Run(z, State([], []), [c1, c2]) == Step(z, Step(z, State([], []), c1), c2);
  }

  const AT_ELEVEN: Session := TemplateRow(UTC, 0, ELEVEN, 7)

  lemma ElevenFacts()
    ensures Rewrite(UTC, ELEVEN, AT_NINE) == AT_ELEVEN && AT_ELEVEN.Check() && AT_ELEVEN.template == Some(0)
    ensures MatchesTemplate(UTC, ELEVEN, AT_ELEVEN) && IsTarget(AT_NINE, 0, DayStart(7))
    ensures ELEVEN.(classId := NINE.classId) == ELEVEN
  {
    OneDayHorizon(7, 11 * HOUR, 12 * HOUR);
    ExampleRows();
    TemplateRowMatches(UTC, 0, ELEVEN, 7);
    assert UTC.LocalDate(AT_NINE.startsAt) == 7;
  }

  lemma NothingAtEleven()
    ensures Extended(UTC, [AT_ELEVEN], 0, ELEVEN, 7) == Some([AT_ELEVEN])
  {
    OneDayHorizon(7, 11 * HOUR, 12 * HOUR);
    ElevenFacts();
    hide Covered, TemplateRow, MatchesTemplate, Rewrite, OneDay;
    assert CanExtend(UTC, 0, ELEVEN, [7]);
    assert [AT_ELEVEN][0].SameKey(AT_ELEVEN) && KeyTaken([AT_ELEVEN], AT_ELEVEN);
    assert [7][..0] == [] && NewRows(UTC, [AT_ELEVEN], 0, ELEVEN, [7]) == [];
    assert [AT_ELEVEN] + [] == [AT_ELEVEN];
  }

  lemma ExampleEdit()
    ensures Step(UTC, State([NINE], [AT_NINE]), Call(DayStart(7), 7, UpdateTemplate(0, ELEVEN))) ==
            State([ELEVEN], [AT_ELEVEN])
    ensures Agrees(UTC, State([ELEVEN], [AT_ELEVEN]), DayStart(7))
  {
    OneDayHorizon(7, 11 * HOUR, 12 * HOUR);
    ElevenFacts();
    NothingAtEleven();
    hide Covered, TemplateRow, MatchesTemplate, Rewrite, IsTarget, CanExtend, NewRows;
    assert Rewritten(UTC, [AT_NINE], 0, ELEVEN, DayStart(7)) == [AT_ELEVEN];
    assert RowsValid([AT_ELEVEN]);
    assert [NINE][0 := ELEVEN] == [ELEVEN];
  }

  lemma InsertNineAgain()
    ensures Step(UTC, State([ELEVEN], [AT_ELEVEN]), Call(DayStart(7), 7, ExtendListed(0, NINE)))
            == State([ELEVEN], [AT_ELEVEN, AT_NINE])
  {
    OneDayHorizon(7, 9 * HOUR, 10 * HOUR);
    ExampleRows();
    assert AT_ELEVEN.startsAt == DayStart(7) + 11 * HOUR;
    InsertNine([AT_ELEVEN]);
    hide Extended, TemplateRow;
    assert [AT_ELEVEN] + [AT_NINE] == [AT_ELEVEN, AT_NINE];
  }

  /** A template at nine; the nightly job lists it; the owner moves it to eleven; the job's transaction for it then
      puts a second row on the same date, at nine, where the template no longer is. */
  lemma InterruptedJobDisagrees()
    ensures var now := DayStart(7);
            var calls := [Call(now, 7, CreateTemplate(NINE)), Call(now, 7, UpdateTemplate(0, ELEVEN)),
                          Call(now, 7, ExtendListed(0, NINE))];
            && Run(UTC, State([], []), calls) == State([ELEVEN], [AT_ELEVEN, AT_NINE])
            && !Agrees(UTC, Run(UTC, State([], []), calls), now)
  {
    var now := DayStart(7);
    ExampleCreate();
    ExampleEdit();
    InsertNineAgain();
    RunThree(UTC, Call(now, 7, CreateTemplate(NINE)), Call(now, 7, UpdateTemplate(0, ELEVEN)),
        Call(now, 7, ExtendListed(0, NINE)));
    ExampleRows();
    assert UTC.LocalDate(AT_NINE.startsAt) == 7;
    hide Run, Step, TemplateRow;
    assert Governed([AT_ELEVEN, AT_NINE][1], now);
  }

  /** And from then on the template cannot be edited at all, not even back to nine. */
  lemma InterruptedJobBlocksEdits()
    ensures var now := DayStart(7);
            var calls := [Call(now, 7, CreateTemplate(NINE)), Call(now, 7, UpdateTemplate(0, ELEVEN)),
                          Call(now, 7, ExtendListed(0, NINE))];
            forall t, today ::
              Apply(UTC, Run(UTC, State([], []), calls), Call(now, today, UpdateTemplate(0, t))) == None
  {
    var now := DayStart(7);
    var calls := [Call(now, 7, CreateTemplate(NINE)), Call(now, 7, UpdateTemplate(0, ELEVEN)),
                  Call(now, 7, ExtendListed(0, NINE))];
    NineAndElevenShareDate();
    InterruptedJobDisagrees();
    assert Ordered(calls);
    hide *;
    FutureRowsAgreeExactly(UTC, calls);
    SharedDateBlocksEdits(UTC, Run(UTC, State([], []), calls), 0, now);
    NoEditApplies(UTC, Run(UTC, State([], []), calls), 0, now);
  }

  lemma NoEditApplies(z: Zone, st: State, tid: nat, now: int)
    requires forall t, today :: Updated(z, st, tid, t, now, today).None?
    ensures forall t, today :: Apply(z, st, Call(now, today, UpdateTemplate(tid, t))) == None
  {
    hide Updated;
  }

  lemma NineAndElevenShareDate()
    ensures UTC.Regular() && DateShared(UTC, [AT_ELEVEN, AT_NINE], 0, DayStart(7))
  {
    ElevenFacts();
    ExampleRows();
    var now, rows := DayStart(7), [AT_ELEVEN, AT_NINE];
    assert UTC.LocalDate(AT_NINE.startsAt) == 7 && UTC.LocalDate(AT_ELEVEN.startsAt) == 7;
    assert IsTarget(rows[0], 0, now) && IsTarget(rows[1], 0, now);
  }

  const SPRING: Zone := Zone(2 * HOUR, [Transition(1000 * DAY, 3 * HOUR)])
  const NIGHT: Template := OneDay(1000, 2 * HOUR + 10 * MINUTE, 3 * HOUR + 5 * MINUTE)

  /** A template for one date cannot be moved to hours that a spring-forward swallows on that date. */
  lemma EditIntoGapAborts()
    ensures var nine := OneDay(1000, 9 * HOUR, 10 * HOUR);
            var st := Run(SPRING, State([], []), [Call(0, 1000, CreateTemplate(nine))]);
            && SPRING.Regular() && st.templates == [nine]
            && Apply(SPRING, st, Call(0, 1000, UpdateTemplate(0, NIGHT))) == None
  {
    var nine, c := OneDay(1000, 9 * HOUR, 10 * HOUR), Call(0, 1000, CreateTemplate(OneDay(1000, 9 * HOUR, 10 * HOUR)));
    OneDayHorizon(1000, 9 * HOUR, 10 * HOUR);
    NightCannotExtend();
    hide Zone.Regular, CanExtend, Horizon, NewRows, Rewritten, RowsValid;
    assert [c][..0] == [];
    assert Run(SPRING, State([], []), [c]) == Step(SPRING, State([], []), c);
    assert [] + [nine] == [nine];
    assert NIGHT.(classId := nine.classId) == NIGHT;
  }

  lemma NightCannotExtend()
    ensures SPRING.Regular() && !CanExtend(SPRING, 0, NIGHT, Horizon(NIGHT, 1000))
  {
    OneDayHorizon(1000, 2 * HOUR + 10 * MINUTE, 3 * HOUR + 5 * MINUTE);
    SwallowedSession();
    assert !TemplateRow(SPRING, 0, NIGHT, 1000).Check();
    assert 1000 in Horizon(NIGHT, 1000);
  }

  // ----- The nightly loop ----------------------------------------------------------------------

  function RowsOf(rows: Rows, tid: nat): Rows {
    if rows == [] then []
    else RowsOf(rows[..|rows| - 1], tid)
         + if rows[|rows| - 1].template == Some(tid) then [rows[|rows| - 1]] else []
  }

  lemma {:induction false} RowsOfConcat(a: Rows, b: Rows, tid: nat)
    ensures RowsOf(a + b, tid) == RowsOf(a, tid) + RowsOf(b, tid)
  {
    if b == [] {
      assert a + b == a;
    } else {
      RowsOfConcat(a, b[..|b| - 1], tid);
      assert (a + b)[..|a + b| - 1] == a + b[..|b| - 1];
    }
  }

  lemma {:induction false} RowsOfKeepsKeys(rows: Rows, tid: nat, row: Session)
    requires row.template == Some(tid)
    ensures KeyTaken(RowsOf(rows, tid), row) <==> KeyTaken(rows, row)
  {
    if rows != [] {
      var init, last := rows[..|rows| - 1], rows[|rows| - 1];
      RowsOfKeepsKeys(init, tid, row);
      KeyTakenAppend(init, last, row);
      assert rows == init + [last];
      if last.template == Some(tid) {
        KeyTakenAppend(RowsOf(init, tid), last, row);
      } else {
        assert RowsOf(rows, tid) == RowsOf(init, tid);
      }
    }
  }

  lemma KeyTakenAppend(rows: Rows, last: Session, row: Session)
    ensures KeyTaken(rows + [last], row) <==> KeyTaken(rows, row) || last.SameKey(row)
  {
    var all := rows + [last];
    assert forall i | 0 <= i < |rows| :: all[i] == rows[i];
    assert all[|rows|] == last;
  }

  lemma {:induction false} RowsOfOneTemplate(rows: Rows, tid: nat, u: nat)
    requires forall r | r in rows :: r.template == Some(tid)
    ensures RowsOf(rows, u) == if u == tid then rows else []
  {
    if rows != [] {
      var init, last := rows[..|rows| - 1], rows[|rows| - 1];
      assert last in rows;
      RowsOfOneTemplate(init, tid, u);
      assert rows == init + [last];
    }
  }

  /** What a template inserts depends on its own rows alone, and is all its own. */
  lemma {:induction false} NewRowsOwn(z: Zone, rows: Rows, tid: nat, t: Template, dates: seq<int>, u: nat)
    ensures NewRows(z, rows, tid, t, dates) == NewRows(z, RowsOf(rows, tid), tid, t, dates)
    ensures RowsOf(NewRows(z, rows, tid, t, dates), u) == if u == tid then NewRows(z, rows, tid, t, dates) else []
  {
    hide StartsAt, EndsAt, KeyTaken;
    if dates != [] {
      NewRowsOwn(z, rows, tid, t, dates[..|dates| - 1], u);
      RowsOfKeepsKeys(rows, tid, TemplateRow(z, tid, t, dates[|dates| - 1]));
    }
    NewRowsFacts(z, rows, tid, t, dates);
    RowsOfOneTemplate(NewRows(z, rows, tid, t, dates), tid, u);
  }

  /** What the nightly job leaves of one template's rows when it handles that template alone. */
  function Alone(z: Zone, rows: Rows, tid: nat, t: Template, today: int): Rows {
    Or(Extended(z, rows, tid, t, today), rows)
  }

  /** In the nightly loop each template's rows end as if it had been extended alone, from the rows it had at the start:
      neither the other templates, nor their failures, nor the order matter. */
  lemma {:induction false} NightlyIsIsolated(
      z: Zone, templates: seq<Template>, rows: Rows, order: seq<nat>, today: int, u: nat)
    requires forall i | 0 <= i < |order| :: order[i] < |templates|
    requires forall i, j | 0 <= i < j < |order| :: order[i] != order[j]
    ensures RowsOf(Nightly(z, templates, rows, order, today), u) ==
            if u in order then RowsOf(Alone(z, rows, u, templates[u], today), u) else RowsOf(rows, u)
  {
    hide CanExtend, Covered, NewRows, RowsOf;
    if order != [] {
      var init, tid := order[..|order| - 1], order[|order| - 1];
      NightlyIsIsolated(z, templates, rows, init, today, u);
      var before := Nightly(z, templates, rows, init, today);
      var t, dates := templates[tid], Horizon(templates[tid], today);
      assert order == init + [tid];
      assert tid !in init;
      RowsOfConcat(before, NewRows(z, before, tid, t, dates), u);
      NewRowsOwn(z, before, tid, t, dates, u);
      if u == tid {
        RowsOfConcat(rows, NewRows(z, rows, tid, t, dates), u);
        NewRowsOwn(z, rows, tid, t, dates, u);
      }
    }
  }

  lemma KeysStayTaken(rows: Rows, all: Rows, row: Session)
    requires rows <= all && KeyTaken(rows, row)
    ensures KeyTaken(all, row)
  {
    var i :| 0 <= i < |rows| && rows[i].SameKey(row);
    assert all[i].SameKey(row);
  }

  /** Every key that the job could provide is there after it. */
  lemma {:induction false} NightlyTakesKeys(z: Zone, templates: seq<Template>, rows: Rows, order: seq<nat>, today: int)
    requires forall i | 0 <= i < |order| :: order[i] < |templates|
    ensures forall i | 0 <= i < |order|
                       && CanExtend(z, order[i], templates[order[i]], Horizon(templates[order[i]], today)) ::
              forall d | d in Horizon(templates[order[i]], today) ::
                KeyTaken(Nightly(z, templates, rows, order, today), TemplateRow(z, order[i], templates[order[i]], d))
  {
    hide CanExtend, Covered, NewRows, KeyTaken;
    if order != [] {
      var init, tid := order[..|order| - 1], order[|order| - 1];
      NightlyTakesKeys(z, templates, rows, init, today);
      var before, after := Nightly(z, templates, rows, init, today), Nightly(z, templates, rows, order, today);
      ExtensionTakesEveryKey(z, before, tid, templates[tid], Horizon(templates[tid], today));
      forall i, d | 0 <= i < |init| && CanExtend(z, init[i], templates[init[i]], Horizon(templates[init[i]], today))
                    && d in Horizon(templates[init[i]], today)
        ensures KeyTaken(after, TemplateRow(z, init[i], templates[init[i]], d))
      {
        KeysStayTaken(before, after, TemplateRow(z, init[i], templates[init[i]], d));
      }
    }
  }

  lemma {:induction false} NightlyNothingNew(z: Zone, templates: seq<Template>, rows: Rows, order: seq<nat>, today: int)
    requires forall i | 0 <= i < |order| :: order[i] < |templates|
    requires forall i | 0 <= i < |order|
                        && CanExtend(z, order[i], templates[order[i]], Horizon(templates[order[i]], today)) ::
               forall d | d in Horizon(templates[order[i]], today) ::
                 KeyTaken(rows, TemplateRow(z, order[i], templates[order[i]], d))
    ensures Nightly(z, templates, rows, order, today) == rows
  {
    hide CanExtend, Covered, NewRows, KeyTaken;
    if order != [] {
      var init, tid := order[..|order| - 1], order[|order| - 1];
      NightlyNothingNew(z, templates, rows, init, today);
      if CanExtend(z, tid, templates[tid], Horizon(templates[tid], today)) {
        NothingNew(z, rows, tid, templates[tid], Horizon(templates[tid], today));
      }
    }
  }

  /** A second nightly run on the same day inserts nothing at all, in whatever order it lists the templates. */
  lemma NightlyIsIdempotent(
      z: Zone, templates: seq<Template>, rows: Rows, order: seq<nat>, again: seq<nat>, today: int)
    requires forall i | 0 <= i < |order| :: order[i] < |templates|
    requires forall tid | tid in again :: tid in order
    ensures forall i | 0 <= i < |again| :: again[i] < |templates|
    ensures var once := Nightly(z, templates, rows, order, today);
            Nightly(z, templates, once, again, today) == once
  {
    hide CanExtend, Covered, NewRows, KeyTaken, Nightly;
    assert forall i | 0 <= i < |again| :: again[i] in order;
    NightlyTakesKeys(z, templates, rows, order, today);
    NightlyNothingNew(z, templates, Nightly(z, templates, rows, order, today), again, today);
  }
}
