/** `ScheduleService` and the nightly task `_run_extend_horizon`, statement by statement, over tables held in fields.

    Each method is one or more transactions on the two tables; its contract gives the tables' new state by the
    value-level effect of the same command in module `Schedule`.
 */
module ScheduleServices {
  import opened Basics
  import opened Calendar
  import opened TimeZone
  import opened Schedule
  import opened ScheduleRuns
  import opened ScheduleEffects
  import opened Sums
  import Payroll

  datatype Reply<+T> = Ok(value: T) | Refused

  datatype NightlyReport = NightlyReport(templatesProcessed: nat, sessionsCreated: nat, errors: nat)

  // ----- Pay links -----------------------------------------------------------------------------

  datatype CoachLink = CoachLink(coach: nat, link: Payroll.Link)

  datatype SubstitutePay = SubstitutePay(model: Payroll.PayModel, amount: nat)

  /** `ux_class_coaches_role`: one link for each class, coach and role. */
  predicate RoleTaken(links: seq<CoachLink>, row: CoachLink) {
    exists k | 0 <= k < |links| ::
      links[k].coach == row.coach && links[k].link.classId == row.link.classId && links[k].link.role == row.link.role
  }

  predicate RolesUnique(links: seq<CoachLink>) {
    forall k | 0 <= k < |links| :: !RoleTaken(links[..k], links[k])
  }

  /** `has_rate`: one of the coach's current links to the class overlaps the range. */
  predicate HasRate(links: seq<CoachLink>, coach: nat, classId: nat, from: int, to: int, today: int) {
    exists k | 0 <= k < |links| ::
      && links[k].coach == coach && links[k].link.classId == classId && Payroll.Overlaps(links[k].link, from, to)
      && (links[k].link.endsOn.None? || today <= links[k].link.endsOn.value)
  }

  function TemporaryLink(coach: nat, classId: nat, from: int, to: int, pay: SubstitutePay): CoachLink {
    CoachLink(coach, Payroll.Link(classId, Payroll.Substitute(from, to), pay.model, pay.amount, from, Some(to)))
  }

  /** The pay links after a bulk action; `None` when it is refused for want of a rate, or its new link is. */
  function LinksAfter(
      links: seq<CoachLink>, classId: nat, from: int, to: int, action: Action, pay: Option<SubstitutePay>, today: int)
    : Option<seq<CoachLink>>
  {
    match action
    case Cancel(_) => Some(links)
    case SwapCoach(coach) =>
      if HasRate(links, coach, classId, from, to, today) then Some(links)
      else if pay.None? || RoleTaken(links, TemporaryLink(coach, classId, from, to, pay.value)) then None
      else Some(links + [TemporaryLink(coach, classId, from, to, pay.value)])
  }

  /** A session of no template, the owner's own from the start. */
  function AdhocRow(
      classId: nat, startsAt: int, endsAt: int, head: Option<nat>, assistant: Option<nat>, notes: Option<string>)
    : Session
  {
    Session(None, classId, startsAt, endsAt, head, assistant, Scheduled, true, None, None, notes)
  }

  class ScheduleService {
    const zone: Zone
    var templates: seq<Template>
    var sessions: Rows
    var links: seq<CoachLink>

    ghost function Tables(): State
      reads this
    {
      State(templates, sessions)
    }

    ghost predicate Valid()
      reads this
    {
      zone.Regular() && Tables().Valid() && RolesUnique(links)
    }

    constructor (zone: Zone, links: seq<CoachLink>)
      requires zone.Regular() && RolesUnique(links)
      ensures Valid() && Tables() == State([], []) && this.zone == zone && this.links == links
    {
      this.zone, this.links := zone, links;
      templates, sessions := [], [];
    }

    /** `list_for_template_future`: the ids of the template's rows from `now` on, in an order the database chooses. */
    method ListForTemplateFuture(tid: nat, now: int) returns (ids: seq<nat>)
      ensures forall k | 0 <= k < |ids| :: ids[k] < |sessions|
      ensures forall i | 0 <= i < |sessions| :: i in ids <==>
              sessions[i].template == Some(tid) && now <= sessions[i].startsAt
      ensures forall j, k | 0 <= j < k < |ids| :: ids[j] != ids[k]
    {
      ids := [];
      for i := 0 to |sessions|
        invariant forall k | 0 <= k < |ids| :: ids[k] < i
        invariant forall j | 0 <= j < i :: j in ids <==>
                  sessions[j].template == Some(tid) && now <= sessions[j].startsAt
        invariant forall j, k | 0 <= j < k < |ids| :: ids[j] != ids[k]
      {
        if sessions[i].template == Some(tid) && now <= sessions[i].startsAt {
          ids := ids + [i];
        }
      }
    }

    /** `_materialize_horizon`: all the missing rows, or, when a CHECK fails, none.  The template is the caller's
        copy. */
    method MaterializeHorizon(tid: nat, t: Template, today: int) returns (r: Reply<nat>)
      requires Valid() && tid < |templates|
      modifies this`sessions
      ensures sessions == Or(Extended(zone, old(sessions), tid, t, today), old(sessions))
      ensures r.Refused? <==> Extended(zone, old(sessions), tid, t, today).None?
      ensures r.Ok? ==> r.value == |sessions| - |old(sessions)|
    {
      hide Zone.Regular, NewRows, CanExtend, KeyTaken, TemplateRow, Session.Check, Covered, RowsValid;
      var dates := MaterializeDates(t, today, today + HORIZON_DAYS);
      CoveredExactly(t, today, today + HORIZON_DAYS);
      NothingYet(zone, sessions, tid, t, dates);
      var work, created := sessions, 0;
      for i := 0 to |dates|
        invariant work == sessions + NewRows(zone, sessions, tid, t, dates[..i])
        invariant created == |work| - |sessions|
        invariant CanExtend(zone, tid, t, dates[..i])
        invariant sessions == old(sessions)
      {
        var row := TemplateRow(zone, tid, t, dates[i]);
        HorizonStep(zone, sessions, tid, t, dates, i);
        if !row.Check() {
          return Refused;
        }
        if !KeyTaken(work, row) {
          work := work + [row];
          created := created + 1;
        }
      }
      assert dates[..|dates|] == dates;
      sessions := work;
      r := Ok(created);
    }

    /** The loop of `_rematerialize_future`, before it extends the horizon. */
    method RewriteFuture(tid: nat, t: Template, now: int) returns (r: Reply<()>)
      requires zone.Regular() && RowsValid(sessions) && t.Valid()
      modifies this`sessions
      ensures r.Ok? <==> RowsValid(Rewritten(zone, old(sessions), tid, t, now))
      ensures r.Ok? ==> sessions == Rewritten(zone, old(sessions), tid, t, now)
    {
      hide Zone.Regular, StartsAt, EndsAt, Zone.LocalDate;
      var future := ListForTemplateFuture(tid, now);
      ghost var before := sessions;
      ghost var after := Rewritten(zone, before, tid, t, now);
      for k := 0 to |future|
        invariant |sessions| == |before|
        invariant forall i | 0 <= i < |before| :: sessions[i] == if i in future[..k] then after[i] else before[i]
        invariant RowsValid(sessions)
      {
        var id := future[k];
        var s := sessions[id];
        assert future[..k + 1] == future[..k] + [id];
        assert id !in future[..k];
        if !s.status.Scheduled? || s.customized {
          continue;
        }
        var row := Rewrite(zone, t, s);
        assert row == after[id];
        if !row.Check() || KeyTakenByOther(sessions, row, id) {
          MovedRowCollides(zone, before, sessions, after, tid, t, now, future[..k], id);
          return Refused;
        }
        UpdateKeepsValid(sessions, row, id);
        sessions := sessions[id := row];
      }
      assert future[..|future|] == future;
      assert sessions == after;
      r := Ok(());
    }

    method CreateTemplate(t: Template, today: int, ghost now: int) returns (r: Reply<nat>)
      requires Valid()
      modifies this`templates, this`sessions
      ensures Valid() && Tables() == Step(zone, old(Tables()), Call(now, today, Op.CreateTemplate(t)))
      ensures r.Ok? <==> t.Valid() && Extended(zone, old(sessions), |old(templates)|, t, today).Some?
      ensures r.Ok? ==> r.value == |old(templates)| && templates == old(templates) + [t]
    {
      StepKeepsValid(zone, Tables(), Call(now, today, Op.CreateTemplate(t)));
      hide Zone.Regular, RowsValid, NewRows, CanExtend, Covered;
      if !t.Valid() {
        return Refused;
      }
      templates := templates + [t];
      var tid := |templates| - 1;
      var count := MaterializeHorizon(tid, t, today);
      r := if count.Ok? then Ok(tid) else Refused;
    }

    /** The row update, the rewrite and the extension are one transaction. */
    method UpdateTemplate(tid: nat, edited: Template, now: int, today: int) returns (r: Reply<Template>)
      requires Valid()
      modifies this`templates, this`sessions
      ensures Valid() && Tables() == Step(zone, old(Tables()), Call(now, today, Op.UpdateTemplate(tid, edited)))
      ensures r.Ok? <==> Apply(zone, old(Tables()), Call(now, today, Op.UpdateTemplate(tid, edited))).Some?
      ensures r.Ok? ==>
                && tid < |old(templates)| && r.value == edited.(classId := old(templates)[tid].classId)
                && Edited(zone, old(Tables()), Tables(), tid, r.value, now, today)
    {
      EditPlan(zone, Tables(), now, today, tid, edited);
      assert RowsValid(sessions);
      hide Edited, Apply, Step, Zone.Regular, RowsValid, NewRows, CanExtend, Covered, Rewritten;
      hide State.Valid, Template.Valid;
      if tid >= |templates| {
        return Refused;
      }
      var t := edited.(classId := templates[tid].classId);
      if !t.Valid() {
        return Refused;
      }
      var savedTemplates, savedSessions := templates, sessions;
      templates := templates[tid := t];
      var rewritten := RewriteFuture(tid, t, now);
      if rewritten.Refused? {
        templates, sessions := savedTemplates, savedSessions;
        return Refused;
      }
      RewrittenTablesValid(zone, State(savedTemplates, savedSessions), tid, t, now);
      var count := MaterializeHorizon(tid, t, today);
      if count.Refused? {
        templates, sessions := savedTemplates, savedSessions;
        return Refused;
      }
      r := Ok(t);
    }

    method DeactivateTemplate(tid: nat, now: int, ghost today: int) returns (r: Reply<Template>)
      requires Valid()
      modifies this`templates, this`sessions
      ensures Valid() && Tables() == Step(zone, old(Tables()), Call(now, today, Op.DeactivateTemplate(tid)))
      ensures r.Ok? <==> tid < |old(templates)|
      ensures r.Ok? ==> r.value == templates[tid]
    {
      StepKeepsValid(zone, Tables(), Call(now, today, Op.DeactivateTemplate(tid)));
      hide Zone.Regular, RowsValid;
      if tid >= |templates| {
        return Refused;
      }
      var future := ListForTemplateFuture(tid, now);
      ghost var before := sessions;
      ghost var after := CancelFuture(before, tid, now);
      for k := 0 to |future|
        invariant |sessions| == |before| && templates == old(templates)
        invariant forall i | 0 <= i < |before| :: sessions[i] == if i in future[..k] then after[i] else before[i]
      {
        var id := future[k];
        var s := sessions[id];
        assert future[..k + 1] == future[..k] + [id];
        assert id !in future[..k];
        if !s.status.Scheduled? || s.customized {
          continue;
        }
        sessions := sessions[id := s.(status := Cancelled, cancelledAt := Some(now),
            reason := Some("template deactivated"))];
      }
      assert future[..|future|] == future;
      assert sessions == after;
      templates := templates[tid := templates[tid].(active := false)];
      r := Ok(templates[tid]);
    }

    method CreateAdhocSession(
        classId: nat, startsAt: int, endsAt: int, head: Option<nat>, assistant: Option<nat>, notes: Option<string>,
        ghost now: int, ghost today: int)
      returns (r: Reply<nat>)
      requires Valid()
      modifies this`sessions
      ensures var row := AdhocRow(classId, startsAt, endsAt, head, assistant, notes);
              Valid() && Tables() == Step(zone, old(Tables()), Call(now, today, Op.CreateAdhoc(row)))
      ensures r.Ok? <==> startsAt < endsAt
      ensures r.Ok? ==> sessions == old(sessions) + [AdhocRow(classId, startsAt, endsAt, head, assistant, notes)]
      ensures r.Ok? ==> r.value == |old(sessions)|
    {
      ghost var asked := AdhocRow(classId, startsAt, endsAt, head, assistant, notes);
      StepKeepsValid(zone, Tables(), Call(now, today, Op.CreateAdhoc(asked)));
      hide Zone.Regular, RowsValid;
      var row := Session(None, classId, startsAt, endsAt, head, assistant, Scheduled, true, None, None, notes);
      if !row.Check() {
        return Refused;
      }
      sessions := sessions + [row];
      r := Ok(|sessions| - 1);
    }

    method UpdateSession(id: nat, patch: Patch, ghost now: int, ghost today: int) returns (r: Reply<Session>)
      requires Valid()
      modifies this`sessions
      ensures Valid() && Tables() == Step(zone, old(Tables()), Call(now, today, Op.UpdateSession(id, patch)))
      ensures r.Ok? <==> Apply(zone, old(Tables()), Call(now, today, Op.UpdateSession(id, patch))).Some?
      ensures r.Ok? ==> id < |sessions| && r.value == sessions[id]
    {
      StepKeepsValid(zone, Tables(), Call(now, today, Op.UpdateSession(id, patch)));
      hide Zone.Regular, RowsValid;
      if id >= |sessions| || !sessions[id].status.Scheduled? {
        return Refused;
      }
      if patch == Patch(None, None, None, None, None) {
        assert sessions[id := sessions[id]] == sessions;
        return Ok(sessions[id]);
      }
      var row := Edit(sessions[id], patch);
      UpdateValidExactly(sessions, row, id);
      if !row.Check() || KeyTakenByOther(sessions, row, id) {
        return Refused;
      }
      sessions := sessions[id := row];
      r := Ok(row);
    }

    method CancelSession(id: nat, why: Option<string>, now: int, ghost today: int) returns (r: Reply<Session>)
      requires Valid()
      modifies this`sessions
      ensures Valid() && Tables() == Step(zone, old(Tables()), Call(now, today, Op.CancelSession(id, why)))
      ensures r.Ok? <==> id < |old(sessions)| && old(sessions)[id].status.Scheduled?
      ensures r.Ok? ==> id < |sessions| && r.value == sessions[id]
    {
      StepKeepsValid(zone, Tables(), Call(now, today, Op.CancelSession(id, why)));
      hide Zone.Regular, RowsValid;
      if id >= |sessions| || !sessions[id].status.Scheduled? {
        return Refused;
      }
      var row := sessions[id].(status := Cancelled, cancelledAt := Some(now), reason := why, customized := true);
      sessions := sessions[id := row];
      r := Ok(row);
    }

    /** The substitute-pay part of `bulk_action`. */
    method LinkSubstitute(classId: nat, from: int, to: int, action: Action, pay: Option<SubstitutePay>, today: int)
      returns (accepted: bool)
      requires RolesUnique(links)
      modifies this`links
      ensures accepted <==> LinksAfter(old(links), classId, from, to, action, pay, today).Some?
      ensures links == Or(LinksAfter(old(links), classId, from, to, action, pay, today), old(links))
              && RolesUnique(links)
    {
      hide RoleTaken, HasRate, TemporaryLink, RolesUnique;
      if action.SwapCoach? && !HasRate(links, action.coach, classId, from, to, today) {
        if pay.None? {
          return false;
        }
        var row := TemporaryLink(action.coach, classId, from, to, pay.value);
        if RoleTaken(links, row) {
          return false;
        }
        RolesStayUnique(links, row);
        links := links + [row];
      }
      accepted := true;
    }

    /** `bulk_action`; the affected ids come back in table order. */
    method BulkAction(
        classId: nat, from: int, to: int, action: Action, pay: Option<SubstitutePay>, now: int, today: int)
      returns (r: Reply<seq<nat>>)
      requires Valid()
      modifies this`sessions, this`links
      ensures r.Refused? <==>
              to < from || from + 366 < to || LinksAfter(old(links), classId, from, to, action, pay, today).None?
      ensures Valid()
      ensures Tables() == if r.Ok?
                          then Step(zone, old(Tables()), Call(now, today, Op.BulkAction(classId, from, to, action)))
                                     else old(Tables())
      ensures links == if r.Ok? then LinksAfter(old(links), classId, from, to, action, pay, today).value else old(links)
      ensures r.Ok? ==> forall i: nat :: i in r.value <==>
              i < |old(sessions)| && InBulk(old(sessions)[i], classId, from, to)
      ensures r.Ok? ==> forall j, k | 0 <= j < k < |r.value| :: r.value[j] < r.value[k]
    {
      StepKeepsValid(zone, Tables(), Call(now, today, Op.BulkAction(classId, from, to, action)));
      hide Zone.Regular, RowsValid, InBulk, Act, RolesUnique, LinksAfter, Bulk;
      if to < from || to - from > 366 {
        return Refused;
      }
      var accepted := LinkSubstitute(classId, from, to, action, pay, today);
      if !accepted {
        return Refused;
      }
      ghost var linked := links;
      ghost var before := sessions;
      ghost var after := Bulk(before, classId, from, to, action, now);
      BulkAt(before, classId, from, to, action, now);
      var affected: seq<nat> := [];
      for i := 0 to |sessions|
        invariant |sessions| == |before| && links == linked
        invariant forall j | 0 <= j < |before| :: sessions[j] == if j < i then after[j] else before[j]
        invariant forall j: nat :: j in affected <==> j < i && InBulk(before[j], classId, from, to)
        invariant forall j | 0 <= j < |affected| :: affected[j] < i
        invariant forall j, k | 0 <= j < k < |affected| :: affected[j] < affected[k]
      {
        if InBulk(sessions[i], classId, from, to) {
          sessions := sessions[i := Act(sessions[i], action, now)];
          affected := affected + [i];
        }
      }
      assert sessions == after;
      r := Ok(affected);
    }

    /** `extend_horizon_for_template`: one transaction of the nightly job, for a template as it was when it was
        listed. */
    method ExtendHorizonForTemplate(tid: nat, listed: Template, today: int, ghost now: int) returns (r: Reply<nat>)
      requires Valid() && tid < |templates| && listed.Valid()
      modifies this`sessions
      ensures Valid() && Tables() == Step(zone, old(Tables()), Call(now, today, ExtendListed(tid, listed)))
      ensures r.Ok? <==> Apply(zone, old(Tables()), Call(now, today, ExtendListed(tid, listed))).Some?
      ensures r.Ok? ==> r.value == |sessions| - |old(sessions)|
    {
      StepKeepsValid(zone, Tables(), Call(now, today, ExtendListed(tid, listed)));
      hide Zone.Regular, RowsValid, NewRows, CanExtend, Covered;
      r := MaterializeHorizon(tid, listed, today);
    }

    /** `list_all_active`: the active templates, in an order the database chooses. */
    method ListAllActive() returns (order: seq<nat>)
      ensures ListsActive(templates, order)
    {
      order := [];
      for i := 0 to |templates|
        invariant forall k | 0 <= k < |order| :: order[k] < i && templates[order[k]].active
        invariant forall j | 0 <= j < i && templates[j].active :: j in order
        invariant forall j, k | 0 <= j < k < |order| :: order[j] != order[k]
      {
        if templates[i].active {
          order := order + [i];
        }
      }
    }

    /** `_run_extend_horizon`: one transaction for each active template, a failure rolled back and counted. */
    method RunExtendHorizon(today: int, ghost now: int) returns (report: NightlyReport, ghost order: seq<nat>)
      requires Valid()
      modifies this`sessions
      ensures ListsActive(templates, order)
      ensures Valid() && Tables() == Step(zone, old(Tables()), Call(now, today, Op.ExtendHorizons(order)))
      ensures report.templatesProcessed == |order|
      ensures report.sessionsCreated == |sessions| - |old(sessions)|
      ensures report.errors == Failures(zone, templates, order, today)
    {
      var list := ListAllActive();
      order := list;
      var processed, created, errors := 0, 0, 0;
      NightlyEnds(zone, Tables(), now, today, order);
      NightlyStarts(zone, templates, sessions, today);
      hide *;
      for k := 0 to |list|
        invariant Tables().Valid()
        invariant sessions == Nightly(zone, templates, old(sessions), list[..k], today)
        invariant processed == k && created == |sessions| - |old(sessions)|
        invariant errors == Failures(zone, templates, list[..k], today)
      {
        processed := processed + 1;
        NightlyStep(zone, old(Tables()), list, k, today);
        var count := MaterializeHorizon(list[k], templates[list[k]], today);
        match count
        case Ok(n) =>
          created := created + n;
        case Refused =>
          errors := errors + 1;
      }
      assert list[..|list|] == list;
      report := NightlyReport(processed, created, errors);
    }
  }

  /** The number of listed templates that cannot be extended. */
  function Failures(z: Zone, templates: seq<Template>, order: seq<nat>, today: int): nat
    requires forall i | 0 <= i < |order| :: order[i] < |templates|
  {
    if order == [] then 0
    else
      var tid := order[|order| - 1];
      Failures(z, templates, order[..|order| - 1], today)
      + if CanExtend(z, tid, templates[tid], Horizon(templates[tid], today)) then 0 else 1
  }

  lemma NightlyStarts(z: Zone, templates: seq<Template>, rows: Rows, today: int)
    ensures Nightly(z, templates, rows, [], today) == rows && Failures(z, templates, [], today) == 0
  {
  }

  /** One more template of the nightly loop. */
  lemma NightlyStep(z: Zone, st: State, order: seq<nat>, k: nat, today: int)
    requires z.Regular() && st.Valid() && k < |order|
    requires forall i | 0 <= i < |order| :: order[i] < |st.templates|
    ensures var before := Nightly(z, st.templates, st.rows, order[..k], today);
            var extended := Extended(z, before, order[k], st.templates[order[k]], today);
            && Nightly(z, st.templates, st.rows, order[..k + 1], today) == Or(extended, before)
            && Failures(z, st.templates, order[..k + 1], today) ==
               Failures(z, st.templates, order[..k], today) + if extended.None? then 1 else 0
    ensures State(st.templates, Nightly(z, st.templates, st.rows, order[..k + 1], today)).Valid()
  {
    hide Zone.Regular, State.Valid, NewRows, CanExtend, Covered;
    assert order[..k + 1][..k] == order[..k];
    NightlyKeepsValid(z, st, order[..k + 1], today);
  }

  lemma NightlyEnds(z: Zone, st: State, now: int, today: int, order: seq<nat>)
    requires z.Regular() && st.Valid() && ListsActive(st.templates, order)
    ensures forall i | 0 <= i < |order| :: order[i] < |st.templates|
    ensures var after := Step(z, st, Call(now, today, Op.ExtendHorizons(order)));
            after == State(st.templates, Nightly(z, st.templates, st.rows, order, today)) && after.Valid()
  {
    hide Zone.Regular, State.Valid, Nightly;
    StepKeepsValid(z, st, Call(now, today, Op.ExtendHorizons(order)));
  }

  // ----- What a coach swap means for payroll ---------------------------------------------------

  /** A session as payroll counts it. */
  function Payable(s: Session): Payroll.SessionRow {
    Payroll.SessionRow(s.head, s.classId, s.status.Scheduled?, s.startsAt)
  }

  function PayableRows(rows: Rows): seq<Payroll.SessionRow> {
    seq(|rows|, i requires 0 <= i < |rows| => Payable(rows[i]))
  }

  /** After a swap the query of payroll, asked for the whole range, finds exactly the sessions the swap acted on. */
  lemma QueryFindsSwapped(
      rows: Rows, classId: nat, from: int, to: int, coach: nat, now: int, b: Payroll.Books)
    requires b.sessions == PayableRows(Bulk(rows, classId, from, to, SwapCoach(coach), now))
    ensures Payroll.SessionIds(b, coach, classId, DayStart(from), DayStart(to + 1)) ==
            set i | 0 <= i < |rows| && InBulk(rows[i], classId, from, to)
  {
    hide DayStart;
    assert forall i | 0 <= i < |rows| ::
        b.sessions[i] ==
        Payable(if InBulk(rows[i], classId, from, to) then Act(rows[i], SwapCoach(coach), now) else rows[i]);
  }

  /** What a bulk action does to the pay links: a cancellation nothing; a swap nothing when one of the coach's links to
      the class overlaps the range and today does not lie after it, and else one link for the range with the given
      pay, unless there is no pay or the coach has the role already. */
  lemma LinksEffect(
      links: seq<CoachLink>, classId: nat, from: int, to: int, action: Action, pay: Option<SubstitutePay>, today: int)
    ensures LinksAfter(links, classId, from, to, action, pay, today) ==
            match action
            case Cancel(_) => Some(links)
            case SwapCoach(coach) =>
              if exists l | l in links ::
                  && l.coach == coach && l.link.classId == classId && l.link.startsOn <= to
                  && (l.link.endsOn.None? || (from <= l.link.endsOn.value && today <= l.link.endsOn.value))
              then Some(links)
              else if pay.None?
                      || exists l | l in links ::
                           l.coach == coach && l.link.classId == classId && l.link.role == Payroll.Substitute(from, to)
              then None
              else Some(links + [CoachLink(coach, Payroll.Link(classId, Payroll.Substitute(from, to), pay.value.model,
                                                               pay.value.amount, from, Some(to)))])
  {
    if action.SwapCoach? {
      if HasRate(links, action.coach, classId, from, to, today) {
        var k :| 0 <= k < |links|
                 && links[k].coach == action.coach && links[k].link.classId == classId
                 && Payroll.Overlaps(links[k].link, from, to)
                 && (links[k].link.endsOn.None? || today <= links[k].link.endsOn.value);
        assert links[k] in links;
      }
      if pay.Some? && RoleTaken(links, TemporaryLink(action.coach, classId, from, to, pay.value)) {
        var k :| 0 <= k < |links| && links[k].coach == action.coach && links[k].link.classId == classId
                 && links[k].link.role == Payroll.Substitute(from, to);
        assert links[k] in links;
      }
    }
  }

  /** The job's error count is the number of listed templates that lose a session to a spring-forward. */
  lemma {:induction false} FailuresAreSwallowed(z: Zone, templates: seq<Template>, order: seq<nat>, today: int)
    requires z.Regular() && forall t | t in templates :: t.Valid()
    requires forall i | 0 <= i < |order| :: order[i] < |templates|
    ensures Failures(z, templates, order, today) ==
            Count(order, (tid: nat) => tid < |templates| && SomeSwallowed(z, templates[tid], today))
  {
    hide Zone.Regular, SomeSwallowed, Extended, Template.Valid;
    if order != [] {
      var tid := order[|order| - 1];
      FailuresAreSwallowed(z, templates, order[..|order| - 1], today);
      assert templates[tid] in templates;
      ExtendedUnlessSwallowed(z, [], tid, templates[tid], today);
      ExtendedIffCanExtend(z, tid, templates[tid], today);
    }
  }

  lemma ExtendedIffCanExtend(z: Zone, tid: nat, t: Template, today: int)
    ensures Extended(z, [], tid, t, today).Some? <==> CanExtend(z, tid, t, Horizon(t, today))
  {
    hide CanExtend, Horizon, NewRows;
  }

  /** The coach has a pay link to the class on a day. */
  predicate LinkOn(links: seq<CoachLink>, coach: nat, classId: nat, day: int) {
    exists k | 0 <= k < |links| ::
      links[k].coach == coach && links[k].link.classId == classId && Payroll.Overlaps(links[k].link, day, day)
  }

  /** The days of an accepted swap that have a pay link afterwards: those that had one, and, when no current link
      touched the range at all, every one. */
  lemma LinkedDaysExactly(
      links: seq<CoachLink>, classId: nat, from: int, to: int, coach: nat,
      pay: Option<SubstitutePay>, today: int, d: int)
    requires LinksAfter(links, classId, from, to, SwapCoach(coach), pay, today).Some? && from <= d <= to
    ensures var after := LinksAfter(links, classId, from, to, SwapCoach(coach), pay, today).value;
            LinkOn(after, coach, classId, d) <==>
            LinkOn(links, coach, classId, d) || !HasRate(links, coach, classId, from, to, today)
  {
    if !HasRate(links, coach, classId, from, to, today) {
      var after := LinksAfter(links, classId, from, to, SwapCoach(coach), pay, today).value;
      assert Payroll.Overlaps(after[|links|].link, d, d);
    } else {
      assert LinksAfter(links, classId, from, to, SwapCoach(coach), pay, today) == Some(links);
    }
  }

  /** The coach has a link to the class on a day that is paid by the session. */
  predicate SessionLinkOn(links: seq<CoachLink>, coach: nat, classId: nat, day: int) {
    exists k | 0 <= k < |links| ::
      && links[k].coach == coach && links[k].link.classId == classId && links[k].link.model.PerSession?
      && Payroll.Overlaps(links[k].link, day, day)
  }

  /** The sessions that payroll pays a link for in a query: none unless it is paid by the session and the schedule is
      on, and then those of its coach and class in the query, clipped to the coach's lifetime and to the link. */
  function PaidSessions(b: Payroll.Books, c: Payroll.Coach, link: Payroll.Link, from: int, to: int): set<int> {
    var lo := Payroll.SpanFrom(link, Max(from, c.hiredAt));
    var hi := Payroll.SpanTo(link, Payroll.LifetimeEnd(c, to));
    if b.scheduleOn && link.model.PerSession? && lo <= hi
    then Payroll.SessionIds(b, c.id, link.classId, DayStart(lo), DayStart(hi + 1))
    else {}
  }

  /** What a query pays for a link by the session is its amount for each of those sessions. */
  lemma PaidSessionsArePaid(b: Payroll.Books, c: Payroll.Coach, link: Payroll.Link, from: int, to: int)
    requires b.scheduleOn && link.model.PerSession?
    ensures Payroll.LinkCents(b, c, link, from, to) == |PaidSessions(b, c, link, from, to)| * link.amount
  {
  }

  /** A query for the range pays a swapped session for one of the new coach's links if and only if the schedule is on,
      the coach is employed on the session's UTC day, and a link paid by the session is in force on it. */
  lemma SwappedSessionsAreCounted(
      rows: Rows, links: seq<CoachLink>, classId: nat, from: int, to: int, c: Payroll.Coach, now: int,
      b: Payroll.Books, i: nat)
    requires b.sessions == PayableRows(Bulk(rows, classId, from, to, SwapCoach(c.id), now))
    requires i < |rows| && InBulk(rows[i], classId, from, to)
    ensures var day := DayOf(rows[i].startsAt);
            (exists k | 0 <= k < |links| :: links[k].coach == c.id && i in PaidSessions(b, c, links[k].link, from, to))
            <==> b.scheduleOn && Payroll.Employed(c, day) && SessionLinkOn(links, c.id, classId, day)
  {
    var day := DayOf(rows[i].startsAt);
    assert b.sessions[i] == Payroll.SessionRow(Some(c.id), classId, true, rows[i].startsAt);
    DayOfBounds(rows[i].startsAt, from);
    DayOfBounds(rows[i].startsAt, to + 1);
    forall k | 0 <= k < |links|
      ensures i in PaidSessions(b, c, links[k].link, from, to) <==>
              && b.scheduleOn && Payroll.Employed(c, day) && links[k].link.model.PerSession?
              && links[k].link.classId == classId && Payroll.Overlaps(links[k].link, day, day)
    {
      DayOfBounds(rows[i].startsAt, Payroll.SpanFrom(links[k].link, Max(from, c.hiredAt)));
      DayOfBounds(rows[i].startsAt, Payroll.SpanTo(links[k].link, Payroll.LifetimeEnd(c, to)) + 1);
    }
  }

  /** Asking for the same swap again is accepted if and only if the range is not over: a past temporary link is no
      longer current, so the swap needs a second one, whose role is taken. */
  lemma RepeatedSwapExactly(
      links: seq<CoachLink>, classId: nat, from: int, to: int, coach: nat,
      pay: Option<SubstitutePay>, today: int, later: int)
    requires from <= to && today <= later && !HasRate(links, coach, classId, from, to, today)
    requires LinksAfter(links, classId, from, to, SwapCoach(coach), pay, today).Some?
    ensures var after := LinksAfter(links, classId, from, to, SwapCoach(coach), pay, today).value;
            LinksAfter(after, classId, from, to, SwapCoach(coach), pay, later) ==
            if later <= to then Some(after) else None
  {
    var after := links + [TemporaryLink(coach, classId, from, to, pay.value)];
    assert after[|links|] == TemporaryLink(coach, classId, from, to, pay.value);
    assert RoleTaken(after, after[|links|]);
    assert forall k | 0 <= k < |links| :: after[k] == links[k];
  }

  /** A swap of days 10 to 12, made on day 20 with pay given, is accepted once and refused the second time. */
  lemma PastSwapCannotBeRepeated()
    ensures var pay := Some(SubstitutePay(Payroll.PerSession, 100));
            var once := LinksAfter([], 0, 10, 12, SwapCoach(1), pay, 20);
            && once == Some([TemporaryLink(1, 0, 10, 12, pay.value)])
            && LinksAfter(once.value, 0, 10, 12, SwapCoach(1), pay, 20) == None
  {
    var pay := Some(SubstitutePay(Payroll.PerSession, 100));
    assert !HasRate([], 1, 0, 10, 12, 20);
    assert [] + [TemporaryLink(1, 0, 10, 12, pay.value)] == [TemporaryLink(1, 0, 10, 12, pay.value)];
    RepeatedSwapExactly([], 0, 10, 12, 1, pay, 20, 20);
  }

  /** A rate that overlaps the range is enough, however little of it is covered: with a link for day 10 alone, a swap of
      days 10 to 20 needs no pay, moves a session of day 15 to the new coach, and pays that coach nothing for it. */
  lemma RateOnOneDayIsEnough(s: Session, now: int)
    requires s.classId == 0 && s.status.Scheduled? && DayOf(s.startsAt) == 15
    ensures var link := Payroll.Link(0, Payroll.Named("assistant"), Payroll.PerSession, 100, 10, Some(10));
            var links, rows := [CoachLink(1, link)], Bulk([s], 0, 10, 20, SwapCoach(1), now);
            && LinksAfter(links, 0, 10, 20, SwapCoach(1), None, 10) == Some(links)
            && (forall d | 10 < d <= 20 :: !LinkOn(links, 1, 0, d))
            && rows[0].head == Some(1)
            && Payroll.TotalCents(
                Payroll.Books(true, PayableRows(rows), []), Payroll.Coach(1, 1, None, None), [link], 10, 20) == 0
  {
    var link := Payroll.Link(0, Payroll.Named("assistant"), Payroll.PerSession, 100, 10, Some(10));
    var links, rows := [CoachLink(1, link)], Bulk([s], 0, 10, 20, SwapCoach(1), now);
    assert Payroll.Overlaps(links[0].link, 10, 20);
    DayOfBounds(s.startsAt, 10);
    DayOfBounds(s.startsAt, 11);
    DayOfBounds(s.startsAt, 21);
    var b := Payroll.Books(true, PayableRows(rows), []);
    assert Payroll.SessionIds(b, 1, 0, DayStart(10), DayStart(11)) == {};
    assert [link][..0] == [];
  }

  lemma RewrittenTablesValid(z: Zone, st: State, tid: nat, t: Template, now: int)
    requires st.Valid() && tid < |st.templates| && t.Valid() && RowsValid(Rewritten(z, st.rows, tid, t, now))
    ensures State(st.templates[tid := t], Rewritten(z, st.rows, tid, t, now)).Valid()
  {
    hide RowsValid, Rewrite, IsTarget;
    TargetsKeepTemplate(z, st.rows, tid, t, now);
  }

  lemma BulkAt(rows: Rows, classId: nat, from: int, to: int, action: Action, now: int)
    ensures var after := Bulk(rows, classId, from, to, action, now);
            && |after| == |rows|
            && forall i | 0 <= i < |rows| ::
                 after[i] == if InBulk(rows[i], classId, from, to) then Act(rows[i], action, now) else rows[i]
  {
  }

  lemma RolesStayUnique(links: seq<CoachLink>, row: CoachLink)
    requires RolesUnique(links) && !RoleTaken(links, row)
    ensures RolesUnique(links + [row])
  {
    var after := links + [row];
    hide RoleTaken;
    forall k | 0 <= k < |after|
      ensures !RoleTaken(after[..k], after[k])
    {
      if k < |links| {
        assert after[..k] == links[..k];
      } else {
        assert after[..k] == links;
      }
    }
  }

  // ----- What the methods need -----------------------------------------------------------------

  lemma EarlierRowsDoNotTakeKey(z: Zone, rows: Rows, tid: nat, t: Template, dates: seq<int>, i: nat)
    requires z.Regular() && Increasing(dates) && i < |dates|
    ensures var row := TemplateRow(z, tid, t, dates[i]);
            KeyTaken(rows + NewRows(z, rows, tid, t, dates[..i]), row) <==> KeyTaken(rows, row)
  {
    hide Zone.Regular, StartsAt, EndsAt;
    var row := TemplateRow(z, tid, t, dates[i]);
    var some := NewRows(z, rows, tid, t, dates[..i]);
    var all := rows + some;
    NewRowsFacts(z, rows, tid, t, dates[..i]);
    forall k | 0 <= k < |some|
      ensures !some[k].SameKey(row)
    {
      assert some[k] in some;
      var d :| d in dates[..i] && some[k] == TemplateRow(z, tid, t, d);
      StartsGrow(z, t, d, dates[i]);
    }
    if KeyTaken(rows, row) {
      var k :| 0 <= k < |rows| && rows[k].SameKey(row);
      assert all[k].SameKey(row);
    }
  }

  lemma NothingYet(z: Zone, rows: Rows, tid: nat, t: Template, dates: seq<int>)
    ensures rows + NewRows(z, rows, tid, t, dates[..0]) == rows && CanExtend(z, tid, t, dates[..0])
  {
  }

  /** One more date of the horizon loop. */
  lemma HorizonStep(z: Zone, rows: Rows, tid: nat, t: Template, dates: seq<int>, i: nat)
    requires z.Regular() && Increasing(dates) && i < |dates|
    ensures var row, before := TemplateRow(z, tid, t, dates[i]), rows + NewRows(z, rows, tid, t, dates[..i]);
            && rows + NewRows(z, rows, tid, t, dates[..i + 1]) == before + (if KeyTaken(before, row) then [] else [row])
            && (CanExtend(z, tid, t, dates[..i + 1]) <==> CanExtend(z, tid, t, dates[..i]) && row.Check())
            && (!row.Check() ==> !CanExtend(z, tid, t, dates))
  {
    hide Zone.Regular, StartsAt, EndsAt, KeyTaken, Session.Check;
    assert dates[..i + 1][..i] == dates[..i] && dates[..i + 1] == dates[..i] + [dates[i]];
    assert dates[i] in dates;
    EarlierRowsDoNotTakeKey(z, rows, tid, t, dates, i);
  }

  /** `ux_sessions_template_starts` on an UPDATE: another row already has the new key. */
  predicate KeyTakenByOther(rows: Rows, row: Session, id: nat) {
    exists i | 0 <= i < |rows| :: i != id && rows[i].SameKey(row)
  }

  lemma UpdateValidExactly(rows: Rows, row: Session, id: nat)
    requires RowsValid(rows) && id < |rows|
    ensures RowsValid(rows[id := row]) <==> row.Check() && !KeyTakenByOther(rows, row, id)
  {
    var after := rows[id := row];
    if row.Check() && !KeyTakenByOther(rows, row, id) {
      forall i, j | 0 <= i < j < |after|
        ensures !after[i].SameKey(after[j])
      {
        if i == id {
          assert !rows[j].SameKey(row);
        } else if j == id {
          assert !rows[i].SameKey(row);
        } else {
          assert !rows[i].SameKey(rows[j]);
        }
      }
    } else if !row.Check() {
      assert after[id] == row;
    } else {
      var i :| 0 <= i < |rows| && i != id && rows[i].SameKey(row);
      assert after[i].SameKey(after[id]) && after[id].SameKey(after[i]);
    }
  }

  lemma UpdateKeepsValid(rows: Rows, row: Session, id: nat)
    requires RowsValid(rows) && id < |rows| && row.Check() && !KeyTakenByOther(rows, row, id)
    ensures RowsValid(rows[id := row])
  {
    UpdateValidExactly(rows, row, id);
  }

  /** Halfway through the rewrite, a rejected row is rejected for good: the finished rewrite breaks the same constraint.
      The row in the way has the moved row's local date, so if it is to move itself it moves to the same start. */
  lemma MovedRowCollides(
      z: Zone, before: Rows, work: Rows, after: Rows, tid: nat, t: Template, now: int, done: seq<nat>, id: nat)
    requires z.Regular() && t.Valid() && after == Rewritten(z, before, tid, t, now) && |work| == |before|
    requires forall i | 0 <= i < |before| :: work[i] == if i in done then after[i] else before[i]
    requires id < |before| && id !in done && IsTarget(before[id], tid, now)
    requires !after[id].Check() || KeyTakenByOther(work, after[id], id)
    ensures !RowsValid(after)
  {
    hide Zone.Regular, Zone.LocalDate, EndsAt, StartsAt;
    if after[id].Check() {
      var j :| 0 <= j < |work| && j != id && work[j].SameKey(after[id]);
      var day := z.LocalDate(before[id].startsAt);
      if j !in done && IsTarget(before[j], tid, now) {
        StartsOnItsDate(z, t, day);
        assert z.LocalDate(before[j].startsAt) == day;
      }
      assert after[j].SameKey(after[id]) && after[id].SameKey(after[j]);
    }
  }
}
