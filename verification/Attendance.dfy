/** Check-ins and quotas: `attendance_service.py` over the table of migration 0010.

    Every member's live subscription and plan are fixed.  Instants are microseconds, all in UTC.
 */
module Attendance {
  import opened Basics
  import opened Calendar
  import opened Sums
  import Subscriptions

  // ----- Reset windows -------------------------------------------------------------------------

  datatype Reset = Weekly | Monthly | BillingPeriod | Never | Unlimited

  /** 1 January 1970. */
  const EPOCH: int := 719_163

  /** `_compute_window_start`. */
  function WindowStart(r: Reset, now: int, startedAt: int, billing: Subscriptions.Billing): int {
    var day := DayOf(now);
    match r
    case Weekly =>
      var daysSinceSunday := ((day + 6) % 7 + 1) % 7;
      DayStart(day - daysSinceSunday)
    case Monthly => Date(FromOrdinal(day).year, FromOrdinal(day).month, 1).Ordinal() * DAY
    case BillingPeriod =>
      var days := Subscriptions.PeriodDays(billing);
      var start := DayStart(startedAt);
      var cyclesDone := ((now - start) / DAY) / days;
      start + cyclesDone * days * DAY
    case Never => DayStart(startedAt)
    case Unlimited => DayStart(EPOCH)
  }

  predicate Resets(r: Reset) { r.Weekly? || r.Monthly? || r.BillingPeriod? }

  /** Where the window that starts at `start` ends: 7 days, one calendar month or one billing period later. */
  function WindowEnd(r: Reset, start: int, billing: Subscriptions.Billing): int {
    match r
    case Weekly => start + 7 * DAY
    case Monthly => DayStart(MonthStart(MonthOf(DayOf(start)) + 1))
    case _ => start + Subscriptions.PeriodDays(billing) * DAY
  }

  lemma DayRange(t: int, first: int, end: int)
    ensures DayStart(first) <= t < DayStart(end) <==> first <= DayOf(t) < end
    ensures DayStart(first) == DayStart(end) <==> first == end
  {
    DayOfBounds(t, first);
    DayOfBounds(t, end);
  }

  lemma WeekOf(x: int, y: int)
    ensures var s := x - ((x + 6) % 7 + 1) % 7;
            && s <= x < s + 7
            && (y - ((y + 6) % 7 + 1) % 7 == s <==> s <= y < s + 7)
  {
    assert ((x + 6) % 7 + 1) % 7 == x % 7;
    assert ((y + 6) % 7 + 1) % 7 == y % 7;
  }

  lemma WeekWindow(now: int, t: int)
    ensures var s := WindowStart(Weekly, now, 0, Subscriptions.Monthly);
            && s <= now < s + 7 * DAY
            && (WindowStart(Weekly, t, 0, Subscriptions.Monthly) == s <==> s <= t < s + 7 * DAY)
  {
    var x, y := DayOf(now), DayOf(t);
    var s := x - ((x + 6) % 7 + 1) % 7;
    WeekOf(x, y);
    assert DayStart(s + 7) == DayStart(s) + 7 * DAY;
    hide DayOf, DayStart;
    DayRange(now, s, s + 7);
    DayRange(t, s, s + 7);
    DayRange(t, y - ((y + 6) % 7 + 1) % 7, s);
  }

  lemma MonthWindow(now: int, t: int)
    ensures var m := MonthOf(DayOf(now));
            && WindowStart(Monthly, now, 0, Subscriptions.Monthly) == DayStart(MonthStart(m))
            && DayStart(MonthStart(m)) <= now < DayStart(MonthStart(m + 1))
            && MonthOf(DayOf(DayStart(MonthStart(m)))) == m
            && (WindowStart(Monthly, t, 0, Subscriptions.Monthly) == DayStart(MonthStart(m)) <==>
                DayStart(MonthStart(m)) <= t < DayStart(MonthStart(m + 1)))
  {
    var m, k := MonthOf(DayOf(now)), MonthOf(DayOf(t));
    hide *;
    FirstOfMonth(now);
    FirstOfMonth(t);
    SameMonth(DayOf(now), DayOf(t));
    Midnight(MonthStart(m));
    DayRange(now, MonthStart(m), MonthStart(m + 1));
    DayRange(t, MonthStart(m), MonthStart(m + 1));
    DayRange(t, MonthStart(k), MonthStart(m));
  }

  lemma Midnight(day: int)
    ensures DayOf(DayStart(day)) == day
  {
  }

  lemma SameMonth(x: int, y: int)
    ensures var m := MonthOf(x);
            && MonthStart(m) <= x < MonthStart(m + 1)
            && MonthOf(MonthStart(m)) == m
            && (MonthStart(MonthOf(y)) == MonthStart(m) <==> MonthStart(m) <= y < MonthStart(m + 1))
  {
    hide MonthOf, MonthStart;
    var m, k := MonthOf(x), MonthOf(y);
    MonthStartGrows(m, m + 1);
    MonthOfUnique(MonthStart(m), m);
    if k < m {
      MonthStartGrows(k, m);
      MonthStartGrows(k + 1, m);
    } else if m < k {
      MonthStartGrows(m, k);
      MonthStartGrows(m + 1, k);
    }
  }

  lemma FirstOfMonth(t: int)
    ensures WindowStart(Monthly, t, 0, Subscriptions.Monthly) == DayStart(MonthStart(MonthOf(DayOf(t))))
  {
    hide MonthOf, MonthStart, Date.Ordinal, DayOf, FromOrdinal;
    var d := FromOrdinal(DayOf(t));
    DateInMonth(d);
    DateInMonth(d.(day := 1));
  }

  lemma PeriodOf30(x: int, y: int)
    ensures x / 30 * 30 <= x < x / 30 * 30 + 30
    ensures y / 30 * 30 == x / 30 * 30 <==> x / 30 * 30 <= y < x / 30 * 30 + 30
  {
  }

  lemma PeriodOf90(x: int, y: int)
    ensures x / 90 * 90 <= x < x / 90 * 90 + 90
    ensures y / 90 * 90 == x / 90 * 90 <==> x / 90 * 90 <= y < x / 90 * 90 + 90
  {
  }

  lemma PeriodOf365(x: int, y: int)
    ensures x / 365 * 365 <= x < x / 365 * 365 + 365
    ensures y / 365 * 365 == x / 365 * 365 <==> x / 365 * 365 <= y < x / 365 * 365 + 365
  {
  }

  lemma PeriodStart(t: int, startedAt: int, billing: Subscriptions.Billing)
    ensures var n := Subscriptions.PeriodDays(billing);
            n in {30, 90, 365}
            && WindowStart(BillingPeriod, t, startedAt, billing) == DayStart(startedAt + (DayOf(t) - startedAt) / n * n)
  {
    assert (t - DayStart(startedAt)) / DAY == DayOf(t) - startedAt;
  }

  lemma PeriodWindow(now: int, t: int, startedAt: int, billing: Subscriptions.Billing)
    ensures var s := WindowStart(BillingPeriod, now, startedAt, billing);
            var length := Subscriptions.PeriodDays(billing) * DAY;
            && s <= now < s + length
            && (WindowStart(BillingPeriod, t, startedAt, billing) == s <==> s <= t < s + length)
  {
    var n := Subscriptions.PeriodDays(billing);
    var x, y := DayOf(now) - startedAt, DayOf(t) - startedAt;
    PeriodStart(now, startedAt, billing);
    PeriodStart(t, startedAt, billing);
    PeriodOf30(x, y);
    PeriodOf90(x, y);
    PeriodOf365(x, y);
    var first := startedAt + x / n * n;
    assert DayStart(first + n) == DayStart(first) + n * DAY;
    hide DayOf, DayStart, WindowStart, Subscriptions.PeriodDays;
    DayRange(now, first, first + n);
    DayRange(t, first, first + n);
    DayRange(t, startedAt + y / n * n, first);
  }

  /** Weekly, monthly and billing-period windows partition time, before the subscription's start as well: an instant
      lies in its own window, and an instant has this window's start exactly when it lies in this window. */
  lemma WindowsPartitionTime(r: Reset, now: int, t: int, startedAt: int, billing: Subscriptions.Billing)
    requires Resets(r)
    ensures var s := WindowStart(r, now, startedAt, billing);
            && s <= now < WindowEnd(r, s, billing)
            && (WindowStart(r, t, startedAt, billing) == s <==> s <= t < WindowEnd(r, s, billing))
  {
    hide MonthOf, MonthStart;
    match r
    case Weekly => WeekWindow(now, t);
    case Monthly => MonthWindow(now, t);
    case BillingPeriod => PeriodWindow(now, t, startedAt, billing);
  }

  /** The window start is at or before now, is its own window start, never goes back, and the next window starts
      where this one ends. */
  lemma WindowStartLaws(r: Reset, now: int, later: int, startedAt: int, billing: Subscriptions.Billing)
    requires Resets(r) && now <= later
    ensures var s := WindowStart(r, now, startedAt, billing);
            && WindowStart(r, s, startedAt, billing) == s
            && s <= WindowStart(r, later, startedAt, billing)
            && WindowStart(r, WindowEnd(r, s, billing), startedAt, billing) == WindowEnd(r, s, billing)
  {
    hide WindowStart, WindowEnd;
    var s := WindowStart(r, now, startedAt, billing);
    var u := WindowStart(r, later, startedAt, billing);
    var end := WindowEnd(r, s, billing);
    WindowsPartitionTime(r, now, s, startedAt, billing);
    WindowsPartitionTime(r, later, now, startedAt, billing);
    // The window of `end` cannot reach back into this one.
    var e := WindowStart(r, end, startedAt, billing);
    WindowsPartitionTime(r, now, end, startedAt, billing);
    WindowsPartitionTime(r, end, end - 1, startedAt, billing);
    WindowsPartitionTime(r, now, end - 1, startedAt, billing);
  }

  /** Where the windows start: weeks on Sundays, months on their first day, billing periods a whole number of periods
      from the subscription's start, the one window of a rule that never resets at that start; always at midnight
      UTC. */
  lemma WindowAnchors(r: Reset, now: int, startedAt: int, billing: Subscriptions.Billing)
    requires !r.Unlimited?
    ensures var s := WindowStart(r, now, startedAt, billing);
            var day := DayOf(s);
            && s == day * 86_400_000_000
            && (r == Weekly ==> day % 7 == 0)
            && (r == Monthly ==> day == MonthStart(MonthOf(day)))
            && (r == Never ==> day == startedAt)
            && (r == BillingPeriod ==>
                  (day - startedAt) %
                  (if billing == Subscriptions.Quarterly then 90
                   else if billing == Subscriptions.Yearly then 365 else 30) == 0)
  {
    match r
    case Weekly => WeekAnchor(now, startedAt, billing);
    case Monthly => MonthAnchor(now, startedAt, billing);
    case BillingPeriod => PeriodAnchor(now, startedAt, billing);
    case Never => Midnight(startedAt);
  }

  lemma WeekAnchor(now: int, startedAt: int, billing: Subscriptions.Billing)
    ensures var s := WindowStart(Weekly, now, startedAt, billing);
            s == DayOf(s) * 86_400_000_000 && DayOf(s) % 7 == 0
  {
    var day := DayOf(now);
    Midnight(day - ((day + 6) % 7 + 1) % 7);
    hide DayOf;
    assert ((day + 6) % 7 + 1) % 7 == day % 7;
  }

  lemma MonthAnchor(now: int, startedAt: int, billing: Subscriptions.Billing)
    ensures var s := WindowStart(Monthly, now, startedAt, billing);
            s == DayOf(s) * 86_400_000_000 && DayOf(s) == MonthStart(MonthOf(DayOf(s)))
  {
    var m := MonthOf(DayOf(now));
    assert WindowStart(Monthly, now, startedAt, billing) == WindowStart(Monthly, now, 0, Subscriptions.Monthly);
    FirstOfMonth(now);
    Midnight(MonthStart(m));
    SameMonth(DayOf(now), DayOf(now));
    assert DayStart(MonthStart(m)) == MonthStart(m) * 86_400_000_000;
    hide *;
  }

  lemma PeriodAnchor(now: int, startedAt: int, billing: Subscriptions.Billing)
    ensures var s := WindowStart(BillingPeriod, now, startedAt, billing);
            && s == DayOf(s) * 86_400_000_000
            && (DayOf(s) - startedAt) %
               (if billing == Subscriptions.Quarterly then 90 else if billing == Subscriptions.Yearly then 365 else 30)
               == 0
  {
    PeriodStart(now, startedAt, billing);
    var n := Subscriptions.PeriodDays(billing);
    var k := (DayOf(now) - startedAt) / n;
    Midnight(startedAt + k * n);
    WholePeriods(k, n);
  }

  lemma WholePeriods(k: int, n: int)
    requires n in {30, 90, 365}
    ensures k * n % n == 0
  {
  }

  // ----- Entitlements --------------------------------------------------------------------------

  datatype Entitlement = Entitlement(classId: Option<nat>, quantity: Option<nat>, reset: Reset) {
    /** `ck_entitlements_quantity_shape` and `ck_entitlements_quantity_positive`. */
    predicate Valid() {
      (reset.Unlimited? <==> quantity.None?) && (quantity.Some? ==> quantity.value > 0)
    }
  }

  /** The first entitlement for exactly this class reference. */
  function First(ents: seq<Entitlement>, classId: Option<nat>, from: nat := 0): (r: Option<nat>)
    requires from <= |ents|
    ensures r.Some? ==> from <= r.value < |ents| && ents[r.value].classId == classId
    ensures forall j | from <= j < (if r.Some? then r.value else |ents|) :: ents[j].classId != classId
    decreases |ents| - from
  {
    if from == |ents| then None
    else if ents[from].classId == classId then Some(from)
    else First(ents, classId, from + 1)
  }

  /** `_find_matching_entitlement`: the exact rule wins over the wildcard, the first of each kind over the others. */
  function Match(ents: seq<Entitlement>, classId: nat): (r: Option<nat>)
    ensures r.Some? ==> r.value < |ents| && ents[r.value].classId in {Some(classId), None}
    ensures r.Some? ==> forall j | 0 <= j < r.value :: ents[j].classId != ents[r.value].classId
    ensures r.Some? && ents[r.value].classId.None? ==> forall j | 0 <= j < |ents| :: ents[j].classId != Some(classId)
    ensures r.None? ==> forall j | 0 <= j < |ents| :: ents[j].classId != Some(classId) && ents[j].classId != None
  {
    var exact := First(ents, Some(classId));
    if exact.Some? then exact else First(ents, None)
  }

  // ----- Entries -------------------------------------------------------------------------------

  datatype OverrideKind = QuotaExceeded | NotCovered

  datatype Entry = Entry(
    member: nat, sub: nat, classId: nat, enteredAt: int, undoneAt: Option<int>, override: Option<OverrideKind>)
  {
    predicate IsEffective() { undoneAt.None? }

    predicate CanUndo(now: int) { undoneAt.None? && now - enteredAt <= DAY }
  }

  /** A member's live subscription, with what its plan grants. */
  datatype Membership = Membership(
    sub: nat, startedAt: int, billing: Subscriptions.Billing, entitlements: seq<Entitlement>)

  type Memberships = map<nat, Membership>

  function Counted(member: nat, classId: Option<nat>, since: int): Entry -> bool {
    (e: Entry) =>
      e.member == member && e.IsEffective() && since <= e.enteredAt && (classId.Some? ==> e.classId == classId.value)
  }

  /** `count_effective_entries`. */
  function Used(entries: seq<Entry>, member: nat, classId: Option<nat>, since: int): nat {
    Count(entries, Counted(member, classId, since))
  }

  datatype Check =
    | Free(rule: nat)
    | Metered(rule: nat, used: nat, quantity: nat, remaining: nat)
    | Uncovered
  {
    predicate Allowed() {
      match this case Free(_) => true case Metered(_, used, quantity, _) => used < quantity case Uncovered => false
    }
  }

  function Start(m: Membership, rule: nat, now: int): int
    requires rule < |m.entitlements|
  {
    WindowStart(m.entitlements[rule].reset, now, m.startedAt, m.billing)
  }

  /** `_quota_check_for_sub` and `_quota_for_entitlement`. */
  function QuotaCheck(m: Membership, entries: seq<Entry>, member: nat, classId: nat, now: int): Check {
    match Match(m.entitlements, classId)
    case None => Uncovered
    case Some(i) =>
      var e := m.entitlements[i];
      if e.reset.Unlimited? then Free(i)
      else
        var used := Used(entries, member, e.classId, Start(m, i, now));
        var quantity := Or(e.quantity, 0);
        Metered(i, used, quantity, Max(0, quantity - used))
  }

  datatype Outcome =
    | Recorded(id: nat)
    | Undone
    | NoActiveSubscription
    | OverQuota(used: nat, quantity: nat)
    | ClassNotCovered
    | EntryNotFound
    | AlreadyUndone
    | UndoWindowExpired

  /** The service reads its own clock for the quota (`now`); the database stamps the row with its own (`enteredAt`). */
  datatype Call =
    | CheckIn(member: nat, classId: nat, override: bool, now: int, enteredAt: int)
    | Undo(id: nat, at: int)

  /** `record_entry`. */
  function RecordOutcome(ms: Memberships, entries: seq<Entry>, member: nat, classId: nat, override: bool, now: int)
    : Outcome
  {
    if member !in ms then NoActiveSubscription
    else
      var check := QuotaCheck(ms[member], entries, member, classId, now);
      if check.Allowed() || override then Recorded(|entries|)
      else match check
           case Metered(_, used, quantity, _) => OverQuota(used, quantity)
           case _ => ClassNotCovered
  }

  function NewEntry(ms: Memberships, entries: seq<Entry>, c: Call): Entry
    requires c.CheckIn? && c.member in ms
  {
    var check := QuotaCheck(ms[c.member], entries, c.member, c.classId, c.now);
    Entry(c.member, ms[c.member].sub, c.classId, c.enteredAt, None,
          if check.Allowed() then None else if check.Metered? then Some(QuotaExceeded) else Some(NotCovered))
  }

  /** `undo`. */
  function UndoOutcome(entries: seq<Entry>, id: nat, now: int): Outcome {
    if id >= |entries| then EntryNotFound
    else if entries[id].undoneAt.Some? then AlreadyUndone
    else if !entries[id].CanUndo(now) then UndoWindowExpired
    else Undone
  }

  function Step(ms: Memberships, entries: seq<Entry>, c: Call): seq<Entry> {
    match c
    case CheckIn(member, classId, override, now, _) =>
      if RecordOutcome(ms, entries, member, classId, override, now).Recorded? then entries + [NewEntry(ms, entries, c)]
      else entries
    case Undo(id, at) =>
      if UndoOutcome(entries, id, at).Undone? then entries[id := entries[id].(undoneAt := Some(at))] else entries
  }

  function Run(ms: Memberships, calls: seq<Call>): seq<Entry> {
    if calls == [] then [] else Step(ms, Run(ms, calls[..|calls| - 1]), calls[|calls| - 1])
  }

  // ----- Replies and rows, column by column ----------------------------------------------------

  /** The member's effective entries since an instant, of one class or of all. */
  ghost function Since(entries: seq<Entry>, member: nat, classId: Option<nat>, since: int): set<int> {
    set j | 0 <= j < |entries| && entries[j].member == member && entries[j].undoneAt == None
            && since <= entries[j].enteredAt && (classId.None? || entries[j].classId == classId.value)
  }

  lemma UsedIsSince(entries: seq<Entry>, member: nat, classId: Option<nat>, since: int)
    ensures Used(entries, member, classId, since) == |Since(entries, member, classId, since)|
  {
    CountIsCardinality(entries, Counted(member, classId, since));
    hide Count;
    assert Where(entries, Counted(member, classId, since)) == Since(entries, member, classId, since);
  }

  /** How many entries the rule counts for a check at an instant. */
  ghost function Spent(m: Membership, entries: seq<Entry>, member: nat, rule: nat, now: int): nat
    requires rule < |m.entitlements|
  {
    var e := m.entitlements[rule];
    |Since(entries, member, e.classId, WindowStart(e.reset, now, m.startedAt, m.billing))|
  }

  /** A rule lets a check-in through when it is unlimited or not yet spent. */
  ghost predicate HasRoom(m: Membership, entries: seq<Entry>, member: nat, rule: nat, now: int)
    requires rule < |m.entitlements|
  {
    var e := m.entitlements[rule];
    e.reset == Unlimited || Spent(m, entries, member, rule, now) < (if e.quantity.Some? then e.quantity.value else 0)
  }

  /** What a quota check reports: nothing to count without a rule or under an unlimited one, and else what was used of
      how much, and how much remains. */
  lemma QuotaCheckFigures(m: Membership, entries: seq<Entry>, member: nat, classId: nat, now: int)
    ensures var check, rule := QuotaCheck(m, entries, member, classId, now), Match(m.entitlements, classId);
            && (check == Uncovered <==> rule.None?)
            && (check.Free? <==> rule.Some? && m.entitlements[rule.value].reset == Unlimited)
            && (check.Free? ==> check.rule == rule.value)
            && (check.Metered? ==>
                  var q := m.entitlements[rule.value].quantity;
                  && check.rule == rule.value
                  && check.used == Spent(m, entries, member, rule.value, now)
                  && check.quantity == (if q.Some? then q.value else 0)
                  && check.remaining ==
                     if check.used < check.quantity then check.quantity - check.used else 0)
  {
    hide WindowStart, Used, Since;
    match Match(m.entitlements, classId)
    case None =>
    case Some(i) =>
      var e := m.entitlements[i];
      UsedIsSince(entries, member, e.classId, WindowStart(e.reset, now, m.startedAt, m.billing));
  }

  /** A check-in: who is refused and why, who is recorded, and with which override. */
  ghost predicate Answered(
      ms: Memberships, before: seq<Entry>, after: seq<Entry>, c: Call, r: Outcome)
    requires c.CheckIn?
  {
    if c.member !in ms then r == NoActiveSubscription && after == before
    else
      var m := ms[c.member];
      var rule := Match(m.entitlements, c.classId);
      var free := rule.Some? && HasRoom(m, before, c.member, rule.value, c.now);
      if free || c.override then
        && r == Recorded(|before|)
        && after == before + [Entry(c.member, m.sub, c.classId, c.enteredAt, None,
                                    if free then None
                                    else if rule.Some? then Some(QuotaExceeded) else Some(NotCovered))]
      else
        && after == before
        && (rule.None? ==> r == ClassNotCovered)
        && (rule.Some? ==>
              var q := m.entitlements[rule.value].quantity;
              r == OverQuota(Spent(m, before, c.member, rule.value, c.now), if q.Some? then q.value else 0))
  }

  /** A check-in is recorded if and only if an override is given or the matched rule is unlimited or has room; the entry
      says whether it needed an override and why; a refusal says how much was used of how much, or that no rule
      matches. */
  lemma RecordEffect(ms: Memberships, entries: seq<Entry>, c: Call)
    requires c.CheckIn?
    ensures Answered(ms, entries, Step(ms, entries, c), c,
                     RecordOutcome(ms, entries, c.member, c.classId, c.override, c.now))
  {
    hide WindowStart, Used, Since;
    if c.member in ms {
      var m := ms[c.member];
      match Match(m.entitlements, c.classId)
      case None =>
      case Some(i) =>
        var e := m.entitlements[i];
        UsedIsSince(entries, c.member, e.classId, WindowStart(e.reset, c.now, m.startedAt, m.billing));
    }
  }

  /** An undo is accepted if and only if the entry exists, was not undone, and was made at most 24 hours ago; it marks
      that entry and changes nothing else. */
  ghost predicate UndoAnswered(before: seq<Entry>, after: seq<Entry>, id: nat, now: int, r: Outcome) {
    if id >= |before| then r == EntryNotFound && after == before
    else if before[id].undoneAt != None then r == AlreadyUndone && after == before
    else if now - before[id].enteredAt > 24 * 3_600_000_000 then r == UndoWindowExpired && after == before
    else r == Undone && after == before[id := before[id].(undoneAt := Some(now))]
  }

  lemma UndoEffect(ms: Memberships, entries: seq<Entry>, id: nat, now: int)
    ensures UndoAnswered(entries, Step(ms, entries, Undo(id, now)), id, now, UndoOutcome(entries, id, now))
  {
  }

  class AttendanceService {
    const memberships: Memberships
    var entries: seq<Entry>

    constructor (memberships: Memberships)
      ensures this.memberships == memberships && entries == []
    {
      this.memberships, entries := memberships, [];
    }

    method RecordEntry(member: nat, classId: nat, override: bool, now: int, enteredAt: int) returns (r: Outcome)
      modifies this
      ensures r == RecordOutcome(memberships, old(entries), member, classId, override, now)
      ensures entries == Step(memberships, old(entries), CheckIn(member, classId, override, now, enteredAt))
      ensures Answered(memberships, old(entries), entries, CheckIn(member, classId, override, now, enteredAt), r)
    {
      RecordEffect(memberships, entries, CheckIn(member, classId, override, now, enteredAt));
      hide Answered;
      if member !in memberships {
        return NoActiveSubscription;
      }
      var m := memberships[member];
      var check := QuotaCheck(m, entries, member, classId, now);
      var kind := None;
      if !check.Allowed() {
        if !override {
          if check.Metered? {
            return OverQuota(check.used, check.quantity);
          }
          return ClassNotCovered;
        }
        kind := Some(if check.Metered? then QuotaExceeded else NotCovered);
      }
      r := Recorded(|entries|);
      entries := entries + [Entry(member, m.sub, classId, enteredAt, None, kind)];
    }

    method UndoEntry(id: nat, now: int) returns (r: Outcome)
      modifies this
      ensures r == UndoOutcome(old(entries), id, now)
      ensures entries == Step(memberships, old(entries), Undo(id, now))
      ensures UndoAnswered(old(entries), entries, id, now, r)
    {
      if id >= |entries| {
        return EntryNotFound;
      }
      var entry := entries[id];
      if entry.undoneAt.Some? {
        return AlreadyUndone;
      }
      if !entry.CanUndo(now) {
        return UndoWindowExpired;
      }
      entries := entries[id := entry.(undoneAt := Some(now))];
      r := Undone;
    }
  }

  // ----- The quota over runs -------------------------------------------------------------------

  predicate MeteredRule(ms: Memberships, member: nat, i: nat) {
    && member in ms && i < |ms[member].entitlements|
    && ms[member].entitlements[i].Valid() && !ms[member].entitlements[i].reset.Unlimited?
  }

  function Quantity(ms: Memberships, member: nat, i: nat): nat
    requires MeteredRule(ms, member, i)
  {
    ms[member].entitlements[i].quantity.value
  }

  /** The member's effective entries that used rule `i` without override, whenever they were made. */
  function OnRule(m: Membership, member: nat, i: nat): Entry -> bool
    requires i < |m.entitlements|
  {
    (e: Entry) =>
      e.member == member && e.IsEffective() && e.override.None? && Match(m.entitlements, e.classId) == Some(i)
  }

  /** Those of them that stand in the window that starts at `w`. */
  function OnQuota(m: Membership, member: nat, i: nat, w: int): Entry -> bool
    requires i < |m.entitlements|
  {
    (e: Entry) => OnRule(m, member, i)(e) && Start(m, i, e.enteredAt) == w && w <= e.enteredAt
  }

  /** A check-in of the member against rule `i`. */
  predicate UsesRule(ms: Memberships, c: Call, member: nat, i: nat)
    requires MeteredRule(ms, member, i)
  {
    c.CheckIn? && c.member == member && Match(ms[member].entitlements, c.classId) == Some(i)
  }

  /** A check-in that finds room in the window of the service's clock, so that no override is needed. */
  predicate LetThrough(ms: Memberships, entries: seq<Entry>, c: Call, member: nat, i: nat)
    requires MeteredRule(ms, member, i)
  {
    && UsesRule(ms, c, member, i)
    && Used(entries, member, ms[member].entitlements[i].classId, Start(ms[member], i, c.now)) < Quantity(ms, member, i)
  }

  function PlainEntry(m: Membership, c: Call): Entry
    requires c.CheckIn?
  {
    Entry(c.member, m.sub, c.classId, c.enteredAt, None, None)
  }

  /** A check-in that is let through although the entries `p`, to which its row belongs, fill the quantity already. */
  predicate Slips(ms: Memberships, entries: seq<Entry>, c: Call, member: nat, i: nat, p: Entry -> bool)
    requires MeteredRule(ms, member, i)
  {
    && LetThrough(ms, entries, c, member, i) && p(PlainEntry(ms[member], c))
    && Count(entries, p) == Quantity(ms, member, i)
  }

  /** What one call does to a count of entries that used rule `i` without override. */
  lemma StepCount(ms: Memberships, entries: seq<Entry>, c: Call, member: nat, i: nat, p: Entry -> bool)
    requires MeteredRule(ms, member, i) && forall e: Entry | p(e) :: OnRule(ms[member], member, i)(e)
    ensures var after := Count(Step(ms, entries, c), p);
            if LetThrough(ms, entries, c, member, i) && p(PlainEntry(ms[member], c)) then after == Count(entries, p) + 1
            else after <= Count(entries, p)
  {
    hide WindowStart, Used;
    match c
    case CheckIn(who, classId, override, now, _) =>
      if RecordOutcome(ms, entries, who, classId, override, now).Recorded? {
        CountAppend(entries, NewEntry(ms, entries, c), p);
      }
    case Undo(id, at) =>
      if UndoOutcome(entries, id, at).Undone? {
        CountUpdate(entries, id, entries[id].(undoneAt := Some(at)), p);
      }
  }

  /** One call takes a count that is within the quantity past it if and only if the call slips. */
  lemma StepKeepsQuotaExactly(ms: Memberships, entries: seq<Entry>, c: Call, member: nat, i: nat, p: Entry -> bool)
    requires MeteredRule(ms, member, i) && forall e: Entry | p(e) :: OnRule(ms[member], member, i)(e)
    requires Count(entries, p) <= Quantity(ms, member, i)
    ensures Count(Step(ms, entries, c), p) <= Quantity(ms, member, i) <==> !Slips(ms, entries, c, member, i, p)
  {
    hide LetThrough, Step, OnRule;
    StepCount(ms, entries, c, member, i, p);
  }

  /** No call of a run slips when it comes. */
  predicate NoneSlips(ms: Memberships, calls: seq<Call>, member: nat, i: nat, p: Entry -> bool)
    requires MeteredRule(ms, member, i)
  {
    calls == [] ||
    var init, c := calls[..|calls| - 1], calls[|calls| - 1];
    NoneSlips(ms, init, member, i, p) && !Slips(ms, Run(ms, init), c, member, i, p)
  }

  /** The count is within the quantity in every state of a run. */
  predicate WithinQuota(ms: Memberships, calls: seq<Call>, member: nat, i: nat, p: Entry -> bool)
    requires MeteredRule(ms, member, i)
  {
    && Count(Run(ms, calls), p) <= Quantity(ms, member, i)
    && (calls == [] || WithinQuota(ms, calls[..|calls| - 1], member, i, p))
  }

  /** Over every run of check-ins, overrides and undos, the quota holds throughout if and only if no call slips. */
  lemma {:induction false} QuotaHoldsExactly(ms: Memberships, calls: seq<Call>, member: nat, i: nat, p: Entry -> bool)
    requires MeteredRule(ms, member, i) && forall e: Entry | p(e) :: OnRule(ms[member], member, i)(e)
    ensures WithinQuota(ms, calls, member, i, p) <==> NoneSlips(ms, calls, member, i, p)
  {
    hide Step, Slips, OnRule, Quantity;
    if calls == [] {
      assert Count<Entry>([], p) == 0;
    } else {
      var init, c := calls[..|calls| - 1], calls[|calls| - 1];
      QuotaHoldsExactly(ms, init, member, i, p);
      if Count(Run(ms, init), p) <= Quantity(ms, member, i) {
        StepKeepsQuotaExactly(ms, Run(ms, init), c, member, i, p);
      }
    }
  }

  // ----- ... in one window ---------------------------------------------------------------------

  /** A reset lies after the row's stamp and at or before the check. */
  predicate Straddles(ms: Memberships, c: Call, member: nat, i: nat)
    requires MeteredRule(ms, member, i) && c.CheckIn?
  {
    Start(ms[member], i, c.enteredAt) < Start(ms[member], i, c.now)
  }

  /** A rule counts every class that it is matched to. */
  lemma RulesCover(m: Membership, member: nat, i: nat)
    requires i < |m.entitlements|
    ensures forall e: Entry | OnRule(m, member, i)(e) ::
              m.entitlements[i].classId.Some? ==> e.classId == m.entitlements[i].classId.value
  {
    forall e: Entry | OnRule(m, member, i)(e)
      ensures m.entitlements[i].classId.Some? ==> e.classId == m.entitlements[i].classId.value
    {
      assert Match(m.entitlements, e.classId) == Some(i);
    }
  }

  /** Entries in the window where the check looks, or in a later one, are seen by the check. */
  lemma SeenByCheck(ms: Memberships, entries: seq<Entry>, member: nat, i: nat, w: int, since: int)
    requires MeteredRule(ms, member, i) && since <= w
    ensures Count(entries, OnQuota(ms[member], member, i, w))
            <= Used(entries, member, ms[member].entitlements[i].classId, since)
  {
    hide WindowStart, Match;
    var m := ms[member];
    RulesCover(m, member, i);
    CountMonotone(entries, OnQuota(m, member, i, w), Counted(member, m.entitlements[i].classId, since));
  }

  /** What slips past a window's quota is stamped in that window and checked after its reset. */
  lemma SlipsOnlyAcrossReset(ms: Memberships, entries: seq<Entry>, c: Call, member: nat, i: nat, w: int)
    requires MeteredRule(ms, member, i) && Slips(ms, entries, c, member, i, OnQuota(ms[member], member, i, w))
    ensures Start(ms[member], i, c.enteredAt) == w && Straddles(ms, c, member, i)
  {
    hide WindowStart, Used;
    if Start(ms[member], i, c.now) <= w {
      SeenByCheck(ms, entries, member, i, w, Start(ms[member], i, c.now));
    }
  }

  /** When no check-in of a run straddles a reset, no window's quota is ever exceeded; a wildcard rule is counted
      over all classes, those with a rule of their own included. */
  lemma QuotaHolds(ms: Memberships, calls: seq<Call>, member: nat, i: nat, w: int)
    requires MeteredRule(ms, member, i)
    requires forall k | 0 <= k < |calls| && UsesRule(ms, calls[k], member, i) :: !Straddles(ms, calls[k], member, i)
    ensures Count(Run(ms, calls), OnQuota(ms[member], member, i, w)) <= Quantity(ms, member, i)
  {
    var p := OnQuota(ms[member], member, i, w);
    NoStraddleNoSlip(ms, calls, member, i, w);
    QuotaHoldsExactly(ms, calls, member, i, p);
    assert WithinQuota(ms, calls, member, i, p);
    hide Run, Count, Quantity, WindowStart;
  }

  lemma {:induction false} NoStraddleNoSlip(ms: Memberships, calls: seq<Call>, member: nat, i: nat, w: int)
    requires MeteredRule(ms, member, i)
    requires forall k | 0 <= k < |calls| && UsesRule(ms, calls[k], member, i) :: !Straddles(ms, calls[k], member, i)
    ensures NoneSlips(ms, calls, member, i, OnQuota(ms[member], member, i, w))
  {
    hide WindowStart, Used, Run, Straddles, Quantity, OnQuota;
    if calls != [] {
      var init, c := calls[..|calls| - 1], calls[|calls| - 1];
      NoStraddleNoSlip(ms, init, member, i, w);
      if Slips(ms, Run(ms, init), c, member, i, OnQuota(ms[member], member, i, w)) {
        SlipsOnlyAcrossReset(ms, Run(ms, init), c, member, i, w);
      }
    }
  }

  function Repeat<T>(x: T, n: nat): (s: seq<T>)
    ensures |s| == n
  {
    if n == 0 then [] else Repeat(x, n - 1) + [x]
  }

  lemma {:induction false} CountRepeat(e: Entry, n: nat, p: Entry -> bool)
    ensures Count(Repeat(e, n), p) == if p(e) then n else 0
  {
    if n > 0 {
      CountRepeat(e, n - 1, p);
      CountAppend(Repeat(e, n - 1), e, p);
    }
  }

  /** The same check-in, made as often as the quantity allows, is let through each time. */
  lemma {:induction false} FillsUp(ms: Memberships, c: Call, i: nat, n: nat)
    requires c.CheckIn? && MeteredRule(ms, c.member, i) && UsesRule(ms, c, c.member, i)
    requires n <= Quantity(ms, c.member, i)
    ensures Run(ms, Repeat(c, n)) == Repeat(PlainEntry(ms[c.member], c), n)
  {
    hide WindowStart;
    if n > 0 {
      var m, e := ms[c.member], PlainEntry(ms[c.member], c);
      FillsUp(ms, c, i, n - 1);
      assert Repeat(c, n)[..n - 1] == Repeat(c, n - 1);
      CountRepeat(e, n - 1, Counted(c.member, m.entitlements[i].classId, Start(m, i, c.now)));
    }
  }

  /** The instants of a call, by the service's clock and by the database's. */
  function Earliest(c: Call): int {
    match c case CheckIn(_, _, _, now, enteredAt) => Min(now, enteredAt) case Undo(_, at) => at
  }

  function Latest(c: Call): int {
    match c case CheckIn(_, _, _, now, enteredAt) => Max(now, enteredAt) case Undo(_, at) => at
  }

  /** Neither clock goes back from one call of a run to the next. */
  predicate Ordered(calls: seq<Call>) {
    forall j, k | 0 <= j < k < |calls| :: Latest(calls[j]) <= Earliest(calls[k])
  }

  lemma {:induction false} RepeatThenOrdered(c: Call, n: nat, last: Call)
    requires Latest(c) <= Earliest(c) && Latest(c) <= Earliest(last)
    ensures Ordered(Repeat(c, n) + [last])
    ensures forall k | 0 <= k < n :: Repeat(c, n)[k] == c
  {
    if n > 0 {
      RepeatThenOrdered(c, n - 1, last);
    }
  }

  lemma StartsBefore(m: Membership, i: nat, t: int)
    requires i < |m.entitlements| && Resets(m.entitlements[i].reset)
    ensures Start(m, i, t) <= t
  {
    hide WindowStart;
    WindowsPartitionTime(m.entitlements[i].reset, t, t, m.startedAt, m.billing);
  }

  lemma BeforeNextWindow(m: Membership, i: nat, t: int, now: int)
    requires i < |m.entitlements| && Resets(m.entitlements[i].reset) && Start(m, i, t) < Start(m, i, now)
    ensures t < Start(m, i, now)
  {
    hide WindowStart;
    var r := m.entitlements[i].reset;
    WindowStartLaws(r, now, now, m.startedAt, m.billing);
    if Start(m, i, now) <= t {
      WindowStartLaws(r, Start(m, i, now), t, m.startedAt, m.billing);
    }
  }

  /** Under a rule that resets, a check-in slips past the quota of its row's window after some run, whose clocks
      never go back, if and only if a reset lies after its stamp and at or before its check. */
  lemma OverrunExactly(ms: Memberships, c: Call, member: nat, i: nat)
    requires MeteredRule(ms, member, i) && Resets(ms[member].entitlements[i].reset) && UsesRule(ms, c, member, i)
    ensures var p := OnQuota(ms[member], member, i, Start(ms[member], i, c.enteredAt));
            Straddles(ms, c, member, i) <==>
            exists calls :: Ordered(calls + [c]) && Slips(ms, Run(ms, calls), c, member, i, p)
  {
    hide WindowStart, Step, Run;
    var m := ms[member];
    var w := Start(m, i, c.enteredAt);
    var p := OnQuota(m, member, i, w);
    if Straddles(ms, c, member, i) {
      var fill := CheckIn(member, c.classId, false, c.enteredAt, c.enteredAt);
      var q, e := Quantity(ms, member, i), PlainEntry(m, c);
      FillsUp(ms, fill, i, q);
      WindowsPartitionTime(m.entitlements[i].reset, c.enteredAt, c.enteredAt, m.startedAt, m.billing);
      CountRepeat(e, q, p);
      BeforeNextWindow(m, i, c.enteredAt, c.now);
      CountRepeat(e, q, Counted(member, m.entitlements[i].classId, Start(m, i, c.now)));
      assert Run(ms, Repeat(fill, q)) == Repeat(e, q);
      assert OnRule(m, member, i)(e) && p(e);
      assert LetThrough(ms, Repeat(e, q), c, member, i);
      StartsBefore(m, i, c.now);
      RepeatThenOrdered(fill, q, c);
      assert Slips(ms, Run(ms, Repeat(fill, q)), c, member, i, p);
    } else if exists calls :: Ordered(calls + [c]) && Slips(ms, Run(ms, calls), c, member, i, p) {
      var calls :| Ordered(calls + [c]) && Slips(ms, Run(ms, calls), c, member, i, p);
      SlipsOnlyAcrossReset(ms, Run(ms, calls), c, member, i, w);
    }
  }

  /** The check-ins of a run that were let through, are stamped in the window that starts at `w`, and were checked after
      its reset. */
  function LateChecks(ms: Memberships, calls: seq<Call>, member: nat, i: nat, w: int): nat
    requires MeteredRule(ms, member, i)
  {
    if calls == [] then 0
    else
      var init, c := calls[..|calls| - 1], calls[|calls| - 1];
      LateChecks(ms, init, member, i, w)
      + if LetThrough(ms, Run(ms, init), c, member, i) && Start(ms[member], i, c.enteredAt) == w
          && Straddles(ms, c, member, i)
        then 1 else 0
  }

  /** Over every run, a window's quota is exceeded by at most its own late checks. */
  lemma {:induction false} OverrunBounded(ms: Memberships, calls: seq<Call>, member: nat, i: nat, w: int)
    requires MeteredRule(ms, member, i)
    ensures Count(Run(ms, calls), OnQuota(ms[member], member, i, w))
            <= Quantity(ms, member, i) + LateChecks(ms, calls, member, i, w)
  {
    hide WindowStart, Used, Step;
    if calls != [] {
      var init, c := calls[..|calls| - 1], calls[|calls| - 1];
      var entries, p := Run(ms, init), OnQuota(ms[member], member, i, w);
      OverrunBounded(ms, init, member, i, w);
      StepCount(ms, entries, c, member, i, p);
      if LetThrough(ms, entries, c, member, i) && p(PlainEntry(ms[member], c)) && !Straddles(ms, c, member, i) {
        SeenByCheck(ms, entries, member, i, w, Start(ms[member], i, c.now));
      }
    }
  }

  /** In a window that resets, "in the window" needs no second condition. */
  lemma ResetWindowsCountAll(m: Membership, member: nat, i: nat, w: int, e: Entry)
    requires i < |m.entitlements| && Resets(m.entitlements[i].reset)
    ensures OnQuota(m, member, i, w)(e) <==>
            && e.member == member && e.IsEffective() && e.override.None? && Match(m.entitlements, e.classId) == Some(i)
            && Start(m, i, e.enteredAt) == w
  {
    hide WindowStart;
    WindowsPartitionTime(m.entitlements[i].reset, e.enteredAt, e.enteredAt, m.startedAt, m.billing);
    assert OnQuota(m, member, i, w)(e) <==>
        OnRule(m, member, i)(e) && Start(m, i, e.enteredAt) == w && w <= e.enteredAt;
  }

  const WEEKLY_PASS: Membership := Membership(0, 1, Subscriptions.Monthly, [Entitlement(None, Some(1), Weekly)])

  /** A check-in of member 0 is accepted while no entry counts in the week of the check. */
  lemma CheckInWithWeeklyPass(entries: seq<Entry>, now: int, enteredAt: int)
    requires Used(entries, 0, None, WindowStart(Weekly, now, 1, Subscriptions.Monthly)) == 0
    ensures Step(map[0 := WEEKLY_PASS], entries, CheckIn(0, 0, false, now, enteredAt)) ==
            entries + [Entry(0, 0, 0, enteredAt, None, None)]
  {
    hide WindowStart, Used;
    assert Match(WEEKLY_PASS.entitlements, 0) == Some(0);
  }

  /** A check just after a weekly reset whose row is stamped just before it slips past a quota already used up. */
  lemma StraddlingCheckInSlipsThrough()
    ensures var sunday := DayStart(7);
            var calls := [CheckIn(0, 0, false, sunday - 2, sunday - 2), CheckIn(0, 0, false, sunday, sunday - 1)];
            Count(Run(map[0 := WEEKLY_PASS], calls), OnQuota(WEEKLY_PASS, 0, 0, DayStart(0))) == 2
  {
    var ms, sunday := map[0 := WEEKLY_PASS], DayStart(7);
    var c1, c2 := CheckIn(0, 0, false, sunday - 2, sunday - 2), CheckIn(0, 0, false, sunday, sunday - 1);
    var e1, e2 := Entry(0, 0, 0, sunday - 2, None, None), Entry(0, 0, 0, sunday - 1, None, None);
    assert Match(WEEKLY_PASS.entitlements, 0) == Some(0);
    SundayWindows();
    WeeklyPassGroup(e1);
    WeeklyPassGroup(e2);
    hide *;
    CheckInWithWeeklyPass([], sunday - 2, sunday - 2);
    CountOne(e1, Counted(0, None, sunday));
    CheckInWithWeeklyPass([e1], sunday, sunday - 1);
    assert [c1, c2][..1] == [c1] && [c1][..0] == [];
    assert Run(ms, [c1]) == [] + [e1] == [e1];
    assert Run(ms, [c1, c2]) == [e1] + [e2];
    CountOne(e1, OnQuota(WEEKLY_PASS, 0, 0, DayStart(0)));
    CountAppend([e1], e2, OnQuota(WEEKLY_PASS, 0, 0, DayStart(0)));
  }

  lemma WeeklyPassGroup(e: Entry)
    requires e == PlainEntry(WEEKLY_PASS, CheckIn(0, 0, false, 0, e.enteredAt))
    ensures OnQuota(WEEKLY_PASS, 0, 0, DayStart(0))(e) <==>
            WindowStart(Weekly, e.enteredAt, 1, Subscriptions.Monthly) == DayStart(0) <= e.enteredAt
  {
    hide WindowStart;
    assert Match(WEEKLY_PASS.entitlements, 0) == Some(0);
    assert OnRule(WEEKLY_PASS, 0, 0)(e);
  }

  lemma SundayWindows()
    ensures WindowStart(Weekly, DayStart(7) - 2, 1, Subscriptions.Monthly) == DayStart(0)
    ensures WindowStart(Weekly, DayStart(7) - 1, 1, Subscriptions.Monthly) == DayStart(0)
    ensures WindowStart(Weekly, DayStart(7), 1, Subscriptions.Monthly) == DayStart(7)
  {
  }

  lemma CountOne(e: Entry, p: Entry -> bool)
    ensures Count([e], p) == if p(e) then 1 else 0
  {
    CountAppend([], e, p);
    assert [] + [e] == [e];
  }

  // ----- ... and under a rule that never resets ------------------------------------------------

  predicate Early(m: Membership, at: int) { at < DayStart(m.startedAt) }

  /** Over every run, what is stamped at or after the subscription's start never exceeds the quantity, whatever the
      clocks say: such a rule has no reset to straddle. */
  lemma NeverQuotaHoldsFromStart(ms: Memberships, calls: seq<Call>, member: nat, i: nat)
    requires MeteredRule(ms, member, i) && ms[member].entitlements[i].reset.Never?
    ensures var p := (e: Entry) => OnRule(ms[member], member, i)(e) && !Early(ms[member], e.enteredAt);
            Count(Run(ms, calls), p) <= Quantity(ms, member, i)
  {
    hide Run, Match;
    var m, w := ms[member], DayStart(ms[member].startedAt);
    var p := (e: Entry) => OnRule(m, member, i)(e) && !Early(m, e.enteredAt);
    QuotaHolds(ms, calls, member, i, w);
    forall e: Entry | p(e)
      ensures OnQuota(m, member, i, w)(e)
    {
      assert OnRule(m, member, i)(e) && Start(m, i, e.enteredAt) == w <= e.enteredAt;
    }
    CountMonotone(Run(ms, calls), p, OnQuota(m, member, i, w));
  }

  /** A check-in that slips past the quantity of all time does so because one of the entries that fill it is stamped
      before the subscription starts, where the check does not look. */
  lemma NeverSlipsOnlyPastEarlyEntries(ms: Memberships, entries: seq<Entry>, c: Call, member: nat, i: nat)
    requires MeteredRule(ms, member, i) && ms[member].entitlements[i].reset.Never?
    requires Slips(ms, entries, c, member, i, OnRule(ms[member], member, i))
    ensures exists e :: e in entries && OnRule(ms[member], member, i)(e) && Early(ms[member], e.enteredAt)
  {
    hide Match, DayStart;
    var m := ms[member];
    var p := OnRule(m, member, i);
    if forall e | e in entries && p(e) :: !Early(m, e.enteredAt) {
      RulesCover(m, member, i);
      CountMonotone(entries, p, Counted(member, m.entitlements[i].classId, DayStart(m.startedAt)));
    }
  }

  /** After a call, an entry that used the rule was there before or is the call's own. */
  lemma StepEntries(ms: Memberships, entries: seq<Entry>, c: Call, member: nat, i: nat)
    requires MeteredRule(ms, member, i)
    ensures forall e | e in Step(ms, entries, c) && OnRule(ms[member], member, i)(e) ::
              e in entries || (UsesRule(ms, c, member, i) && e.enteredAt == c.enteredAt)
  {
    hide QuotaCheck, Match;
  }

  /** When every check-in of a run against a rule that never resets is stamped at or after the subscription's start, the
      quota of all time is never exceeded. */
  lemma {:induction false} NeverQuotaHolds(ms: Memberships, calls: seq<Call>, member: nat, i: nat)
    requires MeteredRule(ms, member, i) && ms[member].entitlements[i].reset.Never?
    requires forall k | 0 <= k < |calls| && UsesRule(ms, calls[k], member, i) :: !Early(ms[member], calls[k].enteredAt)
    ensures Count(Run(ms, calls), OnRule(ms[member], member, i)) <= Quantity(ms, member, i)
    ensures forall e | e in Run(ms, calls) && OnRule(ms[member], member, i)(e) :: !Early(ms[member], e.enteredAt)
  {
    var m := ms[member];
    hide WindowStart, Used, Match, Early, Slips, Quantity, Step;
    if calls != [] {
      var init, c := calls[..|calls| - 1], calls[|calls| - 1];
      var entries, p := Run(ms, init), OnRule(m, member, i);
      NeverQuotaHolds(ms, init, member, i);
      StepEntries(ms, entries, c, member, i);
      StepKeepsQuotaExactly(ms, entries, c, member, i, p);
      if Slips(ms, entries, c, member, i, p) {
        NeverSlipsOnlyPastEarlyEntries(ms, entries, c, member, i);
      }
    } else {
      assert Count<Entry>([], OnRule(m, member, i)) == 0;
    }
  }

  /** Under a rule that never resets nothing counts before the subscription starts: any number of check-ins go
      through. */
  lemma NeverQuotaIgnoresEarlyEntries(ms: Memberships, entries: seq<Entry>, c: Call, i: nat)
    requires c.CheckIn? && c.member in ms && Match(ms[c.member].entitlements, c.classId) == Some(i)
    requires ms[c.member].entitlements[i].reset.Never? && ms[c.member].entitlements[i].Valid()
    requires Early(ms[c.member], c.enteredAt)
    requires forall e | e in entries && e.member == c.member :: Early(ms[c.member], e.enteredAt)
    ensures Step(ms, entries, c) == entries + [PlainEntry(ms[c.member], c)]
    ensures forall e | e in Step(ms, entries, c) && e.member == c.member :: Early(ms[c.member], e.enteredAt)
  {
    var m := ms[c.member];
    var p := Counted(c.member, m.entitlements[i].classId, DayStart(m.startedAt));
    CountMonotone(entries, p, (e: Entry) => false);
    CountNone(entries);
  }

  lemma {:induction false} CountNone(entries: seq<Entry>)
    ensures Count(entries, (e: Entry) => false) == 0
  {
    if entries != [] {
      CountNone(entries[..|entries| - 1]);
    }
  }

  /** Any number of check-ins before the subscription's start are let through: the quantity is not enforced there. */
  lemma {:induction false} NeverQuotaIgnoresEarlyCheckIns(ms: Memberships, c: Call, i: nat, n: nat)
    requires c.CheckIn? && MeteredRule(ms, c.member, i) && UsesRule(ms, c, c.member, i)
    requires ms[c.member].entitlements[i].reset.Never? && Early(ms[c.member], c.enteredAt)
    ensures Run(ms, Repeat(c, n)) == Repeat(PlainEntry(ms[c.member], c), n)
    ensures Count(Run(ms, Repeat(c, n)), OnRule(ms[c.member], c.member, i)) == n
  {
    var m, e := ms[c.member], PlainEntry(ms[c.member], c);
    hide Match, Step, Early;
    CountRepeat(e, n, OnRule(m, c.member, i));
    if n > 0 {
      var before := Repeat(e, n - 1);
      NeverQuotaIgnoresEarlyCheckIns(ms, c, i, n - 1);
      assert Repeat(c, n)[..n - 1] == Repeat(c, n - 1);
      RepeatsOne(e, n - 1);
      NeverQuotaIgnoresEarlyEntries(ms, before, c, i);
    }
  }

  /** So every check-in against such a rule, early or not, slips past the quantity of all time after some run whose
      clocks never go back. */
  lemma NeverOverrunAlways(ms: Memberships, c: Call, member: nat, i: nat)
    requires MeteredRule(ms, member, i) && UsesRule(ms, c, member, i) && ms[member].entitlements[i].reset.Never?
    ensures exists calls ::
              Ordered(calls + [c]) && Slips(ms, Run(ms, calls), c, member, i, OnRule(ms[member], member, i))
  {
    hide Run, Match;
    var m, q := ms[member], Quantity(ms, member, i);
    var at := Min(DayStart(m.startedAt) - 1, Earliest(c));
    var early := CheckIn(member, c.classId, false, at, at);
    var e := PlainEntry(m, early);
    NeverQuotaIgnoresEarlyCheckIns(ms, early, i, q);
    CountRepeat(e, q, Counted(member, m.entitlements[i].classId, DayStart(m.startedAt)));
    assert OnRule(m, member, i)(PlainEntry(m, c));
    assert LetThrough(ms, Repeat(e, q), c, member, i);
    RepeatThenOrdered(early, q, c);
    assert Slips(ms, Run(ms, Repeat(early, q)), c, member, i, OnRule(m, member, i));
  }

  lemma {:induction false} RepeatsOne(e: Entry, n: nat)
    ensures forall x | x in Repeat(e, n) :: x == e
  {
    if n > 0 {
      RepeatsOne(e, n - 1);
    }
  }

  /** A concrete run: two check-ins the day before a pass for one visit starts. */
  lemma EarlyCheckInsSlipThrough()
    ensures var m := Membership(0, 1, Subscriptions.Once, [Entitlement(None, Some(1), Never)]);
            var c := CheckIn(0, 0, false, 0, 0);
            Count(Run(map[0 := m], [c, c]), OnRule(m, 0, 0)) == 2
  {
    var m := Membership(0, 1, Subscriptions.Once, [Entitlement(None, Some(1), Never)]);
    var c := CheckIn(0, 0, false, 0, 0);
    assert Match(m.entitlements, 0) == Some(0);
    hide Match, WindowStart;
    NeverQuotaIgnoresEarlyCheckIns(map[0 := m], c, 0, 2);
    assert Repeat(c, 2) == [c, c] by {
      assert Repeat(c, 0) == [] && Repeat(c, 1) == [] + [c];
    }
  }

  /** A plan without entitlements covers no class. */
  lemma NoEntitlementsCoverNothing(m: Membership, entries: seq<Entry>, member: nat, classId: nat, now: int)
    ensures m.entitlements == [] ==> QuotaCheck(m, entries, member, classId, now) == Uncovered
    ensures QuotaCheck(m, entries, member, classId, now) == Uncovered <==>
            forall j | 0 <= j < |m.entitlements| :: m.entitlements[j].classId !in {Some(classId), None}
  {
    hide WindowStart;
  }

  /** Undoing a check-in gives back exactly what it used: every quota check answers as it did before the check-in. */
  lemma UndoRestoresQuota(ms: Memberships, entries: seq<Entry>, c: Call, at: int, member: nat, classId: nat, now: int)
    requires c.CheckIn? && RecordOutcome(ms, entries, c.member, c.classId, c.override, c.now).Recorded?
    requires at - c.enteredAt <= DAY && member in ms
    ensures var after := Step(ms, Step(ms, entries, c), Undo(|entries|, at));
            && UndoOutcome(Step(ms, entries, c), |entries|, at).Undone?
            && QuotaCheck(ms[member], after, member, classId, now) ==
               QuotaCheck(ms[member], entries, member, classId, now)
  {
    hide WindowStart, QuotaCheck;
    var e := NewEntry(ms, entries, c);
    var undone := e.(undoneAt := Some(at));
    assert (entries + [e])[|entries| := undone] == entries + [undone];
    SameUseSameCheck(ms[member], entries, undone, member, classId, now);
  }

  lemma SameUseSameCheck(m: Membership, entries: seq<Entry>, undone: Entry, member: nat, classId: nat, now: int)
    requires !undone.IsEffective()
    ensures QuotaCheck(m, entries + [undone], member, classId, now) == QuotaCheck(m, entries, member, classId, now)
  {
    hide WindowStart;
    match Match(m.entitlements, classId)
    case None =>
    case Some(i) => CountAppend(entries, undone, Counted(member, m.entitlements[i].classId, Start(m, i, now)));
  }
}
