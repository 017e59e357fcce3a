/** The subscription lifecycle on values: the rows and constraints of migration 0008, the guards of the entity, and the
    effect of every `SubscriptionService` command, constraint failures included.

    A table is a sequence of rows and a row's id is its index, so an INSERT appends.  Dates are ordinals.
 */
module Subscriptions {
  import opened Basics

  datatype Status = Active | Frozen | Expired | Cancelled | Replaced

  datatype MemberStatus = MemberActive | MemberFrozen | MemberExpired | MemberCancelled

  datatype PlanKind = Recurring | OneTime

  datatype Billing = Monthly | Quarterly | Yearly | Once

  datatype Plan = Plan(kind: PlanKind, billing: Billing, durationDays: Option<nat>, price: nat, active: bool) {
    /** `ck_plans_shape_integrity` and `ck_plans_duration_positive`. */
    predicate Valid() {
      && (kind.Recurring? ==> durationDays.None? && !billing.Once?)
      && (kind.OneTime? ==> durationDays.Some? && durationDays.value > 0 && billing.Once?)
    }
  }

  datatype Constraint = OneLivePerMember | FrozenShape | CancelledShape | ReplacedShape | FrozenUntilAfterStart

  datatype Sub = Sub(
    member: nat, plan: nat, status: Status, price: nat, startedAt: int, expiresAt: Option<int>,
    frozenAt: Option<int>, frozenUntil: Option<int>, expiredAt: Option<int>, cancelledAt: Option<int>,
    replacedAt: Option<int>, replacedBy: Option<nat>)
  {
    predicate IsLive() { status in {Active, Frozen} }

    predicate CanFreeze() { status.Active? }

    predicate CanUnfreeze() { status.Frozen? }

    predicate CanRenew() { status in {Active, Expired} }

    predicate CanChangePlan() { status in {Active, Frozen} }

    predicate CanCancel() { status in {Active, Frozen, Expired} }

    predicate ShouldAutoUnfreeze(today: int) {
      status.Frozen? && frozenUntil.Some? && frozenUntil.value <= today
    }

    predicate ShouldAutoExpire(today: int) {
      status.Active? && expiresAt.Some? && expiresAt.value < today
    }

    /** The row CHECKs. */
    function Broken(): Option<Constraint> {
      if !(if status.Frozen? then frozenAt.Some? else frozenAt.None? && frozenUntil.None?) then Some(FrozenShape)
      else if status.Cancelled? != cancelledAt.Some? then Some(CancelledShape)
      else if !(if status.Replaced? then replacedAt.Some? else replacedAt.None? && replacedBy.None?)
      then Some(ReplacedShape)
      else if frozenUntil.Some? && frozenAt.Some? && frozenUntil.value < frozenAt.value then Some(FrozenUntilAfterStart)
      else None
    }
  }

  predicate OtherLive(subs: seq<Sub>, id: int, member: nat) {
    exists j | 0 <= j < |subs| :: j != id && subs[j].IsLive() && subs[j].member == member
  }

  /** What stops a row from being written at `id`: a CHECK, or the partial unique index on live rows. */
  function Violation(subs: seq<Sub>, id: int, row: Sub): Option<Constraint> {
    if row.Broken().Some? then row.Broken()
    else if row.IsLive() && OtherLive(subs, id, row.member) then Some(OneLivePerMember)
    else None
  }

  // ----- Dates ---------------------------------------------------------------------------------

  /** `_BILLING_PERIOD_DAYS`, with its default. */
  function PeriodDays(b: Billing): nat {
    match b case Monthly => 30 case Quarterly => 90 case Yearly => 365 case Once => 30
  }

  /** `_resolve_expires_at`. */
  function ResolveExpiresAt(p: Plan, startedAt: int, override: Option<int>): Option<int> {
    if override.Some? then override
    else if p.kind.OneTime? && p.durationDays.Some? then Some(startedAt + p.durationDays.value)
    else None
  }

  /** `_default_renewal_expires_at`. */
  function DefaultRenewal(s: Sub, p: Plan, today: int): int {
    var start := if s.status.Active? && s.expiresAt.Some? then Max(today, s.expiresAt.value) else today;
    if p.kind.OneTime? && p.durationDays.Some? then start + p.durationDays.value else start + PeriodDays(p.billing)
  }

  /** `_extend_expires_for_unfreeze`. */
  function ExtendForUnfreeze(s: Sub, today: int): Option<int> {
    if s.expiresAt.None? || s.frozenAt.None? then s.expiresAt
    else Some(s.expiresAt.value + Max(0, today - s.frozenAt.value))
  }

  // ----- Row transitions of the repository -----------------------------------------------------

  function NewSub(member: nat, plan: nat, price: nat, startedAt: int, expiresAt: Option<int>): Sub {
    Sub(member, plan, Active, price, startedAt, expiresAt, None, None, None, None, None, None)
  }

  function Unfrozen(s: Sub, today: int): Sub {
    s.(status := Active, frozenAt := None, frozenUntil := None, expiresAt := ExtendForUnfreeze(s, today))
  }

  function ExpiredRow(s: Sub, today: int): Sub { s.(status := Expired, expiredAt := Some(today)) }

  // ----- Commands ------------------------------------------------------------------------------

  datatype State = State(plans: seq<Plan>, members: seq<MemberStatus>, subs: seq<Sub>)

  datatype Op =
    | Create(member: nat, plan: nat, startedAt: Option<int>, expiresAt: Option<int>)
    | Freeze(id: nat, until: Option<int>)
    | Unfreeze(id: nat)
    | Renew(id: nat, newExpiresAt: Option<int>)
    | ChangePlan(id: nat, newPlan: nat, effective: Option<int>)
    | Cancel(id: nat)
    | AutoUnfreeze
    | AutoExpire

  datatype Call = Call(today: int, op: Op)

  datatype Refusal = NotFound | IllegalTransition | PlanNotFound | PlanInactive | SamePlan | AlreadySubscribed

  /** A command commits, is refused by the service, or is aborted by a constraint; only the first changes anything. */
  datatype Outcome = Committed(state: State) | Refused(why: Refusal) | Aborted(broken: Constraint)

  /** One UPDATE of row `id`, then the member's status, then COMMIT. */
  function Write(st: State, id: nat, row: Sub, status: MemberStatus): Outcome
    requires id < |st.subs| && row.member < |st.members|
  {
    match Violation(st.subs, id, row)
    case Some(k) => Aborted(k)
    case None => Committed(st.(subs := st.subs[id := row], members := st.members[row.member := status]))
  }

  function UnfreezeDue(subs: seq<Sub>, today: int): seq<Sub> {
    seq(|subs|, i requires 0 <= i < |subs| =>
      if subs[i].ShouldAutoUnfreeze(today) then Unfrozen(subs[i], today) else subs[i])
  }

  function ExpireDue(subs: seq<Sub>, today: int): seq<Sub> {
    seq(|subs|, i requires 0 <= i < |subs| =>
      if subs[i].ShouldAutoExpire(today) then ExpiredRow(subs[i], today) else subs[i])
  }

  /** The members of the rows that satisfy `due` get `status`. */
  function SyncMembers(members: seq<MemberStatus>, subs: seq<Sub>, due: Sub -> bool, status: MemberStatus)
    : seq<MemberStatus>
  {
    seq(|members|, m requires 0 <= m < |members| =>
      if exists i | 0 <= i < |subs| :: due(subs[i]) && subs[i].member == m then status else members[m])
  }

  /** The three phases of `change_plan`, each checked against the constraints, on a row that passed the guards. */
  function Replace(st: State, id: nat, newPlan: nat, effective: int): Outcome
    requires id < |st.subs| && newPlan < |st.plans| && st.subs[id].member < |st.members|
  {
    var prior, p := st.subs[id], st.plans[newPlan];
    var pending := prior.(status := Replaced, replacedAt := Some(effective), replacedBy := None);
    var added := NewSub(prior.member, newPlan, p.price, effective, ResolveExpiresAt(p, effective, None));
    match Violation(st.subs, id, pending)
    case Some(k) => Aborted(k)
    case None =>
      var mid := st.subs[id := pending];
      match Violation(mid, |mid|, added)
      case Some(k) => Aborted(k)
      case None =>
        var linked := pending.(replacedBy := Some(|mid|));
        match Violation(mid + [added], id, linked)
        case Some(k) => Aborted(k)
        case None =>
          Committed(st.(subs := (mid + [added])[id := linked], members := st.members[prior.member := MemberActive]))
  }

  /** Foreign keys, and the plan table's CHECKs. */
  ghost predicate RefsValid(st: State) {
    && (forall i | 0 <= i < |st.subs| :: st.subs[i].member < |st.members| && st.subs[i].plan < |st.plans|)
    && (forall p | 0 <= p < |st.plans| :: st.plans[p].Valid())
  }

  ghost function Apply(st: State, c: Call): Outcome
    requires RefsValid(st)
  {
    var today, subs, n := c.today, st.subs, |st.subs|;
    match c.op
    case Create(member, plan, startedAt, expiresAt) =>
      if plan >= |st.plans| then Refused(PlanNotFound)
      else if !st.plans[plan].active then Refused(PlanInactive)
      else if member >= |st.members| then Refused(NotFound)
      else if OtherLive(subs, -1, member) then Refused(AlreadySubscribed)
      else
        var start, p := Or(startedAt, today), st.plans[plan];
        var row := NewSub(member, plan, p.price, start, ResolveExpiresAt(p, start, expiresAt));
        (match Violation(subs, n, row)
         case Some(k) => Aborted(k)
         case None => Committed(st.(subs := subs + [row], members := st.members[member := MemberActive])))
    case Freeze(id, until) =>
      if id >= n then Refused(NotFound)
      else if !subs[id].CanFreeze() then Refused(IllegalTransition)
      else Write(st, id, subs[id].(status := Frozen, frozenAt := Some(today), frozenUntil := until), MemberFrozen)
    case Unfreeze(id) =>
      if id >= n then Refused(NotFound)
      else if !subs[id].CanUnfreeze() then Refused(IllegalTransition)
      else Write(st, id, Unfrozen(subs[id], today), MemberActive)
    case Renew(id, newExpiresAt) =>
      if id >= n then Refused(NotFound)
      else if !subs[id].CanRenew() then Refused(IllegalTransition)
      else
        var e := Or(newExpiresAt, DefaultRenewal(subs[id], st.plans[subs[id].plan], today));
        Write(st, id, subs[id].(status := Active, expiresAt := Some(e)), MemberActive)
    case ChangePlan(id, newPlan, effective) =>
      if id >= n then Refused(NotFound)
      else if !subs[id].CanChangePlan() then Refused(IllegalTransition)
      else if subs[id].plan == newPlan then Refused(SamePlan)
      else if newPlan >= |st.plans| then Refused(PlanNotFound)
      else if !st.plans[newPlan].active then Refused(PlanInactive)
      else Replace(st, id, newPlan, Or(effective, today))
    case Cancel(id) =>
      if id >= n then Refused(NotFound)
      else if !subs[id].CanCancel() then Refused(IllegalTransition)
      else Write(st, id, subs[id].(status := Cancelled, cancelledAt := Some(today)), MemberCancelled)
    case AutoUnfreeze =>
      Committed(st.(subs := UnfreezeDue(subs, today),
                    members := SyncMembers(st.members, subs, (s: Sub) => s.ShouldAutoUnfreeze(today), MemberActive)))
    case AutoExpire =>
      Committed(st.(subs := ExpireDue(subs, today),
                    members := SyncMembers(st.members, subs, (s: Sub) => s.ShouldAutoExpire(today), MemberExpired)))
  }

  // ----- What every committed state satisfies --------------------------------------------------

  predicate OneLive(subs: seq<Sub>) {
    forall i, j | 0 <= i < j < |subs| && subs[i].IsLive() && subs[j].IsLive() :: subs[i].member != subs[j].member
  }

  predicate RowsSound(subs: seq<Sub>) {
    forall i | 0 <= i < |subs| :: subs[i].Broken().None?
  }

  /** Each replaced row forwards to a later row of the same member, and no two to the same one. */
  predicate ChainSound(subs: seq<Sub>) {
    && (forall i | 0 <= i < |subs| && subs[i].status.Replaced? ::
          && subs[i].replacedBy.Some?
          && i < subs[i].replacedBy.value < |subs|
          && subs[subs[i].replacedBy.value].member == subs[i].member)
    && (forall i, j | 0 <= i < j < |subs| && subs[i].status.Replaced? && subs[j].status.Replaced? ::
          subs[i].replacedBy != subs[j].replacedBy)
  }

  ghost predicate Inv(st: State) {
    RefsValid(st) && OneLive(st.subs) && RowsSound(st.subs) && ChainSound(st.subs)
  }

  ghost function Step(st: State, c: Call): State
    requires RefsValid(st)
  {
    match Apply(st, c) case Committed(after) => after case _ => st
  }
}
