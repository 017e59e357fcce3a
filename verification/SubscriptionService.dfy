/** `SubscriptionService`, statement by statement, over tables held in fields.

    Every UPDATE and INSERT is checked against the constraints of migration 0008; a failure aborts the transaction.
    Each contract gives the tables' new state by the value-level effect of the same command in module `Subscriptions`.
 */
module SubscriptionServices {
  import opened Basics
  import opened Subscriptions
  import opened SubscriptionRuns

  datatype Reply = Done(id: nat) | Refusal(why: Refusal) | Broken(constraint: Constraint)

  predicate Answers(r: Reply, o: Outcome) {
    match o
    case Committed(_) => r.Done?
    case Refused(why) => r == Reply.Refusal(why)
    case Aborted(k) => r == Reply.Broken(k)
  }

  ghost function DueForUnfreeze(subs: seq<Sub>, today: int): set<nat> {
    set i: nat | i < |subs| && subs[i].status == Frozen
                 && subs[i].frozenUntil.Some? && subs[i].frozenUntil.value <= today
  }

  ghost function DueForExpire(subs: seq<Sub>, today: int): set<nat> {
    set i: nat | i < |subs| && subs[i].status == Active
                 && subs[i].expiresAt.Some? && subs[i].expiresAt.value < today
  }

  class SubscriptionService {
    const plans: seq<Plan>
    var members: seq<MemberStatus>
    var subs: seq<Sub>

    ghost function Tables(): State
      reads this
    {
      State(plans, members, subs)
    }

    constructor (plans: seq<Plan>, members: seq<MemberStatus>)
      requires forall p | 0 <= p < |plans| :: plans[p].Valid()
      ensures Tables() == State(plans, members, []) && Inv(Tables())
    {
      this.plans, this.members, subs := plans, members, [];
    }

    /** One UPDATE of a row and of its member's status; nothing happens when a constraint fails. */
    method Transition(id: nat, row: Sub, status: MemberStatus) returns (r: Reply)
      requires id < |subs| && row.member < |members|
      modifies this
      ensures Answers(r, Write(old(Tables()), id, row, status))
      ensures r.Done? ==> r.id == id
      ensures Tables() == match Write(old(Tables()), id, row, status)
                          case Committed(after) => after
                          case _ => old(Tables())
    {
      var violated := Violation(subs, id, row);
      if violated.Some? {
        return Reply.Broken(violated.value);
      }
      subs := subs[id := row];
      members := members[row.member := status];
      r := Done(id);
    }

    /** `find_live_for_member(...) is not None`. */
    method HasLive(member: nat) returns (found: bool)
      ensures found <==> OtherLive(subs, -1, member)
    {
      for i := 0 to |subs|
        invariant forall j | 0 <= j < i :: !(subs[j].IsLive() && subs[j].member == member)
      {
        if subs[i].IsLive() && subs[i].member == member {
          return true;
        }
      }
      found := false;
    }

    method Create(member: nat, plan: nat, startedAt: Option<int>, expiresAt: Option<int>, today: int) returns (r: Reply)
      requires Inv(Tables())
      modifies this
      ensures Tables() == Step(old(Tables()), Call(today, Op.Create(member, plan, startedAt, expiresAt)))
              && Inv(Tables())
      ensures Answers(r, Apply(old(Tables()), Call(today, Op.Create(member, plan, startedAt, expiresAt))))
      ensures r.Done? ==> r.id == |old(subs)|
    {
      StepKeepsInv(Tables(), Call(today, Op.Create(member, plan, startedAt, expiresAt)));
      hide OneLive, RowsSound, ChainSound, OtherLive;
      if plan >= |plans| {
        return Reply.Refusal(PlanNotFound);
      }
      var p := plans[plan];
      if !p.active {
        return Reply.Refusal(PlanInactive);
      }
      if member >= |members| {
        return Reply.Refusal(NotFound);
      }
      var taken := HasLive(member);
      if taken {
        return Reply.Refusal(AlreadySubscribed);
      }
      var start := Or(startedAt, today);
      var row := NewSub(member, plan, p.price, start, ResolveExpiresAt(p, start, expiresAt));
      NoOtherLiveAtEnd(subs, member);
      assert Violation(subs, |subs|, row).None?;
      subs := subs + [row];
      members := members[member := MemberActive];
      r := Done(|subs| - 1);
    }

    method Freeze(id: nat, until: Option<int>, today: int) returns (r: Reply)
      requires Inv(Tables())
      modifies this
      ensures Tables() == Step(old(Tables()), Call(today, Op.Freeze(id, until))) && Inv(Tables())
      ensures Answers(r, Apply(old(Tables()), Call(today, Op.Freeze(id, until))))
      ensures r.Done? ==> r.id == id
    {
      StepKeepsInv(Tables(), Call(today, Op.Freeze(id, until)));
      hide OneLive, RowsSound, ChainSound, OtherLive;
      if id >= |subs| {
        return Reply.Refusal(NotFound);
      }
      if !subs[id].CanFreeze() {
        return Reply.Refusal(IllegalTransition);
      }
      r := Transition(id, subs[id].(status := Frozen, frozenAt := Some(today), frozenUntil := until), MemberFrozen);
    }

    method Unfreeze(id: nat, today: int) returns (r: Reply)
      requires Inv(Tables())
      modifies this
      ensures Tables() == Step(old(Tables()), Call(today, Op.Unfreeze(id))) && Inv(Tables())
      ensures Answers(r, Apply(old(Tables()), Call(today, Op.Unfreeze(id))))
      ensures r.Done? ==> r.id == id
    {
      StepKeepsInv(Tables(), Call(today, Op.Unfreeze(id)));
      hide OneLive, RowsSound, ChainSound, OtherLive;
      if id >= |subs| {
        return Reply.Refusal(NotFound);
      }
      if !subs[id].CanUnfreeze() {
        return Reply.Refusal(IllegalTransition);
      }
      r := Transition(id, Unfrozen(subs[id], today), MemberActive);
    }

    method Renew(id: nat, newExpiresAt: Option<int>, today: int) returns (r: Reply)
      requires Inv(Tables())
      modifies this
      ensures Tables() == Step(old(Tables()), Call(today, Op.Renew(id, newExpiresAt))) && Inv(Tables())
      ensures Answers(r, Apply(old(Tables()), Call(today, Op.Renew(id, newExpiresAt))))
      ensures r.Done? ==> r.id == id
    {
      StepKeepsInv(Tables(), Call(today, Op.Renew(id, newExpiresAt)));
      hide OneLive, RowsSound, ChainSound, OtherLive;
      if id >= |subs| {
        return Reply.Refusal(NotFound);
      }
      if !subs[id].CanRenew() {
        return Reply.Refusal(IllegalTransition);
      }
      var resolved := Or(newExpiresAt, DefaultRenewal(subs[id], plans[subs[id].plan], today));
      r := Transition(id, subs[id].(status := Active, expiresAt := Some(resolved)), MemberActive);
    }

    /** Three writes in one transaction: retire the row, insert its successor, link them. */
    method ChangePlan(id: nat, newPlan: nat, effective: Option<int>, today: int) returns (r: Reply)
      requires Inv(Tables())
      modifies this
      ensures Tables() == Step(old(Tables()), Call(today, Op.ChangePlan(id, newPlan, effective))) && Inv(Tables())
      ensures Answers(r, Apply(old(Tables()), Call(today, Op.ChangePlan(id, newPlan, effective))))
      ensures r.Done? ==> r.id == |old(subs)|
    {
      StepKeepsInv(Tables(), Call(today, Op.ChangePlan(id, newPlan, effective)));
      hide OneLive, RowsSound, ChainSound, OtherLive, Sub.Broken;
      if id >= |subs| {
        return Reply.Refusal(NotFound);
      }
      var prior := subs[id];
      if !prior.CanChangePlan() {
        return Reply.Refusal(IllegalTransition);
      }
      if prior.plan == newPlan {
        return Reply.Refusal(SamePlan);
      }
      if newPlan >= |plans| {
        return Reply.Refusal(PlanNotFound);
      }
      var p := plans[newPlan];
      if !p.active {
        return Reply.Refusal(PlanInactive);
      }
      var since := Or(effective, today);
      var saved := subs;
      var pending := prior.(status := Replaced, replacedAt := Some(since), replacedBy := None);
      var violated := Violation(subs, id, pending);
      if violated.Some? {
        return Reply.Broken(violated.value);
      }
      subs := subs[id := pending];
      var added := NewSub(prior.member, newPlan, p.price, since, ResolveExpiresAt(p, since, None));
      violated := Violation(subs, |subs|, added);
      if violated.Some? {
        subs := saved;
        return Reply.Broken(violated.value);
      }
      subs := subs + [added];
      var next := |subs| - 1;
      var linked := pending.(replacedBy := Some(next));
      LinkIsAccepted(subs, id, pending, next);
      subs := subs[id := linked];
      members := members[prior.member := MemberActive];
      r := Done(next);
    }

    method Cancel(id: nat, today: int) returns (r: Reply)
      requires Inv(Tables())
      modifies this
      ensures Tables() == Step(old(Tables()), Call(today, Op.Cancel(id))) && Inv(Tables())
      ensures Answers(r, Apply(old(Tables()), Call(today, Op.Cancel(id))))
      ensures r.Done? ==> r.id == id
    {
      StepKeepsInv(Tables(), Call(today, Op.Cancel(id)));
      hide OneLive, RowsSound, ChainSound, OtherLive;
      if id >= |subs| {
        return Reply.Refusal(NotFound);
      }
      if !subs[id].CanCancel() {
        return Reply.Refusal(IllegalTransition);
      }
      r := Transition(id, subs[id].(status := Cancelled, cancelledAt := Some(today)), MemberCancelled);
    }

    /** `find_due_for_unfreeze` and `find_due_for_expire`: the ids of the rows that satisfy `due`, in an order the
        database chooses. */
    method FindDue(due: Sub -> bool) returns (ids: seq<nat>)
      ensures forall k | 0 <= k < |ids| :: ids[k] < |subs|
      ensures forall i | 0 <= i < |subs| :: i in ids <==> due(subs[i])
      ensures forall j, k | 0 <= j < k < |ids| :: ids[j] != ids[k]
    {
      ids := [];
      for i := 0 to |subs|
        invariant forall k | 0 <= k < |ids| :: ids[k] < i
        invariant forall j | 0 <= j < i :: j in ids <==> due(subs[j])
        invariant forall j, k | 0 <= j < k < |ids| :: ids[j] != ids[k]
      {
        if due(subs[i]) {
          ids := ids + [i];
        }
      }
    }

    /** `auto_unfreeze_due`.  No constraint stops any of its writes. */
    method AutoUnfreezeDue(today: int) returns (count: nat)
      requires Inv(Tables())
      modifies this
      ensures Tables() == Step(old(Tables()), Call(today, AutoUnfreeze)) && Inv(Tables())
      ensures count == |DueForUnfreeze(old(subs), today)|
    {
      StepKeepsInv(Tables(), Call(today, AutoUnfreeze));
      JobSteps(Tables(), today);
      var due := FindDue((s: Sub) => s.ShouldAutoUnfreeze(today));
      ghost var st := Tables();
      ghost var after := UnfreezeDue(subs, today);
      count := 0;
      NotDueUnchanged(subs, today);
      ListsOnce(due, DueForUnfreeze(subs, today));
      hide DueForUnfreeze, DueForExpire, Violation, Inv, Step, Progress, Unfrozen, ExpiredRow, UnfreezeDue, ExpireDue,
           Sub.ShouldAutoUnfreeze, SyncMembers;
      ProgressStarts(st, after, MemberActive);
      for k := 0 to |due|
        invariant Progress(st, subs, members, due[..k], after, MemberActive)
        invariant count == k
      {
        var id := due[k];
        UnfreezeStep(st, subs, members, due, k, today);
        var row := Unfrozen(subs[id], today);
        assert Violation(subs, id, row).None?;
        subs := subs[id := row];
        members := members[row.member := MemberActive];
        count := count + 1;
      }
      assert due[..|due|] == due;
      ProgressEnds(st, subs, members, due, after, (s: Sub) => s.ShouldAutoUnfreeze(today), MemberActive);
    }

    /** `auto_expire_due`.  No constraint stops any of its writes. */
    method AutoExpireDue(today: int) returns (count: nat)
      requires Inv(Tables())
      modifies this
      ensures Tables() == Step(old(Tables()), Call(today, AutoExpire)) && Inv(Tables())
      ensures count == |DueForExpire(old(subs), today)|
    {
      StepKeepsInv(Tables(), Call(today, AutoExpire));
      JobSteps(Tables(), today);
      var due := FindDue((s: Sub) => s.ShouldAutoExpire(today));
      ghost var st := Tables();
      ghost var after := ExpireDue(subs, today);
      count := 0;
      NotDueUnchanged(subs, today);
      ListsOnce(due, DueForExpire(subs, today));
      hide DueForUnfreeze, DueForExpire, Violation, Inv, Step, Progress, Unfrozen, ExpiredRow, UnfreezeDue, ExpireDue,
           Sub.ShouldAutoExpire, SyncMembers;
      ProgressStarts(st, after, MemberExpired);
      for k := 0 to |due|
        invariant Progress(st, subs, members, due[..k], after, MemberExpired)
        invariant count == k
      {
        var id := due[k];
        ExpireStep(st, subs, members, due, k, today);
        var row := ExpiredRow(subs[id], today);
        assert Violation(subs, id, row).None?;
        subs := subs[id := row];
        members := members[row.member := MemberExpired];
        count := count + 1;
      }
      assert due[..|due|] == due;
      ProgressEnds(st, subs, members, due, after, (s: Sub) => s.ShouldAutoExpire(today), MemberExpired);
    }
  }

  // ----- What the job loops need ---------------------------------------------------------------

  /** Filling in `replaced_by_id` breaks no constraint. */
  lemma LinkIsAccepted(subs: seq<Sub>, id: nat, pending: Sub, next: nat)
    requires pending.status.Replaced? && pending.Broken().None?
    ensures Violation(subs, id, pending.(replacedBy := Some(next))).None?
  {
  }

  lemma JobSteps(st: State, today: int)
    requires Inv(st)
    ensures Step(st, Call(today, AutoUnfreeze)) ==
            st.(subs := UnfreezeDue(st.subs, today),
                members := SyncMembers(st.members, st.subs, (s: Sub) => s.ShouldAutoUnfreeze(today), MemberActive))
    ensures Step(st, Call(today, AutoExpire)) ==
            st.(subs := ExpireDue(st.subs, today),
                members := SyncMembers(st.members, st.subs, (s: Sub) => s.ShouldAutoExpire(today), MemberExpired))
  {
  }

  /** The state of a job's loop: the rows `done` are as in `after` and their members have the new status. */
  ghost predicate Progress(
      st: State, subs: seq<Sub>, members: seq<MemberStatus>, done: seq<nat>, after: seq<Sub>, status: MemberStatus)
    requires |after| == |st.subs|
  {
    && |subs| == |st.subs| && |members| == |st.members|
    && (forall k | 0 <= k < |done| :: done[k] < |st.subs|)
    && (forall i | 0 <= i < |subs| :: subs[i] == if i in done then after[i] else st.subs[i])
    && (forall m | 0 <= m < |members| :: members[m] == if Touched(st.subs, done, m) then status else st.members[m])
  }

  ghost predicate Touched(subs: seq<Sub>, done: seq<nat>, m: int) {
    exists i | 0 <= i < |subs| :: i in done && subs[i].member == m
  }

  lemma ProgressStarts(st: State, after: seq<Sub>, status: MemberStatus)
    requires |after| == |st.subs|
    ensures Progress(st, st.subs, st.members, [], after, status)
  {
  }

  lemma ProgressAt(
      st: State, subs: seq<Sub>, members: seq<MemberStatus>, done: seq<nat>, after: seq<Sub>, status: MemberStatus,
      id: nat)
    requires |after| == |st.subs| && Progress(st, subs, members, done, after, status) && id < |st.subs| && id !in done
    ensures |subs| == |st.subs| && |members| == |st.members| && subs[id] == st.subs[id]
    ensures forall i | 0 <= i < |subs| :: subs[i] == if i in done then after[i] else st.subs[i]
  {
  }

  lemma ProgressStep(
      st: State, subs: seq<Sub>, members: seq<MemberStatus>, done: seq<nat>, after: seq<Sub>, status: MemberStatus,
      id: nat)
    requires |after| == |st.subs| && Progress(st, subs, members, done, after, status)
    requires id < |subs| == |st.subs| && st.subs[id].member < |members|
    ensures Progress(st, subs[id := after[id]], members[st.subs[id].member := status], done + [id], after, status)
  {
    forall m
      ensures Touched(st.subs, done + [id], m) <==> Touched(st.subs, done, m) || m == st.subs[id].member
    {
      if Touched(st.subs, done, m) {
        var i :| 0 <= i < |st.subs| && i in done && st.subs[i].member == m;
        assert i in done + [id];
      } else if m == st.subs[id].member {
        assert id in done + [id];
      }
    }
  }

  lemma {:induction false} ListsOnce(ids: seq<nat>, all: set<nat>)
    requires forall j, k | 0 <= j < k < |ids| :: ids[j] != ids[k]
    requires forall i: nat :: i in all <==> i in ids
    ensures |ids| == |all|
  {
    if ids == [] {
      assert forall i: nat :: i !in all;
    } else {
      var init, last := ids[..|ids| - 1], ids[|ids| - 1];
      assert ids == init + [last];
      ListsOnce(init, all - {last});
    }
  }

  lemma ProgressEnds(
      st: State, subs: seq<Sub>, members: seq<MemberStatus>, done: seq<nat>, after: seq<Sub>, due: Sub -> bool,
      status: MemberStatus)
    requires |after| == |st.subs| && Progress(st, subs, members, done, after, status)
    requires forall i | 0 <= i < |st.subs| :: i in done <==> due(st.subs[i])
    requires forall i | 0 <= i < |st.subs| && !due(st.subs[i]) :: after[i] == st.subs[i]
    ensures subs == after && members == SyncMembers(st.members, st.subs, due, status)
  {
    forall m | 0 <= m < |members|
      ensures Touched(st.subs, done, m) <==> exists i | 0 <= i < |st.subs| :: due(st.subs[i]) && st.subs[i].member == m
    {
    }
  }

  /** Unfreezing rows one by one never makes a second live row, so each UPDATE is accepted. */
  lemma UnfreezeIsAccepted(st: State, subs: seq<Sub>, done: seq<nat>, today: int, id: nat)
    requires Inv(st) && id < |st.subs| == |subs| && st.subs[id].ShouldAutoUnfreeze(today) && id !in done
    requires forall i | 0 <= i < |subs| :: subs[i] == if i in done then UnfreezeDue(st.subs, today)[i] else st.subs[i]
    ensures Violation(subs, id, Unfrozen(st.subs[id], today)).None?
    ensures Unfrozen(st.subs[id], today) == UnfreezeDue(st.subs, today)[id]
    ensures Unfrozen(st.subs[id], today).member == st.subs[id].member < |st.members|
  {
    InvParts(st);
    hide Sub.Broken, ChainSound, OneLive;
    DueRowsStaySound(st.subs[id], today);
    LiveAlone(st, id);
    forall j | 0 <= j < |subs| && j != id && subs[j].IsLive()
      ensures subs[j].member != st.subs[id].member
    {
      assert st.subs[j].IsLive() && st.subs[j].member == subs[j].member;
    }
  }

  lemma ExpireIsAccepted(st: State, subs: seq<Sub>, today: int, id: nat)
    requires Inv(st) && id < |st.subs| && st.subs[id].ShouldAutoExpire(today)
    ensures Violation(subs, id, ExpiredRow(st.subs[id], today)).None?
    ensures ExpiredRow(st.subs[id], today) == ExpireDue(st.subs, today)[id]
    ensures ExpiredRow(st.subs[id], today).member == st.subs[id].member < |st.members|
  {
    InvParts(st);
    hide Sub.Broken;
    DueRowsStaySound(st.subs[id], today);
  }

  /** One more row of the job: its UPDATE is accepted. */
  lemma UnfreezeStep(st: State, subs: seq<Sub>, members: seq<MemberStatus>, due: seq<nat>, k: nat, today: int)
    requires Inv(st) && k < |due| && due[k] < |st.subs| && st.subs[due[k]].ShouldAutoUnfreeze(today)
    requires forall i, j | 0 <= i < j < |due| :: due[i] != due[j]
    requires |UnfreezeDue(st.subs, today)| == |st.subs|
    requires Progress(st, subs, members, due[..k], UnfreezeDue(st.subs, today), MemberActive)
    ensures due[k] < |subs|
    ensures var id, row := due[k], Unfrozen(subs[due[k]], today);
            && Violation(subs, id, row).None? && row.member < |members|
            && Progress(st, subs[id := row], members[row.member := MemberActive], due[..k + 1],
               UnfreezeDue(st.subs, today), MemberActive)
  {
    hide Inv, Violation, UnfreezeDue, Unfrozen, Progress, Sub.ShouldAutoUnfreeze;
    var id, after := due[k], UnfreezeDue(st.subs, today);
    assert due[..k + 1] == due[..k] + [id] && id !in due[..k];
    ProgressAt(st, subs, members, due[..k], after, MemberActive, id);
    UnfreezeIsAccepted(st, subs, due[..k], today, id);
    ProgressStep(st, subs, members, due[..k], after, MemberActive, id);
  }

  /** One more row of the job: its UPDATE is accepted. */
  lemma ExpireStep(st: State, subs: seq<Sub>, members: seq<MemberStatus>, due: seq<nat>, k: nat, today: int)
    requires Inv(st) && k < |due| && due[k] < |st.subs| && st.subs[due[k]].ShouldAutoExpire(today)
    requires forall i, j | 0 <= i < j < |due| :: due[i] != due[j]
    requires |ExpireDue(st.subs, today)| == |st.subs|
    requires Progress(st, subs, members, due[..k], ExpireDue(st.subs, today), MemberExpired)
    ensures due[k] < |subs|
    ensures var id, row := due[k], ExpiredRow(subs[due[k]], today);
            && Violation(subs, id, row).None? && row.member < |members|
            && Progress(st, subs[id := row], members[row.member := MemberExpired], due[..k + 1],
               ExpireDue(st.subs, today), MemberExpired)
  {
    hide Inv, Violation, ExpireDue, ExpiredRow, Progress, Sub.ShouldAutoExpire;
    var id, after := due[k], ExpireDue(st.subs, today);
    assert due[..k + 1] == due[..k] + [id] && id !in due[..k];
    ProgressAt(st, subs, members, due[..k], after, MemberExpired, id);
    ExpireIsAccepted(st, subs, today, id);
    ProgressStep(st, subs, members, due[..k], after, MemberExpired, id);
  }

  lemma NotDueUnchanged(subs: seq<Sub>, today: int)
    ensures |UnfreezeDue(subs, today)| == |subs| == |ExpireDue(subs, today)|
    ensures forall i | 0 <= i < |subs| && !subs[i].ShouldAutoUnfreeze(today) :: UnfreezeDue(subs, today)[i] == subs[i]
    ensures forall i | 0 <= i < |subs| && !subs[i].ShouldAutoExpire(today) :: ExpireDue(subs, today)[i] == subs[i]
  {
  }
}
