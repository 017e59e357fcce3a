/** What each subscription command does to the tables, column by column: its answer and every field of every row. */
module SubscriptionEffects {
  import opened Basics
  import opened Subscriptions
  import opened SubscriptionRuns

  /** Row `j` is another active or frozen subscription of the member. */
  predicate LiveBeside(subs: seq<Sub>, id: int, member: nat) {
    exists j | 0 <= j < |subs| :: j != id && subs[j].status in {Active, Frozen} && subs[j].member == member
  }

  lemma LiveBesideIsOtherLive(subs: seq<Sub>, id: int, member: nat)
    ensures LiveBeside(subs, id, member) <==> OtherLive(subs, id, member)
  {
    if LiveBeside(subs, id, member) {
      var j :| 0 <= j < |subs| && j != id && subs[j].status in {Active, Frozen} && subs[j].member == member;
      assert subs[j].IsLive();
    }
    if OtherLive(subs, id, member) {
      var j :| 0 <= j < |subs| && j != id && subs[j].IsLive() && subs[j].member == member;
      assert subs[j].status in {Active, Frozen};
    }
  }

  /** Enrolling is refused in this order: no such plan, an inactive plan, no such member, a live subscription. */
  lemma CreateAnswers(st: State, today: int, member: nat, plan: nat, startedAt: Option<int>, expiresAt: Option<int>)
    requires Inv(st)
    ensures var o := Apply(st, Call(today, Create(member, plan, startedAt, expiresAt)));
            && (o == Refused(PlanNotFound) <==> plan >= |st.plans|)
            && (o == Refused(PlanInactive) <==> plan < |st.plans| && !st.plans[plan].active)
            && (o == Refused(NotFound) <==>
                plan < |st.plans| && st.plans[plan].active && member >= |st.members|)
            && (o == Refused(AlreadySubscribed) <==>
                && plan < |st.plans| && st.plans[plan].active && member < |st.members|
                && LiveBeside(st.subs, -1, member))
            && (o.Committed? <==>
                && plan < |st.plans| && st.plans[plan].active && member < |st.members|
                && !LiveBeside(st.subs, -1, member))
  {
    LiveBesideIsOtherLive(st.subs, -1, member);
    hide OneLive, RowsSound, ChainSound, OtherLive, LiveBeside;
    NoOtherLiveAtEnd(st.subs, member);
  }

  /** It adds one active row with the plan's price, from the given day or today, to the given day or, for a one-time
      plan, for its duration; and the member becomes active. */
  lemma CreateEffect(st: State, today: int, member: nat, plan: nat, startedAt: Option<int>, expiresAt: Option<int>)
    requires Inv(st) && Apply(st, Call(today, Create(member, plan, startedAt, expiresAt))).Committed?
    ensures plan < |st.plans| && member < |st.members|
    ensures st.plans[plan].kind == OneTime ==> st.plans[plan].durationDays.Some?
    ensures var after := Apply(st, Call(today, Create(member, plan, startedAt, expiresAt))).state;
            var p := st.plans[plan];
            var start := if startedAt.Some? then startedAt.value else today;
            var end := if expiresAt.Some? then expiresAt
                       else if p.kind == OneTime then Some(start + p.durationDays.value) else None;
            && after.plans == st.plans
            && after.subs ==
               st.subs + [Sub(member, plan, Active, p.price, start, end, None, None, None, None, None, None)]
            && after.members == st.members[member := MemberActive]
  {
    assert plan < |st.plans| ==> st.plans[plan].Valid();
    hide OneLive, RowsSound, ChainSound, OtherLive;
  }

  /** A command on one row: no such row, then a status that does not allow it. */
  lemma RowAnswers(st: State, today: int, op: Op)
    requires Inv(st) && (op.Freeze? || op.Unfreeze? || op.Renew? || op.ChangePlan? || op.Cancel?)
    ensures var o := Apply(st, Call(today, op));
            var allowed := match op
                           case Freeze(_, _) => {Active}
                           case Unfreeze(_) => {Status.Frozen}
                           case Renew(_, _) => {Active, Expired}
                           case ChangePlan(_, _, _) => {Active, Status.Frozen}
                           case _ => {Active, Status.Frozen, Expired};
            && (o == Refused(NotFound) <==> op.id >= |st.subs|)
            && (o == Refused(IllegalTransition) <==> op.id < |st.subs| && st.subs[op.id].status !in allowed)
            && (op.ChangePlan? && op.id < |st.subs| && st.subs[op.id].status in allowed ==>
                  var same, p := st.subs[op.id].plan == op.newPlan, op.newPlan;
                  && (o == Refused(SamePlan) <==> same)
                  && (o == Refused(PlanNotFound) <==> !same && p >= |st.plans|)
                  && (o == Refused(PlanInactive) <==> !same && p < |st.plans| && !st.plans[p].active))
            && (o.Refused? && !op.ChangePlan? ==> o.why in {NotFound, IllegalTransition})
  {
    hide OneLive, RowsSound, ChainSound, OtherLive, Sub.Broken;
  }

  /** A row that was replaced in its table, with its member's new status, and nothing else. */
  predicate Put(st: State, after: State, id: nat, row: Sub, status: MemberStatus)
    requires id < |st.subs| && st.subs[id].member < |st.members|
  {
    after == State(st.plans, st.members[st.subs[id].member := status], st.subs[id := row])
  }

  /** A freeze commits exactly from active, and not to a day before today. */
  lemma FreezeEffect(st: State, today: int, id: nat, until: Option<int>)
    requires Inv(st)
    ensures var o := Apply(st, Call(today, Freeze(id, until)));
            && (o.Committed? <==>
                id < |st.subs| && st.subs[id].status == Active && (until.None? || today <= until.value))
            && (o.Committed? ==>
                  && id < |st.subs| && st.subs[id].member < |st.members|
                  && Put(st, o.state, id,
                         st.subs[id].(status := Frozen, frozenAt := Some(today), frozenUntil := until), MemberFrozen))
  {
    ConstraintsFireExactly(st, Call(today, Freeze(id, until)));
    RowAnswers(st, today, Freeze(id, until));
    InvParts(st);
    hide OneLive, RowsSound, ChainSound, OtherLive;
  }

  /** The row after an unfreeze: active, with its expiry moved on by the days since the freeze. */
  predicate Thawed(s: Sub, r: Sub, today: int) {
    && r == s.(status := Active, frozenAt := None, frozenUntil := None, expiresAt := r.expiresAt)
    && (s.expiresAt.None? ==> r.expiresAt.None?)
    && (s.expiresAt.Some? && s.frozenAt.Some? ==>
          r.expiresAt == Some(if s.frozenAt.value <= today then s.expiresAt.value + (today - s.frozenAt.value)
                              else s.expiresAt.value))
  }

  /** An unfreeze commits exactly from frozen. */
  lemma UnfreezeEffect(st: State, today: int, id: nat)
    requires Inv(st)
    ensures var o := Apply(st, Call(today, Unfreeze(id)));
            && (o.Committed? <==> id < |st.subs| && st.subs[id].status == Frozen)
            && (o.Committed? ==>
                  && id < |st.subs| == |o.state.subs| && st.subs[id].member < |st.members|
                  && Put(st, o.state, id, o.state.subs[id], MemberActive)
                  && st.subs[id].frozenAt.Some? && Thawed(st.subs[id], o.state.subs[id], today))
  {
    ConstraintsFireExactly(st, Call(today, Unfreeze(id)));
    RowAnswers(st, today, Unfreeze(id));
    InvParts(st);
    hide OneLive, RowsSound, ChainSound, OtherLive;
  }

  /** How many days a renewal buys: a one-time plan its duration, a recurring one 30, 90 or 365. */
  function Bought(p: Plan): int {
    if p.kind == OneTime then (if p.durationDays.Some? then p.durationDays.value else 0)
    else if p.billing == Monthly then 30
    else if p.billing == Quarterly then 90
    else 365
  }

  /** A renewal commits from active, and from expired when the member has no live row; without a day it adds the plan's
      days to today, or to the present expiry of an active row if that is later. */
  lemma RenewEffect(st: State, today: int, id: nat, until: Option<int>)
    requires Inv(st)
    ensures var o := Apply(st, Call(today, Renew(id, until)));
            && (o.Committed? <==>
                && id < |st.subs|
                && (st.subs[id].status == Active
                    || (st.subs[id].status == Expired && !LiveBeside(st.subs, id, st.subs[id].member))))
            && (o.Committed? ==>
                  && id < |st.subs| && st.subs[id].member < |st.members| && st.subs[id].plan < |st.plans|
                  && var s := st.subs[id];
                     var base := if s.status == Active && s.expiresAt.Some? && today < s.expiresAt.value
                                 then s.expiresAt.value else today;
                     var end := if until.Some? then until.value else base + Bought(st.plans[s.plan]);
                     Put(st, o.state, id, s.(status := Active, expiresAt := Some(end)), MemberActive))
  {
    ConstraintsFireExactly(st, Call(today, Renew(id, until)));
    RowAnswers(st, today, Renew(id, until));
    InvParts(st);
    if id < |st.subs| {
      LiveBesideIsOtherLive(st.subs, id, st.subs[id].member);
      assert st.plans[st.subs[id].plan].Valid();
    }
    hide OneLive, RowsSound, ChainSound, OtherLive, LiveBeside;
  }

  /** A plan change commits exactly from active, to another plan that is active: the row is replaced as of the effective
      day and forwards to a new last row, with the new plan's price and expiry. */
  lemma ChangePlanEffect(st: State, today: int, id: nat, newPlan: nat, effective: Option<int>)
    requires Inv(st)
    ensures var o := Apply(st, Call(today, ChangePlan(id, newPlan, effective)));
            && (o.Committed? <==>
                && id < |st.subs| && st.subs[id].status == Active && st.subs[id].plan != newPlan
                && newPlan < |st.plans| && st.plans[newPlan].active)
            && (o.Committed? ==>
                  && id < |st.subs| && newPlan < |st.plans| && st.subs[id].member < |st.members|
                  && var s, p := st.subs[id], st.plans[newPlan];
                     var day := if effective.Some? then effective.value else today;
                     var end := if p.kind == OneTime && p.durationDays.Some?
                                then Some(day + p.durationDays.value) else None;
                     && o.state.plans == st.plans
                     && o.state.members == st.members[s.member := MemberActive]
                     && o.state.subs ==
                        st.subs[id := s.(status := Replaced, replacedAt := Some(day), replacedBy := Some(|st.subs|))]
                        + [Sub(s.member, newPlan, Active, p.price, day, end, None, None, None, None, None, None)])
  {
    RowAnswers(st, today, ChangePlan(id, newPlan, effective));
    InvParts(st);
    hide OneLive, RowsSound, ChainSound, OtherLive, Replace, Sub.Broken;
    if id < |st.subs| && st.subs[id].CanChangePlan() && newPlan < |st.plans| {
      ReplaceOutcome(st, id, newPlan, Or(effective, today));
    }
  }

  /** A cancellation commits exactly from active or expired. */
  lemma CancelEffect(st: State, today: int, id: nat)
    requires Inv(st)
    ensures var o := Apply(st, Call(today, Cancel(id)));
            && (o.Committed? <==> id < |st.subs| && st.subs[id].status in {Active, Expired})
            && (o.Committed? ==>
                  && id < |st.subs| && st.subs[id].member < |st.members|
                  && Put(st, o.state, id, st.subs[id].(status := Cancelled, cancelledAt := Some(today)),
                         MemberCancelled))
  {
    ConstraintsFireExactly(st, Call(today, Cancel(id)));
    RowAnswers(st, today, Cancel(id));
    InvParts(st);
    hide OneLive, RowsSound, ChainSound, OtherLive;
  }

  // ----- The nightly jobs ----------------------------------------------------------------------

  /** A member's status after a job: the new one if one of its rows was touched. */
  predicate Synced(st: State, after: State, touched: Sub -> bool, status: MemberStatus) {
    && |after.members| == |st.members|
    && forall m | 0 <= m < |st.members| ::
         after.members[m] ==
         if exists i | 0 <= i < |st.subs| :: touched(st.subs[i]) && st.subs[i].member == m then status
         else st.members[m]
  }

  /** Auto-unfreeze changes exactly the frozen rows whose freeze ends today or earlier. */
  lemma AutoUnfreezeEffect(st: State, today: int)
    requires Inv(st)
    ensures var o := Apply(st, Call(today, AutoUnfreeze));
            && o.Committed? && o.state.plans == st.plans && |o.state.subs| == |st.subs|
            && (forall i | 0 <= i < |st.subs| ::
                  if st.subs[i].status == Frozen && st.subs[i].frozenUntil.Some?
                     && st.subs[i].frozenUntil.value <= today
                  then st.subs[i].frozenAt.Some? && Thawed(st.subs[i], o.state.subs[i], today)
                  else o.state.subs[i] == st.subs[i])
            && Synced(st, o.state,
                      (s: Sub) => s.status == Frozen && s.frozenUntil.Some? && s.frozenUntil.value <= today,
                      MemberActive)
  {
    InvParts(st);
    forall i | 0 <= i < |st.subs| { LiveStatus(st, i); }
    hide OneLive, RowsSound, ChainSound, RefsValid, Sub.Broken;
  }

  /** Auto-expire changes exactly the active rows whose expiry lies before today. */
  lemma AutoExpireEffect(st: State, today: int)
    requires Inv(st)
    ensures var o := Apply(st, Call(today, AutoExpire));
            && o.Committed? && o.state.plans == st.plans && |o.state.subs| == |st.subs|
            && (forall i | 0 <= i < |st.subs| ::
                  o.state.subs[i] ==
                  if st.subs[i].status == Active && st.subs[i].expiresAt.Some? && st.subs[i].expiresAt.value < today
                  then st.subs[i].(status := Expired, expiredAt := Some(today))
                  else st.subs[i])
            && Synced(st, o.state,
                      (s: Sub) => s.status == Active && s.expiresAt.Some? && s.expiresAt.value < today,
                      MemberExpired)
  {
    InvParts(st);
    hide OneLive, RowsSound, ChainSound, RefsValid, Sub.Broken;
  }
}
