/** What the subscription tables keep over any run of commands and nightly jobs. */
module SubscriptionRuns {
  import opened Basics
  import opened Subscriptions

  // ----- One live subscription, sound rows, sound chain ----------------------------------------

  lemma WriteKeepsInv(st: State, id: nat, row: Sub, status: MemberStatus)
    requires Inv(st) && id < |st.subs| && Violation(st.subs, id, row).None?
    requires row.member == st.subs[id].member && row.plan == st.subs[id].plan
    requires !row.status.Replaced? && !st.subs[id].status.Replaced?
    ensures Inv(st.(subs := st.subs[id := row], members := st.members[row.member := status]))
  {
    hide Sub.Broken, Plan.Valid;
    var after := st.subs[id := row];
    forall i, j | 0 <= i < j < |after| && after[i].IsLive() && after[j].IsLive()
      ensures after[i].member != after[j].member
    {
      if i != id && j != id {
        assert st.subs[i].IsLive() && st.subs[j].IsLive();
      }
    }
  }

  lemma CreateKeepsInv(st: State, row: Sub, status: MemberStatus)
    requires Inv(st) && Violation(st.subs, |st.subs|, row).None?
    requires row.member < |st.members| && row.plan < |st.plans| && !row.status.Replaced?
    ensures Inv(st.(subs := st.subs + [row], members := st.members[row.member := status]))
  {
    hide Sub.Broken, Plan.Valid;
    var after := st.subs + [row];
    forall i, j | 0 <= i < j < |after| && after[i].IsLive() && after[j].IsLive()
      ensures after[i].member != after[j].member
    {
      assert after[i] == st.subs[i];
      if j < |st.subs| {
        assert st.subs[i].IsLive() && st.subs[j].IsLive();
      }
    }
  }

  /** Past the guards, a plan change commits exactly from `active`: from `frozen` the row keeps its `frozen_at`, which
      `ck_subs_frozen_shape` forbids outside that status. */
  lemma ReplaceOutcome(st: State, id: nat, newPlan: nat, effective: int)
    requires Inv(st) && id < |st.subs| && newPlan < |st.plans| && st.subs[id].CanChangePlan()
    ensures var prior, p := st.subs[id], st.plans[newPlan];
            var added := NewSub(prior.member, newPlan, p.price, effective, ResolveExpiresAt(p, effective, None));
            var linked := prior.(status := Replaced, replacedAt := Some(effective), replacedBy := Some(|st.subs|));
            Replace(st, id, newPlan, effective) ==
            if prior.status.Active?
            then Committed(st.(subs := st.subs[id := linked] + [added],
                members := st.members[prior.member := MemberActive]))
            else Aborted(FrozenShape)
  {
    var prior, p := st.subs[id], st.plans[newPlan];
    var added := NewSub(prior.member, newPlan, p.price, effective, ResolveExpiresAt(p, effective, None));
    var pending := prior.(status := Replaced, replacedAt := Some(effective), replacedBy := None);
    var mid := st.subs[id := pending];
    assert prior.Broken().None?;
    if prior.status.Active? {
      forall j | 0 <= j < |mid| && mid[j].IsLive()
        ensures mid[j].member != prior.member
      {
        assert st.subs[j].IsLive() && j != id && prior.IsLive();
      }
      var linked := pending.(replacedBy := Some(|mid|));
      assert (mid + [added])[id := linked] == st.subs[id := linked] + [added];
    }
  }

  lemma ReplaceKeepsInv(st: State, id: nat, linked: Sub, added: Sub)
    requires Inv(st) && id < |st.subs| && st.subs[id].status.Active?
    requires linked.status.Replaced? && linked.Broken().None? && linked.replacedBy == Some(|st.subs|)
    requires linked.member == st.subs[id].member == added.member && linked.plan == st.subs[id].plan
    requires added.status.Active? && added.Broken().None? && added.plan < |st.plans|
    ensures Inv(st.(subs := st.subs[id := linked] + [added], members := st.members[added.member := MemberActive]))
  {
    hide Sub.Broken, Plan.Valid;
    var after := st.subs[id := linked] + [added];
    forall i, j | 0 <= i < j < |after| && after[i].IsLive() && after[j].IsLive()
      ensures after[i].member != after[j].member
    {
      assert i != id && j != id && st.subs[i].IsLive() && st.subs[id].IsLive();
    }
  }

  lemma JobKeepsInv(st: State, after: seq<Sub>, members: seq<MemberStatus>)
    requires Inv(st) && |after| == |st.subs| && |members| == |st.members|
    requires forall i | 0 <= i < |after| ::
               && after[i].member == st.subs[i].member && after[i].plan == st.subs[i].plan
               && after[i].Broken().None? && (after[i].IsLive() ==> st.subs[i].IsLive())
               && (after[i].status.Replaced? || st.subs[i].status.Replaced? ==> after[i] == st.subs[i])
    ensures Inv(st.(subs := after, members := members))
  {
    hide Sub.Broken, Plan.Valid;
  }

  lemma DueRowsStaySound(s: Sub, today: int)
    requires s.Broken().None?
    ensures s.ShouldAutoUnfreeze(today) ==> Unfrozen(s, today).Broken().None?
    ensures s.ShouldAutoExpire(today) ==> ExpiredRow(s, today).Broken().None?
  {
  }

  lemma StepKeepsInv(st: State, c: Call)
    requires Inv(st)
    ensures Inv(Step(st, c))
  {
    hide Inv, RefsValid, Plan.Valid, OtherLive, Sub.Broken, Replace;
    InvParts(st);
    var subs, today := st.subs, c.today;
    match c.op
    case Create(member, plan, startedAt, expiresAt) =>
      if Apply(st, c).Committed? {
        CreateKeepsInv(st, Apply(st, c).state.subs[|subs|], MemberActive);
      }
    case Freeze(id, until) =>
      if Apply(st, c).Committed? {
        WriteKeepsInv(st, id, Apply(st, c).state.subs[id], MemberFrozen);
      }
    case Unfreeze(id) =>
      if Apply(st, c).Committed? {
        WriteKeepsInv(st, id, Apply(st, c).state.subs[id], MemberActive);
      }
    case Renew(id, newExpiresAt) =>
      if Apply(st, c).Committed? {
        WriteKeepsInv(st, id, Apply(st, c).state.subs[id], MemberActive);
      }
    case Cancel(id) =>
      if Apply(st, c).Committed? {
        WriteKeepsInv(st, id, Apply(st, c).state.subs[id], MemberCancelled);
      }
    case ChangePlan(id, newPlan, effective) =>
      if Apply(st, c).Committed? {
        ReplaceOutcome(st, id, newPlan, Or(effective, today));
        LinkedRowsSound(subs[id], newPlan, st.plans[newPlan], Or(effective, today), |subs|);
        var after := Apply(st, c).state.subs;
        ReplaceKeepsInv(st, id, after[id], after[|subs|]);
      }
    case AutoUnfreeze =>
      forall i | 0 <= i < |subs| { DueRowsStaySound(subs[i], today); }
      JobKeepsInv(st, UnfreezeDue(subs, today), Step(st, c).members);
    case AutoExpire =>
      forall i | 0 <= i < |subs| { DueRowsStaySound(subs[i], today); }
      JobKeepsInv(st, ExpireDue(subs, today), Step(st, c).members);
  }

  lemma LinkedRowsSound(prior: Sub, newPlan: nat, p: Plan, effective: int, next: nat)
    requires prior.Broken().None? && prior.status.Active?
    ensures prior.(status := Replaced, replacedAt := Some(effective), replacedBy := Some(next)).Broken().None?
    ensures NewSub(prior.member, newPlan, p.price, effective, ResolveExpiresAt(p, effective, None)).Broken().None?
  {
  }

  lemma InvParts(st: State)
    requires Inv(st)
    ensures RefsValid(st)
    ensures forall i | 0 <= i < |st.subs| ::
              st.subs[i].Broken().None? && st.subs[i].member < |st.members| && st.subs[i].plan < |st.plans|
  {
  }

  ghost function Run(st: State, calls: seq<Call>): (end: State)
    requires Inv(st)
    ensures Inv(end)
  {
    if calls == [] then st
    else
      var mid := Run(st, calls[..|calls| - 1]);
      StepKeepsInv(mid, calls[|calls| - 1]);
      Step(mid, calls[|calls| - 1])
  }

  // ----- When the constraints fire -------------------------------------------------------------

  /** The service's own guards let the call through. */
  ghost predicate PassesGuards(st: State, c: Call)
    requires RefsValid(st)
  {
    !Apply(st, c).Refused?
  }

  lemma LiveRowIsAlone(subs: seq<Sub>, id: nat)
    requires OneLive(subs) && id < |subs| && subs[id].IsLive()
    ensures !OtherLive(subs, id, subs[id].member)
  {
    forall j | 0 <= j < |subs| && j != id && subs[j].IsLive()
      ensures subs[j].member != subs[id].member
    {
      if j < id {
        assert subs[j].member != subs[id].member;
      }
    }
  }

  /** From any committed state the unique index stops nothing but the renewal of an expired row whose member has another
      live one, `ck_subs_frozen_shape` nothing but a plan change or cancellation of a frozen row, and
      `ck_subs_frozen_until_after_start` nothing but a freeze that ends before it begins.  No other constraint fires. */
  lemma ConstraintsFireExactly(st: State, c: Call)
    requires Inv(st)
    ensures Apply(st, c) == Aborted(OneLivePerMember) <==>
            && c.op.Renew? && c.op.id < |st.subs| && st.subs[c.op.id].status.Expired?
            && OtherLive(st.subs, c.op.id, st.subs[c.op.id].member)
    ensures Apply(st, c) == Aborted(FrozenShape) <==>
            && (c.op.ChangePlan? || c.op.Cancel?) && PassesGuards(st, c) && st.subs[c.op.id].status.Frozen?
    ensures Apply(st, c) == Aborted(FrozenUntilAfterStart) <==>
            && c.op.Freeze? && PassesGuards(st, c) && c.op.until.Some? && c.op.until.value < c.today
    ensures Apply(st, c) != Aborted(CancelledShape) && Apply(st, c) != Aborted(ReplacedShape)
  {
    hide OneLive, ChainSound, Replace, OtherLive;
    InvParts(st);
    match c.op
    case Create(member, plan, startedAt, expiresAt) =>
      NoOtherLiveAtEnd(st.subs, member);
    case ChangePlan(id, newPlan, effective) =>
      if PassesGuards(st, c) {
        ReplaceOutcome(st, id, newPlan, Or(effective, c.today));
      }
    case Freeze(id, until) =>
      LiveAlone(st, id);
    case Unfreeze(id) =>
      LiveAlone(st, id);
    case Renew(id, newExpiresAt) =>
      LiveAlone(st, id);
    case Cancel(id) =>
    case AutoUnfreeze =>
    case AutoExpire =>
  }

  lemma LiveAlone(st: State, id: nat)
    requires Inv(st)
    ensures id < |st.subs| && st.subs[id].IsLive() ==> !OtherLive(st.subs, id, st.subs[id].member)
  {
    if id < |st.subs| && st.subs[id].IsLive() {
      LiveRowIsAlone(st.subs, id);
    }
  }

  lemma NoOtherLiveAtEnd(subs: seq<Sub>, member: nat)
    ensures OtherLive(subs, |subs|, member) <==> OtherLive(subs, -1, member)
  {
  }

  /** The design lets active and frozen subscriptions change plan and be cancelled.  The tables let only active ones
      change plan, and only active and expired ones be cancelled. */
  lemma FrozenRowsAreStuck(st: State, c: Call)
    requires Inv(st) && (c.op.ChangePlan? || c.op.Cancel?) && PassesGuards(st, c)
    ensures Apply(st, c).Committed? <==> !st.subs[c.op.id].status.Frozen?
  {
    hide Apply, OneLive, RowsSound, ChainSound, OtherLive;
    ConstraintsFireExactly(st, c);
    match Apply(st, c)
    case Aborted(OneLivePerMember) =>
    case Aborted(FrozenShape) =>
    case Aborted(CancelledShape) =>
    case Aborted(ReplacedShape) =>
    case Aborted(FrozenUntilAfterStart) =>
    case _ =>
  }

  lemma RunTwo(st: State, c1: Call, c2: Call)
    requires Inv(st)
    ensures Inv(Step(st, c1)) && Run(st, [c1, c2]) == Step(Step(st, c1), c2)
  {
    hide Step, OneLive, RowsSound, ChainSound;
    StepKeepsInv(st, c1);
    assert [c1, c2][..1] == [c1] && [c1][..0] == [];
    assert Run(st, [c1]) == Step(st, c1);
  }

  const ENROLLED: Sub := NewSub(0, 0, 45000, 1, None)

  function OneMember(subs: seq<Sub>, status: MemberStatus): State {
    State([Plan(Recurring, Monthly, None, 45000, true)], [status], subs)
  }

  lemma ExampleEnroll()
    ensures Inv(OneMember([], MemberExpired))
    ensures Step(OneMember([], MemberExpired), Call(1, Create(0, 0, None, None))) == OneMember([ENROLLED], MemberActive)
  {
  }

  lemma ExampleFreeze()
    requires Inv(OneMember([ENROLLED], MemberActive))
    ensures Step(OneMember([ENROLLED], MemberActive), Call(2, Freeze(0, None))) ==
            OneMember([ENROLLED.(status := Frozen, frozenAt := Some(2))], MemberFrozen)
  {
  }

  /** A reachable example: enroll, freeze, cancel. */
  lemma FrozenSubscriptionCannotBeCancelled()
    ensures Inv(OneMember([], MemberExpired))
    ensures Apply(Run(OneMember([], MemberExpired), [Call(1, Create(0, 0, None, None)), Call(2, Freeze(0, None))]),
                  Call(3, Cancel(0))) == Aborted(FrozenShape)
  {
    hide Run, OneLive, RowsSound, ChainSound, OtherLive;
    ExampleEnroll();
    RunTwo(OneMember([], MemberExpired), Call(1, Create(0, 0, None, None)), Call(2, Freeze(0, None)));
    ExampleFreeze();
    ConstraintsFireExactly(OneMember([ENROLLED.(status := Frozen, frozenAt := Some(2))], MemberFrozen),
        Call(3, Cancel(0)));
  }

  // ----- The replacement chain -----------------------------------------------------------------

  /** Following the links from any row stops at a row of the same member that is not replaced. */
  function Follow(subs: seq<Sub>, i: nat): (j: nat)
    requires ChainSound(subs) && i < |subs|
    ensures i <= j < |subs| && !subs[j].status.Replaced? && subs[j].member == subs[i].member
    decreases |subs| - i
  {
    if subs[i].status.Replaced? then Follow(subs, subs[i].replacedBy.value) else i
  }

  /** A plan change adds one link: every row that led to the changed one now leads to the new one. */
  lemma {:induction false} FollowAfterChange(subs: seq<Sub>, id: nat, linked: Sub, added: Sub, i: nat)
    requires ChainSound(subs) && id < |subs| && i < |subs| && !subs[id].status.Replaced?
    requires linked.status.Replaced? && linked.replacedBy == Some(|subs|) && !added.status.Replaced?
    requires ChainSound(subs[id := linked] + [added])
    ensures Follow(subs[id := linked] + [added], i) == if Follow(subs, i) == id then |subs| else Follow(subs, i)
    decreases |subs| - i
  {
    var after := subs[id := linked] + [added];
    if subs[i].status.Replaced? {
      FollowAfterChange(subs, id, linked, added, subs[i].replacedBy.value);
    }
  }

  // ----- The member's status -------------------------------------------------------------------

  /** A member with a live subscription has the status that matches it. */
  ghost predicate Mirror(st: State)
    requires RefsValid(st)
  {
    forall i | 0 <= i < |st.subs| && st.subs[i].IsLive() ::
      st.members[st.subs[i].member] == if st.subs[i].status.Active? then MemberActive else MemberFrozen
  }

  /** An expired row is cancelled while its member has a live one. */
  predicate CancelsBehindLive(st: State, c: Call) {
    && c.op.Cancel? && c.op.id < |st.subs| && st.subs[c.op.id].status.Expired?
    && OtherLive(st.subs, c.op.id, st.subs[c.op.id].member)
  }

  lemma WriteMirrors(st: State, id: nat, row: Sub, status: MemberStatus)
    requires Inv(st) && Mirror(st) && id < |st.subs| && Violation(st.subs, id, row).None?
    requires row.member == st.subs[id].member && row.plan == st.subs[id].plan && row.plan < |st.plans|
    requires row.IsLive() ==> status == if row.status.Active? then MemberActive else MemberFrozen
    requires !row.IsLive() ==> !OtherLive(st.subs, id, row.member)
    ensures RefsValid(st.(subs := st.subs[id := row], members := st.members[row.member := status]))
    ensures Mirror(st.(subs := st.subs[id := row], members := st.members[row.member := status]))
  {
    hide Sub.Broken, Plan.Valid;
    assert !OtherLive(st.subs, id, row.member);
  }

  lemma JobMirrors(st: State, after: seq<Sub>, members: seq<MemberStatus>, due: Sub -> bool, status: MemberStatus)
    requires Inv(st) && Mirror(st) && |after| == |st.subs|
    requires members == SyncMembers(st.members, st.subs, due, status)
    requires forall i | 0 <= i < |after| :: after[i].member == st.subs[i].member && after[i].plan == st.subs[i].plan
    requires forall i | 0 <= i < |after| && due(st.subs[i]) ::
               st.subs[i].IsLive() && (after[i].IsLive() ==> after[i].status.Active? && status == MemberActive)
    requires forall i | 0 <= i < |after| && !due(st.subs[i]) :: after[i] == st.subs[i]
    ensures RefsValid(st.(subs := after, members := members)) && Mirror(st.(subs := after, members := members))
  {
    hide Sub.Broken, Plan.Valid, Violation;
    forall i | 0 <= i < |after| && after[i].IsLive()
      ensures members[after[i].member] == if after[i].status.Active? then MemberActive else MemberFrozen
    {
      var m := after[i].member;
      if exists k | 0 <= k < |st.subs| :: due(st.subs[k]) && st.subs[k].member == m {
        var k :| 0 <= k < |st.subs| && due(st.subs[k]) && st.subs[k].member == m;
        OnlyOneLive(st.subs, i, k);
      }
    }
  }

  lemma OnlyOneLive(subs: seq<Sub>, i: nat, k: nat)
    requires OneLive(subs) && i < |subs| && k < |subs| && subs[i].IsLive() && subs[k].IsLive()
    requires subs[i].member == subs[k].member
    ensures i == k
  {
  }

  /** Each step keeps the member's status in line with the live subscription, unless it cancels an expired row of a
      member who has a live one; such a step always breaks it. */
  lemma StepMirrors(st: State, c: Call)
    requires Inv(st) && Mirror(st)
    ensures Inv(Step(st, c)) && (Mirror(Step(st, c)) <==> !CancelsBehindLive(st, c))
  {
    hide Sub.Broken, Plan.Valid, Replace, ChainSound, OneLive;
    StepKeepsInv(st, c);
    var subs, today := st.subs, c.today;
    match c.op
    case Create(member, plan, startedAt, expiresAt) =>
      CreateMirrors(st, c);
    case Freeze(id, until) =>
      if Apply(st, c).Committed? {
        WriteMirrors(st, id, Apply(st, c).state.subs[id], MemberFrozen);
      }
    case Unfreeze(id) =>
      if Apply(st, c).Committed? {
        WriteMirrors(st, id, Apply(st, c).state.subs[id], MemberActive);
      }
    case Renew(id, newExpiresAt) =>
      if Apply(st, c).Committed? {
        WriteMirrors(st, id, Apply(st, c).state.subs[id], MemberActive);
      }
    case Cancel(id) =>
      CancelMirrors(st, c);
    case ChangePlan(id, newPlan, effective) =>
      if Apply(st, c).Committed? {
        ReplaceOutcome(st, id, newPlan, Or(effective, today));
        ReplaceMirrors(st, id, Apply(st, c).state.subs);
      }
    case AutoUnfreeze =>
      JobMirrors(st, UnfreezeDue(subs, today), Step(st, c).members, (s: Sub) => s.ShouldAutoUnfreeze(today),
          MemberActive);
    case AutoExpire =>
      JobMirrors(st, ExpireDue(subs, today), Step(st, c).members, (s: Sub) => s.ShouldAutoExpire(today), MemberExpired);
  }

  lemma CreateMirrors(st: State, c: Call)
    requires Inv(st) && Mirror(st) && c.op.Create?
    ensures RefsValid(Step(st, c)) && Mirror(Step(st, c))
  {
    hide Sub.Broken, Plan.Valid, ChainSound;
    StepKeepsInv(st, c);
  }

  lemma CancelMirrors(st: State, c: Call)
    requires Inv(st) && Mirror(st) && c.op.Cancel?
    ensures RefsValid(Step(st, c)) && (Mirror(Step(st, c)) <==> !CancelsBehindLive(st, c))
  {
    hide Plan.Valid, ChainSound;
    StepKeepsInv(st, c);
    if Apply(st, c).Committed? {
      var id := c.op.id;
      var row := Apply(st, c).state.subs[id];
      if OtherLive(st.subs, id, row.member) {
        LiveAlone(st, id);
        var j :| 0 <= j < |st.subs| && j != id && st.subs[j].IsLive() && st.subs[j].member == row.member;
        assert Step(st, c).subs[j] == st.subs[j];
      } else {
        WriteMirrors(st, id, row, MemberCancelled);
      }
    }
  }

  lemma ReplaceMirrors(st: State, id: nat, after: seq<Sub>)
    requires Inv(st) && Mirror(st) && id < |st.subs| && st.subs[id].IsLive() && |after| == |st.subs| + 1
    requires after[|st.subs|].status.Active? && after[|st.subs|].member == st.subs[id].member && !after[id].IsLive()
    requires forall j | 0 <= j < |st.subs| && j != id :: after[j] == st.subs[j]
    requires RefsValid(st.(subs := after, members := st.members[st.subs[id].member := MemberActive]))
    ensures Mirror(st.(subs := after, members := st.members[st.subs[id].member := MemberActive]))
  {
    hide Sub.Broken, Plan.Valid, ChainSound;
    LiveAlone(st, id);
  }

  /** In every run that never cancels an expired row behind a live one, the mirror holds throughout. */
  lemma {:induction false} RunMirrors(st: State, calls: seq<Call>)
    requires Inv(st) && Mirror(st)
    requires forall k | 0 <= k < |calls| :: !CancelsBehindLive(Run(st, calls[..k]), calls[k])
    ensures Mirror(Run(st, calls))
  {
    hide Inv, Step, Mirror;
    if calls != [] {
      var n := |calls| - 1;
      var init := calls[..n];
      forall k | 0 <= k < n
        ensures !CancelsBehindLive(Run(st, init[..k]), init[k])
      {
        assert init[..k] == calls[..k];
      }
      RunMirrors(st, init);
      StepMirrors(Run(st, init), calls[n]);
    }
  }

  /** The mirror holds in every state of a run. */
  ghost predicate MirrorsThroughout(st: State, calls: seq<Call>)
    requires Inv(st)
  {
    Mirror(Run(st, calls)) && (calls == [] || MirrorsThroughout(st, calls[..|calls| - 1]))
  }

  ghost predicate NoneCancelsBehindLive(st: State, calls: seq<Call>)
    requires Inv(st)
  {
    calls == [] || (NoneCancelsBehindLive(st, calls[..|calls| - 1])
                    && !CancelsBehindLive(Run(st, calls[..|calls| - 1]), calls[|calls| - 1]))
  }

  /** Over every run the mirror holds throughout if and only if no call cancels an expired row behind a live one. */
  lemma {:induction false} RunMirrorsExactly(st: State, calls: seq<Call>)
    requires Inv(st) && Mirror(st)
    ensures MirrorsThroughout(st, calls) <==> NoneCancelsBehindLive(st, calls)
  {
    hide Inv, Step, Mirror;
    if calls != [] {
      var init := calls[..|calls| - 1];
      RunMirrorsExactly(st, init);
      EndMirrors(st, init);
      if MirrorsThroughout(st, init) {
        StepMirrors(Run(st, init), calls[|calls| - 1]);
      }
    }
  }

  lemma EndMirrors(st: State, calls: seq<Call>)
    requires Inv(st)
    ensures MirrorsThroughout(st, calls) ==> Mirror(Run(st, calls))
  {
    hide Inv, Run, Mirror;
  }

  // ----- Two runs that put an expired row behind a live one ------------------------------------

  const LAPSED: Sub := NewSub(0, 0, 45000, 1, Some(1)).(status := Expired, expiredAt := Some(2))
  const REJOINED: Sub := NewSub(0, 0, 45000, 2, None)

  /** Enroll for one day, expire, enroll again. */
  const REJOIN: seq<Call> :=
    [Call(1, Create(0, 0, None, Some(1))), Call(2, AutoExpire), Call(2, Create(0, 0, None, None))]

  lemma RunAppend(st: State, calls: seq<Call>, c: Call)
    requires Inv(st)
    ensures Run(st, calls + [c]) == Step(Run(st, calls), c)
  {
    hide Inv, Step;
    assert (calls + [c])[..|calls|] == calls;
  }

  const FIRST: Sub := NewSub(0, 0, 45000, 1, Some(1))

  lemma RejoinEnroll()
    ensures Inv(OneMember([], MemberExpired))
    ensures Step(OneMember([], MemberExpired), REJOIN[0]) == OneMember([FIRST], MemberActive)
  {
  }

  lemma RejoinExpire()
    ensures Inv(OneMember([FIRST], MemberActive))
    ensures Step(OneMember([FIRST], MemberActive), REJOIN[1]) == OneMember([LAPSED], MemberExpired)
  {
    var due := (s: Sub) => s.ShouldAutoExpire(2);
    assert due([FIRST][0]) && [FIRST][0].member == 0;
    assert ExpireDue([FIRST], 2) == [LAPSED];
    assert SyncMembers([MemberActive], [FIRST], due, MemberExpired) == [MemberExpired];
  }

  lemma RejoinAgain()
    ensures Inv(OneMember([LAPSED], MemberExpired))
    ensures Step(OneMember([LAPSED], MemberExpired), REJOIN[2]) == OneMember([LAPSED, REJOINED], MemberActive)
  {
    assert [LAPSED] + [REJOINED] == [LAPSED, REJOINED];
  }

  lemma RejoinRun()
    ensures Inv(OneMember([], MemberExpired))
    ensures Run(OneMember([], MemberExpired), REJOIN) == OneMember([LAPSED, REJOINED], MemberActive)
  {
    RejoinEnroll();
    RejoinExpire();
    RejoinAgain();
    hide Step, Inv, OneMember;
    RunThree(OneMember([], MemberExpired), REJOIN[0], REJOIN[1], REJOIN[2]);
    assert REJOIN == [REJOIN[0], REJOIN[1], REJOIN[2]];
  }

  lemma RunThree(st: State, c1: Call, c2: Call, c3: Call)
    requires Inv(st) && Inv(Step(st, c1)) && Inv(Step(Step(st, c1), c2))
    ensures Run(st, [c1, c2, c3]) == Step(Step(Step(st, c1), c2), c3)
  {
    hide Inv, Step;
    assert Run(st, []) == st;
    RunAppend(st, [], c1);
    RunAppend(st, [c1], c2);
    RunAppend(st, [c1, c2], c3);
    assert [] + [c1] == [c1] && [c1] + [c2] == [c1, c2] && [c1, c2] + [c3] == [c1, c2, c3];
  }

  /** Cancelling the expired row then leaves a member with an active subscription and the status `cancelled`. */
  lemma CancelBehindLiveBreaksMirror()
    ensures Inv(OneMember([], MemberExpired))
    ensures var st, c := Run(OneMember([], MemberExpired), REJOIN), Call(3, Cancel(0));
            && Mirror(st) && CancelsBehindLive(st, c) && Apply(st, c).Committed?
            && Inv(Step(st, c)) && !Mirror(Step(st, c))
            && Step(st, c).members == [MemberCancelled] && Step(st, c).subs[1].status.Active?
  {
    RejoinRun();
    RejoinedState();
  }

  lemma RejoinedState()
    requires Inv(OneMember([LAPSED, REJOINED], MemberActive))
    ensures var st, c := OneMember([LAPSED, REJOINED], MemberActive), Call(3, Cancel(0));
            && Mirror(st) && CancelsBehindLive(st, c) && Apply(st, c).Committed?
            && Inv(Step(st, c)) && !Mirror(Step(st, c))
            && Step(st, c).members == [MemberCancelled] && Step(st, c).subs[1].status.Active?
  {
    var st, c := OneMember([LAPSED, REJOINED], MemberActive), Call(3, Cancel(0));
    assert OtherLive(st.subs, 0, 0) by { assert st.subs[1].IsLive(); }
    hide Inv, RefsValid, OtherLive;
    InvParts(st);
    StepMirrors(st, c);
  }

  /** Renewing it instead is stopped by the unique index on live rows. */
  lemma RenewBehindLiveAborts()
    ensures Inv(OneMember([], MemberExpired))
    ensures Apply(Run(OneMember([], MemberExpired), REJOIN), Call(3, Renew(0, None))) == Aborted(OneLivePerMember)
  {
    RejoinRun();
    var st := Run(OneMember([], MemberExpired), REJOIN);
    hide Run, Inv, Apply, OneLive, RowsSound, ChainSound;
    assert OtherLive(st.subs, 0, 0) by { assert st.subs[1].IsLive(); }
    ConstraintsFireExactly(st, Call(3, Renew(0, None)));
  }

  // ----- The nightly jobs ----------------------------------------------------------------------

  /** No freeze has ended by today, and no active row's expiry lies before it. */
  ghost predicate NothingDue(subs: seq<Sub>, today: int) {
    forall i | 0 <= i < |subs| ::
      && !(subs[i].status == Frozen && subs[i].frozenUntil.Some? && subs[i].frozenUntil.value <= today)
      && !(subs[i].status == Active && subs[i].expiresAt.Some? && subs[i].expiresAt.value < today)
  }

  ghost function Night(st: State, today: int): State
    requires Inv(st)
  {
    StepKeepsInv(st, Call(today, AutoUnfreeze));
    Step(Step(st, Call(today, AutoUnfreeze)), Call(today, AutoExpire))
  }

  /** After both jobs nothing is due, and running both again on the same day moves nothing. */
  lemma NightLeavesNothingDue(st: State, today: int)
    requires Inv(st)
    ensures NothingDue(Night(st, today).subs, today)
    ensures Inv(Night(st, today)) && Night(Night(st, today), today) == Night(st, today)
  {
    var mid := Step(st, Call(today, AutoUnfreeze));
    StepKeepsInv(st, Call(today, AutoUnfreeze));
    StepKeepsInv(mid, Call(today, AutoExpire));
    NightRows(st, today);
    QuietNight(Night(st, today), today);
  }

  lemma NightRows(st: State, today: int)
    requires Inv(st)
    ensures Night(st, today).subs == ExpireDue(UnfreezeDue(st.subs, today), today)
    ensures NothingDue(Night(st, today).subs, today)
  {
    hide Sub.Broken, Inv, RefsValid, SyncMembers, ExtendForUnfreeze;
    StepKeepsInv(st, Call(today, AutoUnfreeze));
    var mid, end := UnfreezeDue(st.subs, today), ExpireDue(UnfreezeDue(st.subs, today), today);
    forall i | 0 <= i < |end|
      ensures !end[i].ShouldAutoUnfreeze(today) && !end[i].ShouldAutoExpire(today)
    {
      assert end[i] == if mid[i].ShouldAutoExpire(today) then ExpiredRow(mid[i], today) else mid[i];
    }
  }

  lemma QuietNight(st: State, today: int)
    requires Inv(st) && NothingDue(st.subs, today)
    ensures Night(st, today) == st
  {
    assert forall i | 0 <= i < |st.subs| ::
        !st.subs[i].ShouldAutoUnfreeze(today) && !st.subs[i].ShouldAutoExpire(today);
    hide Sub.Broken, Inv, RefsValid, Sub.ShouldAutoUnfreeze, Sub.ShouldAutoExpire;
    StepKeepsInv(st, Call(today, AutoUnfreeze));
    assert UnfreezeDue(st.subs, today) == st.subs;
    assert ExpireDue(st.subs, today) == st.subs;
    assert SyncMembers(st.members, st.subs, (s: Sub) => s.ShouldAutoUnfreeze(today), MemberActive) == st.members;
    assert SyncMembers(st.members, st.subs, (s: Sub) => s.ShouldAutoExpire(today), MemberExpired) == st.members;
  }

  /** The night that unfreezes a subscription leaves it active, and expires it only if it was past due already when
      it was frozen. */
  lemma UnfrozenIsNotExpired(st: State, today: int, i: nat)
    requires Inv(st) && i < |st.subs| && st.subs[i].ShouldAutoUnfreeze(today)
    ensures st.subs[i].frozenAt.Some?
    ensures var s, t := st.subs[i], Unfrozen(st.subs[i], today);
            Night(st, today).subs[i] ==
            if s.expiresAt.Some? && s.expiresAt.value < s.frozenAt.value then ExpiredRow(t, today) else t
  {
    assert st.subs[i].Broken().None?;
    hide Inv;
    NightRows(st, today);
  }

  // ----- Paid time -----------------------------------------------------------------------------

  /** Where the paid days of a row stand on a day: a freeze stops the clock at its first day. */
  function PaidUntil(s: Sub, day: int): int { if s.frozenAt.Some? then s.frozenAt.value else day }

  function LastDay(day: int, calls: seq<Call>): int {
    if calls == [] then day else calls[|calls| - 1].today
  }

  predicate Ordered(day: int, calls: seq<Call>) {
    && (forall k | 0 <= k < |calls| :: day <= calls[k].today)
    && (forall j, k | 0 <= j <= k < |calls| :: calls[j].today <= calls[k].today)
  }

  /** How many days of a run row `i` spent in a status, from `day` to the last call. */
  ghost function DaysIn(st: State, day: int, calls: seq<Call>, i: nat, status: Status): int
    requires Inv(st)
  {
    if calls == [] then 0
    else
      var init, c := calls[..|calls| - 1], calls[|calls| - 1];
      var mid := Run(st, init).subs;
      DaysIn(st, day, init, i, status)
      + if i < |mid| && mid[i].status == status then c.today - LastDay(day, init) else 0
  }

  /** Freezes began no later than the clock shows. */
  predicate FrozenInPast(subs: seq<Sub>, day: int) {
    forall i | 0 <= i < |subs| && subs[i].frozenAt.Some? :: subs[i].frozenAt.value <= day
  }

  lemma StepFrozenInPast(st: State, c: Call)
    requires Inv(st) && FrozenInPast(st.subs, c.today)
    ensures FrozenInPast(Step(st, c).subs, c.today)
  {
    hide Sub.Broken, Plan.Valid, OtherLive, Replace, ChainSound, OneLive;
    if c.op.ChangePlan? && Apply(st, c).Committed? {
      ReplaceOutcome(st, c.op.id, c.op.newPlan, Or(c.op.effective, c.today));
    }
  }

  predicate Renews(c: Call, i: nat) { c.op.Renew? && c.op.id == i }

  /** The row `t` is dead, or it is what became of the live row `s` with no paid day gained or lost on `day`. */
  predicate KeepsPaidTime(s: Sub, t: Sub, day: int) {
    t.IsLive() ==>
      && s.IsLive()
      && t.expiresAt.Some? == s.expiresAt.Some?
      && (s.expiresAt.Some? ==> t.expiresAt.value - PaidUntil(t, day) == s.expiresAt.value - PaidUntil(s, day))
  }

  lemma RowTransitionsKeepPaidTime(s: Sub, day: int, until: Option<int>)
    requires s.Broken().None? && (s.frozenAt.Some? ==> s.frozenAt.value <= day)
    ensures s.status.Frozen? ==> KeepsPaidTime(s, Unfrozen(s, day), day)
    ensures s.status.Active? ==>
            KeepsPaidTime(s, s.(status := Frozen, frozenAt := Some(day), frozenUntil := until), day)
    ensures KeepsPaidTime(s, s, day)
  {
  }

  /** One call, renewals of the row apart: a dead row stays dead, and a live one that stays live keeps its paid days. */
  lemma StepKeepsPaidTime(st: State, c: Call, i: nat)
    requires Inv(st) && i < |st.subs| && FrozenInPast(st.subs, c.today) && !Renews(c, i)
    ensures i < |Step(st, c).subs| && KeepsPaidTime(st.subs[i], Step(st, c).subs[i], c.today)
  {
    assert st.subs[i].Broken().None?;
    RowTransitionsKeepPaidTime(st.subs[i], c.today, if c.op.Freeze? then c.op.until else None);
    hide Inv, Sub.Broken, Plan.Valid, OtherLive, Replace, Unfrozen, PaidUntil;
    match c.op
    case ChangePlan(id, newPlan, effective) =>
      if Apply(st, c).Committed? {
        ReplaceOutcome(st, id, newPlan, Or(effective, c.today));
      }
    case _ =>
  }

  /** Only active days use up paid days: over any run that does not renew row `i` and leaves it live, its remaining paid
      days shrink by exactly the days it was active. */
  lemma {:induction false} PaidTimeIsConserved(st: State, day: int, calls: seq<Call>, i: nat)
    requires Inv(st) && i < |st.subs| && FrozenInPast(st.subs, day) && Ordered(day, calls)
    requires forall k | 0 <= k < |calls| :: !Renews(calls[k], i)
    ensures var end := Run(st, calls);
            && FrozenInPast(end.subs, LastDay(day, calls)) && i < |end.subs|
            && (end.subs[i].IsLive() ==>
                  var s, t := st.subs[i], end.subs[i];
                  && s.IsLive() && t.expiresAt.Some? == s.expiresAt.Some?
                  && (s.expiresAt.Some? ==>
                        t.expiresAt.value - PaidUntil(t, LastDay(day, calls))
                        == s.expiresAt.value - PaidUntil(s, day) - DaysIn(st, day, calls, i, Active)))
  {
    hide Inv, Step;
    if calls != [] {
      var init, c := calls[..|calls| - 1], calls[|calls| - 1];
      PaidTimeIsConserved(st, day, init, i);
      var mid := Run(st, init);
      assert LastDay(day, init) <= c.today;
      StepFrozenInPast(mid, c);
      StepKeepsPaidTime(mid, c, i);
      LiveStatus(mid, i);
    }
  }

  lemma LiveStatus(st: State, i: nat)
    requires Inv(st) && i < |st.subs|
    ensures st.subs[i].status.Frozen? <==> st.subs[i].frozenAt.Some?
  {
    assert st.subs[i].Broken().None?;
  }

  lemma {:induction false} LiveDaysAddUp(st: State, day: int, calls: seq<Call>, i: nat)
    requires Inv(st) && i < |st.subs| && FrozenInPast(st.subs, day) && Ordered(day, calls)
    requires forall k | 0 <= k < |calls| :: !Renews(calls[k], i)
    requires Run(st, calls).subs != [] && i < |Run(st, calls).subs| && Run(st, calls).subs[i].IsLive()
    ensures DaysIn(st, day, calls, i, Active) + DaysIn(st, day, calls, i, Frozen) == LastDay(day, calls) - day
  {
    hide Inv, Step;
    if calls != [] {
      var init, c := calls[..|calls| - 1], calls[|calls| - 1];
      PaidTimeIsConserved(st, day, init, i);
      assert LastDay(day, init) <= c.today;
      var mid := Run(st, init);
      StepFrozenInPast(mid, c);
      StepKeepsPaidTime(mid, c, i);
      LiveDaysAddUp(st, day, init, i);
    }
  }

  /** Over any run of freezes and unfreezes, manual or automatic, that starts and ends active without renewal,
      `expires_at` moves forward by exactly the number of frozen days. */
  lemma ExpiryMovesByFrozenDays(st: State, day: int, calls: seq<Call>, i: nat)
    requires Inv(st) && i < |st.subs| && FrozenInPast(st.subs, day) && Ordered(day, calls)
    requires forall k | 0 <= k < |calls| :: !Renews(calls[k], i)
    requires st.subs[i].status.Active? && st.subs[i].expiresAt.Some?
    requires i < |Run(st, calls).subs| && Run(st, calls).subs[i].status.Active?
    ensures Run(st, calls).subs[i].expiresAt ==
            Some(st.subs[i].expiresAt.value + DaysIn(st, day, calls, i, Frozen))
  {
    hide Inv, Run, DaysIn;
    PaidTimeIsConserved(st, day, calls, i);
    LiveDaysAddUp(st, day, calls, i);
    LiveStatus(st, i);
    LiveStatus(Run(st, calls), i);
  }

  /** A renewal without an explicit date ends after today, and never before the paid days already held run out. */
  lemma DefaultRenewalAddsTime(s: Sub, p: Plan, today: int)
    requires p.Valid() && s.CanRenew()
    ensures today < DefaultRenewal(s, p, today)
    ensures s.status.Active? && s.expiresAt.Some? ==> s.expiresAt.value < DefaultRenewal(s, p, today)
    ensures !s.(status := Active, expiresAt := Some(DefaultRenewal(s, p, today))).ShouldAutoExpire(today)
  {
  }
}
