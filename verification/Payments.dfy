/** The payment ledger: `payment_service.py` over the table of migration 0014.  Rows are only ever appended. */
module Payments {
  import opened Basics
  import opened Calendar
  import opened Sums

  const BACKDATE_LIMIT_DAYS: int := 30

  datatype Method = Cash | CreditCard | StandingOrder | Other

  /** `id` is the row's position in the ledger. */
  datatype Payment = Payment(
    id: nat, member: nat, sub: Option<nat>, amount: int, via: Method, paidAt: int, refundOf: Option<nat>)
  {
    predicate IsRefund() { refundOf.Some? }

    /** The payment a row belongs to: itself, or the one it refunds. */
    function Root(): nat { match refundOf case Some(j) => j case None => id }
  }

  type Ledger = seq<Payment>

  /** The other tables, as far as the service reads them: how many members there are, and each
      subscription's member and plan. */
  datatype Context = Context(members: nat, subOwner: seq<nat>, subPlan: seq<nat>)

  datatype Error =
    | AmountInvalid
    | DateInvalid
    | MemberNotFound
    | SubscriptionNotFound
    | PaymentNotFound
    | AlreadyFullyRefunded
    | RefundExceedsOriginal(requested: int, remaining: int)

  datatype Reply = Ok(row: Payment) | Err(error: Error)

  function Refunds(id: nat): Payment -> bool { (p: Payment) => p.refundOf == Some(id) }

  /** `sum(-r.amount_cents for r in list_refunds_for(id))`. */
  function Refunded(ledger: Ledger, id: nat): int {
    Sum(ledger, Refunds(id), (p: Payment) => -p.amount)
  }

  /** The row that `record` inserts, or its error. */
  function RecordReply(
      cx: Context, ledger: Ledger, member: nat, amount: int, via: Method, paidAt: Option<int>, sub: Option<nat>,
      backdate: bool, today: int): Reply
  {
    var when := Or(paidAt, today);
    if amount <= 0 then Err(AmountInvalid)
    else if when > today then Err(DateInvalid)
    else if today - when > BACKDATE_LIMIT_DAYS && !backdate then Err(DateInvalid)
    else if member >= cx.members then Err(MemberNotFound)
    else if sub.Some? && (sub.value >= |cx.subOwner| || cx.subOwner[sub.value] != member) then Err(SubscriptionNotFound)
    else Ok(Payment(|ledger|, member, sub, amount, via, when, None))
  }

  /** The row that `refund` inserts, or its error. */
  function RefundReply(ledger: Ledger, id: nat, amount: Option<int>, today: int): Reply {
    if id >= |ledger| then Err(PaymentNotFound)
    else
      var original := ledger[id];
      var remaining := original.amount - Refunded(ledger, id);
      var requested := Or(amount, remaining);
      if original.IsRefund() then Err(AmountInvalid)
      else if original.amount <= 0 then Err(AmountInvalid)
      else if remaining <= 0 then Err(AlreadyFullyRefunded)
      else if requested <= 0 then Err(AmountInvalid)
      else if requested > remaining then Err(RefundExceedsOriginal(requested, remaining))
      else Ok(Payment(|ledger|, original.member, original.sub, -requested, original.via, today, Some(id)))
  }

  datatype Op =
    | Record(member: nat, amount: int, via: Method, paidAt: Option<int>, sub: Option<nat>, backdate: bool)
    | Refund(id: nat, refund: Option<int>)

  datatype Call = Call(today: int, op: Op)

  function Answer(cx: Context, ledger: Ledger, c: Call): Reply {
    match c.op
    case Record(member, amount, via, paidAt, sub, backdate) =>
      RecordReply(cx, ledger, member, amount, via, paidAt, sub, backdate, c.today)
    case Refund(id, amount) => RefundReply(ledger, id, amount, c.today)
  }

  function Step(cx: Context, ledger: Ledger, c: Call): Ledger {
    match Answer(cx, ledger, c) case Ok(row) => ledger + [row] case Err(_) => ledger
  }

  function Run(cx: Context, calls: seq<Call>): Ledger {
    if calls == [] then [] else Step(cx, Run(cx, calls[..|calls| - 1]), calls[|calls| - 1])
  }

  // ----- Replies and rows, column by column ----------------------------------------------------

  /** A payment is refused in this order: amount, day, member, subscription; otherwise its row is appended as given. */
  predicate Booked(cx: Context, before: Ledger, after: Ledger, c: Call, r: Reply)
    requires c.op.Record?
  {
    var day := if c.op.paidAt.Some? then c.op.paidAt.value else c.today;
    if c.op.amount < 1 then r == Err(AmountInvalid) && after == before
    else if c.today < day || (day < c.today - 30 && !c.op.backdate) then r == Err(DateInvalid) && after == before
    else if c.op.member >= cx.members then r == Err(MemberNotFound) && after == before
    else if c.op.sub.Some?
            && !(c.op.sub.value < |cx.subOwner| && cx.subOwner[c.op.sub.value] == c.op.member)
    then r == Err(SubscriptionNotFound) && after == before
    else
      var row := Payment(|before|, c.op.member, c.op.sub, c.op.amount, c.op.via, day, None);
      r == Ok(row) && after == before + [row]
  }

  lemma RecordEffect(cx: Context, ledger: Ledger, c: Call)
    requires c.op.Record?
    ensures Booked(cx, ledger, Step(cx, ledger, c), c, Answer(cx, ledger, c))
  {
  }

  /** What is left of a payment: its amount and its refunds, which are negative, added up. */
  function Left(ledger: Ledger, id: nat): int
    requires id < |ledger|
  {
    ledger[id].amount + Sum(ledger, Refunds(id), (p: Payment) => p.amount)
  }

  lemma LeftIsRemaining(ledger: Ledger, id: nat)
    requires id < |ledger|
    ensures Left(ledger, id) == ledger[id].amount - Refunded(ledger, id)
  {
    RefundedIsTotal(ledger, id);
  }

  /** An accepted refund appends one row that gives back the amount asked for, or all that is left, from the same
      member, subscription and method, dated today; and exactly that much less is left of the original. */
  lemma RefundEffect(cx: Context, ledger: Ledger, id: nat, amount: Option<int>, today: int)
    requires Answer(cx, ledger, Call(today, Refund(id, amount))).Ok?
    ensures id < |ledger|
    ensures var after := Step(cx, ledger, Call(today, Refund(id, amount)));
            var given := if amount.Some? then amount.value else Left(ledger, id);
            && after == ledger + [Payment(|ledger|, ledger[id].member, ledger[id].sub, -given, ledger[id].via, today,
                                          Some(id))]
            && Answer(cx, ledger, Call(today, Refund(id, amount))) == Ok(after[|ledger|])
            && Left(after, id) == Left(ledger, id) - given
            && 0 < given <= Left(ledger, id)
  {
    var row := Answer(cx, ledger, Call(today, Refund(id, amount))).row;
    LeftIsRemaining(ledger, id);
    SumAppend(ledger, row, Refunds(id), (p: Payment) => p.amount);
    hide Refunded, Sum;
  }

  /** A refusal says why: no such payment, a refund of a refund, nothing left, an amount that is not positive, or more
      than is left. */
  lemma RefundRefusals(cx: Context, ledger: Ledger, id: nat, amount: Option<int>, today: int)
    requires Sound(ledger)
    ensures var r := Answer(cx, ledger, Call(today, Refund(id, amount)));
            && (id >= |ledger| ==> r == Err(PaymentNotFound))
            && (id < |ledger| && ledger[id].refundOf != None ==> r == Err(AmountInvalid))
            && (id < |ledger| && ledger[id].refundOf == None ==>
                  var left := Left(ledger, id);
                  && (left == 0 ==> r == Err(AlreadyFullyRefunded))
                  && (left != 0 && amount.Some? && amount.value < 1 ==> r == Err(AmountInvalid))
                  && (left != 0 && amount.Some? && left < amount.value ==>
                        r == Err(RefundExceedsOriginal(amount.value, left)))
                  && (left != 0 && (amount.Some? ==> 0 < amount.value <= left) ==> r.Ok?))
  {
    if id < |ledger| {
      LeftIsRemaining(ledger, id);
      assert RowSound(ledger, ledger[id]);
    }
    hide Refunded, Sum;
  }

  /** Two accepted refunds of n and of m leave exactly the rest of an untouched payment. */
  lemma TwoRefunds(cx: Context, ledger: Ledger, id: nat, n: int, m: int, today: int, later: int)
    requires id < |ledger| && Left(ledger, id) == ledger[id].amount
    requires Answer(cx, ledger, Call(today, Refund(id, Some(n)))).Ok?
    requires Answer(cx, Step(cx, ledger, Call(today, Refund(id, Some(n)))), Call(later, Refund(id, Some(m)))).Ok?
    ensures var once := Step(cx, ledger, Call(today, Refund(id, Some(n))));
            var twice := Step(cx, once, Call(later, Refund(id, Some(m))));
            && id < |twice| && twice[id] == ledger[id] && Left(twice, id) == ledger[id].amount - n - m
  {
    RefundEffect(cx, ledger, id, Some(n), today);
    var once := Step(cx, ledger, Call(today, Refund(id, Some(n))));
    RefundEffect(cx, once, id, Some(m), later);
    hide Left, Answer;
  }

  class PaymentService {
    const cx: Context
    var ledger: Ledger

    constructor (cx: Context)
      ensures this.cx == cx && ledger == []
    {
      this.cx, ledger := cx, [];
    }

    method Record(
        member: nat, amount: int, via: Method, paidAt: Option<int>, sub: Option<nat>, backdate: bool, today: int)
      returns (r: Reply)
      modifies this
      ensures r == RecordReply(cx, old(ledger), member, amount, via, paidAt, sub, backdate, today)
      ensures ledger == Step(cx, old(ledger), Call(today, Op.Record(member, amount, via, paidAt, sub, backdate)))
      ensures Booked(cx, old(ledger), ledger, Call(today, Op.Record(member, amount, via, paidAt, sub, backdate)), r)
    {
      if amount <= 0 {
        return Err(AmountInvalid);
      }
      var when := Or(paidAt, today);
      if when > today {
        return Err(DateInvalid);
      }
      var daysBack := today - when;
      if daysBack > BACKDATE_LIMIT_DAYS && !backdate {
        return Err(DateInvalid);
      }
      if member >= cx.members {
        return Err(MemberNotFound);
      }
      if sub.Some? {
        if sub.value >= |cx.subOwner| || cx.subOwner[sub.value] != member {
          return Err(SubscriptionNotFound);
        }
      }
      var row := Payment(|ledger|, member, sub, amount, via, when, None);
      ledger := ledger + [row];
      r := Ok(row);
    }

    method Refund(id: nat, amount: Option<int>, today: int) returns (r: Reply)
      modifies this
      ensures r == RefundReply(old(ledger), id, amount, today)
      ensures ledger == Step(cx, old(ledger), Call(today, Op.Refund(id, amount)))
      ensures r.Err? ==> ledger == old(ledger)
      ensures r.Ok? ==>
                && id < |old(ledger)| && ledger == old(ledger) + [r.row]
                && r.row.refundOf == Some(id) && r.row.paidAt == today
                && (amount.Some? ==> r.row.amount == -amount.value)
                && (amount.None? ==> r.row.amount == -Left(old(ledger), id))
                && Left(ledger, id) == Left(old(ledger), id) + r.row.amount
    {
      if RefundReply(ledger, id, amount, today).Ok? {
        RefundEffect(cx, ledger, id, amount, today);
      }
      hide Left;
      if id >= |ledger| {
        return Err(PaymentNotFound);
      }
      var original := ledger[id];
      if original.IsRefund() || original.amount <= 0 {
        return Err(AmountInvalid);
      }
      var alreadyRefunded := 0;
      for i := 0 to |ledger|
        invariant ledger == old(ledger)
        invariant alreadyRefunded == Sum(ledger[..i], Refunds(id), (p: Payment) => -p.amount)
      {
        assert ledger[..i + 1] == ledger[..i] + [ledger[i]];
        SumAppend(ledger[..i], ledger[i], Refunds(id), (p: Payment) => -p.amount);
        if ledger[i].refundOf == Some(id) {
          alreadyRefunded := alreadyRefunded + -ledger[i].amount;
        }
      }
      assert ledger[..|ledger|] == ledger;
      var remaining := original.amount - alreadyRefunded;
      if remaining <= 0 {
        return Err(AlreadyFullyRefunded);
      }
      var requested := Or(amount, remaining);
      if requested <= 0 {
        return Err(AmountInvalid);
      }
      if requested > remaining {
        return Err(RefundExceedsOriginal(requested, remaining));
      }
      var row := Payment(|ledger|, original.member, original.sub, -requested, original.via, today, Some(id));
      ledger := ledger + [row];
      r := Ok(row);
    }
  }

  // ----- The ledger's invariant ----------------------------------------------------------------

  /** Refund chains have depth one; a refund is negative, later, and booked where its original is. */
  predicate RowSound(ledger: Ledger, p: Payment) {
    match p.refundOf
    case None => p.amount > 0
    case Some(j) =>
      && p.amount < 0 && j < |ledger| && ledger[j].refundOf.None?
      && ledger[j].member == p.member && ledger[j].sub == p.sub && ledger[j].via == p.via
      && ledger[j].paidAt <= p.paidAt
  }

  ghost predicate Sound(ledger: Ledger) {
    && (forall i | 0 <= i < |ledger| :: ledger[i].id == i && RowSound(ledger, ledger[i]))
    && (forall i | 0 <= i < |ledger| && ledger[i].refundOf.None? :: 0 <= Refunded(ledger, i) <= ledger[i].amount)
  }

  predicate PaidBy(ledger: Ledger, today: int) {
    forall i | 0 <= i < |ledger| :: ledger[i].paidAt <= today
  }

  lemma RefundedAppend(ledger: Ledger, row: Payment, id: nat)
    ensures Refunded(ledger + [row], id) == Refunded(ledger, id) - if row.refundOf == Some(id) then row.amount else 0
  {
    SumAppend(ledger, row, Refunds(id), (p: Payment) => -p.amount);
  }

  lemma {:induction false} NoRefundsOf(ledger: Ledger, id: nat)
    requires forall p | p in ledger :: p.refundOf != Some(id)
    ensures Refunded(ledger, id) == 0
  {
    if ledger != [] {
      var init, row := ledger[..|ledger| - 1], ledger[|ledger| - 1];
      assert row in ledger;
      NoRefundsOf(init, id);
      RefundedAppend(init, row, id);
      assert ledger == init + [row];
    }
  }

  lemma RowStaysSound(ledger: Ledger, row: Payment, p: Payment)
    requires RowSound(ledger, p)
    ensures RowSound(ledger + [row], p)
  {
  }

  lemma StepKeepsSound(cx: Context, ledger: Ledger, c: Call)
    requires Sound(ledger) && PaidBy(ledger, c.today)
    ensures Sound(Step(cx, ledger, c)) && PaidBy(Step(cx, ledger, c), c.today)
  {
    if Answer(cx, ledger, c).Ok? {
      var row := Answer(cx, ledger, c).row;
      var after := ledger + [row];
      forall i | 0 <= i < |after|
        ensures RowSound(after, after[i])
      {
        RowStaysSound(ledger, row, after[i]);
      }
      hide Refunded, RowSound;
      forall i | 0 <= i < |after| && after[i].refundOf.None?
        ensures 0 <= Refunded(after, i) <= after[i].amount
      {
        RefundedAppend(ledger, row, i);
        if i == |ledger| {
          NothingRefundsTheNext(ledger);
        }
      }
    }
  }

  lemma NothingRefundsTheNext(ledger: Ledger)
    requires Sound(ledger)
    ensures Refunded(ledger, |ledger|) == 0
  {
    hide Refunded;
    forall p | p in ledger
      ensures p.refundOf != Some(|ledger|)
    {
      var i :| 0 <= i < |ledger| && ledger[i] == p;
      assert RowSound(ledger, ledger[i]);
    }
    NoRefundsOf(ledger, |ledger|);
  }

  predicate Ordered(calls: seq<Call>) {
    forall i, j | 0 <= i <= j < |calls| :: calls[i].today <= calls[j].today
  }

  /** Over every run of record and refund, each original plus its refunds stays between zero and the original amount,
      refund chains have depth one, and a refund is dated no earlier than its original. */
  lemma {:induction false} LedgerStaysSound(cx: Context, calls: seq<Call>)
    requires Ordered(calls)
    ensures Sound(Run(cx, calls))
    ensures calls != [] ==> PaidBy(Run(cx, calls), calls[|calls| - 1].today)
  {
    hide Sound, Answer;
    if calls == [] {
      EmptySound();
    } else {
      var init, c := calls[..|calls| - 1], calls[|calls| - 1];
      LedgerStaysSound(cx, init);
      StepKeepsSound(cx, Run(cx, init), c);
    }
  }

  lemma EmptySound()
    ensures Sound([])
  {
  }

  /** A refund without an amount leaves exactly zero, and the next one is told so. */
  lemma FullRefundLeavesZero(cx: Context, ledger: Ledger, id: nat, today: int, later: int, amount: Option<int>)
    requires Answer(cx, ledger, Call(today, Refund(id, None))).Ok?
    ensures var after := Step(cx, ledger, Call(today, Refund(id, None)));
            && after[id].amount - Refunded(after, id) == 0
            && Answer(cx, after, Call(later, Refund(id, amount))) == Err(AlreadyFullyRefunded)
  {
    RefundedAppend(ledger, Answer(cx, ledger, Call(today, Refund(id, None))).row, id);
    hide Refunded;
  }

  /** A refund of a given amount is accepted exactly when that amount is positive and still there to give back. */
  lemma RefundAcceptedExactly(ledger: Ledger, id: nat, n: int, today: int)
    requires Sound(ledger)
    ensures RefundReply(ledger, id, Some(n), today).Ok? <==>
            && id < |ledger| && !ledger[id].IsRefund() && 0 < n <= ledger[id].amount - Refunded(ledger, id)
  {
    hide Refunded;
    if id < |ledger| {
      assert RowSound(ledger, ledger[id]);
    }
  }

  // ----- Totals are never negative -------------------------------------------------------------

  /** A report that keeps or drops a payment together with its refunds, up to a date. */
  function UpTo(keep: (nat, Option<nat>, Method) -> bool, day: int): Payment -> bool {
    (p: Payment) => keep(p.member, p.sub, p.via) && p.paidAt <= day
  }

  ghost function Total(ledger: Ledger, q: Payment -> bool): int { Sum(ledger, q, (p: Payment) => p.amount) }

  lemma {:induction false} FewerNegatives(ledger: Ledger, p: Payment -> bool, q: Payment -> bool)
    requires forall x | x in ledger && p(x) :: q(x)
    requires forall x | x in ledger && q(x) :: x.amount < 0
    ensures Total(ledger, p) >= Total(ledger, q)
  {
    if ledger != [] {
      assert ledger[|ledger| - 1] in ledger;
      FewerNegatives(ledger[..|ledger| - 1], p, q);
    }
  }

  lemma RefundedIsTotal(ledger: Ledger, id: nat)
    ensures Total(ledger, Refunds(id)) == -Refunded(ledger, id)
  {
    hide Refunds;
    NegatedSum(ledger, Refunds(id));
  }

  lemma {:induction false} NegatedSum(ledger: Ledger, p: Payment -> bool)
    ensures Total(ledger, p) == -Sum(ledger, p, (x: Payment) => -x.amount)
  {
    if ledger != [] {
      NegatedSum(ledger[..|ledger| - 1], p);
    }
  }

  lemma {:induction false} OnlyRow(ledger: Ledger, p: Payment -> bool, k: nat)
    requires k < |ledger| && p(ledger[k])
    requires forall i | 0 <= i < |ledger| && i != k :: !p(ledger[i])
    ensures Total(ledger, p) == ledger[k].amount
  {
    var last := |ledger| - 1;
    if k < last {
      OnlyRow(ledger[..last], p, k);
    } else {
      NoRow(ledger[..last], p);
    }
  }

  lemma {:induction false} NoRow(ledger: Ledger, p: Payment -> bool)
    requires forall i | 0 <= i < |ledger| :: !p(ledger[i])
    ensures Total(ledger, p) == 0
  {
    if ledger != [] {
      NoRow(ledger[..|ledger| - 1], p);
    }
  }

  /** One payment with its refunds, as far as a report keeps them. */
  function Group(keep: (nat, Option<nat>, Method) -> bool, day: int, k: nat): Payment -> bool {
    (p: Payment) => keep(p.member, p.sub, p.via) && p.paidAt <= day && p.Root() == k
  }

  /** A kept refund has its original kept as well. */
  lemma GroupMember(ledger: Ledger, keep: (nat, Option<nat>, Method) -> bool, day: int, k: nat, i: nat)
    requires Sound(ledger) && i < |ledger| && Group(keep, day, k)(ledger[i])
    ensures k < |ledger| && ledger[k].refundOf.None? && Group(keep, day, k)(ledger[k])
    ensures i == k || (ledger[i].refundOf == Some(k) && ledger[i].amount < 0)
  {
    hide Refunded;
    var row, g := ledger[i], Group(keep, day, k);
    assert RowSound(ledger, row) && row.id == i;
    assert g(row) && row.Root() == k && row.paidAt <= day;
    if row.refundOf.Some? {
      var original := ledger[k];
      assert original.id == k && original.Root() == k && original.paidAt <= day;
      assert keep(original.member, original.sub, original.via);
      assert g(original);
    }
  }

  lemma NegativeRefunds(ledger: Ledger, k: nat)
    requires Sound(ledger)
    ensures forall x | x in ledger && Refunds(k)(x) :: x.amount < 0
  {
    hide Refunded;
    forall x | x in ledger && Refunds(k)(x)
      ensures x.amount < 0
    {
      var i :| 0 <= i < |ledger| && ledger[i] == x;
      assert RowSound(ledger, ledger[i]);
    }
  }

  lemma GroupNotNegative(ledger: Ledger, keep: (nat, Option<nat>, Method) -> bool, day: int, k: nat)
    requires Sound(ledger)
    ensures Total(ledger, Group(keep, day, k)) >= 0
  {
    hide Refunded, RowSound, Group;
    var g := Group(keep, day, k);
    forall i | 0 <= i < |ledger| && g(ledger[i])
      ensures k < |ledger| && ledger[k].refundOf.None? && g(ledger[k])
      ensures i == k || (ledger[i].refundOf == Some(k) && ledger[i].amount < 0)
    {
      GroupMember(ledger, keep, day, k, i);
    }
    if k < |ledger| && ledger[k].refundOf.None? && g(ledger[k]) {
      var original, refunds := (p: Payment) => p.id == k, (p: Payment) => g(p) && p.id != k;
      forall x | x in ledger
        ensures (g(x) <==> original(x) || refunds(x)) && (refunds(x) ==> Refunds(k)(x))
      {
        var i :| 0 <= i < |ledger| && ledger[i] == x;
        assert ledger[i].id == i;
      }
      SumSplit(ledger, g, original, refunds, (p: Payment) => p.amount);
      OnlyRow(ledger, original, k);
      NegativeRefunds(ledger, k);
      FewerNegatives(ledger, refunds, Refunds(k));
      RefundedIsTotal(ledger, k);
    } else {
      NoRow(ledger, g);
    }
  }

  lemma {:induction false} SumMapNotNegative<K>(m: map<K, int>)
    requires forall k | k in m :: m[k] >= 0
    ensures SumMap(m) >= 0
    decreases |m|
  {
    if m != map[] {
      var k :| k in m && SumMap(m) == m[k] + SumMap(m - {k});
      SumMapNotNegative(m - {k});
    }
  }

  /** Totals since the beginning are never negative, up to any date, for any choice of members, subscriptions and
      methods: refunds never run ahead of the money they give back. */
  lemma TotalsNotNegative(ledger: Ledger, keep: (nat, Option<nat>, Method) -> bool, day: int)
    requires Sound(ledger)
    ensures Total(ledger, UpTo(keep, day)) >= 0
  {
    var q, root, amount := UpTo(keep, day), (p: Payment) => p.Root(), (p: Payment) => p.amount;
    var groups := GroupSum(ledger, q, root, amount);
    GroupSumConserves(ledger, q, root, amount);
    forall k | k in groups
      ensures groups[k] >= 0
    {
      GroupSumAt(ledger, q, root, amount, k, Group(keep, day, k));
      GroupNotNegative(ledger, keep, day, k);
    }
    SumMapNotNegative(groups);
  }

  /** The same for any choice of original payments, each taken with its refunds. */
  function WithRefunds(keep: nat -> bool, day: int): Payment -> bool {
    (p: Payment) => keep(p.Root()) && p.paidAt <= day
  }

  lemma RootTotalsNotNegative(ledger: Ledger, keep: nat -> bool, day: int)
    requires Sound(ledger)
    ensures Total(ledger, WithRefunds(keep, day)) >= 0
  {
    hide Sound;
    var q, root, amount := WithRefunds(keep, day), (p: Payment) => p.Root(), (p: Payment) => p.amount;
    var groups := GroupSum(ledger, q, root, amount);
    GroupSumConserves(ledger, q, root, amount);
    var everything := (member: nat, sub: Option<nat>, via: Method) => true;
    forall k | k in groups
      ensures groups[k] >= 0
    {
      var own := (p: Payment) => q(p) && p.Root() == k;
      GroupSumAt(ledger, q, root, amount, k, own);
      var x :| x in ledger && own(x);
      GroupSumAt(ledger, q, root, amount, k, Group(everything, day, k));
      GroupNotNegative(ledger, everything, day, k);
    }
    SumMapNotNegative(groups);
  }

  // ----- The revenue summary -------------------------------------------------------------------

  datatype Summary = Summary(
    thisFrom: int, lastFrom: int, lastTo: int, thisCents: int, lastCents: int, byPlan: map<nat, int>,
    byMethod: map<Method, int>, paying: nat, arpmCents: int)

  function InRange(from: int, to: int): Payment -> bool { (p: Payment) => from <= p.paidAt <= to }

  /** Payments in a range that the join with `subscriptions` keeps, and the drop-ins it loses. */
  function Planned(cx: Context, from: int, to: int): Payment -> bool {
    (p: Payment) => from <= p.paidAt <= to && p.sub.Some? && p.sub.value < |cx.subPlan|
  }

  function DropIns(cx: Context, from: int, to: int): Payment -> bool {
    (p: Payment) => from <= p.paidAt <= to && !(p.sub.Some? && p.sub.value < |cx.subPlan|)
  }

  function PlanOf(cx: Context): Payment -> nat {
    (p: Payment) => if p.sub.Some? && p.sub.value < |cx.subPlan| then cx.subPlan[p.sub.value] else 0
  }

  /** `revenue_summary`, without the month-over-month percentage. */
  function RevenueSummary(cx: Context, ledger: Ledger, today: int): Summary {
    var amount := (p: Payment) => p.amount;
    var thisFrom := FromOrdinal(today).(day := 1).Ordinal();
    var lastTo := thisFrom - 1;
    var lastFrom := FromOrdinal(lastTo).(day := 1).Ordinal();
    var now := InRange(thisFrom, today);
    var thisCents := Sum(ledger, now, amount);
    var paying := |set p | p in ledger && now(p) :: p.member|;
    Summary(thisFrom, lastFrom, lastTo, thisCents, Sum(ledger, InRange(lastFrom, lastTo), amount),
            GroupSum(ledger, Planned(cx, thisFrom, today), PlanOf(cx), amount),
            GroupSum(ledger, now, (p: Payment) => p.via, amount),
            paying, if paying > 0 then thisCents / paying else 0)
  }

  /** The two ranges are the current calendar month up to today and the whole month before it, with no day between. */
  lemma SummaryRanges(cx: Context, ledger: Ledger, today: int)
    ensures var s, m := RevenueSummary(cx, ledger, today), MonthOf(today);
            && s.thisFrom == MonthStart(m) <= today
            && s.lastFrom == MonthStart(m - 1) && s.lastTo == MonthStart(m) - 1
            && MonthOf(s.lastTo) == m - 1
  {
    hide MonthOf, MonthStart, Date.Ordinal, Sum, GroupSum;
    var m := MonthOf(today);
    var d := FromOrdinal(today);
    DateInMonth(d);
    DateInMonth(d.(day := 1));
    var e := FromOrdinal(MonthStart(m) - 1);
    MonthStartGrows(m - 1, m);
    MonthOfUnique(MonthStart(m) - 1, m - 1);
    DateInMonth(e);
    DateInMonth(e.(day := 1));
  }

  /** The summary conserves money: methods add up to the month, plans and drop-ins together do too, and the average per
      paying member is the floor. */
  lemma SummaryConserves(cx: Context, ledger: Ledger, today: int)
    ensures var s := RevenueSummary(cx, ledger, today);
            && SumMap(s.byMethod) == s.thisCents
            && SumMap(s.byPlan)
               + Sum(ledger, DropIns(cx, s.thisFrom, today), (p: Payment) => p.amount) == s.thisCents
            && (s.paying > 0 ==> s.arpmCents * s.paying <= s.thisCents < (s.arpmCents + 1) * s.paying)
  {
    hide MonthOf, MonthStart, Date.Ordinal, FromOrdinal;
    var s := RevenueSummary(cx, ledger, today);
    var now, amount := InRange(s.thisFrom, today), (p: Payment) => p.amount;
    GroupSumConserves(ledger, now, (p: Payment) => p.via, amount);
    GroupSumConserves(ledger, Planned(cx, s.thisFrom, today), PlanOf(cx), amount);
    SumSplit(ledger, now, Planned(cx, s.thisFrom, today), DropIns(cx, s.thisFrom, today), amount);
    if s.paying > 0 {
      FloorAverage(s.thisCents, s.paying);
    }
  }

  /** The month so far, the whole month before it, and how many members have a row in the month so far. */
  lemma SummarySums(cx: Context, ledger: Ledger, today: int)
    ensures var s, amount := RevenueSummary(cx, ledger, today), (p: Payment) => p.amount;
            && s.thisCents == Sum(ledger, (p: Payment) => s.thisFrom <= p.paidAt <= today, amount)
            && s.lastCents == Sum(ledger, (p: Payment) => s.lastFrom <= p.paidAt < s.thisFrom, amount)
            && s.paying == |set p | p in ledger && s.thisFrom <= p.paidAt <= today :: p.member|
  {
    hide FromOrdinal, Date.Ordinal, GroupSum, Sum;
    var s, amount := RevenueSummary(cx, ledger, today), (p: Payment) => p.amount;
    SameSum(ledger, InRange(s.thisFrom, today), (p: Payment) => s.thisFrom <= p.paidAt <= today, amount);
    SameSum(ledger, InRange(s.lastFrom, s.lastTo), (p: Payment) => s.lastFrom <= p.paidAt < s.thisFrom, amount);
    assert (set p | p in ledger && InRange(s.thisFrom, today)(p) :: p.member)
        == (set p | p in ledger && s.thisFrom <= p.paidAt <= today :: p.member);
  }

  /** Each method and each plan of the month so far. */
  lemma SummaryGroups(cx: Context, ledger: Ledger, today: int, via: Method, plan: nat)
    ensures var s, amount := RevenueSummary(cx, ledger, today), (p: Payment) => p.amount;
            var byVia := (p: Payment) => s.thisFrom <= p.paidAt <= today && p.via == via;
            var byPlan := (p: Payment) =>
              && s.thisFrom <= p.paidAt <= today
              && p.sub.Some? && p.sub.value < |cx.subPlan| && cx.subPlan[p.sub.value] == plan;
            && (if via in s.byMethod then s.byMethod[via] else 0) == Sum(ledger, byVia, amount)
            && (if plan in s.byPlan then s.byPlan[plan] else 0) == Sum(ledger, byPlan, amount)
  {
    hide FromOrdinal, Date.Ordinal, GroupSum, Sum;
    var s, amount := RevenueSummary(cx, ledger, today), (p: Payment) => p.amount;
    var byVia := (p: Payment) => s.thisFrom <= p.paidAt <= today && p.via == via;
    var byPlan := (p: Payment) =>
      && s.thisFrom <= p.paidAt <= today
      && p.sub.Some? && p.sub.value < |cx.subPlan| && cx.subPlan[p.sub.value] == plan;
    GroupSumAt(ledger, InRange(s.thisFrom, today), (p: Payment) => p.via, amount, via, byVia);
    GroupSumAt(ledger, Planned(cx, s.thisFrom, today), PlanOf(cx), amount, plan, byPlan);
  }

  lemma {:induction false} SameSum(ledger: Ledger, p: Payment -> bool, q: Payment -> bool, f: Payment -> int)
    requires forall x | x in ledger :: p(x) <==> q(x)
    ensures Sum(ledger, p, f) == Sum(ledger, q, f)
  {
    if ledger != [] {
      assert ledger[|ledger| - 1] in ledger;
      SameSum(ledger[..|ledger| - 1], p, q, f);
    }
  }

  lemma FloorAverage(total: int, n: int)
    requires n > 0
    ensures total / n * n <= total < (total / n + 1) * n
  {
    assert (total / n + 1) * n == total / n * n + n;
  }

  /** Refunds in a range of payments made before it. */
  function Carried(ledger: Ledger, from: int, to: int): Payment -> bool {
    (p: Payment) =>
      && from <= p.paidAt <= to && p.refundOf.Some? && p.refundOf.value < |ledger|
      && ledger[p.refundOf.value].paidAt < from
  }

  /** Only refunds of payments made before a range can make its total negative: the rest of the range adds up to zero or
      more. */
  lemma OnlyCarriedRefundsPullBelowZero(ledger: Ledger, from: int, to: int)
    requires Sound(ledger)
    ensures Sum(ledger, InRange(from, to), (p: Payment) => p.amount)
            >= Sum(ledger, Carried(ledger, from, to), (p: Payment) => p.amount)
  {
    var keep := (k: nat) => k < |ledger| && from <= ledger[k].paidAt;
    var own := WithRefunds(keep, to);
    forall x | x in ledger
      ensures InRange(from, to)(x) <==> own(x) || Carried(ledger, from, to)(x)
      ensures !(own(x) && Carried(ledger, from, to)(x))
    {
      RootDate(ledger, x);
    }
    SumSplit(ledger, InRange(from, to), own, Carried(ledger, from, to), (p: Payment) => p.amount);
    RootTotalsNotNegative(ledger, keep, to);
  }

  /** A row is dated no earlier than the payment it belongs to. */
  lemma RootDate(ledger: Ledger, p: Payment)
    requires Sound(ledger) && p in ledger
    ensures p.Root() < |ledger| && ledger[p.Root()].paidAt <= p.paidAt
    ensures p.refundOf.None? ==> ledger[p.Root()] == p
  {
    hide Refunded;
    var i :| 0 <= i < |ledger| && ledger[i] == p;
    assert ledger[i].id == i && RowSound(ledger, ledger[i]);
  }

  /** A single month can still be negative: a payment refunded in the following month. */
  lemma MonthCanBeNegative()
    ensures var cx := Context(1, [], []);
            var calls := [Call(20, Record(0, 100, Cash, None, None, false)), Call(40, Refund(0, None))];
            Sum(Run(cx, calls), InRange(32, 59), (p: Payment) => p.amount) == -100
  {
    var cx := Context(1, [], []);
    var c1, c2 := Call(20, Record(0, 100, Cash, None, None, false)), Call(40, Refund(0, None));
    var p1, p2 := Payment(0, 0, None, 100, Cash, 20, None), Payment(1, 0, None, -100, Cash, 40, Some(0));
    assert [c1, c2][..1] == [c1] && [c1][..0] == [];
    assert Run(cx, [c1]) == [] + [p1];
    RefundedAppend([], p1, 0);
    assert [] + [p1] == [p1];
    assert Run(cx, [c1, c2]) == [p1] + [p2];
    SumAppend([p1], p2, InRange(32, 59), (p: Payment) => p.amount);
    SumAppend([], p1, InRange(32, 59), (p: Payment) => p.amount);
  }
}
