/**
 Verify-once reconciliation of top-ups and subscription cycles, run by one request
 at a time against the stored rows. `TopupRaces` and `SubscriptionRaces` interleave
 the same conditional updates.
 */
module Payments {
  import opened Basics
  import opened Credits

  datatype PaymentStatus = Created | Paid | Failed | Expired | Cancelled {
    /** Terminal, and not a success: the user was not charged. */
    predicate IsDead() {
      Failed? || Expired? || Cancelled?
    }
  }

  function StatusFromProvider(raw: string): Option<PaymentStatus> {
    if raw == "created" then Some(Created)
    else if raw == "paid" then Some(Paid)
    else if raw == "failed" then Some(Failed)
    else if raw == "expired" then Some(Expired)
    else if raw == "cancelled" then Some(Cancelled)
    else None
  }

  datatype Payment = Payment(status: PaymentStatus, credits: nat, paymentId: Option<string>)

  datatype Subscription = Subscription(planKey: string, cyclesCredited: int)

  /** Credits a month of each plan. */
  function PlanCredits(key: string): Option<nat> {
    if key == "plus" then Some(250) else if key == "pro" then Some(600) else None
  }

  datatype Outcome = GrantedOutcome | AlreadyCredited | NotPaidYet | FailedOutcome | GrantFailed

  datatype Verification = Verification(outcome: Outcome, creditsAdded: nat, balanceAfter: Option<int>)

  function Answer(outcome: Outcome): Verification {
    Verification(outcome, 0, None)
  }

  // ── The conditional updates, on one row ────────────────────────────────

  /** created → paid, and whether this caller did it. */
  function ClaimedRow(row: Payment, paymentId: Option<string>): (Payment, bool) {
    if row.status == Created then (row.(status := Paid, paymentId := paymentId), true) else (row, false)
  }

  /** `seen` → `paid` if the count is still `seen`, and how many cycles this caller won. */
  function ClaimedCycles(row: Subscription, seen: int, paid: int): (Subscription, int) {
    if row.cyclesCredited == seen then (row.(cyclesCredited := paid), paid - seen) else (row, 0)
  }

  type RowKey = (string, string)

  class PaymentStore {
    var payments: map<RowKey, Payment>
    var subscriptions: map<RowKey, Subscription>

    constructor (payments: map<RowKey, Payment>, subscriptions: map<RowKey, Subscription>)
      ensures this.payments == payments && this.subscriptions == subscriptions
    {
      this.payments, this.subscriptions := payments, subscriptions;
    }

    method GetPayment(userId: string, linkId: string) returns (row: Option<Payment>)
      ensures row == if (userId, linkId) in payments then Some(payments[(userId, linkId)]) else None
    {
      row := if (userId, linkId) in payments then Some(payments[(userId, linkId)]) else None;
    }

    method ClaimPayment(userId: string, linkId: string, paymentId: Option<string>) returns (won: bool)
      modifies this`payments
      ensures (userId, linkId) !in old(payments) ==> !won && payments == old(payments)
      ensures (userId, linkId) in old(payments) ==>
                var (row, claimed) := ClaimedRow(old(payments)[(userId, linkId)], paymentId);
                won == claimed && payments == old(payments)[(userId, linkId) := row]
    {
      won := false;
      var key := (userId, linkId);
      if key in payments && payments[key].status == Created {
        payments := payments[key := payments[key].(status := Paid, paymentId := paymentId)];
        won := true;
      }
    }

    method MarkPayment(userId: string, linkId: string, status: PaymentStatus)
      modifies this`payments
      ensures payments == if (userId, linkId) in old(payments)
                          then old(payments)[(userId, linkId) := old(payments)[(userId, linkId)].(status := status)]
                          else old(payments)
    {
      var key := (userId, linkId);
      if key in payments {
        payments := payments[key := payments[key].(status := status)];
      }
    }

    method GetSubscription(userId: string, subId: string) returns (row: Option<Subscription>)
      ensures row == if (userId, subId) in subscriptions then Some(subscriptions[(userId, subId)]) else None
    {
      row := if (userId, subId) in subscriptions then Some(subscriptions[(userId, subId)]) else None;
    }

    method ClaimCycles(userId: string, subId: string, seen: int, paid: int) returns (won: int)
      modifies this`subscriptions
      ensures (userId, subId) !in old(subscriptions) ==> won == 0 && subscriptions == old(subscriptions)
      ensures (userId, subId) in old(subscriptions) ==>
                var (row, n) := ClaimedCycles(old(subscriptions)[(userId, subId)], seen, paid);
                won == n && subscriptions == old(subscriptions)[(userId, subId) := row]
    {
      won := 0;
      var key := (userId, subId);
      if key in subscriptions && subscriptions[key].cyclesCredited == seen {
        subscriptions := subscriptions[key := subscriptions[key].(cyclesCredited := paid)];
        won := paid - seen;
      }
    }
  }

  // ── One verification by itself ─────────────────────────────────────────

  /** What the provider and the credit store do during one verification. */
  datatype World = World(readable: bool, fault: WriteFault)

  /** A top-up verification with nobody else writing: the row it leaves, the ledger it
      leaves, and its answer. */
  ghost function TopupAlone(row: Payment, bank: Bank, user: string, providerStatus: string, paymentId: Option<string>,
                            world: World)
    : (Payment, Bank, Verification)
  {
    match StatusFromProvider(providerStatus)
    case None => (row, bank, Answer(NotPaidYet))
    case Some(theirs) =>
      if theirs.IsDead() then (row.(status := theirs), bank, Answer(FailedOutcome))
      else if theirs != Paid then (row, bank, Answer(NotPaidYet))
      else if row.status != Created then (row, bank, Answer(AlreadyCredited))
      else
        var claimed := row.(status := Paid, paymentId := paymentId);
        var (after, granted) := Grant(bank, user, row.credits, world.readable, world.fault);
        match granted
        case Granted(balance) => (claimed, after, Verification(GrantedOutcome, row.credits, Some(balance)))
        case NotGranted => (claimed.(status := Created), after, Answer(GrantFailed))
        case GrantRaised => (claimed, after, Answer(GrantFailed))
  }

  method VerifyTopup(store: PaymentStore, credits: CreditStore, userId: string, linkId: string,
                     providerStatus: string, paymentId: Option<string>, world: World)
    returns (r: Verification)
    modifies store, credits
    ensures store.subscriptions == old(store.subscriptions)
    ensures (userId, linkId) !in old(store.payments) ==>
              r == Answer(FailedOutcome) && store.payments == old(store.payments)
                && credits.View() == old(credits.View())
    ensures (userId, linkId) in old(store.payments) ==>
              var (row, bank, answer) := TopupAlone(old(store.payments)[(userId, linkId)], old(credits.View()), userId,
                                                    providerStatus, paymentId, world);
              r == answer && credits.View() == bank && store.payments == old(store.payments)[(userId, linkId) := row]
  {
    var row := store.GetPayment(userId, linkId);
    if row.None? {
      return Answer(FailedOutcome);
    }
    var theirs := StatusFromProvider(providerStatus);
    if theirs.Some? && theirs.value.IsDead() {
      store.MarkPayment(userId, linkId, theirs.value);
      return Answer(FailedOutcome);
    }
    if theirs != Some(Paid) {
      return Answer(NotPaidYet);
    }
    if row.value.status == Paid {
      return Answer(AlreadyCredited);
    }
    var won := store.ClaimPayment(userId, linkId, paymentId);
    if !won {
      return Answer(AlreadyCredited);
    }
    var amount := row.value.credits;
    var granted := credits.GrantCredits(userId, amount, world.readable, world.fault);
    if granted.GrantRaised? {
      return Answer(GrantFailed);
    }
    if granted.NotGranted? {
      store.MarkPayment(userId, linkId, Created);
      return Answer(GrantFailed);
    }
    return Verification(GrantedOutcome, amount, Some(granted.balance));
  }

  /** A subscription reconcile with nobody else writing. */
  ghost function CyclesAlone(row: Subscription, bank: Bank, user: string, paidCount: int, world: World)
    : (Subscription, Bank, Verification)
  {
    match PlanCredits(row.planKey)
    case None => (row, bank, Answer(FailedOutcome))
    case Some(perMonth) =>
      if paidCount <= row.cyclesCredited then (row, bank, Answer(AlreadyCredited))
      else
        var amount := perMonth * (paidCount - row.cyclesCredited);
        var (after, granted) := Grant(bank, user, amount, world.readable, world.fault);
        var advanced := row.(cyclesCredited := paidCount);
        match granted
        case Granted(balance) => (advanced, after, Verification(GrantedOutcome, amount, Some(balance)))
        case NotGranted => (row, after, Answer(GrantFailed))
        case GrantRaised => (advanced, after, Answer(GrantFailed))
  }

  method VerifySubscriptionCycles(store: PaymentStore, credits: CreditStore, userId: string, subId: string,
                                  providerPaidCount: int, world: World)
    returns (r: Verification)
    modifies store, credits
    ensures store.payments == old(store.payments)
    ensures (userId, subId) !in old(store.subscriptions) ==>
              r == Answer(FailedOutcome) && store.subscriptions == old(store.subscriptions)
              && credits.View() == old(credits.View())
    ensures (userId, subId) in old(store.subscriptions) ==>
              var (row, bank, answer) :=
                CyclesAlone(old(store.subscriptions)[(userId, subId)], old(credits.View()), userId,
                                                     providerPaidCount, world);
              r == answer && credits.View() == bank
                && store.subscriptions == old(store.subscriptions)[(userId, subId) := row]
  {
    var row := store.GetSubscription(userId, subId);
    if row.None? {
      return Answer(FailedOutcome);
    }
    var perMonth := PlanCredits(row.value.planKey);
    if perMonth.None? {
      return Answer(FailedOutcome);
    }
    var seen := row.value.cyclesCredited;
    var owed := if providerPaidCount - seen > 0 then providerPaidCount - seen else 0;
    if owed == 0 {
      return Answer(AlreadyCredited);
    }
    var won := store.ClaimCycles(userId, subId, seen, providerPaidCount);
    if won <= 0 {
      return Answer(AlreadyCredited);
    }
    var amount := perMonth.value * won;
    var granted := credits.GrantCredits(userId, amount, world.readable, world.fault);
    if granted.GrantRaised? {
      return Answer(GrantFailed);
    }
    if granted.NotGranted? {
      var _ := store.ClaimCycles(userId, subId, providerPaidCount, seen);
      return Answer(GrantFailed);
    }
    return Verification(GrantedOutcome, amount, Some(granted.balance));
  }

  // ── What one verification answers ──────────────────────────────────────

  /** A dead word writes its own status, whatever the row said, and nothing else does: the answer
      is `FAILED`, and the ledger does not move. */
  lemma {:induction false} DeadWordsAreWritten(row: Payment, bank: Bank, user: string, word: string,
                                               paymentId: Option<string>, world: World)
    ensures var (after, bank', answer) := TopupAlone(row, bank, user, word, paymentId, world);
            && (word == "failed" ==> after == Payment(Failed, row.credits, row.paymentId))
            && (word == "expired" ==> after == Payment(Expired, row.credits, row.paymentId))
            && (word == "cancelled" ==> after == Payment(Cancelled, row.credits, row.paymentId))
            && (answer == Verification(FailedOutcome, 0, None) <==> word in {"failed", "expired", "cancelled"})
            && (word in {"failed", "expired", "cancelled"} ==> bank' == bank)
            && (after.status in {Failed, Expired, Cancelled} ==>
                  word in {"failed", "expired", "cancelled"} || after == row)
  {
  }

  /** Every other word but `paid`, `created` and the words the model has no status for included,
      leaves row and ledger as they were; and `NOT_PAID_YET` is answered to nothing else. */
  lemma {:induction false} OtherWordsChangeNothing(row: Payment, bank: Bank, user: string, word: string,
                                                   paymentId: Option<string>, world: World)
    ensures TopupAlone(row, bank, user, word, paymentId, world) == (row, bank, Verification(NotPaidYet, 0, None)) <==>
              word !in {"failed", "expired", "cancelled", "paid"}
    ensures TopupAlone(row, bank, user, word, paymentId, world).2.outcome == NotPaidYet <==>
              word !in {"failed", "expired", "cancelled", "paid"}
  {
  }

  /** What `paid` is answered, and what it leaves. Only a row reading `created` is credited, with
      its own credits; if the balance could not be read it still reads `created`, for a retry; if the
      write raised the row reads `paid` and the ledger has whatever was written. */
  lemma {:induction false} PaidAnswers(row: Payment, bank: Bank, user: string, paymentId: Option<string>, world: World)
    ensures var (after, bank', answer) := TopupAlone(row, bank, user, "paid", paymentId, world);
            && (answer == Verification(AlreadyCredited, 0, None) <==> row.status != Created)
            && (answer == Verification(GrantFailed, 0, None) <==> row.status == Created && !Granting(world))
            && (answer.outcome == GrantedOutcome <==> row.status == Created && Granting(world))
            && (answer.outcome == GrantedOutcome ==>
                  answer.creditsAdded == row.credits && answer.balanceAfter.Some?
                  && answer.balanceAfter == Stored(bank', user))
            && after == (if row.status != Created then row
                         else Payment(if world.readable then Paid else Created, row.credits, paymentId))
            && CreditedBy(bank, bank', user,
                          if row.status == Created && world.readable && world.fault != RaisesUnwritten
                          then Some(row.credits) else None)
  {
  }

  /** The grant is applied, and says so. */
  predicate Granting(world: World) {
    world.readable && world.fault == Writes
  }

  /** The ledger has grown by one row of this user's, carrying the balance it led to; or by none. */
  ghost predicate CreditedBy(bank: Bank, bank': Bank, user: string, amount: Option<int>) {
    match amount
    case None => bank' == bank
    case Some(n) =>
      && bank'.ledger == bank.ledger + [Entry(user, n, BalanceOf(bank, user) + n)]
      && bank'.balances == bank.balances[user := BalanceOf(bank, user) + n]
  }

  /** What a reconcile of a known plan answers, and what it leaves: `ALREADY_CREDITED` exactly
      when the provider reports no more months than the count; `GRANT_FAILED` exactly when it
      reports more and the grant raised or was not applied; otherwise the credits of the months
      the count advanced, with the balance as stored. The count advances to the report unless
      the grant was not applied. */
  lemma {:induction false} ReconcileAnswers(row: Subscription, bank: Bank, user: string, paidCount: int, world: World)
    requires row.planKey in {"plus", "pro"}
    ensures var (after, bank', answer) := CyclesAlone(row, bank, user, paidCount, world);
            var credits := (if row.planKey == "plus" then 250 else 600) * (after.cyclesCredited - row.cyclesCredited);
            && (answer == Verification(AlreadyCredited, 0, None) <==> paidCount <= row.cyclesCredited)
            && (answer == Verification(GrantFailed, 0, None) <==> paidCount > row.cyclesCredited && !Granting(world))
            && (answer.outcome == GrantedOutcome <==> paidCount > row.cyclesCredited && Granting(world))
            && (answer.outcome == GrantedOutcome ==>
                  answer.creditsAdded == credits && answer.balanceAfter.Some?
                  && answer.balanceAfter == Stored(bank', user))
            && after == Subscription(row.planKey, if paidCount > row.cyclesCredited && world.readable then paidCount
                                                  else row.cyclesCredited)
            && CreditedBy(bank, bank', user, if after != row && world.fault != RaisesUnwritten then Some(credits)
                                             else None)
  {
  }

  /** A plan nobody sells is answered `FAILED`, with nothing changed, and a known one never is. */
  lemma {:induction false} UnknownPlanChangesNothing(row: Subscription, bank: Bank, user: string, paidCount: int,
                                                     world: World)
    ensures CyclesAlone(row, bank, user, paidCount, world) == (row, bank, Verification(FailedOutcome, 0, None)) <==>
              row.planKey !in {"plus", "pro"}
    ensures CyclesAlone(row, bank, user, paidCount, world).2.outcome == FailedOutcome <==>
              row.planKey !in {"plus", "pro"}
  {
  }

  // ── Any number of verifications, one after another ─────────────────────

  /** One reconcile of a subscription: what the provider reports, and how the grant goes. */
  datatype Reconcile = Reconcile(paidCount: int, world: World)

  ghost function ReconcileAll(row: Subscription, bank: Bank, user: string, visits: seq<Reconcile>)
    : (Subscription, Bank)
  {
    if visits == [] then (row, bank)
    else
      var (row', bank') := ReconcileAll(row, bank, user, visits[..|visits| - 1]);
      var last := visits[|visits| - 1];
      var (row'', bank'', _) := CyclesAlone(row', bank', user, last.paidCount, last.world);
      (row'', bank'')
  }

  /** Each grant is applied or provably not applied. */
  predicate Decided(world: World) {
    !world.readable || world.fault == Writes
  }

  /** With no overlap and every grant decided, the credits granted are exactly the plan's
      credits for every month the count has advanced. */
  lemma {:induction false} CreditsFollowTheCount(row: Subscription, bank: Bank, user: string, visits: seq<Reconcile>)
    requires PlanCredits(row.planKey).Some?
    requires forall v <- visits :: Decided(v.world)
    ensures var (after, bank') := ReconcileAll(row, bank, user, visits);
            && after.planKey == row.planKey && after.cyclesCredited >= row.cyclesCredited
            && BalanceOf(bank', user) - BalanceOf(bank, user)
               == PlanCredits(row.planKey).value * (after.cyclesCredited - row.cyclesCredited)
  {
    if visits != [] {
      var front := visits[..|visits| - 1];
      var last := visits[|visits| - 1];
      assert last in visits;
      CreditsFollowTheCount(row, bank, user, front);
      var (row', bank') := ReconcileAll(row, bank, user, front);
      OneReconcileFollowsTheCount(row', bank', user, last);
      var per := PlanCredits(row.planKey).value;
      var (after, _) := ReconcileAll(row, bank, user, visits);
      assert per * (after.cyclesCredited - row'.cyclesCredited) + per * (row'.cyclesCredited - row.cyclesCredited)
          == per * (after.cyclesCredited - row.cyclesCredited);
    }
  }

  /** One visit: the balance moves by the months the count moved; a working grant brings the
      count up to the provider's, and one that did not happen leaves everything for a retry. */
  lemma {:induction false} OneReconcileFollowsTheCount(row: Subscription, bank: Bank, user: string, v: Reconcile)
    requires PlanCredits(row.planKey).Some?
    requires Decided(v.world)
    ensures var (after, bank', answer) := CyclesAlone(row, bank, user, v.paidCount, v.world);
            && after.planKey == row.planKey && after.cyclesCredited >= row.cyclesCredited
            && BalanceOf(bank', user) - BalanceOf(bank, user)
               == PlanCredits(row.planKey).value * (after.cyclesCredited - row.cyclesCredited)
            && (v.world.readable ==> after.cyclesCredited >= v.paidCount)
            && (!v.world.readable ==> after == row && bank' == bank)
  {
  }

  datatype Visit = Visit(providerStatus: string, paymentId: Option<string>, world: World)

  ghost function VisitAll(row: Payment, bank: Bank, user: string, visits: seq<Visit>): (Payment, Bank) {
    if visits == [] then (row, bank)
    else
      var (row', bank') := VisitAll(row, bank, user, visits[..|visits| - 1]);
      var last := visits[|visits| - 1];
      var (row'', bank'', _) := TopupAlone(row', bank', user, last.providerStatus, last.paymentId, last.world);
      (row'', bank'')
  }

  /** Any number of one-after-another verifications of one link, whatever the provider says and
      however the grants go: while the row reads `created` nothing has been credited, and in all
      at most one grant ever reaches the ledger. */
  lemma {:induction false} CreditedAtMostOnce(row: Payment, bank: Bank, user: string, visits: seq<Visit>)
    requires row.status == Created
    ensures var (after, bank') := VisitAll(row, bank, user, visits);
            && after.credits == row.credits
            && (bank'.ledger == bank.ledger
                || (after.status != Created && |bank'.ledger| == |bank.ledger| + 1 && bank.ledger <= bank'.ledger
                    && bank'.ledger[|bank.ledger|].user == user && bank'.ledger[|bank.ledger|].delta == row.credits))
  {
    if visits != [] {
      CreditedAtMostOnce(row, bank, user, visits[..|visits| - 1]);
    }
  }

  /** A visit that, finding the row `created`, moves it off that for good: the provider reports a
      dead payment, or reports `paid` while the balance can be read. */
  predicate Decisive(v: Visit) {
    v.providerStatus in {"failed", "expired", "cancelled"} || (v.providerStatus == "paid" && v.world.readable)
  }

  /** A decisive visit that credits nothing: a dead payment, or a grant that raised unwritten. */
  predicate LeavesUncredited(v: Visit) {
    v.providerStatus != "paid" || v.world.fault == RaisesUnwritten
  }

  ghost function FirstDecisive(visits: seq<Visit>): Option<Visit> {
    if visits == [] then None
    else
      var before, last := FirstDecisive(visits[..|visits| - 1]), visits[|visits| - 1];
      if before.Some? then before else if Decisive(last) then Some(last) else None
  }

  /** Everything hangs on the first decisive visit: before it the row reads `created`, after it
      never again, and the payment is credited exactly if that visit wrote its grant. */
  lemma {:induction false} FirstDecisiveVisitDecides(row: Payment, bank: Bank, user: string, visits: seq<Visit>)
    requires row.status == Created
    ensures var (after, bank') := VisitAll(row, bank, user, visits);
            var first := FirstDecisive(visits);
            && (after.status == Created <==> first.None?)
            && (bank'.ledger != bank.ledger <==> first.Some? && !LeavesUncredited(first.value))
  {
    if visits != [] {
      FirstDecisiveVisitDecides(row, bank, user, visits[..|visits| - 1]);
      CreditedAtMostOnce(row, bank, user, visits[..|visits| - 1]);
    }
  }

  /** A payer is told "already added" exactly when the provider says `paid` and the row no longer
      reads `created`; and that is false exactly when the first decisive visit left the payment
      uncredited, because the payment was dead then or because the grant raised unwritten. */
  lemma {:induction false} ToldAlreadyCreditedExactly(row: Payment, bank: Bank, user: string, visits: seq<Visit>,
                                                      last: Visit)
    requires row.status == Created
    ensures var (row', bank') := VisitAll(row, bank, user, visits);
            var told := TopupAlone(row', bank', user, last.providerStatus, last.paymentId, last.world).2.outcome
                        == AlreadyCredited;
            var first := FirstDecisive(visits);
            && (told <==> last.providerStatus == "paid" && row'.status != Created)
            && (told && bank'.ledger == bank.ledger <==>
                  last.providerStatus == "paid" && first.Some? && LeavesUncredited(first.value))
  {
    hide VisitAll, FirstDecisive, LeavesUncredited;
    FirstDecisiveVisitDecides(row, bank, user, visits);
  }

  /** And then it is for good: whatever visits follow, nothing is ever credited, and every one of
      them that the provider answers `paid` is told "already added". */
  lemma {:induction false} UncreditedForGood(row: Payment, bank: Bank, user: string, visits: seq<Visit>,
                                             more: seq<Visit>, last: Visit)
    requires row.status == Created && FirstDecisive(visits).Some? && LeavesUncredited(FirstDecisive(visits).value)
    ensures var (row', bank') := VisitAll(row, bank, user, visits + more);
            && bank'.ledger == bank.ledger
            && (last.providerStatus == "paid" ==>
                  TopupAlone(row', bank', user, last.providerStatus, last.paymentId, last.world).2.outcome
                    == AlreadyCredited)
  {
    hide VisitAll, FirstDecisive, LeavesUncredited;
    FirstDecisiveStands(visits, more);
    FirstDecisiveVisitDecides(row, bank, user, visits + more);
  }

  lemma {:induction false} FirstDecisiveStands(visits: seq<Visit>, more: seq<Visit>)
    requires FirstDecisive(visits).Some?
    ensures FirstDecisive(visits + more) == FirstDecisive(visits)
  {
    if more == [] {
      assert visits + more == visits;
    } else {
      assert (visits + more)[..|visits + more| - 1] == visits + more[..|more| - 1];
      FirstDecisiveStands(visits, more[..|more| - 1]);
    }
  }

  /** The dead row: a payment the provider called failed and later `paid`. */
  lemma {:induction false} DeadRowIsToldAlreadyCredited(row: Payment, bank: Bank, user: string, world: World)
    requires row.status == Created
    ensures var (row', bank') := VisitAll(row, bank, user, [Visit("failed", None, world)]);
            && row'.status == Failed && bank'.ledger == bank.ledger
            && TopupAlone(row', bank', user, "paid", None, world).2.outcome == AlreadyCredited
  {
    var visits := [Visit("failed", None, world)];
    assert visits[..0] == [];
    assert VisitAll(row, bank, user, []) == (row, bank);
  }

  /** Charged, uncredited and self-confirming: the grant raised and nothing was written, and the
      next visit is told "already added". */
  lemma {:induction false} RaisedGrantIsToldAlreadyCredited(row: Payment, bank: Bank, user: string, world: World)
    requires row.status == Created
    ensures var (row', bank') := VisitAll(row, bank, user, [Visit("paid", None, World(true, RaisesUnwritten))]);
            && row'.status == Paid && bank'.ledger == bank.ledger
            && TopupAlone(row', bank', user, "paid", None, world).2.outcome == AlreadyCredited
  {
    var visits := [Visit("paid", None, World(true, RaisesUnwritten))];
    assert visits[..0] == [];
    assert VisitAll(row, bank, user, []) == (row, bank);
  }

  lemma {:induction false} PaidMeansCredited(row: Payment, bank: Bank, user: string, visits: seq<Visit>)
    requires row.status == Created
    requires forall v <- visits :: Decided(v.world)
    ensures var (after, bank') := VisitAll(row, bank, user, visits);
            && bank.ledger <= bank'.ledger
            && (after.status == Paid ==> |bank'.ledger| > |bank.ledger|)
  {
    if visits != [] {
      assert visits[|visits| - 1] in visits;
      PaidMeansCredited(row, bank, user, visits[..|visits| - 1]);
    }
  }
}
