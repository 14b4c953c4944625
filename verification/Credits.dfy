/**
 The credit ledger: the only code that moves a balance.

 The store is a class because charges and grants update its rows in place. Each
 method is tied to a function on the store's value (`Bank`), and the ledger laws
 are proved about that function for every one-at-a-time sequence of operations.
 */
module Credits {
  import opened Basics

  datatype Entry = Entry(user: string, delta: int, balanceAfter: int)

  /** The rows of the two credit tables: one balance per user, and the ledger. */
  datatype Bank = Bank(balances: map<string, int>, ledger: seq<Entry>)

  /** How one ledger write goes: it lands; it raises having written nothing; or it
      raises although it was written. */
  datatype WriteFault = Writes | RaisesUnwritten | RaisesWritten

  datatype BalanceRead = Unavailable | Found(balance: Option<int>)

  datatype CheckResult = Affordable(cost: nat) | Insufficient(required: nat, balance: int) | CheckUnavailable

  /** What a charge tells the client, or that the balance read raised. */
  datatype ChargeResult = Receipt(charged: nat, balanceAfter: Option<int>) | ChargeReadRaised

  /** `Granted` carries the new balance; `NotGranted` is the `None` callers rely on. */
  datatype GrantResult = Granted(balance: int) | NotGranted | GrantRaised

  /** A run's result, as far as charging looks at it. */
  datatype RunResult = NoResult | Collection(length: nat) | Scalar

  const FREE_ACTIONS: set<string> := {"skip_slot", "onboarding_score", "score_fix", "naukri_step"}

  const CREDIT_COSTS: map<string, nat> := map[
    "run_content" := 12, "run_jobs" := 15, "run_profile" := 10, "run_interview" := 12, "run_all" := 30,
    "copy_caption" := 2, "copy_image_prompt" := 2, "custom_post" := 5, "cv_generate" := 15,
    "cv_photo" := 5, "run_naukri" := 10, "regenerate_slot" := 3]

  function CostOf(action: string): (cost: int)
    ensures cost >= 0
  {
    if action in FREE_ACTIONS then 0 else if action in CREDIT_COSTS then CREDIT_COSTS[action] else 0
  }

  predicate IsEmptyResult(result: RunResult) {
    result.NoResult? || (result.Collection? && result.length == 0)
  }

  // ── The store's primitives, on values ──────────────────────────────────

  function ReadBalanceOf(bank: Bank, user: string, readable: bool): BalanceRead {
    if !readable then Unavailable
    else if user in bank.balances then Found(Some(bank.balances[user]))
    else Found(None)
  }

  function Write(bank: Bank, user: string, delta: int, balanceAfter: int, fault: WriteFault): Bank {
    if fault == RaisesUnwritten then bank
    else Bank(bank.balances[user := balanceAfter], bank.ledger + [Entry(user, delta, balanceAfter)])
  }

  // ── The three operations, on values ────────────────────────────────────

  function Check(bank: Bank, user: string, action: string, enforced: bool, readable: bool): CheckResult {
    var cost := CostOf(action);
    if cost <= 0 then Affordable(0) else
    match ReadBalanceOf(bank, user, readable)
    case Unavailable => CheckUnavailable
    case Found(None) => if enforced then Insufficient(cost, 0) else Affordable(cost)
    case Found(Some(balance)) => if balance < cost then Insufficient(cost, balance) else Affordable(cost)
  }

  function Charge(bank: Bank, user: string, action: string, result: RunResult, readable: bool, fault: WriteFault)
    : (Bank, ChargeResult)
  {
    var cost := CostOf(action);
    match ReadBalanceOf(bank, user, readable)
    case Unavailable => (bank, ChargeReadRaised)
    case Found(balance) =>
      if cost <= 0 || IsEmptyResult(result) || balance.None? || balance.value < cost then
        (bank, Receipt(0, balance))
      else if fault == Writes then
        (Write(bank, user, -cost, balance.value - cost, fault), Receipt(cost, Some(balance.value - cost)))
      else
        (Write(bank, user, -cost, balance.value - cost, fault), Receipt(0, balance))
  }

  function Grant(bank: Bank, user: string, amount: int, readable: bool, fault: WriteFault): (Bank, GrantResult) {
    match ReadBalanceOf(bank, user, readable)
    case Unavailable => (bank, NotGranted)
    case Found(balance) =>
      var newBalance := balance.GetOr(0) + amount;
      (Write(bank, user, amount, newBalance, fault),
       if fault == Writes then Granted(newBalance) else GrantRaised)
  }

  // ── The class the routes share ─────────────────────────────────────────

  class CreditStore {
    var balances: map<string, int>
    var ledger: seq<Entry>

    constructor ()
      ensures View() == Bank(map[], [])
    {
      balances, ledger := map[], [];
    }

    ghost function View(): Bank
      reads this
    {
      Bank(balances, ledger)
    }

    method ReadBalance(user: string, readable: bool) returns (r: BalanceRead)
      ensures r == ReadBalanceOf(View(), user, readable)
    {
      if !readable {
        return Unavailable;
      }
      r := Found(if user in balances then Some(balances[user]) else None);
    }

    /** Upserts the balance and appends the ledger row, in one transaction. */
    method ApplyDelta(user: string, delta: int, balanceAfter: int, fault: WriteFault) returns (raised: bool)
      modifies this
      ensures View() == Write(old(View()), user, delta, balanceAfter, fault)
      ensures raised <==> fault != Writes
    {
      if fault != RaisesUnwritten {
        balances := balances[user := balanceAfter];
        ledger := ledger + [Entry(user, delta, balanceAfter)];
      }
      raised := fault != Writes;
    }

    method CheckAffordable(user: string, action: string, enforced: bool, readable: bool) returns (r: CheckResult)
      ensures r == Check(View(), user, action, enforced, readable)
    {
      var cost := CostOf(action);
      if cost <= 0 {
        return Affordable(0);
      }
      var read := ReadBalance(user, readable);
      if read.Unavailable? {
        return CheckUnavailable;
      }
      if read.balance.None? {
        if !enforced {
          return Affordable(cost);
        }
        return Insufficient(cost, 0);
      }
      if read.balance.value < cost {
        return Insufficient(cost, read.balance.value);
      }
      return Affordable(cost);
    }

    method ChargeForResult(user: string, action: string, result: RunResult, readable: bool, fault: WriteFault)
      returns (r: ChargeResult)
      modifies this
      ensures (View(), r) == Charge(old(View()), user, action, result, readable, fault)
    {
      var cost := CostOf(action);
      var read := ReadBalance(user, readable);
      if read.Unavailable? {
        return ChargeReadRaised;
      }
      if cost <= 0 || IsEmptyResult(result) {
        return Receipt(0, read.balance);
      }
      if read.balance.None? {
        return Receipt(0, None);
      }
      if read.balance.value < cost {
        return Receipt(0, read.balance);
      }
      var newBalance := read.balance.value - cost;
      var raised := ApplyDelta(user, -cost, newBalance, fault);
      if raised {
        return Receipt(0, read.balance);
      }
      return Receipt(cost, Some(newBalance));
    }

    method GrantCredits(user: string, amount: int, readable: bool, fault: WriteFault) returns (r: GrantResult)
      modifies this
      ensures (View(), r) == Grant(old(View()), user, amount, readable, fault)
    {
      var read := ReadBalance(user, readable);
      if read.Unavailable? {
        return NotGranted;
      }
      var newBalance := read.balance.GetOr(0) + amount;
      var raised := ApplyDelta(user, amount, newBalance, fault);
      if raised {
        return GrantRaised;
      }
      return Granted(newBalance);
    }
  }

  // ── The ledger laws ────────────────────────────────────────────────────

  /** What the ledger says a user holds. */
  ghost function LedgerTotal(ledger: seq<Entry>, user: string): int {
    if ledger == [] then 0
    else
      var last := ledger[|ledger| - 1];
      LedgerTotal(ledger[..|ledger| - 1], user) + if last.user == user then last.delta else 0
  }

  ghost function Debits(ledger: seq<Entry>): int {
    if ledger == [] then 0
    else
      var last := ledger[|ledger| - 1];
      Debits(ledger[..|ledger| - 1]) + if last.delta < 0 then -last.delta else 0
  }

  lemma {:induction false} TotalsAppend(ledger: seq<Entry>, e: Entry, user: string)
    ensures LedgerTotal(ledger + [e], user) == LedgerTotal(ledger, user) + if e.user == user then e.delta else 0
    ensures Debits(ledger + [e]) == Debits(ledger) + if e.delta < 0 then -e.delta else 0
  {
    assert (ledger + [e])[..|ledger|] == ledger;
  }

  /** Every balance is its ledger total and not negative. */
  ghost predicate BalancesMatch(bank: Bank) {
    forall user :: LedgerTotal(bank.ledger, user) == if user in bank.balances then bank.balances[user] else 0
  }

  ghost predicate NeverNegative(bank: Bank) {
    forall user <- bank.balances :: bank.balances[user] >= 0
  }

  /** Every ledger row records the running total at the moment it was written. */
  ghost predicate RunningTotals(ledger: seq<Entry>) {
    ledger == [] ||
    (ledger[|ledger| - 1].balanceAfter == LedgerTotal(ledger, ledger[|ledger| - 1].user) &&
     RunningTotals(ledger[..|ledger| - 1]))
  }

  ghost predicate Consistent(bank: Bank) {
    BalancesMatch(bank) && NeverNegative(bank) && RunningTotals(bank.ledger)
  }

  /** A write that carries the running total keeps the ledger consistent. */
  lemma {:induction false} WriteKeepsConsistent(bank: Bank, user: string, delta: int, balanceAfter: int,
                                                fault: WriteFault)
    requires Consistent(bank)
    requires balanceAfter == (if user in bank.balances then bank.balances[user] else 0) + delta >= 0
    ensures Consistent(Write(bank, user, delta, balanceAfter, fault))
    ensures Debits(Write(bank, user, delta, balanceAfter, fault).ledger)
            == Debits(bank.ledger) + if delta < 0 && fault != RaisesUnwritten then -delta else 0
  {
    if fault != RaisesUnwritten {
      var entry := Entry(user, delta, balanceAfter);
      var next := Write(bank, user, delta, balanceAfter, fault);
      forall u ensures LedgerTotal(next.ledger, u) == if u in next.balances then next.balances[u] else 0 {
        TotalsAppend(bank.ledger, entry, u);
        assert LedgerTotal(bank.ledger, u) == if u in bank.balances then bank.balances[u] else 0;
      }
      TotalsAppend(bank.ledger, entry, user);
      assert LedgerTotal(bank.ledger, user) == if user in bank.balances then bank.balances[user] else 0;
      assert next.ledger[..|next.ledger| - 1] == bank.ledger;
    }
  }

  datatype Operation =
    | Checking(user: string, action: string, enforced: bool, readable: bool)
    | Charging(user: string, action: string, result: RunResult, readable: bool, fault: WriteFault)
    | Granting(user: string, amount: nat, readable: bool, fault: WriteFault)

  /** The store after a history, what its receipts said was charged, and the charges that
      were written although their write raised (the receipt then says zero). */
  datatype Books = Books(bank: Bank, charged: nat, unreceipted: nat)

  ghost function Operate(books: Books, op: Operation): Books {
    match op
    case Checking(_, _, _, _) => books
    case Charging(user, action, result, readable, fault) =>
      var (bank, r) := Charge(books.bank, user, action, result, readable, fault);
      books.(
        bank := bank,
        charged := books.charged + (if r.Receipt? then r.charged else 0),
        unreceipted := books.unreceipted + (if fault == RaisesWritten && bank != books.bank then CostOf(action) else 0))
    case Granting(user, amount, readable, fault) =>
      books.(bank := Grant(books.bank, user, amount, readable, fault).0)
  }

  ghost function Keep(history: seq<Operation>): Books {
    if history == [] then Books(Bank(map[], []), 0, 0)
    else Operate(Keep(history[..|history| - 1]), history[|history| - 1])
  }

  /** Over every one-at-a-time history from an empty store: balances are ledger totals and
      never negative, each `balance_after` is the running total, and the debits are exactly
      what receipts said plus the charges whose write raised after landing. */
  lemma {:induction false} LedgerConserved(history: seq<Operation>)
    ensures Consistent(Keep(history).bank)
    ensures Debits(Keep(history).bank.ledger) == Keep(history).charged + Keep(history).unreceipted
  {
    if history != [] {
      var front := history[..|history| - 1];
      LedgerConserved(front);
      OperateConserves(Keep(front), history[|history| - 1]);
    }
  }

  lemma {:induction false} OperateConserves(books: Books, op: Operation)
    requires Consistent(books.bank)
    requires Debits(books.bank.ledger) == books.charged + books.unreceipted
    ensures Consistent(Operate(books, op).bank)
    ensures Debits(Operate(books, op).bank.ledger) == Operate(books, op).charged + Operate(books, op).unreceipted
  {
    hide Charge, Grant, Consistent, Debits, CostOf;
    match op
    case Checking(_, _, _, _) =>
    case Charging(user, action, result, readable, fault) =>
      ChargeConserves(books.bank, user, action, result, readable, fault);
      ChargedOnlyForResults(books.bank, user, action, result, readable, fault);
    case Granting(user, amount, readable, fault) =>
      GrantConserves(books.bank, user, amount, readable, fault);
  }

  lemma {:induction false} GrantConserves(bank: Bank, user: string, amount: nat, readable: bool, fault: WriteFault)
    requires Consistent(bank)
    ensures Consistent(Grant(bank, user, amount, readable, fault).0)
    ensures Debits(Grant(bank, user, amount, readable, fault).0.ledger) == Debits(bank.ledger)
  {
    hide LedgerTotal, Debits, RunningTotals;
    WriteKeepsConsistent(bank, user, amount, BalanceOf(bank, user) + amount, fault);
  }

  lemma {:induction false} ChargeConserves(bank: Bank, user: string, action: string, result: RunResult,
                                           readable: bool, fault: WriteFault)
    requires Consistent(bank)
    ensures var (next, r) := Charge(bank, user, action, result, readable, fault);
            && Consistent(next)
            && Debits(next.ledger) == Debits(bank.ledger)
               + (if r.Receipt? then r.charged else 0)
               + (if fault == RaisesWritten && next != bank then CostOf(action) else 0)
  {
    hide Consistent, Debits, CostOf;
    ChargedOnlyForResults(bank, user, action, result, readable, fault);
    if user in bank.balances && bank.balances[user] >= CostOf(action) {
      WriteKeepsConsistent(bank, user, -CostOf(action), bank.balances[user] - CostOf(action), fault);
    }
  }

  /** The receipts account for every debit exactly when no landed charge raised. */
  lemma {:induction false} ReceiptsAccountForDebits(history: seq<Operation>)
    ensures Keep(history).charged == Debits(Keep(history).bank.ledger) <==> Keep(history).unreceipted == 0
  {
    LedgerConserved(history);
  }

  /** The charging rule: a charge moves the store exactly when the work has a price, produced
      something, the balance could be read and covers it, and the write lands. */
  lemma {:induction false} ChargedOnlyForResults(bank: Bank, user: string, action: string, result: RunResult,
                                                 readable: bool, fault: WriteFault)
    ensures Charge(bank, user, action, result, readable, fault).0 != bank <==>
              && CostOf(action) > 0 && result != NoResult && result != Collection(0) && readable
              && user in bank.balances && bank.balances[user] >= CostOf(action) && fault != RaisesUnwritten
  {
    if user in bank.balances {
      assert |Write(bank, user, -CostOf(action), bank.balances[user] - CostOf(action), Writes).ledger|
             == |bank.ledger| + 1;
    }
  }

  /** `None` from a grant proves that nothing was written; so does nothing else: a raised grant
      may or may not have been. */
  lemma {:induction false} NotGrantedMeansUntouched(bank: Bank, user: string, amount: int, readable: bool,
                                                    fault: WriteFault)
    ensures Grant(bank, user, amount, readable, fault).1 == NotGranted <==> !readable
    ensures Grant(bank, user, amount, readable, fault).1 == NotGranted
            ==> Grant(bank, user, amount, readable, fault).0 == bank
    ensures readable && fault != RaisesUnwritten ==>
              LedgerTotal(Grant(bank, user, amount, readable, fault).0.ledger, user)
              == LedgerTotal(bank.ledger, user) + amount
  {
    TotalsAppend(bank.ledger,
                 Entry(user, amount, (if user in bank.balances then bank.balances[user] else 0) + amount), user);
  }

  /** A check that passed is honoured: charging the same action for a real result, with the
      store unchanged since and its write landing, takes exactly the quoted cost. */
  lemma {:induction false} CheckedThenCharged(bank: Bank, user: string, action: string, result: RunResult)
    requires Check(bank, user, action, true, true).Affordable?
    requires result != NoResult && result != Collection(0)
    ensures var quoted := Check(bank, user, action, true, true).cost;
            var (next, r) := Charge(bank, user, action, result, true, Writes);
            r.Receipt? && r.charged == quoted &&
            LedgerTotal(next.ledger, user) == LedgerTotal(bank.ledger, user) - quoted
  {
    if CostOf(action) > 0 {
      TotalsAppend(bank.ledger, Entry(user, -CostOf(action), bank.balances[user] - CostOf(action)), user);
    }
  }

  /** The price list: what each action costs, and that nothing else costs anything. */
  lemma {:induction false} PricedActions(action: string)
    ensures action in {"run_content", "run_interview"} ==> CostOf(action) == 12
    ensures action in {"run_jobs", "cv_generate"} ==> CostOf(action) == 15
    ensures action in {"run_profile", "run_naukri"} ==> CostOf(action) == 10
    ensures action == "run_all" ==> CostOf(action) == 30
    ensures action in {"copy_caption", "copy_image_prompt"} ==> CostOf(action) == 2
    ensures action in {"custom_post", "cv_photo"} ==> CostOf(action) == 5
    ensures action == "regenerate_slot" ==> CostOf(action) == 3
    ensures CostOf(action) != 0 <==>
              action in {"run_content", "run_interview", "run_jobs", "cv_generate", "run_profile", "run_naukri",
                         "run_all", "copy_caption", "copy_image_prompt", "custom_post", "cv_photo",
                         "regenerate_slot"}
  {
  }

  /** When a check lets an action through, and that it quotes the price or says what is missing.
      A user with no row holds nothing, and is let through only by the bypass. */
  lemma {:induction false} AffordableExactly(bank: Bank, user: string, action: string, enforced: bool, readable: bool)
    ensures var r := Check(bank, user, action, enforced, readable);
            var cost := CostOf(action);
            && (r == Affordable(cost) <==>
                  cost == 0 || (readable && if user in bank.balances then bank.balances[user] >= cost else !enforced))
            && (r == CheckUnavailable <==> cost > 0 && !readable)
            && (r != Affordable(cost) && r != CheckUnavailable ==> r == Insufficient(cost, BalanceOf(bank, user)))
  {
  }

  /** With the bypass off, an action with a price passes the check exactly when charging for a
      real result would take something. */
  lemma {:induction false} AffordableMeansChargeable(bank: Bank, user: string, action: string, readable: bool)
    requires CostOf(action) > 0
    ensures Check(bank, user, action, true, readable).Affordable? <==>
              Charge(bank, user, action, Scalar, readable, Writes).0 != bank
  {
    ChargedOnlyForResults(bank, user, action, Scalar, readable, Writes);
  }

  /** A receipt says what left the balance and what the balance now is, unless the write landed
      and raised all the same: then it says nothing was taken and the balance is the one before.
      There is no receipt exactly when the balance could not be read; and nobody else's balance or
      ledger rows move. */
  lemma {:induction false} ReceiptTellsTheBalance(bank: Bank, user: string, action: string, result: RunResult,
                                                  readable: bool, fault: WriteFault, other: string)
    requires other != user
    ensures var (next, r) := Charge(bank, user, action, result, readable, fault);
            && (r == ChargeReadRaised <==> !readable)
            && (r == ChargeReadRaised ==> next == bank)
            && (readable && fault == RaisesWritten ==> r == Receipt(0, Stored(bank, user)))
            && (readable && fault != RaisesWritten ==>
                  BalanceOf(bank, user) >= BalanceOf(next, user)
                  && r == Receipt(BalanceOf(bank, user) - BalanceOf(next, user), Stored(next, user)))
            && Stored(next, other) == Stored(bank, other)
            && LedgerTotal(next.ledger, other) == LedgerTotal(bank.ledger, other)
  {
    TotalsAppend(bank.ledger, Entry(user, -CostOf(action), BalanceOf(bank, user) - CostOf(action)), other);
  }

  ghost function Stored(bank: Bank, user: string): Option<int> {
    if user in bank.balances then Some(bank.balances[user]) else None
  }

  ghost function BalanceOf(bank: Bank, user: string): int {
    if user in bank.balances then bank.balances[user] else 0
  }

  /** A grant answers the balance it stored, which is the one before and the amount; it raises
      exactly when its write does; and nobody else's balance or ledger rows move. */
  lemma {:induction false} GrantAnswersTheStoredBalance(bank: Bank, user: string, amount: int, readable: bool,
                                                        fault: WriteFault, other: string)
    requires other != user
    ensures var (next, r) := Grant(bank, user, amount, readable, fault);
            && (r == GrantRaised <==> readable && fault != Writes)
            && (r.Granted? <==> readable && fault == Writes)
            && (r.Granted? ==> Stored(next, user) == Some(r.balance) && r.balance == BalanceOf(bank, user) + amount)
            && (readable && fault == RaisesUnwritten ==> next == bank)
            && Stored(next, other) == Stored(bank, other)
            && LedgerTotal(next.ledger, other) == LedgerTotal(bank.ledger, other)
  {
    TotalsAppend(bank.ledger, Entry(user, amount, BalanceOf(bank, user) + amount), other);
  }

}
