/**
 Any number of requests verifying one payment link at once.

 A request is cut at its store and ledger calls: read the row; then one write (mark
 dead, or claim); then the grant; then, if the grant did not happen, the release. A run
 is any sequence of those steps by any requests, so a request may also stop anywhere.
 */
module TopupRaces {
  import opened Basics
  import opened Credits
  import opened Payments

  /** Where one request stands. */
  datatype Request =
    | Fetched(theirs: Option<PaymentStatus>, paymentId: Option<string>, seen: Payment)
    | Holding(amount: nat)        // won the claim; the grant is still to come
    | Releasing                   // the grant returned None; the release is still to come
    | Credited                    // the grant was applied
    | Uncertain(landed: bool)     // the grant raised; the claim stays
    | Answered(outcome: Outcome)
  {
    /** This request's claim is still in force. */
    predicate Responsible() {
      Holding? || Releasing? || Credited? || Uncertain?
    }

    predicate OnLedger() {
      Credited? || (Uncertain? && landed)
    }
  }

  /** What a grant does: applied, provably not applied, or raised (written or not). */
  datatype Reply = Applied | NotApplied | Raised(landed: bool)

  datatype Event =
    | Fetch(providerStatus: string, paymentId: Option<string>)
    | Proceed(id: nat)
    | GrantReturns(id: nat, reply: Reply)
    | Release(id: nat)

  /** The row, every request so far, and the credits this payment has put on the ledger. */
  datatype State = State(row: Payment, requests: seq<Request>, ledger: seq<nat>)

  /** The one write of a request that has read the row. */
  function ProceedFrom(row: Payment, r: Request): (Payment, Request)
    requires r.Fetched?
  {
    match r.theirs
    case None => (row, Answered(NotPaidYet))
    case Some(theirs) =>
      if theirs.IsDead() then (row.(status := theirs), Answered(FailedOutcome))
      else if theirs != Paid then (row, Answered(NotPaidYet))
      else if r.seen.status == Paid then (row, Answered(AlreadyCredited))
      else
        var (claimed, won) := ClaimedRow(row, r.paymentId);
        (claimed, if won then Holding(r.seen.credits) else Answered(AlreadyCredited))
  }

  /** One step. A step its request is not ready for changes nothing. */
  function Step(s: State, e: Event): State {
    match e
    case Fetch(providerStatus, paymentId) =>
      s.(requests := s.requests + [Fetched(StatusFromProvider(providerStatus), paymentId, s.row)])
    case Proceed(id) =>
      if id < |s.requests| && s.requests[id].Fetched? then
        var (row, r) := ProceedFrom(s.row, s.requests[id]);
        s.(row := row, requests := s.requests[id := r])
      else s
    case GrantReturns(id, reply) =>
      if id < |s.requests| && s.requests[id].Holding? then
        var amount := s.requests[id].amount;
        match reply
        case Applied => s.(requests := s.requests[id := Credited], ledger := s.ledger + [amount])
        case NotApplied => s.(requests := s.requests[id := Releasing])
        case Raised(landed) =>
          s.(requests := s.requests[id := Uncertain(landed)],
             ledger := if landed then s.ledger + [amount] else s.ledger)
      else s
    case Release(id) =>
      if id < |s.requests| && s.requests[id].Releasing? then
        s.(row := s.row.(status := Created), requests := s.requests[id := Answered(GrantFailed)])
      else s
  }

  ghost function Run(s: State, events: seq<Event>): State {
    if events == [] then s else Step(Run(s, events[..|events| - 1]), events[|events| - 1])
  }

  /** A link as it is recorded: `created`, and nobody has asked about it yet. */
  ghost predicate Opening(s: State) {
    s.row.status == Created && s.requests == [] && s.ledger == []
  }

  /** `owner` is the only request whose claim is in force (-1 for nobody). */
  ghost predicate Owned(s: State, owner: int) {
    && -1 <= owner < |s.requests|
    && forall i :: 0 <= i < |s.requests| ==> (s.requests[i].Responsible() <==> i == owner)
  }

  /** The row, the claims and the ledger agree. */
  ghost predicate Agrees(s: State, owner: int) {
    && Owned(s, owner)
    && (s.row.status == Created ==> owner == -1)
    && (s.row.status == Paid ==> owner >= 0)
    && s.ledger == (if owner >= 0 && s.requests[owner].OnLedger() then [s.row.credits] else [])
    && (forall i :: 0 <= i < |s.requests| && s.requests[i].Fetched? ==> s.requests[i].seen.credits == s.row.credits)
    && (forall i :: 0 <= i < |s.requests| && s.requests[i].Holding? ==> s.requests[i].amount == s.row.credits)
  }

  lemma {:induction false} StepAgrees(s: State, e: Event, owner: int) returns (next: int)
    requires Agrees(s, owner)
    ensures Agrees(Step(s, e), next)
    ensures owner >= 0 && s.requests[owner].OnLedger() ==>
              next == owner && Step(s, e).requests[owner] == s.requests[owner]
    ensures Step(s, e).row.credits == s.row.credits
  {
    hide StatusFromProvider;
    next := owner;
    match e
    case Fetch(_, _) =>
    case Proceed(id) =>
      if id < |s.requests| && Step(s, e).requests[id].Holding? && s.requests[id].Fetched? {
        next := id;
      }
    case GrantReturns(_, _) =>
    case Release(id) =>
      if id < |s.requests| && s.requests[id].Releasing? {
        next := -1;
      }
  }

  lemma {:induction false} RunAgrees(s: State, events: seq<Event>) returns (owner: int)
    requires Opening(s)
    ensures Agrees(Run(s, events), owner)
    ensures Run(s, events).row.credits == s.row.credits
  {
    if events == [] {
      owner := -1;
    } else {
      owner := RunAgrees(s, events[..|events| - 1]);
      owner := StepAgrees(Run(s, events[..|events| - 1]), events[|events| - 1], owner);
    }
  }

  /** In every interleaving at most one claim is in force, none while the row reads `created`,
      and the payment reaches the ledger at most once and for its own amount. */
  lemma {:induction false} CreditedAtMostOnce(s: State, events: seq<Event>)
    requires Opening(s)
    ensures var t := Run(s, events);
            && (t.ledger == [] || t.ledger == [s.row.credits])
            && (forall i, j :: 0 <= i < j < |t.requests| ==>
                  !(t.requests[i].Responsible() && t.requests[j].Responsible()))
            && (t.row.status == Created ==>
                  t.ledger == [] && forall i :: 0 <= i < |t.requests| ==> !t.requests[i].Responsible())
  {
    var _ := RunAgrees(s, events);
  }

  /** Once credited, no later step by anyone reopens the row or credits it again. */
  lemma {:induction false} NeverReopened(s: State, before: seq<Event>, after: seq<Event>)
    requires Opening(s)
    requires Run(s, before).ledger != []
    ensures var t := Run(Run(s, before), after);
            t.row.status != Created && t.ledger == Run(s, before).ledger
  {
    var owner := RunAgrees(s, before);
    StaysCredited(Run(s, before), after, owner);
  }

  lemma {:induction false} StaysCredited(s: State, events: seq<Event>, owner: int)
    requires Agrees(s, owner) && owner >= 0 && s.requests[owner].OnLedger()
    ensures var t := Run(s, events);
            Agrees(t, owner) && t.requests[owner] == s.requests[owner] && t.row.credits == s.row.credits
  {
    if events != [] {
      StaysCredited(s, events[..|events| - 1], owner);
      var next := StepAgrees(Run(s, events[..|events| - 1]), events[|events| - 1], owner);
    }
  }

  /** No request is between its claim and the end of its grant. */
  ghost predicate Settled(s: State) {
    forall i :: 0 <= i < |s.requests| ==> !s.requests[i].Holding? && !s.requests[i].Releasing?
  }

  /** Once the claims have settled, a row reading `paid` is on the ledger, or belongs to one
      request whose grant raised unwritten and which told its own payer "owed". What the others
      were told is the next section. */
  lemma {:induction false} PaidIsCreditedOrOwed(s: State, events: seq<Event>)
    requires Opening(s)
    requires Settled(Run(s, events)) && Run(s, events).row.status == Paid
    ensures var t := Run(s, events);
            exists i :: 0 <= i < |t.requests| && (t.requests[i].Credited? || t.requests[i].Uncertain?)
                        && (t.ledger == [] <==> t.requests[i] == Uncertain(false))
  {
    var owner := RunAgrees(s, events);
    assert Run(s, events).requests[owner].Responsible();
  }

  // ── What "already credited" is worth ───────────────────────────────────

  /** The next step of this request answers "already credited". */
  ghost predicate ToldNext(s: State, id: nat) {
    id < |s.requests| && s.requests[id].Fetched? && Step(s, Proceed(id)).requests[id] == Answered(AlreadyCredited)
  }

  /** A request is told so exactly when the provider says `paid` and it read `paid`, or the row
      no longer reads `created`. */
  lemma {:induction false} ToldExactly(s: State, id: nat)
    requires id < |s.requests| && s.requests[id].Fetched?
    ensures ToldNext(s, id) <==>
              s.requests[id].theirs == Some(Paid) && (s.requests[id].seen.status == Paid || s.row.status != Created)
  {
  }

  /** The request whose claim is in force, or -1. */
  ghost function Holder(requests: seq<Request>): int
    ensures -1 <= Holder(requests) < |requests|
  {
    if requests == [] then -1
    else if requests[|requests| - 1].Responsible() then |requests| - 1
    else Holder(requests[..|requests| - 1])
  }

  lemma {:induction false} HolderIsOwner(requests: seq<Request>, owner: int)
    requires -1 <= owner < |requests|
    requires forall i :: 0 <= i < |requests| ==> (requests[i].Responsible() <==> i == owner)
    ensures Holder(requests) == owner
  {
    if requests != [] {
      var last := |requests| - 1;
      if !requests[last].Responsible() {
        HolderIsOwner(requests[..last], owner);
      }
    }
  }

  /** Nobody can ever win the claim again: the row is dead and nobody's, or its one claim raised
      unwritten. */
  ghost predicate BeyondCredit(s: State, h: int) {
    && Owned(s, h) && s.row.status != Created && s.ledger == []
    && (if h == -1 then s.row.status.IsDead() else s.requests[h] == Uncertain(false))
  }

  /** Then no interleaving of any further requests ever credits the payment. */
  lemma {:induction false} UncreditedForGood(s: State, events: seq<Event>, h: int)
    requires BeyondCredit(s, h)
    ensures BeyondCredit(Run(s, events), h)
  {
    if events != [] {
      UncreditedForGood(s, events[..|events| - 1], h);
    }
  }

  /** An uncredited payment can still be credited exactly when it is not beyond that. */
  lemma {:induction false} CreditableExactly(s: State, events: seq<Event>)
    requires Opening(s) && Run(s, events).ledger == []
    ensures var t := Run(s, events);
            (exists more :: Run(t, more).ledger != []) <==> !BeyondCredit(t, Holder(t.requests))
  {
    var owner := RunAgrees(s, events);
    var t := Run(s, events);
    HolderIsOwner(t.requests, owner);
    if BeyondCredit(t, owner) {
      forall more ensures Run(t, more).ledger == [] {
        UncreditedForGood(t, more, owner);
      }
    } else {
      var more := WayToCredit(t, owner);
    }
  }

  lemma {:induction false} WayToCredit(t: State, owner: int) returns (more: seq<Event>)
    requires Agrees(t, owner) && t.ledger == [] && !BeyondCredit(t, owner)
    ensures Run(t, more).ledger != []
  {
    var id := |t.requests|;
    var anew := [Fetch("paid", None), Proceed(id), GrantReturns(id, Applied)];
    if owner == -1 {
      more := anew;
      FreshRequestCredits(t);
    } else if t.requests[owner].Holding? {
      more := [GrantReturns(owner, Applied)];
      assert more[..0] == [];
    } else {
      var released := Step(t, Release(owner));
      assert |released.requests| == id;
      more := [Release(owner)] + anew;
      FreshRequestCredits(released);
      RunFour(t, more);
      RunThree(released, anew);
    }
  }

  lemma {:induction false} RunThree(s: State, es: seq<Event>)
    requires |es| == 3
    ensures Run(s, es) == Step(Step(Step(s, es[0]), es[1]), es[2])
  {
    assert es[..2][..1] == es[..1];
    assert Run(s, es[..1]) == Step(s, es[0]);
    assert Run(s, es[..2]) == Step(Run(s, es[..1]), es[1]);
  }

  /** A row that reads `created` is credited by the next request whose grant works. */
  lemma {:induction false} FreshRequestCredits(t: State)
    requires t.row.status == Created
    ensures var id := |t.requests|;
            Run(t, [Fetch("paid", None), Proceed(id), GrantReturns(id, Applied)]).ledger != []
  {
    var id := |t.requests|;
    RunThree(t, [Fetch("paid", None), Proceed(id), GrantReturns(id, Applied)]);
    var s2 := Step(Step(t, Fetch("paid", None)), Proceed(id));
    assert s2.requests[id].Holding?;
  }

  /** Told "already credited", a payer has not been credited exactly when, as the answer is given,
      nobody holds the claim (the row is dead, or was released after this request read it), or
      the holder's grant is still to come, was not applied and its claim waits to be released, or
      raised unwritten. And then it stays so for good exactly when the row is dead and nobody's,
      or the holder's grant raised unwritten. */
  lemma {:induction false} ToldAlreadyCreditedExactly(s: State, events: seq<Event>, id: nat)
    requires Opening(s) && ToldNext(Run(s, events), id)
    ensures var t := Step(Run(s, events), Proceed(id));
            var h := Holder(t.requests);
            && (forall i :: 0 <= i < |t.requests| ==> (t.requests[i].Responsible() <==> i == h))
            && (t.ledger == [] <==>
                  h == -1 || t.requests[h].Holding? || t.requests[h].Releasing? || t.requests[h] == Uncertain(false))
            && (h == -1 ==>
                  t.row.status.IsDead()
                  || (t.row.status == Created && Run(s, events).requests[id].seen.status == Paid))
            && (t.ledger == [] ==>
                  ((forall more :: Run(t, more).ledger == []) <==>
                     (h == -1 && t.row.status.IsDead()) || (h >= 0 && t.requests[h] == Uncertain(false))))
  {
    hide BeyondCredit;
    var before := Run(s, events);
    var owner := RunAgrees(s, events);
    owner := StepAgrees(before, Proceed(id), owner);
    var t := Step(before, Proceed(id));
    HolderIsOwner(t.requests, owner);
    ToldExactly(before, id);
    OneMoreStep(s, events, Proceed(id));
    if t.ledger == [] {
      CreditableExactly(s, events + [Proceed(id)]);
      BeyondCreditIs(t, owner);
    }
  }

  lemma {:induction false} OneMoreStep(s: State, events: seq<Event>, e: Event)
    ensures Run(s, events + [e]) == Step(Run(s, events), e)
  {
    assert (events + [e])[..|events|] == events;
  }

  lemma {:induction false} BeyondCreditIs(t: State, owner: int)
    requires Agrees(t, owner) && t.ledger == []
    ensures BeyondCredit(t, owner) <==>
              (owner == -1 && t.row.status.IsDead()) || (owner >= 0 && t.requests[owner] == Uncertain(false))
  {
  }

  /** The dead row: nobody ever claimed. */
  lemma {:induction false} DeadRowIsToldAlreadyCredited(row: Payment)
    requires row.status == Created
    ensures var t := Run(State(row, [], []), [Fetch("failed", None), Proceed(0), Fetch("paid", None), Proceed(1)]);
            && |t.requests| == 2 && t.requests[1] == Answered(AlreadyCredited)
            && t.row.status == Failed && t.ledger == [] && Settled(t) && BeyondCredit(t, -1)
  {
    var s0 := State(row, [], []);
    var es := [Fetch("failed", None), Proceed(0), Fetch("paid", None), Proceed(1)];
    var s2 := Step(Step(s0, es[0]), es[1]);
    RunFour(s0, es);
    assert s2.row.status == Failed;
  }

  /** The holder's grant raised and nothing was written; the row reads `paid` for good, and the
      next request is told "already credited". */
  lemma {:induction false} RaisedGrantIsToldAlreadyCredited(row: Payment)
    requires row.status == Created
    ensures var t := Run(State(row, [], []),
                         [Fetch("paid", None), Proceed(0), GrantReturns(0, Raised(false)), Fetch("paid", None),
                          Proceed(1)]);
            && t.requests == [Uncertain(false), Answered(AlreadyCredited)]
            && t.row.status == Paid && t.ledger == [] && Settled(t) && BeyondCredit(t, 0)
  {
    var s0 := State(row, [], []);
    var es := [Fetch("paid", None), Proceed(0), GrantReturns(0, Raised(false)), Fetch("paid", None), Proceed(1)];
    var s2 := Step(Step(s0, es[0]), es[1]);
    RunFour(s0, es[..4]);
    assert es[..4][..4] == es[..4] && es[..5] == es;
    assert s2.requests == [Holding(row.credits)];
  }

  /** The holder's grant was not applied, and its claim waits to be released: the row still reads
      `paid`, the ledger is empty, and a request that looks just then is told "already credited". */
  lemma {:induction false} ReleasingHolderIsToldAlreadyCredited(row: Payment)
    requires row.status == Created
    ensures var t := Run(State(row, [], []),
                         [Fetch("paid", None), Proceed(0), Fetch("paid", None), GrantReturns(0, NotApplied),
                          Proceed(1), Release(0)]);
            && t.requests == [Answered(GrantFailed), Answered(AlreadyCredited)]
            && t.row.status == Created && t.ledger == [] && Settled(t)
  {
    var s0 := State(row, [], []);
    var es := [Fetch("paid", None), Proceed(0), Fetch("paid", None), GrantReturns(0, NotApplied), Proceed(1),
               Release(0)];
    var s2 := Step(Step(s0, es[0]), es[1]);
    var s4 := Step(Step(s2, es[2]), es[3]);
    RunSix(s0, es);
    assert s2.requests == [Holding(row.credits)];
    assert s4.requests[0] == Releasing && s4.requests[1].seen.status == Paid;
  }

  /** Nobody holds the claim any more: a request that read `paid` just before the holder released
      is told "already credited" about a row that is `created` again. */
  lemma {:induction false} StaleReadIsToldAlreadyCredited(row: Payment)
    requires row.status == Created
    ensures var t := Run(State(row, [], []),
                         [Fetch("paid", None), Proceed(0), Fetch("paid", None), GrantReturns(0, NotApplied),
                          Release(0), Proceed(1)]);
            |t.requests| == 2 && t.requests[1] == Answered(AlreadyCredited) && t.row.status == Created && t.ledger == []
  {
    var s0 := State(row, [], []);
    var es := [Fetch("paid", None), Proceed(0), Fetch("paid", None), GrantReturns(0, NotApplied), Release(0),
               Proceed(1)];
    var s1 := Step(s0, es[0]);
    var s2 := Step(s1, es[1]);
    var s3 := Step(s2, es[2]);
    var s4 := Step(s3, es[3]);
    var s5 := Step(s4, es[4]);
    RunSix(s0, es);
    assert s5.row.status == Created && s5.requests[1].seen.status == Paid;
  }

  lemma {:induction false} RunFour(s: State, es: seq<Event>)
    requires |es| == 4
    ensures Run(s, es) == Step(Step(Step(Step(s, es[0]), es[1]), es[2]), es[3])
  {
    assert es[..3][..2] == es[..2] && es[..2][..1] == es[..1];
    assert Run(s, es[..1]) == Step(s, es[0]);
    assert Run(s, es[..2]) == Step(Run(s, es[..1]), es[1]);
    assert Run(s, es[..3]) == Step(Run(s, es[..2]), es[2]);
  }

  lemma {:induction false} RunSix(s: State, es: seq<Event>)
    requires |es| == 6
    ensures Run(s, es) == Step(Step(Step(Step(Step(Step(s, es[0]), es[1]), es[2]), es[3]), es[4]), es[5])
  {
    assert es[..5][..4] == es[..4] && es[..4][..3] == es[..3] && es[..3][..2] == es[..2] && es[..2][..1] == es[..1];
    assert Run(s, es[..1]) == Step(s, es[0]);
    assert Run(s, es[..2]) == Step(Run(s, es[..1]), es[1]);
    assert Run(s, es[..3]) == Step(Run(s, es[..2]), es[2]);
    assert Run(s, es[..4]) == Step(Run(s, es[..3]), es[3]);
    assert Run(s, es[..5]) == Step(Run(s, es[..4]), es[4]);
  }

  // ── The one-request method is one schedule of this machine ─────────────

  function ReplyOf(world: World): Reply {
    if !world.readable then NotApplied
    else if world.fault == Writes then Applied
    else Raised(world.fault == RaisesWritten)
  }

  /** Running one more request straight through, from any state, does to the row and the ledger
      exactly what the method `VerifyTopup` promises. */
  lemma {:induction false} AloneIsOneSchedule(s: State, bank: Bank, user: string, providerStatus: string,
                                              paymentId: Option<string>, world: World)
    ensures var id := |s.requests|;
            var t := Step(Step(Step(Step(s, Fetch(providerStatus, paymentId)), Proceed(id)),
                               GrantReturns(id, ReplyOf(world))), Release(id));
            var (row, bank', answer) := TopupAlone(s.row, bank, user, providerStatus, paymentId, world);
            && t.row == row
            && |t.ledger| - |s.ledger| == |bank'.ledger| - |bank.ledger|
            && (t.requests[id] == Credited <==> answer.outcome == GrantedOutcome)
            && (t.requests[id].Answered? ==> t.requests[id].outcome == answer.outcome)
            && (t.requests[id].Uncertain? ==> answer.outcome == GrantFailed)
            && (t.requests[id] == Credited || t.requests[id].Answered? || t.requests[id].Uncertain?)
  {
  }
}
