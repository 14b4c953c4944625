/**
 Any number of reconciles of one subscription at once.

 A request reads the count, claims [seen, paid) with a conditional update, asks for the
 grant, and winds the count back if the grant did not happen. A run is any sequence of
 those steps by any requests.
 */
module SubscriptionRaces {
  import opened Basics
  import opened Credits
  import opened Payments

  /** A span of paid months [seen, paid). */
  datatype Span = Span(seen: int, paid: int)

  datatype Request =
    | Fetched(seen: int, reported: int)   // read the count; the provider reported `reported`
    | Holding(span: Span)                 // won the claim; the grant is still to come
    | WindingBack(span: Span)             // the grant returned None; the reverse update is still to come
    | Credited(span: Span)
    | Uncertain(span: Span, landed: bool) // the grant raised; the count stays advanced
    | Lost(span: Span)                    // wound back too late: the count had moved on
    | Answered(outcome: Outcome)
  {
    predicate InForce() {
      Holding? || WindingBack? || Credited? || Uncertain? || Lost?
    }

    predicate OnLedger() {
      Credited? || (Uncertain? && landed)
    }

    function Months(): int {
      if InForce() then span.paid - span.seen else 0
    }

    function LedgerMonths(): int {
      if OnLedger() then span.paid - span.seen else 0
    }

    predicate Covers(month: int) {
      InForce() && span.seen <= month < span.paid
    }
  }

  datatype Reply = Applied | NotApplied | Raised(landed: bool)

  datatype Event =
    | Fetch(reported: int)
    | Claim(id: nat)
    | GrantReturns(id: nat, reply: Reply)
    | WindBack(id: nat)

  /** The row, every request so far, the credits granted, and the plan's credits a month. */
  datatype State = State(row: Subscription, perMonth: nat, requests: seq<Request>, granted: int)

  function Step(s: State, e: Event): State {
    match e
    case Fetch(reported) => s.(requests := s.requests + [Fetched(s.row.cyclesCredited, reported)])
    case Claim(id) =>
      if id < |s.requests| && s.requests[id].Fetched? then
        var r := s.requests[id];
        if r.reported <= r.seen then s.(requests := s.requests[id := Answered(AlreadyCredited)])
        else
          var (row, won) := ClaimedCycles(s.row, r.seen, r.reported);
          s.(row := row,
             requests :=
               s.requests[id := if won <= 0 then Answered(AlreadyCredited) else Holding(Span(r.seen, r.reported))])
      else s
    case GrantReturns(id, reply) =>
      if id < |s.requests| && s.requests[id].Holding? then
        var span := s.requests[id].span;
        var amount := s.perMonth * (span.paid - span.seen);
        match reply
        case Applied => s.(requests := s.requests[id := Credited(span)], granted := s.granted + amount)
        case NotApplied => s.(requests := s.requests[id := WindingBack(span)])
        case Raised(landed) =>
          s.(requests := s.requests[id := Uncertain(span, landed)],
             granted := if landed then s.granted + amount else s.granted)
      else s
    case WindBack(id) =>
      if id < |s.requests| && s.requests[id].WindingBack? then
        var span := s.requests[id].span;
        var (row, won) := ClaimedCycles(s.row, span.paid, span.seen);
        s.(row := row, requests := s.requests[id := if won == 0 then Lost(span) else Answered(GrantFailed)])
      else s
  }

  ghost function Run(s: State, events: seq<Event>): State {
    if events == [] then s else Step(Run(s, events[..|events| - 1]), events[|events| - 1])
  }

  /** A subscription nobody is reconciling, with nothing granted in this run yet. */
  ghost predicate Opening(s: State) {
    s.requests == [] && s.granted == 0
  }

  // ── The claimed spans tile the count's advance ─────────────────────────

  /** Every span in force is nonempty and lies between the starting count and the present one. */
  ghost predicate Inside(requests: seq<Request>, start: int, cycles: int) {
    forall i :: 0 <= i < |requests| && requests[i].InForce() ==>
      start <= requests[i].span.seen < requests[i].span.paid <= cycles
  }

  ghost predicate Apart(requests: seq<Request>) {
    forall i, j :: 0 <= i < j < |requests| && requests[i].InForce() && requests[j].InForce() ==>
      requests[i].span.paid <= requests[j].span.seen || requests[j].span.paid <= requests[i].span.seen
  }

  ghost predicate Covered(requests: seq<Request>, month: int) {
    exists i :: 0 <= i < |requests| && requests[i].Covers(month)
  }

  /** The spans in force are disjoint and together are exactly [start, cycles). */
  ghost predicate Tiles(s: State, start: int) {
    && Inside(s.requests, start, s.row.cyclesCredited)
    && Apart(s.requests)
    && start <= s.row.cyclesCredited
    && (forall month :: start <= month < s.row.cyclesCredited ==> Covered(s.requests, month))
  }

  ghost function MonthsInForce(requests: seq<Request>): int {
    if requests == [] then 0
    else MonthsInForce(requests[..|requests| - 1]) + requests[|requests| - 1].Months()
  }

  ghost function MonthsOnLedger(requests: seq<Request>): int {
    if requests == [] then 0
    else MonthsOnLedger(requests[..|requests| - 1]) + requests[|requests| - 1].LedgerMonths()
  }

  /** Changing one request moves the two counts by that request's change. */
  lemma {:induction false} MonthsUpdate(requests: seq<Request>, id: nat, r: Request)
    requires id < |requests|
    ensures MonthsInForce(requests[id := r]) == MonthsInForce(requests) - requests[id].Months() + r.Months()
    ensures MonthsOnLedger(requests[id := r])
            == MonthsOnLedger(requests) - requests[id].LedgerMonths() + r.LedgerMonths()
  {
    var last := |requests| - 1;
    if id == last {
      assert requests[id := r][..last] == requests[..last];
    } else {
      assert requests[id := r][..last] == requests[..last][id := r];
      MonthsUpdate(requests[..last], id, r);
    }
  }

  lemma {:induction false} MonthsAppend(requests: seq<Request>, r: Request)
    ensures MonthsInForce(requests + [r]) == MonthsInForce(requests) + r.Months()
    ensures MonthsOnLedger(requests + [r]) == MonthsOnLedger(requests) + r.LedgerMonths()
  {
    assert (requests + [r])[..|requests|] == requests;
  }

  /** The count's advance and the credits granted, in months. */
  ghost predicate Accounts(s: State, start: int) {
    && MonthsInForce(s.requests) == s.row.cyclesCredited - start
    && s.granted == s.perMonth * MonthsOnLedger(s.requests)
  }

  /** A claim appends [count, reported) to the tiling. */
  lemma {:induction false} ClaimTiles(s: State, id: nat, start: int)
    requires Tiles(s, start) && Accounts(s, start)
    ensures Tiles(Step(s, Claim(id)), start) && Accounts(Step(s, Claim(id)), start)
  {
    hide Tiles, Accounts;
    if id < |s.requests| && s.requests[id].Fetched? {
      ClaimKeepsTiles(s, id, start);
      ClaimKeepsAccounts(s, id, start);
    }
  }

  lemma {:induction false} ClaimKeepsTiles(s: State, id: nat, start: int)
    requires Tiles(s, start) && id < |s.requests| && s.requests[id].Fetched?
    ensures Tiles(Step(s, Claim(id)), start)
  {
    var t := Step(s, Claim(id));
    forall month | start <= month < t.row.cyclesCredited ensures Covered(t.requests, month) {
      if month < s.row.cyclesCredited {
        assert Covered(s.requests, month);
        var i :| 0 <= i < |s.requests| && s.requests[i].Covers(month);
        assert t.requests[i].Covers(month);
      } else {
        assert t.requests[id].Covers(month);
      }
    }
  }

  lemma {:induction false} ClaimKeepsAccounts(s: State, id: nat, start: int)
    requires Tiles(s, start) && Accounts(s, start) && id < |s.requests| && s.requests[id].Fetched?
    ensures Accounts(Step(s, Claim(id)), start)
  {
    hide Apart, Covered;
    MonthsUpdate(s.requests, id, Step(s, Claim(id)).requests[id]);
  }

  /** Granting keeps the span in force, whatever it answers. */
  lemma {:induction false} GrantTiles(s: State, id: nat, reply: Reply, start: int)
    requires Tiles(s, start) && Accounts(s, start)
    ensures Tiles(Step(s, GrantReturns(id, reply)), start) && Accounts(Step(s, GrantReturns(id, reply)), start)
  {
    hide Tiles, Accounts;
    if id < |s.requests| && s.requests[id].Holding? {
      GrantKeepsTiles(s, id, reply, start);
      GrantKeepsAccounts(s, id, reply, start);
    }
  }

  lemma {:induction false} GrantKeepsTiles(s: State, id: nat, reply: Reply, start: int)
    requires Tiles(s, start) && id < |s.requests| && s.requests[id].Holding?
    ensures Tiles(Step(s, GrantReturns(id, reply)), start)
  {
    var t := Step(s, GrantReturns(id, reply));
    forall month | start <= month < t.row.cyclesCredited ensures Covered(t.requests, month) {
      assert Covered(s.requests, month);
      var i :| 0 <= i < |s.requests| && s.requests[i].Covers(month);
      assert t.requests[i].Covers(month);
    }
  }

  lemma {:induction false} GrantKeepsAccounts(s: State, id: nat, reply: Reply, start: int)
    requires Accounts(s, start) && id < |s.requests| && s.requests[id].Holding?
    ensures Accounts(Step(s, GrantReturns(id, reply)), start)
  {
    var r := Step(s, GrantReturns(id, reply)).requests[id];
    MonthsUpdate(s.requests, id, r);
    Distribute(s.perMonth, MonthsOnLedger(s.requests), r.LedgerMonths());
  }

  lemma {:induction false} Distribute(k: int, a: int, b: int)
    ensures k * (a + b) == k * a + k * b
  {
  }

  /** A wind-back that succeeds removes the topmost span, because only that one ends at the count. */
  lemma {:induction false} WindBackTiles(s: State, id: nat, start: int)
    requires Tiles(s, start) && Accounts(s, start)
    ensures Tiles(Step(s, WindBack(id)), start) && Accounts(Step(s, WindBack(id)), start)
  {
    hide Tiles, Accounts;
    if id < |s.requests| && s.requests[id].WindingBack? {
      WindBackKeepsTiles(s, id, start);
      WindBackKeepsAccounts(s, id, start);
    }
  }

  lemma {:induction false} WindBackKeepsTiles(s: State, id: nat, start: int)
    requires Tiles(s, start) && id < |s.requests| && s.requests[id].WindingBack?
    ensures Tiles(Step(s, WindBack(id)), start)
  {
    var t := Step(s, WindBack(id));
    forall month | start <= month < t.row.cyclesCredited ensures Covered(t.requests, month) {
      assert Covered(s.requests, month);
      var i :| 0 <= i < |s.requests| && s.requests[i].Covers(month);
      assert t.requests[i].Covers(month);
    }
  }

  lemma {:induction false} WindBackKeepsAccounts(s: State, id: nat, start: int)
    requires Tiles(s, start) && Accounts(s, start) && id < |s.requests| && s.requests[id].WindingBack?
    ensures Accounts(Step(s, WindBack(id)), start)
  {
    hide Apart, Covered;
    MonthsUpdate(s.requests, id, Step(s, WindBack(id)).requests[id]);
  }

  lemma {:induction false} FetchTiles(s: State, reported: int, start: int)
    requires Tiles(s, start) && Accounts(s, start)
    ensures Tiles(Step(s, Fetch(reported)), start) && Accounts(Step(s, Fetch(reported)), start)
  {
    var t := Step(s, Fetch(reported));
    MonthsAppend(s.requests, Fetched(s.row.cyclesCredited, reported));
    forall month | start <= month < t.row.cyclesCredited ensures Covered(t.requests, month) {
      assert Covered(s.requests, month);
      var i :| 0 <= i < |s.requests| && s.requests[i].Covers(month);
      assert t.requests[i].Covers(month);
    }
  }

  /** In every interleaving the spans in force tile the count's advance, so no paid month is
      claimed twice, and the count has advanced by exactly the months they hold. */
  lemma {:induction false} SpansTile(s: State, events: seq<Event>)
    requires Opening(s)
    ensures Tiles(Run(s, events), s.row.cyclesCredited)
    ensures Accounts(Run(s, events), s.row.cyclesCredited)
    ensures Run(s, events).perMonth == s.perMonth
  {
    if events != [] {
      var start := s.row.cyclesCredited;
      SpansTile(s, events[..|events| - 1]);
      var t := Run(s, events[..|events| - 1]);
      match events[|events| - 1]
      case Fetch(reported) => FetchTiles(t, reported, start);
      case Claim(id) => ClaimTiles(t, id, start);
      case GrantReturns(id, reply) => GrantTiles(t, id, reply, start);
      case WindBack(id) => WindBackTiles(t, id, start);
    }
  }

  // ── What the payer can rely on ─────────────────────────────────────────

  lemma {:induction false} LedgerWithinForce(requests: seq<Request>, start: int, cycles: int)
    requires Inside(requests, start, cycles)
    ensures 0 <= MonthsOnLedger(requests) <= MonthsInForce(requests)
    ensures MonthsOnLedger(requests) == MonthsInForce(requests) <==>
              forall i :: 0 <= i < |requests| && requests[i].InForce() ==> requests[i].OnLedger()
  {
    if requests != [] {
      var front := requests[..|requests| - 1];
      var last := requests[|requests| - 1];
      assert forall i :: 0 <= i < |front| ==> front[i] == requests[i];
      LedgerWithinForce(front, start, cycles);
      assert requests == front + [last];
    }
  }

  /** No month is credited twice: two requests on the ledger never share a month. */
  lemma {:induction false} NoMonthTwice(s: State, events: seq<Event>, i: nat, j: nat, month: int)
    requires Opening(s)
    requires var t := Run(s, events); i < |t.requests| && j < |t.requests|
    requires var t := Run(s, events);
             t.requests[i].OnLedger() && t.requests[i].Covers(month) && t.requests[j].OnLedger()
               && t.requests[j].Covers(month)
    ensures i == j
  {
    SpansTile(s, events);
  }

  /** Credits granted never exceed the plan's credits for the months the count advanced, and
      equal them exactly when every span in force is on the ledger. */
  lemma {:induction false} GrantedWithinTheCount(s: State, events: seq<Event>)
    requires Opening(s)
    ensures var t := Run(s, events);
            && 0 <= t.granted <= s.perMonth * (t.row.cyclesCredited - s.row.cyclesCredited)
            && (s.perMonth > 0 ==>
                  (t.granted == s.perMonth * (t.row.cyclesCredited - s.row.cyclesCredited) <==>
                     forall i :: 0 <= i < |t.requests| && t.requests[i].InForce() ==> t.requests[i].OnLedger()))
  {
    SpansTile(s, events);
    var t := Run(s, events);
    var start := s.row.cyclesCredited;
    LedgerWithinForce(t.requests, start, t.row.cyclesCredited);
    Scale(s.perMonth, MonthsOnLedger(t.requests), t.row.cyclesCredited - start);
  }

  lemma {:induction false} Scale(k: nat, a: nat, b: nat)
    requires a <= b
    ensures 0 <= k * a <= k * b
    ensures k > 0 ==> (k * a == k * b <==> a == b)
  {
    assert k * b - k * a == k * (b - a);
    if k > 0 && a < b {
      assert k * (b - a) > 0;
    }
  }

  /** The count never passes what the provider has reported. */
  lemma {:induction false} NeverAheadOfTheProvider(s: State, events: seq<Event>, most: int)
    requires Opening(s) && s.row.cyclesCredited <= most
    requires forall e <- events :: e.Fetch? ==> e.reported <= most
    ensures Run(s, events).row.cyclesCredited <= most
  {
    ReportsBounded(s, events, most);
  }

  /** No stored count and no pending report exceeds `most`. */
  ghost predicate Bounded(t: State, most: int) {
    && t.row.cyclesCredited <= most
    && forall i :: 0 <= i < |t.requests| && t.requests[i].Fetched? ==> t.requests[i].reported <= most
  }

  lemma {:induction false} StepBounded(t: State, e: Event, start: int, most: int)
    requires Bounded(t, most) && Inside(t.requests, start, t.row.cyclesCredited) && (e.Fetch? ==> e.reported <= most)
    ensures Bounded(Step(t, e), most)
  {
  }

  lemma {:induction false} ReportsBounded(s: State, events: seq<Event>, most: int)
    requires Opening(s) && s.row.cyclesCredited <= most
    requires forall e <- events :: e.Fetch? ==> e.reported <= most
    ensures Bounded(Run(s, events), most)
  {
    if events != [] {
      hide Step, Bounded, Apart, Covered, MonthsInForce, MonthsOnLedger, Inside;
      var front, last := events[..|events| - 1], events[|events| - 1];
      assert last in events;
      ReportsBounded(s, front, most);
      SpansTile(s, front);
      StepBounded(Run(s, front), last, s.row.cyclesCredited, most);
    }
  }

  /** Months of a span in force that are not on the ledger and, once its request is done, never
      will be: the wind-back came too late, or the grant raised unwritten. */
  ghost function LostMonths(r: Request): int {
    if r.Lost? || (r.Uncertain? && !r.landed) then r.span.paid - r.span.seen else 0
  }

  ghost function MonthsLost(requests: seq<Request>): int {
    if requests == [] then 0
    else MonthsLost(requests[..|requests| - 1]) + LostMonths(requests[|requests| - 1])
  }

  ghost predicate Settled(requests: seq<Request>) {
    forall i :: 0 <= i < |requests| ==> !requests[i].Holding? && !requests[i].WindingBack?
  }

  lemma {:induction false} ForceIsLedgerAndLost(requests: seq<Request>)
    requires Settled(requests)
    ensures MonthsInForce(requests) == MonthsOnLedger(requests) + MonthsLost(requests)
  {
    if requests != [] {
      var last := |requests| - 1;
      assert forall i :: 0 <= i < last ==> requests[..last][i] == requests[i];
      ForceIsLedgerAndLost(requests[..last]);
    }
  }

  /** Once no request is mid-way, the credits granted fall short of the count by exactly the
      plan's credits for the months of the spans whose wind-back came too late or whose raised
      grant was never written. */
  lemma {:induction false} ShortfallIsTheLostMonths(s: State, events: seq<Event>)
    requires Opening(s) && Settled(Run(s, events).requests)
    ensures var t := Run(s, events);
            t.granted == s.perMonth * (t.row.cyclesCredited - s.row.cyclesCredited - MonthsLost(t.requests))
  {
    SpansTile(s, events);
    ForceIsLedgerAndLost(Run(s, events).requests);
  }

  /** So something is missing if and only if there is such a span. */
  lemma {:induction false} ShortfallIsLostOrUnwritten(s: State, events: seq<Event>)
    requires Opening(s) && s.perMonth > 0 && Settled(Run(s, events).requests)
    ensures var t := Run(s, events);
            t.granted < s.perMonth * (t.row.cyclesCredited - s.row.cyclesCredited) <==>
              exists i :: 0 <= i < |t.requests|
                          && (t.requests[i].Lost? || (t.requests[i].Uncertain? && !t.requests[i].landed))
  {
    GrantedWithinTheCount(s, events);
  }

  /** Under overlap a paid month can be lost: the second reconcile claims past the first, whose
      grant then does not happen and whose wind-back yields. The count says three months are
      paid out; one was granted. */
  lemma {:induction false} OverlapCanLoseMonths(row: Subscription, perMonth: nat)
    requires row.cyclesCredited == 0
    ensures var t := Run(State(row, perMonth, [], 0),
                         [Fetch(2), Claim(0), Fetch(3), Claim(1), GrantReturns(0, NotApplied),
                          GrantReturns(1, Applied), WindBack(0)]);
            t.row.cyclesCredited == 3 && t.granted == perMonth && t.requests == [Lost(Span(0, 2)), Credited(Span(2, 3))]
  {
    var s := State(row, perMonth, [], 0);
    var es := [Fetch(2), Claim(0), Fetch(3), Claim(1), GrantReturns(0, NotApplied), GrantReturns(1, Applied),
               WindBack(0)];
    hide Run, Step;
    BothClaim(s);
    assert es[..4] == [Fetch(2), Claim(0), Fetch(3), Claim(1)] && es[..7] == es;
    RunPrefix(s, es, 4);
    RunPrefix(s, es, 5);
    RunPrefix(s, es, 6);
    OneGrantedOneWoundBack(Run(s, es[..4]));
  }

  lemma {:induction false} OneGrantedOneWoundBack(s: State)
    requires s.row.cyclesCredited == 3 && s.requests == [Holding(Span(0, 2)), Holding(Span(2, 3))]
    ensures Step(Step(Step(s, GrantReturns(0, NotApplied)), GrantReturns(1, Applied)), WindBack(0))
            == s.(requests := [Lost(Span(0, 2)), Credited(Span(2, 3))], granted := s.granted + s.perMonth)
  {
    assert Step(Step(s, GrantReturns(0, NotApplied)), GrantReturns(1, Applied))
           == s.(requests := [WindingBack(Span(0, 2)), Credited(Span(2, 3))], granted := s.granted + s.perMonth);
  }

  lemma {:induction false} BothClaim(s: State)
    requires Opening(s) && s.row.cyclesCredited == 0
    ensures Run(s, [Fetch(2), Claim(0), Fetch(3), Claim(1)])
            == s.(row := s.row.(cyclesCredited := 3), requests := [Holding(Span(0, 2)), Holding(Span(2, 3))])
  {
    var es := [Fetch(2), Claim(0), Fetch(3), Claim(1)];
    RunPrefix(s, es, 0); RunPrefix(s, es, 1); RunPrefix(s, es, 2); RunPrefix(s, es, 3);
    assert Run(s, es[..2]) == s.(row := s.row.(cyclesCredited := 2), requests := [Holding(Span(0, 2))]);
    assert es[..4] == es;
  }

  lemma {:induction false} RunPrefix(s: State, es: seq<Event>, k: nat)
    requires k < |es|
    ensures Run(s, es[..k + 1]) == Step(Run(s, es[..k]), es[k])
  {
    assert es[..k + 1][..k] == es[..k];
  }

  // ── What "every paid month has been credited" is worth ─────────────────

  /** The next step of this request answers "up to date". */
  ghost predicate ToldNext(s: State, id: nat) {
    id < |s.requests| && s.requests[id].Fetched? && Step(s, Claim(id)).requests[id] == Answered(AlreadyCredited)
  }

  /** It is answered exactly when the provider reports no more than the count this request read,
      or the count has moved since. */
  lemma {:induction false} ToldExactly(s: State, id: nat)
    requires id < |s.requests| && s.requests[id].Fetched?
    ensures ToldNext(s, id) <==>
              s.requests[id].reported <= s.requests[id].seen || s.row.cyclesCredited != s.requests[id].seen
  {
  }

  /** The month is on the ledger. */
  ghost predicate OnLedger(requests: seq<Request>, month: int) {
    exists i :: 0 <= i < |requests| && requests[i].OnLedger() && requests[i].Covers(month)
  }

  /** Every month the provider reported paid, from the start on, is on the ledger. */
  ghost predicate UpToDate(requests: seq<Request>, start: int, reported: int) {
    forall month :: start <= month < reported ==> OnLedger(requests, month)
  }

  lemma {:induction false} UpToDateExactly(s: State, start: int, reported: int)
    requires Tiles(s, start)
    ensures UpToDate(s.requests, start, reported) <==>
              && reported <= s.row.cyclesCredited
              && forall i :: 0 <= i < |s.requests| && s.requests[i].InForce() && s.requests[i].span.seen < reported ==>
                   s.requests[i].OnLedger()
  {
    var rs, count := s.requests, s.row.cyclesCredited;
    assert !OnLedger(rs, count);
    if UpToDate(rs, start, reported) {
      forall i | 0 <= i < |rs| && rs[i].InForce() && rs[i].span.seen < reported ensures rs[i].OnLedger() {
        assert OnLedger(rs, rs[i].span.seen);
        var j :| 0 <= j < |rs| && rs[j].OnLedger() && rs[j].Covers(rs[i].span.seen);
        assert i == j;
      }
    }
    if reported <= count
       && forall i :: 0 <= i < |rs| && rs[i].InForce() && rs[i].span.seen < reported ==> rs[i].OnLedger() {
      forall month | start <= month < reported ensures OnLedger(rs, month) {
        assert Covered(rs, month);
        var i :| 0 <= i < |rs| && rs[i].Covers(month);
        assert rs[i].OnLedger();
      }
    }
  }

  /** Told "every paid month has been credited", a subscriber is told the truth exactly when the
      count has reached what the provider reported and every span claimed below that is on the
      ledger: none still to be granted, none about to be wound back, none lost or unwritten. */
  lemma {:induction false} ToldUpToDateExactly(s: State, events: seq<Event>, id: nat)
    requires Opening(s) && ToldNext(Run(s, events), id)
    ensures var t := Step(Run(s, events), Claim(id));
            var reported := Run(s, events).requests[id].reported;
            UpToDate(t.requests, s.row.cyclesCredited, reported) <==>
              && reported <= t.row.cyclesCredited
              && forall i :: 0 <= i < |t.requests| && t.requests[i].InForce() && t.requests[i].span.seen < reported ==>
                   t.requests[i].OnLedger()
  {
    hide Tiles, UpToDate;
    SpansTile(s, events);
    ClaimTiles(Run(s, events), id, s.row.cyclesCredited);
    UpToDateExactly(Step(Run(s, events), Claim(id)), s.row.cyclesCredited, Run(s, events).requests[id].reported);
  }

  /** A month whose span was wound back too late, or raised unwritten, is never credited,
      whatever reconciles follow. */
  lemma {:induction false} LostForGood(s: State, events: seq<Event>, more: seq<Event>, i: nat, month: int)
    requires Opening(s) && i < |Run(s, events).requests| && Run(s, events).requests[i].Covers(month)
    requires var r := Run(s, events).requests[i]; r.Lost? || r == Uncertain(r.span, false)
    ensures !OnLedger(Run(s, events + more).requests, month)
  {
    var r, t := Run(s, events).requests[i], Run(s, events + more);
    RunOn(s, events, more);
    LostStays(Run(s, events), more, i);
    SpansTile(s, events + more);
    assert t.requests[i] == r;
  }

  lemma {:induction false} RunOn(s: State, events: seq<Event>, more: seq<Event>)
    ensures Run(s, events + more) == Run(Run(s, events), more)
  {
    hide Step;
    if more == [] {
      assert events + more == events;
    } else {
      assert (events + more)[..|events + more| - 1] == events + more[..|more| - 1];
      RunOn(s, events, more[..|more| - 1]);
    }
  }

  lemma {:induction false} LostStays(s: State, events: seq<Event>, i: nat)
    requires i < |s.requests| && (s.requests[i].Lost? || s.requests[i].Uncertain?)
    ensures i < |Run(s, events).requests| && Run(s, events).requests[i] == s.requests[i]
  {
    if events != [] {
      LostStays(s, events[..|events| - 1], i);
    }
  }

  /** After the overlap that loses months, the next reconcile is told that all is credited. */
  lemma {:induction false} LostMonthsAreToldCredited(row: Subscription, perMonth: nat)
    requires row.cyclesCredited == 0
    ensures var t := Run(State(row, perMonth, [], 0),
                         [Fetch(2), Claim(0), Fetch(3), Claim(1), GrantReturns(0, NotApplied),
                          GrantReturns(1, Applied), WindBack(0)]);
            var u := Step(t, Fetch(3));
            ToldNext(u, 2) && !OnLedger(Step(u, Claim(2)).requests, 0) && !OnLedger(Step(u, Claim(2)).requests, 1)
  {
    OverlapCanLoseMonths(row, perMonth);
  }

  // ── The one-request method is one schedule of this machine ─────────────

  function ReplyOf(world: World): Reply {
    if !world.readable then NotApplied
    else if world.fault == Writes then Applied
    else Raised(world.fault == RaisesWritten)
  }

  /** Running one more reconcile straight through, from any state, moves the count and the
      credits exactly as the method `VerifySubscriptionCycles` promises. */
  lemma {:induction false} AloneIsOneSchedule(s: State, bank: Bank, user: string, paidCount: int, world: World)
    requires PlanCredits(s.row.planKey) == Some(s.perMonth)
    ensures var id := |s.requests|;
            var t := Step(Step(Step(Step(s, Fetch(paidCount)), Claim(id)), GrantReturns(id, ReplyOf(world))),
                          WindBack(id));
            var (row, bank', answer) := CyclesAlone(s.row, bank, user, paidCount, world);
            && t.row == row
            && t.granted - s.granted == BalanceOf(bank', user) - BalanceOf(bank, user)
            && (t.requests[id].Credited? <==> answer.outcome == GrantedOutcome)
            && (t.requests[id].Answered? ==> t.requests[id].outcome == answer.outcome)
            && (t.requests[id].Uncertain? ==> answer.outcome == GrantFailed)
            && (t.requests[id].Credited? || t.requests[id].Answered? || t.requests[id].Uncertain?)
  {
  }
}
