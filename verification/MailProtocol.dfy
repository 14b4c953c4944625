/**
 The one path from a built email to a sent one: gates, then a unique claim, then the mailer.

 `SendAlone` is one send by itself. The second half interleaves any number of sends, cut at
 the claim and the mailer call, with a mailer that fails at will.
 */
module MailProtocol {
  import opened Basics
  import opened Strings

  datatype EmailType = Welcome | DailyBrief | WeeklyReview | MarketDigest | Event | ReceiptMail {
    predicate IsMarketing() {
      DailyBrief? || WeeklyReview? || MarketDigest? || Event?
    }

    function Name(): string {
      match this
      case Welcome => "welcome"
      case DailyBrief => "daily_brief"
      case WeeklyReview => "weekly_review"
      case MarketDigest => "market_digest"
      case Event => "event"
      case ReceiptMail => "receipt"
    }
  }

  datatype Status = Sent | Failed | Skipped | Duplicate | Unsubscribed | DryRun | NoUnsubscribeLink | NotInAudience

  datatype Preferences = Preferences(dailyBrief: bool, weeklyReview: bool, unsubscribedAll: bool) {
    predicate Allows(t: EmailType) {
      if !t.IsMarketing() then true
      else if unsubscribedAll then false
      else if t == DailyBrief || t == Event then dailyBrief
      else weeklyReview
    }
  }

  datatype Audience = Audience(everyone: bool, allowed: set<string>) {
    predicate Admits(recipient: string) {
      everyone || Lower(Strip(recipient)) in allowed
    }
  }

  /** A day, as its ordinal: day 1 is a Monday. */
  type Day = int

  /** One call of `send`. `built` says whether there was anything to say, `linkable` whether an
      unsubscribe link could be made. */
  datatype Request = Request(
    built: bool, user: string, recipient: string, emailType: EmailType, period: Day, prefs: Preferences,
    dryRun: bool, claimAs: string, linkable: bool, audience: Option<Audience>)

  /** The unique index: one row per user, namespace and period. */
  type Claim = (string, string, Day)

  function ClaimOf(r: Request): Claim {
    (r.user, if r.claimAs != "" then r.claimAs else r.emailType.Name(), r.period)
  }

  predicate AudienceAdmits(r: Request) {
    r.audience.GetOr(Audience(false, {})).Admits(r.recipient)
  }

  /** What stops a send before it claims anything, in the order the code asks; `None` goes on. */
  function Gate(r: Request): Option<Status> {
    if !r.built then Some(Skipped)
    else if r.emailType.IsMarketing() && !r.linkable then Some(NoUnsubscribeLink)
    else if !r.prefs.Allows(r.emailType) then Some(Unsubscribed)
    else if !AudienceAdmits(r) then Some(NotInAudience)
    else if r.dryRun then Some(DryRun)
    else None
  }

  /** Whether a send leaves a row in the log for the outcome. */
  function Logs(r: Request, status: Status): bool {
    status != Duplicate && !(status == Skipped && r.dryRun)
  }

  datatype LogRow = LogRow(recipient: string, emailType: EmailType, status: Status)

  datatype Mail = Mail(request: Request, delivered: bool)

  /** The log's rows, the claims taken, and every call of the mailer. */
  datatype Post = Post(log: seq<LogRow>, claims: set<Claim>, outbox: seq<Mail>)

  function Logged(log: seq<LogRow>, r: Request, status: Status): seq<LogRow> {
    if Logs(r, status) then log + [LogRow(r.recipient, r.emailType, status)] else log
  }

  /** How the claim's insert goes, apart from the unique index: it may also raise, and then the
      row may be there or not. */
  datatype Insertion = Works | RaisesUnwritten | RaisesWritten

  /** The claims after an insert, and whether it answered that the claim is won. */
  function Claimed(claims: set<Claim>, claim: Claim, insertion: Insertion): (set<Claim>, bool) {
    (if insertion == RaisesUnwritten then claims else claims + {claim}, insertion == Works && claim !in claims)
  }

  /** One send with nobody else writing; `delivers` says what the mailer does. */
  function SendAlone(post: Post, r: Request, insertion: Insertion, delivers: bool): (Post, Status) {
    if Gate(r).Some? then (post.(log := Logged(post.log, r, Gate(r).value)), Gate(r).value)
    else
      var (claims, won) := Claimed(post.claims, ClaimOf(r), insertion);
      if !won then (post.(claims := claims), Duplicate)
      else
        var status := if delivers then Sent else Failed;
        (Post(Logged(post.log, r, status), claims, post.outbox + [Mail(r, delivers)]), status)
  }

  class SendLog {
    var rows: seq<LogRow>
    var claims: set<Claim>

    method Record(recipient: string, emailType: EmailType, status: Status)
      modifies this`rows
      ensures rows == old(rows) + [LogRow(recipient, emailType, status)]
    {
      rows := rows + [LogRow(recipient, emailType, status)];
    }

    /** The insert: refused by the unique index, or raising, it answers false. A claim that was
        written before the raise stays. */
    method ClaimPeriod(claim: Claim, insertion: Insertion) returns (won: bool)
      modifies this`claims
      ensures won <==> insertion == Works && claim !in old(claims)
      ensures claims == if insertion == RaisesUnwritten then old(claims) else old(claims) + {claim}
    {
      if claim in claims || insertion == RaisesUnwritten {
        return false;
      }
      claims := claims + {claim};
      won := insertion == Works;
    }

    /** What other senders have claimed in the meantime. */
    method OthersClaim(others: set<Claim>)
      modifies this`claims
      ensures claims == old(claims) + others
    {
      claims := claims + others;
    }
  }

  class Mailer {
    var outbox: seq<Mail>

    method Send(r: Request, delivers: bool) returns (raised: bool)
      modifies this
      ensures outbox == old(outbox) + [Mail(r, delivers)]
      ensures raised <==> !delivers
    {
      outbox := outbox + [Mail(r, delivers)];
      raised := !delivers;
    }
  }

  method Send(log: SendLog, mailer: Mailer, r: Request, insertion: Insertion, delivers: bool) returns (status: Status)
    modifies log, mailer
    ensures (Post(log.rows, log.claims, mailer.outbox), status)
            == SendAlone(old(Post(log.rows, log.claims, mailer.outbox)), r, insertion, delivers)
  {
    hide AudienceAdmits, ClaimOf;
    if !r.built {
      if !r.dryRun {
        log.Record(r.recipient, r.emailType, Skipped);
      }
      return Skipped;
    }
    if r.emailType.IsMarketing() && !r.linkable {
      log.Record(r.recipient, r.emailType, NoUnsubscribeLink);
      return NoUnsubscribeLink;
    }
    if !r.prefs.Allows(r.emailType) {
      log.Record(r.recipient, r.emailType, Unsubscribed);
      return Unsubscribed;
    }
    if !AudienceAdmits(r) {
      log.Record(r.recipient, r.emailType, NotInAudience);
      return NotInAudience;
    }
    if r.dryRun {
      log.Record(r.recipient, r.emailType, DryRun);
      return DryRun;
    }
    var won := log.ClaimPeriod(ClaimOf(r), insertion);
    if !won {
      return Duplicate;
    }
    var raised := mailer.Send(r, delivers);
    if raised {
      log.Record(r.recipient, r.emailType, Failed);
      return Failed;
    }
    log.Record(r.recipient, r.emailType, Sent);
    return Sent;
  }

  /** A dry run never claims or mails; it writes to the log exactly when there was something to
      send. */
  lemma {:induction false} DryRunLeavesTheProtocolAlone(post: Post, r: Request, insertion: Insertion, delivers: bool)
    requires r.dryRun
    ensures var after := SendAlone(post, r, insertion, delivers).0;
            && after.claims == post.claims && after.outbox == post.outbox
            && (after.log == post.log <==> !r.built)
  {
    if r.built {
      var status := Gate(r).value;
      assert |Logged(post.log, r, status)| == |post.log| + 1;
    }
  }

  /** Mail a person can turn off. */
  ghost predicate Promotes(r: Request) {
    r.emailType in {DailyBrief, WeeklyReview, MarketDigest, Event}
  }

  /** The person said no: to everything, to the daily brief and events, or to the weekly mails. */
  ghost predicate SaidNo(r: Request) {
    || r.prefs.unsubscribedAll
    || (r.emailType in {DailyBrief, Event} && !r.prefs.dailyBrief)
    || (r.emailType in {WeeklyReview, MarketDigest} && !r.prefs.weeklyReview)
  }

  /** The recipient is one this deploy may write to; with no audience set, nobody is. */
  ghost predicate InAudience(r: Request) {
    r.audience.Some? && (r.audience.value.everyone || Lower(Strip(r.recipient)) in r.audience.value.allowed)
  }

  /** What `send` answers, by what was asked of it. */
  lemma {:induction false} AnswersExactly(post: Post, r: Request, insertion: Insertion, delivers: bool)
    ensures var status := SendAlone(post, r, insertion, delivers).1;
            var wanted := r.built && (Promotes(r) ==> r.linkable && !SaidNo(r));
            var goes := wanted && InAudience(r) && !r.dryRun;
            var free := insertion == Works && ClaimOf(r) !in post.claims;
            && (status == Skipped <==> !r.built)
            && (status == NoUnsubscribeLink <==> r.built && Promotes(r) && !r.linkable)
            && (status == Unsubscribed <==> r.built && Promotes(r) && r.linkable && SaidNo(r))
            && (status == NotInAudience <==> wanted && !InAudience(r))
            && (status == DryRun <==> wanted && InAudience(r) && r.dryRun)
            && (status == Duplicate <==> goes && !free)
            && (status == Sent <==> goes && free && delivers)
            && (status == Failed <==> goes && free && !delivers)
  {
  }

  /** A welcome or a receipt goes out whatever its reader has said no to, and needs no link. */
  lemma {:induction false} ReceiptsAlwaysGoOut(post: Post, r: Request, prefs: Preferences, linkable: bool)
    requires r.emailType in {Welcome, ReceiptMail} && r.built && !r.dryRun && InAudience(r)
    requires ClaimOf(r) !in post.claims
    ensures SendAlone(post, r.(prefs := prefs, linkable := linkable), Works, true).1 == Sent
  {
    AnswersExactly(post, r.(prefs := prefs, linkable := linkable), Works, true);
  }

  /** What `send` leaves: a log row of its answer unless that is a duplicate or a dry run with
      nothing to say, a claim of its own namespace unless a gate stopped it or the insert wrote
      nothing, and a mailer call exactly if it sent or failed. */
  lemma {:induction false} LeavesExactly(post: Post, r: Request, insertion: Insertion, delivers: bool)
    ensures var (after, status) := SendAlone(post, r, insertion, delivers);
            var claim := (r.user, if |r.claimAs| > 0 then r.claimAs
                                  else match r.emailType
                                    case Welcome => "welcome"
                                    case DailyBrief => "daily_brief"
                                    case WeeklyReview => "weekly_review"
                                    case MarketDigest => "market_digest"
                                    case Event => "event"
                                    case ReceiptMail => "receipt", r.period);
            && after.log == post.log + (if status == Duplicate || (status == Skipped && r.dryRun) then []
                                        else [LogRow(r.recipient, r.emailType, status)])
            && after.claims == post.claims
                 + (if status in {Sent, Failed, Duplicate} && insertion != RaisesUnwritten then {claim} else {})
            && after.outbox == post.outbox + (if status in {Sent, Failed} then [Mail(r, status == Sent)] else [])
  {
  }

  // ── Any number of sends at once ────────────────────────────────────────

  datatype Progress =
    | Claiming(request: Request)   // past the gates; the claim is still to come
    | Mailing(request: Request)    // holds the claim; the mailer call is still to come
    | Over(status: Status)

  datatype Step =
    | Begin(id: nat, request: Request)
    | TakeClaim(id: nat, insertion: Insertion)
    | CallMailer(id: nat, delivers: bool)

  /** The shared claims and outbox, and where every send stands. */
  datatype World = World(claims: set<Claim>, outbox: seq<Mail>, sends: map<nat, Progress>)

  /** One step of one send. A step its send is not ready for changes nothing. */
  function Take(w: World, s: Step): World {
    match s
    case Begin(id, r) =>
      if id in w.sends then w
      else w.(sends := w.sends[id := if Gate(r).Some? then Over(Gate(r).value) else Claiming(r)])
    case TakeClaim(id, insertion) =>
      if id in w.sends && w.sends[id].Claiming? then
        var r := w.sends[id].request;
        var (claims, won) := Claimed(w.claims, ClaimOf(r), insertion);
        w.(claims := claims, sends := w.sends[id := if won then Mailing(r) else Over(Duplicate)])
      else w
    case CallMailer(id, delivers) =>
      if id in w.sends && w.sends[id].Mailing? then
        w.(outbox := w.outbox + [Mail(w.sends[id].request, delivers)],
           sends := w.sends[id := Over(if delivers then Sent else Failed)])
      else w
  }

  /** The three steps of one send, taken in a row, are the send by itself. */
  lemma {:induction false} AloneIsThreeSteps(w: World, log: seq<LogRow>, id: nat, r: Request, insertion: Insertion,
                                             delivers: bool)
    requires id !in w.sends
    ensures var after := Take(Take(Take(w, Begin(id, r)), TakeClaim(id, insertion)), CallMailer(id, delivers));
            var (post, status) := SendAlone(Post(log, w.claims, w.outbox), r, insertion, delivers);
            after.claims == post.claims && after.outbox == post.outbox && after.sends == w.sends[id := Over(status)]
  {
    hide Gate, ClaimOf;
  }

  const QUIET := World({}, [], map[])

  ghost function Run(steps: seq<Step>): World {
    if steps == [] then QUIET else Take(Run(steps[..|steps| - 1]), steps[|steps| - 1])
  }

  ghost function MailClaim(w: World, i: nat): Claim
    requires i < |w.outbox|
  {
    ClaimOf(w.outbox[i].request)
  }

  ghost predicate Holds(w: World, id: nat, claim: Claim) {
    id in w.sends && w.sends[id].Mailing? && ClaimOf(w.sends[id].request) == claim
  }

  /** Every mail and every send about to mail has its own claim, and it is on record. */
  ghost predicate OneClaimEach(w: World) {
    && (forall i, j :: 0 <= i < j < |w.outbox| ==> MailClaim(w, i) != MailClaim(w, j))
    && (forall i :: 0 <= i < |w.outbox| ==> MailClaim(w, i) in w.claims)
    && (forall id, claim :: Holds(w, id, claim) ==> claim in w.claims)
    && (forall id, id', claim :: Holds(w, id, claim) && Holds(w, id', claim) ==> id == id')
    && (forall id, claim, i :: Holds(w, id, claim) && 0 <= i < |w.outbox| ==> MailClaim(w, i) != claim)
  }

  lemma {:induction false} TakeKeepsOneClaimEach(w: World, s: Step)
    requires OneClaimEach(w)
    ensures OneClaimEach(Take(w, s))
  {
    hide ClaimOf, Gate;
    var after := Take(w, s);
    match s
    case Begin(id, r) =>
      assert forall i, c :: Holds(after, i, c) ==> Holds(w, i, c);
      assert forall i :: 0 <= i < |w.outbox| ==> MailClaim(after, i) == MailClaim(w, i);
    case TakeClaim(id, _) =>
      assert forall i, c :: Holds(after, i, c) && i != id ==> Holds(w, i, c);
      assert forall i :: 0 <= i < |w.outbox| ==> MailClaim(after, i) == MailClaim(w, i);
    case CallMailer(id, _) =>
      assert forall i, c :: Holds(after, i, c) ==> Holds(w, i, c);
      assert forall i :: 0 <= i < |w.outbox| ==> MailClaim(after, i) == MailClaim(w, i);
      if id in w.sends && w.sends[id].Mailing? {
        assert Holds(w, id, ClaimOf(w.sends[id].request));
        assert MailClaim(after, |w.outbox|) == ClaimOf(w.sends[id].request);
      }
  }

  lemma {:induction false} RunKeepsOneClaimEach(steps: seq<Step>)
    ensures OneClaimEach(Run(steps))
  {
    if steps != [] {
      RunKeepsOneClaimEach(steps[..|steps| - 1]);
      TakeKeepsOneClaimEach(Run(steps[..|steps| - 1]), steps[|steps| - 1]);
    }
  }

  /** In every interleaving, with mailers failing at will, the mailer is called at most once per
      user, namespace and period. */
  lemma {:induction false} MailedAtMostOnce(steps: seq<Step>, i: nat, j: nat)
    requires i < |Run(steps).outbox| && j < |Run(steps).outbox|
    requires ClaimOf(Run(steps).outbox[i].request) == ClaimOf(Run(steps).outbox[j].request)
    ensures i == j
  {
    RunKeepsOneClaimEach(steps);
    var w := Run(steps);
    assert MailClaim(w, i) == MailClaim(w, j);
  }

  /** Everything past the gates was let through by all of them. */
  ghost predicate AllPermitted(w: World) {
    && (forall i :: 0 <= i < |w.outbox| ==> Gate(w.outbox[i].request) == None)
    && (forall id :: id in w.sends && !w.sends[id].Over? ==> Gate(w.sends[id].request) == None)
  }

  lemma {:induction false} TakeKeepsPermitted(w: World, s: Step)
    requires AllPermitted(w)
    ensures AllPermitted(Take(w, s))
  {
    hide Gate, ClaimOf;
  }

  lemma {:induction false} RunKeepsPermitted(steps: seq<Step>)
    ensures AllPermitted(Run(steps))
  {
    hide Gate, ClaimOf, Take;
    if steps != [] {
      RunKeepsPermitted(steps[..|steps| - 1]);
      TakeKeepsPermitted(Run(steps[..|steps| - 1]), steps[|steps| - 1]);
    }
  }

  /** Nobody is mailed past a no: every mailer call was for something built, was allowed by the
      recipient's preferences and the deploy's audience, was not a dry run, and, if it was
      marketing, carried an unsubscribe link. */
  lemma {:induction false} OnlyPermittedMail(steps: seq<Step>, i: nat)
    requires i < |Run(steps).outbox|
    ensures var r := Run(steps).outbox[i].request;
            && r.built && !r.dryRun && AudienceAdmits(r)
            && (r.emailType.IsMarketing() ==>
                  r.linkable && !r.prefs.unsubscribedAll
                  && (if r.emailType == DailyBrief || r.emailType == Event then r.prefs.dailyBrief
                      else r.prefs.weeklyReview))
  {
    RunKeepsPermitted(steps);
  }

  /** The step begins a dry run. */
  predicate Rehearses(s: Step) {
    s.Begin? && s.request.dryRun
  }

  function WithoutRehearsals(steps: seq<Step>): seq<Step> {
    if steps == [] then []
    else
      var last := steps[|steps| - 1];
      WithoutRehearsals(steps[..|steps| - 1]) + if Rehearses(last) then [] else [last]
  }

  /** Every call of `send` has its own identity. */
  ghost predicate OwnIds(steps: seq<Step>) {
    forall i, j :: 0 <= i < j < |steps| && steps[i].Begin? && steps[j].Begin? ==> steps[i].id != steps[j].id
  }

  ghost predicate Begun(steps: seq<Step>, id: nat) {
    exists i :: 0 <= i < |steps| && steps[i].Begin? && steps[i].id == id
  }

  /** The two worlds agree on everything but the rehearsals, which are over in one of them and
      never began in the other. */
  ghost predicate SameButRehearsals(steps: seq<Step>, w: World, v: World) {
    && w.claims == v.claims && w.outbox == v.outbox
    && (forall id :: id in v.sends ==> id in w.sends && w.sends[id] == v.sends[id])
    && (forall id :: id in w.sends && id !in v.sends ==> w.sends[id].Over?)
    && (forall id :: id in w.sends ==> Begun(steps, id))
  }

  lemma {:induction false} RehearsalsChangeNothing(steps: seq<Step>)
    requires OwnIds(steps)
    ensures SameButRehearsals(steps, Run(steps), Run(WithoutRehearsals(steps)))
  {
    hide Take, SameButRehearsals, Rehearses;
    if steps == [] {
      NothingYet();
    } else {
      var front, last := steps[..|steps| - 1], steps[|steps| - 1];
      assert steps == front + [last];
      assert OwnIds(front);
      RehearsalsChangeNothing(front);
      var kept := WithoutRehearsals(front);
      assert (kept + [last])[..|kept|] == kept && kept + [] == kept;
      RehearsalStep(front, last, Run(front), Run(kept));
    }
  }

  /** Deleting every dry run from a history changes neither the outbox nor the claims. */
  lemma {:induction false} DryRunsLeaveOutboxAndClaims(steps: seq<Step>)
    requires OwnIds(steps)
    ensures Run(WithoutRehearsals(steps)).outbox == Run(steps).outbox
    ensures Run(WithoutRehearsals(steps)).claims == Run(steps).claims
  {
    RehearsalsChangeNothing(steps);
  }

  lemma {:induction false} NothingYet()
    ensures SameButRehearsals([], QUIET, QUIET)
  {
  }

  lemma {:induction false} RehearsalStep(front: seq<Step>, last: Step, w: World, v: World)
    requires OwnIds(front + [last]) && SameButRehearsals(front, w, v)
    ensures SameButRehearsals(front + [last], Take(w, last), if Rehearses(last) then v else Take(v, last))
  {
    hide ClaimOf, Begun;
    BegunGrows(front, last);
    if last.Begin? {
      RehearsalIsOver(last.request);
    }
  }

  lemma {:induction false} RehearsalIsOver(r: Request)
    ensures r.dryRun ==> Gate(r).Some?
  {
  }

  lemma {:induction false} BegunGrows(front: seq<Step>, last: Step)
    requires OwnIds(front + [last])
    ensures forall id :: Begun(front, id) ==> Begun(front + [last], id)
    ensures last.Begin? ==> Begun(front + [last], last.id) && !Begun(front, last.id)
  {
    var steps := front + [last];
    assert steps[|front|] == last;
    forall i | 0 <= i < |front| ensures steps[i] == front[i] {
    }
    forall id | Begun(front, id) ensures Begun(steps, id) {
      var i :| 0 <= i < |front| && front[i].Begin? && front[i].id == id;
      assert steps[i].Begin? && steps[i].id == id;
    }
  }

  // ── Period keys ────────────────────────────────────────────────────────

  /** `date.weekday()`: Monday is 0. */
  function Weekday(d: Day): nat {
    (d + 6) % 7
  }

  /** The most recent Sunday on or before the day. */
  function WeeklyKey(d: Day): Day {
    d - (Weekday(d) + 1) % 7
  }

  /** `d` lies in the week that begins on `sunday`. */
  ghost predicate InWeek(sunday: Day, d: Day) {
    Weekday(sunday) == 6 && sunday <= d < sunday + 7
  }

  /** Two days share a weekly key exactly when they lie in one Sunday-to-Saturday week. */
  lemma {:induction false} WeeklyKeyIsTheWeek(d: Day, e: Day)
    ensures InWeek(WeeklyKey(d), d)
    ensures WeeklyKey(d) == WeeklyKey(e) <==> exists sunday :: InWeek(sunday, d) && InWeek(sunday, e)
  {
    hide InWeek, WeeklyKey;
    WeeklyKeyIsSunday(d);
    WeeklyKeyIsSunday(e);
    forall sunday | InWeek(sunday, d) && InWeek(sunday, e) ensures WeeklyKey(d) == WeeklyKey(e) {
      SundayIsUnique(sunday, d);
      SundayIsUnique(sunday, e);
    }
  }

  lemma {:induction false} WeeklyKeyIsSunday(d: Day)
    ensures InWeek(WeeklyKey(d), d)
  {
    assert (Weekday(d) + 1) % 7 == d % 7;
    assert d == 7 * (d / 7) + d % 7;
  }

  lemma {:induction false} SundayIsUnique(sunday: Day, d: Day)
    requires InWeek(sunday, d)
    ensures WeeklyKey(d) == sunday
  {
    assert sunday % 7 == 0;
    assert d % 7 == d - sunday;
  }

  /** Retrying a weekly send within its Sunday-to-Saturday week adds no mail: two mails of one
      user and namespace under weekly keys belong to different weeks. */
  lemma {:induction false} OneWeeklyMailAWeek(steps: seq<Step>, i: nat, j: nat, d: Day, e: Day)
    requires i < |Run(steps).outbox| && j < |Run(steps).outbox| && i != j
    requires var a, b := Run(steps).outbox[i].request, Run(steps).outbox[j].request;
             && ClaimOf(a).0 == ClaimOf(b).0 && ClaimOf(a).1 == ClaimOf(b).1
             && a.period == WeeklyKey(d) && b.period == WeeklyKey(e)
    ensures !exists sunday :: InWeek(sunday, d) && InWeek(sunday, e)
  {
    if WeeklyKey(d) == WeeklyKey(e) {
      MailedAtMostOnce(steps, i, j);
    }
    WeeklyKeyIsTheWeek(d, e);
  }
}
