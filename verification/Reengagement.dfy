/**
 The lapsed-user sequence: a decaying cadence that ends for good.

 The cadence is a table that a later deploy may replace, so every pass over a row carries
 the table in force at that moment.
 */
module Reengagement {
  import opened Basics
  import opened MailProtocol
  import opened Strings

  /** Instants and intervals, in seconds; day 0 begins at 0. */
  type Instant = int

  function DayOf(now: Instant): Day {
    now / 86400
  }

  datatype Phase = Phase(interval: int, sends: nat)

  type Cadence = seq<Phase>

  datatype State = Active | Returned | Finished

  datatype Sequence = Sequence(
    user: string, sendsMade: nat, state: State, nextDueAt: Option<Instant>, lastSentAt: Option<Instant>,
    closedAt: Option<Instant>)

  const LAPSE_AFTER: int := 7 * 86400

  /** Sends in the first `k` phases. */
  function Before(cadence: Cadence, k: nat): nat
    requires k <= |cadence|
  {
    if k == 0 then 0 else Before(cadence, k - 1) + cadence[k - 1].sends
  }

  function Total(cadence: Cadence): nat {
    Before(cadence, |cadence|)
  }

  lemma {:induction false} BeforeMonotone(cadence: Cadence, j: nat, k: nat)
    requires j <= k <= |cadence|
    ensures Before(cadence, j) <= Before(cadence, k)
  {
    if j < k {
      BeforeMonotone(cadence, j, k - 1);
    }
  }

  /** The phase whose range of sends holds the next one, or none when every range is behind. */
  function PhaseAt(cadence: Cadence, n: nat): Option<Phase> {
    PhaseFrom(cadence, 0, n)
  }

  function PhaseFrom(cadence: Cadence, k: nat, n: nat): Option<Phase>
    requires k <= |cadence|
    decreases |cadence| - k
  {
    if k == |cadence| then None
    else if Before(cadence, k) <= n < Before(cadence, k + 1) then Some(cadence[k])
    else PhaseFrom(cadence, k + 1, n)
  }

  /** The loop that lowers `remaining`: it returns the phase whose cumulative range holds `n`,
      and nothing exactly from the total on. */
  method PhaseFor(cadence: Cadence, n: nat) returns (r: Option<Phase>)
    ensures r.None? <==> n >= Total(cadence)
    ensures forall k :: 0 <= k < |cadence| && Before(cadence, k) <= n < Before(cadence, k + 1) ==> r == Some(cadence[k])
    ensures r == PhaseAt(cadence, n)
  {
    var remaining: int := n;
    for k := 0 to |cadence|
      invariant remaining == n - Before(cadence, k) >= 0
      invariant PhaseFrom(cadence, k, n) == PhaseAt(cadence, n)
    {
      if remaining < cadence[k].sends {
        forall j | 0 <= j < |cadence| && Before(cadence, j) <= n < Before(cadence, j + 1) ensures j == k {
          if j < k {
            BeforeMonotone(cadence, j + 1, k);
          } else if k < j {
            BeforeMonotone(cadence, k + 1, j);
          }
        }
        BeforeMonotone(cadence, k + 1, |cadence|);
        return Some(cadence[k]);
      }
      remaining := remaining - cadence[k].sends;
    }
    forall j | 0 <= j <= |cadence| ensures Before(cadence, j) <= n {
      BeforeMonotone(cadence, j, |cadence|);
    }
    return None;
  }

  lemma {:induction false} PhaseEnds(cadence: Cadence, k: nat, n: nat)
    requires k <= |cadence| && Before(cadence, k) <= n
    ensures PhaseFrom(cadence, k, n).None? <==> n >= Total(cadence)
    decreases |cadence| - k
  {
    if k < |cadence| {
      if n < Before(cadence, k + 1) {
        BeforeMonotone(cadence, k + 1, |cadence|);
      } else {
        PhaseEnds(cadence, k + 1, n);
      }
    }
  }

  // ── The transitions ────────────────────────────────────────────────────

  /** The row for a newly lapsed user: due at once. */
  function Start(user: string, now: Instant): Sequence {
    Sequence(user, 0, Active, Some(now), None, None)
  }

  function HasLapsed(lastSignIn: Option<Instant>, now: Instant): bool {
    lastSignIn.Some? && now - lastSignIn.value >= LAPSE_AFTER
  }

  predicate IsDue(q: Sequence, now: Instant) {
    q.state == Active && q.nextDueAt.Some? && now >= q.nextDueAt.value
  }

  function RecordSend(q: Sequence, cadence: Cadence, now: Instant): Sequence {
    var sends := q.sendsMade + 1;
    match PhaseAt(cadence, sends)
    case None =>
      q.(sendsMade := sends, lastSentAt := Some(now), nextDueAt := None, state := Finished, closedAt := Some(now))
    case Some(next) =>
      q.(sendsMade := sends, lastSentAt := Some(now), nextDueAt := Some(now + next.interval), state := Active)
  }

  function CloseOnReturn(q: Sequence, now: Instant): Sequence {
    q.(state := Returned, closedAt := Some(now))
  }

  /** What one cron pass meets for one row: what other senders have claimed since the last look,
      the clock, the last sign-in it could read, the address to write to ("" for none), the recipient's and the
      deploy's say, how the claim's insert and the mailer go, whether the row's update is stored,
      and the table in force. */
  datatype Pass = Pass(
    others: set<Claim>, now: Instant, lastSignIn: Option<Instant>, recipient: string,
    linkable: bool, prefs: Preferences, audience: Option<Audience>, dryRun: bool,
    insertion: Insertion, delivers: bool, stored: bool, cadence: Cadence)

  const DAILY_SLOT: string := "daily_slot"

  /** The digest a pass asks `send` for: it claims the day's one slot, under the week's key. */
  function Digest(q: Sequence, p: Pass): Request {
    Request(true, q.user, p.recipient, MarketDigest, WeeklyKey(DayOf(p.now)), p.prefs, p.dryRun,
            DAILY_SLOT, p.linkable, p.audience)
  }

  /** The row and the mail tables after one pass, and whether the digest was sent. */
  function Tick(q: Sequence, post: Post, p: Pass): (Sequence, Post, bool) {
    var post := post.(claims := post.claims + p.others);
    if q.state != Active then (q, post, false)
    else if !HasLapsed(p.lastSignIn, p.now) then (if p.stored then CloseOnReturn(q, p.now) else q, post, false)
    else if !IsDue(q, p.now) || p.recipient == "" then (q, post, false)
    else
      var (after, status) := SendAlone(post, Digest(q, p), p.insertion, p.delivers);
      (if status == Sent && p.stored then RecordSend(q, p.cadence, p.now) else q, after, status == Sent)
  }

  /** A pass over the rows, one after another. */
  ghost function TickAll(rows: seq<Sequence>, post: Post, passes: seq<Pass>): (seq<Sequence>, Post, nat)
    requires |rows| == |passes|
  {
    if rows == [] then ([], post, 0)
    else
      var last := |rows| - 1;
      var (before, post', mails) := TickAll(rows[..last], post, passes[..last]);
      var (row, post'', sent) := Tick(rows[last], post', passes[last]);
      (before + [row], post'', mails + if sent then 1 else 0)
  }

  lemma {:induction false} TickAllLength(rows: seq<Sequence>, post: Post, passes: seq<Pass>)
    requires |rows| == |passes|
    ensures |TickAll(rows, post, passes).0| == |rows|
  {
    if rows != [] {
      TickAllLength(rows[..|rows| - 1], post, passes[..|rows| - 1]);
    }
  }

  /** The loop over the rows, each going through the one `send`. */
  method RunPass(rows: array<Sequence>, log: SendLog, mailer: Mailer, passes: seq<Pass>) returns (mails: nat)
    requires |passes| == rows.Length
    modifies rows, log, mailer
    ensures (rows[..], Post(log.rows, log.claims, mailer.outbox), mails)
            == TickAll(old(rows[..]), old(Post(log.rows, log.claims, mailer.outbox)), passes)
  {
    mails := 0;
    ghost var before, post := rows[..], Post(log.rows, log.claims, mailer.outbox);
    for i := 0 to rows.Length
      invariant rows[i..] == before[i..]
      invariant (rows[..i], Post(log.rows, log.claims, mailer.outbox), mails) == TickAll(before[..i], post, passes[..i])
    {
      hide TickAll, Tick, SendAlone, RecordSend, CloseOnReturn, IsDue, HasLapsed, Digest;
      ghost var done, rest := rows[..i], rows[i..];
      TickNext(before, post, passes, i);
      assert rows[i] == rest[0] == before[i];
      var row, sent := RunRow(rows[i], log, mailer, passes[i]);
      rows[i] := row;
      mails := mails + if sent then 1 else 0;
      assert rows[..i + 1] == done + [row];
      assert rows[i + 1..] == rest[1..] == before[i + 1..];
    }
    assert before[..|before|] == before && passes[..|passes|] == passes && rows[..rows.Length] == rows[..];
  }

  lemma {:induction false} TickNext(rows: seq<Sequence>, post: Post, passes: seq<Pass>, i: nat)
    requires |rows| == |passes| && i < |rows|
    ensures var (before, post', mails) := TickAll(rows[..i], post, passes[..i]);
            var (row, post'', sent) := Tick(rows[i], post', passes[i]);
            TickAll(rows[..i + 1], post, passes[..i + 1]) == (before + [row], post'', mails + if sent then 1 else 0)
  {
    assert rows[..i + 1][..i] == rows[..i] && passes[..i + 1][..i] == passes[..i];
  }

  /** One row's turn in the loop. */
  method RunRow(q: Sequence, log: SendLog, mailer: Mailer, p: Pass) returns (row: Sequence, sent: bool)
    modifies log, mailer
    ensures (row, Post(log.rows, log.claims, mailer.outbox), sent)
            == Tick(q, old(Post(log.rows, log.claims, mailer.outbox)), p)
  {
    row, sent := q, false;
    log.OthersClaim(p.others);
    if q.state != Active {
      return;
    }
    if !HasLapsed(p.lastSignIn, p.now) {
      if p.stored {
        row := CloseOnReturn(q, p.now);
      }
      return;
    }
    if !IsDue(q, p.now) {
      return;
    }
    if p.recipient == "" {
      return;
    }
    var status := Send(log, mailer, Digest(q, p), p.insertion, p.delivers);
    sent := status == Sent;
    if sent && p.stored {
      row := RecordSend(q, p.cadence, p.now);
    }
  }

  /** What a pass may do to the row itself. */
  lemma {:induction false} TickRow(q: Sequence, post: Post, p: Pass)
    ensures var (next, _, sent) := Tick(q, post, p);
            if sent then IsDue(q, p.now) && next == (if p.stored then RecordSend(q, p.cadence, p.now) else q)
            else next == q || (q.state == Active && next == CloseOnReturn(q, p.now))
  {
    hide SendAlone, HasLapsed, Digest, RecordSend;
  }

  // ── Whole lives of one row ─────────────────────────────────────────────

  /** One digest that went out: when, as which number of the row's count, under which table, and
      whether its own update was stored. */
  datatype Sending = Sending(at: Instant, count: nat, cadence: Cadence, stored: bool)

  /** A row's life: where it and the mail tables stand, and every digest sent. */
  datatype Life = Life(row: Sequence, post: Post, mails: seq<Sending>)

  ghost function Live(row: Sequence, post: Post, passes: seq<Pass>): Life {
    if passes == [] then Life(row, post, [])
    else
      var life, p := Live(row, post, passes[..|passes| - 1]), passes[|passes| - 1];
      var (next, post', sent) := Tick(life.row, life.post, p);
      var mail := Sending(p.now, life.row.sendsMade + 1, p.cadence, p.stored);
      Life(next, post', if sent then life.mails + [mail] else life.mails)
  }

  ghost function Unrecorded(mails: seq<Sending>): nat {
    if mails == [] then 0 else Unrecorded(mails[..|mails| - 1]) + if mails[|mails| - 1].stored then 0 else 1
  }

  /** Finished or returned is for good: no table, clock or sign-in reopens the row or mails it. */
  lemma {:induction false} ClosedForGood(row: Sequence, post: Post, passes: seq<Pass>)
    requires row.state != Active
    ensures Live(row, post, passes).row == row && Live(row, post, passes).mails == []
  {
    if passes != [] {
      ClosedForGood(row, post, passes[..|passes| - 1]);
    }
  }

  /** Every digest sent is counted on the row or its update was lost. */
  lemma {:induction false} EveryMailIsCounted(user: string, now: Instant, post: Post, passes: seq<Pass>)
    ensures var life := Live(Start(user, now), post, passes);
            |life.mails| == life.row.sendsMade + Unrecorded(life.mails)
  {
    hide Tick, IsDue, PhaseAt;
    if passes != [] {
      EveryMailIsCounted(user, now, post, passes[..|passes| - 1]);
      var life, p := Live(Start(user, now), post, passes[..|passes| - 1]), passes[|passes| - 1];
      TickRow(life.row, life.post, p);
      var mail := Sending(p.now, life.row.sendsMade + 1, p.cadence, p.stored);
      assert (life.mails + [mail])[..|life.mails|] == life.mails;
    }
  }

  function AtLeastOne(n: nat): nat {
    if n == 0 then 1 else n
  }

  /** Under one table a run records at most its total number of sends (one, if the table is
      empty), and is finished exactly when it has recorded that many. */
  lemma {:induction false} SendsAreBounded(user: string, now: Instant, post: Post, passes: seq<Pass>, cadence: Cadence)
    requires forall p <- passes :: p.cadence == cadence
    ensures var life := Live(Start(user, now), post, passes);
            && |life.mails| <= AtLeastOne(Total(cadence)) + Unrecorded(life.mails)
            && life.row.sendsMade <= AtLeastOne(Total(cadence))
            && (life.row.state == Finished <==> life.row.sendsMade == AtLeastOne(Total(cadence)))
  {
    hide Tick, Unrecorded;
    EveryMailIsCounted(user, now, post, passes);
    if passes != [] {
      var front, p := passes[..|passes| - 1], passes[|passes| - 1];
      assert p in passes;
      SendsAreBounded(user, now, post, front, cadence);
      var life := Live(Start(user, now), post, front);
      TickRow(life.row, life.post, p);
      PhaseEnds(cadence, 0, life.row.sendsMade + 1);
    }
  }

  /** A pass with nothing in its way. */
  function SmoothPass(now: Instant, stored: bool, cadence: Cadence): Pass {
    Pass({}, now, Some(now - LAPSE_AFTER), "a@b.c", true, Preferences(true, true, false),
         Some(Audience(true, {})),
         false, Works, true, stored, cadence)
  }

  lemma {:induction false} SmoothSends(q: Sequence, post: Post, now: Instant, stored: bool, cadence: Cadence)
    ensures var p := SmoothPass(now, stored, cadence);
            Tick(q, post, p).2 <==> IsDue(q, now) && ClaimOf(Digest(q, p)) !in post.claims
  {
    hide IsDue, PhaseAt, WeeklyKey, DayOf;
    SendsExactly(q, post, SmoothPass(now, stored, cadence));
    assert post.claims + {} == post.claims;
  }

  /** A digest goes out exactly when the row is due, its user has lapsed and has an address, every
      gate lets it through, the week's slot is free and its claim answered so, and the mailer
      delivers. */
  lemma {:induction false} SendsExactly(q: Sequence, post: Post, p: Pass)
    ensures Tick(q, post, p).2 <==>
              && IsDue(q, p.now) && HasLapsed(p.lastSignIn, p.now) && p.recipient != ""
              && Gate(Digest(q, p)) == None && ClaimOf(Digest(q, p)) !in post.claims + p.others
              && p.insertion == Works && p.delivers
  {
    hide Gate, ClaimOf, Digest, HasLapsed, RecordSend;
    GateNeverSends(Digest(q, p));
  }

  /** The same over the row, the pass and the claims alone, and the mail that goes out. */
  lemma {:induction false} SendsToTheWilling(q: Sequence, post: Post, p: Pass)
    ensures var (_, post', sent) := Tick(q, post, p);
            && (sent <==>
                  && q.state == Active && q.nextDueAt.Some? && p.now >= q.nextDueAt.value
                  && p.lastSignIn.Some? && p.now - p.lastSignIn.value >= 604800
                  && |p.recipient| > 0 && p.linkable && p.prefs.weeklyReview && !p.prefs.unsubscribedAll
                  && p.audience.Some?
                  && (p.audience.value.everyone || Lower(Strip(p.recipient)) in p.audience.value.allowed)
                  && !p.dryRun && p.insertion == Works && p.delivers
                  && (q.user, "daily_slot", WeeklyKey(p.now / 86400)) !in post.claims + p.others)
            && (sent ==> exists mail :: post'.outbox == post.outbox + [mail] &&
                           mail.delivered && mail.request.user == q.user && mail.request.recipient == p.recipient
                           && mail.request.emailType == MarketDigest)
  {
    hide Lower, Strip, WeeklyKey;
    SendsExactly(q, post, p);
    var mail := Mail(Digest(q, p), true);
  }

  /** What a pass leaves of a row. After a stored send it is one send on; open until the phase of
      that number has passed, or finished with the last; a user who is back closes it at once. */
  lemma {:induction false} TickLeavesExactly(q: Sequence, post: Post, p: Pass)
    ensures var (next, _, sent) := Tick(q, post, p);
            && next.user == q.user
            && (sent && p.stored ==>
                  && next.sendsMade == q.sendsMade + 1 && next.lastSentAt == Some(p.now)
                  && (next.sendsMade >= Total(p.cadence) ==>
                        next.state == Finished && next.nextDueAt == None && next.closedAt == Some(p.now))
                  && (next.sendsMade < Total(p.cadence) ==>
                        && next.state == Active && next.closedAt == q.closedAt
                        && exists k :: 0 <= k < |p.cadence|
                                       && Before(p.cadence, k) <= next.sendsMade < Before(p.cadence, k + 1)
                                       && next.nextDueAt == Some(p.now + p.cadence[k].interval)))
            && (!(sent && p.stored) ==>
                  next == if q.state == Active && p.stored
                             && (p.lastSignIn.None? || p.now - p.lastSignIn.value < 604800)
                          then q.(state := Returned, closedAt := Some(p.now)) else q)
  {
    hide SendAlone, Digest, PhaseFrom, WeeklyKey;
    PhaseEnds(p.cadence, 0, q.sendsMade + 1);
    if q.sendsMade + 1 < Total(p.cadence) {
      var k := PhaseHolds(p.cadence, 0, q.sendsMade + 1);
    }
  }

  lemma {:induction false} PhaseHolds(cadence: Cadence, from: nat, n: nat) returns (k: nat)
    requires from <= |cadence| && Before(cadence, from) <= n < Total(cadence)
    ensures k < |cadence| && Before(cadence, k) <= n < Before(cadence, k + 1)
    ensures PhaseFrom(cadence, from, n) == Some(cadence[k])
    decreases |cadence| - from
  {
    if n < Before(cadence, from + 1) {
      k := from;
    } else {
      k := PhaseHolds(cadence, from + 1, n);
    }
  }

  lemma {:induction false} GateNeverSends(r: Request)
    ensures Gate(r) != Some(Sent)
  {
  }

  /** The total is a bound on the sends of every run exactly when it is not zero: with an empty
      table the first pass still sends once. */
  lemma {:induction false} TotalBoundsSendsUnlessEmpty(user: string, cadence: Cadence, now: Instant)
    ensures (forall passes: seq<Pass> :: (forall p <- passes :: p.cadence == cadence && p.stored) ==>
               |Live(Start(user, now), UNUSED, passes).mails| <= Total(cadence))
            <==> Total(cadence) >= 1
  {
    if Total(cadence) >= 1 {
      forall passes: seq<Pass> | (forall p <- passes :: p.cadence == cadence && p.stored)
        ensures |Live(Start(user, now), UNUSED, passes).mails| <= Total(cadence)
      {
        SendsAreBounded(user, now, UNUSED, passes, cadence);
        NothingUnrecorded(Start(user, now), UNUSED, passes);
      }
    } else {
      var p := SmoothPass(now, true, cadence);
      OnePass(Start(user, now), UNUSED, p);
      SmoothSends(Start(user, now), UNUSED, now, true, cadence);
      assert |Live(Start(user, now), UNUSED, [p]).mails| == 1;
    }
  }

  /** Mail tables nobody has written to. */
  const UNUSED: Post := Post([], {}, [])

  lemma {:induction false} OnePass(row: Sequence, post: Post, p: Pass)
    ensures var (next, post', sent) := Tick(row, post, p);
            Live(row, post, [p])
              == Life(next, post', if sent then [Sending(p.now, row.sendsMade + 1, p.cadence, p.stored)] else [])
  {
    hide Tick;
    assert [p][..0] == [];
    assert Live(row, post, []) == Life(row, post, []);
  }

  lemma {:induction false} NothingUnrecorded(row: Sequence, post: Post, passes: seq<Pass>)
    requires forall p <- passes :: p.stored
    ensures Unrecorded(Live(row, post, passes).mails) == 0
  {
    hide Tick;
    if passes != [] {
      var front, p := passes[..|passes| - 1], passes[|passes| - 1];
      assert p in passes;
      NothingUnrecorded(row, post, front);
      var before, after := Live(row, post, front).mails, Live(row, post, passes).mails;
      assert after == before || after[..|after| - 1] == before;
    }
  }

  // ── The distance between two digests ───────────────────────────────────

  /** The latest digest whose own update was stored. */
  ghost function LastStored(mails: seq<Sending>): Option<Sending> {
    if mails == [] then None
    else if mails[|mails| - 1].stored then Some(mails[|mails| - 1])
    else LastStored(mails[..|mails| - 1])
  }

  /** The earliest instant the next digest may go out after `m`, in the table `m` was recorded under. */
  ghost predicate KeepsDistance(m: Sending, at: Instant) {
    var phase := PhaseAt(m.cadence, m.count);
    phase.Some? && at >= m.at + phase.value.interval
  }

  /** Every digest keeps the distance that the latest one before it with a stored update asked for. */
  ghost predicate Spaced(mails: seq<Sending>) {
    mails == [] ||
    var front, last := mails[..|mails| - 1], mails[|mails| - 1];
    Spaced(front) && (LastStored(front).Some? ==> KeepsDistance(LastStored(front).value, last.at))
  }

  /** An open row is due one interval after the latest digest whose update was stored. */
  ghost predicate DueAfterLast(life: Life) {
    var last := LastStored(life.mails);
    && (last.Some? ==> life.row.sendsMade == last.value.count)
    && (life.row.state == Active && last.Some? ==>
          var phase := PhaseAt(last.value.cadence, last.value.count);
          phase.Some? && life.row.nextDueAt == Some(last.value.at + phase.value.interval))
  }

  /** Whatever tables come and go, and whatever updates are lost, the digests keep their distance. */
  lemma {:induction false} SendsAreSpaced(user: string, now: Instant, post: Post, passes: seq<Pass>)
    ensures Spaced(Live(Start(user, now), post, passes).mails) && DueAfterLast(Live(Start(user, now), post, passes))
  {
    hide Tick, PhaseAt;
    if passes != [] {
      var front, p := passes[..|passes| - 1], passes[|passes| - 1];
      SendsAreSpaced(user, now, post, front);
      var life := Live(Start(user, now), post, front);
      TickRow(life.row, life.post, p);
      var mail := Sending(p.now, life.row.sendsMade + 1, p.cadence, p.stored);
      assert (life.mails + [mail])[..|life.mails|] == life.mails;
    }
  }

  /** In particular, from one digest to the next: at least the interval of its phase, unless the
      first one's own update was lost. */
  lemma {:induction false} NextSendKeepsDistance(mails: seq<Sending>, k: nat)
    requires Spaced(mails) && k + 1 < |mails| && mails[k].stored
    ensures KeepsDistance(mails[k], mails[k + 1].at)
  {
    hide KeepsDistance;
    if k + 2 < |mails| {
      NextSendKeepsDistance(mails[..|mails| - 1], k);
    } else {
      var front := mails[..|mails| - 1];
      assert front[|front| - 1] == mails[k];
    }
  }

  /** The week whose slot a digest took. */
  ghost function WeekOf(m: Sending): Day {
    WeeklyKey(DayOf(m.at))
  }

  /** Every digest's claim is on record, and no two have the same. */
  ghost predicate WeeksApart(user: string, life: Life) {
    && (forall i :: 0 <= i < |life.mails| ==> (user, DAILY_SLOT, WeekOf(life.mails[i])) in life.post.claims)
    && (forall i, j :: 0 <= i < j < |life.mails| ==> WeekOf(life.mails[i]) != WeekOf(life.mails[j]))
  }

  lemma {:induction false} TickClaims(q: Sequence, post: Post, p: Pass)
    ensures var (next, post', sent) := Tick(q, post, p);
            && next.user == q.user && post.claims <= post'.claims
            && (sent ==> (q.user, DAILY_SLOT, WeeklyKey(DayOf(p.now))) in post'.claims
                         && (q.user, DAILY_SLOT, WeeklyKey(DayOf(p.now))) !in post.claims)
  {
    hide HasLapsed, IsDue, RecordSend, Gate, Logged, WeeklyKey;
    GateNeverSends(Digest(q, p));
    TickLeavesExactly(q, post, p);
    assert ClaimOf(Digest(q, p)) == (q.user, DAILY_SLOT, WeeklyKey(DayOf(p.now)));
  }

  /** Even when updates are lost, two digests of one row never fall in one Sunday-to-Saturday week. */
  lemma {:induction false} SendsAreWeeksApart(row: Sequence, post: Post, passes: seq<Pass>)
    ensures Live(row, post, passes).row.user == row.user && WeeksApart(row.user, Live(row, post, passes))
  {
    hide Tick, DayOf, WeeklyKey;
    if passes != [] {
      var front, p := passes[..|passes| - 1], passes[|passes| - 1];
      SendsAreWeeksApart(row, post, front);
      var life := Live(row, post, front);
      TickClaims(life.row, life.post, p);
    }
  }

  lemma {:induction false} NeverTwiceAWeek(row: Sequence, post: Post, passes: seq<Pass>, i: nat, j: nat, sunday: Day)
    requires var mails := Live(row, post, passes).mails;
             i < j < |mails| && InWeek(sunday, DayOf(mails[i].at))
    ensures !InWeek(sunday, DayOf(Live(row, post, passes).mails[j].at))
  {
    hide Live, InWeek, DayOf;
    SendsAreWeeksApart(row, post, passes);
    var mails := Live(row, post, passes).mails;
    WeeklyKeyIsTheWeek(DayOf(mails[i].at), DayOf(mails[j].at));
  }

  /** A digest whose update was lost leaves the row as it was, so a later pass sends it again
      exactly when nobody and nothing else stops it and its own week's slot is free; and then it
      lies in another week, because the lost one's slot is taken. */
  lemma {:induction false} LostUpdateRepeatsExactly(q: Sequence, post: Post, p: Pass, later: Pass)
    requires Tick(q, post, p).2 && !p.stored && later.now >= p.now
    ensures var (q', post', _) := Tick(q, post, p);
            var again := Tick(q', post', later).2;
            && q' == q
            && (again <==>
                  && HasLapsed(later.lastSignIn, later.now) && later.recipient != "" && Gate(Digest(q, later)) == None
                  && (q.user, DAILY_SLOT, WeeklyKey(DayOf(later.now))) !in post'.claims + later.others
                  && later.insertion == Works && later.delivers)
            && (again ==> WeeklyKey(DayOf(later.now)) != WeeklyKey(DayOf(p.now)))
  {
    hide Tick, HasLapsed, WeeklyKey, DayOf, Gate;
    TickClaims(q, post, p);
    LostUpdateLeavesTheRow(q, post, p);
    SendsExactly(q, Tick(q, post, p).1, later);
    assert ClaimOf(Digest(q, later)) == (q.user, DAILY_SLOT, WeeklyKey(DayOf(later.now)));
  }

  lemma {:induction false} LostUpdateLeavesTheRow(q: Sequence, post: Post, p: Pass)
    requires Tick(q, post, p).2 && !p.stored
    ensures Tick(q, post, p).0 == q && IsDue(q, p.now)
  {
    hide SendAlone;
  }

  lemma {:induction false} TwoPasses(q: Sequence, p: Pass, later: Pass)
    requires IsDue(q, p.now) && !p.stored && later.stored && later.now >= p.now
    requires p == SmoothPass(p.now, false, p.cadence) && later == SmoothPass(later.now, true, later.cadence)
    requires WeeklyKey(DayOf(later.now)) != WeeklyKey(DayOf(p.now))
    ensures Live(q, UNUSED, [p, later]).mails
            == [Sending(p.now, q.sendsMade + 1, p.cadence, false),
                Sending(later.now, q.sendsMade + 1, later.cadence, true)]
  {
    hide WeeklyKey, DayOf, PhaseAt;
    assert [p, later][..1] == [p];
    OnePass(q, UNUSED, p);
    SmoothSends(q, UNUSED, p.now, false, p.cadence);
    LostUpdateLeavesTheRow(q, UNUSED, p);
    ClaimsOfOne(q, p);
    SmoothSends(q, Tick(q, UNUSED, p).1, later.now, true, later.cadence);
  }

  lemma {:induction false} ClaimsOfOne(q: Sequence, p: Pass)
    requires Tick(q, UNUSED, p).2 && p.others == {}
    ensures Tick(q, UNUSED, p).1.claims == {ClaimOf(Digest(q, p))}
  {
    hide Gate, Logged, ClaimOf, Digest, HasLapsed, IsDue, RecordSend;
    GateNeverSends(Digest(q, p));
  }

  /** The cadence in the code. */
  const CADENCE: Cadence := [Phase(7 * 86400, 3), Phase(14 * 86400, 3), Phase(30 * 86400, 2)]

  lemma {:induction false} WeeklyPhase(n: nat)
    ensures PhaseAt(CADENCE, n).Some? && PhaseAt(CADENCE, n).value.interval <= 7 * 86400 <==> n < 3
  {
    assert Before(CADENCE, 1) == 3 && Before(CADENCE, 2) == 6 && Before(CADENCE, 3) == 8;
    assert PhaseFrom(CADENCE, 3, n) == None;
    assert PhaseFrom(CADENCE, 2, n) == if 6 <= n < 8 then Some(CADENCE[2]) else None;
    assert PhaseFrom(CADENCE, 1, n) == if 3 <= n < 6 then Some(CADENCE[1]) else PhaseFrom(CADENCE, 2, n);
  }

  /** The repeat the weekly cron produces: the update of a digest is lost, and a week later, at the
      same hour of the same weekday, it goes out again. That is too early exactly when the table
      asks for more than a week after it, or for no further digest at all; with the cadence in the
      code, from the third digest on. */
  lemma {:induction false} NextWeeksCronRepeats(q: Sequence, now: Instant, cadence: Cadence)
    requires IsDue(q, now)
    ensures var passes := [SmoothPass(now, false, cadence), SmoothPass(now + 7 * 86400, true, cadence)];
            var mails := Live(q, UNUSED, passes).mails;
            var phase := PhaseAt(cadence, q.sendsMade + 1);
            && |mails| == 2 && mails[0].count == mails[1].count == q.sendsMade + 1
            && mails[1].at == mails[0].at + 7 * 86400
            && (!KeepsDistance(mails[0], mails[1].at) <==> phase.None? || phase.value.interval > 7 * 86400)
            && (cadence == CADENCE ==> (!KeepsDistance(mails[0], mails[1].at) <==> q.sendsMade + 1 >= 3))
  {
    hide PhaseAt;
    WeekLater(now);
    WeeklyPhase(q.sendsMade + 1);
    TwoPasses(q, SmoothPass(now, false, cadence), SmoothPass(now + 7 * 86400, true, cadence));
  }

  lemma {:induction false} WeekLater(now: Instant)
    ensures DayOf(now + 7 * 86400) == DayOf(now) + 7
    ensures WeeklyKey(DayOf(now + 7 * 86400)) == WeeklyKey(DayOf(now)) + 7
  {
  }

  /** Run by hand on a Saturday and again on the Sunday, it goes out after one day, whatever
      interval the table asks for. */
  lemma {:induction false} SaturdayRepeatsOnSunday(user: string, now: Instant, cadence: Cadence)
    requires Weekday(DayOf(now)) == 5
    ensures var passes := [SmoothPass(now, false, cadence), SmoothPass(now + 86400, true, cadence)];
            var mails := Live(Start(user, now), UNUSED, passes).mails;
            |mails| == 2 && mails[0].count == mails[1].count == 1 && mails[1].at == mails[0].at + 86400
  {
    assert DayOf(now + 86400) == DayOf(now) + 1;
    TwoPasses(Start(user, now), SmoothPass(now, false, cadence), SmoothPass(now + 86400, true, cadence));
  }

  // ── What a dry pass can change ─────────────────────────────────────────

  /** A dry pass sends nothing, and leaves claims and outbox alone; but it closes an open row whose
      user looks returned. */
  lemma {:induction false} DryPassChangesExactly(q: Sequence, post: Post, p: Pass)
    requires p.dryRun
    ensures var (next, after, sent) := Tick(q, post, p);
            && !sent && after.claims == post.claims + p.others && after.outbox == post.outbox
            && (next != q <==> q.state == Active && !HasLapsed(p.lastSignIn, p.now) && p.stored)
            && (next != q ==> next == CloseOnReturn(q, p.now))
  {
    hide HasLapsed, IsDue, AudienceAdmits;
  }

  /** A dry pass makes a difference to what some later pass sends exactly when it closes a row
      that had a due date. */
  lemma {:induction false} DryPassMattersExactly(q: Sequence, post: Post, p: Pass)
    requires p.dryRun && p.others == {}
    ensures var (next, after, _) := Tick(q, post, p);
            (exists later :: Tick(next, after, later).2 != Tick(q, post, later).2)
            <==> q.state == Active && q.nextDueAt.Some? && !HasLapsed(p.lastSignIn, p.now) && p.stored
  {
    hide Tick, Gate, HasLapsed, ClaimOf;
    var (next, after, _) := Tick(q, post, p);
    DryPassChangesExactly(q, post, p);
    assert after.claims == post.claims;
    if next == q || q.nextDueAt.None? {
      forall later ensures Tick(next, after, later).2 == Tick(q, post, later).2 {
        SendsExactly(q, post, later);
        SendsExactly(next, after, later);
      }
    } else {
      var now := FreeWeek(post.claims, q, q.nextDueAt.value);
      var later := SmoothPass(now, true, []);
      SmoothSends(q, post, now, true, []);
      SendsExactly(next, after, later);
      assert Tick(next, after, later).2 != Tick(q, post, later).2;
    }
  }

  /** Some week from any instant on has its slot free. */
  lemma {:induction false} FreeWeek(claims: set<Claim>, q: Sequence, from: Instant) returns (now: Instant)
    ensures now >= from && ClaimOf(Digest(q, SmoothPass(now, true, []))) !in claims
    decreases |claims|
  {
    now := from;
    SlotOf(q, from);
    var claim := (q.user, DAILY_SLOT, WeeklyKey(DayOf(from)));
    if claim in claims {
      now := FreeWeek(claims - {claim}, q, from + 7 * 86400);
      SlotOf(q, now);
      LaterWeek(from, now);
    }
  }

  lemma {:induction false} SlotOf(q: Sequence, now: Instant)
    ensures ClaimOf(Digest(q, SmoothPass(now, true, []))) == (q.user, DAILY_SLOT, WeeklyKey(DayOf(now)))
  {
  }

  lemma {:induction false} LaterWeek(from: Instant, now: Instant)
    requires now >= from + 7 * 86400
    ensures WeeklyKey(DayOf(now)) > WeeklyKey(DayOf(from))
  {
    WeekLater(from);
    assert DayOf(now) >= DayOf(from) + 7;
  }

  // ── Passes that overlap on one row ─────────────────────────────────────

  /** Where one pass stands with the row: it has read it, or has sent and is about to record that,
      or is about to close it. */
  datatype Stage = Looked(seen: Sequence, pass: Pass) | Mailed(seen: Sequence, pass: Pass) | Closing(pass: Pass) | Ended

  /** The stored row, the mail tables, and every pass that has read the row. */
  datatype Shared = Shared(row: Sequence, post: Post, stages: seq<Stage>)

  datatype Move = Look(pass: Pass) | Decide(id: nat) | Write(id: nat)

  /** The update by id that records a send: it sets these fields of whatever the row is by now. */
  function Overwritten(row: Sequence, recorded: Sequence): Sequence {
    row.(sendsMade := recorded.sendsMade, lastSentAt := recorded.lastSentAt, nextDueAt := recorded.nextDueAt,
         state := recorded.state, closedAt := if recorded.state == Finished then recorded.closedAt else row.closedAt)
  }

  /** One step of one pass, which decides and sends on the row as it read it. */
  function Moved(w: Shared, m: Move): Shared {
    match m
    case Look(p) => w.(stages := w.stages + [Looked(w.row, p)])
    case Decide(id) =>
      if id < |w.stages| && w.stages[id].Looked? then
        var Looked(seen, p) := w.stages[id];
        var (_, post, sent) := Tick(seen, w.post, p);
        var stage := if sent then Mailed(seen, p)
                     else if seen.state == Active && !HasLapsed(p.lastSignIn, p.now) then Closing(p)
                     else Ended;
        w.(post := post, stages := w.stages[id := stage])
      else w
    case Write(id) =>
      if id < |w.stages| && w.stages[id].Mailed? then
        var Mailed(seen, p) := w.stages[id];
        var row := if p.stored then Overwritten(w.row, RecordSend(seen, p.cadence, p.now)) else w.row;
        w.(row := row, stages := w.stages[id := Ended])
      else if id < |w.stages| && w.stages[id].Closing? then
        var p := w.stages[id].pass;
        w.(row := if p.stored then CloseOnReturn(w.row, p.now) else w.row, stages := w.stages[id := Ended])
      else w
  }

  /** A late update counts from the row as its pass read it, and leaves the closing date of a row
      closed since, unless it finishes the row itself. */
  lemma {:induction false} LateWriteLeaves(w: Shared, id: nat)
    requires id < |w.stages| && w.stages[id].Mailed?
    ensures var (seen, p, after) := (w.stages[id].seen, w.stages[id].pass, Moved(w, Write(id)).row);
            && (!p.stored ==> after == w.row)
            && (p.stored ==>
                  && after.user == w.row.user && after.sendsMade == seen.sendsMade + 1
                  && after.lastSentAt == Some(p.now)
                  && after.state == (if seen.sendsMade + 1 >= Total(p.cadence) then Finished else Active)
                  && after.closedAt == if after.state == Finished then Some(p.now) else w.row.closedAt)
  {
    hide PhaseFrom;
    PhaseEnds(w.stages[id].pass.cadence, 0, w.stages[id].seen.sendsMade + 1);
  }

  ghost function MovedAll(w: Shared, moves: seq<Move>): Shared {
    if moves == [] then w else Moved(MovedAll(w, moves[..|moves| - 1]), moves[|moves| - 1])
  }

  /** Taken alone, a pass is what `Tick` says. */
  lemma {:induction false} AloneIsOneTick(w: Shared, p: Pass)
    requires w.stages == []
    ensures var after := Moved(Moved(Moved(w, Look(p)), Decide(0)), Write(0));
            var (row, post, _) := Tick(w.row, w.post, p);
            after == Shared(row, post, [Ended])
  {
    hide SendAlone, HasLapsed, Digest, PhaseAt;
  }

  /** This pass read the row while it was open, and will write it open again. */
  ghost predicate MayReopen(post: Post, stage: Stage) {
    && (stage.Mailed? || (stage.Looked? && Tick(stage.seen, post, stage.pass).2))
    && stage.pass.stored && RecordSend(stage.seen, stage.pass.cadence, stage.pass.now).state == Active
  }

  ghost predicate ClosedForNow(w: Shared) {
    w.row.state != Active && forall i :: 0 <= i < |w.stages| ==> !MayReopen(w.post, w.stages[i])
  }

  /** A pass is no likelier to send when more has been claimed. */
  lemma {:induction false} ClaimsOnlyStop(q: Sequence, post: Post, more: Post, p: Pass)
    requires post.claims <= more.claims && Tick(q, more, p).2
    ensures Tick(q, post, p).2
  {
    hide Tick, Gate, ClaimOf, HasLapsed, IsDue;
    SendsExactly(q, post, p);
    SendsExactly(q, more, p);
  }

  lemma {:induction false} StaysClosedForNow(w: Shared, m: Move)
    requires ClosedForNow(w)
    ensures ClosedForNow(Moved(w, m))
  {
    hide Tick, RecordSend, HasLapsed;
    var after := Moved(w, m);
    match m
    case Look(p) => SendsExactly(w.row, w.post, p);
    case Decide(id) =>
      if id < |w.stages| && w.stages[id].Looked? {
        TickClaims(w.stages[id].seen, w.post, w.stages[id].pass);
        forall i | 0 <= i < |after.stages| ensures !MayReopen(after.post, after.stages[i]) {
          if i != id && MayReopen(after.post, after.stages[i]) && after.stages[i].Looked? {
            ClaimsOnlyStop(after.stages[i].seen, w.post, after.post, after.stages[i].pass);
          }
        }
      }
    case Write(id) =>
  }

  lemma {:induction false} ClosedWhileClosedForNow(w: Shared, moves: seq<Move>)
    requires ClosedForNow(w)
    ensures ClosedForNow(MovedAll(w, moves))
  {
    if moves != [] {
      hide Moved, ClosedForNow;
      ClosedWhileClosedForNow(w, moves[..|moves| - 1]);
      StaysClosedForNow(MovedAll(w, moves[..|moves| - 1]), moves[|moves| - 1]);
    }
  }

  /** With passes overlapping at will, a closed row can be opened again exactly when some pass that
      read it open has sent, or still would send, and will store an update that leaves it open. */
  lemma {:induction false} ReopenedExactly(w: Shared)
    requires w.row.state != Active
    ensures (exists moves :: MovedAll(w, moves).row.state == Active)
            <==> exists i :: 0 <= i < |w.stages| && MayReopen(w.post, w.stages[i])
  {
    if i :| 0 <= i < |w.stages| && MayReopen(w.post, w.stages[i]) {
      var moves := WayToReopen(w, i);
    } else {
      forall moves ensures MovedAll(w, moves).row.state != Active {
        ClosedWhileClosedForNow(w, moves);
      }
    }
  }

  lemma {:induction false} WayToReopen(w: Shared, i: nat) returns (moves: seq<Move>)
    requires i < |w.stages| && MayReopen(w.post, w.stages[i])
    ensures MovedAll(w, moves).row.state == Active
  {
    hide Tick, RecordSend, HasLapsed;
    if w.stages[i].Mailed? {
      moves := [Write(i)];
      assert moves[..0] == [];
      assert MovedAll(w, moves) == Moved(MovedAll(w, []), Write(i));
    } else {
      moves := [Decide(i), Write(i)];
      assert moves[..1][..0] == [];
      assert MovedAll(w, moves[..1]) == Moved(MovedAll(w, []), Decide(i));
      assert MovedAll(w, moves) == Moved(MovedAll(w, moves[..1]), Write(i));
    }
  }

  /** So with no pass under way a closed row is closed for good, whatever passes follow. */
  lemma {:induction false} ClosedForGoodUnderOverlap(w: Shared, moves: seq<Move>)
    requires w.row.state != Active && forall i :: 0 <= i < |w.stages| ==> w.stages[i].Ended?
    ensures var after := MovedAll(w, moves);
            && after.row == w.row && after.post.outbox == w.post.outbox
            && forall i :: 0 <= i < |after.stages| ==>
                 after.stages[i].Ended? || after.stages[i] == Looked(w.row, after.stages[i].pass)
  {
    if moves != [] {
      ClosedForGoodUnderOverlap(w, moves[..|moves| - 1]);
    }
  }

  /** A slow pass: it reads the row open, another pass closes it because its user came back, and the
      first one sends all the same and writes the row open. */
  lemma {:induction false} SlowPassReopens(user: string, now: Instant, cadence: Cadence, other: Pass)
    requires PhaseAt(cadence, 1).Some? && other.stored && other.others == {} && !HasLapsed(other.lastSignIn, other.now)
    ensures var w := Shared(Start(user, now), UNUSED, []);
            var closed := Moved(Moved(Moved(Moved(w, Look(SmoothPass(now, true, cadence))), Look(other)), Decide(1)),
                                Write(1));
            var after := Moved(Moved(closed, Decide(0)), Write(0));
            closed.row.state == Returned && after.row.state == Active && |after.post.outbox| == 1
  {
    hide PhaseAt, HasLapsed, Digest;
    var p := SmoothPass(now, true, cadence);
    var q := Start(user, now);
    assert UNUSED.claims + {} == {};
    assert Tick(q, UNUSED, other) == (CloseOnReturn(q, other.now), UNUSED, false);
    SmoothSends(q, UNUSED, now, true, cadence);
    SentOnce(q, UNUSED, p);
  }

  lemma {:induction false} SentOnce(q: Sequence, post: Post, p: Pass)
    requires Tick(q, post, p).2
    ensures |Tick(q, post, p).1.outbox| == |post.outbox| + 1
  {
    hide Gate, Logged, ClaimOf, Digest, HasLapsed, IsDue, RecordSend;
    GateNeverSends(Digest(q, p));
  }
}
