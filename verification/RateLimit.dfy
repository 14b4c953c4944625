/**
 The token-bucket limiter, over exact real time.

 A bucket is an object the limiter updates in place; its behaviour is tied to a value
 (`Tank`), and the meaning of a refusal is proved about that value: the limiter enforces
 a sliding-window bound over every earlier call.
 */
module RateLimit {
  import opened Basics
  import opened Strings

  // ── One bucket, as a value ─────────────────────────────────────────────

  datatype Tank = Tank(capacity: int, rate: real, tokens: real, updatedAt: real)

  function Min(a: real, b: real): real {
    if a <= b then a else b
  }

  function Refilled(t: Tank, now: real): Tank {
    var elapsed := if now - t.updatedAt > 0.0 then now - t.updatedAt else 0.0;
    t.(tokens := Min(t.capacity as real, t.tokens + elapsed * t.rate), updatedAt := now)
  }

  function Taken(t: Tank, now: real): (Tank, bool) {
    var r := Refilled(t, now);
    if r.tokens >= 1.0 then (r.(tokens := r.tokens - 1.0), true) else (r, false)
  }

  /** Whole seconds until a token, advised to someone refused. */
  function Advice(t: Tank, now: real): int
    requires t.rate > 0.0
  {
    var r := Refilled(t, now);
    if r.tokens >= 1.0 then 0
    else
      var wait := ((1.0 - r.tokens) / r.rate + 0.999).Floor;
      if wait > 1 then wait else 1
  }

  /** A bucket that can hold a token, never overfull and never in debt. */
  ghost predicate Sound(t: Tank) {
    t.capacity >= 1 && t.rate > 0.0 && 0.0 <= t.tokens <= t.capacity as real
  }

  class Bucket {
    const capacity: int
    const rate: real
    var tokens: real
    var updatedAt: real

    constructor (capacity: int, rate: real, tokens: real, now: real)
      ensures View() == Tank(capacity, rate, if tokens == 0.0 then capacity as real else tokens, now)
      ensures this.capacity == capacity && this.rate == rate
    {
      this.capacity, this.rate := capacity, rate;
      this.tokens := if tokens == 0.0 then capacity as real else tokens;
      updatedAt := now;
    }

    ghost function View(): Tank
      reads this
    {
      Tank(capacity, rate, tokens, updatedAt)
    }

    method Refill(now: real)
      modifies this
      ensures View() == Refilled(old(View()), now)
    {
      var elapsed := if now - updatedAt > 0.0 then now - updatedAt else 0.0;
      tokens := Min(capacity as real, tokens + elapsed * rate);
      updatedAt := now;
    }

    method Take(now: real) returns (ok: bool)
      modifies this
      ensures (View(), ok) == Taken(old(View()), now)
    {
      Refill(now);
      if tokens >= 1.0 {
        tokens := tokens - 1.0;
        return true;
      }
      return false;
    }

    method RetryAfterSeconds(now: real) returns (seconds: int)
      requires rate > 0.0
      modifies this
      ensures View() == Refilled(old(View()), now)
      ensures seconds == Advice(old(View()), now)
    {
      Refill(now);
      if tokens >= 1.0 {
        return 0;
      }
      var wait := ((1.0 - tokens) / rate + 0.999).Floor;
      seconds := if wait > 1 then wait else 1;
    }
  }

  // ── What a refusal means ───────────────────────────────────────────────

  /** One use of a bucket: a take, or the look at the clock that words the advice. */
  datatype Use = Use(at: real, take: bool)

  function Used(t: Tank, use: Use): Tank {
    if use.take then Taken(t, use.at).0 else Refilled(t, use.at)
  }

  /** The bucket after the first `n` uses. */
  ghost function After(t: Tank, uses: seq<Use>, n: nat): Tank
    requires n <= |uses|
  {
    if n == 0 then t else Used(After(t, uses, n - 1), uses[n - 1])
  }

  ghost predicate Admitted(t: Tank, uses: seq<Use>, n: nat)
    requires n < |uses|
  {
    uses[n].take && Taken(After(t, uses, n), uses[n].at).1
  }

  /** How many of the uses `from`, ..., `upTo - 1` were admitted. */
  ghost function Admissions(t: Tank, uses: seq<Use>, from: nat, upTo: nat): nat
    requires from <= upTo <= |uses|
    decreases upTo - from
  {
    if from == upTo then 0
    else Admissions(t, uses, from, upTo - 1) + if Admitted(t, uses, upTo - 1) then 1 else 0
  }

  ghost predicate Monotone(start: real, uses: seq<Use>) {
    && (forall i :: 0 <= i < |uses| ==> start <= uses[i].at)
    && (forall i, j :: 0 <= i < j < |uses| ==> uses[i].at <= uses[j].at)
  }

  // The proof runs in earned tokens: an instant is what has flowed in by then, so the levels
  // obey a linear recurrence.

  ghost function Inflow(rate: real, uses: seq<Use>): (flow: seq<real>)
    ensures |flow| == |uses| && forall i :: 0 <= i < |uses| ==> flow[i] == rate * uses[i].at
  {
    seq(|uses|, i requires 0 <= i < |uses| => rate * uses[i].at)
  }

  /** The level at use `n`, before it takes anything. */
  ghost function Level(full: real, flow: seq<real>, uses: seq<Use>, n: nat): real
    requires n < |uses| == |flow|
  {
    if n == 0 then full
    else
      var before := Level(full, flow, uses, n - 1);
      Min(full, before - (if uses[n - 1].take && before >= 1.0 then 1.0 else 0.0) + (flow[n] - flow[n - 1]))
  }

  ghost function Drawn(full: real, flow: seq<real>, uses: seq<Use>, from: nat, upTo: nat): nat
    requires from <= upTo <= |uses| == |flow|
    decreases upTo - from
  {
    if from == upTo then 0
    else
      Drawn(full, flow, uses, from, upTo - 1)
      + if uses[upTo - 1].take && Level(full, flow, uses, upTo - 1) >= 1.0 then 1 else 0
  }

  /** The level never exceeds what any window leaves... */
  lemma {:induction false} LevelWithinWindow(full: real, flow: seq<real>, uses: seq<Use>, from: nat, n: nat)
    requires from <= n < |uses| == |flow|
    ensures Level(full, flow, uses, n) <= full + (flow[n] - flow[from]) - Drawn(full, flow, uses, from, n) as real
    decreases n - from
  {
    if from < n {
      LevelWithinWindow(full, flow, uses, from, n - 1);
    }
  }

  /** ...and is what one window leaves: the one from when the bucket was last full. */
  lemma {:induction false} LevelIsSomeWindow(full: real, flow: seq<real>, uses: seq<Use>, n: nat) returns (from: nat)
    requires n < |uses| == |flow|
    ensures from <= n
    ensures Level(full, flow, uses, n) == full + (flow[n] - flow[from]) - Drawn(full, flow, uses, from, n) as real
  {
    if n == 0 || Level(full, flow, uses, n) == full {
      from := n;
    } else {
      from := LevelIsSomeWindow(full, flow, uses, n - 1);
    }
  }

  lemma {:induction false} RefillSound(t: Tank, now: real)
    requires Sound(t)
    ensures Sound(Refilled(t, now)) && (t.updatedAt == now ==> Refilled(t, now) == t)
  {
    var elapsed := if now - t.updatedAt > 0.0 then now - t.updatedAt else 0.0;
    assert elapsed * t.rate >= 0.0;
  }

  lemma {:induction false} UseSound(t: Tank, use: Use)
    requires Sound(t)
    ensures Sound(Used(t, use)) && Used(t, use).updatedAt == use.at
    ensures Used(t, use).capacity == t.capacity && Used(t, use).rate == t.rate
  {
    RefillSound(t, use.at);
  }

  /** A use, then a wait: the level is what the use left plus the inflow, capped. */
  lemma {:induction false} UseThenRefill(a: Tank, use: Use, later: real, level: real, flow0: real, flow1: real)
    requires Sound(a) && a.updatedAt <= use.at <= later
    requires level == Refilled(a, use.at).tokens && flow0 == a.rate * use.at && flow1 == a.rate * later
    ensures Refilled(Used(a, use), later).tokens
            == Min(a.capacity as real, level - (if use.take && level >= 1.0 then 1.0 else 0.0) + (flow1 - flow0))
  {
    assert a.rate * (later - use.at) == a.rate * later - a.rate * use.at;
  }

  lemma {:induction false} StaysSound(t: Tank, uses: seq<Use>, n: nat)
    requires Sound(t) && n <= |uses| && Monotone(t.updatedAt, uses)
    ensures var a := After(t, uses, n);
            && Sound(a) && a.capacity == t.capacity && a.rate == t.rate
            && a.updatedAt == if n == 0 then t.updatedAt else uses[n - 1].at
  {
    if n > 0 {
      StaysSound(t, uses, n - 1);
      UseSound(After(t, uses, n - 1), uses[n - 1]);
    }
  }

  /** A fresh bucket's levels are the recurrence's. */
  lemma {:induction false} BucketFollowsRecurrence(t: Tank, uses: seq<Use>, flow: seq<real>, n: nat)
    requires Sound(t) && t.tokens == t.capacity as real && n < |uses| && Monotone(t.updatedAt, uses)
    requires flow == Inflow(t.rate, uses)
    ensures Refilled(After(t, uses, n), uses[n].at).tokens == Level(t.capacity as real, flow, uses, n)
  {
    hide Refilled, Used, Sound, Min, After, Level, Inflow;
    if n == 0 {
      Start(t, uses, flow);
    } else {
      BucketFollowsRecurrence(t, uses, flow, n - 1);
      StaysSound(t, uses, n - 1);
      OneUse(t, uses, flow, n);
      UseThenRefill(After(t, uses, n - 1), uses[n - 1], uses[n].at,
                    Level(t.capacity as real, flow, uses, n - 1), flow[n - 1], flow[n]);
    }
  }

  lemma {:induction false} Start(t: Tank, uses: seq<Use>, flow: seq<real>)
    requires Sound(t) && t.tokens == t.capacity as real && |uses| == |flow| > 0 && t.updatedAt <= uses[0].at
    ensures Refilled(After(t, uses, 0), uses[0].at).tokens == Level(t.capacity as real, flow, uses, 0)
  {
    Sign(uses[0].at - t.updatedAt, t.rate);
  }

  lemma {:induction false} OneUse(t: Tank, uses: seq<Use>, flow: seq<real>, n: nat)
    requires 0 < n < |uses| == |flow|
    ensures After(t, uses, n) == Used(After(t, uses, n - 1), uses[n - 1])
    ensures var full := t.capacity as real;
            var before := Level(full, flow, uses, n - 1);
            Level(full, flow, uses, n)
            == Min(full, before - (if uses[n - 1].take && before >= 1.0 then 1.0 else 0.0) + (flow[n] - flow[n - 1]))
  {
    hide Used, Min;
  }

  lemma {:induction false} AdmissionsFollowRecurrence(t: Tank, uses: seq<Use>, from: nat, upTo: nat)
    requires Sound(t) && t.tokens == t.capacity as real && Monotone(t.updatedAt, uses) && from <= upTo <= |uses|
    ensures Admissions(t, uses, from, upTo) == Drawn(t.capacity as real, Inflow(t.rate, uses), uses, from, upTo)
    decreases upTo - from
  {
    if from < upTo {
      AdmissionsFollowRecurrence(t, uses, from, upTo - 1);
      BucketFollowsRecurrence(t, uses, Inflow(t.rate, uses), upTo - 1);
    }
  }

  /** Admitting use `n` would push the admissions since use `from` above capacity + rate * elapsed. */
  ghost predicate Overruns(t: Tank, uses: seq<Use>, from: nat, n: nat)
    requires from <= n < |uses|
  {
    Admissions(t, uses, from, n) as real + 1.0 > t.capacity as real + t.rate * (uses[n].at - uses[from].at)
  }

  lemma {:induction false} OverrunInTokens(t: Tank, uses: seq<Use>, from: nat, n: nat)
    requires Sound(t) && t.tokens == t.capacity as real && Monotone(t.updatedAt, uses) && from <= n < |uses|
    ensures var full, flow := t.capacity as real, Inflow(t.rate, uses);
            Overruns(t, uses, from, n) <==>
              full + (flow[n] - flow[from]) - Drawn(full, flow, uses, from, n) as real < 1.0
  {
    hide Admissions, Drawn;
    AdmissionsFollowRecurrence(t, uses, from, n);
    assert t.rate * (uses[n].at - uses[from].at) == t.rate * uses[n].at - t.rate * uses[from].at;
  }

  lemma {:induction false} DrawnFromNext(full: real, flow: seq<real>, uses: seq<Use>, from: nat, n: nat)
    requires from < n <= |uses| == |flow| && !uses[from].take
    ensures Drawn(full, flow, uses, from, n) == Drawn(full, flow, uses, from + 1, n)
    decreases n - from
  {
    if from + 1 < n {
      DrawnFromNext(full, flow, uses, from, n - 1);
    }
  }

  /** A window that starts at a mere look is no tighter than one that starts at the next take. */
  lemma {:induction false} NextTake(full: real, flow: seq<real>, uses: seq<Use>, from: nat, n: nat) returns (take: nat)
    requires from <= n < |uses| == |flow| && uses[n].take
    requires forall i, j :: 0 <= i <= j < |flow| ==> flow[i] <= flow[j]
    ensures from <= take <= n && uses[take].take
    ensures full + (flow[n] - flow[take]) - Drawn(full, flow, uses, take, n) as real
            <= full + (flow[n] - flow[from]) - Drawn(full, flow, uses, from, n) as real
    decreases n - from
  {
    take := from;
    if !uses[from].take {
      DrawnFromNext(full, flow, uses, from, n);
      take := NextTake(full, flow, uses, from + 1, n);
    }
  }

  lemma {:induction false} InflowGrows(t: Tank, uses: seq<Use>)
    requires Sound(t) && Monotone(t.updatedAt, uses)
    ensures var flow := Inflow(t.rate, uses); forall i, j :: 0 <= i <= j < |flow| ==> flow[i] <= flow[j]
  {
    forall i, j | 0 <= i <= j < |uses| ensures t.rate * uses[i].at <= t.rate * uses[j].at {
      Sign(uses[j].at - uses[i].at, t.rate);
    }
  }

  /** For every non-decreasing sequence of uses of a fresh bucket, a take is refused exactly
      when admitting it would overrun the window that starts at some earlier take or at this one. */
  lemma {:induction false} RefusedExactlyWhenWindowFull(t: Tank, uses: seq<Use>, n: nat)
    requires Sound(t) && t.tokens == t.capacity as real
    requires n < |uses| && uses[n].take && Monotone(t.updatedAt, uses)
    ensures !Admitted(t, uses, n) <==> exists from :: 0 <= from <= n && uses[from].take && Overruns(t, uses, from, n)
  {
    hide Refilled, Overruns, After, Drawn, Level;
    var full, flow := t.capacity as real, Inflow(t.rate, uses);
    BucketFollowsRecurrence(t, uses, flow, n);
    if Admitted(t, uses, n) {
      forall from | 0 <= from <= n ensures !Overruns(t, uses, from, n) {
        LevelWithinWindow(full, flow, uses, from, n);
        OverrunInTokens(t, uses, from, n);
      }
    } else {
      var from := LevelIsSomeWindow(full, flow, uses, n);
      InflowGrows(t, uses);
      from := NextTake(full, flow, uses, from, n);
      OverrunInTokens(t, uses, from, n);
    }
  }

  // ── What the advice is worth ───────────────────────────────────────────

  /** The exact wait of a refused caller, in seconds. */
  ghost function ExactWait(t: Tank, now: real): real
    requires t.rate > 0.0
  {
    (1.0 - Refilled(t, now).tokens) / t.rate
  }

  lemma {:induction false} DivideBack(x: real, rate: real)
    requires rate > 0.0
    ensures x / rate * rate == x
  {
  }

  ghost function Times(seconds: real, rate: real): real {
    seconds * rate
  }

  lemma {:induction false} TimesLess(x: real, y: real, rate: real)
    requires x < y && rate > 0.0
    ensures Times(x, rate) < Times(y, rate)
    ensures y > 0.0 ==> Times(y, rate) > 0.0
  {
    assert (y - x) * rate > 0.0;
  }

  /** What a wait leaves uncovered, in tokens. */
  ghost function Uncovered(t: Tank, now: real, wait: real): real
    requires t.rate > 0.0
  {
    Times(ExactWait(t, now) - wait, t.rate)
  }

  /** How a wait changes a refused bucket. */
  lemma {:induction false} LevelAfterWait(t: Tank, now: real, wait: real)
    requires Sound(t) && Refilled(t, now).tokens < 1.0 && wait >= 0.0
    ensures var later := Refilled(Refilled(t, now), now + wait);
            && (later.tokens >= 1.0 <==> wait >= ExactWait(t, now))
            && (later.tokens < 1.0 ==> 1.0 - later.tokens == Uncovered(t, now, wait))
    ensures ExactWait(t, now) > 0.0
  {
    RefillSound(t, now);
    var short := 1.0 - Refilled(t, now).tokens;
    DivideBack(short, t.rate);
    var exact := ExactWait(t, now);
    assert exact * t.rate == short;
    assert (wait - exact) * t.rate == wait * t.rate - short;
    Sign(wait - exact, t.rate);
    Sign(exact, t.rate);
  }

  /** A thousandth of a second's refill. */
  ghost function Sliver(t: Tank): real {
    Times(0.001, t.rate)
  }

  lemma {:induction false} Sign(x: real, rate: real)
    requires rate > 0.0
    ensures (x * rate >= 0.0) <==> (x >= 0.0)
    ensures (x * rate > 0.0) <==> (x > 0.0)
  {
  }

  /** Rounding a positive wait up to whole seconds, nearly. */
  function Rounded(exact: real): int {
    var wait := (exact + 0.999).Floor;
    if wait > 1 then wait else 1
  }

  lemma {:induction false} RoundedIsNear(exact: real)
    requires exact > 0.0
    ensures var advice := Rounded(exact) as real;
            && advice >= 1.0 && advice > exact - 0.001
            && (advice - exact <= 0.999 || (advice == 1.0 && exact < 0.001))
    ensures Rounded(exact) as real >= exact <==>
              exact <= 1.0 || exact - exact.Floor as real == 0.0 || exact - exact.Floor as real >= 0.001
  {
    var whole := exact.Floor;
    FloorIs(exact + 0.999, if exact - whole as real < 0.001 then whole else whole + 1);
  }

  lemma {:induction false} FloorIs(x: real, n: int)
    requires n as real <= x < (n + 1) as real
    ensures x.Floor == n
  {
  }

  lemma {:induction false} AdviceIsRounded(t: Tank, now: real)
    requires Sound(t) && Refilled(t, now).tokens < 1.0
    ensures Advice(t, now) == Rounded(ExactWait(t, now))
  {
  }

  /** Someone refused who waits as advised is short of a token by less than a thousandth of a
      second's refill, and one further second always admits. The advice is at least 1, and
      exceeds the exact wait by at most 0.999 s unless the minimum of 1 s raised it. */
  lemma {:induction false} AdviceIsNearlyExact(t: Tank, now: real)
    requires Sound(t) && Refilled(t, now).tokens < 1.0
    ensures var advice := Advice(t, now) as real;
            && advice >= 1.0
            && 1.0 - Refilled(Refilled(t, now), now + advice).tokens < Sliver(t)
            && Taken(Refilled(t, now), now + (advice + 1.0)).1
            && (advice - ExactWait(t, now) <= 0.999 || (advice == 1.0 && ExactWait(t, now) < 0.001))
  {
    hide Refilled, Advice, ExactWait, Uncovered, Sliver;
    var exact := ExactWait(t, now);
    var advice := Advice(t, now) as real;
    AdviceIsRounded(t, now);
    LevelAfterWait(t, now, 1.0);
    RoundedIsNear(exact);
    LevelAfterWait(t, now, advice + 1.0);
    NearlyEnough(t, now, advice);
  }

  lemma {:induction false} NearlyEnough(t: Tank, now: real, wait: real)
    requires Sound(t) && Refilled(t, now).tokens < 1.0 && wait >= 0.0 && wait > ExactWait(t, now) - 0.001
    ensures 1.0 - Refilled(Refilled(t, now), now + wait).tokens < Sliver(t)
  {
    hide Refilled, ExactWait, Uncovered, Sliver;
    LevelAfterWait(t, now, wait);
    UncoveredBelow(t, now, wait);
  }

  lemma {:induction false} UncoveredBelow(t: Tank, now: real, wait: real)
    requires t.rate > 0.0 && wait > ExactWait(t, now) - 0.001
    ensures Uncovered(t, now, wait) < Sliver(t) && 0.0 < Sliver(t)
  {
    hide ExactWait, Times;
    TimesLess(ExactWait(t, now) - wait, 0.001, t.rate);
  }

  /** Waiting as advised admits exactly when the exact wait is at most a second, or its
      fractional part is zero or at least a thousandth. */
  lemma {:induction false} AdviceAdmitsExactly(t: Tank, now: real)
    requires Sound(t) && Refilled(t, now).tokens < 1.0
    ensures var exact := ExactWait(t, now);
            var fraction := exact - exact.Floor as real;
            Taken(Refilled(t, now), now + Advice(t, now) as real).1
            <==> exact <= 1.0 || fraction == 0.0 || fraction >= 0.001
  {
    hide Refilled, Advice, ExactWait, Uncovered, Sliver;
    AdviceIsRounded(t, now);
    LevelAfterWait(t, now, 1.0);
    RoundedIsNear(ExactWait(t, now));
    LevelAfterWait(t, now, Advice(t, now) as real);
  }

  /** A wait of 1.0005 s is advised as 1 s, and the retry is refused. */
  lemma {:induction false} AdviceCanBeShort()
    ensures var t := Tank(1, 1.0 / 2.001, 0.5, 0.0);
            Advice(t, 0.0) == 1 && !Taken(Refilled(t, 0.0), 1.0).1
  {
    var t := Tank(1, 1.0 / 2.001, 0.5, 0.0);
    assert ExactWait(t, 0.0) == 1.0005;
    AdviceAdmitsExactly(t, 0.0);
  }

  // ── The limiter: one bucket per key ────────────────────────────────────

  const AGENT_BURST: int := 5
  const AGENT_REFILL_PER_SECOND: real := 5.0 / 60.0
  const PUBLIC_BURST: int := 20
  const PUBLIC_REFILL_PER_SECOND: real := 20.0 / 60.0

  const SHARED_RESOURCES: set<string> := {"jsearch", "adzuna"}

  datatype Scope = AgentRun | PublicIp

  datatype Decision = Decision(allowed: bool, retryAfterSeconds: int, scope: Scope)

  /** The readings of the monotonic clock one check makes, in order: a bucket's creation, the
      take, and the wording of the advice. */
  datatype Clock = Clock(created: real, took: real, advised: real)

  datatype Call = AgentCall(user: string, agent: string, clock: Clock) | PublicCall(ip: string, clock: Clock)

  /** A shared upstream quota may not be limited here: the check raises. */
  predicate Misused(c: Call) {
    c.AgentCall? && Lower(c.agent) in SHARED_RESOURCES
  }

  function AgentKey(user: string, agent: string): string {
    "agent:" + user + ":" + agent
  }

  function KeyOf(c: Call): string {
    match c
    case AgentCall(user, agent, _) => AgentKey(user, agent)
    case PublicCall(ip, _) => "ip:" + ip
  }

  function FreshFor(c: Call): Tank {
    match c
    case AgentCall(_, _, clock) => Tank(AGENT_BURST, AGENT_REFILL_PER_SECOND, AGENT_BURST as real, clock.created)
    case PublicCall(_, clock) => Tank(PUBLIC_BURST, PUBLIC_REFILL_PER_SECOND, PUBLIC_BURST as real, clock.created)
  }

  function ScopeOf(c: Call): Scope {
    if c.AgentCall? then AgentRun else PublicIp
  }

  /** One bucket's part of a check: the take, and on a refusal the advice. */
  function Checked(t: Tank, clock: Clock, scope: Scope): (Tank, Decision)
    requires t.rate > 0.0
  {
    var (after, ok) := Taken(t, clock.took);
    if ok then (after, Decision(true, 0, scope))
    else (Refilled(after, clock.advised), Decision(false, Advice(after, clock.advised), scope))
  }

  ghost predicate Rated(buckets: map<string, Tank>) {
    forall key <- buckets :: buckets[key].rate > 0.0
  }

  /** A whole check: the table it leaves and its answer, or `None` if it raised. */
  ghost function Serve(buckets: map<string, Tank>, c: Call): (map<string, Tank>, Option<Decision>)
    requires Rated(buckets)
  {
    if Misused(c) then (buckets, None)
    else
      var t := if KeyOf(c) in buckets then buckets[KeyOf(c)] else FreshFor(c);
      var (after, decision) := Checked(t, c.clock, ScopeOf(c));
      (buckets[KeyOf(c) := after], Some(decision))
  }

  class RateLimiter {
    var buckets: map<string, Bucket>

    /** Different keys never share a bucket. */
    ghost predicate Valid()
      reads this, buckets.Values
    {
      && (forall k, l :: k in buckets && l in buckets && k != l ==> buckets[k] != buckets[l])
      && (forall k :: k in buckets ==> buckets[k].rate > 0.0)
    }

    ghost function View(): (v: map<string, Tank>)
      reads this, buckets.Values
    {
      map key | key in buckets :: buckets[key].View()
    }

    constructor ()
      ensures Valid() && View() == map[]
    {
      buckets := map[];
    }

    method BucketFor(key: string, capacity: int, refill: real, now: real) returns (b: Bucket)
      requires Valid() && refill > 0.0
      modifies this
      ensures Valid() && key in buckets && buckets[key] == b
      ensures b in old(buckets.Values) || fresh(b)
      ensures buckets.Values <= old(buckets.Values) + {b}
      ensures b.View() == if key in old(View()) then old(View())[key] else Tank(capacity, refill, capacity as real, now)
      ensures View() == old(View())[key := b.View()] && Rated(old(View()))
    {
      if key in buckets {
        return buckets[key];
      }
      b := new Bucket(capacity, refill, 0.0, now);
      buckets := buckets[key := b];
    }

    /** Using one key's bucket changes the table at that key only. */
    twostate lemma {:induction false} OnlyThatKey(key: string)
      requires old(Valid()) && buckets == old(buckets) && key in buckets
      requires forall k :: k in buckets && k != key ==> buckets[k].View() == old(buckets[k].View())
      requires buckets[key].View().rate == old(buckets[key].View()).rate
      ensures Valid() && View() == old(View())[key := buckets[key].View()]
    {
    }

    /** The part both checks run under the lock. */
    static method TakeOrAdvise(bucket: Bucket, clock: Clock, scope: Scope) returns (r: Decision)
      requires bucket.rate > 0.0
      modifies bucket
      ensures (bucket.View(), r) == Checked(old(bucket.View()), clock, scope)
    {
      var ok := bucket.Take(clock.took);
      if ok {
        return Decision(true, 0, scope);
      }
      var seconds := bucket.RetryAfterSeconds(clock.advised);
      return Decision(false, seconds, scope);
    }

    method Check(key: string, capacity: int, refill: real, clock: Clock, scope: Scope) returns (r: Decision)
      requires Valid() && refill > 0.0
      modifies this, buckets.Values
      ensures Valid() && fresh(buckets.Values - old(buckets.Values))
      ensures Rated(old(View()))
      ensures var t := if key in old(View()) then old(View())[key]
                       else Tank(capacity, refill, capacity as real, clock.created);
              r == Checked(t, clock, scope).1 && View() == old(View())[key := Checked(t, clock, scope).0]
    {
      hide Checked, Rated, RateLimiter.View;
      var bucket := BucketFor(key, capacity, refill, clock.created);
      label Ready:
      r := TakeOrAdvise(bucket, clock, scope);
      OnlyThatKey@Ready(key);
    }

    method CheckAgentRun(user: string, agent: string, clock: Clock) returns (r: Option<Decision>)
      requires Valid()
      modifies this, buckets.Values
      ensures Valid() && fresh(buckets.Values - old(buckets.Values))
      ensures Rated(old(View())) && (View(), r) == Serve(old(View()), AgentCall(user, agent, clock))
    {
      if Lower(agent) in SHARED_RESOURCES {
        return None;
      }
      var decision := Check(AgentKey(user, agent), AGENT_BURST, AGENT_REFILL_PER_SECOND, clock, AgentRun);
      r := Some(decision);
    }

    method CheckPublic(ip: string, clock: Clock) returns (r: Option<Decision>)
      requires Valid()
      modifies this, buckets.Values
      ensures Valid() && fresh(buckets.Values - old(buckets.Values))
      ensures Rated(old(View())) && (View(), r) == Serve(old(View()), PublicCall(ip, clock))
    {
      var decision := Check("ip:" + ip, PUBLIC_BURST, PUBLIC_REFILL_PER_SECOND, clock, PublicIp);
      r := Some(decision);
    }
  }

  // ── Whole histories of calls ───────────────────────────────────────────

  /** The bucket table after a history of calls. */
  ghost function ServeAll(calls: seq<Call>): (buckets: map<string, Tank>)
    ensures Rated(buckets)
  {
    if calls == [] then map[] else Serve(ServeAll(calls[..|calls| - 1]), calls[|calls| - 1]).0
  }

  /** The clock never runs backwards, within a call or from one call to the next. */
  ghost predicate Ordered(calls: seq<Call>) {
    && (forall i :: 0 <= i < |calls| ==> calls[i].clock.created <= calls[i].clock.took <= calls[i].clock.advised)
    && (forall i, j :: 0 <= i < j < |calls| ==> calls[i].clock.advised <= calls[j].clock.created)
  }

  /** The call concerns this key's bucket. */
  ghost predicate Concerns(c: Call, key: string) {
    !Misused(c) && KeyOf(c) == key
  }

  /** How one call uses its bucket: the take, and on a refusal the look that words the advice. */
  ghost function UsesIn(t: Tank, clock: Clock): seq<Use> {
    [Use(clock.took, true)] + if Taken(t, clock.took).1 then [] else [Use(clock.advised, false)]
  }

  /** The bucket a call finds: its key's, or a fresh one. */
  ghost function BucketAt(calls: seq<Call>, c: Call): Tank {
    if KeyOf(c) in ServeAll(calls) then ServeAll(calls)[KeyOf(c)] else FreshFor(c)
  }

  /** Every use of one key's bucket in a history. */
  ghost function UsesOf(calls: seq<Call>, key: string): seq<Use> {
    if calls == [] then []
    else
      var front, last := calls[..|calls| - 1], calls[|calls| - 1];
      UsesOf(front, key) + if Concerns(last, key) then UsesIn(BucketAt(front, last), last.clock) else []
  }

  /** The bucket as its first call created it. */
  ghost function Opened(calls: seq<Call>, key: string): Option<Tank> {
    if calls == [] then None
    else
      var front, last := calls[..|calls| - 1], calls[|calls| - 1];
      if Opened(front, key).Some? then Opened(front, key)
      else if Concerns(last, key) then Some(FreshFor(last)) else None
  }

  lemma {:induction false} AfterPrefix(t: Tank, uses: seq<Use>, more: seq<Use>, n: nat)
    requires n <= |uses|
    ensures After(t, uses + more, n) == After(t, uses, n)
  {
    if n > 0 {
      AfterPrefix(t, uses, more, n - 1);
    }
  }

  lemma {:induction false} AfterAppend(t: Tank, uses: seq<Use>, u: Use)
    ensures After(t, uses + [u], |uses| + 1) == Used(After(t, uses, |uses|), u)
  {
    AfterPrefix(t, uses, [u], |uses|);
  }

  /** One check uses its bucket as `UsesIn` lists. */
  lemma {:induction false} CheckedIsUses(initial: Tank, uses: seq<Use>, t: Tank, clock: Clock, scope: Scope)
    requires t.rate > 0.0 && t == After(initial, uses, |uses|)
    ensures var all := uses + UsesIn(t, clock);
            Checked(t, clock, scope).0 == After(initial, all, |all|)
  {
    hide Refilled;
    AfterAppend(initial, uses, Use(clock.took, true));
    var taken := uses + [Use(clock.took, true)];
    if Taken(t, clock.took).1 {
      assert uses + UsesIn(t, clock) == taken;
    } else {
      AfterAppend(initial, taken, Use(clock.advised, false));
      assert uses + UsesIn(t, clock) == taken + [Use(clock.advised, false)];
    }
  }

  /** What one call does to one key's entry. */
  lemma {:induction false} ServeStep(buckets: map<string, Tank>, c: Call, key: string)
    requires Rated(buckets)
    ensures var after := Serve(buckets, c).0;
            if Concerns(c, key) then
              key in after
                && after[key] == Checked(if key in buckets then buckets[key] else FreshFor(c), c.clock, ScopeOf(c)).0
            else
              (key in after <==> key in buckets) && (key in after ==> after[key] == buckets[key])
  {
    hide Checked;
  }

  /** A key's bucket is what its own uses made of it. */
  ghost predicate Explained(calls: seq<Call>, key: string) {
    var initial, uses := Opened(calls, key), UsesOf(calls, key);
    if initial.None? then key !in ServeAll(calls) && uses == []
    else key in ServeAll(calls) && ServeAll(calls)[key] == After(initial.value, uses, |uses|)
  }

  lemma {:induction false} BucketIsItsOwnHistory(calls: seq<Call>, key: string)
    ensures Explained(calls, key)
  {
    hide Checked, Refilled, Taken, After, UsesIn, Concerns, Serve, FreshFor;
    if calls != [] {
      var front, last := calls[..|calls| - 1], calls[|calls| - 1];
      BucketIsItsOwnHistory(front, key);
      ServeStep(ServeAll(front), last, key);
      if Concerns(last, key) {
        CallFinds(front, last, key);
        CheckedIsUses(Opened(calls, key).value, UsesOf(front, key), BucketAt(front, last), last.clock, ScopeOf(last));
      } else {
        assert UsesOf(calls, key) == UsesOf(front, key);
      }
    }
  }

  /** A call finds the bucket its key's earlier uses left, or a fresh one. */
  lemma {:induction false} CallFinds(calls: seq<Call>, c: Call, key: string)
    requires Explained(calls, key) && Concerns(c, key)
    ensures var initial := if Opened(calls, key).Some? then Opened(calls, key).value else FreshFor(c);
            BucketAt(calls, c) == After(initial, UsesOf(calls, key), |UsesOf(calls, key)|)
    ensures BucketAt(calls, c) == if key in ServeAll(calls) then ServeAll(calls)[key] else FreshFor(c)
    ensures BucketAt(calls, c).rate > 0.0
  {
  }

  lemma {:induction false} MonotoneAppend(start: real, uses: seq<Use>, u: Use)
    requires Monotone(start, uses) && start <= u.at && forall v <- uses :: v.at <= u.at
    ensures Monotone(start, uses + [u])
  {
  }

  /** A key's uses run forward in time from its bucket's creation, and start it full. */
  lemma {:induction false} UsesRunForward(calls: seq<Call>, key: string)
    requires Ordered(calls) && Opened(calls, key).Some?
    ensures var t := Opened(calls, key).value; Sound(t) && t.tokens == t.capacity as real
    ensures Opened(calls, key).value.updatedAt <= calls[|calls| - 1].clock.took
    ensures Monotone(Opened(calls, key).value.updatedAt, UsesOf(calls, key))
    ensures forall u <- UsesOf(calls, key) :: u.at <= calls[|calls| - 1].clock.advised
  {
    hide Taken, Monotone, BucketAt, Concerns;
    var front, last := calls[..|calls| - 1], calls[|calls| - 1];
    var start := Opened(calls, key).value.updatedAt;
    if Opened(front, key).Some? {
      UsesRunForward(front, key);
    } else {
      BucketIsItsOwnHistory(front, key);
      NoUses(start);
    }
    if Concerns(last, key) {
      var before, take := UsesOf(front, key), Use(last.clock.took, true);
      var more := UsesIn(BucketAt(front, last), last.clock);
      MonotoneAppend(start, before, take);
      if |more| == 1 {
        assert before + more == before + [take];
      } else {
        MonotoneAppend(start, before + [take], more[1]);
        assert before + more == before + [take] + [more[1]];
      }
    } else {
      assert UsesOf(calls, key) == UsesOf(front, key);
    }
  }

  lemma {:induction false} NoUses(start: real)
    ensures Monotone(start, [])
  {
  }

  /** The limiter's meaning, over every history of calls on any keys with a clock that never runs
      backwards: a call is refused exactly when admitting it would overrun the window that starts at
      some earlier call on its own key or at this one. */
  lemma {:induction false} RefusalDependsOnOwnKeyOnly(calls: seq<Call>, c: Call)
    requires Ordered(calls + [c]) && !Misused(c)
    ensures var (_, decision) := Serve(ServeAll(calls), c);
            var initial := Opened(calls + [c], KeyOf(c));
            var uses := UsesOf(calls, KeyOf(c)) + [Use(c.clock.took, true)];
            var n := |uses| - 1;
            && decision.Some? && initial.Some?
            && (!decision.value.allowed <==>
                  exists from :: 0 <= from <= n && uses[from].take && Overruns(initial.value, uses, from, n))
  {
    hide Refilled, Advice, Overruns, After, FreshFor, Monotone, Taken;
    var all, key := calls + [c], KeyOf(c);
    assert all[..|all| - 1] == calls;
    BucketIsItsOwnHistory(calls, key);
    CallFinds(calls, c, key);
    UsesRunForward(all, key);
    var initial, before, take := Opened(all, key).value, UsesOf(calls, key), Use(c.clock.took, true);
    MonotonePrefix(initial.updatedAt, before + [take], UsesOf(all, key));
    AfterPrefix(initial, before, [take], |before|);
    RefusedExactlyWhenWindowFull(initial, before + [take], |before|);
  }

  lemma {:induction false} MonotonePrefix(start: real, uses: seq<Use>, more: seq<Use>)
    requires Monotone(start, more) && uses <= more
    ensures Monotone(start, uses)
  {
    assert forall i :: 0 <= i < |uses| ==> uses[i] == more[i];
  }

  /** The calls of a history that concern one key. */
  ghost function Only(calls: seq<Call>, key: string): seq<Call> {
    if calls == [] then []
    else
      var front, last := calls[..|calls| - 1], calls[|calls| - 1];
      Only(front, key) + if Concerns(last, key) then [last] else []
  }

  /** Erasing every call on other keys changes nothing about a key's bucket. */
  lemma {:induction false} OtherKeysChangeNothing(calls: seq<Call>, key: string)
    ensures var all, own := ServeAll(calls), ServeAll(Only(calls, key));
            (key in all <==> key in own) && (key in all ==> all[key] == own[key])
  {
    hide Checked, Serve, Concerns, FreshFor;
    if calls != [] {
      var front, last := calls[..|calls| - 1], calls[|calls| - 1];
      OtherKeysChangeNothing(front, key);
      ServeStep(ServeAll(front), last, key);
      if Concerns(last, key) {
        ServeStep(ServeAll(Only(front, key)), last, key);
        assert (Only(front, key) + [last])[..|Only(front, key)|] == Only(front, key);
      } else {
        assert Only(calls, key) == Only(front, key);
      }
    }
  }

  predicate EndsIn(s: string, tail: string) {
    |s| >= |tail| && s[|s| - |tail|..] == tail
  }

  /** The user that, with the shorter agent name `b`, has the key of `user` with `a`. */
  function CollidingUser(user: string, a: string, b: string): string
    requires |a| > |b|
  {
    user + (":" + a[..|a| - |b| - 1])
  }

  /** One agent name is the tail of the other from a colon on, and the rest went to the user. */
  ghost predicate Collides(user: string, a: string, user': string, b: string) {
    |a| > |b| && EndsIn(a, ":" + b) && user' == CollidingUser(user, a, b)
  }

  lemma {:induction false} MeetingSplits(user: string, a: string, user': string, b: string)
    requires |a| > |b| && AgentKey(user, a) == AgentKey(user', b)
    ensures Collides(user, a, user', b)
  {
    var k, n := |a| - |b| - 1, 6 + |user'|;
    var x, y := AgentKey(user, a), AgentKey(user', b);
    assert n == 6 + |user| + 1 + k;
    assert user' == y[6..n] == x[6..n] == user + (":" + a[..k]);
    assert ":" + b == y[n..] == x[n..] == a[k..];
  }

  lemma {:induction false} SplitMeets(user: string, a: string, user': string, b: string)
    requires Collides(user, a, user', b)
    ensures AgentKey(user, a) == AgentKey(user', b)
  {
    var k := |a| - |b| - 1;
    Regroup(user, a[..k], b);
    assert a == a[..k] + (":" + b);
  }

  lemma {:induction false} Regroup(user: string, front: string, b: string)
    ensures AgentKey(user, front + (":" + b)) == AgentKey(user + (":" + front), b)
  {
  }

  /** Two agent calls share a bucket exactly when user and agent are the same, or one agent name
      is the tail of the other from a colon on and the users make up the difference; a public
      call never shares one with an agent call. */
  lemma {:induction false} KeysEqualExactly(user: string, a: string, user': string, b: string, ip: string)
    ensures AgentKey(user, a) == AgentKey(user', b) <==>
              (user == user' && a == b) || Collides(user, a, user', b) || Collides(user', b, user, a)
    ensures AgentKey(user, a) != "ip:" + ip
  {
    assert AgentKey(user, a)[0] == 'a' && ("ip:" + ip)[0] == 'i';
    if Collides(user, a, user', b) {
      SplitMeets(user, a, user', b);
    } else if Collides(user', b, user, a) {
      SplitMeets(user', b, user, a);
    }
    if AgentKey(user, a) == AgentKey(user', b) {
      if |a| > |b| {
        MeetingSplits(user, a, user', b);
      } else if |b| > |a| {
        MeetingSplits(user', b, user, a);
      } else {
        SameLengths(user, a, user', b);
      }
    }
  }

  lemma {:induction false} SameLengths(user: string, a: string, user': string, b: string)
    requires |a| == |b| && AgentKey(user, a) == AgentKey(user', b)
    ensures user == user' && a == b
  {
    var x, n := AgentKey(user, a), 6 + |user|;
    assert user == x[6..n] == user' && a == x[n + 1..] == b;
  }

  /** Two different agent names can meet in one bucket, for some users, exactly when one of them
      ends in a colon and the other. */
  lemma {:induction false} AgentsCollideExactly(a: string, b: string)
    requires a != b
    ensures (exists user, user' :: AgentKey(user, a) == AgentKey(user', b)) <==>
              EndsIn(a, ":" + b) || EndsIn(b, ":" + a)
  {
    hide AgentKey, EndsIn;
    forall user, user' | AgentKey(user, a) == AgentKey(user', b) ensures EndsIn(a, ":" + b) || EndsIn(b, ":" + a) {
      KeysEqualExactly(user, a, user', b, "");
    }
    if EndsIn(a, ":" + b) {
      ColonInside(a, b);
      KeysEqualExactly("", a, CollidingUser("", a, b), b, "");
    } else if EndsIn(b, ":" + a) {
      ColonInside(b, a);
      KeysEqualExactly(CollidingUser("", b, a), a, "", b, "");
    }
  }

  /** The agent names the routes pass. */
  const AGENTS: set<string> := {"cv", "jobs", "profile", "content", "naukri", "interview"}

  /** None of them has a colon, so no two agents and no two users ever meet in one bucket. */
  lemma {:induction false} AgentsInUseAreApart(user: string, a: string, user': string, b: string)
    requires a in AGENTS && b in AGENTS
    ensures AgentKey(user, a) == AgentKey(user', b) <==> user == user' && a == b
  {
    hide AgentKey, EndsIn;
    KeysEqualExactly(user, a, user', b, "");
    NoColonInUse(a);
    NoColonInUse(b);
    ColonInside(a, b);
    ColonInside(b, a);
  }

  lemma {:induction false} NoColonInUse(agent: string)
    requires agent in AGENTS
    ensures ':' !in agent
  {
  }

  lemma {:induction false} ColonInside(a: string, b: string)
    ensures EndsIn(a, ":" + b) ==> ':' in a && |a| > |b|
  {
    if EndsIn(a, ":" + b) {
      assert a[|a| - |b| - 1..][0] == ':';
    }
  }

  // ── The limiter, told in calls and answers ─────────────────────────────

  /** One user running one agent, or one address. */
  predicate SameCaller(c: Call, d: Call) {
    || (c.AgentCall? && d.AgentCall? && c.user == d.user && c.agent == d.agent)
    || (c.PublicCall? && d.PublicCall? && c.ip == d.ip)
  }

  /** An agent name without a colon, as all those in use. */
  ghost predicate Plain(c: Call) {
    c.AgentCall? ==> ':' !in c.agent
  }

  ghost predicate AllPlain(calls: seq<Call>) {
    forall c <- calls :: Plain(c)
  }

  /** A check raises, and changes nothing, exactly when it is asked to limit a shared upstream. */
  lemma {:induction false} RaisesExactly(calls: seq<Call>, c: Call)
    ensures Serve(ServeAll(calls), c).1 == None <==> c.AgentCall? && Lower(c.agent) in {"jsearch", "adzuna"}
    ensures Serve(ServeAll(calls), c).1 == None ==> Serve(ServeAll(calls), c).0 == ServeAll(calls)
  {
  }

  /** A call concerns another's bucket exactly when the same caller makes it. */
  lemma {:induction false} ConcernsIsSameCaller(c: Call, d: Call)
    requires !Misused(c) && Plain(c) && Plain(d)
    ensures Concerns(d, KeyOf(c)) <==> SameCaller(c, d)
  {
    hide AgentKey, EndsIn;
    if c.AgentCall? && d.AgentCall? {
      KeysEqualExactly(c.user, c.agent, d.user, d.agent, "");
      ColonInside(c.agent, d.agent);
      ColonInside(d.agent, c.agent);
    } else if c.AgentCall? {
      KeysEqualExactly(c.user, c.agent, c.user, c.agent, d.ip);
    } else if d.AgentCall? {
      KeysEqualExactly(d.user, d.agent, d.user, d.agent, c.ip);
    } else {
      assert ("ip:" + c.ip)[3..] == c.ip && ("ip:" + d.ip)[3..] == d.ip;
    }
  }

  /** The calls of a history that the caller of `c` made. */
  ghost function By(calls: seq<Call>, c: Call): seq<Call> {
    if calls == [] then []
    else
      var front, last := calls[..|calls| - 1], calls[|calls| - 1];
      By(front, c) + if SameCaller(c, last) then [last] else []
  }

  lemma {:induction false} ByIsOnly(calls: seq<Call>, c: Call)
    requires AllPlain(calls) && Plain(c) && !Misused(c)
    ensures By(calls, c) == Only(calls, KeyOf(c))
  {
    hide Concerns, SameCaller, Plain;
    if calls != [] {
      ByIsOnly(calls[..|calls| - 1], c);
      ConcernsIsSameCaller(c, calls[|calls| - 1]);
    }
  }

  /** Nobody is refused, or let through, for what another user, another agent or another address
      does: erasing every call but the caller's own changes no answer. */
  lemma {:induction false} OtherCallersChangeNothing(calls: seq<Call>, c: Call)
    requires AllPlain(calls) && Plain(c)
    ensures Serve(ServeAll(calls), c).1 == Serve(ServeAll(By(calls, c)), c).1
  {
    hide Checked, ServeAll, Only, By, KeyOf;
    if !Misused(c) {
      ByIsOnly(calls, c);
      OtherKeysChangeNothing(calls, KeyOf(c));
    }
  }

  /** The call at `i` of a history was let through. */
  ghost predicate AllowedAt(calls: seq<Call>, i: nat)
    requires i < |calls|
  {
    var answer := Serve(ServeAll(calls[..i]), calls[i]).1;
    answer.Some? && answer.value.allowed
  }

  /** How many of the calls from `from` on were the caller's own and let through. */
  ghost function AllowedSince(calls: seq<Call>, c: Call, from: nat): nat
    requires from <= |calls|
  {
    if |calls| == from then 0
    else
      AllowedSince(calls[..|calls| - 1], c, from)
      + if SameCaller(c, calls[|calls| - 1]) && AllowedAt(calls, |calls| - 1) then 1 else 0
  }

  /** Letting `c` through would make more than a burst and a refill's worth since the call at `from`. */
  ghost predicate TooMany(calls: seq<Call>, c: Call, from: nat)
    requires from <= |calls|
  {
    var start := if from < |calls| then calls[from].clock.took else c.clock.took;
    AllowedSince(calls, c, from) as real + 1.0
      > (if c.AgentCall? then 5.0 else 20.0)
        + (if c.AgentCall? then 5.0 / 60.0 else 20.0 / 60.0) * (c.clock.took - start)
  }

  /** The limiter in the words of its callers. With the clock never running backwards, a call is
      refused exactly when, since some earlier call of the same user and agent, or of the same
      address, or since this one, letting it through would make more than 5 and 5 a minute of that
      user and agent, or more than 20 and 20 a minute of that address. */
  lemma {:induction false} RefusedExactly(calls: seq<Call>, c: Call)
    requires Ordered(calls + [c]) && AllPlain(calls) && Plain(c)
    requires !(c.AgentCall? && Lower(c.agent) in {"jsearch", "adzuna"})
    ensures !AllowedAt(calls + [c], |calls|) <==>
              exists from :: 0 <= from <= |calls| && SameCaller(c, (calls + [c])[from]) && TooMany(calls, c, from)
  {
    hide Ordered, Serve, Overruns, TooMany, AllowedSince, KeyOf, Opened, UsesOf, Concerns, ServeAll;
    var all, key := calls + [c], KeyOf(c);
    assert all[..|calls|] == calls;
    RefusalDependsOnOwnKeyOnly(calls, c);
    var initial, uses := Opened(all, key).value, UsesOf(calls, key) + [Use(c.clock.took, true)];
    var n := |uses| - 1;
    if !AllowedAt(all, |calls|) {
      var p :| 0 <= p <= n && uses[p].take && Overruns(initial, uses, p, n);
      var from := |calls|;
      if p < n {
        from := TakeIsCall(calls, key, p);
        ConcernsIsSameCaller(c, calls[from]);
      } else {
        assert calls[..|calls|] == calls;
      }
      WindowIsCalls(calls, c, from);
      assert SameCaller(c, all[from]) && TooMany(calls, c, from);
    } else {
      forall from | 0 <= from <= |calls| && SameCaller(c, all[from]) ensures !TooMany(calls, c, from) {
        if from < |calls| {
          ConcernsIsSameCaller(c, calls[from]);
          CallIsTake(calls, key, from);
        }
        WindowIsCalls(calls, c, from);
      }
    }
  }

  /** A window of calls is a window of the bucket's uses. */
  lemma {:induction false} WindowIsCalls(calls: seq<Call>, c: Call, from: nat)
    requires AllPlain(calls) && Plain(c) && !Misused(c) && from <= |calls|
    requires SameCaller(c, (calls + [c])[from])
    ensures var initial := Opened(calls + [c], KeyOf(c));
            var uses := UsesOf(calls, KeyOf(c)) + [Use(c.clock.took, true)];
            var p := |UsesOf(calls[..from], KeyOf(c))|;
            initial.Some? && p < |uses| && uses[p].take &&
            (Overruns(initial.value, uses, p, |uses| - 1) <==> TooMany(calls, c, from))
  {
    hide SameCaller, KeyOf, UsesOf, Opened, AllowedSince, Concerns, Plain, Admissions, Overruns, TooMany;
    var all, key := calls + [c], KeyOf(c);
    assert all[..|calls|] == calls;
    OpensAt(calls, c);
    OpenedIsFresh(all, c);
    AdmissionsAreCalls(calls, c, from, Opened(all, key).value);
    var own, take := UsesOf(calls, key), Use(c.clock.took, true);
    var p := |UsesOf(calls[..from], key)|;
    AdmissionsPrefix(Opened(all, key).value, own, [take], p, |own|);
    if from < |calls| {
      ConcernsIsSameCaller(c, calls[from]);
      CallIsTake(calls, key, from);
    } else {
      assert calls[..from] == calls;
    }
    OverrunIsTooMany(Opened(all, key).value, own + [take], p, calls, c, from);
  }

  lemma {:induction false} OverrunIsTooMany(t: Tank, uses: seq<Use>, p: nat, calls: seq<Call>, c: Call, from: nat)
    requires p < |uses| && from <= |calls|
    requires t.capacity == (if c.AgentCall? then 5 else 20)
    requires t.rate == if c.AgentCall? then 5.0 / 60.0 else 20.0 / 60.0
    requires uses[|uses| - 1].at == c.clock.took
    requires uses[p].at == if from < |calls| then calls[from].clock.took else c.clock.took
    requires Admissions(t, uses, p, |uses| - 1) == AllowedSince(calls, c, from)
    ensures Overruns(t, uses, p, |uses| - 1) <==> TooMany(calls, c, from)
  {
    hide Admissions, AllowedSince;
    var start := if from < |calls| then calls[from].clock.took else c.clock.took;
    var rate := if c.AgentCall? then 5.0 / 60.0 else 20.0 / 60.0;
    SameProduct(t.rate, rate, uses[|uses| - 1].at - uses[p].at, c.clock.took - start);
  }

  lemma {:induction false} SameProduct(r: real, s: real, x: real, y: real)
    requires r == s && x == y
    ensures r * x == s * y
  {
  }

  lemma {:induction false} OpensAt(calls: seq<Call>, c: Call)
    requires !Misused(c)
    ensures var all := calls + [c];
            Opened(all, KeyOf(c)) == if Opened(calls, KeyOf(c)).Some? then Opened(calls, KeyOf(c))
                                     else Some(FreshFor(c))
  {
    hide FreshFor;
    assert (calls + [c])[..|calls|] == calls;
  }

  /** Every caller's bucket starts with its own burst and rate. */
  lemma {:induction false} OpenedIsFresh(calls: seq<Call>, c: Call)
    requires AllPlain(calls) && Plain(c) && !Misused(c) && Opened(calls, KeyOf(c)).Some?
    ensures var t := Opened(calls, KeyOf(c)).value;
            && t.capacity == (if c.AgentCall? then 5 else 20)
            && t.rate == (if c.AgentCall? then 5.0 / 60.0 else 20.0 / 60.0)
            && t.tokens == t.capacity as real
  {
    hide KeyOf, Concerns, Plain;
    var front, last := calls[..|calls| - 1], calls[|calls| - 1];
    if Opened(front, KeyOf(c)).Some? {
      OpenedIsFresh(front, c);
    } else {
      ConcernsIsSameCaller(c, last);
    }
  }

  /** A call is the take at its place among its bucket's uses... */
  lemma {:induction false} CallIsTake(calls: seq<Call>, key: string, i: nat)
    requires i < |calls| && Concerns(calls[i], key)
    ensures var p := |UsesOf(calls[..i], key)|;
            p < |UsesOf(calls, key)| && UsesOf(calls, key)[p] == Use(calls[i].clock.took, true)
  {
    hide Concerns, BucketAt, Taken;
    var front := calls[..|calls| - 1];
    if i < |front| {
      assert front[..i] == calls[..i];
      CallIsTake(front, key, i);
    }
  }

  /** ...and every take is some call. */
  lemma {:induction false} TakeIsCall(calls: seq<Call>, key: string, p: nat) returns (i: nat)
    requires p < |UsesOf(calls, key)| && UsesOf(calls, key)[p].take
    ensures i < |calls| && Concerns(calls[i], key) && |UsesOf(calls[..i], key)| == p
  {
    hide Concerns, BucketAt, Taken;
    var front := calls[..|calls| - 1];
    if p < |UsesOf(front, key)| {
      i := TakeIsCall(front, key, p);
      assert front[..i] == calls[..i];
    } else {
      i := |front|;
    }
  }

  lemma {:induction false} AdmissionsPrefix(t: Tank, uses: seq<Use>, more: seq<Use>, from: nat, upTo: nat)
    requires from <= upTo <= |uses|
    ensures Admissions(t, uses + more, from, upTo) == Admissions(t, uses, from, upTo)
    decreases upTo - from
  {
    hide Taken, After;
    if from < upTo {
      AdmissionsPrefix(t, uses, more, from, upTo - 1);
      AfterPrefix(t, uses, more, upTo - 1);
    }
  }

  /** The admissions of a bucket from a call's place on are its caller's calls let through. */
  lemma {:induction false} AdmissionsAreCalls(calls: seq<Call>, c: Call, from: nat, initial: Tank)
    requires AllPlain(calls) && Plain(c) && !Misused(c) && from <= |calls|
    requires Opened(calls, KeyOf(c)) in {None, Some(initial)}
    ensures var p := |UsesOf(calls[..from], KeyOf(c))|;
            p <= |UsesOf(calls, KeyOf(c))| &&
            Admissions(initial, UsesOf(calls, KeyOf(c)), p, |UsesOf(calls, KeyOf(c))|) == AllowedSince(calls, c, from)
  {
    hide Concerns, BucketAt, Taken, KeyOf, SameCaller, Plain, Admissions, AllowedAt, UsesIn;
    if from == |calls| {
      assert calls[..from] == calls;
      NoAdmissions(initial, UsesOf(calls, KeyOf(c)));
    } else {
      var front, last, key := calls[..|calls| - 1], calls[|calls| - 1], KeyOf(c);
      assert front[..from] == calls[..from];
      AdmissionsAreCalls(front, c, from, initial);
      ConcernsIsSameCaller(c, last);
      if Concerns(last, key) {
        assert front + [last] == calls;
        OneCallAdmits(front, last, key, |UsesOf(calls[..from], key)|, initial);
      } else {
        assert UsesOf(calls, key) == UsesOf(front, key);
      }
    }
  }

  lemma {:induction false} NoAdmissions(t: Tank, uses: seq<Use>)
    ensures Admissions(t, uses, |uses|, |uses|) == 0
  {
  }

  /** One more call on the key admits once if it is let through. */
  lemma {:induction false} OneCallAdmits(front: seq<Call>, last: Call, key: string, p: nat, initial: Tank)
    requires Concerns(last, key) && p <= |UsesOf(front, key)|
    requires Opened(front + [last], key) == Some(initial)
    ensures var uses := UsesOf(front + [last], key);
            |UsesOf(front, key)| <= |uses| &&
            Admissions(initial, uses, p, |uses|)
            == Admissions(initial, UsesOf(front, key), p, |UsesOf(front, key)|)
               + if AllowedAt(front + [last], |front|) then 1 else 0
  {
    hide Refilled, Advice;
    var all, before := front + [last], UsesOf(front, key);
    assert all[..|front|] == front;
    BucketIsItsOwnHistory(front, key);
    CallFinds(front, last, key);
    var more := UsesIn(BucketAt(front, last), last.clock);
    AdmissionsPrefix(initial, before, more, p, |before|);
    AfterPrefix(initial, before, more, |before|);
  }

  /** What a refusal's advice is worth to its caller: coming back that many seconds later and one
      more is always admitted, and coming back a second sooner never is. The advice is zero only
      if the token arrived while it was being worded, and when nothing was refused. */
  lemma {:induction false} AdviceToTheCaller(calls: seq<Call>, c: Call, d: Call)
    requires Ordered(calls + [c] + [d]) && SameCaller(c, d) && !Misused(c)
    ensures var (after, answer) := Serve(ServeAll(calls), c);
            && answer.Some?
            && (answer.value.allowed ==> answer.value.retryAfterSeconds == 0)
            && answer.value.scope == (if c.AgentCall? then AgentRun else PublicIp)
            && (!answer.value.allowed ==>
                  var seconds, next := answer.value.retryAfterSeconds, Serve(after, d).1;
                  && next.Some?
                  && (c.clock.took == c.clock.advised ==> seconds >= 1)
                  && (d.clock.took >= c.clock.advised + seconds as real + 1.0 ==> next.value.allowed)
                  && (d.clock.took <= c.clock.advised + seconds as real - 1.0 ==> !next.value.allowed))
  {
    hide Refilled, Advice, FreshFor, ServeAll, AgentKey;
    var key, all := KeyOf(c), calls + [c];
    OrderedParts(calls, c, d);
    BucketSound(calls, c);
    var t := BucketAt(calls, c);
    if !Taken(t, c.clock.took).1 {
      var refused, now := Refilled(t, c.clock.took), c.clock.advised;
      UseSound(t, Use(c.clock.took, true));
      AdviceBounds(refused, now, d.clock.took);
    }
  }

  lemma {:induction false} OrderedParts(calls: seq<Call>, c: Call, d: Call)
    requires Ordered(calls + [c] + [d])
    ensures Ordered(calls + [c]) && c.clock.took <= c.clock.advised <= d.clock.took
  {
    var all := calls + [c] + [d];
    assert all[|calls|] == c && all[|calls| + 1] == d;
    assert forall i :: 0 <= i < |calls| + 1 ==> (calls + [c])[i] == all[i];
  }

  /** The bucket a call finds is never overfull and never in debt. */
  lemma {:induction false} BucketSound(calls: seq<Call>, c: Call)
    requires Ordered(calls + [c]) && !Misused(c)
    ensures Sound(BucketAt(calls, c))
  {
    hide Monotone, UsesOf, BucketAt, Sound, KeyOf, FreshFor, Opened;
    var all, key := calls + [c], KeyOf(c);
    assert all[..|calls|] == calls;
    BucketIsItsOwnHistory(calls, key);
    CallFinds(calls, c, key);
    OpensAt(calls, c);
    UsesRunForward(all, key);
    OwnUsesFirst(calls, c, key);
    MonotonePrefix(Opened(all, key).value.updatedAt, UsesOf(calls, key), UsesOf(all, key));
    StaysSound(Opened(all, key).value, UsesOf(calls, key), |UsesOf(calls, key)|);
  }

  lemma {:induction false} OwnUsesFirst(calls: seq<Call>, c: Call, key: string)
    ensures UsesOf(calls, key) <= UsesOf(calls + [c], key)
  {
    assert (calls + [c])[..|calls|] == calls;
  }

  /** Advice worded at `now`, and a take at `later`, when the bucket looked too empty. */
  lemma {:induction false} AdviceBounds(t: Tank, now: real, later: real)
    requires Sound(t) && now <= later
    ensures var seconds, ok := Advice(t, now) as real, Taken(Refilled(t, now), later).1;
            && (later >= now + seconds + 1.0 ==> ok)
            && (later <= now + seconds - 1.0 ==> !ok)
            && (t.updatedAt == now && t.tokens < 1.0 ==> Advice(t, now) >= 1)
  {
    hide Refilled, ExactWait, Rounded;
    RefillSound(t, now);
    if Refilled(t, now).tokens < 1.0 {
      AdviceIsRounded(t, now);
      LevelAfterWait(t, now, later - now);
      RoundedIsNear(ExactWait(t, now));
      assert now + (later - now) == later;
    } else {
      FullStays(Refilled(t, now), later);
    }
  }

  lemma {:induction false} FullStays(t: Tank, later: real)
    requires Sound(t) && t.tokens >= 1.0
    ensures Refilled(t, later).tokens >= 1.0
  {
    Sign(later - t.updatedAt, t.rate);
  }

}
