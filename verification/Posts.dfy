/**
 The week of posts: what may happen to a slot, and what the streak makes of it.
 */
module Posts {
  import opened Basics
  import opened Strings

  datatype SlotState = Pending | DraftReady | Published | Skipped

  datatype SkipReason = NoTime | NotMyTopic | DraftsWeak | Other

  datatype Draft = Draft(index: int, body: string, note: Option<string>)

  /** A day, as its ordinal. */
  type Date = int

  datatype Slot = Slot(
    day: string, date: Date, timeLabel: string, state: SlotState, optional: bool, drafts: seq<Draft>,
    publishedAt: Option<string>, skipReason: Option<SkipReason>, skipNote: Option<string>)

  /** The three things a user can do to a slot. */
  datatype Edit =
    | MarkPublished(at: string)
    | Skip(reason: Option<SkipReason>, note: Option<string>)
    | Redraft(drafts: seq<Draft>)

  /** The slot after an edit, or `None` when it is refused. */
  function Edited(slot: Slot, e: Edit): Option<Slot> {
    match e
    case MarkPublished(at) =>
      if slot.state == Published || slot.state == Skipped then None
      else Some(slot.(state := Published, publishedAt := Some(at)))
    case Skip(reason, note) =>
      if slot.state == Published then None
      else if !slot.optional && reason.None? then None
      else Some(slot.(state := Skipped, skipReason := reason, skipNote := note))
    case Redraft(drafts) =>
      // A redraft whose drafts were all dropped saves nothing.
      if slot.state == Published || drafts == [] then None
      else Some(slot.(drafts := drafts, state := DraftReady))
  }

  datatype WeekPlan = WeekPlan(
    weekStart: Date, slots: seq<Slot>, cadencePerWeek: int, cadenceDays: seq<string>, streakWeeks: int,
    pausedUntil: Option<Date>, paused: Option<bool>)
  {
    predicate IsPaused() {
      if paused.Some? then paused.value || pausedUntil.Some? else cadencePerWeek == 0 || pausedUntil.Some?
    }
  }

  /** How many of the slots are published. */
  function Shipped(slots: seq<Slot>): nat {
    if slots == [] then 0
    else Shipped(slots[..|slots| - 1]) + if slots[|slots| - 1].state == Published then 1 else 0
  }

  /** How many of the slots are not optional. */
  function Committed(slots: seq<Slot>): nat {
    if slots == [] then 0
    else Committed(slots[..|slots| - 1]) + if !slots[|slots| - 1].optional then 1 else 0
  }

  predicate SkippedACommitment(slots: seq<Slot>) {
    exists s <- slots :: s.state == Skipped && !s.optional
  }

  /** Why a paused streak is paused. */
  datatype Pause = Running | CadenceZero | SkippedBecause(reason: Option<SkipReason>)

  datatype Streak = Streak(weeks: int, pause: Pause)

  function FirstSkipped(slots: seq<Slot>): Option<SkipReason>
    requires SkippedACommitment(slots)
  {
    if slots[0].state == Skipped && !slots[0].optional then slots[0].skipReason else FirstSkipped(slots[1..])
  }

  function StreakState(plan: WeekPlan): Streak {
    if plan.IsPaused() then Streak(plan.streakWeeks, CadenceZero)
    else if SkippedACommitment(plan.slots) && Shipped(plan.slots) == 0 then
      Streak(plan.streakWeeks, SkippedBecause(FirstSkipped(plan.slots)))
    else if Committed(plan.slots) > 0 && Shipped(plan.slots) >= Committed(plan.slots) then
      Streak(plan.streakWeeks + 1, Running)
    else Streak(plan.streakWeeks, Running)
  }

  // ── A move on a week ───────────────────────────────────────────────────

  /** The first slot of a day, however the day is written. */
  function Find(slots: seq<Slot>, day: string): (r: Option<nat>)
    ensures r.Some? ==> r.value < |slots|
  {
    if slots == [] then None
    else if Upper(slots[0].day) == Upper(day) then Some(0)
    else
      var rest := Find(slots[1..], day);
      if rest.None? then None else Some(rest.value + 1)
  }

  function ReplaceSlot(plan: WeekPlan, day: string, updated: Slot): WeekPlan {
    plan.(slots := Replaced(plan.slots, day, updated))
  }

  function Replaced(slots: seq<Slot>, day: string, updated: Slot): (after: seq<Slot>)
    ensures |after| == |slots|
    ensures forall i :: 0 <= i < |slots| ==> after[i] == if slots[i].day == day then updated else slots[i]
  {
    seq(|slots|, i requires 0 <= i < |slots| => if slots[i].day == day then updated else slots[i])
  }

  datatype Move = Move(day: string, edit: Edit)

  /** A handler's effect on the week it shows; a refused move changes nothing. */
  function Moved(plan: WeekPlan, m: Move): WeekPlan {
    var i := Find(plan.slots, m.day);
    if i.None? then plan
    else
      var slot := plan.slots[i.value];
      var updated := Edited(slot, m.edit);
      if updated.None? then plan else ReplaceSlot(plan, slot.day, updated.value)
  }

  function MovedAll(plan: WeekPlan, moves: seq<Move>): WeekPlan {
    if moves == [] then plan else Moved(MovedAll(plan, moves[..|moves| - 1]), moves[|moves| - 1])
  }

  ghost predicate DistinctDays(slots: seq<Slot>) {
    forall i, j :: 0 <= i < j < |slots| ==> slots[i].day != slots[j].day
  }

  // ── What the counts make of one replaced slot ──────────────────────────

  lemma {:induction false} CountsAfterUpdate(slots: seq<Slot>, i: nat, updated: Slot)
    requires i < |slots|
    ensures Shipped(slots[i := updated]) ==
              Shipped(slots) - (if slots[i].state == Published then 1 else 0)
              + (if updated.state == Published then 1 else 0)
    ensures updated.optional == slots[i].optional ==> Committed(slots[i := updated]) == Committed(slots)
  {
    var last := |slots| - 1;
    if i == last {
      assert slots[i := updated][..last] == slots[..last];
    } else {
      assert slots[i := updated][..last] == slots[..last][i := updated];
      CountsAfterUpdate(slots[..last], i, updated);
    }
  }

  lemma {:induction false} EditKeepsDay(slot: Slot, e: Edit)
    ensures Edited(slot, e).Some? ==>
              Edited(slot, e).value.day == slot.day && Edited(slot, e).value.date == slot.date
              && Edited(slot, e).value.optional == slot.optional
    ensures Edited(slot, e).Some? ==>
              slot.state != Published && (Edited(slot, e).value.state == Published <==> e.MarkPublished?)
  {
  }

  /** With distinct days a move updates the one slot it found, and nothing else of the plan. */
  lemma {:induction false} MoveIsOneUpdate(plan: WeekPlan, m: Move)
    requires DistinctDays(plan.slots)
    ensures Moved(plan, m) == plan ||
            exists i :: 0 <= i < |plan.slots| && Edited(plan.slots[i], m.edit).Some? &&
              Moved(plan, m) == plan.(slots := plan.slots[i := Edited(plan.slots[i], m.edit).value])
    ensures DistinctDays(Moved(plan, m).slots) && |Moved(plan, m).slots| == |plan.slots|
  {
    hide Edited, Find;
    var found := Find(plan.slots, m.day);
    if found.Some? && Edited(plan.slots[found.value], m.edit).Some? {
      var i := found.value;
      EditKeepsDay(plan.slots[i], m.edit);
      var updated := Edited(plan.slots[i], m.edit).value;
      assert Replaced(plan.slots, plan.slots[i].day, updated) == plan.slots[i := updated];
    }
  }

  lemma {:induction false} FindIsFirst(slots: seq<Slot>, day: string)
    ensures Find(slots, day) == None ==> forall j :: 0 <= j < |slots| ==> !SameWord(slots[j].day, day)
    ensures Find(slots, day).Some? ==>
              SameWord(slots[Find(slots, day).value].day, day)
              && forall j :: 0 <= j < Find(slots, day).value ==> !SameWord(slots[j].day, day)
  {
    hide SameWord, Upper;
    if slots != [] {
      CaseIsForgotten(slots[0].day, day);
      FindIsFirst(slots[1..], day);
      assert forall j :: 0 < j < |slots| ==> slots[j] == slots[1..][j - 1];
    }
  }

  /** The slot a move edits is the first one of the day it names, whatever case the day is written
      in; with no such slot, or an edit refused, the week stays as it is. */
  lemma {:induction false} MoveIsOfTheDayNamed(plan: WeekPlan, m: Move)
    requires DistinctDays(plan.slots)
    ensures (forall j :: 0 <= j < |plan.slots| ==> !SameWord(plan.slots[j].day, m.day)) ==> Moved(plan, m) == plan
    ensures forall i :: 0 <= i < |plan.slots| && SameWord(plan.slots[i].day, m.day)
                        && (forall j :: 0 <= j < i ==> !SameWord(plan.slots[j].day, m.day)) ==>
              Moved(plan, m) == if Edited(plan.slots[i], m.edit).None? then plan
                                else plan.(slots := plan.slots[i := Edited(plan.slots[i], m.edit).value])
  {
    hide Edited, Find, SameWord;
    FindIsFirst(plan.slots, m.day);
    var found := Find(plan.slots, m.day);
    if found.Some? && Edited(plan.slots[found.value], m.edit).Some? {
      var i := found.value;
      EditKeepsDay(plan.slots[i], m.edit);
      var updated := Edited(plan.slots[i], m.edit).value;
      assert Replaced(plan.slots, plan.slots[i].day, updated) == plan.slots[i := updated];
    }
  }

  /** Which edits are refused: any of a published slot, marking a skipped one published, skipping a
      commitment without a reason, and a redraft with no drafts left. */
  lemma {:induction false} RefusedExactly(slot: Slot, e: Edit)
    ensures Edited(slot, e) == None <==>
              || slot.state == Published
              || (e.MarkPublished? && slot.state == Skipped)
              || (e.Skip? && !slot.optional && e.reason == None)
              || (e.Redraft? && |e.drafts| == 0)
  {
  }

  /** What an edit touches: the state always; else publishing sets when, a skip sets why, and a
      redraft the drafts, and nothing more. */
  lemma {:induction false} EditsTouch(slot: Slot, e: Edit)
    requires Edited(slot, e).Some?
    ensures var after := Edited(slot, e).value;
            && (e.MarkPublished? ==>
                  after == slot.(state := after.state, publishedAt := after.publishedAt)
                  && after.state == Published && after.publishedAt == Some(e.at))
            && (e.Skip? ==>
                  after == slot.(state := after.state, skipReason := after.skipReason, skipNote := after.skipNote)
                  && after.state == Skipped && after.skipReason == e.reason && after.skipNote == e.note)
            && (e.Redraft? ==>
                  after == slot.(state := after.state, drafts := after.drafts)
                  && after.state == DraftReady && after.drafts == e.drafts)
  {
  }

  /** One move: a published slot stays exactly as it is, and the number changes only when the
      move marks a slot published, and then upward. */
  lemma {:induction false} OneMove(plan: WeekPlan, m: Move)
    requires DistinctDays(plan.slots)
    ensures var after := Moved(plan, m);
            && |after.slots| == |plan.slots| && DistinctDays(after.slots) && after.streakWeeks == plan.streakWeeks
            && (forall i :: 0 <= i < |plan.slots| && plan.slots[i].state == Published ==>
                  after.slots[i] == plan.slots[i])
            && StreakState(after).weeks >= StreakState(plan).weeks
            && (StreakState(after).weeks != StreakState(plan).weeks ==> m.edit.MarkPublished?)
  {
    hide Shipped, Committed, Find, Moved, StreakState, Edited;
    MoveIsOneUpdate(plan, m);
    var after := Moved(plan, m);
    if after != plan {
      var i :| 0 <= i < |plan.slots| && Edited(plan.slots[i], m.edit).Some? &&
        after == plan.(slots := plan.slots[i := Edited(plan.slots[i], m.edit).value]);
      EditKeepsDay(plan.slots[i], m.edit);
      CountsAfterUpdate(plan.slots, i, Edited(plan.slots[i], m.edit).value);
      StreakNumber(plan);
      StreakNumber(after);
    }
  }

  /** The number, without the pause: one more than carried exactly when the week is not paused,
      something was committed, and as much was shipped. */
  lemma {:induction false} StreakNumber(plan: WeekPlan)
    ensures StreakState(plan).weeks ==
              plan.streakWeeks + if !plan.IsPaused() && Shipped(plan.slots) >= Committed(plan.slots) > 0 then 1 else 0
  {
  }

  /** Over any sequence of moves a published slot stays published, and the number stays between
      the carried value and one more and never falls. */
  lemma {:induction false} MovesNeverLoseAPost(plan: WeekPlan, moves: seq<Move>)
    requires DistinctDays(plan.slots)
    ensures var after := MovedAll(plan, moves);
            && |after.slots| == |plan.slots| && DistinctDays(after.slots)
            && (forall i :: 0 <= i < |plan.slots| && plan.slots[i].state == Published ==>
                  after.slots[i] == plan.slots[i])
            && plan.streakWeeks <= StreakState(plan).weeks <= StreakState(after).weeks <= plan.streakWeeks + 1
            && (StreakState(after).weeks != StreakState(plan).weeks ==>
                  exists k :: 0 <= k < |moves| && moves[k].edit.MarkPublished?)
  {
    hide StreakState, Moved;
    StreakNumber(plan);
    if moves != [] {
      var front := moves[..|moves| - 1];
      var before := MovedAll(plan, front);
      MovesNeverLoseAPost(plan, front);
      OneMove(before, moves[|moves| - 1]);
      StreakNumber(MovedAll(plan, moves));
      KeepsStreakWeeks(plan, front);
      assert forall k :: 0 <= k < |front| ==> front[k] == moves[k];
    }
  }

  lemma {:induction false} KeepsStreakWeeks(plan: WeekPlan, moves: seq<Move>)
    ensures MovedAll(plan, moves).streakWeeks == plan.streakWeeks
  {
    if moves != [] {
      KeepsStreakWeeks(plan, moves[..|moves| - 1]);
    }
  }

  ghost predicate SkippedCommitment(s: Slot) {
    s.state == Skipped && !s.optional
  }

  lemma {:induction false} NothingShipped(slots: seq<Slot>)
    ensures Shipped(slots) == 0 <==> forall s <- slots :: s.state != Published
  {
    if slots != [] {
      var front := slots[..|slots| - 1];
      NothingShipped(front);
      assert slots == front + [slots[|slots| - 1]];
    }
  }

  lemma {:induction false} FirstSkippedIsFirst(slots: seq<Slot>) returns (i: nat)
    requires SkippedACommitment(slots)
    ensures i < |slots| && SkippedCommitment(slots[i]) && FirstSkipped(slots) == slots[i].skipReason
    ensures forall j :: 0 <= j < i ==> !SkippedCommitment(slots[j])
  {
    i := 0;
    if !SkippedCommitment(slots[0]) {
      assert slots == [slots[0]] + slots[1..];
      i := FirstSkippedIsFirst(slots[1..]);
      i := i + 1;
    }
  }

  /** A skip pauses, and never resets: the streak stands still on a paused week, and on one where
      a committed slot was skipped and nothing shipped; then the first skipped one says why. */
  lemma {:induction false} SkipPausesNeverResets(plan: WeekPlan)
    ensures StreakState(plan).weeks >= plan.streakWeeks
    ensures StreakState(plan).pause != Running <==>
              plan.IsPaused() || (SkippedACommitment(plan.slots) && forall s <- plan.slots :: s.state != Published)
    ensures StreakState(plan).pause != Running ==> StreakState(plan).weeks == plan.streakWeeks
    ensures StreakState(plan).pause.SkippedBecause? ==>
              exists i :: 0 <= i < |plan.slots| && SkippedCommitment(plan.slots[i])
                          && (forall j :: 0 <= j < i ==> !SkippedCommitment(plan.slots[j]))
                          && StreakState(plan).pause.reason == plan.slots[i].skipReason
  {
    NothingShipped(plan.slots);
    if SkippedACommitment(plan.slots) {
      var i := FirstSkippedIsFirst(plan.slots);
    }
  }

  /** What the pause says: `CadenceZero` exactly on a paused week, that is, one paused until some
      day, one marked paused, or one not marked either way whose cadence is zero; a skip exactly on
      any other week with a skipped commitment and nothing shipped. */
  lemma {:induction false} PauseExactly(plan: WeekPlan)
    ensures var onHold := plan.pausedUntil != None || plan.paused == Some(true)
                          || (plan.paused == None && plan.cadencePerWeek == 0);
            && (plan.IsPaused() <==> onHold)
            && (StreakState(plan).pause == CadenceZero <==> onHold)
            && (StreakState(plan).pause.SkippedBecause? <==>
                  && !onHold && (forall s <- plan.slots :: s.state != Published)
                  && exists s <- plan.slots :: s.state == Skipped && !s.optional)
  {
    NothingShipped(plan.slots);
  }

  // ── "Every committed slot shipped" ─────────────────────────────────────

  function ShippedCommitted(slots: seq<Slot>): nat {
    if slots == [] then 0
    else
      var last := slots[|slots| - 1];
      ShippedCommitted(slots[..|slots| - 1]) + if last.state == Published && !last.optional then 1 else 0
  }

  function ShippedOptional(slots: seq<Slot>): nat {
    if slots == [] then 0
    else
      var last := slots[|slots| - 1];
      ShippedOptional(slots[..|slots| - 1]) + if last.state == Published && last.optional then 1 else 0
  }

  ghost predicate EveryCommitmentShipped(slots: seq<Slot>) {
    forall i :: 0 <= i < |slots| && !slots[i].optional ==> slots[i].state == Published
  }

  lemma {:induction false} ShippedSplits(slots: seq<Slot>)
    ensures Shipped(slots) == ShippedCommitted(slots) + ShippedOptional(slots)
    ensures ShippedCommitted(slots) <= Committed(slots)
    ensures ShippedCommitted(slots) == Committed(slots) <==> EveryCommitmentShipped(slots)
  {
    if slots != [] {
      var front := slots[..|slots| - 1];
      assert forall i :: 0 <= i < |front| ==> front[i] == slots[i];
      ShippedSplits(front);
      assert EveryCommitmentShipped(slots) ==> EveryCommitmentShipped(front);
      assert slots == front + [slots[|slots| - 1]];
    }
  }

  /** The number advances "when every committed slot shipped", unless optional posts stand in for
      a commitment: on a running week with commitments the two agree exactly when nothing is
      missing or the optional posts do not make up for what is. */
  lemma {:induction false} AdvancesWhenEveryCommitmentShipped(plan: WeekPlan)
    requires !plan.IsPaused() && Committed(plan.slots) > 0
    ensures (StreakState(plan).weeks == plan.streakWeeks + 1 <==> EveryCommitmentShipped(plan.slots))
            <==>
            (var missing := Committed(plan.slots) - ShippedCommitted(plan.slots);
             missing == 0 || ShippedOptional(plan.slots) < missing)
  {
    StreakNumber(plan);
    ShippedSplits(plan.slots);
  }

  /** One commitment shipped, one skipped, and an optional post: the streak advances. */
  lemma {:induction false} OptionalPostStandsIn(plan: WeekPlan, mon: Slot, thu: Slot, sat: Slot)
    requires plan.slots == [mon, thu, sat] && !plan.IsPaused()
    requires mon.state == Published && !mon.optional && thu.state == Skipped && !thu.optional
    requires sat.state == Published && sat.optional
    ensures StreakState(plan).weeks == plan.streakWeeks + 1
  {
    assert plan.slots[..2] == [mon, thu] && [mon, thu][..1] == [mon] && [mon][..0] == [];
    assert Shipped([mon]) == 1 && Committed([mon]) == 1;
    assert Shipped([mon, thu]) == 1 && Committed([mon, thu]) == 2;
    StreakNumber(plan);
  }
}
