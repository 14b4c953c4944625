/**
 The content loop in two tables: one row per slot, one row per week.

 Rows are converted to and from the plan, a week is saved and loaded back in whatever
 order the database lists its rows, and any number of load-edit-save sessions run at once.
 */
module PlanStore {
  import opened Basics
  import opened Posts

  datatype SlotRow = SlotRow(
    user: string, weekStart: Date, day: string, slotDate: Date, timeLabel: Option<string>, state: string,
    optional: bool, drafts: seq<Draft>, publishedAt: Option<string>, skipReason: Option<string>,
    skipNote: Option<string>)

  datatype WeekRow = WeekRow(
    user: string, weekStart: Date, cadencePerWeek: Option<int>, cadenceDays: seq<string>,
    streakWeeks: Option<int>, pausedUntil: Option<Date>)

  function StateName(s: SlotState): string {
    match s
    case Pending => "pending"
    case DraftReady => "draft_ready"
    case Published => "published"
    case Skipped => "skipped"
  }

  /** An empty state reads as pending; an unknown one raises. */
  function StateNamed(name: string): Option<SlotState> {
    if name == "" || name == "pending" then Some(Pending)
    else if name == "draft_ready" then Some(DraftReady)
    else if name == "published" then Some(Published)
    else if name == "skipped" then Some(Skipped)
    else None
  }

  function ReasonName(r: SkipReason): string {
    match r
    case NoTime => "no_time"
    case NotMyTopic => "not_my_topic"
    case DraftsWeak => "drafts_weak"
    case Other => "other"
  }

  function ReasonNamed(name: string): Option<SkipReason> {
    if name == "no_time" then Some(NoTime)
    else if name == "not_my_topic" then Some(NotMyTopic)
    else if name == "drafts_weak" then Some(DraftsWeak)
    else if name == "other" then Some(Other)
    else None
  }

  function SlotToRow(user: string, weekStart: Date, s: Slot): SlotRow {
    SlotRow(user, weekStart, s.day, s.date, Some(s.timeLabel), StateName(s.state), s.optional, s.drafts, s.publishedAt,
            if s.skipReason.Some? then Some(ReasonName(s.skipReason.value)) else None, s.skipNote)
  }

  /** The slot of a row, or `None` where reading it raises. */
  function SlotFromRow(row: SlotRow): Option<Slot> {
    var state := StateNamed(row.state);
    var reasonless := row.skipReason.None? || row.skipReason.value == "";
    var reason := if reasonless then None else ReasonNamed(row.skipReason.value);
    if state.None? || (!reasonless && reason.None?) then None
    else
      Some(Slot(row.day, row.slotDate,
                if row.timeLabel.None? || row.timeLabel.value == "" then "09:00" else row.timeLabel.value,
                state.value, row.optional, row.drafts, row.publishedAt, reason, row.skipNote))
  }

  /** A slot survives its row exactly when its time label is not empty. */
  lemma {:induction false} SlotRoundTrip(user: string, weekStart: Date, s: Slot)
    ensures SlotFromRow(SlotToRow(user, weekStart, s)) == Some(s) <==> s.timeLabel != ""
    ensures SlotFromRow(SlotToRow(user, weekStart, s))
            == Some(s.(timeLabel := if s.timeLabel == "" then "09:00" else s.timeLabel))
  {
  }

  function WeekToRow(user: string, plan: WeekPlan): WeekRow {
    WeekRow(user, plan.weekStart, Some(plan.cadencePerWeek), plan.cadenceDays, Some(plan.streakWeeks), plan.pausedUntil)
  }

  // ── Reading a week back ────────────────────────────────────────────────

  function Slots(rows: seq<SlotRow>): Option<seq<Slot>> {
    if rows == [] then Some([])
    else
      var front, last := Slots(rows[..|rows| - 1]), SlotFromRow(rows[|rows| - 1]);
      if front.None? || last.None? then None else Some(front.value + [last.value])
  }

  /** A stable insertion from the right, by date. */
  function InsertByDate(slots: seq<Slot>, s: Slot): seq<Slot> {
    if slots == [] || slots[|slots| - 1].date <= s.date then slots + [s]
    else InsertByDate(slots[..|slots| - 1], s) + [slots[|slots| - 1]]
  }

  function SortByDate(slots: seq<Slot>): seq<Slot> {
    if slots == [] then [] else InsertByDate(SortByDate(slots[..|slots| - 1]), slots[|slots| - 1])
  }

  datatype Loaded = NoWeek | Planned(plan: WeekPlan) | LoadRaised

  /** The week from the rows a select returned; the WEEK row says the week exists. */
  function PlanFromRows(weekStart: Date, rows: seq<SlotRow>, week: Option<WeekRow>): Loaded {
    if rows == [] && week.None? then NoWeek
    else
      var slots := Slots(rows);
      if slots.None? then LoadRaised
      else
        Planned(WeekPlan(
          weekStart, SortByDate(slots.value),
          if week.Some? && week.value.cadencePerWeek.Some? then week.value.cadencePerWeek.value else 2,
          if week.Some? && week.value.cadenceDays != [] then week.value.cadenceDays else ["MON", "THU"],
          if week.Some? then week.value.streakWeeks.GetOr(0) else 0,
          if week.Some? then week.value.pausedUntil else None,
          None))
  }

  /** The words the two tables use for states and reasons. */
  lemma {:induction false} NamesInTheTables(user: string, weekStart: Date, s: Slot)
    ensures var row := SlotToRow(user, weekStart, s);
            && row.state == (if s.state == Pending then "pending" else if s.state == DraftReady then "draft_ready"
                             else if s.state == Published then "published" else "skipped")
            && (s.skipReason == None ==> row.skipReason == None)
            && (s.skipReason == Some(NoTime) ==> row.skipReason == Some("no_time"))
            && (s.skipReason == Some(NotMyTopic) ==> row.skipReason == Some("not_my_topic"))
            && (s.skipReason == Some(DraftsWeak) ==> row.skipReason == Some("drafts_weak"))
            && (s.skipReason == Some(Other) ==> row.skipReason == Some("other"))
            && row.user == user && row.weekStart == weekStart
  {
  }

  /** A row reads back unless its state or its reason is a word nobody writes; an empty word is no
      word, and a row without a time label is at nine. */
  lemma {:induction false} RowReadsExactly(row: SlotRow)
    ensures SlotFromRow(row) == None <==>
              || !(row.state == "" || row.state == "pending" || row.state == "draft_ready" || row.state == "published"
                   || row.state == "skipped")
              || (row.skipReason.Some? &&
                    var word := row.skipReason.value;
                    !(word == "" || word == "no_time" || word == "not_my_topic" || word == "drafts_weak"
                      || word == "other"))
    ensures SlotFromRow(row).Some? && row.state == "" ==> SlotFromRow(row).value.state == Pending
    ensures SlotFromRow(row).Some? && (row.skipReason.None? || row.skipReason.value == "") ==>
              SlotFromRow(row).value.skipReason == None
    ensures SlotFromRow(row).Some? && (row.timeLabel.None? || row.timeLabel.value == "") ==>
              SlotFromRow(row).value.timeLabel == "09:00"
  {
  }

  /** What a load answers: there is no week only when there is no row of either kind; it raises
      exactly when some slot row cannot be read; slots without a week row load into the week as it
      is by default, and so do a week row's missing fields. */
  lemma {:induction false} LoadsExactly(weekStart: Date, rows: seq<SlotRow>, week: Option<WeekRow>)
    ensures var r := PlanFromRows(weekStart, rows, week);
            && (r == NoWeek <==> |rows| == 0 && week == None)
            && (r == LoadRaised <==> exists row <- rows :: SlotFromRow(row) == None)
            && (r.Planned? ==>
                  && r.plan.weekStart == weekStart && r.plan.paused == None
                  && |r.plan.slots| == |rows|
                  && (forall row <- rows :: SlotFromRow(row).Some? && SlotFromRow(row).value in r.plan.slots)
                  && (week == None ==>
                        r.plan.cadencePerWeek == 2 && r.plan.cadenceDays == ["MON", "THU"]
                        && r.plan.streakWeeks == 0 && r.plan.pausedUntil == None)
                  && (week.Some? ==>
                        var w := week.value;
                        && (w.cadencePerWeek == None ==> r.plan.cadencePerWeek == 2)
                        && (w.cadencePerWeek.Some? ==> r.plan.cadencePerWeek == w.cadencePerWeek.value)
                        && r.plan.cadenceDays == (if |w.cadenceDays| == 0 then ["MON", "THU"] else w.cadenceDays)
                        && (w.streakWeeks == None ==> r.plan.streakWeeks == 0)
                        && (w.streakWeeks.Some? ==> r.plan.streakWeeks == w.streakWeeks.value)
                        && r.plan.pausedUntil == w.pausedUntil))
  {
    hide SlotFromRow, SortByDate;
    if exists row <- rows :: SlotFromRow(row) == None {
      UnreadableRow(rows);
    } else {
      SlotsReadBack(rows);
      var slots := Slots(rows).value;
      SortKeeps(slots);
      assert |multiset(SortByDate(slots))| == |SortByDate(slots)| && |multiset(slots)| == |slots|;
      forall row | row in rows ensures SlotFromRow(row).Some? && SlotFromRow(row).value in SortByDate(slots) {
        var i :| 0 <= i < |rows| && rows[i] == row;
        assert slots[i] in multiset(SortByDate(slots));
      }
    }
  }

  lemma {:induction false} UnreadableRow(rows: seq<SlotRow>)
    requires exists row <- rows :: SlotFromRow(row) == None
    ensures Slots(rows) == None
  {
    hide SlotFromRow;
    var front, last := rows[..|rows| - 1], rows[|rows| - 1];
    assert rows == front + [last];
    if SlotFromRow(last).Some? {
      UnreadableRow(front);
    }
  }

  type SlotKey = (string, Date, string)

  /** The rows a select may return for one user and week: each stored row once, in any order. */
  ghost predicate IsListing(table: map<SlotKey, SlotRow>, user: string, weekStart: Date, rows: seq<SlotRow>) {
    && (forall i :: 0 <= i < |rows| ==>
          (user, weekStart, rows[i].day) in table && table[(user, weekStart, rows[i].day)] == rows[i])
    && (forall day :: (user, weekStart, day) in table ==>
          exists i :: 0 <= i < |rows| && rows[i] == table[(user, weekStart, day)])
    && (forall i, j :: 0 <= i < j < |rows| ==> rows[i].day != rows[j].day)
  }

  function SavedSlots(table: map<SlotKey, SlotRow>, user: string, weekStart: Date, slots: seq<Slot>)
    : map<SlotKey, SlotRow>
  {
    if slots == [] then table
    else
      var last := slots[|slots| - 1];
      var before := SavedSlots(table, user, weekStart, slots[..|slots| - 1]);
      before[(user, weekStart, last.day) := SlotToRow(user, weekStart, last)]
  }

  class SupabasePlanStore {
    var slots: map<SlotKey, SlotRow>
    var weeks: map<(string, Date), WeekRow>

    constructor ()
      ensures slots == map[] && weeks == map[]
    {
      slots, weeks := map[], map[];
    }

    /** `order` is the database's choice. */
    method Load(user: string, weekStart: Date, order: seq<SlotRow>) returns (r: Loaded)
      requires IsListing(slots, user, weekStart, order)
      ensures var week := if (user, weekStart) in weeks then Some(weeks[(user, weekStart)]) else None;
              r == PlanFromRows(weekStart, order, week)
    {
      var week := if (user, weekStart) in weeks then Some(weeks[(user, weekStart)]) else None;
      r := PlanFromRows(weekStart, order, week);
    }

    /** One row. */
    method SaveSlot(user: string, weekStart: Date, slot: Slot)
      modifies this`slots
      ensures slots == old(slots)[(user, weekStart, slot.day) := SlotToRow(user, weekStart, slot)]
    {
      slots := slots[(user, weekStart, slot.day) := SlotToRow(user, weekStart, slot)];
    }

    method SaveWeek(user: string, plan: WeekPlan)
      modifies this
      ensures weeks == old(weeks)[(user, plan.weekStart) := WeekToRow(user, plan)]
      ensures slots == SavedSlots(old(slots), user, plan.weekStart, plan.slots)
    {
      weeks := weeks[(user, plan.weekStart) := WeekToRow(user, plan)];
      ghost var before := slots;
      for i := 0 to |plan.slots|
        invariant weeks == old(weeks)[(user, plan.weekStart) := WeekToRow(user, plan)]
        invariant slots == SavedSlots(before, user, plan.weekStart, plan.slots[..i])
      {
        assert plan.slots[..i + 1][..i] == plan.slots[..i];
        SaveSlot(user, plan.weekStart, plan.slots[i]);
      }
      assert plan.slots[..|plan.slots|] == plan.slots;
    }
  }

  // ── Sorting ────────────────────────────────────────────────────────────

  ghost predicate SortedByDate(slots: seq<Slot>) {
    forall i, j :: 0 <= i < j < |slots| ==> slots[i].date <= slots[j].date
  }

  ghost predicate StrictlySorted(slots: seq<Slot>) {
    forall i, j :: 0 <= i < j < |slots| ==> slots[i].date < slots[j].date
  }

  ghost predicate DistinctDates(slots: seq<Slot>) {
    forall i, j :: 0 <= i < j < |slots| ==> slots[i].date != slots[j].date
  }

  ghost predicate SameSlots(a: seq<Slot>, b: seq<Slot>) {
    forall s :: s in a <==> s in b
  }

  lemma {:induction false} InsertKeeps(slots: seq<Slot>, s: Slot)
    requires SortedByDate(slots)
    ensures SortedByDate(InsertByDate(slots, s))
    ensures multiset(InsertByDate(slots, s)) == multiset(slots) + multiset{s}
  {
    hide SortedByDate;
    if slots != [] && slots[|slots| - 1].date > s.date {
      var front, last := slots[..|slots| - 1], slots[|slots| - 1];
      SortedFront(slots);
      InsertKeeps(front, s);
      assert slots == front + [last];
      var inserted := InsertByDate(front, s);
      forall t | t in inserted ensures t.date <= last.date {
        assert t in multiset(inserted);
        assert t in front || t == s;
      }
      SortedWithLast(inserted, last);
    } else {
      if slots != [] {
        SortedFront(slots);
      }
      SortedWithLast(slots, s);
    }
  }

  lemma {:induction false} SortedFront(slots: seq<Slot>)
    requires SortedByDate(slots) && slots != []
    ensures SortedByDate(slots[..|slots| - 1]) && forall t <- slots :: t.date <= slots[|slots| - 1].date
  {
  }

  lemma {:induction false} SortedWithLast(slots: seq<Slot>, last: Slot)
    requires SortedByDate(slots) && forall t <- slots :: t.date <= last.date
    ensures SortedByDate(slots + [last])
  {
  }

  /** Sorting keeps the slots, whatever dates they share, and puts them in date order. */
  lemma {:induction false} SortKeeps(slots: seq<Slot>)
    ensures SortedByDate(SortByDate(slots)) && multiset(SortByDate(slots)) == multiset(slots)
  {
    if slots != [] {
      var front, last := slots[..|slots| - 1], slots[|slots| - 1];
      SortKeeps(front);
      assert slots == front + [last];
      InsertKeeps(SortByDate(front), last);
    }
  }

  ghost predicate NoRepeats(slots: seq<Slot>) {
    forall i, j :: 0 <= i < j < |slots| ==> slots[i] != slots[j]
  }

  lemma {:induction false} CountOnce(slots: seq<Slot>, s: Slot)
    requires NoRepeats(slots)
    ensures multiset(slots)[s] == if s in slots then 1 else 0
  {
    if slots != [] {
      var front, last := slots[..|slots| - 1], slots[|slots| - 1];
      assert slots == front + [last];
      CountOnce(front, s);
    }
  }

  lemma {:induction false} SameMultiset(a: seq<Slot>, b: seq<Slot>)
    requires NoRepeats(a) && NoRepeats(b) && SameSlots(a, b)
    ensures multiset(a) == multiset(b)
  {
    forall s ensures multiset(a)[s] == multiset(b)[s] {
      CountOnce(a, s);
      CountOnce(b, s);
    }
  }

  lemma {:induction false} CountTwice(slots: seq<Slot>, i: nat, j: nat)
    requires i < j < |slots| && slots[i] == slots[j]
    ensures multiset(slots)[slots[i]] >= 2
  {
    assert slots == slots[..j] + [slots[j]] + slots[j + 1..];
    assert slots[..j][i] == slots[i];
  }

  /** Sorted slots that are, in some order, slots of distinct dates stand in strict order. */
  lemma {:induction false} StrictWhenDistinct(sorted: seq<Slot>, slots: seq<Slot>)
    requires SortedByDate(sorted) && DistinctDates(slots) && multiset(sorted) == multiset(slots)
    ensures StrictlySorted(sorted) && SameSlots(sorted, slots)
  {
    forall s ensures s in sorted <==> s in slots {
      assert s in multiset(sorted) <==> s in multiset(slots);
    }
    forall i, j | 0 <= i < j < |sorted| ensures sorted[i].date < sorted[j].date {
      if sorted[i] == sorted[j] {
        CountTwice(sorted, i, j);
        CountOnce(slots, sorted[i]);
      }
      assert sorted[i] in sorted && sorted[j] in sorted;
      var k :| 0 <= k < |slots| && slots[k] == sorted[i];
      var l :| 0 <= l < |slots| && slots[l] == sorted[j];
      assert k != l;
    }
  }

  /** Slots of distinct dates have one sorted list, whatever order they come in. */
  lemma {:induction false} OneSortedList(a: seq<Slot>, b: seq<Slot>)
    requires SortedByDate(a) && SortedByDate(b) && DistinctDates(b) && multiset(a) == multiset(b)
    ensures a == b
  {
    StrictWhenDistinct(a, b);
    StrictWhenDistinct(b, b);
    SortedListsAreEqual(a, b);
  }

  lemma {:induction false} SortedListsAreEqual(a: seq<Slot>, b: seq<Slot>)
    requires StrictlySorted(a) && StrictlySorted(b) && SameSlots(a, b)
    ensures a == b
  {
    assert (a != [] ==> a[0] in a) && (b != [] ==> b[0] in b);
    if a != [] {
      assert a[0] in b && b[0] in a;
      assert a[0] == b[0];
      forall s ensures s in a[1..] <==> s in b[1..] {
        assert s in a <==> s in b;
        assert a == [a[0]] + a[1..] && b == [b[0]] + b[1..];
      }
      SortedListsAreEqual(a[1..], b[1..]);
    }
  }

  // ── What a save leaves to load ─────────────────────────────────────────

  /** Slots that rows can carry: one per day, and no empty time label. */
  ghost predicate Storable(slots: seq<Slot>) {
    DistinctDays(slots) && forall i :: 0 <= i < |slots| ==> slots[i].timeLabel != ""
  }

  /** The rows of one week are exactly these slots. */
  ghost predicate Holds(table: map<SlotKey, SlotRow>, user: string, weekStart: Date, slots: seq<Slot>) {
    && (forall day :: (user, weekStart, day) in table ==> exists i :: 0 <= i < |slots| && slots[i].day == day)
    && (forall i :: 0 <= i < |slots| ==>
          (user, weekStart, slots[i].day) in table
          && table[(user, weekStart, slots[i].day)] == SlotToRow(user, weekStart, slots[i]))
  }

  lemma {:induction false} SavedSlotsAre(user: string, weekStart: Date, slots: seq<Slot>)
    requires DistinctDays(slots)
    ensures Holds(SavedSlots(map[], user, weekStart, slots), user, weekStart, slots)
  {
    hide SlotToRow;
    if slots != [] {
      var front := slots[..|slots| - 1];
      assert forall i :: 0 <= i < |front| ==> front[i] == slots[i];
      SavedSlotsAre(user, weekStart, front);
    }
  }

  /** Rows that all read back give back their slots, one for one. */
  lemma {:induction false} SlotsReadBack(rows: seq<SlotRow>)
    requires forall i :: 0 <= i < |rows| ==> SlotFromRow(rows[i]).Some?
    ensures Slots(rows).Some? && |Slots(rows).value| == |rows|
    ensures forall i :: 0 <= i < |rows| ==> SlotFromRow(rows[i]) == Some(Slots(rows).value[i])
  {
    if rows != [] {
      var front := rows[..|rows| - 1];
      assert forall i :: 0 <= i < |front| ==> front[i] == rows[i];
      SlotsReadBack(front);
    }
  }

  /** Reading a listing gives exactly the stored slots, whatever the listing's order. */
  lemma {:induction false} ListingReadsBack(table: map<SlotKey, SlotRow>, user: string, weekStart: Date,
                                            rows: seq<SlotRow>, slots: seq<Slot>)
    requires IsListing(table, user, weekStart, rows) && Storable(slots) && Holds(table, user, weekStart, slots)
    ensures Slots(rows).Some? && multiset(Slots(rows).value) == multiset(slots)
  {
    hide SlotToRow, SlotFromRow, Slots;
    forall i | 0 <= i < |rows| ensures IsSomeSlot(rows[i], slots) && SlotFromRow(rows[i]).Some? {
      var k := RowIsASlot(table, user, weekStart, rows, slots, i);
    }
    SlotsReadBack(rows);
    var read := Slots(rows).value;
    forall s | s in slots ensures s in read {
      var k :| 0 <= k < |slots| && slots[k] == s;
      var i :| 0 <= i < |rows| && rows[i] == table[(user, weekStart, s.day)];
      SlotRoundTrip(user, weekStart, s);
      assert read[i] == s;
    }
    ReadSlotsAreStored(rows, read, slots);
    SameMultiset(read, slots);
  }

  ghost predicate ReadsAs(row: SlotRow, s: Slot) {
    s.day == row.day && SlotFromRow(row) == Some(s)
  }

  ghost predicate IsSomeSlot(row: SlotRow, slots: seq<Slot>) {
    exists k :: 0 <= k < |slots| && ReadsAs(row, slots[k])
  }

  lemma {:induction false} RowIsASlot(table: map<SlotKey, SlotRow>, user: string, weekStart: Date, rows: seq<SlotRow>,
                                      slots: seq<Slot>, i: nat)
    returns (k: nat)
    requires IsListing(table, user, weekStart, rows) && Storable(slots) && Holds(table, user, weekStart, slots)
             && i < |rows|
    ensures k < |slots| && ReadsAs(rows[i], slots[k])
  {
    hide SlotToRow, SlotFromRow;
    assert (user, weekStart, rows[i].day) in table;
    k :| 0 <= k < |slots| && slots[k].day == rows[i].day;
    SlotRoundTrip(user, weekStart, slots[k]);
  }

  lemma {:induction false} ReadSlotsAreStored(rows: seq<SlotRow>, read: seq<Slot>, slots: seq<Slot>)
    requires |read| == |rows|
    requires forall i, j :: 0 <= i < j < |rows| ==> rows[i].day != rows[j].day
    requires forall i :: 0 <= i < |rows| ==> IsSomeSlot(rows[i], slots)
    requires forall i :: 0 <= i < |rows| ==> SlotFromRow(rows[i]) == Some(read[i])
    ensures NoRepeats(read)
    ensures forall s <- read :: s in slots
  {
    hide SlotFromRow;
    forall i | 0 <= i < |read| ensures read[i].day == rows[i].day && read[i] in slots {
      assert IsSomeSlot(rows[i], slots);
      var k :| 0 <= k < |slots| && ReadsAs(rows[i], slots[k]);
    }
  }

  /** A week saved into empty tables loads back as it was, its slots in date order: drafts, skips,
      streak, pause, and a cadence of zero that stays zero. Slots that share a date may come in
      either order; without such slots the order is settled too. */
  lemma {:induction false} SaveThenLoad(user: string, plan: WeekPlan, rows: seq<SlotRow>) returns (loaded: seq<Slot>)
    requires Storable(plan.slots) && plan.cadenceDays != [] && plan.paused == None
    requires IsListing(SavedSlots(map[], user, plan.weekStart, plan.slots), user, plan.weekStart, rows)
    ensures PlanFromRows(plan.weekStart, rows, Some(WeekToRow(user, plan))) == Planned(plan.(slots := loaded))
    ensures WeekToRow(user, plan).user == user && WeekToRow(user, plan).weekStart == plan.weekStart
    ensures SortedByDate(loaded) && multiset(loaded) == multiset(plan.slots)
    ensures DistinctDates(plan.slots) ==> loaded == SortByDate(plan.slots)
  {
    hide SlotToRow, Slots, SortByDate, IsListing, Holds;
    SavedSlotsAre(user, plan.weekStart, plan.slots);
    ListingReadsBack(SavedSlots(map[], user, plan.weekStart, plan.slots), user, plan.weekStart, rows, plan.slots);
    loaded := SortByDate(Slots(rows).value);
    SortKeeps(Slots(rows).value);
    SortKeeps(plan.slots);
    if DistinctDates(plan.slots) {
      StrictWhenDistinct(SortByDate(plan.slots), plan.slots);
      OneSortedList(loaded, SortByDate(plan.slots));
    }
  }

  /** Saving one slot of a stored week changes exactly that slot of what loads, and in a week
      without shared dates leaves every slot in its place. */
  lemma {:induction false} SaveSlotChangesOneSlot(table: map<SlotKey, SlotRow>, user: string, weekStart: Date,
                                                  slots: seq<Slot>, i: nat,
                               updated: Slot, rows: seq<SlotRow>)
    requires Storable(slots) && i < |slots| && updated.day == slots[i].day && updated.timeLabel != ""
    requires Holds(table, user, weekStart, slots)
    requires IsListing(table[(user, weekStart, updated.day) := SlotToRow(user, weekStart, updated)], user, weekStart,
                       rows)
    ensures Slots(rows).Some?
    ensures var loaded := SortByDate(Slots(rows).value);
            && SortedByDate(loaded) && multiset(loaded) == multiset(slots[i := updated])
            && (StrictlySorted(slots) && updated.date == slots[i].date ==> loaded == slots[i := updated])
  {
    hide SlotToRow, Slots, SortByDate, IsListing, Holds;
    var after := slots[i := updated];
    OneRowReplaced(table, user, weekStart, slots, i, updated);
    ListingReadsBack(table[(user, weekStart, updated.day) := SlotToRow(user, weekStart, updated)], user, weekStart,
                     rows, after);
    SortKeeps(Slots(rows).value);
    if StrictlySorted(slots) && updated.date == slots[i].date {
      OneSortedList(SortByDate(Slots(rows).value), after);
    }
  }

  lemma {:induction false} OneRowReplaced(table: map<SlotKey, SlotRow>, user: string, weekStart: Date,
                                          slots: seq<Slot>, i: nat, updated: Slot)
    requires Holds(table, user, weekStart, slots) && DistinctDays(slots) && i < |slots| && updated.day == slots[i].day
    ensures Holds(table[(user, weekStart, updated.day) := SlotToRow(user, weekStart, updated)], user, weekStart,
                  slots[i := updated])
  {
    hide SlotToRow;
    var after, now := slots[i := updated], table[(user, weekStart, updated.day) := SlotToRow(user, weekStart, updated)];
    forall day | (user, weekStart, day) in now ensures exists k :: 0 <= k < |after| && after[k].day == day {
      if day == updated.day {
        assert after[i].day == day;
      } else {
        var k :| 0 <= k < |slots| && slots[k].day == day;
        assert after[k].day == day;
      }
    }
  }

  // ── Sessions on one week, interleaved ──────────────────────────────────

  /** The stored slots of one user's week, by day. */
  type WeekTable = map<string, Slot>

  /** One session: the day it edits, and what it does. `scheduled` says whether the signed week
      carries that day, and `blank` is the day's slot when nothing is stored. */
  datatype Session = Session(day: string, edit: Edit, scheduled: bool, blank: Slot)

  /** The slot a session finds: the stored one marked as the signed week has it, a fresh one on a
      scheduled day, and nothing on another day unless work was done there. */
  function Found(table: WeekTable, s: Session): Option<Slot> {
    if s.scheduled then
      Some((if s.day in table then table[s.day] else s.blank).(optional := false))
    else if s.day in table && (table[s.day].drafts != [] || table[s.day].state != Pending) then
      Some(table[s.day].(optional := true))
    else None
  }

  /** A day off the signed week is found exactly if somebody drafted, published or skipped there;
      what is found is the stored slot where there is one, and a commitment exactly on the week.
      Nothing published is written over, and on the week no skip goes without a reason. */
  lemma {:induction false} FoundExactly(table: WeekTable, s: Session)
    ensures Found(table, s) == None <==>
              !s.scheduled && (s.day in table ==> |table[s.day].drafts| == 0 && table[s.day].state == Pending)
    ensures Found(table, s).Some? ==>
              Found(table, s).value.optional == !s.scheduled
              && Found(table, s).value ==
                   (if s.day in table then table[s.day] else s.blank).(optional := Found(table, s).value.optional)
    ensures Outcome(table, s).Some? ==> !(s.day in table && table[s.day].state == Published)
    ensures s.edit.Skip? && s.edit.reason == None && Outcome(table, s).Some? ==> !s.scheduled
  {
  }

  /** What a session would write, having seen this table. */
  function Outcome(table: WeekTable, s: Session): Option<Slot> {
    var slot := Found(table, s);
    if slot.None? then None else Edited(slot.value, s.edit)
  }

  /** Where a session stands: not begun, holding what it will save, or done. */
  datatype Progress = Waiting | Holding(write: Option<Slot>) | Done

  datatype Week = Week(table: WeekTable, progress: seq<Progress>)

  datatype Step = LoadAndEdit(id: nat) | Save(id: nat)

  /** One step of one session. A step its session is not ready for changes nothing. */
  function Advance(sessions: seq<Session>, w: Week, step: Step): Week
    requires |w.progress| == |sessions|
  {
    match step
    case LoadAndEdit(id) =>
      if id < |sessions| && w.progress[id].Waiting? then
        w.(progress := w.progress[id := Holding(Outcome(w.table, sessions[id]))])
      else w
    case Save(id) =>
      if id < |sessions| && w.progress[id].Holding? then
        var write := w.progress[id].write;
        Week(if write.Some? then w.table[sessions[id].day := write.value] else w.table, w.progress[id := Done])
      else w
  }

  ghost function Run(sessions: seq<Session>, table: WeekTable, steps: seq<Step>): (w: Week)
    ensures |w.progress| == |sessions|
  {
    if steps == [] then Week(table, seq(|sessions|, i => Waiting))
    else Advance(sessions, Run(sessions, table, steps[..|steps| - 1]), steps[|steps| - 1])
  }

  ghost predicate PairwiseDays(sessions: seq<Session>) {
    forall i, j :: 0 <= i < j < |sessions| ==> sessions[i].day != sessions[j].day
  }

  /** The table with the edits of the finished sessions on it, each made to what was there at the
      start. */
  ghost predicate EveryEditPresent(sessions: seq<Session>, start: WeekTable, w: Week)
    requires |w.progress| == |sessions|
  {
    && (forall i :: 0 <= i < |sessions| ==> SessionShows(sessions[i], start, w.table, w.progress[i]))
    && (forall day :: (forall i :: 0 <= i < |sessions| ==> sessions[i].day != day) ==>
          (day in w.table <==> day in start) && (day in start ==> w.table[day] == start[day]))
  }

  ghost predicate SessionShows(s: Session, start: WeekTable, table: WeekTable, p: Progress) {
    && (p.Holding? ==> p.write == Outcome(start, s))
    && (if p.Done? && Outcome(start, s).Some? then s.day in table && table[s.day] == Outcome(start, s).value
        else (s.day in table <==> s.day in start) && (s.day in start ==> table[s.day] == start[s.day]))
  }

  /** A session sees the same whatever other days hold. */
  lemma {:induction false} OutcomeIsLocal(s: Session, a: WeekTable, b: WeekTable)
    requires s.day in a <==> s.day in b
    requires s.day in a ==> a[s.day] == b[s.day]
    ensures Outcome(a, s) == Outcome(b, s)
  {
  }

  lemma {:induction false} AdvanceKeepsOne(sessions: seq<Session>, start: WeekTable, w: Week, step: Step, i: nat)
    requires |w.progress| == |sessions| && i < |sessions|
             && (step.id < |sessions| && step.id != i ==> sessions[step.id].day != sessions[i].day)
    requires SessionShows(sessions[i], start, w.table, w.progress[i])
    ensures SessionShows(sessions[i], start, Advance(sessions, w, step).table, Advance(sessions, w, step).progress[i])
  {
    hide Outcome;
    if step.LoadAndEdit? && step.id == i && w.progress[i].Waiting? {
      OutcomeIsLocal(sessions[i], w.table, start);
    }
  }

  lemma {:induction false} AdvanceKeepsEdits(sessions: seq<Session>, start: WeekTable, w: Week, step: Step)
    requires |w.progress| == |sessions| && PairwiseDays(sessions) && EveryEditPresent(sessions, start, w)
    ensures EveryEditPresent(sessions, start, Advance(sessions, w, step))
  {
    hide Outcome, SessionShows;
    forall i | 0 <= i < |sessions|
      ensures SessionShows(sessions[i], start, Advance(sessions, w, step).table, Advance(sessions, w, step).progress[i])
    {
      AdvanceKeepsOne(sessions, start, w, step, i);
    }
  }

  /** In every interleaving of sessions on pairwise different days, every finished session's edit
      is in the table, and no other day has changed. */
  lemma {:induction false} NoEditIsLost(sessions: seq<Session>, start: WeekTable, steps: seq<Step>)
    requires PairwiseDays(sessions)
    ensures EveryEditPresent(sessions, start, Run(sessions, start, steps))
  {
    hide Outcome, Advance;
    if steps != [] {
      NoEditIsLost(sessions, start, steps[..|steps| - 1]);
      AdvanceKeepsEdits(sessions, start, Run(sessions, start, steps[..|steps| - 1]), steps[|steps| - 1]);
    }
  }

  ghost predicate AllDone(w: Week) {
    forall i :: 0 <= i < |w.progress| ==> w.progress[i].Done?
  }

  /** Any two complete interleavings of the same sessions end in the same table; running them one
      after another is one of them. */
  lemma {:induction false} InterleavingsAgree(sessions: seq<Session>, start: WeekTable, steps: seq<Step>,
                                              steps': seq<Step>)
    requires PairwiseDays(sessions)
    requires AllDone(Run(sessions, start, steps)) && AllDone(Run(sessions, start, steps'))
    ensures Run(sessions, start, steps).table == Run(sessions, start, steps').table
  {
    hide Outcome, Advance, Run;
    NoEditIsLost(sessions, start, steps);
    NoEditIsLost(sessions, start, steps');
    var a, b := Run(sessions, start, steps), Run(sessions, start, steps');
    forall day ensures (day in a.table <==> day in b.table) && (day in a.table ==> a.table[day] == b.table[day]) {
      if i :| 0 <= i < |sessions| && sessions[i].day == day {
        assert SessionShows(sessions[i], start, a.table, a.progress[i]);
        assert SessionShows(sessions[i], start, b.table, b.progress[i]);
      }
    }
  }

  // ── Two sessions, against running one after the other ──────────────────

  function Written(table: WeekTable, s: Session, write: Option<Slot>): WeekTable {
    if write.Some? then table[s.day := write.value] else table
  }

  /** One session from load to save with nobody else about. */
  function Alone(table: WeekTable, s: Session): WeekTable {
    Written(table, s, Outcome(table, s))
  }

  /** What an interleaving of two sessions has made of the table so far: a session that loaded
      before the other saved writes what it made of the start. */
  ghost predicate PairStands(a: Session, b: Session, start: WeekTable, w: Week) {
    && |w.progress| == 2
    && var p, q := w.progress[0], w.progress[1];
    && (p.Holding? ==> p.write == Outcome(start, a) || (q.Done? && p.write == Outcome(Alone(start, b), a)))
    && (q.Holding? ==> q.write == Outcome(start, b) || (p.Done? && q.write == Outcome(Alone(start, a), b)))
    && (!p.Done? && !q.Done? ==> w.table == start)
    && (p.Done? && !q.Done? ==> w.table == Alone(start, a))
    && (!p.Done? && q.Done? ==> w.table == Alone(start, b))
    && (p.Done? && q.Done? ==>
          || w.table == Alone(Alone(start, a), b) || w.table == Written(Alone(start, a), b, Outcome(start, b))
          || w.table == Alone(Alone(start, b), a) || w.table == Written(Alone(start, b), a, Outcome(start, a)))
  }

  lemma {:induction false} AdvanceKeepsPair(a: Session, b: Session, start: WeekTable, w: Week, step: Step)
    requires PairStands(a, b, start, w)
    ensures PairStands(a, b, start, Advance([a, b], w, step))
  {
    hide Outcome;
  }

  lemma {:induction false} PairAlwaysStands(a: Session, b: Session, start: WeekTable, steps: seq<Step>)
    ensures PairStands(a, b, start, Run([a, b], start, steps))
  {
    if steps != [] {
      hide Advance, PairStands;
      PairAlwaysStands(a, b, start, steps[..|steps| - 1]);
      AdvanceKeepsPair(a, b, start, Run([a, b], start, steps[..|steps| - 1]), steps[|steps| - 1]);
    }
  }

  /** If both load before either saves, the second to save puts its edit of the start on top. */
  lemma {:induction false} OverlapWrites(a: Session, b: Session, start: WeekTable)
    ensures var w := Run([a, b], start, [LoadAndEdit(0), LoadAndEdit(1), Save(0), Save(1)]);
            AllDone(w) && w.table == Written(Alone(start, a), b, Outcome(start, b))
    ensures var w := Run([a, b], start, [LoadAndEdit(0), LoadAndEdit(1), Save(1), Save(0)]);
            AllDone(w) && w.table == Written(Alone(start, b), a, Outcome(start, a))
  {
    hide Outcome, Advance, Run;
    var loaded := Week(start, [Holding(Outcome(start, a)), Holding(Outcome(start, b))]);
    BothLoad(a, b, start);
    RunFour([a, b], start, [LoadAndEdit(0), LoadAndEdit(1), Save(0), Save(1)]);
    RunFour([a, b], start, [LoadAndEdit(0), LoadAndEdit(1), Save(1), Save(0)]);
    BothSave(a, b, loaded);
  }

  lemma {:induction false} RunFour(sessions: seq<Session>, start: WeekTable, steps: seq<Step>)
    requires |steps| == 4
    ensures var w := Advance(sessions, Advance(sessions, Run(sessions, start, []), steps[0]), steps[1]);
            Run(sessions, start, steps) == Advance(sessions, Advance(sessions, w, steps[2]), steps[3])
  {
    hide Advance;
    assert steps[..3][..2] == steps[..2] && steps[..2][..1] == steps[..1] && steps[..1][..0] == [];
    assert Run(sessions, start, steps[..1]) == Advance(sessions, Run(sessions, start, []), steps[0]);
    assert Run(sessions, start, steps[..2]) == Advance(sessions, Run(sessions, start, steps[..1]), steps[1]);
    assert Run(sessions, start, steps[..3]) == Advance(sessions, Run(sessions, start, steps[..2]), steps[2]);
  }

  lemma {:induction false} BothLoad(a: Session, b: Session, start: WeekTable)
    ensures Advance([a, b], Advance([a, b], Run([a, b], start, []), LoadAndEdit(0)), LoadAndEdit(1))
            == Week(start, [Holding(Outcome(start, a)), Holding(Outcome(start, b))])
  {
    hide Outcome;
  }

  lemma {:induction false} BothSave(a: Session, b: Session, w: Week)
    requires |w.progress| == 2 && w.progress[0].Holding? && w.progress[1].Holding?
    ensures Advance([a, b], Advance([a, b], w, Save(0)), Save(1))
            == Week(Written(Written(w.table, a, w.progress[0].write), b, w.progress[1].write), [Done, Done])
    ensures Advance([a, b], Advance([a, b], w, Save(1)), Save(0))
            == Week(Written(Written(w.table, b, w.progress[1].write), a, w.progress[0].write), [Done, Done])
  {
  }

  ghost predicate IsSerial(a: Session, b: Session, start: WeekTable, table: WeekTable) {
    table == Alone(Alone(start, a), b) || table == Alone(Alone(start, b), a)
  }

  /** Every complete interleaving ends as one of the two one-after-the-other runs. */
  ghost predicate EveryOrderIsSerial(a: Session, b: Session, start: WeekTable) {
    forall steps :: AllDone(Run([a, b], start, steps)) ==> IsSerial(a, b, start, Run([a, b], start, steps).table)
  }

  /** So it comes down to the two overlapped runs. */
  lemma {:induction false} SerialIfOverlapsAre(a: Session, b: Session, start: WeekTable)
    ensures EveryOrderIsSerial(a, b, start) <==>
              && IsSerial(a, b, start, Written(Alone(start, a), b, Outcome(start, b)))
              && IsSerial(a, b, start, Written(Alone(start, b), a, Outcome(start, a)))
  {
    hide Outcome, Run, Alone, Written;
    OverlapWrites(a, b, start);
    forall steps | AllDone(Run([a, b], start, steps))
      ensures var t := Run([a, b], start, steps).table;
              || t == Alone(Alone(start, a), b) || t == Written(Alone(start, a), b, Outcome(start, b))
              || t == Alone(Alone(start, b), a) || t == Written(Alone(start, b), a, Outcome(start, a))
    {
      PairAlwaysStands(a, b, start, steps);
    }
    var ab := [LoadAndEdit(0), LoadAndEdit(1), Save(0), Save(1)];
    var ba := [LoadAndEdit(0), LoadAndEdit(1), Save(1), Save(0)];
    assert AllDone(Run([a, b], start, ab)) && AllDone(Run([a, b], start, ba));
  }

  /** A skip and a redraft that each write what is already on the slot. */
  predicate ChangeNothingOfEachOther(slot: Slot, skip: Edit, redraft: Edit)
    requires skip.Skip? && redraft.Redraft?
  {
    slot.skipReason == skip.reason && slot.skipNote == skip.note && slot.drafts == redraft.drafts
  }

  /** Edits of one slot that may overlap: both or neither is a redraft, or they are a skip and a
      redraft with nothing new to say. */
  predicate Compatible(slot: Slot, e: Edit, f: Edit) {
    || (e.Redraft? <==> f.Redraft?)
    || (e.Skip? && f.Redraft? && ChangeNothingOfEachOther(slot, e, f))
    || (f.Skip? && e.Redraft? && ChangeNothingOfEachOther(slot, f, e))
  }

  /** The slot after a second edit, refused or not. */
  function EditedOrNot(slot: Slot, e: Edit): Slot {
    Edited(slot, e).GetOr(slot)
  }

  lemma {:induction false} CompatibleExactly(slot: Slot, e: Edit, f: Edit)
    requires Edited(slot, e).Some? && Edited(slot, f).Some?
    ensures var s, t := Edited(slot, e).value, Edited(slot, f).value;
            var st, ts := EditedOrNot(s, f), EditedOrNot(t, e);
            (t == st || t == ts) && (s == st || s == ts) <==> Compatible(slot, e, f)
  {
  }

  /** Two sessions that may overlap: on different days, or one of them has nothing to write, or
      their edits are compatible. */
  predicate SafeTogether(a: Session, b: Session, start: WeekTable) {
    || a.day != b.day || Outcome(start, a).None? || Outcome(start, b).None?
    || Compatible(Found(start, a).value, a.edit, b.edit)
  }

  ghost predicate SameSignedWeek(a: Session, b: Session) {
    a.day == b.day ==> a.scheduled == b.scheduled && a.blank == b.blank
  }

  /** On one day the second session finds what the first one wrote. */
  lemma {:induction false} FindsTheFirstWrite(a: Session, b: Session, start: WeekTable)
    requires a.day == b.day && SameSignedWeek(a, b) && Outcome(start, a).Some?
    ensures Found(start, b) == Found(start, a) && Found(Alone(start, a), b) == Outcome(start, a)
    ensures Alone(Alone(start, a), b) == start[a.day := EditedOrNot(Outcome(start, a).value, b.edit)]
  {
    EditKeepsDay(Found(start, a).value, a.edit);
  }

  lemma {:induction false} SamePut(table: WeekTable, day: string, u: Slot, v: Slot)
    ensures table[day := u] == table[day := v] <==> u == v
  {
    assert table[day := u][day] == u && table[day := v][day] == v;
  }

  lemma {:induction false} SameDayExactly(a: Session, b: Session, start: WeekTable)
    requires a.day == b.day && SameSignedWeek(a, b) && Outcome(start, a).Some? && Outcome(start, b).Some?
    ensures IsSerial(a, b, start, Written(Alone(start, a), b, Outcome(start, b)))
            && IsSerial(a, b, start, Written(Alone(start, b), a, Outcome(start, a)))
            <==> Compatible(Found(start, a).value, a.edit, b.edit)
  {
    hide Found, Compatible, EditedOrNot, Edited;
    var day, x := a.day, Found(start, a).value;
    var s, t := Outcome(start, a).value, Outcome(start, b).value;
    FindsTheFirstWrite(a, b, start);
    FindsTheFirstWrite(b, a, start);
    CompatibleExactly(x, a.edit, b.edit);
    var st, ts := EditedOrNot(s, b.edit), EditedOrNot(t, a.edit);
    SamePut(start, day, t, st);
    SamePut(start, day, t, ts);
    SamePut(start, day, s, st);
    SamePut(start, day, s, ts);
    assert Written(Alone(start, a), b, Some(t)) == start[day := t];
    assert Written(Alone(start, b), a, Some(s)) == start[day := s];
  }

  /** Two sessions of one week: every complete interleaving ends as if they had run one after the
      other, in one order or the other, exactly when they are on different days, or one of them
      has nothing to write, or both or neither is a redraft, or they are a skip and a redraft
      that each write what is already there. */
  lemma {:induction false} SerialExactly(a: Session, b: Session, start: WeekTable)
    requires SameSignedWeek(a, b)
    ensures EveryOrderIsSerial(a, b, start) <==> SafeTogether(a, b, start)
  {
    hide Found, Compatible, EveryOrderIsSerial;
    SerialIfOverlapsAre(a, b, start);
    if a.day != b.day {
      OutcomeIsLocal(a, start, Alone(start, b));
      OutcomeIsLocal(b, start, Alone(start, a));
    } else if Outcome(start, a).Some? && Outcome(start, b).Some? {
      SameDayExactly(a, b, start);
    }
  }

  /** What goes wrong otherwise: a redraft that loaded the slot before it was published puts
      `draft_ready` back over the published mark. Both callers were told it worked, and no order
      of the two ends so. */
  lemma {:induction false} RedraftErasesAPost(slot: Slot, at: string, drafts: seq<Draft>)
    requires slot.state == DraftReady && !slot.optional && drafts != []
    ensures var redraft := Session(slot.day, Redraft(drafts), true, slot);
            var publish := Session(slot.day, MarkPublished(at), true, slot);
            var start := map[slot.day := slot];
            var w := Run([redraft, publish], start, [LoadAndEdit(0), LoadAndEdit(1), Save(1), Save(0)]);
            && Outcome(start, redraft).Some? && Outcome(start, publish).Some?
            && AllDone(w) && slot.day in w.table && w.table[slot.day].state == DraftReady
            && !IsSerial(redraft, publish, start, w.table)
  {
    hide Run;
    var redraft := Session(slot.day, Redraft(drafts), true, slot);
    var publish := Session(slot.day, MarkPublished(at), true, slot);
    var start := map[slot.day := slot];
    OverlapWrites(redraft, publish, start);
    FindsTheFirstWrite(redraft, publish, start);
    FindsTheFirstWrite(publish, redraft, start);
  }

  /** A skip that read the draft can land on a published mark. The table ends as it would if the
      skip had come first and the mark been refused; but here both callers were told success. */
  lemma {:induction false} SkipOverwritesAPost(slot: Slot, at: string)
    requires slot.state == DraftReady && !slot.optional
    ensures var publish := Session(slot.day, MarkPublished(at), true, slot);
            var skip := Session(slot.day, Edit.Skip(Some(NoTime), None), true, slot);
            var start := map[slot.day := slot];
            var w := Run([publish, skip], start, [LoadAndEdit(0), LoadAndEdit(1), Save(0), Save(1)]);
            && Outcome(start, publish).Some? && Outcome(start, skip).Some?
            && AllDone(w) && slot.day in w.table && w.table[slot.day].state == Skipped
            && w.table == Alone(start, skip) == Alone(Alone(start, skip), publish)
            && Outcome(Alone(start, skip), publish).None?
  {
    hide Run;
    OverlapWrites(Session(slot.day, MarkPublished(at), true, slot),
                  Session(slot.day, Edit.Skip(Some(NoTime), None), true, slot), map[slot.day := slot]);
  }
}
