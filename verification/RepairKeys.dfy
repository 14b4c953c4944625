/**
 The one-off repair of job keys: group the rows by the posting they are, keep one row a
 group, and write the changes in an order that never breaks the unique index
 (user, dedup_key). A row's V1 key comes with it: the updates touch neither of the fields
 it is hashed from.
 */
module RepairKeys {
  import opened Basics
  import opened Strings

  datatype Row = Row(
    id: nat, user: string, key: string, v1Key: string, status: string, dismissReason: Option<string>, hasKit: bool,
    firstSeen: Option<string>, lastSeen: Option<string>)

  /** The fields one update sets. */
  datatype Patch = Patch(key: Option<string>, status: Option<string>, dismissReason: Option<string>,
                         lastSeen: Option<string>) {
    predicate Empty() {
      key.None? && status.None? && dismissReason.None? && lastSeen.None?
    }
  }

  datatype Update = Update(id: nat, patch: Patch)

  /** A posting: the user and the V1 key of company and title. */
  type Posting = (string, string)

  function PostingOf(r: Row): Posting {
    (r.user, r.v1Key)
  }

  predicate IsHex(c: char) {
    '0' <= c <= '9' || 'a' <= c <= 'f'
  }

  predicate IsHexKey(s: string) {
    |s| == 16 && forall c <- s :: IsHex(c)
  }

  /** The pattern `^[0-9a-f]{16}$`; its `$` also matches before one final newline. */
  predicate MatchesV1(s: string) {
    IsHexKey(s) || (|s| == 17 && s[16] == '\n' && IsHexKey(s[..16]))
  }

  function DuplicateKey(id: nat, keeperId: nat): string {
    "dup-" + Decimal(id) + "-of-" + Decimal(keeperId)
  }

  function DuplicateReason(keeperId: nat): string {
    "Duplicate of #" + Decimal(keeperId)
  }

  /** These are positions below `n`. */
  ghost predicate Within(positions: seq<nat>, n: nat) {
    forall i :: 0 <= i < |positions| ==> positions[i] < n
  }

  // ── The keeper of a group ──────────────────────────────────────────────

  predicate Decided(r: Row) {
    r.status == "dismissed" || r.status == "saved"
  }

  function FirstSeen(r: Row): string {
    if r.firstSeen.None? || r.firstSeen.value == "" then "9999" else r.firstSeen.value
  }

  /** A decision outranks none, then a kit outranks none, then the earlier sighting. */
  predicate Outranks(a: Row, b: Row) {
    if Decided(a) != Decided(b) then Decided(a)
    else if a.hasKit != b.hasKit then a.hasKit
    else Less(FirstSeen(a), FirstSeen(b))
  }

  /** The first best-ranked of some rows, as `min` picks it. */
  function Keeper(rows: seq<Row>, members: seq<nat>): (k: nat)
    requires members != [] && Within(members, |rows|)
    ensures k in members && k < |rows|
  {
    if |members| == 1 then members[0]
    else
      var best := Keeper(rows, members[..|members| - 1]);
      var last := members[|members| - 1];
      if Outranks(rows[last], rows[best]) then last else best
  }

  lemma {:induction false} OutranksNegativelyTransitive(a: Row, b: Row, c: Row)
    requires !Outranks(a, b) && !Outranks(b, c)
    ensures !Outranks(a, c)
  {
    if Outranks(a, c) && Decided(a) == Decided(c) && a.hasKit == c.hasKit {
      LessIsStrict(FirstSeen(a), FirstSeen(b));
      LessIsStrict(FirstSeen(b), FirstSeen(c));
      if Less(FirstSeen(b), FirstSeen(a)) {
        LessIsTransitive(FirstSeen(b), FirstSeen(a), FirstSeen(c));
      }
    }
  }

  lemma {:induction false} OutranksAsymmetric(a: Row, b: Row)
    requires Outranks(a, b)
    ensures !Outranks(b, a)
  {
    LessIsStrict(FirstSeen(a), FirstSeen(b));
  }

  /** No member outranks the keeper, so a group with a decision keeps a decided row. */
  lemma {:induction false} KeeperIsBest(rows: seq<Row>, members: seq<nat>)
    requires members != [] && Within(members, |rows|)
    ensures forall i :: 0 <= i < |members| ==> !Outranks(rows[members[i]], rows[Keeper(rows, members)])
    ensures (exists i :: 0 <= i < |members| && Decided(rows[members[i]])) ==> Decided(rows[Keeper(rows, members)])
  {
    var keeper := Keeper(rows, members);
    if |members| > 1 {
      var front, last := members[..|members| - 1], members[|members| - 1];
      var best := Keeper(rows, front);
      KeeperIsBest(rows, front);
      forall i | 0 <= i < |members| ensures !Outranks(rows[members[i]], rows[keeper]) {
        if i < |front| {
          assert front[i] == members[i];
          if keeper == last && Outranks(rows[last], rows[best]) {
            OutranksAsymmetric(rows[last], rows[best]);
            OutranksNegativelyTransitive(rows[members[i]], rows[best], rows[last]);
          }
        } else {
          LessIsStrict(FirstSeen(rows[last]), FirstSeen(rows[last]));
        }
      }
    } else {
      LessIsStrict(FirstSeen(rows[keeper]), FirstSeen(rows[keeper]));
    }
  }

  /** Positions in table order. */
  ghost predicate InOrder(members: seq<nat>) {
    forall i, j :: 0 <= i < j < |members| ==> members[i] < members[j]
  }

  /** The keeper outranks every member before it in the table: of rows that rank alike the first
      is kept. */
  lemma {:induction false} KeeperIsFirst(rows: seq<Row>, members: seq<nat>, m: nat)
    requires members != [] && Within(members, |rows|) && InOrder(members)
    requires m in members && m < Keeper(rows, members)
    ensures Outranks(rows[Keeper(rows, members)], rows[m])
  {
    hide Outranks;
    var front, last := members[..|members| - 1], members[|members| - 1];
    if |members| > 1 {
      var best := Keeper(rows, front);
      if Outranks(rows[last], rows[best]) && m in front && m != best {
        KeeperIsBest(rows, front);
        var i :| 0 <= i < |front| && front[i] == m;
        if !Outranks(rows[last], rows[m]) {
          OutranksNegativelyTransitive(rows[last], rows[m], rows[best]);
        }
      } else if !Outranks(rows[last], rows[best]) {
        KeeperIsFirst(rows, front, m);
      }
    }
  }

  /** What someone did about the posting. */
  ghost predicate Settled(r: Row) {
    r.status in {"dismissed", "saved"}
  }

  /** When a row says it was first seen; a row that does not say comes after every year. */
  ghost function Sighted(r: Row): string {
    match r.firstSeen
    case None => "9999"
    case Some(at) => if |at| == 0 then "9999" else at
  }

  /** Of two rows of one posting, `k` is the better one to keep, or as good. */
  ghost predicate AsGoodAs(k: Row, m: Row) {
    && (Settled(m) ==> Settled(k))
    && ((Settled(m) <==> Settled(k)) ==>
          && (m.hasKit ==> k.hasKit)
          && (m.hasKit == k.hasKit ==> !Before(Sighted(m), Sighted(k))))
  }

  /** The row kept of a posting: the user's, of the same job; decided if any of its rows is; among
      the rows as decided, with a kit if any of those has one; among the rows alike in both, none
      first seen earlier; and of rows alike in all three, the first in the table. */
  lemma {:induction false} KeeperRules(rows: seq<Row>, i: nat, m: nat)
    requires i < |rows| && m < |rows|
    requires rows[m].user == rows[i].user && rows[m].v1Key == rows[i].v1Key
    ensures var k := KeeperOf(rows, PostingOf(rows[i]));
            && rows[k].user == rows[i].user && rows[k].v1Key == rows[i].v1Key
            && AsGoodAs(rows[k], rows[m])
            && (AsGoodAs(rows[m], rows[k]) ==> k <= m)
  {
    hide Members, Keeper, Less, Before;
    var members := Members(rows, PostingOf(rows[i]));
    var k := Keeper(rows, members);
    assert m in members;
    MembersInOrder(rows, PostingOf(rows[i]));
    KeeperIsBest(rows, members);
    var j :| 0 <= j < |members| && members[j] == m;
    LessIsBefore(Sighted(rows[m]), Sighted(rows[k]));
    LessIsBefore(Sighted(rows[k]), Sighted(rows[m]));
    if m < k {
      KeeperIsFirst(rows, members, m);
    }
  }

  function LastSeen(r: Row): string {
    r.lastSeen.GetOr("")
  }

  /** The newest sighting of some rows; "" when there is none. */
  function Newest(rows: seq<Row>, members: seq<nat>): string
    requires Within(members, |rows|)
  {
    if members == [] then ""
    else
      var newest := Newest(rows, members[..|members| - 1]);
      var last := LastSeen(rows[members[|members| - 1]]);
      if Less(newest, last) then last else newest
  }

  lemma {:induction false} NewestIsNewest(rows: seq<Row>, members: seq<nat>)
    requires Within(members, |rows|)
    ensures forall i :: 0 <= i < |members| ==> !Less(Newest(rows, members), LastSeen(rows[members[i]]))
    ensures members != [] ==> exists i :: 0 <= i < |members| && LastSeen(rows[members[i]]) == Newest(rows, members)
  {
    if members != [] {
      var front, last := members[..|members| - 1], members[|members| - 1];
      var before, after := Newest(rows, front), Newest(rows, members);
      NewestIsNewest(rows, front);
      LessIsStrict(before, LastSeen(rows[last]));
      LessIsStrict(after, after);
      forall i | 0 <= i < |members| ensures !Less(after, LastSeen(rows[members[i]])) {
        if i < |front| {
          assert front[i] == members[i];
          if after != before && Less(after, LastSeen(rows[members[i]])) {
            LessIsTransitive(before, after, LastSeen(rows[members[i]]));
          }
        }
      }
      if after == before && front != [] {
        var i :| 0 <= i < |front| && LastSeen(rows[front[i]]) == before;
        assert LastSeen(rows[members[i]]) == after;
      } else {
        assert LastSeen(rows[members[|front|]]) == after;
      }
    }
  }

  // ── The plan, group by group ───────────────────────────────────────────

  /** The positions of a posting's rows, in order. */
  function Members(rows: seq<Row>, p: Posting): (members: seq<nat>)
    ensures Within(members, |rows|)
    ensures forall m :: m in members <==> 0 <= m < |rows| && PostingOf(rows[m]) == p
  {
    if rows == [] then []
    else
      var front, last := rows[..|rows| - 1], |rows| - 1;
      assert forall m :: 0 <= m < |front| ==> front[m] == rows[m];
      if PostingOf(rows[last]) == p then Members(front, p) + [last] else Members(front, p)
  }

  /** The postings, in order of first appearance. */
  function Postings(rows: seq<Row>): (ps: seq<Posting>)
    ensures forall p :: p in ps <==> exists i :: 0 <= i < |rows| && PostingOf(rows[i]) == p
  {
    if rows == [] then []
    else
      var front, p := rows[..|rows| - 1], PostingOf(rows[|rows| - 1]);
      var ps := Postings(front);
      assert forall m :: 0 <= m < |front| ==> front[m] == rows[m];
      if p in ps then ps else ps + [p]
  }

  lemma {:induction false} MembersInOrder(rows: seq<Row>, p: Posting)
    ensures InOrder(Members(rows, p))
  {
    if rows != [] {
      var front := rows[..|rows| - 1];
      MembersInOrder(front, p);
      var members := Members(front, p);
      assert forall i :: 0 <= i < |members| ==> members[i] in members;
    }
  }

  /** Some row of the posting carries a key that is not V1's. */
  predicate NeedsRepair(rows: seq<Row>, p: Posting) {
    exists m <- Members(rows, p) :: !MatchesV1(rows[m].key)
  }

  /** A key in V1's form is sixteen hexadecimal digits, in small letters, and perhaps a newline. */
  lemma {:induction false} V1FormExactly(s: string)
    ensures MatchesV1(s) <==>
              && |s| in {16, 17} && (forall i :: 0 <= i < 16 ==> s[i] in "0123456789abcdef")
              && (|s| == 17 ==> s[16] == '\n')
  {
    forall c: char ensures IsHex(c) <==> c in "0123456789abcdef" {
      var digits := "0123456789abcdef";
      if '0' <= c <= '9' {
        assert digits[(c - '0') as int] == c;
      } else if 'a' <= c <= 'f' {
        assert digits[10 + (c - 'a') as int] == c;
      }
    }
    if |s| == 17 {
      assert forall i :: 0 <= i < 16 ==> s[..16][i] == s[i];
    }
    if |s| in {16, 17} && forall i :: 0 <= i < 16 ==> s[i] in "0123456789abcdef" {
      assert forall c <- s[..16] :: IsHex(c);
      assert |s| == 16 ==> s[..16] == s;
    }
  }

  /** A posting is repaired exactly when some row of the same user and job is keyed otherwise. */
  lemma {:induction false} NeedsRepairExactly(rows: seq<Row>, i: nat)
    requires i < |rows|
    ensures NeedsRepair(rows, PostingOf(rows[i])) <==>
              exists m :: 0 <= m < |rows| && rows[m].user == rows[i].user && rows[m].v1Key == rows[i].v1Key
                          && !MatchesV1(rows[m].key)
  {
    hide Members, MatchesV1;
    var members := Members(rows, PostingOf(rows[i]));
    if m :| 0 <= m < |rows| && rows[m].user == rows[i].user && rows[m].v1Key == rows[i].v1Key
            && !MatchesV1(rows[m].key) {
      assert m in members;
    }
  }

  function KeeperOf(rows: seq<Row>, p: Posting): nat
    requires p in Postings(rows)
  {
    Keeper(rows, Members(rows, p))
  }

  function MovePatch(id: nat, keeperId: nat): Patch {
    Patch(Some(DuplicateKey(id, keeperId)), Some("dismissed"), Some(DuplicateReason(keeperId)), None)
  }

  function RekeyPatch(keeper: Row, key: string, newest: string): Patch {
    Patch(if keeper.key != key then Some(key) else None, None, None,
          if newest != "" && keeper.lastSeen != Some(newest) then Some(newest) else None)
  }

  function MovesOf(rows: seq<Row>, members: seq<nat>, keeper: nat): seq<Update>
    requires keeper < |rows| && Within(members, |rows|)
  {
    if members == [] then []
    else
      var last := members[|members| - 1];
      MovesOf(rows, members[..|members| - 1], keeper)
      + if last == keeper then [] else [Update(rows[last].id, MovePatch(rows[last].id, rows[keeper].id))]
  }

  function MovesFor(rows: seq<Row>, p: Posting): seq<Update>
    requires p in Postings(rows)
  {
    if NeedsRepair(rows, p) then MovesOf(rows, Members(rows, p), KeeperOf(rows, p)) else []
  }

  function RekeyFor(rows: seq<Row>, p: Posting): seq<Update>
    requires p in Postings(rows)
  {
    var keeper := rows[KeeperOf(rows, p)];
    var patch := RekeyPatch(keeper, p.1, Newest(rows, Members(rows, p)));
    if NeedsRepair(rows, p) && !patch.Empty() then [Update(keeper.id, patch)] else []
  }

  function AllMoves(rows: seq<Row>, ps: seq<Posting>): seq<Update>
    requires forall p <- ps :: p in Postings(rows)
  {
    if ps == [] then [] else AllMoves(rows, ps[..|ps| - 1]) + MovesFor(rows, ps[|ps| - 1])
  }

  function AllRekeys(rows: seq<Row>, ps: seq<Posting>): seq<Update>
    requires forall p <- ps :: p in Postings(rows)
  {
    if ps == [] then [] else AllRekeys(rows, ps[..|ps| - 1]) + RekeyFor(rows, ps[|ps| - 1])
  }

  /** Every duplicate steps off the key before any keeper takes it. */
  function PlanOf(rows: seq<Row>): seq<Update> {
    AllMoves(rows, Postings(rows)) + AllRekeys(rows, Postings(rows))
  }

  /** The first loop of the plan: the rows by posting, postings in order of appearance. */
  method GroupRows(rows: seq<Row>) returns (order: seq<Posting>, groups: map<Posting, seq<nat>>)
    ensures order == Postings(rows)
    ensures forall p :: p in groups <==> p in order
    ensures forall p :: p in groups ==> groups[p] == Members(rows, p)
  {
    hide PostingOf, Members, Postings;
    order, groups := [], map[];
    NoRows();
    for i := 0 to |rows|
      invariant order == Postings(rows[..i])
      invariant forall p :: p in groups <==> p in order
      invariant forall p :: p in groups ==> groups[p] == Members(rows[..i], p)
    {
      var p := PostingOf(rows[i]);
      forall q ensures Members(rows[..i + 1], q) == Members(rows[..i], q) + if q == p then [i] else [] {
        OneMoreRow(rows, i, q);
      }
      OneMoreRow(rows, i, p);
      if p in groups {
        groups := groups[p := groups[p] + [i]];
      } else {
        NoMembers(rows[..i], p);
        order := order + [p];
        groups := groups[p := [i]];
      }
    }
    assert rows[..|rows|] == rows;
  }

  lemma {:induction false} NoRows()
    ensures Postings([]) == []
  {
  }

  lemma {:induction false} OneMoreRow(rows: seq<Row>, i: nat, q: Posting)
    requires i < |rows|
    ensures var p := PostingOf(rows[i]);
            && Members(rows[..i + 1], q) == Members(rows[..i], q) + (if q == p then [i] else [])
            && Postings(rows[..i + 1]) == Postings(rows[..i]) + (if p in Postings(rows[..i]) then [] else [p])
  {
    hide PostingOf;
    assert rows[..i + 1][..i] == rows[..i];
  }

  lemma {:induction false} NoMembers(rows: seq<Row>, p: Posting)
    requires p !in Postings(rows)
    ensures Members(rows, p) == []
  {
    if Members(rows, p) != [] {
      assert Members(rows, p)[0] in Members(rows, p);
    }
  }

  /** The inner loop: every row of a group but its keeper moves aside. */
  method MoveAside(rows: seq<Row>, group: seq<nat>, keeper: nat) returns (moves: seq<Update>)
    requires keeper < |rows| && Within(group, |rows|)
    ensures moves == MovesOf(rows, group, keeper)
  {
    moves := [];
    for j := 0 to |group|
      invariant moves == MovesOf(rows, group[..j], keeper)
    {
      assert group[..j + 1][..j] == group[..j];
      if group[j] != keeper {
        moves := moves + [Update(rows[group[j]].id, MovePatch(rows[group[j]].id, rows[keeper].id))];
      }
    }
    assert group[..|group|] == group;
  }

  method Plan(rows: seq<Row>) returns (steps: seq<Update>)
    ensures steps == PlanOf(rows)
  {
    hide MovesOf, Members, Postings, Keeper, Newest, MatchesV1, RekeyPatch;
    var order, groups := GroupRows(rows);
    var movesAside: seq<Update> := [];
    var rekeys: seq<Update> := [];
    for g := 0 to |order|
      invariant movesAside == AllMoves(rows, order[..g])
      invariant rekeys == AllRekeys(rows, order[..g])
    {
      assert order[..g + 1][..g] == order[..g];
      var p := order[g];
      var group := groups[p];
      if exists m <- group :: !MatchesV1(rows[m].key) {
        var keeper := Keeper(rows, group);
        var newest := Newest(rows, group);
        var aside := MoveAside(rows, group, keeper);
        movesAside := movesAside + aside;
        var patch := RekeyPatch(rows[keeper], p.1, newest);
        if !patch.Empty() {
          rekeys := rekeys + [Update(rows[keeper].id, patch)];
        }
      }
    }
    assert order[..|order|] == order;
    steps := movesAside + rekeys;
  }

  // ── Applying it ────────────────────────────────────────────────────────

  function Patched(r: Row, patch: Patch): Row {
    r.(key := patch.key.GetOr(r.key),
       status := patch.status.GetOr(r.status),
       dismissReason := if patch.dismissReason.Some? then patch.dismissReason else r.dismissReason,
       lastSeen := if patch.lastSeen.Some? then patch.lastSeen else r.lastSeen)
  }

  /** One update, by id. */
  function Apply(rows: seq<Row>, u: Update): (after: seq<Row>)
    ensures |after| == |rows|
    ensures forall i :: 0 <= i < |rows| ==>
              after[i] == if rows[i].id == u.id then Patched(rows[i], u.patch) else rows[i]
  {
    seq(|rows|, i requires 0 <= i < |rows| => if rows[i].id == u.id then Patched(rows[i], u.patch) else rows[i])
  }

  function ApplyAll(rows: seq<Row>, steps: seq<Update>): (after: seq<Row>)
    ensures |after| == |rows|
  {
    if steps == [] then rows else Apply(ApplyAll(rows, steps[..|steps| - 1]), steps[|steps| - 1])
  }

  /** The table's unique index holds. */
  predicate UniqueKeys(rows: seq<Row>) {
    forall i, j :: 0 <= i < j < |rows| ==> !(rows[i].user == rows[j].user && rows[i].key == rows[j].key)
  }

  class JobsFeed {
    var rows: seq<Row>

    constructor (rows: seq<Row>)
      ensures this.rows == rows
    {
      this.rows := rows;
    }

    /** The index refuses an update that would give two rows one (user, key). */
    method UpdateById(u: Update) returns (refused: bool)
      modifies this
      ensures refused <==> !UniqueKeys(Apply(old(rows), u))
      ensures rows == if refused then old(rows) else Apply(old(rows), u)
    {
      var after := Apply(rows, u);
      refused := !UniqueKeys(after);
      if !refused {
        rows := after;
      }
    }

    /** Plan, then apply one update at a time; a refusal stops the script half-way, and happens
        exactly when a row in the way still waits for its own update or has none. On a well-keyed
        table there is no such row. */
    method Repair() returns (completed: bool)
      modifies this
      ensures completed ==> rows == ApplyAll(old(rows), PlanOf(old(rows)))
      ensures HexKeys(old(rows)) && DistinctIds(old(rows)) && UniqueKeys(old(rows)) ==>
                (completed <==> NothingInTheWay(old(rows)))
      ensures HexKeys(old(rows)) && WellKeyed(old(rows)) ==> completed
    {
      hide PlanOf, HexKeys, DistinctIds, WellKeyed, UniqueKeys, Apply, Blocked;
      ghost var before := rows;
      var steps := Plan(rows);
      assert steps[..0] == [];
      for p := 0 to |steps|
        invariant rows == ApplyAll(before, steps[..p])
        invariant HexKeys(before) && DistinctIds(before) && UniqueKeys(before) ==>
                    UniqueKeys(rows) && forall q :: 0 <= q < p ==> !Blocked(before, q)
      {
        assert steps[..p + 1][..p] == steps[..p];
        if HexKeys(before) && DistinctIds(before) && UniqueKeys(before) {
          RefusedExactly(before, p);
        }
        if HexKeys(before) && WellKeyed(before) {
          WellKeyedAfterEveryUpdate(before, p + 1);
        }
        var refused := UpdateById(steps[p]);
        if refused {
          return false;
        }
      }
      assert steps[..|steps|] == steps;
      return true;
    }
  }

  // ── Why the order is safe ──────────────────────────────────────────────

  /** Every hash is sixteen hex digits. */
  ghost predicate HexKeys(rows: seq<Row>) {
    forall r <- rows :: IsHexKey(r.v1Key)
  }

  ghost predicate DistinctIds(rows: seq<Row>) {
    forall i, j :: 0 <= i < j < |rows| ==> rows[i].id != rows[j].id
  }

  /** A key in V1's form is the V1 key of its own row, and a moved-aside key names its own row. */
  ghost predicate OwnKeys(rows: seq<Row>) {
    forall i :: 0 <= i < |rows| ==> OwnKey(rows[i])
  }

  ghost predicate OwnKey(r: Row) {
    && (MatchesV1(r.key) ==> r.key == r.v1Key)
    && (forall id, keeperId :: r.key == DuplicateKey(id, keeperId) ==> id == r.id)
  }

  ghost predicate WellKeyed(rows: seq<Row>) {
    DistinctIds(rows) && UniqueKeys(rows) && OwnKeys(rows)
  }

  /** A row of a posting that needs repair, and not the one kept. */
  ghost predicate Moved(rows: seq<Row>, m: nat)
    requires m < |rows|
  {
    NeedsRepair(rows, PostingOf(rows[m])) && m != KeeperOf(rows, PostingOf(rows[m]))
  }

  ghost predicate Kept(rows: seq<Row>, m: nat)
    requires m < |rows|
  {
    NeedsRepair(rows, PostingOf(rows[m])) && m == KeeperOf(rows, PostingOf(rows[m]))
  }

  /** What the plan has for one row. */
  ghost function PatchFor(rows: seq<Row>, m: nat): Patch
    requires m < |rows|
  {
    var p := PostingOf(rows[m]);
    if Moved(rows, m) then MovePatch(rows[m].id, rows[KeeperOf(rows, p)].id)
    else if Kept(rows, m) then RekeyPatch(rows[m], p.1, Newest(rows, Members(rows, p)))
    else Patch(None, None, None, None)
  }

  ghost function UpdateFor(rows: seq<Row>, m: nat): Update
    requires m < |rows|
  {
    Update(rows[m].id, PatchFor(rows, m))
  }

  /** `u` is the update of a row that moves aside. */
  ghost predicate IsAMove(rows: seq<Row>, u: Update) {
    exists m :: 0 <= m < |rows| && Moved(rows, m) && u == UpdateFor(rows, m)
  }

  /** `u` is the update of a row that is kept. */
  ghost predicate IsAKeep(rows: seq<Row>, u: Update) {
    exists m :: 0 <= m < |rows| && Kept(rows, m) && u == UpdateFor(rows, m)
  }

  lemma {:induction false} MovesOfComeFrom(rows: seq<Row>, p: Posting, members: seq<nat>)
    requires p in Postings(rows) && NeedsRepair(rows, p)
    requires Within(members, |rows|)
    requires forall i :: 0 <= i < |members| ==> PostingOf(rows[members[i]]) == p
    ensures var moves := MovesOf(rows, members, KeeperOf(rows, p));
            && (forall u <- moves :: IsAMove(rows, u))
            && (forall i :: 0 <= i < |members| && Moved(rows, members[i]) ==> UpdateFor(rows, members[i]) in moves)
  {
    hide Members, Postings, Keeper, NeedsRepair, MovePatch, RekeyPatch, Newest;
    if members != [] {
      var front, last := members[..|members| - 1], members[|members| - 1];
      assert forall i :: 0 <= i < |front| ==> front[i] == members[i];
      MovesOfComeFrom(rows, p, front);
      if last != KeeperOf(rows, p) {
        assert Moved(rows, last);
      }
    }
  }

  /** One posting's moves are the updates of its rows that move aside. */
  lemma {:induction false} MovesForAreTheMoved(rows: seq<Row>, p: Posting)
    requires p in Postings(rows)
    ensures forall u <- MovesFor(rows, p) :: IsAMove(rows, u)
    ensures forall m :: 0 <= m < |rows| && Moved(rows, m) && PostingOf(rows[m]) == p ==>
                          UpdateFor(rows, m) in MovesFor(rows, p)
  {
    hide MovesOf, Postings, Keeper, Members, IsAMove, UpdateFor;
    if NeedsRepair(rows, p) {
      var members := Members(rows, p);
      assert forall i :: 0 <= i < |members| ==> members[i] in members;
      MovesOfComeFrom(rows, p, members);
      forall m | 0 <= m < |rows| && Moved(rows, m) && PostingOf(rows[m]) == p
        ensures UpdateFor(rows, m) in MovesFor(rows, p)
      {
        assert m in members;
      }
    }
  }

  /** The first part of the plan holds exactly the updates of the rows that move aside. */
  lemma {:induction false} MovesAreTheMoved(rows: seq<Row>, ps: seq<Posting>)
    requires forall p <- ps :: p in Postings(rows)
    ensures forall u <- AllMoves(rows, ps) :: IsAMove(rows, u)
    ensures forall m :: 0 <= m < |rows| && Moved(rows, m) && PostingOf(rows[m]) in ps ==>
                          UpdateFor(rows, m) in AllMoves(rows, ps)
  {
    hide MovesFor, Postings, IsAMove, Moved, UpdateFor, PostingOf;
    if ps != [] {
      var front, p := ps[..|ps| - 1], ps[|ps| - 1];
      assert ps == front + [p];
      MovesAreTheMoved(rows, front);
      MovesForAreTheMoved(rows, p);
    }
  }

  /** One posting's re-keying is the nonempty update of its keeper. */
  lemma {:induction false} RekeyForIsTheKept(rows: seq<Row>, p: Posting)
    requires p in Postings(rows)
    ensures forall u <- RekeyFor(rows, p) :: IsAKeep(rows, u)
    ensures forall m :: 0 <= m < |rows| && Kept(rows, m) && !PatchFor(rows, m).Empty() && PostingOf(rows[m]) == p ==>
                          UpdateFor(rows, m) in RekeyFor(rows, p)
  {
    hide Postings, Keeper, Newest, RekeyPatch, Members, PostingOf;
    KeeperIsOfItsPosting(rows, p);
    var keeper := KeeperOf(rows, p);
    if NeedsRepair(rows, p) {
      assert Kept(rows, keeper);
      assert PatchFor(rows, keeper) == RekeyPatch(rows[keeper], p.1, Newest(rows, Members(rows, p)));
    }
  }

  /** The second part holds exactly the nonempty updates of the rows that are kept. */
  lemma {:induction false} RekeysAreTheKept(rows: seq<Row>, ps: seq<Posting>)
    requires forall p <- ps :: p in Postings(rows)
    ensures forall u <- AllRekeys(rows, ps) :: IsAKeep(rows, u)
    ensures forall m :: 0 <= m < |rows| && Kept(rows, m) && !PatchFor(rows, m).Empty() && PostingOf(rows[m]) in ps ==>
                          UpdateFor(rows, m) in AllRekeys(rows, ps)
  {
    hide RekeyFor, Postings, IsAKeep, Kept, UpdateFor, PostingOf, PatchFor;
    if ps != [] {
      var front, p := ps[..|ps| - 1], ps[|ps| - 1];
      assert ps == front + [p];
      RekeysAreTheKept(rows, front);
      RekeyForIsTheKept(rows, p);
    }
  }

  /** The update of a kept row sets nothing to what it was already, and never an empty sighting. */
  lemma {:induction false} RekeysSetWhatChanges(rows: seq<Row>, m: nat)
    requires m < |rows| && Kept(rows, m)
    ensures var patch := PatchFor(rows, m);
            && (patch.key.Some? ==> patch.key.value != rows[m].key)
            && (patch.lastSeen.Some? ==> patch.lastSeen != rows[m].lastSeen && patch.lastSeen.value != "")
            && patch.status == None && patch.dismissReason == None
  {
  }

  lemma {:induction false} KeeperIsOfItsPosting(rows: seq<Row>, p: Posting)
    requires p in Postings(rows)
    ensures KeeperOf(rows, p) < |rows| && PostingOf(rows[KeeperOf(rows, p)]) == p
  {
    hide Members, Postings, Keeper;
    assert KeeperOf(rows, p) in Members(rows, p);
  }

  /** Some update among the first `n` is for this row. */
  ghost predicate Touched(steps: seq<Update>, n: nat, id: nat)
    requires n <= |steps|
  {
    exists q :: 0 <= q < n && steps[q].id == id
  }

  /** Every step is some row's own update. */
  lemma {:induction false} StepsAreRowUpdates(rows: seq<Row>, q: nat) returns (m: nat)
    requires q < |PlanOf(rows)|
    ensures m < |rows| && PlanOf(rows)[q] == UpdateFor(rows, m)
    ensures if q < |AllMoves(rows, Postings(rows))| then Moved(rows, m) else Kept(rows, m)
  {
    hide AllMoves, AllRekeys, Moved, Kept, PatchFor, Postings;
    var ps := Postings(rows);
    MovesAreTheMoved(rows, ps);
    RekeysAreTheKept(rows, ps);
    var moves, rekeys := AllMoves(rows, ps), AllRekeys(rows, ps);
    if q < |moves| {
      assert moves[q] in moves;
      m :| 0 <= m < |rows| && Moved(rows, m) && moves[q] == UpdateFor(rows, m);
    } else {
      assert rekeys[q - |moves|] in rekeys;
      m :| 0 <= m < |rows| && Kept(rows, m) && rekeys[q - |moves|] == UpdateFor(rows, m);
    }
  }

  lemma {:induction false} TouchedStep(steps: seq<Update>, n: nat, id: nat)
    requires n < |steps|
    ensures Touched(steps, n + 1, id) <==> Touched(steps, n, id) || steps[n].id == id
  {
  }

  /** After the first `n` updates a row is its patched self if one of them was for it, and
      otherwise as it was. */
  lemma {:induction false} RowAfter(rows: seq<Row>, n: nat, i: nat)
    requires DistinctIds(rows) && n <= |PlanOf(rows)| && i < |rows|
    ensures var steps := PlanOf(rows);
            ApplyAll(rows, steps[..n])[i]
            == if Touched(steps, n, rows[i].id) then Patched(rows[i], PatchFor(rows, i)) else rows[i]
  {
    hide PlanOf, PatchFor, Moved, Kept, Touched, Apply;
    var steps := PlanOf(rows);
    if n == 0 {
      NothingTouched(steps, rows[i].id);
    } else {
      RowAfter(rows, n - 1, i);
      assert steps[..n][..n - 1] == steps[..n - 1];
      TouchedStep(steps, n - 1, rows[i].id);
      var m := StepsAreRowUpdates(rows, n - 1);
      if rows[i].id == steps[n - 1].id {
        assert i == m;
      }
    }
  }

  lemma {:induction false} NothingTouched(steps: seq<Update>, id: nat)
    ensures !Touched(steps, 0, id)
  {
  }

  /** Digits up to the first dash. */
  lemma {:induction false} SplitAtDash(x: string, rest: string, y: string, rest': string)
    requires '-' !in x && '-' !in y
    requires x + ("-" + rest) == y + ("-" + rest')
    ensures x == y && rest == rest'
  {
    var a, b := x + ("-" + rest), y + ("-" + rest');
    assert a[|x|] == '-' && b[|y|] == '-';
    forall k | 0 <= k < |x| ensures a[k] != '-' {
      assert a[k] == x[k];
    }
    forall k | 0 <= k < |y| ensures b[k] != '-' {
      assert b[k] == y[k];
    }
    assert |x| == |y|;
    assert x == a[..|x|] && y == b[..|y|];
    assert rest == a[|x| + 1..] && rest' == b[|y| + 1..];
  }

  /** What a moved-aside key is made of. */
  lemma {:induction false} DuplicateKeyParts(id: nat, keeperId: nat)
    ensures var key := DuplicateKey(id, keeperId);
            |key| > 4 && key[1] == 'u' && key[4..] == Decimal(id) + ("-" + ("of-" + Decimal(keeperId)))
  {
    hide Decimal;
    var own, rest := Decimal(id), "of-" + Decimal(keeperId);
    assert DuplicateKey(id, keeperId) == "dup-" + (own + ("-" + rest));
  }

  /** A moved-aside key names one row, and is never in V1's form. */
  lemma {:induction false} DuplicateKeysNameTheirRow(id: nat, keeperId: nat, id': nat, keeperId': nat)
    ensures DuplicateKey(id, keeperId) == DuplicateKey(id', keeperId') ==> id == id' && keeperId == keeperId'
    ensures !MatchesV1(DuplicateKey(id, keeperId))
  {
    hide Decimal, Value, DuplicateKey;
    var a, b := DuplicateKey(id, keeperId), DuplicateKey(id', keeperId');
    DuplicateKeyParts(id, keeperId);
    DuplicateKeyParts(id', keeperId');
    assert a[1] in a;
    assert |a| == 17 ==> a[..16][1] in a[..16];
    DecimalReadsBack(id);
    DecimalReadsBack(id');
    if a == b {
      SplitAtDash(Decimal(id), "of-" + Decimal(keeperId), Decimal(id'), "of-" + Decimal(keeperId'));
      assert Decimal(keeperId) == ("of-" + Decimal(keeperId))[3..] == ("of-" + Decimal(keeperId'))[3..];
      DecimalReadsBack(keeperId);
      DecimalReadsBack(keeperId');
    }
  }

  /** The words, written out, and that a reason names one keeper. */
  lemma {:induction false} DuplicatesAreWorded(keeperId: nat, keeperId': nat)
    ensures DuplicateKey(12, 7) == "dup-12-of-7" && DuplicateReason(7) == "Duplicate of #7"
    ensures DuplicateReason(keeperId) == DuplicateReason(keeperId') ==> keeperId == keeperId'
  {
    hide Value;
    DecimalReadsBack(keeperId);
    DecimalReadsBack(keeperId');
    var n := |"Duplicate of #"|;
    assert DuplicateReason(keeperId)[n..] == Decimal(keeperId);
    assert DuplicateReason(keeperId')[n..] == Decimal(keeperId');
    assert Decimal(12) == "12" && Decimal(7) == "7";
  }

  /** What a row's own update does to its key. */
  lemma {:induction false} KeyAfterPatch(rows: seq<Row>, m: nat)
    requires m < |rows|
    ensures var after := Patched(rows[m], PatchFor(rows, m));
            && after.id == rows[m].id && after.user == rows[m].user
            && after.v1Key == rows[m].v1Key
            && (Moved(rows, m) ==> exists k :: after.key == DuplicateKey(rows[m].id, k))
            && (Kept(rows, m) ==> after.key == rows[m].v1Key)
            && (!Moved(rows, m) && !Kept(rows, m) ==> after == rows[m])
  {
    hide Members, Keeper, Newest, Postings, DuplicateKey;
  }

  /** Once a kept row has its update, every duplicate has moved aside. */
  lemma {:induction false} DuplicatesMoveFirst(rows: seq<Row>, n: nat, keeper: nat, m: nat)
    requires DistinctIds(rows) && n <= |PlanOf(rows)| && keeper < |rows| && m < |rows|
    requires Kept(rows, keeper) && Touched(PlanOf(rows), n, rows[keeper].id) && Moved(rows, m)
    ensures Touched(PlanOf(rows), n, rows[m].id)
  {
    hide AllMoves, AllRekeys, Postings, NeedsRepair;
    var steps, moves := PlanOf(rows), AllMoves(rows, Postings(rows));
    var q :| 0 <= q < n && steps[q].id == rows[keeper].id;
    var k := StepsAreRowUpdates(rows, q);
    assert k == keeper && q >= |moves|;
    MovesAreTheMoved(rows, Postings(rows));
    assert UpdateFor(rows, m) in moves;
    var j :| 0 <= j < |moves| && moves[j] == UpdateFor(rows, m);
    assert steps[j] == moves[j];
  }

  /** Two rows never share a user and key, whatever part of the plan has been applied. */
  lemma {:induction false} KeysStayApart(rows: seq<Row>, n: nat, i: nat, j: nat)
    requires HexKeys(rows) && WellKeyed(rows) && n <= |PlanOf(rows)|
    requires i < |rows| && j < |rows| && i != j && rows[i].user == rows[j].user
    requires Touched(PlanOf(rows), n, rows[i].id)
    ensures var after := ApplyAll(rows, PlanOf(rows)[..n]); after[i].key != after[j].key
  {
    hide PlanOf, PatchFor, ApplyAll, DuplicateKey, MatchesV1, Touched, Patched, NeedsRepair, Members, Postings, Keeper;
    RowAfter(rows, n, i);
    RowAfter(rows, n, j);
    KeyAfterPatch(rows, i);
    KeyAfterPatch(rows, j);
    HexIsV1(rows, i);
    HexIsV1(rows, j);
    assert OwnKey(rows[i]) && OwnKey(rows[j]);
    var after := ApplyAll(rows, PlanOf(rows)[..n]);
    var q := TouchedIsPlanned(rows, n, i);
    if Moved(rows, i) {
      var k :| after[i].key == DuplicateKey(rows[i].id, k);
      DuplicateKeysNameTheirRow(rows[i].id, k, 0, 0);
      if Touched(PlanOf(rows), n, rows[j].id) && Moved(rows, j) {
        var l :| after[j].key == DuplicateKey(rows[j].id, l);
        DuplicateKeysNameTheirRow(rows[i].id, k, rows[j].id, l);
      }
    } else if after[i].key == after[j].key {
      if Touched(PlanOf(rows), n, rows[j].id) {
        var q' := TouchedIsPlanned(rows, n, j);
        if Moved(rows, j) {
          var l :| after[j].key == DuplicateKey(rows[j].id, l);
          DuplicateKeysNameTheirRow(rows[j].id, l, 0, 0);
        }
      } else {
        assert PostingOf(rows[j]) == PostingOf(rows[i]);
        DuplicatesMoveFirst(rows, n, i, j);
      }
    }
  }

  lemma {:induction false} HexIsV1(rows: seq<Row>, i: nat)
    requires HexKeys(rows) && i < |rows|
    ensures MatchesV1(rows[i].v1Key)
  {
  }

  lemma {:induction false} TouchedIsPlanned(rows: seq<Row>, n: nat, i: nat) returns (q: nat)
    requires DistinctIds(rows) && n <= |PlanOf(rows)| && i < |rows|
    requires Touched(PlanOf(rows), n, rows[i].id)
    ensures Moved(rows, i) || Kept(rows, i)
  {
    hide PlanOf, PatchFor, Moved, Kept;
    q :| 0 <= q < n && PlanOf(rows)[q].id == rows[i].id;
    var m := StepsAreRowUpdates(rows, q);
    assert m == i;
  }

  /** The unique index holds after every single update, and whatever prefix was applied the
      table can be planned and repaired again. */
  lemma {:induction false} WellKeyedAfterEveryUpdate(rows: seq<Row>, n: nat)
    requires HexKeys(rows) && WellKeyed(rows) && n <= |PlanOf(rows)|
    ensures WellKeyed(ApplyAll(rows, PlanOf(rows)[..n])) && UniqueKeys(ApplyAll(rows, PlanOf(rows)[..n]))
  {
    hide PlanOf, PatchFor, ApplyAll, DuplicateKey, MatchesV1, Touched, Moved, Kept, Patched;
    var steps := PlanOf(rows);
    var after := ApplyAll(rows, steps[..n]);
    forall i | 0 <= i < |rows|
      ensures after[i] == (if Touched(steps, n, rows[i].id) then Patched(rows[i], PatchFor(rows, i)) else rows[i])
      ensures after[i].id == rows[i].id && after[i].user == rows[i].user && OwnKey(after[i])
    {
      RowAfter(rows, n, i);
      KeyAfterPatch(rows, i);
      KeptKeyIsOwn(rows, n, i);
    }
    forall i, j | 0 <= i < j < |rows| ensures !(after[i].user == after[j].user && after[i].key == after[j].key) {
      if rows[i].user == rows[j].user {
        if Touched(steps, n, rows[i].id) {
          KeysStayApart(rows, n, i, j);
        } else if Touched(steps, n, rows[j].id) {
          KeysStayApart(rows, n, j, i);
        }
      }
    }
  }

  lemma {:induction false} KeptKeyIsOwn(rows: seq<Row>, n: nat, i: nat)
    requires HexKeys(rows) && WellKeyed(rows) && n <= |PlanOf(rows)| && i < |rows|
    ensures OwnKey(ApplyAll(rows, PlanOf(rows)[..n])[i])
  {
    hide PlanOf, PatchFor, ApplyAll, DuplicateKey, MatchesV1, Touched, Moved, Kept, Patched;
    RowAfter(rows, n, i);
    KeyAfterPatch(rows, i);
    HexIsV1(rows, i);
    var r := ApplyAll(rows, PlanOf(rows)[..n])[i];
    assert OwnKey(rows[i]);
    forall id, k ensures !MatchesV1(DuplicateKey(id, k)) {
      DuplicateKeysNameTheirRow(id, k, 0, 0);
    }
    if Moved(rows, i) && r != rows[i] {
      var k :| r.key == DuplicateKey(rows[i].id, k);
      forall id, l | r.key == DuplicateKey(id, l) ensures id == r.id {
        DuplicateKeysNameTheirRow(rows[i].id, k, id, l);
      }
    }
  }

  // ── When an update is refused ──────────────────────────────────────────

  /** Row `j` is in the way of step `q`, which is for row `i`: it has the key the step writes, and
      its own update has not been applied yet, if it has one. */
  ghost predicate InTheWay(rows: seq<Row>, q: nat, i: nat, j: nat)
    requires q < |PlanOf(rows)| && i < |rows| && j < |rows|
  {
    var u := PlanOf(rows)[q];
    && i != j && rows[i].id == u.id && rows[i].user == rows[j].user
    && u.patch.key == Some(rows[j].key) && !Touched(PlanOf(rows), q, rows[j].id)
  }

  ghost predicate Blocked(rows: seq<Row>, q: nat)
    requires q < |PlanOf(rows)|
  {
    exists i, j :: 0 <= i < |rows| && 0 <= j < |rows| && InTheWay(rows, q, i, j)
  }

  ghost predicate NothingInTheWay(rows: seq<Row>) {
    forall q :: 0 <= q < |PlanOf(rows)| ==> !Blocked(rows, q)
  }

  /** Two rows that both have their updates never share a user and key, whatever the table was. */
  lemma {:induction false} TouchedRowsStayApart(rows: seq<Row>, n: nat, i: nat, j: nat)
    requires HexKeys(rows) && DistinctIds(rows) && n <= |PlanOf(rows)|
    requires i < |rows| && j < |rows| && i != j && rows[i].user == rows[j].user
    requires Touched(PlanOf(rows), n, rows[i].id) && Touched(PlanOf(rows), n, rows[j].id)
    ensures Patched(rows[i], PatchFor(rows, i)).key != Patched(rows[j], PatchFor(rows, j)).key
  {
    hide PlanOf, PatchFor, DuplicateKey, MatchesV1, Touched, Patched, NeedsRepair, Members, Postings, Keeper;
    KeyAfterPatch(rows, i);
    KeyAfterPatch(rows, j);
    HexIsV1(rows, i);
    HexIsV1(rows, j);
    var q := TouchedIsPlanned(rows, n, i);
    var q' := TouchedIsPlanned(rows, n, j);
    if Moved(rows, i) {
      var k :| Patched(rows[i], PatchFor(rows, i)).key == DuplicateKey(rows[i].id, k);
      DuplicateKeysNameTheirRow(rows[i].id, k, 0, 0);
      if Moved(rows, j) {
        var l :| Patched(rows[j], PatchFor(rows, j)).key == DuplicateKey(rows[j].id, l);
        DuplicateKeysNameTheirRow(rows[i].id, k, rows[j].id, l);
      }
    } else if Moved(rows, j) {
      var l :| Patched(rows[j], PatchFor(rows, j)).key == DuplicateKey(rows[j].id, l);
      DuplicateKeysNameTheirRow(rows[j].id, l, 0, 0);
    }
  }

  /** The step for row `m`, on the tables before and after it. */
  lemma {:induction false} OneUpdate(rows: seq<Row>, q: nat) returns (m: nat)
    requires DistinctIds(rows) && q < |PlanOf(rows)|
    ensures m < |rows| && PlanOf(rows)[q] == UpdateFor(rows, m) && Touched(PlanOf(rows), q + 1, rows[m].id)
    ensures forall i :: 0 <= i < |rows| && i != m ==>
              ApplyAll(rows, PlanOf(rows)[..q + 1])[i] == ApplyAll(rows, PlanOf(rows)[..q])[i]
              && (Touched(PlanOf(rows), q + 1, rows[i].id) <==> Touched(PlanOf(rows), q, rows[i].id))
  {
    hide PlanOf, PatchFor, ApplyAll, Touched;
    m := StepsAreRowUpdates(rows, q);
    TouchedStep(PlanOf(rows), q, rows[m].id);
    forall i | 0 <= i < |rows| && i != m
      ensures ApplyAll(rows, PlanOf(rows)[..q + 1])[i] == ApplyAll(rows, PlanOf(rows)[..q])[i]
              && (Touched(PlanOf(rows), q + 1, rows[i].id) <==> Touched(PlanOf(rows), q, rows[i].id))
    {
      RowAfter(rows, q, i);
      RowAfter(rows, q + 1, i);
      TouchedStep(PlanOf(rows), q, rows[i].id);
    }
  }

  /** On a table the index holds for so far, with distinct ids, the next update is refused exactly
      when some row is in its way. */
  lemma {:induction false} RefusedExactly(rows: seq<Row>, q: nat)
    requires HexKeys(rows) && DistinctIds(rows) && q < |PlanOf(rows)|
    requires UniqueKeys(ApplyAll(rows, PlanOf(rows)[..q]))
    ensures !UniqueKeys(ApplyAll(rows, PlanOf(rows)[..q + 1])) <==> Blocked(rows, q)
  {
    hide PlanOf, PatchFor, ApplyAll, Touched, HexKeys, Patched, UniqueKeys;
    var m := OneUpdate(rows, q);
    var before, after := ApplyAll(rows, PlanOf(rows)[..q]), ApplyAll(rows, PlanOf(rows)[..q + 1]);
    RowAfter(rows, q + 1, m);
    UsersStay(rows, q + 1);
    forall j | 0 <= j < |rows| && j != m && rows[j].user == rows[m].user
      ensures after[j].key == after[m].key <==> InTheWay(rows, q, m, j)
    {
      ClashExactly(rows, q, m, j);
    }
    ClashIsWithTheUpdated(before, after, m);
    if Blocked(rows, q) {
      var i, j :| 0 <= i < |rows| && 0 <= j < |rows| && InTheWay(rows, q, i, j);
      assert i == m;
    }
  }

  lemma {:induction false} UsersStay(rows: seq<Row>, n: nat)
    requires DistinctIds(rows) && n <= |PlanOf(rows)|
    ensures forall i :: 0 <= i < |rows| ==> ApplyAll(rows, PlanOf(rows)[..n])[i].user == rows[i].user
  {
    hide PlanOf, PatchFor, ApplyAll, Touched;
    forall i | 0 <= i < |rows| ensures ApplyAll(rows, PlanOf(rows)[..n])[i].user == rows[i].user {
      RowAfter(rows, n, i);
    }
  }

  /** If only row `m` changed, the index breaks exactly where `m` meets another row. */
  lemma {:induction false} ClashIsWithTheUpdated(before: seq<Row>, after: seq<Row>, m: nat)
    requires |before| == |after| && m < |after| && UniqueKeys(before)
    requires forall i :: 0 <= i < |after| && i != m ==> after[i] == before[i]
    ensures !UniqueKeys(after) <==>
              exists j :: 0 <= j < |after| && j != m && after[j].user == after[m].user && after[j].key == after[m].key
  {
  }

  lemma {:induction false} ClashExactly(rows: seq<Row>, q: nat, m: nat, j: nat)
    requires HexKeys(rows) && DistinctIds(rows) && q < |PlanOf(rows)|
    requires UniqueKeys(ApplyAll(rows, PlanOf(rows)[..q]))
    requires m < |rows| && PlanOf(rows)[q] == UpdateFor(rows, m) && Touched(PlanOf(rows), q + 1, rows[m].id)
    requires j < |rows| && j != m && rows[j].user == rows[m].user
    ensures var after := ApplyAll(rows, PlanOf(rows)[..q + 1]);
            after[j].key == after[m].key <==> InTheWay(rows, q, m, j)
  {
    hide PlanOf, PatchFor, ApplyAll, Touched, HexKeys, UniqueKeys;
    var before, after := ApplyAll(rows, PlanOf(rows)[..q]), ApplyAll(rows, PlanOf(rows)[..q + 1]);
    RowAfter(rows, q, j);
    RowAfter(rows, q + 1, j);
    RowAfter(rows, q, m);
    RowAfter(rows, q + 1, m);
    TouchedStep(PlanOf(rows), q, rows[j].id);
    if Touched(PlanOf(rows), q, rows[j].id) {
      TouchedRowsStayApart(rows, q + 1, m, j);
    } else {
      UniqueBetween(before, m, j);
      UsersStay(rows, q);
    }
  }

  lemma {:induction false} UniqueBetween(rows: seq<Row>, i: nat, j: nat)
    requires UniqueKeys(rows) && i < |rows| && j < |rows| && i != j
    ensures !(rows[i].user == rows[j].user && rows[i].key == rows[j].key)
  {
  }

  /** So the index holds after every single update exactly when nothing is ever in the way. */
  lemma {:induction false} NeverRefusedExactly(rows: seq<Row>)
    requires HexKeys(rows) && DistinctIds(rows) && UniqueKeys(rows)
    ensures (forall n :: 0 <= n <= |PlanOf(rows)| ==> UniqueKeys(ApplyAll(rows, PlanOf(rows)[..n])))
            <==> NothingInTheWay(rows)
  {
    hide PlanOf, ApplyAll, HexKeys, DistinctIds, UniqueKeys, Blocked;
    if forall n :: 0 <= n <= |PlanOf(rows)| ==> UniqueKeys(ApplyAll(rows, PlanOf(rows)[..n])) {
      forall q | 0 <= q < |PlanOf(rows)| ensures !Blocked(rows, q) {
        RefusedExactly(rows, q);
      }
    }
    if NothingInTheWay(rows) {
      forall n | 0 <= n <= |PlanOf(rows)| ensures UniqueKeys(ApplyAll(rows, PlanOf(rows)[..n])) {
        UniqueSoFar(rows, n);
      }
    }
  }

  lemma {:induction false} UniqueSoFar(rows: seq<Row>, n: nat)
    requires HexKeys(rows) && DistinctIds(rows) && UniqueKeys(rows) && NothingInTheWay(rows) && n <= |PlanOf(rows)|
    ensures UniqueKeys(ApplyAll(rows, PlanOf(rows)[..n]))
  {
    hide PlanOf, HexKeys, DistinctIds, UniqueKeys, Blocked;
    if n == 0 {
      assert PlanOf(rows)[..0] == [];
    } else {
      UniqueSoFar(rows, n - 1);
      RefusedExactly(rows, n - 1);
    }
  }

  // ── What the finished repair leaves ────────────────────────────────────

  /** At the end every row is its patched self. */
  lemma {:induction false} AllUpdatesApplied(rows: seq<Row>, i: nat)
    requires DistinctIds(rows) && i < |rows|
    ensures ApplyAll(rows, PlanOf(rows))[i] == Patched(rows[i], PatchFor(rows, i))
  {
    hide AllMoves, AllRekeys, Postings, NeedsRepair, KeeperOf, ApplyAll, MovePatch, RekeyPatch, Newest;
    var steps, ps := PlanOf(rows), Postings(rows);
    RowAfter(rows, |steps|, i);
    assert steps[..|steps|] == steps;
    if Moved(rows, i) {
      MovesAreTheMoved(rows, ps);
      assert UpdateFor(rows, i) in steps;
    } else if Kept(rows, i) && !PatchFor(rows, i).Empty() {
      RekeysAreTheKept(rows, ps);
      assert UpdateFor(rows, i) in steps;
    }
  }

  /** What the finished repair promises of one row: outside the repaired postings nothing
      changed; inside, the keeper holds the V1 key and the newest sighting and keeps its
      decision, and every other row is dismissed as its duplicate. */
  ghost predicate Repaired(rows: seq<Row>, after: seq<Row>, i: nat)
    requires i < |rows| == |after|
  {
    var p := PostingOf(rows[i]);
    if !NeedsRepair(rows, p) then after[i] == rows[i]
    else
      var keeper := KeeperOf(rows, p);
      if i == keeper then
        && after[i] == rows[i].(key := p.1, lastSeen := after[i].lastSeen)
        && (forall m <- Members(rows, p) :: !Less(LastSeen(after[i]), LastSeen(rows[m])))
        && (exists m <- Members(rows, p) :: LastSeen(after[i]) == LastSeen(rows[m]))
      else
        after[i] == rows[i].(key := DuplicateKey(rows[i].id, rows[keeper].id), status := "dismissed",
                             dismissReason := Some(DuplicateReason(rows[keeper].id)))
  }

  lemma {:induction false} RepairLeavesOneRowAPosting(rows: seq<Row>)
    requires DistinctIds(rows)
    ensures var after := ApplyAll(rows, PlanOf(rows));
            forall i :: 0 <= i < |rows| ==> Repaired(rows, after, i)
  {
    hide PlanOf, ApplyAll, AllMoves, AllRekeys, Keeper;
    var after := ApplyAll(rows, PlanOf(rows));
    forall i | 0 <= i < |rows| ensures Repaired(rows, after, i) {
      AllUpdatesApplied(rows, i);
      var p := PostingOf(rows[i]);
      if Kept(rows, i) {
        KeeperHasTheNewest(rows, i);
      }
    }
  }

  lemma {:induction false} KeeperHasTheNewest(rows: seq<Row>, i: nat)
    requires i < |rows| && Kept(rows, i)
    ensures var members := Members(rows, PostingOf(rows[i]));
            var r := Patched(rows[i], PatchFor(rows, i));
            && LastSeen(r) == Newest(rows, members)
            && (forall m <- members :: !Less(Newest(rows, members), LastSeen(rows[m])))
            && (exists m <- members :: LastSeen(rows[m]) == Newest(rows, members))
  {
    hide Members, Keeper, Newest, Postings;
    var members := Members(rows, PostingOf(rows[i]));
    assert i in members;
    NewestIsNewest(rows, members);
    var newest := Newest(rows, members);
    var r := Patched(rows[i], PatchFor(rows, i));
    var j :| 0 <= j < |members| && LastSeen(rows[members[j]]) == newest;
    assert members[j] in members;
    if newest == "" {
      var k :| 0 <= k < |members| && members[k] == i;
      assert !Less("", LastSeen(rows[members[k]]));
      LessIsStrict("", LastSeen(rows[i]));
    }
  }

  /** The sighting the kept row ends with: none of the posting's is later, and it is the row's own
      as before or a real one of the posting. */
  lemma {:induction false} NewestSightingIsKept(rows: seq<Row>, i: nat, m: nat)
    requires DistinctIds(rows) && i < |rows| && Kept(rows, i) && m < |rows|
    requires rows[m].user == rows[i].user && rows[m].v1Key == rows[i].v1Key
    ensures var after := ApplyAll(rows, PlanOf(rows))[i].lastSeen;
            && (rows[m].lastSeen.Some? && |rows[m].lastSeen.value| > 0 ==>
                  after.Some? && !Before(after.value, rows[m].lastSeen.value))
            && (after == rows[i].lastSeen ||
                  exists n :: 0 <= n < |rows| && rows[n].user == rows[i].user && rows[n].v1Key == rows[i].v1Key
                              && rows[n].lastSeen == after && after != Some(""))
  {
    hide ApplyAll, PlanOf, Members, Newest, Less, Before, NeedsRepair, KeeperOf;
    AllUpdatesApplied(rows, i);
    KeeperHasTheNewest(rows, i);
    var members := Members(rows, PostingOf(rows[i]));
    assert m in members;
    var newest := Newest(rows, members);
    var n :| n in members && LastSeen(rows[n]) == newest;
    LessIsBefore(newest, LastSeen(rows[m]));
    if rows[m].lastSeen.Some? && |rows[m].lastSeen.value| > 0 {
      LessIsBefore("", rows[m].lastSeen.value);
      BeforeStarts("", rows[m].lastSeen.value);
    }
  }

  /** A posting anyone decided on keeps a decided row. */
  lemma {:induction false} DecisionsSurvive(rows: seq<Row>, i: nat)
    requires i < |rows| && Decided(rows[i])
    ensures Decided(rows[KeeperOf(rows, PostingOf(rows[i]))])
  {
    var members := Members(rows, PostingOf(rows[i]));
    assert i in members;
    KeeperIsBest(rows, members);
  }

  /** The script's own closing count is zero: every key left is V1's or moved aside. */
  lemma {:induction false} NothingLeftOnAnotherKey(rows: seq<Row>, i: nat)
    requires HexKeys(rows) && DistinctIds(rows) && i < |rows|
    ensures var key := ApplyAll(rows, PlanOf(rows))[i].key;
            MatchesV1(key) || "dup-" <= key
  {
    hide PlanOf, ApplyAll, PatchFor, MatchesV1, Keeper;
    AllUpdatesApplied(rows, i);
    KeyAfterPatch(rows, i);
    HexIsV1(rows, i);
    if !Moved(rows, i) && !Kept(rows, i) {
      assert i in Members(rows, PostingOf(rows[i]));
    }
  }
}
