/** `RoundRepo` (`backend/app/repos/rounds.py`): the queries and updates on the `rounds`
    and `items` tables that the round service uses. Queries are functions of the tables;
    updates are methods on the connection. */
module RoundRepo {
  import opened Results
  import opened Schemas
  import opened Database
  import Order

  /** `WHERE id=%s AND game_set=%s`: the round row if it belongs to the caller's game set.
      Both `get_round_state` and `get_round_details` select this row. */
  function ScopedRound(t: Tables, rid: Id, gs: string): (r: Option<RoundRow>)
    ensures r.Some? <==> rid in t.rounds && t.rounds[rid].gameSet == gs
    ensures r.Some? ==> r.value == t.rounds[rid]
  {
    if rid in t.rounds && t.rounds[rid].gameSet == gs then Some(t.rounds[rid]) else None
  }

  /** A round of another game set is invisible to both round queries. */
  lemma ScopedRoundIsolation(t: Tables, rid: Id, gs: string, other: string)
    requires rid in t.rounds && t.rounds[rid].gameSet == gs && other != gs
    ensures ScopedRound(t, rid, other) == None
    ensures ScopedRound(t, rid, gs) == Some(t.rounds[rid])
  {
  }

  predicate Matches(row: ItemRow, iid: Id, rid: Id) {
    row.id == iid && row.roundId == rid
  }

  predicate RemainingIn(row: ItemRow, rid: Id) {
    row.roundId == rid && !row.eliminated
  }

  /** The rows of round `rid`, in table order (`WHERE round_id=%s`). */
  function RowsOfRound(items: seq<ItemRow>, rid: Id): (r: seq<ItemRow>)
    ensures |r| <= |items|
    ensures forall x :: x in r <==> x in items && x.roundId == rid
  {
    if items == [] then []
    else
      assert items == [items[0]] + items[1..];
      (if items[0].roundId == rid then [items[0]] else []) + RowsOfRound(items[1..], rid)
  }

  function TitleOf(row: ItemRow): string {
    row.title
  }

  /** `list_round_items`: the rows of round `rid` in ascending title order. */
  function ListRoundItems(items: seq<ItemRow>, rid: Id): (r: seq<ItemRow>)
    ensures Order.SortedBy(r, TitleOf)
    ensures multiset(r) == multiset(RowsOfRound(items, rid))
    ensures forall x :: x in r <==> x in items && x.roundId == rid
  {
    var rows := RowsOfRound(items, rid);
    var r := Order.SortBy(rows, TitleOf);
    assert forall x :: x in r <==> x in multiset(rows);
    r
  }

  /** `get_item_eliminated_flag`: the `eliminated` column of the item `iid` of round `rid`,
      or `None` when the round has no such item. */
  function ItemEliminatedFlag(items: seq<ItemRow>, iid: Id, rid: Id): (r: Option<bool>)
    ensures r.None? <==> forall k | 0 <= k < |items| :: !Matches(items[k], iid, rid)
    ensures r.Some? ==> exists k | 0 <= k < |items| :: Matches(items[k], iid, rid) && items[k].eliminated == r.value
  {
    if items == [] then None
    else if Matches(items[0], iid, rid) then Some(items[0].eliminated)
    else
      var r := ItemEliminatedFlag(items[1..], iid, rid);
      assert forall k | 1 <= k < |items| :: items[k] == items[1..][k - 1];
      r
  }

  /** With distinct ids the flag is that of the one matching row. */
  lemma ItemEliminatedFlagAt(items: seq<ItemRow>, iid: Id, rid: Id, k: nat)
    requires ItemIdsDistinct(items)
    requires k < |items| && Matches(items[k], iid, rid)
    ensures ItemEliminatedFlag(items, iid, rid) == Some(items[k].eliminated)
  {
  }

  /** The row after `UPDATE items SET eliminated=true, eliminated_by_team=%s`. */
  function MarkRow(row: ItemRow, team: TeamId): ItemRow {
    row.(eliminated := true, eliminatedByTeam := Some(team))
  }

  /** `eliminate_item`: marks the item `iid` of round `rid` as eliminated by `team`;
      every other row is left as it was. */
  function MarkEliminated(items: seq<ItemRow>, iid: Id, rid: Id, team: TeamId): (r: seq<ItemRow>)
    ensures |r| == |items|
    ensures forall k | 0 <= k < |items| ::
              r[k] == if Matches(items[k], iid, rid) then MarkRow(items[k], team) else items[k]
  {
    if items == [] then []
    else
      var rest := MarkEliminated(items[1..], iid, rid, team);
      var head := if Matches(items[0], iid, rid) then MarkRow(items[0], team) else items[0];
      assert forall k | 1 <= k < |items| :: items[k] == items[1..][k - 1];
      [head] + rest
  }

  /** Marking changes no id, so distinct ids stay distinct. */
  lemma MarkEliminatedKeepsIds(items: seq<ItemRow>, iid: Id, rid: Id, team: TeamId)
    ensures forall k | 0 <= k < |items| ::
              MarkEliminated(items, iid, rid, team)[k].id == items[k].id &&
              MarkEliminated(items, iid, rid, team)[k].roundId == items[k].roundId
    ensures ItemIdsDistinct(items) ==> ItemIdsDistinct(MarkEliminated(items, iid, rid, team))
  {
  }

  /** After marking, the flag of a row that exists reads true. */
  lemma MarkedFlag(items: seq<ItemRow>, iid: Id, rid: Id, team: TeamId, k: nat)
    requires k < |items| && Matches(items[k], iid, rid)
    ensures ItemEliminatedFlag(MarkEliminated(items, iid, rid, team), iid, rid) == Some(true)
  {
    var m := MarkEliminated(items, iid, rid, team);
    assert Matches(m[k], iid, rid);
    assert forall j | 0 <= j < |m| && Matches(m[j], iid, rid) :: m[j].eliminated;
  }

  /** `count_remaining_items`: `SELECT COUNT(*) ... WHERE round_id=%s AND eliminated=false`. */
  function CountRemaining(items: seq<ItemRow>, rid: Id): (n: nat)
    ensures n <= |items|
  {
    if items == [] then 0
    else (if RemainingIn(items[0], rid) then 1 else 0) + CountRemaining(items[1..], rid)
  }

  /** The count is zero exactly when the round has no remaining row. */
  lemma {:induction false} CountRemainingZero(items: seq<ItemRow>, rid: Id)
    ensures CountRemaining(items, rid) == 0 <==> forall k | 0 <= k < |items| :: !RemainingIn(items[k], rid)
  {
    if items != [] {
      CountRemainingZero(items[1..], rid);
      assert forall k | 1 <= k < |items| :: items[k] == items[1..][k - 1];
    }
  }

  /** Marking a row that no row matches leaves the table as it was. */
  lemma {:induction false} MarkUnmatched(items: seq<ItemRow>, iid: Id, rid: Id, team: TeamId)
    requires forall k | 0 <= k < |items| :: !Matches(items[k], iid, rid)
    ensures MarkEliminated(items, iid, rid, team) == items
  {
  }

  lemma DistinctTail(items: seq<ItemRow>)
    requires items != [] && ItemIdsDistinct(items)
    ensures ItemIdsDistinct(items[1..])
    ensures forall k | 0 <= k < |items[1..]| :: items[1..][k].id != items[0].id
  {
    forall i, j | 0 <= i < j < |items[1..]| ensures items[1..][i].id != items[1..][j].id {
      assert items[1..][i] == items[i + 1] && items[1..][j] == items[j + 1];
    }
    forall k | 0 <= k < |items[1..]| ensures items[1..][k].id != items[0].id {
      assert items[1..][k] == items[k + 1];
    }
  }

  /** Eliminating a remaining item lowers the round's remaining count by exactly one
      (ids are distinct, so exactly one row matches). */
  lemma {:induction false} CountRemainingAfterMark(items: seq<ItemRow>, iid: Id, rid: Id, team: TeamId)
    requires ItemIdsDistinct(items)
    requires ItemEliminatedFlag(items, iid, rid) == Some(false)
    ensures CountRemaining(MarkEliminated(items, iid, rid, team), rid) == CountRemaining(items, rid) - 1
  {
    var m := MarkEliminated(items, iid, rid, team);
    var tail := items[1..];
    assert m == [m[0]] + MarkEliminated(tail, iid, rid, team);
    DistinctTail(items);
    if Matches(items[0], iid, rid) {
      assert RemainingIn(items[0], rid) && !RemainingIn(m[0], rid);
      MarkUnmatched(tail, iid, rid, team);
    } else {
      assert m[0] == items[0];
      assert ItemEliminatedFlag(tail, iid, rid) == Some(false);
      CountRemainingAfterMark(tail, iid, rid, team);
    }
  }

  /** `get_last_remaining_item_id`: the id of the first remaining row of round `rid`. */
  function FirstRemaining(items: seq<ItemRow>, rid: Id): (r: Option<Id>)
    ensures r.None? <==> forall k | 0 <= k < |items| :: !RemainingIn(items[k], rid)
    ensures r.Some? ==> exists k | 0 <= k < |items| :: RemainingIn(items[k], rid) && items[k].id == r.value
  {
    if items == [] then None
    else if RemainingIn(items[0], rid) then Some(items[0].id)
    else
      var r := FirstRemaining(items[1..], rid);
      assert forall k | 1 <= k < |items| :: items[k] == items[1..][k - 1];
      r
  }

  /** When exactly one row of the round remains, the query returns that row's id. */
  lemma {:induction false} FirstRemainingSingle(items: seq<ItemRow>, rid: Id, k: nat)
    requires k < |items| && RemainingIn(items[k], rid)
    requires CountRemaining(items, rid) == 1
    ensures FirstRemaining(items, rid) == Some(items[k].id)
  {
    if k == 0 {
    } else if RemainingIn(items[0], rid) {
      assert items[1..][k - 1] == items[k];
      CountRemainingZero(items[1..], rid);
      assert false;
    } else {
      assert items[1..][k - 1] == items[k];
      FirstRemainingSingle(items[1..], rid, k - 1);
    }
  }

  /** True when the row of round `rid` is visible to game set `gs` and may be updated. */
  predicate InScope(rounds: map<Id, RoundRow>, rid: Id, gs: string) {
    rid in rounds && rounds[rid].gameSet == gs
  }

  /** `finish_round`: sets status, winner and loser of the matching round only. */
  function Finish(rounds: map<Id, RoundRow>, rid: Id, gs: string, w: Option<TeamId>, l: Option<TeamId>): (r: map<Id, RoundRow>)
    ensures r.Keys == rounds.Keys
    ensures forall k | k in rounds && k != rid :: r[k] == rounds[k]
    ensures InScope(rounds, rid, gs) ==>
              r[rid] == rounds[rid].(status := Finished, winnerTeam := w, loserTeam := l)
    ensures !InScope(rounds, rid, gs) ==> r == rounds
  {
    if InScope(rounds, rid, gs) then rounds[rid := rounds[rid].(status := Finished, winnerTeam := w, loserTeam := l)]
    else rounds
  }

  /** `set_current_team`: changes only `current_team` of the matching round. */
  function WithCurrentTeam(rounds: map<Id, RoundRow>, rid: Id, gs: string, team: TeamId): (r: map<Id, RoundRow>)
    ensures r.Keys == rounds.Keys
    ensures forall k | k in rounds && k != rid :: r[k] == rounds[k]
    ensures InScope(rounds, rid, gs) ==> r[rid] == rounds[rid].(currentTeam := team)
    ensures !InScope(rounds, rid, gs) ==> r == rounds
  {
    if InScope(rounds, rid, gs) then rounds[rid := rounds[rid].(currentTeam := team)] else rounds
  }

  /** `set_target_item_id`: changes only `target_item_id` of the matching round. */
  function WithTarget(rounds: map<Id, RoundRow>, rid: Id, gs: string, target: Id): (r: map<Id, RoundRow>)
    ensures r.Keys == rounds.Keys
    ensures forall k | k in rounds && k != rid :: r[k] == rounds[k]
    ensures InScope(rounds, rid, gs) ==> r[rid] == rounds[rid].(targetItemId := target)
    ensures !InScope(rounds, rid, gs) ==> r == rounds
  {
    if InScope(rounds, rid, gs) then rounds[rid := rounds[rid].(targetItemId := target)] else rounds
  }

  /** `get_placeholder_target_item_id`: any existing item id, else the nil UUID. */
  function PlaceholderTargetId(items: seq<ItemRow>): (r: Id)
    ensures r == 0 || exists k | 0 <= k < |items| :: items[k].id == r
  {
    if items == [] then 0 else items[0].id
  }

  // ---- updates on the connection ----

  method EliminateItem(db: Db, iid: Id, rid: Id, team: TeamId)
    modifies db
    ensures db.State() == old(db.State()).(items := MarkEliminated(old(db.items), iid, rid, team))
  {
    db.items := MarkEliminated(db.items, iid, rid, team);
  }

  method FinishRound(db: Db, rid: Id, gs: string, w: Option<TeamId>, l: Option<TeamId>)
    modifies db
    ensures db.State() == old(db.State()).(rounds := Finish(old(db.rounds), rid, gs, w, l))
  {
    db.rounds := Finish(db.rounds, rid, gs, w, l);
  }

  method SetCurrentTeam(db: Db, rid: Id, gs: string, team: TeamId)
    modifies db
    ensures db.State() == old(db.State()).(rounds := WithCurrentTeam(old(db.rounds), rid, gs, team))
  {
    db.rounds := WithCurrentTeam(db.rounds, rid, gs, team);
  }

  method SetTargetItemId(db: Db, rid: Id, gs: string, target: Id)
    modifies db
    ensures db.State() == old(db.State()).(rounds := WithTarget(old(db.rounds), rid, gs, target))
  {
    db.rounds := WithTarget(db.rounds, rid, gs, target);
  }

  /** `create_round`: inserts a round under a fresh id with a placeholder target and no
      winner or loser. */
  method CreateRound(db: Db, gs: string, category: string, prompt: string, kind: string,
                     currentTeam: TeamId, status: RoundStatus, imageData: Option<string>)
    returns (rid: Id)
    modifies db
    ensures rid == old(db.nextId)
    ensures db.State() == old(db.State()).(
              rounds := old(db.rounds)[rid := RoundRow(gs, category, prompt, kind, currentTeam, status,
                                                        PlaceholderTargetId(old(db.items)), None, None, imageData)],
              nextId := rid + 1)
  {
    var placeholder := PlaceholderTargetId(db.items);
    rid := db.NewId();
    db.rounds := db.rounds[rid := RoundRow(gs, category, prompt, kind, currentTeam, status, placeholder, None, None, imageData)];
  }
}
