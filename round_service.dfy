/** `RoundService` (`backend/app/services/rounds.py`): the game rules. A round is created
    from a built-in dataset or from a stored template; the teams then take turns
    eliminating items, and picking the round's target loses it for the team that picked it.
    Every operation is a method on the connection, proved against a function of the
    tables that says what the transaction leaves behind. */
module RoundService {
  import opened Results
  import opened Schemas
  import opened Database
  import Text
  import Order
  import RoundRepo
  import ItemRepo
  import TemplateRepo
  import Validators
  import Datasets

  const RoundNotFound := HttpError(404, "Round not found")
  const RoundFinished := HttpError(409, "Round already finished")
  const ItemNotFound := HttpError(404, "Item not found")
  const ItemAlreadyEliminated := HttpError(409, "Item already eliminated")
  const UnknownCategory := HttpError(400, "Unknown category")
  const DatasetTooSmall := HttpError(500, "Dataset must have at least 11 items")
  const TemplateNotFound := HttpError(404, "Template not found")
  /** The response FastAPI gives when building a `TemplateItemIn` raises a validation error. */
  const InvalidStoredItem := HttpError(500, "Internal Server Error")

  /** How many items a rated round draws from its dataset. */
  const ROUND_SIZE := 11

  // ---- teams ----

  /** `other_team`. */
  function OtherTeam(team: TeamId): (r: TeamId)
    ensures r != team
  {
    if team == 1 then 2 else 1
  }

  /** `winner_loser_from_loser`: the pair (winner, loser). */
  function WinnerLoserFromLoser(loser: TeamId): (r: (TeamId, TeamId))
    ensures r.1 == loser && r.0 != loser
  {
    (OtherTeam(loser), loser)
  }

  /** Switching teams twice gives the same team back; the unit tests of both helpers. */
  lemma TeamHelpers(team: TeamId)
    ensures OtherTeam(OtherTeam(team)) == team
    ensures OtherTeam(1) == 2 && OtherTeam(2) == 1
    ensures WinnerLoserFromLoser(1) == (2, 1) && WinnerLoserFromLoser(2) == (1, 2)
  {
  }

  // ---- what a response reveals ----

  /** One row of `list_round_items` as `round_to_response` shows it. */
  function ItemView(row: ItemRow, kind: string, status: RoundStatus, target: Id): (r: ItemOut)
    ensures r.id == row.id && r.title == row.title
    ensures r.eliminated == row.eliminated && r.eliminatedByTeam == row.eliminatedByTeam
    ensures status == Active && !row.eliminated ==> r.rating.None? && r.secretText.None?
    ensures status == Finished || row.eliminated ==> r.rating == row.rating && r.secretText == row.secretText
    ensures r.isTarget.Some? <==> status == Finished
    ensures r.isTarget == Some(true) <==> status == Finished && row.id == target
    ensures r.imageData.Some? ==> r.imageData == row.imageData
    ensures kind == "carousel" || status == Finished || row.eliminated ==> r.imageData == row.imageData
    ensures kind != "carousel" && status == Active && !row.eliminated ==> r.imageData.None?
  {
    var revealAll := status == Finished;
    var showHidden := revealAll || row.eliminated;
    var showImage := kind == "carousel" || showHidden;
    ItemOut(
      row.id, row.title, row.eliminated, row.eliminatedByTeam,
      if showHidden && row.rating.Some? then row.rating else None,
      if showHidden && row.secretText.Some? then row.secretText else None,
      if revealAll then Some(row.id == target) else None,
      if showImage && row.imageData.Some? then row.imageData else None)
  }

  /** Every listed row through `ItemView`, in order. */
  function ViewItems(rows: seq<ItemRow>, kind: string, status: RoundStatus, target: Id): (r: seq<ItemOut>)
    ensures |r| == |rows|
    ensures forall i | 0 <= i < |rows| :: r[i] == ItemView(rows[i], kind, status, target)
  {
    seq(|rows|, i requires 0 <= i < |rows| => ItemView(rows[i], kind, status, target))
  }

  /** `round_to_response`: the round in the caller's game set with its items in title
      order, each shown through `ItemView`. */
  function RoundToResponse(t: Tables, rid: Id, gs: string): (r: Result<RoundOut, HttpError>)
    ensures r.Err? <==> RoundRepo.ScopedRound(t, rid, gs).None?
    ensures r.Err? ==> r.error == RoundNotFound
    ensures r.Ok? ==>
              var row := t.rounds[rid];
              && r.value.id == rid && r.value.category == row.category && r.value.prompt == row.prompt
              && r.value.kind == row.kind && r.value.currentTeam == row.currentTeam
              && r.value.status == row.status && r.value.winnerTeam == row.winnerTeam
              && r.value.loserTeam == row.loserTeam && r.value.imageData == row.imageData
              && r.value.items == ViewItems(RoundRepo.ListRoundItems(t.items, rid), row.kind, row.status, row.targetItemId)
  {
    match RoundRepo.ScopedRound(t, rid, gs)
    case None => Err(RoundNotFound)
    case Some(row) =>
      var items := ViewItems(RoundRepo.ListRoundItems(t.items, rid), row.kind, row.status, row.targetItemId);
      Ok(RoundOut(rid, row.category, row.prompt, row.kind, row.currentTeam, row.status,
                  row.winnerTeam, row.loserTeam, items, row.imageData))
  }

  /** Every view names a row of round `rid`, with that row's id and title. */
  predicate NamesRoundRows(items: seq<ItemRow>, rid: Id, views: seq<ItemOut>) {
    forall i | 0 <= i < |views| :: exists k | 0 <= k < |items| ::
      items[k].roundId == rid && items[k].id == views[i].id && items[k].title == views[i].title
  }

  /** Every row of round `rid` has a view. */
  predicate ShowsEveryRow(items: seq<ItemRow>, rid: Id, views: seq<ItemOut>) {
    forall k | 0 <= k < |items| && items[k].roundId == rid ::
      exists i | 0 <= i < |views| :: views[i].id == items[k].id
  }

  /** The response lists exactly the round's rows, by id and title. */
  lemma ResponseListsRoundItems(t: Tables, rid: Id, gs: string, out: RoundOut)
    requires RoundToResponse(t, rid, gs) == Ok(out)
    ensures NamesRoundRows(t.items, rid, out.items)
    ensures ShowsEveryRow(t.items, rid, out.items)
  {
    var row := t.rounds[rid];
    var rows := RoundRepo.ListRoundItems(t.items, rid);
    ViewsOfListing(t.items, rid, rows, out.items, row.kind, row.status, row.targetItemId);
    ListingViews(t.items, rid, rows, out.items, row.kind, row.status, row.targetItemId);
  }

  lemma ViewsOfListing(items: seq<ItemRow>, rid: Id, rows: seq<ItemRow>, views: seq<ItemOut>,
                       kind: string, status: RoundStatus, target: Id)
    requires rows == RoundRepo.ListRoundItems(items, rid) && views == ViewItems(rows, kind, status, target)
    ensures NamesRoundRows(items, rid, views)
  {
    forall i | 0 <= i < |views|
      ensures exists k | 0 <= k < |items| ::
                items[k].roundId == rid && items[k].id == views[i].id && items[k].title == views[i].title
    {
      assert rows[i] in rows;
      var k :| 0 <= k < |items| && items[k] == rows[i];
    }
  }

  lemma ListingViews(items: seq<ItemRow>, rid: Id, rows: seq<ItemRow>, views: seq<ItemOut>,
                     kind: string, status: RoundStatus, target: Id)
    requires rows == RoundRepo.ListRoundItems(items, rid) && views == ViewItems(rows, kind, status, target)
    ensures ShowsEveryRow(items, rid, views)
  {
    forall k | 0 <= k < |items| && items[k].roundId == rid
      ensures exists i | 0 <= i < |views| :: views[i].id == items[k].id
    {
      assert items[k] in rows;
      var i :| 0 <= i < |rows| && rows[i] == items[k];
    }
  }

  /** While a round is active nobody learns which item is the target, nor the hidden
      rating or text of an item not yet eliminated. */
  lemma ActiveRoundHidesTarget(t: Tables, rid: Id, gs: string, out: RoundOut)
    requires RoundToResponse(t, rid, gs) == Ok(out) && out.status == Active
    ensures forall i | 0 <= i < |out.items| ::
              out.items[i].isTarget.None? && (!out.items[i].eliminated ==> out.items[i].rating.None? && out.items[i].secretText.None?)
  {
  }

  /** Once a round is finished every item says whether it is the target, and exactly the
      target's row says it is. */
  lemma FinishedRoundRevealsTarget(t: Tables, rid: Id, gs: string, out: RoundOut, k: nat)
    requires RoundToResponse(t, rid, gs) == Ok(out) && out.status == Finished
    requires k < |t.items| && t.items[k].roundId == rid && t.items[k].id == t.rounds[rid].targetItemId
    ensures exists i | 0 <= i < |out.items| :: out.items[i].isTarget == Some(true)
    ensures forall i | 0 <= i < |out.items| ::
              out.items[i].isTarget.Some? && (out.items[i].isTarget == Some(true) <==> out.items[i].id == t.rounds[rid].targetItemId)
  {
    var rows := RoundRepo.ListRoundItems(t.items, rid);
    var row := t.rounds[rid];
    assert t.items[k] in rows;
    var i :| 0 <= i < |rows| && rows[i] == t.items[k];
    assert out.items[i] == ItemView(rows[i], row.kind, row.status, row.targetItemId);
  }

  // ---- invariants of the game ----

  predicate TargetRemains(items: seq<ItemRow>, rid: Id, target: Id) {
    exists k | 0 <= k < |items| :: items[k].id == target && RoundRepo.RemainingIn(items[k], rid)
  }

  /** Every active round's target is one of its items and has not been eliminated: the
      round can still be lost by picking it. */
  predicate Playable(t: Tables) {
    forall rid | rid in t.rounds && t.rounds[rid].status == Active ::
      TargetRemains(t.items, rid, t.rounds[rid].targetItemId)
  }

  /** A round has either no result or a winner and a distinct loser, and an active round
      has no result yet. */
  predicate OutcomeOk(row: RoundRow) {
    && (row.winnerTeam.None? <==> row.loserTeam.None?)
    && (row.winnerTeam.Some? && row.loserTeam.Some? ==> row.winnerTeam.value != row.loserTeam.value)
    && (row.status == Active ==> row.winnerTeam.None?)
  }

  predicate OutcomeConsistent(t: Tables) {
    forall rid | rid in t.rounds :: OutcomeOk(t.rounds[rid])
  }

  /** An active round of a playable database has at least one item left. */
  lemma PlayableHasRemaining(t: Tables, rid: Id)
    requires Playable(t) && rid in t.rounds && t.rounds[rid].status == Active
    ensures RoundRepo.CountRemaining(t.items, rid) >= 1
  {
    RoundRepo.CountRemainingZero(t.items, rid);
  }

  // ---- eliminate_item_in_round ----

  /** The checks `eliminate_item_in_round` makes before it changes anything all pass. */
  predicate Accepted(t: Tables, rid: Id, iid: Id, gs: string) {
    && RoundRepo.ScopedRound(t, rid, gs).Some?
    && t.rounds[rid].status == Active
    && RoundRepo.ItemEliminatedFlag(t.items, iid, rid) == Some(false)
  }

  /** The tables `eliminate_item_in_round`'s transaction commits, or the error it raises. */
  function Eliminate(t: Tables, rid: Id, iid: Id, gs: string): Result<Tables, HttpError> {
    match RoundRepo.ScopedRound(t, rid, gs)
    case None => Err(RoundNotFound)
    case Some(row) =>
      if row.status != Active then Err(RoundFinished)
      else
        match RoundRepo.ItemEliminatedFlag(t.items, iid, rid)
        case None => Err(ItemNotFound)
        case Some(flag) =>
          if flag then Err(ItemAlreadyEliminated) else Ok(Eliminated(t, rid, iid, gs))
  }

  /** The writes of an accepted elimination: the picked row is marked, then the round is
      finished or passes the turn. */
  function Eliminated(t: Tables, rid: Id, iid: Id, gs: string): (t2: Tables)
    requires Accepted(t, rid, iid, gs)
    ensures t2.rounds.Keys == t.rounds.Keys && |t2.items| == |t.items|
  {
    var row := t.rounds[rid];
    var team := row.currentTeam;
    var items := RoundRepo.MarkEliminated(t.items, iid, rid, team);
    if iid == row.targetItemId then
      var wl := WinnerLoserFromLoser(team);
      t.(items := items, rounds := RoundRepo.Finish(t.rounds, rid, gs, Some(wl.0), Some(wl.1)))
    else if RoundRepo.CountRemaining(items, rid) == 1 then
      if RoundRepo.FirstRemaining(items, rid) == Some(row.targetItemId) then
        t.(items := items, rounds := RoundRepo.Finish(t.rounds, rid, gs, None, None))
      else
        t.(items := items, rounds := RoundRepo.Finish(t.rounds, rid, gs, Some(team), Some(OtherTeam(team))))
    else
      t.(items := items, rounds := RoundRepo.WithCurrentTeam(t.rounds, rid, gs, OtherTeam(team)))
  }

  /** The four errors, each exactly when its check is the first to fail; otherwise the
      elimination goes through. */
  lemma EliminateErrors(t: Tables, rid: Id, iid: Id, gs: string)
    ensures Eliminate(t, rid, iid, gs) == Err(RoundNotFound) <==> RoundRepo.ScopedRound(t, rid, gs).None?
    ensures Eliminate(t, rid, iid, gs) == Err(RoundFinished) <==>
              RoundRepo.ScopedRound(t, rid, gs).Some? && t.rounds[rid].status == Finished
    ensures Eliminate(t, rid, iid, gs) == Err(ItemNotFound) <==>
              RoundRepo.ScopedRound(t, rid, gs).Some? && t.rounds[rid].status == Active &&
              forall k | 0 <= k < |t.items| :: !RoundRepo.Matches(t.items[k], iid, rid)
    ensures Eliminate(t, rid, iid, gs) == Err(ItemAlreadyEliminated) <==>
              RoundRepo.ScopedRound(t, rid, gs).Some? && t.rounds[rid].status == Active &&
              RoundRepo.ItemEliminatedFlag(t.items, iid, rid) == Some(true)
    ensures Eliminate(t, rid, iid, gs).Ok? <==> Accepted(t, rid, iid, gs)
  {
  }

  /** What an accepted elimination leaves behind: the picked row marked, and the round's
      row updated by one of the three outcomes. */
  lemma EliminateShape(t: Tables, rid: Id, iid: Id, gs: string, t2: Tables)
    requires Eliminate(t, rid, iid, gs) == Ok(t2)
    ensures Accepted(t, rid, iid, gs) && t2 == Eliminated(t, rid, iid, gs)
    ensures t2.items == RoundRepo.MarkEliminated(t.items, iid, rid, t.rounds[rid].currentTeam)
    ensures t2.templates == t.templates && t2.templateItems == t.templateItems
    ensures t2.gameSets == t.gameSets && t2.nextId == t.nextId
    ensures t2.rounds.Keys == t.rounds.Keys
    ensures forall r | r in t.rounds && r != rid :: t2.rounds[r] == t.rounds[r]
    ensures var row := t.rounds[rid];
            iid == row.targetItemId ==>
              t2.rounds[rid] == row.(status := Finished, winnerTeam := Some(OtherTeam(row.currentTeam)), loserTeam := Some(row.currentTeam))
    ensures var row := t.rounds[rid];
            iid != row.targetItemId && RoundRepo.CountRemaining(t2.items, rid) == 1 ==>
              t2.rounds[rid] == row.(status := Finished,
                                     winnerTeam := if RoundRepo.FirstRemaining(t2.items, rid) == Some(row.targetItemId) then None else Some(row.currentTeam),
                                     loserTeam := if RoundRepo.FirstRemaining(t2.items, rid) == Some(row.targetItemId) then None else Some(OtherTeam(row.currentTeam)))
    ensures var row := t.rounds[rid];
            iid != row.targetItemId && RoundRepo.CountRemaining(t2.items, rid) != 1 ==>
              t2.rounds[rid] == row.(currentTeam := OtherTeam(row.currentTeam))
  {
    assert RoundRepo.ScopedRound(t, rid, gs) == Some(t.rounds[rid]);
    assert t2 == Eliminated(t, rid, iid, gs);
  }

  /** The picked item is marked as eliminated by the team whose turn it was; no other
      item row changes. */
  lemma EliminateMarksItem(t: Tables, rid: Id, iid: Id, gs: string, t2: Tables)
    requires Eliminate(t, rid, iid, gs) == Ok(t2)
    ensures |t2.items| == |t.items|
    ensures forall k | 0 <= k < |t.items| ::
              t2.items[k] ==
                if RoundRepo.Matches(t.items[k], iid, rid)
                then t.items[k].(eliminated := true, eliminatedByTeam := Some(t.rounds[rid].currentTeam))
                else t.items[k]
  {
    EliminateShape(t, rid, iid, gs, t2);
  }

  /** Afterwards the picked item reads as eliminated. */
  lemma EliminateFlagsItem(t: Tables, rid: Id, iid: Id, gs: string, t2: Tables)
    requires Eliminate(t, rid, iid, gs) == Ok(t2)
    ensures RoundRepo.ItemEliminatedFlag(t2.items, iid, rid) == Some(true)
  {
    EliminateShape(t, rid, iid, gs, t2);
    MarkedFlagOf(t.items, iid, rid, t.rounds[rid].currentTeam);
  }

  lemma MarkedFlagOf(items: seq<ItemRow>, iid: Id, rid: Id, team: TeamId)
    requires RoundRepo.ItemEliminatedFlag(items, iid, rid).Some?
    ensures RoundRepo.ItemEliminatedFlag(RoundRepo.MarkEliminated(items, iid, rid, team), iid, rid) == Some(true)
  {
    var k :| 0 <= k < |items| && RoundRepo.Matches(items[k], iid, rid);
    RoundRepo.MarkedFlag(items, iid, rid, team, k);
  }

  /** Picking the target loses: the picking team is the loser and the other team the
      winner. In a new round team 1 picks first, so it loses to team 2. */
  lemma EliminateTargetLoses(t: Tables, rid: Id, iid: Id, gs: string, t2: Tables)
    requires Eliminate(t, rid, iid, gs) == Ok(t2) && iid == t.rounds[rid].targetItemId
    ensures t2.rounds[rid].status == Finished
    ensures t2.rounds[rid].loserTeam == Some(t.rounds[rid].currentTeam)
    ensures t2.rounds[rid].winnerTeam == Some(OtherTeam(t.rounds[rid].currentTeam))
    ensures t.rounds[rid].currentTeam == 1 ==> t2.rounds[rid].winnerTeam == Some(2) && t2.rounds[rid].loserTeam == Some(1)
  {
    EliminateShape(t, rid, iid, gs, t2);
  }

  /** Any other pick that leaves more than one item passes the turn to the other team and
      keeps the round active. */
  lemma EliminatePassesTurn(t: Tables, rid: Id, iid: Id, gs: string, t2: Tables)
    requires Eliminate(t, rid, iid, gs) == Ok(t2) && iid != t.rounds[rid].targetItemId
    requires RoundRepo.CountRemaining(t2.items, rid) != 1
    ensures t2.rounds[rid] == t.rounds[rid].(currentTeam := OtherTeam(t.rounds[rid].currentTeam))
  {
    EliminateShape(t, rid, iid, gs, t2);
  }

  /** Eliminating every item but the target ends the round in a draw: under `Playable`
      the one remaining item is always the target, so the source's branch for a last item
      that is not the target is never taken. */
  lemma EliminateDraw(t: Tables, rid: Id, iid: Id, gs: string, t2: Tables)
    requires Playable(t)
    requires Eliminate(t, rid, iid, gs) == Ok(t2) && iid != t.rounds[rid].targetItemId
    requires RoundRepo.CountRemaining(t2.items, rid) == 1
    ensures RoundRepo.FirstRemaining(t2.items, rid) == Some(t.rounds[rid].targetItemId)
    ensures t2.rounds[rid].status == Finished && t2.rounds[rid].winnerTeam.None? && t2.rounds[rid].loserTeam.None?
  {
    EliminateShape(t, rid, iid, gs, t2);
    var target := t.rounds[rid].targetItemId;
    assert TargetRemains(t.items, rid, target);
    LastRemainingIsTarget(t.items, iid, rid, t.rounds[rid].currentTeam, target);
  }

  lemma LastRemainingIsTarget(items: seq<ItemRow>, iid: Id, rid: Id, team: TeamId, target: Id)
    requires TargetRemains(items, rid, target) && iid != target
    requires RoundRepo.CountRemaining(RoundRepo.MarkEliminated(items, iid, rid, team), rid) == 1
    ensures RoundRepo.FirstRemaining(RoundRepo.MarkEliminated(items, iid, rid, team), rid) == Some(target)
  {
    var marked := RoundRepo.MarkEliminated(items, iid, rid, team);
    var k :| 0 <= k < |items| && items[k].id == target && RoundRepo.RemainingIn(items[k], rid);
    assert marked[k] == items[k];
    RoundRepo.FirstRemainingSingle(marked, rid, k);
  }

  /** Every accepted elimination lowers the round's remaining count by one. */
  lemma EliminateCountsDown(t: Tables, rid: Id, iid: Id, gs: string, t2: Tables)
    requires Valid(t) && Eliminate(t, rid, iid, gs) == Ok(t2)
    ensures RoundRepo.CountRemaining(t2.items, rid) == RoundRepo.CountRemaining(t.items, rid) - 1
  {
    EliminateShape(t, rid, iid, gs, t2);
    RoundRepo.CountRemainingAfterMark(t.items, iid, rid, t.rounds[rid].currentTeam);
  }

  /** Item rows other than the picked one, and rows of other rounds, are untouched; the
      round keeps its game set and target. */
  lemma EliminateFrame(t: Tables, rid: Id, iid: Id, gs: string, t2: Tables)
    requires Eliminate(t, rid, iid, gs) == Ok(t2)
    ensures t2.rounds[rid].gameSet == t.rounds[rid].gameSet
    ensures t2.rounds[rid].targetItemId == t.rounds[rid].targetItemId
    ensures |t2.items| == |t.items|
    ensures forall k | 0 <= k < |t.items| && t.items[k].id != iid :: t2.items[k] == t.items[k]
    ensures forall k | 0 <= k < |t.items| && t.items[k].roundId != rid :: t2.items[k] == t.items[k]
    ensures forall k | 0 <= k < |t.items| :: t2.items[k].id == t.items[k].id && t2.items[k].roundId == t.items[k].roundId
  {
    EliminateShape(t, rid, iid, gs, t2);
  }

  /** Elimination keeps the identifiers valid. */
  lemma EliminateKeepsValid(t: Tables, rid: Id, iid: Id, gs: string, t2: Tables)
    requires Valid(t) && Eliminate(t, rid, iid, gs) == Ok(t2)
    ensures Valid(t2)
  {
    EliminateShape(t, rid, iid, gs, t2);
    RoundRepo.MarkEliminatedKeepsIds(t.items, iid, rid, t.rounds[rid].currentTeam);
    SameKeysKeepValid(t, t2);
  }

  /** Changing rows without changing any identifier keeps the identifiers valid. */
  lemma SameKeysKeepValid(t: Tables, t2: Tables)
    requires Valid(t) && t2.nextId == t.nextId
    requires t2.rounds.Keys == t.rounds.Keys && t2.templates == t.templates
    requires |t2.items| == |t.items| && ItemIdsDistinct(t2.items)
    requires forall k | 0 <= k < |t.items| :: t2.items[k].id == t.items[k].id && t2.items[k].roundId == t.items[k].roundId
    ensures Valid(t2)
  {
  }

  /** Elimination keeps every round's result consistent. */
  lemma EliminateKeepsOutcome(t: Tables, rid: Id, iid: Id, gs: string, t2: Tables)
    requires OutcomeConsistent(t) && Eliminate(t, rid, iid, gs) == Ok(t2)
    ensures OutcomeConsistent(t2)
  {
    EliminateShape(t, rid, iid, gs, t2);
    assert OutcomeOk(t2.rounds[rid]);
  }

  /** Elimination keeps every active round playable: the target stays in play until it
      is picked, and picking it finishes the round. */
  lemma EliminateKeepsPlayable(t: Tables, rid: Id, iid: Id, gs: string, t2: Tables)
    requires Playable(t) && Eliminate(t, rid, iid, gs) == Ok(t2)
    ensures Playable(t2)
  {
    EliminateKeepsTargets(t, rid, iid, gs, t2);
    var team := t.rounds[rid].currentTeam;
    forall r | r in t2.rounds && t2.rounds[r].status == Active
      ensures TargetRemains(t2.items, r, t2.rounds[r].targetItemId)
    {
      MarkKeepsRemaining(t.items, iid, rid, team, r, t.rounds[r].targetItemId);
    }
  }

  /** Every round keeps its target, a round still active was active before, and the
      round stays active only when the pick was not its target. */
  lemma EliminateKeepsTargets(t: Tables, rid: Id, iid: Id, gs: string, t2: Tables)
    requires Eliminate(t, rid, iid, gs) == Ok(t2)
    ensures rid in t.rounds && t2.items == RoundRepo.MarkEliminated(t.items, iid, rid, t.rounds[rid].currentTeam)
    ensures t2.rounds.Keys == t.rounds.Keys
    ensures forall r | r in t2.rounds :: t2.rounds[r].targetItemId == t.rounds[r].targetItemId
    ensures forall r | r in t2.rounds && t2.rounds[r].status == Active :: t.rounds[r].status == Active
    ensures t2.rounds[rid].status == Active ==> iid != t.rounds[rid].targetItemId
  {
    EliminateShape(t, rid, iid, gs, t2);
  }

  /** Marking the picked row keeps every other row in play. */
  lemma MarkKeepsRemaining(items: seq<ItemRow>, iid: Id, rid: Id, team: TeamId, r: Id, target: Id)
    requires TargetRemains(items, r, target) && (r != rid || iid != target)
    ensures TargetRemains(RoundRepo.MarkEliminated(items, iid, rid, team), r, target)
  {
    var marked := RoundRepo.MarkEliminated(items, iid, rid, team);
    var k :| 0 <= k < |items| && items[k].id == target && RoundRepo.RemainingIn(items[k], r);
    assert marked[k] == items[k];
  }

  /** After an accepted elimination an active round still offers a choice between at
      least two items. */
  lemma EliminateLeavesChoice(t: Tables, rid: Id, iid: Id, gs: string, t2: Tables)
    requires Playable(t) && Eliminate(t, rid, iid, gs) == Ok(t2)
    requires t2.rounds[rid].status == Active
    ensures RoundRepo.CountRemaining(t2.items, rid) >= 2
  {
    EliminateShape(t, rid, iid, gs, t2);
    EliminateKeepsPlayable(t, rid, iid, gs, t2);
    PlayableHasRemaining(t2, rid);
  }

  /** `eliminate_item_in_round`: the transaction, then the response for the round. */
  method EliminateItemInRound(db: Db, rid: Id, iid: Id, gs: string) returns (r: Result<RoundOut, HttpError>)
    modifies db
    ensures Eliminate(old(db.State()), rid, iid, gs).Err? ==>
              r == Err(Eliminate(old(db.State()), rid, iid, gs).error) && db.State() == old(db.State())
    ensures Eliminate(old(db.State()), rid, iid, gs).Ok? ==>
              db.State() == Eliminate(old(db.State()), rid, iid, gs).value &&
              r == RoundToResponse(db.State(), rid, gs) && r.Ok?
  {
    var row := RoundRepo.ScopedRound(db.State(), rid, gs);
    if row.None? {
      return Err(RoundNotFound);
    }
    var status, team, target := row.value.status, row.value.currentTeam, row.value.targetItemId;
    if status != Active {
      return Err(RoundFinished);
    }
    var flag := RoundRepo.ItemEliminatedFlag(db.items, iid, rid);
    if flag.None? {
      return Err(ItemNotFound);
    }
    if flag.value {
      return Err(ItemAlreadyEliminated);
    }
    RoundRepo.EliminateItem(db, iid, rid, team);
    if iid == target {
      var wl := WinnerLoserFromLoser(team);
      RoundRepo.FinishRound(db, rid, gs, Some(wl.0), Some(wl.1));
    } else {
      var remaining := RoundRepo.CountRemaining(db.items, rid);
      if remaining == 1 {
        var last := RoundRepo.FirstRemaining(db.items, rid);
        if last == Some(target) {
          RoundRepo.FinishRound(db, rid, gs, None, None);
        } else {
          var winner := team;
          var loser := OtherTeam(winner);
          RoundRepo.FinishRound(db, rid, gs, Some(winner), Some(loser));
        }
      } else {
        RoundRepo.SetCurrentTeam(db, rid, gs, OtherTeam(team));
      }
    }
    r := RoundToResponse(db.State(), rid, gs);
  }

  // ---- rounds appended to the tables ----

  /** Appending a new round under the next identifier, with item rows numbered after it,
      keeps the identifiers valid. */
  lemma AppendRoundKeepsValid(t: Tables, row: RoundRow, rows: seq<ItemRow>)
    requires Valid(t)
    requires forall k | 0 <= k < |rows| :: rows[k].id == t.nextId + 1 + k && rows[k].roundId == t.nextId
    ensures Valid(t.(rounds := t.rounds[t.nextId := row], items := t.items + rows, nextId := t.nextId + 1 + |rows|))
  {
    var rid := t.nextId;
    var t2 := t.(rounds := t.rounds[rid := row], items := t.items + rows, nextId := rid + 1 + |rows|);
    var n := |t.items|;
    forall k | 0 <= k < |t2.items| ensures 1 <= t2.items[k].id < t2.nextId && t2.items[k].roundId in t2.rounds {
      if k >= n { assert t2.items[k] == rows[k - n]; }
    }
    forall i, j | 0 <= i < j < |t2.items| ensures t2.items[i].id != t2.items[j].id {
      if j >= n {
        assert t2.items[j] == rows[j - n];
        if i >= n { assert t2.items[i] == rows[i - n]; }
      }
    }
  }

  /** One of `rows` has identifier `id`. */
  predicate HasId(rows: seq<ItemRow>, id: Id) {
    exists k | 0 <= k < |rows| :: rows[k].id == id
  }

  /** Appending rows and a new round keeps every active round playable when the new
      round's target is one of its new rows. */
  lemma AppendRoundKeepsPlayable(t: Tables, row: RoundRow, rows: seq<ItemRow>)
    requires Valid(t) && Playable(t)
    requires forall k | 0 <= k < |rows| :: rows[k].roundId == t.nextId && !rows[k].eliminated
    requires row.status == Active ==> HasId(rows, row.targetItemId)
    ensures Playable(t.(rounds := t.rounds[t.nextId := row], items := t.items + rows, nextId := t.nextId + 1 + |rows|))
  {
    var rid := t.nextId;
    var t2 := t.(rounds := t.rounds[rid := row], items := t.items + rows, nextId := rid + 1 + |rows|);
    var n := |t.items|;
    forall r | r in t2.rounds && t2.rounds[r].status == Active
      ensures TargetRemains(t2.items, r, t2.rounds[r].targetItemId)
    {
      if r == rid {
        var k :| 0 <= k < |rows| && rows[k].id == row.targetItemId;
        assert t2.items[n + k] == rows[k];
      } else {
        assert TargetRemains(t.items, r, t.rounds[r].targetItemId);
        var k :| 0 <= k < n && t.items[k].id == t.rounds[r].targetItemId && RoundRepo.RemainingIn(t.items[k], r);
        assert t2.items[k] == t.items[k];
      }
    }
  }

  /** The same for the results of the rounds. */
  lemma AppendRoundKeepsOutcome(t: Tables, row: RoundRow, rows: seq<ItemRow>)
    requires OutcomeConsistent(t) && OutcomeOk(row)
    ensures OutcomeConsistent(t.(rounds := t.rounds[t.nextId := row], items := t.items + rows, nextId := t.nextId + 1 + |rows|))
  {
  }

  /** In a valid database no row belongs to the round about to be created. */
  lemma NoRowsOfNextRound(t: Tables, rows: seq<ItemRow>)
    requires Valid(t)
    ensures forall k | 0 <= k < |t.items| :: t.items[k].roundId != t.nextId
    ensures RoundRepo.RowsOfRound(t.items + rows, t.nextId) == RoundRepo.RowsOfRound(rows, t.nextId)
  {
    var items := t.items;
    forall k | 0 <= k < |items| ensures items[k].roundId != t.nextId {
      assert items[k].roundId in t.rounds;
    }
    RowsOfRoundAppendNone(items, rows, t.nextId);
  }

  lemma {:induction false} RowsOfRoundAppendNone(a: seq<ItemRow>, b: seq<ItemRow>, rid: Id)
    requires forall k | 0 <= k < |a| :: a[k].roundId != rid
    ensures RoundRepo.RowsOfRound(a + b, rid) == RoundRepo.RowsOfRound(b, rid)
  {
    if a != [] {
      assert (a + b)[0] == a[0];
      assert (a + b)[1..] == a[1..] + b;
      RowsOfRoundAppendNone(a[1..], b, rid);
    } else {
      assert a + b == b;
    }
  }

  lemma {:induction false} RowsOfRoundAll(rows: seq<ItemRow>, rid: Id)
    requires forall k | 0 <= k < |rows| :: rows[k].roundId == rid
    ensures RoundRepo.RowsOfRound(rows, rid) == rows
  {
    if rows != [] {
      assert forall k | 0 <= k < |rows[1..]| :: rows[1..][k] == rows[k + 1];
      RowsOfRoundAll(rows[1..], rid);
      assert rows == [rows[0]] + rows[1..];
    }
  }

  /** Once the rows of a new round are appended, `find_min_rating_item_id` for that round
      picks among those rows only. */
  lemma FreshRoundMin(t: Tables, rows: seq<ItemRow>)
    requires Valid(t) && rows != []
    requires forall k | 0 <= k < |rows| :: rows[k].roundId == t.nextId
    ensures ItemRepo.FindMinRatingItemId(t.items + rows, t.nextId) == Ok(ItemRepo.MinRow(rows).id)
  {
    NoRowsOfNextRound(t, rows);
    RowsOfRoundAll(rows, t.nextId);
  }

  // ---- create_rated_round_from_dataset ----

  /** `random.sample(source_items, 11)` is a parameter: `sample` lists the positions
      drawn, distinct and within the dataset whenever the call reaches the draw. */
  predicate SampleFits(datasets: map<string, Datasets.Dataset>, category: string, sample: seq<nat>) {
    var cat := Category(category);
    cat in datasets && |datasets[cat].items| >= ROUND_SIZE ==>
      Datasets.IsSample(sample, |datasets[cat].items|, ROUND_SIZE)
  }

  /** `category.strip().lower()`. */
  function Category(category: string): string {
    Text.Lower(Text.Strip(Text.Python, category))
  }

  predicate DatasetLe(a: Datasets.DatasetItem, b: Datasets.DatasetItem) {
    ItemRepo.KeyLe(Some(a.rating), a.title, Some(b.rating), b.title)
  }

  /** `min(picked, key=lambda x: (x.rating, x.title))`: the first item with the smallest
      rating, ties broken by title. */
  function MinItem(picked: seq<Datasets.DatasetItem>): (r: Datasets.DatasetItem)
    requires picked != []
    ensures r in picked
    ensures forall j | 0 <= j < |picked| :: DatasetLe(r, picked[j])
  {
    if |picked| == 1 then
      ItemRepo.KeyLeTotal(Some(picked[0].rating), picked[0].title, Some(picked[0].rating), picked[0].title);
      picked[0]
    else
      var m := MinItem(picked[1..]);
      assert forall j | 1 <= j < |picked| :: picked[j] == picked[1..][j - 1];
      if DatasetLe(picked[0], m) then
        assert forall j | 1 <= j < |picked| :: DatasetLe(picked[0], picked[j]) by {
          forall j | 1 <= j < |picked| ensures DatasetLe(picked[0], picked[j]) {
            ItemRepo.KeyLeTrans(Some(picked[0].rating), picked[0].title, Some(m.rating), m.title,
                                Some(picked[j].rating), picked[j].title);
          }
        }
        ItemRepo.KeyLeTotal(Some(picked[0].rating), picked[0].title, Some(picked[0].rating), picked[0].title);
        picked[0]
      else
        ItemRepo.KeyLeTotal(Some(picked[0].rating), picked[0].title, Some(m.rating), m.title);
        m
  }

  /** The item rows a rated round gets: row `k` has the `k`-th identifier after the
      round's own. */
  function DatasetRows(rid: Id, picked: seq<Datasets.DatasetItem>): (r: seq<ItemRow>)
    ensures |r| == |picked|
    ensures forall k | 0 <= k < |picked| ::
              r[k] == ItemRow(rid + 1 + k, rid, picked[k].title, Some(picked[k].rating), None, None, false, None)
  {
    seq(|picked|, k requires 0 <= k < |picked| =>
      ItemRow(rid + 1 + k, rid, picked[k].title, Some(picked[k].rating), None, None, false, None))
  }

  /** `title_to_id` after the insert loop: a later item with the same title overwrites an
      earlier one. */
  function TitleToId(rid: Id, picked: seq<Datasets.DatasetItem>): (m: map<string, Id>)
    ensures forall k | 0 <= k < |picked| :: picked[k].title in m
    decreases |picked|
  {
    if picked == [] then map[]
    else
      var init := picked[..|picked| - 1];
      assert forall k | 0 <= k < |init| :: init[k] == picked[k];
      TitleToId(rid, init)[picked[|picked| - 1].title := rid + |picked|]
  }

  /** With distinct titles every title maps to its own row's identifier. */
  lemma {:induction false} TitleToIdDistinct(rid: Id, picked: seq<Datasets.DatasetItem>, k: nat)
    requires Datasets.TitlesDistinct(picked) && k < |picked|
    ensures TitleToId(rid, picked)[picked[k].title] == rid + 1 + k
    decreases |picked|
  {
    var init := picked[..|picked| - 1];
    if k < |picked| - 1 {
      assert picked[k].title != picked[|picked| - 1].title;
      assert init[k] == picked[k];
      assert Datasets.TitlesDistinct(init) by {
        forall i, j | 0 <= i < j < |init| ensures init[i].title != init[j].title {
          assert init[i] == picked[i] && init[j] == picked[j];
        }
      }
      TitleToIdDistinct(rid, init, k);
    }
  }

  /** The round row `create_rated_round_from_dataset` leaves behind. */
  function RatedRoundRow(gs: string, cat: string, prompt: string, target: Id): RoundRow {
    RoundRow(gs, cat, prompt, "rated", 1, Active, target, None, None, None)
  }

  /** The tables after a rated round with the drawn items `picked` is stored under the
      next identifier. */
  function RatedTables(t: Tables, gs: string, cat: string, prompt: string, picked: seq<Datasets.DatasetItem>): Tables
    requires picked != []
  {
    var rid := t.nextId;
    t.(rounds := t.rounds[rid := RatedRoundRow(gs, cat, prompt, TitleToId(rid, picked)[MinItem(picked).title])],
       items := t.items + DatasetRows(rid, picked),
       nextId := rid + 1 + |picked|)
  }

  /** The tables `create_rated_round_from_dataset`'s transaction commits (the new round's
      identifier is `t.nextId`), or the error it raises. */
  function CreateRated(t: Tables, datasets: map<string, Datasets.Dataset>, category: string, gs: string, sample: seq<nat>)
    : Result<Tables, HttpError>
    requires SampleFits(datasets, category, sample)
  {
    var cat := Category(category);
    if cat !in datasets then Err(UnknownCategory)
    else if |datasets[cat].items| < ROUND_SIZE then Err(DatasetTooSmall)
    else Ok(RatedTables(t, gs, cat, datasets[cat].prompt, Datasets.Picked(datasets[cat].items, sample)))
  }

  /** The category is looked up stripped and lower-cased; a missing category and a
      dataset smaller than a round are the only errors. A round drawn from a dataset with
      distinct titles holds eleven items with distinct titles. */
  lemma CreateRatedOutcomes(t: Tables, datasets: map<string, Datasets.Dataset>, category: string, gs: string, sample: seq<nat>)
    requires SampleFits(datasets, category, sample)
    ensures CreateRated(t, datasets, category, gs, sample) == Err(UnknownCategory) <==> Category(category) !in datasets
    ensures CreateRated(t, datasets, category, gs, sample) == Err(DatasetTooSmall) <==>
              Category(category) in datasets && |datasets[Category(category)].items| < ROUND_SIZE
    ensures CreateRated(t, datasets, category, gs, sample).Ok? ==>
              var cat := Category(category);
              var picked := Datasets.Picked(datasets[cat].items, sample);
              && cat in datasets && |picked| == ROUND_SIZE
              && CreateRated(t, datasets, category, gs, sample) == Ok(RatedTables(t, gs, cat, datasets[cat].prompt, picked))
              && (forall k | 0 <= k < |picked| :: picked[k] == datasets[cat].items[sample[k]])
              && (Datasets.TitlesDistinct(datasets[cat].items) ==> Datasets.TitlesDistinct(picked))
  {
    var cat := Category(category);
    if cat in datasets && |datasets[cat].items| >= ROUND_SIZE && Datasets.TitlesDistinct(datasets[cat].items) {
      Datasets.PickedTitlesDistinct(datasets[cat].items, sample);
    }
  }

  /** A rated round starts active with team 1 to play and holds one fresh unplayed row per
      drawn item, in draw order. */
  lemma RatedRound(t: Tables, gs: string, cat: string, prompt: string, picked: seq<Datasets.DatasetItem>)
    requires picked != []
    ensures var t2 := RatedTables(t, gs, cat, prompt, picked);
            var rid := t.nextId;
            && rid in t2.rounds
            && t2.rounds[rid].status == Active && t2.rounds[rid].currentTeam == 1
            && t2.rounds[rid].category == cat && t2.rounds[rid].prompt == prompt
            && t2.rounds[rid].kind == "rated" && t2.rounds[rid].gameSet == gs
            && t2.rounds[rid].winnerTeam.None? && t2.rounds[rid].loserTeam.None?
            && |t2.items| == |t.items| + |picked| && t2.items[..|t.items|] == t.items
            && (forall k | 0 <= k < |picked| ::
                  t2.items[|t.items| + k] == ItemRow(rid + 1 + k, rid, picked[k].title, Some(picked[k].rating), None, None, false, None))
  {
    var t2 := RatedTables(t, gs, cat, prompt, picked);
    var rows := DatasetRows(t.nextId, picked);
    assert t2.items == t.items + rows;
    assert t2.items[..|t.items|] == t.items;
  }

  /** With distinct titles, the target `title_to_id` resolves is the row of the item with
      the lowest rating (ties by title), as `min(..., key=(rating, title))` chose it. */
  lemma RatedTargetIsLowest(t: Tables, gs: string, cat: string, prompt: string, picked: seq<Datasets.DatasetItem>)
    requires picked != [] && Datasets.TitlesDistinct(picked)
    ensures var t2 := RatedTables(t, gs, cat, prompt, picked);
            exists k | |t.items| <= k < |t2.items| ::
              t2.items[k].id == t2.rounds[t.nextId].targetItemId &&
              forall j | |t.items| <= j < |t2.items| :: ItemRepo.RowLe(t2.items[k], t2.items[j])
  {
    var t2 := RatedTables(t, gs, cat, prompt, picked);
    var rid := t.nextId;
    var rows := DatasetRows(rid, picked);
    var m := MinItem(picked);
    var q :| 0 <= q < |picked| && picked[q] == m;
    TitleToIdDistinct(rid, picked, q);
    LowestRow(rid, picked, q);
    AppendedLowest(t.items, rows, q);
    assert t2.items == t.items + rows;
    assert t2.items[|t.items| + q].id == t2.rounds[rid].targetItemId;
  }

  /** The row of a lowest drawn item sorts no later than every row of the round. */
  lemma LowestRow(rid: Id, picked: seq<Datasets.DatasetItem>, q: nat)
    requires q < |picked| && forall j | 0 <= j < |picked| :: DatasetLe(picked[q], picked[j])
    ensures forall j | 0 <= j < |DatasetRows(rid, picked)| ::
              ItemRepo.RowLe(DatasetRows(rid, picked)[q], DatasetRows(rid, picked)[j])
  {
  }

  /** A lowest row of the appended rows is lowest among them after the append too. */
  lemma AppendedLowest(a: seq<ItemRow>, rows: seq<ItemRow>, q: nat)
    requires q < |rows| && forall j | 0 <= j < |rows| :: ItemRepo.RowLe(rows[q], rows[j])
    ensures |a| <= |a| + q < |a + rows| && (a + rows)[|a| + q] == rows[q]
    ensures forall j | |a| <= j < |a + rows| :: ItemRepo.RowLe((a + rows)[|a| + q], (a + rows)[j])
  {
    forall j | |a| <= j < |a + rows| ensures ItemRepo.RowLe((a + rows)[|a| + q], (a + rows)[j]) {
      assert (a + rows)[j] == rows[j - |a|];
    }
  }

  /** A rated dataset round and `find_min_rating_item_id` agree on the target: the item
      the dataset path resolves through `title_to_id` is the one the query would return. */
  lemma RatedTargetIsMinQuery(t: Tables, gs: string, cat: string, prompt: string, picked: seq<Datasets.DatasetItem>)
    requires Valid(t) && picked != [] && Datasets.TitlesDistinct(picked)
    ensures ItemRepo.FindMinRatingItemId(RatedTables(t, gs, cat, prompt, picked).items, t.nextId)
              == Ok(RatedTables(t, gs, cat, prompt, picked).rounds[t.nextId].targetItemId)
  {
    var rid := t.nextId;
    var rows := DatasetRows(rid, picked);
    var t2 := RatedTables(t, gs, cat, prompt, picked);
    assert t2.items == t.items + rows;
    FreshRoundMin(t, rows);
    var m := MinItem(picked);
    var q :| 0 <= q < |picked| && picked[q] == m;
    TitleToIdDistinct(rid, picked, q);
    assert t2.rounds[rid].targetItemId == rows[q].id;
    var p :| 0 <= p < |rows| && rows[p] == ItemRepo.MinRow(rows);
    assert ItemRepo.RowLe(rows[p], rows[q]);
    assert DatasetLe(picked[p], picked[q]);
    assert DatasetLe(picked[q], picked[p]);
    DatasetLeUnique(picked, p, q);
  }

  /** With distinct titles no two items of a draw tie on (rating, title). */
  lemma DatasetLeUnique(picked: seq<Datasets.DatasetItem>, p: nat, q: nat)
    requires Datasets.TitlesDistinct(picked) && p < |picked| && q < |picked|
    requires DatasetLe(picked[p], picked[q]) && DatasetLe(picked[q], picked[p])
    ensures p == q
  {
    Order.StrLeAntisym(picked[p].title, picked[q].title);
  }

  /** Storing a rated round keeps the identifiers valid, every active round playable and
      every result consistent. */
  lemma RatedKeepsInvariants(t: Tables, gs: string, cat: string, prompt: string, picked: seq<Datasets.DatasetItem>)
    requires picked != []
    ensures Valid(t) ==> Valid(RatedTables(t, gs, cat, prompt, picked))
    ensures Valid(t) && Playable(t) ==> Playable(RatedTables(t, gs, cat, prompt, picked))
    ensures OutcomeConsistent(t) ==> OutcomeConsistent(RatedTables(t, gs, cat, prompt, picked))
  {
    var rid := t.nextId;
    var rows := DatasetRows(rid, picked);
    var target := TitleToId(rid, picked)[MinItem(picked).title];
    var row := RatedRoundRow(gs, cat, prompt, target);
    assert RatedTables(t, gs, cat, prompt, picked) ==
           t.(rounds := t.rounds[t.nextId := row], items := t.items + rows, nextId := t.nextId + 1 + |rows|);
    if Valid(t) {
      AppendRoundKeepsValid(t, row, rows);
      if Playable(t) {
        assert HasId(rows, target) by {
          TitleToIdHit(rid, picked, MinItem(picked).title);
          assert rows[target - rid - 1].id == target;
        }
        AppendRoundKeepsPlayable(t, row, rows);
      }
    }
    if OutcomeConsistent(t) {
      AppendRoundKeepsOutcome(t, row, rows);
    }
  }

  /** Every value of `title_to_id` is the identifier of one of the inserted rows. */
  lemma {:induction false} TitleToIdHit(rid: Id, picked: seq<Datasets.DatasetItem>, title: string)
    requires title in TitleToId(rid, picked)
    ensures rid < TitleToId(rid, picked)[title] <= rid + |picked|
    decreases |picked|
  {
    var init := picked[..|picked| - 1];
    if title != picked[|picked| - 1].title {
      TitleToIdHit(rid, init, title);
    }
  }

  lemma DatasetRowsSnoc(rid: Id, picked: seq<Datasets.DatasetItem>, i: nat)
    requires i < |picked|
    ensures DatasetRows(rid, picked[..i + 1]) ==
              DatasetRows(rid, picked[..i]) + [ItemRow(rid + 1 + i, rid, picked[i].title, Some(picked[i].rating), None, None, false, None)]
  {
    var l := DatasetRows(rid, picked[..i + 1]);
    var r := DatasetRows(rid, picked[..i]) + [ItemRow(rid + 1 + i, rid, picked[i].title, Some(picked[i].rating), None, None, false, None)];
    assert |l| == |r|;
    forall k | 0 <= k < |l| ensures l[k] == r[k] {
      if k < i { assert picked[..i + 1][k] == picked[..i][k]; }
    }
  }

  /** The insert loop of `create_rated_round_from_dataset`: one row per drawn item under
      the next identifiers, and the map from title to the row inserted last for it. */
  method InsertDatasetItems(db: Db, rid: Id, picked: seq<Datasets.DatasetItem>) returns (titleToId: map<string, Id>)
    requires db.nextId == rid + 1
    modifies db
    ensures db.State() == old(db.State()).(items := old(db.items) + DatasetRows(rid, picked), nextId := rid + 1 + |picked|)
    ensures titleToId == TitleToId(rid, picked)
  {
    titleToId := map[];
    var i := 0;
    while i < |picked|
      invariant 0 <= i <= |picked|
      invariant db.State() == old(db.State()).(items := old(db.items) + DatasetRows(rid, picked[..i]), nextId := rid + 1 + i)
      invariant titleToId == TitleToId(rid, picked[..i])
    {
      DatasetRowsSnoc(rid, picked, i);
      var iid := ItemRepo.InsertItem(db, rid, picked[i].title, Some(picked[i].rating), None, None);
      assert picked[..i + 1][..i] == picked[..i];
      titleToId := titleToId[picked[i].title := iid];
      i := i + 1;
    }
    assert picked[..i] == picked;
  }

  /** `create_rated_round_from_dataset`, with the dataset table and the random draw as
      parameters. */
  method CreateRatedRoundFromDataset(db: Db, datasets: map<string, Datasets.Dataset>, category: string, gs: string, sample: seq<nat>)
    returns (r: Result<Id, HttpError>)
    requires SampleFits(datasets, category, sample)
    modifies db
    ensures CreateRated(old(db.State()), datasets, category, gs, sample).Err? ==>
              r == Err(CreateRated(old(db.State()), datasets, category, gs, sample).error) && db.State() == old(db.State())
    ensures CreateRated(old(db.State()), datasets, category, gs, sample).Ok? ==>
              r == Ok(old(db.nextId)) && db.State() == CreateRated(old(db.State()), datasets, category, gs, sample).value
  {
    var cat := Category(category);
    if cat !in datasets {
      return Err(UnknownCategory);
    }
    var prompt := datasets[cat].prompt;
    var source := datasets[cat].items;
    if |source| < ROUND_SIZE {
      return Err(DatasetTooSmall);
    }
    var picked := Datasets.Picked(source, sample);
    var rid := StoreRatedRound(db, gs, cat, prompt, picked);
    r := Ok(rid);
  }

  /** The writes of `create_rated_round_from_dataset` once the items are drawn: the
      round, its rows, and the target resolved through `title_to_id`. */
  method StoreRatedRound(db: Db, gs: string, cat: string, prompt: string, picked: seq<Datasets.DatasetItem>)
    returns (rid: Id)
    requires picked != []
    modifies db
    ensures rid == old(db.nextId)
    ensures db.State() == RatedTables(old(db.State()), gs, cat, prompt, picked)
  {
    ghost var t0 := db.State();
    rid := RoundRepo.CreateRound(db, gs, cat, prompt, "rated", 1, Active, None);
    var titleToId := InsertDatasetItems(db, rid, picked);
    var target := titleToId[MinItem(picked).title];
    RoundRepo.SetTargetItemId(db, rid, gs, target);
    assert db.rounds == t0.rounds[rid := RatedRoundRow(gs, cat, prompt, target)];
  }

  // ---- create_round_from_template_id ----

  /** The item rows a template round gets, in the order the template's items are read. */
  function TemplateRows(rid: Id, models: seq<TemplateItemIn>): (r: seq<ItemRow>)
    ensures |r| == |models|
    ensures forall k | 0 <= k < |models| ::
              r[k] == ItemRow(rid + 1 + k, rid, models[k].title, models[k].rating, models[k].secretText,
                              models[k].imageData, false, None)
  {
    seq(|models|, k requires 0 <= k < |models| =>
      ItemRow(rid + 1 + k, rid, models[k].title, models[k].rating, models[k].secretText, models[k].imageData, false, None))
  }

  lemma TemplateRowsSnoc(rid: Id, models: seq<TemplateItemIn>, i: nat)
    requires i < |models|
    ensures TemplateRows(rid, models[..i + 1]) ==
              TemplateRows(rid, models[..i]) +
              [ItemRow(rid + 1 + i, rid, models[i].title, models[i].rating, models[i].secretText, models[i].imageData, false, None)]
  {
    var l := TemplateRows(rid, models[..i + 1]);
    var r := TemplateRows(rid, models[..i]) +
             [ItemRow(rid + 1 + i, rid, models[i].title, models[i].rating, models[i].secretText, models[i].imageData, false, None)];
    assert |l| == |r|;
    forall k | 0 <= k < |l| ensures l[k] == r[k] {
      if k < i { assert models[..i + 1][k] == models[..i][k]; }
    }
  }

  /** `target_item_id` after the manual insert loop: the identifier of the last item
      marked as target. */
  function LastTarget(rid: Id, models: seq<TemplateItemIn>): Option<Id>
    decreases |models|
  {
    if models == [] then None
    else if models[|models| - 1].isTarget then Some(rid + |models|)
    else LastTarget(rid, models[..|models| - 1])
  }

  /** With exactly one target, the loop resolves that item's row. */
  lemma {:induction false} LastTargetOnly(rid: Id, models: seq<TemplateItemIn>, k: nat)
    requires Validators.OnlyTarget(models, k)
    ensures LastTarget(rid, models) == Some(rid + 1 + k)
    decreases |models|
  {
    var init := models[..|models| - 1];
    if k < |models| - 1 {
      assert !models[|models| - 1].isTarget;
      assert Validators.OnlyTarget(init, k) by {
        forall j | 0 <= j < |init| && init[j].isTarget ensures j == k {
          assert init[j] == models[j];
        }
        assert init[k] == models[k];
      }
      LastTargetOnly(rid, init, k);
    }
  }

  /** Python's `TemplateItemIn(...)` accepts every stored row. */
  predicate ModelsValid(models: seq<TemplateItemIn>) {
    forall i | 0 <= i < |models| :: TemplateItemInValid(models[i])
  }

  /** The round row a template round leaves behind. */
  function TemplateRoundRow(gs: string, tpl: TemplateRow, target: Id): RoundRow {
    RoundRow(gs, "templates", tpl.prompt, tpl.kind, 1, Active, target, None, None, tpl.imageData)
  }

  /** The target a template round resolves: the lowest-rated item of the new round for a
      rated template, else the item marked as target. */
  function TemplateTarget(t: Tables, kind: string, models: seq<TemplateItemIn>): Id
    requires Validators.TemplateValid(kind, models)
  {
    var rid := t.nextId;
    var items := t.items + TemplateRows(rid, models);
    if kind == "rated" then
      assert items[|t.items|].roundId == rid;
      ItemRepo.FindMinRatingItemId(items, rid).value
    else
      LastTargetSome(rid, models);
      LastTarget(rid, models).value
  }

  lemma LastTargetSome(rid: Id, models: seq<TemplateItemIn>)
    requires Validators.ExactlyOneTarget(models)
    ensures exists k | 0 <= k < |models| :: Validators.OnlyTarget(models, k) && LastTarget(rid, models) == Some(rid + 1 + k)
  {
    var k :| 0 <= k < |models| && Validators.OnlyTarget(models, k);
    LastTargetOnly(rid, models, k);
  }

  /** The tables after a round is created from template `tpl` with the items `models`
      under the next identifier. */
  function TemplateTables(t: Tables, gs: string, tpl: TemplateRow, models: seq<TemplateItemIn>): Tables
    requires Validators.TemplateValid(tpl.kind, models)
  {
    var rid := t.nextId;
    t.(rounds := t.rounds[rid := TemplateRoundRow(gs, tpl, TemplateTarget(t, tpl.kind, models))],
       items := t.items + TemplateRows(rid, models),
       nextId := rid + 1 + |models|)
  }

  /** The tables `create_round_from_template_id`'s transaction commits (the new round's
      identifier is `t.nextId`), or the error it raises. */
  function FromTemplate(t: Tables, tid: Id, gs: string): Result<Tables, HttpError> {
    match TemplateRepo.GetFull(t, tid, gs)
    case None => Err(TemplateNotFound)
    case Some(full) =>
      var models := TemplateRepo.Reread(full.1);
      if !ModelsValid(models) then Err(InvalidStoredItem)
      else
        match Validators.ValidateTemplate(full.0.kind, models)
        case Fail(e) => Err(Validators.Detail(e))
        case Pass => Ok(TemplateTables(t, gs, full.0, models))
  }

  /** The template's items as `create_round_from_template_id` reads them. */
  function StoredModels(t: Tables, tid: Id, gs: string): seq<TemplateItemIn>
    requires TemplateRepo.GetFull(t, tid, gs).Some?
  {
    TemplateRepo.Reread(TemplateRepo.GetFull(t, tid, gs).value.1)
  }

  /** The errors, each exactly when its check is the first to fail; on success the
      round is built from the scoped template and its stored items. */
  lemma FromTemplateErrors(t: Tables, tid: Id, gs: string)
    ensures FromTemplate(t, tid, gs) == Err(TemplateNotFound) <==> TemplateRepo.ScopedTemplate(t, tid, gs).None?
    ensures FromTemplate(t, tid, gs) == Err(InvalidStoredItem) <==>
              TemplateRepo.ScopedTemplate(t, tid, gs).Some? && !ModelsValid(StoredModels(t, tid, gs))
    ensures FromTemplate(t, tid, gs).Err? && FromTemplate(t, tid, gs).error.status == 400 <==>
              TemplateRepo.ScopedTemplate(t, tid, gs).Some? && ModelsValid(StoredModels(t, tid, gs)) &&
              Validators.ValidateTemplate(t.templates[tid].kind, StoredModels(t, tid, gs)).Fail?
    ensures FromTemplate(t, tid, gs).Ok? <==>
              TemplateRepo.ScopedTemplate(t, tid, gs).Some? && ModelsValid(StoredModels(t, tid, gs)) &&
              Validators.TemplateValid(t.templates[tid].kind, StoredModels(t, tid, gs))
    ensures FromTemplate(t, tid, gs).Ok? ==>
              FromTemplate(t, tid, gs) == Ok(TemplateTables(t, gs, t.templates[tid], StoredModels(t, tid, gs)))
  {
    if TemplateRepo.ScopedTemplate(t, tid, gs).Some? && ModelsValid(StoredModels(t, tid, gs)) {
      var v := Validators.ValidateTemplate(t.templates[tid].kind, StoredModels(t, tid, gs));
      assert v.Fail? ==> Validators.Detail(v.error).status == 400;
    }
  }

  /** A template round starts active with team 1 to play, in category "templates". Its
      target is the lowest-rated row for a rated template, else the row of the one item
      marked as target. */
  lemma TemplateRound(t: Tables, gs: string, tpl: TemplateRow, models: seq<TemplateItemIn>)
    requires Validators.TemplateValid(tpl.kind, models)
    ensures t.nextId in TemplateTables(t, gs, tpl, models).rounds
    ensures var row := TemplateTables(t, gs, tpl, models).rounds[t.nextId];
            && row.status == Active && row.currentTeam == 1 && row.gameSet == gs
            && row.category == "templates" && row.kind == tpl.kind
            && row.prompt == tpl.prompt && row.imageData == tpl.imageData
            && row.winnerTeam.None? && row.loserTeam.None?
            && row.targetItemId == TemplateTarget(t, tpl.kind, models)
  {
    var target := TemplateTarget(t, tpl.kind, models);
    assert TemplateTables(t, gs, tpl, models).rounds == t.rounds[t.nextId := TemplateRoundRow(gs, tpl, target)];
  }

  /** A template round adds one fresh unplayed row per stored item, in order, after the
      rows already there. */
  lemma TemplateRoundItems(t: Tables, gs: string, tpl: TemplateRow, models: seq<TemplateItemIn>)
    requires Validators.TemplateValid(tpl.kind, models)
    ensures TemplateTables(t, gs, tpl, models).items == t.items + TemplateRows(t.nextId, models)
  {
    TemplateTablesAre(t, gs, tpl, models, TemplateTarget(t, tpl.kind, models));
  }

  /** The rows appended after `a`, one per stored item, in order. */
  lemma AppendedTemplateRows(a: seq<ItemRow>, rid: Id, models: seq<TemplateItemIn>)
    ensures var items := a + TemplateRows(rid, models);
            && |items| == |a| + |models| && items[..|a|] == a
            && (forall k | 0 <= k < |models| ::
                  items[|a| + k] == ItemRow(rid + 1 + k, rid, models[k].title, models[k].rating,
                                            models[k].secretText, models[k].imageData, false, None))
  {
    var items := a + TemplateRows(rid, models);
    assert items[..|a|] == a;
  }

  /** The target of a template round: for a rated template the row
      `find_min_rating_item_id` returns for the new round, which is a new row no other new
      row sorts before; otherwise the row of the one item marked as target. */
  lemma TemplateTargetChoice(t: Tables, kind: string, models: seq<TemplateItemIn>)
    requires Valid(t) && Validators.TemplateValid(kind, models)
    ensures var rows := TemplateRows(t.nextId, models);
            kind == "rated" ==>
              && ItemRepo.FindMinRatingItemId(t.items + rows, t.nextId) == Ok(TemplateTarget(t, kind, models))
              && exists k | 0 <= k < |rows| ::
                   rows[k].id == TemplateTarget(t, kind, models) &&
                   forall j | 0 <= j < |rows| :: ItemRepo.RowLe(rows[k], rows[j])
    ensures kind != "rated" ==>
              exists k | 0 <= k < |models| :: Validators.OnlyTarget(models, k) && TemplateTarget(t, kind, models) == t.nextId + 1 + k
  {
    var rows := TemplateRows(t.nextId, models);
    if kind == "rated" {
      FreshRoundMin(t, rows);
      var p :| 0 <= p < |rows| && rows[p] == ItemRepo.MinRow(rows);
    } else {
      LastTargetSome(t.nextId, models);
    }
  }

  /** Creating a round from a template keeps the identifiers valid, every active round
      playable and every result consistent. */
  lemma TemplateKeepsInvariants(t: Tables, gs: string, tpl: TemplateRow, models: seq<TemplateItemIn>)
    requires Validators.TemplateValid(tpl.kind, models)
    ensures Valid(t) ==> Valid(TemplateTables(t, gs, tpl, models))
    ensures Valid(t) && Playable(t) ==> Playable(TemplateTables(t, gs, tpl, models))
    ensures OutcomeConsistent(t) ==> OutcomeConsistent(TemplateTables(t, gs, tpl, models))
  {
    var rows := TemplateRows(t.nextId, models);
    var target := TemplateTarget(t, tpl.kind, models);
    TemplateTablesAre(t, gs, tpl, models, target);
    var row := TemplateRoundRow(gs, tpl, target);
    assert TemplateTables(t, gs, tpl, models) ==
      t.(rounds := t.rounds[t.nextId := row], items := t.items + rows, nextId := t.nextId + 1 + |rows|);
    assert forall k | 0 <= k < |rows| :: rows[k].id == t.nextId + 1 + k && rows[k].roundId == t.nextId && !rows[k].eliminated;
    assert OutcomeOk(row);
    if Valid(t) && Playable(t) {
      TemplateTargetIsRow(t, tpl.kind, models);
    }
    assert Valid(t) && Playable(t) && row.status == Active ==> HasId(rows, row.targetItemId);
    AppendRoundKeepsInvariants(t, TemplateTables(t, gs, tpl, models), row, rows);
  }

  /** The three invariants for any round appended under the next identifier whose item
      rows are numbered after it and unplayed. */
  lemma AppendRoundKeepsInvariants(t: Tables, t2: Tables, row: RoundRow, rows: seq<ItemRow>)
    requires t2 == t.(rounds := t.rounds[t.nextId := row], items := t.items + rows, nextId := t.nextId + 1 + |rows|)
    requires forall k | 0 <= k < |rows| :: rows[k].id == t.nextId + 1 + k && rows[k].roundId == t.nextId && !rows[k].eliminated
    requires OutcomeOk(row)
    requires Valid(t) && Playable(t) && row.status == Active ==> HasId(rows, row.targetItemId)
    ensures Valid(t) ==> Valid(t2)
    ensures Valid(t) && Playable(t) ==> Playable(t2)
    ensures OutcomeConsistent(t) ==> OutcomeConsistent(t2)
  {
    if Valid(t) {
      AppendRoundKeepsValid(t, row, rows);
      if Playable(t) {
        AppendRoundKeepsPlayable(t, row, rows);
      }
    }
    if OutcomeConsistent(t) {
      AppendRoundKeepsOutcome(t, row, rows);
    }
  }

  lemma TemplateTargetIsRow(t: Tables, kind: string, models: seq<TemplateItemIn>)
    requires Valid(t) && Validators.TemplateValid(kind, models)
    ensures HasId(TemplateRows(t.nextId, models), TemplateTarget(t, kind, models))
  {
    var rows := TemplateRows(t.nextId, models);
    TemplateTargetChoice(t, kind, models);
    if kind != "rated" {
      var k :| 0 <= k < |models| && Validators.OnlyTarget(models, k) && TemplateTarget(t, kind, models) == t.nextId + 1 + k;
      assert rows[k].id == TemplateTarget(t, kind, models);
    }
  }

  /** A template item whose title is only whitespace is stored with an empty title, and
      from then on every round created from the template fails with a server error. */
  lemma BlankTitleBreaksTemplate(t: Tables, tid: Id, gs: string, i: nat)
    requires TemplateRepo.ScopedTemplate(t, tid, gs).Some?
    requires i < |t.templateItems| && t.templateItems[i].templateId == tid && t.templateItems[i].title == ""
    ensures FromTemplate(t, tid, gs) == Err(InvalidStoredItem)
  {
    var full := TemplateRepo.GetFull(t, tid, gs).value;
    var rows := TemplateRepo.RowsOfTemplate(t.templateItems, tid);
    assert t.templateItems[i] in rows;
    assert t.templateItems[i] in multiset(full.1);
    var j :| 0 <= j < |full.1| && full.1[j] == t.templateItems[i];
    assert !TemplateItemInValid(StoredModels(t, tid, gs)[j]);
  }

  lemma BlankTitleStoredEmpty(tid: Id, kind: string, it: TemplateItemIn)
    requires Text.AllSpace(Text.Python, it.title)
    ensures TemplateRepo.NormalizeItem(tid, kind, it).title == ""
  {
  }

  /** The insert loops of `create_round_from_template_id`: one row per item under the
      next identifiers, and the identifier of the last row whose item is marked as target
      (the manual loop keeps it; the rated loop does not look at it). */
  method InsertTemplateItems(db: Db, rid: Id, models: seq<TemplateItemIn>) returns (target: Option<Id>)
    requires db.nextId == rid + 1
    modifies db
    ensures db.State() == old(db.State()).(items := old(db.items) + TemplateRows(rid, models), nextId := rid + 1 + |models|)
    ensures target == LastTarget(rid, models)
  {
    target := None;
    var i := 0;
    while i < |models|
      invariant 0 <= i <= |models|
      invariant db.State() == old(db.State()).(items := old(db.items) + TemplateRows(rid, models[..i]), nextId := rid + 1 + i)
      invariant target == LastTarget(rid, models[..i])
    {
      TemplateRowsSnoc(rid, models, i);
      var iid := ItemRepo.InsertItem(db, rid, models[i].title, models[i].rating, models[i].secretText, models[i].imageData);
      assert models[..i + 1][..i] == models[..i];
      if models[i].isTarget {
        target := Some(iid);
      }
      i := i + 1;
    }
    assert models[..i] == models;
  }

  /** `create_round_from_template_id`. The "Failed to resolve target_item_id" error
      cannot happen once the template has passed validation. */
  method CreateRoundFromTemplateId(db: Db, tid: Id, gs: string) returns (r: Result<Id, HttpError>)
    modifies db
    ensures FromTemplate(old(db.State()), tid, gs).Err? ==>
              r == Err(FromTemplate(old(db.State()), tid, gs).error) && db.State() == old(db.State())
    ensures FromTemplate(old(db.State()), tid, gs).Ok? ==>
              r == Ok(old(db.nextId)) && db.State() == FromTemplate(old(db.State()), tid, gs).value
  {
    var full := TemplateRepo.GetFull(db.State(), tid, gs);
    if full.None? {
      return Err(TemplateNotFound);
    }
    var tpl := full.value.0;
    var models := TemplateRepo.Reread(full.value.1);
    if exists i | 0 <= i < |models| :: !TemplateItemInValid(models[i]) {
      return Err(InvalidStoredItem);
    }
    var check := Validators.ValidateTemplate(tpl.kind, models);
    if check.Fail? {
      return Err(Validators.Detail(check.error));
    }
    var rid := StoreTemplateRound(db, gs, tpl, models);
    r := Ok(rid);
  }

  /** The writes of `create_round_from_template_id` once the template has passed
      validation: the round, its rows, and the target. */
  method StoreTemplateRound(db: Db, gs: string, tpl: TemplateRow, models: seq<TemplateItemIn>) returns (rid: Id)
    requires Validators.TemplateValid(tpl.kind, models)
    modifies db
    ensures rid == old(db.nextId)
    ensures db.State() == TemplateTables(old(db.State()), gs, tpl, models)
  {
    ghost var t0 := db.State();
    var lastTarget;
    rid, lastTarget := InsertTemplateRound(db, gs, tpl, models);
    var target := ResolveTemplateTarget(db, t0, rid, tpl.kind, models, lastTarget);
    RoundRepo.SetTargetItemId(db, rid, gs, target);
    SetTargetOfNewRound(t0.rounds, rid, TemplateRoundRow(gs, tpl, RoundRepo.PlaceholderTargetId(t0.items)), gs, target);
    TemplateTablesAre(t0, gs, tpl, models, target);
  }

  /** Setting the target of the round just created replaces its placeholder. */
  lemma SetTargetOfNewRound(rounds: map<Id, RoundRow>, rid: Id, row: RoundRow, gs: string, target: Id)
    requires row.gameSet == gs
    ensures RoundRepo.WithTarget(rounds[rid := row], rid, gs, target) == rounds[rid := row.(targetItemId := target)]
  {
    assert RoundRepo.InScope(rounds[rid := row], rid, gs);
  }

  lemma TemplateTablesAre(t: Tables, gs: string, tpl: TemplateRow, models: seq<TemplateItemIn>, target: Id)
    requires Validators.TemplateValid(tpl.kind, models) && target == TemplateTarget(t, tpl.kind, models)
    ensures TemplateTables(t, gs, tpl, models) ==
              t.(rounds := t.rounds[t.nextId := TemplateRoundRow(gs, tpl, target)],
                 items := t.items + TemplateRows(t.nextId, models),
                 nextId := t.nextId + 1 + |models|)
  {
  }

  /** `create_round` and the insert loop, before the target is known. */
  method InsertTemplateRound(db: Db, gs: string, tpl: TemplateRow, models: seq<TemplateItemIn>)
    returns (rid: Id, lastTarget: Option<Id>)
    modifies db
    ensures rid == old(db.nextId) && lastTarget == LastTarget(rid, models)
    ensures db.State() == old(db.State()).(
              rounds := old(db.rounds)[rid := TemplateRoundRow(gs, tpl, RoundRepo.PlaceholderTargetId(old(db.items)))],
              items := old(db.items) + TemplateRows(rid, models),
              nextId := rid + 1 + |models|)
  {
    rid := RoundRepo.CreateRound(db, gs, "templates", tpl.prompt, tpl.kind, 1, Active, tpl.imageData);
    lastTarget := InsertTemplateItems(db, rid, models);
  }

  /** After the insert loop: the lowest-rated row of the new round for a rated template,
      else the last row the loop saw marked as target. */
  method ResolveTemplateTarget(db: Db, ghost t0: Tables, rid: Id, kind: string, models: seq<TemplateItemIn>,
                               lastTarget: Option<Id>)
    returns (target: Id)
    requires Validators.TemplateValid(kind, models) && rid == t0.nextId
    requires db.items == t0.items + TemplateRows(rid, models)
    requires lastTarget == LastTarget(rid, models)
    ensures target == TemplateTarget(t0, kind, models)
  {
    if kind == "rated" {
      var found := ItemRepo.FindMinRatingItemId(db.items, rid);
      assert db.items[|t0.items|].roundId == rid;
      target := found.value;
    } else {
      LastTargetSome(rid, models);
      target := lastTarget.value;
    }
  }
}
