/** `ClientMatch` (`frontend/app.js`): a match is a plan of up to ten rounds picked on the
    teams screen, played one after another, with a score per team. */
module ClientMatch {
  import opened Results
  import opened Schemas
  import opened Database
  import Text
  import ClientText
  import ClientImages
  import ClientCarousel
  import RoundRepo
  import RoundService

  /** The most rounds a plan may hold. */
  const MAX_ROUNDS := 10
  /** The round set used when the plan has no entry at the current index. */
  const DEFAULT_SET := "builtin:movies"

  /** The reasons the start button refuses to start a match. */
  datatype StartError = NoRounds | TooManyRounds

  /** The error dialog each reason opens. */
  function Message(e: StartError): string {
    match e
    case NoRounds => "Pick at least 1 round."
    case TooManyRounds => "Pick up to 10 rounds."
  }

  predicate Distinct(s: seq<string>) {
    forall i, j | 0 <= i < j < |s| :: s[i] != s[j]
  }

  lemma DistinctCons(x: string, s: seq<string>)
    requires x !in s && Distinct(s)
    ensures Distinct([x] + s)
  {
    var r := [x] + s;
    forall i, j | 0 <= i < j < |r| ensures r[i] != r[j] {
      assert r[j] == s[j - 1];
      if i > 0 {
        assert r[i] == s[i - 1];
      }
    }
  }

  /** `filter((x) => x !== id)`: the entries other than `x`, in order. */
  function Without(s: seq<string>, x: string): (r: seq<string>)
    ensures |r| <= |s|
    ensures forall y :: y in r <==> y in s && y != x
  {
    if s == [] then []
    else
      assert forall y | y in s[1..] :: y in s;
      assert forall y | y in s :: y == s[0] || y in s[1..];
      (if s[0] == x then [] else [s[0]]) + Without(s[1..], x)
  }

  /** Filtering keeps a draft free of repeats. */
  lemma {:induction false} WithoutKeepsDistinct(s: seq<string>, x: string)
    requires Distinct(s)
    ensures Distinct(Without(s, x))
  {
    if s != [] {
      assert forall j | 0 < j < |s| :: s[j] == s[1..][j - 1];
      WithoutKeepsDistinct(s[1..], x);
      if s[0] != x {
        assert s[0] !in s[1..];
        DistinctCons(s[0], Without(s[1..], x));
      } else {
        assert [] + Without(s[1..], x) == Without(s[1..], x);
      }
    }
  }

  /** The draft right after the checkbox handler's `push` or `filter`. */
  function Edited(draft: seq<string>, id: string, checked: bool): (r: seq<string>)
    ensures checked <==> id in r
    ensures forall x | x != id :: x in r <==> x in draft
  {
    if checked then (if id in draft then draft else draft + [id]) else Without(draft, id)
  }

  /** The draft once the handler has cut it to at most ten entries. */
  function Toggled(draft: seq<string>, id: string, checked: bool): seq<string> {
    if |Edited(draft, id, checked)| > MAX_ROUNDS then Edited(draft, id, checked)[..MAX_ROUNDS]
    else Edited(draft, id, checked)
  }

  /** The checkbox handler keeps the draft at most ten long and free of repeats, brings in
      nothing but `id`, removes `id` when it is unticked, and appends it when it is ticked
      and there is room; ticking a new entry into a full draft leaves it out. */
  lemma ToggledProps(draft: seq<string>, id: string, checked: bool)
    ensures |Toggled(draft, id, checked)| <= MAX_ROUNDS
    ensures Distinct(draft) ==> Distinct(Toggled(draft, id, checked))
    ensures forall x | x in Toggled(draft, id, checked) :: (x in draft && (checked || x != id)) || (checked && x == id)
    ensures !checked ==> id !in Toggled(draft, id, checked)
    ensures !checked && |draft| <= MAX_ROUNDS ==> Toggled(draft, id, checked) == Without(draft, id)
    ensures checked && id in draft && |draft| <= MAX_ROUNDS ==> Toggled(draft, id, checked) == draft
    ensures checked && id !in draft && |draft| < MAX_ROUNDS ==> Toggled(draft, id, checked) == draft + [id]
    ensures checked && id !in draft && |draft| >= MAX_ROUNDS ==>
              Toggled(draft, id, checked) == draft[..MAX_ROUNDS] && id !in Toggled(draft, id, checked)
  {
    var e := Edited(draft, id, checked);
    var r := Toggled(draft, id, checked);
    if !checked && Distinct(draft) {
      WithoutKeepsDistinct(draft, id);
    }
    if checked && id !in draft {
      assert e == draft + [id];
      if Distinct(draft) {
        assert forall i | 0 <= i < |draft| :: e[i] == draft[i];
      }
      if |draft| >= MAX_ROUNDS {
        assert r == draft[..MAX_ROUNDS];
        assert id !in draft[..MAX_ROUNDS] by {
          assert forall x | x in draft[..MAX_ROUNDS] :: x in draft;
        }
      }
    }
    assert forall x | x in r :: x in e;
    if Distinct(e) && |e| > MAX_ROUNDS {
      assert forall i | 0 <= i < MAX_ROUNDS :: r[i] == e[i];
    }
  }

  /** The handler unticks the box again exactly when the edit overflows the draft, which
      for a draft of at most ten entries means ticking a new entry into a full draft. */
  lemma UntickedWhenFull(draft: seq<string>, id: string, checked: bool)
    requires |draft| <= MAX_ROUNDS
    ensures |Edited(draft, id, checked)| > MAX_ROUNDS <==> checked && id !in draft && |draft| == MAX_ROUNDS
  {
  }

  /** `getOrderNumber`: the 1-based position of the first occurrence of `id`. */
  function OrderNumber(draft: seq<string>, id: string): (n: Option<nat>)
    ensures n.None? <==> id !in draft
    ensures n.Some? ==> 1 <= n.value <= |draft| && draft[n.value - 1] == id && id !in draft[..n.value - 1]
  {
    if draft == [] then None
    else if draft[0] == id then Some(1)
    else
      match OrderNumber(draft[1..], id)
      case None => None
      case Some(k) =>
        assert draft[..k] == [draft[0]] + draft[1..][..k - 1];
        Some(k + 1)
  }

  /** In a draft without repeats, the entry at index `i` is numbered `i + 1`. */
  lemma OrderNumbersArePositions(draft: seq<string>, i: nat)
    requires Distinct(draft) && i < |draft|
    ensures OrderNumber(draft, draft[i]) == Some(i + 1)
  {
  }

  /** A new entry ticked into a draft with room gets the next number. */
  lemma OrderNumberOfTicked(draft: seq<string>, id: string)
    requires id !in draft && |draft| < MAX_ROUNDS
    ensures OrderNumber(Toggled(draft, id, true), id) == Some(|draft| + 1)
  {
    ToggledProps(draft, id, true);
    var r := draft + [id];
    assert r[..|draft|] == draft;
  }

  /** The index of the first item of `items` with identifier `iid`, as `find` looks for it. */
  function FindItem(items: seq<ItemOut>, iid: Id): (k: Option<nat>)
    ensures k.None? <==> forall i | 0 <= i < |items| :: items[i].id != iid
    ensures k.Some? ==> k.value < |items| && items[k.value].id == iid
  {
    if items == [] then None
    else if items[0].id == iid then Some(0)
    else
      match FindItem(items[1..], iid)
      case None =>
        assert forall i | 1 <= i < |items| :: items[i] == items[1..][i - 1];
        None
      case Some(k) => Some(k + 1)
  }

  /** `pickedWasTarget`: the response shows the picked item, the round is over and the
      item is revealed as the target. */
  predicate PickedWasTarget(r: RoundOut, iid: Id) {
    PickedIn(r.items, r.status, iid)
  }

  predicate PickedIn(items: seq<ItemOut>, status: RoundStatus, iid: Id) {
    match FindItem(items, iid)
    case None => false
    case Some(k) => status != Active && items[k].isTarget == Some(true)
  }

  /** The score change for the acting team: picking the target costs four points, any
      other pick earns one. */
  function Bonus(pickedWasTarget: bool): int {
    if pickedWasTarget then -4 else 1
  }

  /** The client scores a pick from the server's answer, and that answer reveals the pick
      as the target exactly when it was the round's target: whatever images the client
      puts back, the acting team loses four points exactly for picking the target. */
  lemma ScoreFollowsServer(t: Tables, rid: Id, iid: Id, gs: string, t2: Tables, out: RoundOut,
                           cache: map<Id, string>)
    requires RoundService.Eliminate(t, rid, iid, gs) == Ok(t2)
    requires RoundService.RoundToResponse(t2, rid, gs) == Ok(out)
    ensures PickedWasTarget(out.(items := ClientImages.FillAll(cache, out.items)), iid) <==>
              iid == t.rounds[rid].targetItemId
  {
    var rows, kind, target := ServerShowsPick(t, rid, iid, gs, t2, out);
    ClientReadsPick(out, cache, iid, rows, kind, target);
  }

  /** What the answer to an accepted pick shows: the views of the round's rows, among them
      the picked item, in a status that is finished with the picked item as target exactly
      when the pick was the target. */
  lemma ServerShowsPick(t: Tables, rid: Id, iid: Id, gs: string, t2: Tables, out: RoundOut)
    returns (rows: seq<ItemRow>, kind: string, target: Id)
    requires RoundService.Eliminate(t, rid, iid, gs) == Ok(t2)
    requires RoundService.RoundToResponse(t2, rid, gs) == Ok(out)
    ensures out.items == RoundService.ViewItems(rows, kind, out.status, target)
    ensures exists i | 0 <= i < |out.items| :: out.items[i].id == iid
    ensures out.status == Finished && iid == target <==> iid == t.rounds[rid].targetItemId
  {
    var row := t2.rounds[rid];
    rows, kind, target := RoundRepo.ListRoundItems(t2.items, rid), row.kind, row.targetItemId;
    PickIsShown(t, rid, iid, gs, t2, out);
    PickFinishes(t, rid, iid, gs, t2);
  }

  /** The picked item is among the items of the answer. */
  lemma PickIsShown(t: Tables, rid: Id, iid: Id, gs: string, t2: Tables, out: RoundOut)
    requires RoundService.Eliminate(t, rid, iid, gs) == Ok(t2)
    requires RoundService.RoundToResponse(t2, rid, gs) == Ok(out)
    ensures exists i | 0 <= i < |out.items| :: out.items[i].id == iid
  {
    RoundService.EliminateShape(t, rid, iid, gs, t2);
    RoundService.EliminateFrame(t, rid, iid, gs, t2);
    RoundService.ResponseListsRoundItems(t2, rid, gs, out);
    var k :| 0 <= k < |t.items| && RoundRepo.Matches(t.items[k], iid, rid);
    assert t2.items[k].id == iid && t2.items[k].roundId == rid;
  }

  /** The round is finished with the picked item as its target exactly when the pick was
      the target. */
  lemma PickFinishes(t: Tables, rid: Id, iid: Id, gs: string, t2: Tables)
    requires RoundService.Eliminate(t, rid, iid, gs) == Ok(t2)
    ensures rid in t2.rounds && rid in t.rounds
    ensures t2.rounds[rid].status == Finished && iid == t2.rounds[rid].targetItemId <==> iid == t.rounds[rid].targetItemId
  {
    RoundService.EliminateFrame(t, rid, iid, gs, t2);
    if iid == t.rounds[rid].targetItemId {
      RoundService.EliminateTargetLoses(t, rid, iid, gs, t2);
    }
  }

  /** The client reads an answer that shows the picked item as the picked target exactly
      when the round is finished and the item is its target. */
  lemma ClientReadsPick(out: RoundOut, cache: map<Id, string>, iid: Id, rows: seq<ItemRow>, kind: string, target: Id)
    requires out.items == RoundService.ViewItems(rows, kind, out.status, target)
    requires exists i | 0 <= i < |out.items| :: out.items[i].id == iid
    ensures PickedWasTarget(out.(items := ClientImages.FillAll(cache, out.items)), iid) <==>
              out.status == Finished && iid == target
  {
    ViewedPick(rows, kind, out.status, target, out.items, cache, iid);
  }

  /** When the views of a round's rows show item `iid`, the client reads it as the picked
      target exactly when the round is finished and `iid` is its target. */
  lemma ViewedPick(rows: seq<ItemRow>, kind: string, status: RoundStatus, target: Id,
                   views: seq<ItemOut>, cache: map<Id, string>, iid: Id)
    requires views == RoundService.ViewItems(rows, kind, status, target)
    requires exists i | 0 <= i < |views| :: views[i].id == iid
    ensures PickedIn(ClientImages.FillAll(cache, views), status, iid) <==> status == Finished && iid == target
  {
    var filled := ClientImages.FillAll(cache, views);
    ClientImages.FillOnlyAddsImages(cache, views);
    var i :| 0 <= i < |views| && views[i].id == iid;
    assert filled[i].id == iid;
    var j := FindItem(filled, iid).value;
    assert filled[j].isTarget == views[j].isTarget && views[j].id == iid;
    assert views[j] == RoundService.ItemView(rows[j], kind, status, target);
  }

  /** The two checks of the start button, in its order. */
  function StartCheck(draft: seq<string>): Option<StartError> {
    if |draft| == 0 then Some(NoRounds)
    else if |draft| > MAX_ROUNDS then Some(TooManyRounds)
    else None
  }

  /** Each error exactly when its check fails; a match starts exactly with one to ten
      rounds picked. */
  lemma StartCheckCases(draft: seq<string>)
    ensures StartCheck(draft) == Some(NoRounds) <==> |draft| == 0
    ensures StartCheck(draft) == Some(TooManyRounds) <==> |draft| > MAX_ROUNDS
    ensures StartCheck(draft).None? <==> 1 <= |draft| <= MAX_ROUNDS
  {
  }

  /** `(value ?? "").trim() || fallback` for a team-name input. */
  function TeamName(input: Option<string>, fallback: string): string {
    if Text.AllSpace(Text.JavaScript, ClientText.OrEmpty(input)) then fallback else Text.Strip(Text.JavaScript, ClientText.OrEmpty(input))
  }

  /** With a non-empty fallback a team always has a name; a name typed in is kept without
      its surrounding whitespace, and a blank one gives the fallback. */
  lemma TeamNameProps(input: Option<string>, fallback: string)
    requires fallback != ""
    ensures TeamName(input, fallback) != ""
    ensures Text.Trimmed(Text.JavaScript, fallback) ==> Text.Trimmed(Text.JavaScript, TeamName(input, fallback))
    ensures !Text.AllSpace(Text.JavaScript, ClientText.OrEmpty(input)) ==> TeamName(input, fallback) == Text.Strip(Text.JavaScript, ClientText.OrEmpty(input))
    ensures Text.AllSpace(Text.JavaScript, ClientText.OrEmpty(input)) <==> Text.Strip(Text.JavaScript, ClientText.OrEmpty(input)) == ""
  {
  }

  /** `storage.get(key, fallback)`: a stored value is used when it is not empty. */
  function Stored(value: Option<string>, fallback: string): (r: string)
    ensures r == fallback || (value.Some? && r == value.value)
    ensures fallback != "" ==> r != ""
  {
    if value.Some? && value.value != "" then value.value else fallback
  }

  /** The state of the match: the draft plan, the frozen plan, the index of the current
      round, the scores, the team names and the round on screen. */
  class Match {
    var draft: seq<string>
    var plan: seq<string>
    var gameIndex: int
    var scores: map<TeamId, int>
    var team1: string
    var team2: string
    var round: Option<RoundOut>

    /** The current index stays inside the plan and both teams have a score. */
    predicate Valid()
      reads this
    {
      && 0 <= gameIndex && (gameIndex == 0 || gameIndex < |plan|)
      && 1 in scores && 2 in scores
    }

    constructor (stored1: Option<string>, stored2: Option<string>)
      ensures Valid()
      ensures draft == [] && plan == [] && gameIndex == 0 && scores == map[1 := 0, 2 := 0]
      ensures team1 == Stored(stored1, "Team 1") && team2 == Stored(stored2, "Team 2")
      ensures round.None?
    {
      draft := [];
      plan := [];
      gameIndex := 0;
      scores := map[1 := 0, 2 := 0];
      team1 := Stored(stored1, "Team 1");
      team2 := Stored(stored2, "Team 2");
      round := None;
    }

    /** `hasNextRound`. */
    predicate HasNextRound()
      reads this
    {
      gameIndex < |plan| - 1
    }

    /** `getCurrentRoundSetId`: the plan's entry at the current index, or the default
      set when there is none or it is empty. */
    function CurrentRoundSetId(): (id: string)
      reads this
      ensures id != ""
      ensures 0 <= gameIndex < |plan| && plan[gameIndex] != "" ==> id == plan[gameIndex]
      ensures Valid() && plan != [] && (forall i | 0 <= i < |plan| :: plan[i] != "") ==> id == plan[gameIndex]
    {
      if 0 <= gameIndex < |plan| && plan[gameIndex] != "" then plan[gameIndex] else DEFAULT_SET
    }

    /** The position shown next to a round on the teams screen. */
    function GetOrderNumber(id: string): (n: Option<nat>)
      reads this
      ensures n.Some? <==> id in draft
    {
      OrderNumber(draft, id)
    }

    /** The checkbox handler of the teams screen; `unticked` says whether it clears the
        box again. */
    method Toggle(id: string, checked: bool) returns (unticked: bool)
      modifies this
      ensures draft == Toggled(old(draft), id, checked)
      ensures unticked <==> |Edited(old(draft), id, checked)| > MAX_ROUNDS
      ensures plan == old(plan) && gameIndex == old(gameIndex) && scores == old(scores)
      ensures team1 == old(team1) && team2 == old(team2) && round == old(round)
    {
      if checked {
        if id !in draft {
          draft := draft + [id];
        }
      } else {
        draft := Without(draft, id);
      }
      unticked := false;
      if |draft| > MAX_ROUNDS {
        draft := draft[..MAX_ROUNDS];
        unticked := true;
      }
    }

    /** `startRound`: the carousel goes back to its first item, and a created round
        replaces the one on screen with the image cache started over; when creation fails
        the round on screen stays. */
    method StartRound(images: ClientImages.ImageCache, carousel: ClientCarousel.Carousel,
                      created: Result<RoundOut, HttpError>)
      requires images.Valid()
      modifies this, images, carousel
      ensures images.Valid() && carousel.index == 0 && carousel.count == old(carousel.count)
      ensures draft == old(draft) && plan == old(plan) && gameIndex == old(gameIndex) && scores == old(scores)
      ensures team1 == old(team1) && team2 == old(team2)
      ensures created.Err? ==> round == old(round) && images.roundId == old(images.roundId) && images.images == old(images.images)
      ensures created.Ok? ==>
                && images.roundId == Some(created.value.id)
                && images.images == ClientImages.Remember(map[], created.value.items)
                && round == Some(created.value.(items := ClientImages.FillAll(images.images, created.value.items)))
    {
      carousel.Reset();
      if created.Ok? {
        var r := images.Sync(created.value, true);
        round := Some(r);
      }
    }

    /** `startMatch`: both scores back to zero, the first round of the plan. */
    method StartMatch(images: ClientImages.ImageCache, carousel: ClientCarousel.Carousel,
                      created: Result<RoundOut, HttpError>)
      requires images.Valid() && Valid()
      modifies this, images, carousel
      ensures Valid() && images.Valid() && carousel.index == 0 && carousel.count == old(carousel.count)
      ensures scores == map[1 := 0, 2 := 0] && gameIndex == 0
      ensures draft == old(draft) && plan == old(plan) && team1 == old(team1) && team2 == old(team2)
      ensures created.Err? ==>
                round == old(round) && images.roundId == old(images.roundId) && images.images == old(images.images)
      ensures created.Ok? ==>
                && images.roundId == Some(created.value.id)
                && images.images == ClientImages.Remember(map[], created.value.items)
                && round == Some(created.value.(items := ClientImages.FillAll(ClientImages.Remember(map[], created.value.items), created.value.items)))
    {
      scores := map[1 := 0, 2 := 0];
      gameIndex := 0;
      StartRound(images, carousel, created);
    }

    /** `goNextRound`: nothing happens on the last round of the plan; otherwise the next
        entry of the plan is played. */
    method GoNextRound(images: ClientImages.ImageCache, carousel: ClientCarousel.Carousel,
                       created: Result<RoundOut, HttpError>)
      requires images.Valid() && Valid()
      modifies this, images, carousel
      ensures Valid() && images.Valid() && carousel.count == old(carousel.count)
      ensures draft == old(draft) && plan == old(plan) && scores == old(scores)
      ensures team1 == old(team1) && team2 == old(team2)
      ensures !old(HasNextRound()) ==>
                gameIndex == old(gameIndex) && round == old(round) && carousel.index == old(carousel.index) &&
                images.roundId == old(images.roundId) && images.images == old(images.images)
      ensures old(HasNextRound()) ==> gameIndex == old(gameIndex) + 1 && gameIndex < |plan| && carousel.index == 0
      ensures old(HasNextRound()) && created.Err? ==>
                round == old(round) && images.roundId == old(images.roundId) && images.images == old(images.images)
      ensures old(HasNextRound()) && created.Ok? ==>
                && images.roundId == Some(created.value.id)
                && images.images == ClientImages.Remember(map[], created.value.items)
                && round == Some(created.value.(items := ClientImages.FillAll(ClientImages.Remember(map[], created.value.items), created.value.items)))
    {
      if !(gameIndex < |plan| - 1) {
        return;
      }
      gameIndex := gameIndex + 1;
      StartRound(images, carousel, created);
    }

    /** The start button's first step: the team names are taken from the inputs. */
    method SetTeamNames(input1: Option<string>, input2: Option<string>)
      modifies this
      ensures team1 == TeamName(input1, "Team 1") && team2 == TeamName(input2, "Team 2")
      ensures draft == old(draft) && plan == old(plan) && gameIndex == old(gameIndex)
      ensures scores == old(scores) && round == old(round)
    {
      team1 := TeamName(input1, "Team 1");
      team2 := TeamName(input2, "Team 2");
    }

    /** The rest of the start button: the draft must hold one to ten rounds, and then it is
        frozen as the plan and the match starts. */
    method Start(images: ClientImages.ImageCache, carousel: ClientCarousel.Carousel,
                 created: Result<RoundOut, HttpError>)
      returns (err: Option<StartError>)
      requires images.Valid() && Valid()
      modifies this, images, carousel
      ensures Valid() && images.Valid() && carousel.count == old(carousel.count)
      ensures team1 == old(team1) && team2 == old(team2)
      ensures draft == old(draft) && err == StartCheck(draft)
      ensures err.Some? ==>
                && plan == old(plan) && gameIndex == old(gameIndex) && scores == old(scores) && round == old(round)
                && carousel.index == old(carousel.index)
                && images.roundId == old(images.roundId) && images.images == old(images.images)
      ensures err.None? ==>
                plan == draft && gameIndex == 0 && scores == map[1 := 0, 2 := 0] && carousel.index == 0
      ensures err.None? && created.Err? ==>
                round == old(round) && images.roundId == old(images.roundId) && images.images == old(images.images)
      ensures err.None? && created.Ok? ==>
                && images.roundId == Some(created.value.id)
                && images.images == ClientImages.Remember(map[], created.value.items)
                && round == Some(created.value.(items := ClientImages.FillAll(ClientImages.Remember(map[], created.value.items), created.value.items)))
    {
      err := StartCheck(draft);
      if err.None? {
        plan := draft;
        gameIndex := 0;
        StartMatch(images, carousel, created);
      }
    }

    /** `eliminate(itemId)` once the server has answered with `response`: without a round
        on screen, or when the request fails, nothing changes; otherwise the answer is
        shown with its images put back and the team whose turn it was scores the pick. */
    method Eliminate(images: ClientImages.ImageCache, iid: Id, response: Result<RoundOut, HttpError>)
      requires images.Valid() && Valid()
      modifies this, images
      ensures Valid() && images.Valid()
      ensures draft == old(draft) && plan == old(plan) && gameIndex == old(gameIndex)
      ensures team1 == old(team1) && team2 == old(team2)
      ensures old(round).None? || response.Err? ==>
                && round == old(round) && scores == old(scores)
                && images.roundId == old(images.roundId) && images.images == old(images.images)
      ensures old(round).Some? && response.Ok? ==>
                && images.roundId == Some(response.value.id)
                && images.images == ClientImages.Remember(
                     if old(images.roundId) == Some(response.value.id) then old(images.images) else map[],
                     response.value.items)
                && round.Some?
                && round.value == response.value.(items := ClientImages.FillAll(images.images, response.value.items))
                && scores == old(scores)[old(round).value.currentTeam :=
                                           old(scores)[old(round).value.currentTeam] + Bonus(PickedWasTarget(round.value, iid))]
    {
      if round.None? {
        return;
      }
      var acting := round.value.currentTeam;
      if response.Err? {
        return;
      }
      var r := images.Sync(response.value, false);
      round := Some(r);
      var picked := FindItem(r.items, iid);
      var pickedWasTarget := picked.Some? && r.status != Active && r.items[picked.value].isTarget == Some(true);
      assert pickedWasTarget == PickedWasTarget(r, iid);
      if pickedWasTarget {
        scores := scores[acting := scores[acting] - 4];
      } else {
        scores := scores[acting := scores[acting] + 1];
      }
    }
  }
}
