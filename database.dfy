/** The PostgreSQL tables the repositories read and write, held in memory.
    `items` and `templateItems` keep rows in insertion order, which is the order a query
    without `ORDER BY` returns them in this model. */
module Database {
  import opened Results
  import opened Schemas

  /** A row of `items`. */
  datatype ItemRow = ItemRow(
    id: Id,
    roundId: Id,
    title: string,
    rating: Option<real>,
    secretText: Option<string>,
    imageData: Option<string>,
    eliminated: bool,
    eliminatedByTeam: Option<TeamId>)

  /** A row of `rounds` (its id is the key of the `rounds` map). */
  datatype RoundRow = RoundRow(
    gameSet: string,
    category: string,
    prompt: string,
    kind: string,
    currentTeam: TeamId,
    status: RoundStatus,
    targetItemId: Id,
    winnerTeam: Option<TeamId>,
    loserTeam: Option<TeamId>,
    imageData: Option<string>)

  /** A row of `templates` (its id is the key of the `templates` map). */
  datatype TemplateRow = TemplateRow(
    gameSet: string,
    name: string,
    prompt: string,
    kind: string,
    imageData: Option<string>)

  /** A row of `template_items`. */
  datatype TemplateItemRow = TemplateItemRow(
    templateId: Id,
    title: string,
    rating: Option<real>,
    secretText: Option<string>,
    isTarget: bool,
    imageData: Option<string>)

  /** The whole database as a value; `nextId` is the next identifier to hand out. */
  datatype Tables = Tables(
    rounds: map<Id, RoundRow>,
    items: seq<ItemRow>,
    templates: map<Id, TemplateRow>,
    templateItems: seq<TemplateItemRow>,
    gameSets: set<string>,
    nextId: Id)

  /** No two item rows share an id (the primary key of `items`). */
  predicate ItemIdsDistinct(items: seq<ItemRow>) {
    forall i, j | 0 <= i < j < |items| :: items[i].id != items[j].id
  }

  /** Every identifier in use was handed out before `nextId`, none is the nil UUID, and
      every item row belongs to an existing round (the foreign key `items.round_id`). */
  predicate Valid(t: Tables) {
    && t.nextId >= 1
    && (forall rid | rid in t.rounds :: 1 <= rid < t.nextId)
    && (forall tid | tid in t.templates :: 1 <= tid < t.nextId)
    && (forall k | 0 <= k < |t.items| :: 1 <= t.items[k].id < t.nextId)
    && (forall k | 0 <= k < |t.items| :: t.items[k].roundId in t.rounds)
    && ItemIdsDistinct(t.items)
  }

  /** The database connection: every table as a field the repositories update. */
  class Db {
    var rounds: map<Id, RoundRow>
    var items: seq<ItemRow>
    var templates: map<Id, TemplateRow>
    var templateItems: seq<TemplateItemRow>
    var gameSets: set<string>
    var nextId: Id

    function State(): Tables
      reads this
    {
      Tables(rounds, items, templates, templateItems, gameSets, nextId)
    }

    /** An empty database. */
    constructor ()
      ensures Valid(State())
      ensures State() == Tables(map[], [], map[], [], {}, 1)
    {
      rounds, items, templates, templateItems, gameSets, nextId := map[], [], map[], [], {}, 1;
    }

    /** A fresh identifier: the model of `gen_random_uuid()`. */
    method NewId() returns (id: Id)
      modifies this
      ensures id == old(nextId)
      ensures State() == old(State()).(nextId := id + 1)
    {
      id := nextId;
      nextId := nextId + 1;
    }
  }
}
