/** `ItemRepo` (`backend/app/repos/items.py`): inserting item rows and choosing the
    lowest-rated item of a round. */
module ItemRepo {
  import opened Results
  import opened Schemas
  import opened Database
  import Order
  import RoundRepo

  /** `ORDER BY rating ASC NULLS LAST, title ASC`: row key (`ra`, `ta`) sorts no later
      than (`rb`, `tb`). Python's tuple order on `(rating, title)` is the same order
      restricted to present ratings. */
  predicate KeyLe(ra: Option<real>, ta: string, rb: Option<real>, tb: string) {
    match (ra, rb)
    case (Some(x), Some(y)) => x < y || (x == y && Order.StrLe(ta, tb))
    case (Some(_), None) => true
    case (None, Some(_)) => false
    case (None, None) => Order.StrLe(ta, tb)
  }

  lemma KeyLeTotal(ra: Option<real>, ta: string, rb: Option<real>, tb: string)
    ensures KeyLe(ra, ta, rb, tb) || KeyLe(rb, tb, ra, ta)
  {
    Order.StrLeTotal(ta, tb);
  }

  lemma KeyLeTrans(ra: Option<real>, ta: string, rb: Option<real>, tb: string, rc: Option<real>, tc: string)
    requires KeyLe(ra, ta, rb, tb) && KeyLe(rb, tb, rc, tc)
    ensures KeyLe(ra, ta, rc, tc)
  {
    if Order.StrLe(ta, tb) && Order.StrLe(tb, tc) { Order.StrLeTrans(ta, tb, tc); }
  }

  predicate RowLe(a: ItemRow, b: ItemRow) {
    KeyLe(a.rating, a.title, b.rating, b.title)
  }

  /** The first row of `rows` that sorts first by rating (nulls last), then title:
      the row `LIMIT 1` returns. */
  function MinRow(rows: seq<ItemRow>): (r: ItemRow)
    requires rows != []
    ensures r in rows
    ensures forall j | 0 <= j < |rows| :: RowLe(r, rows[j])
  {
    if |rows| == 1 then
      KeyLeTotal(rows[0].rating, rows[0].title, rows[0].rating, rows[0].title);
      rows[0]
    else
      var m := MinRow(rows[1..]);
      assert forall j | 1 <= j < |rows| :: rows[j] == rows[1..][j - 1];
      if RowLe(rows[0], m) then
        assert forall j | 1 <= j < |rows| :: RowLe(rows[0], rows[j]) by {
          forall j | 1 <= j < |rows| ensures RowLe(rows[0], rows[j]) {
            KeyLeTrans(rows[0].rating, rows[0].title, m.rating, m.title, rows[j].rating, rows[j].title);
          }
        }
        KeyLeTotal(rows[0].rating, rows[0].title, rows[0].rating, rows[0].title);
        rows[0]
      else
        KeyLeTotal(rows[0].rating, rows[0].title, m.rating, m.title);
        m
  }

  /** `find_min_rating_item_id`: the id of the round's row with the lowest rating, ties
      broken by title; `RuntimeError` when the round has no items. */
  function FindMinRatingItemId(items: seq<ItemRow>, rid: Id): (r: Result<Id, string>)
    ensures r.Err? <==> forall k | 0 <= k < |items| :: items[k].roundId != rid
    ensures r.Ok? ==> exists k | 0 <= k < |items| ::
              items[k].roundId == rid && items[k].id == r.value &&
              forall j | 0 <= j < |items| && items[j].roundId == rid :: RowLe(items[k], items[j])
  {
    var rows := RoundRepo.RowsOfRound(items, rid);
    if rows == [] then
      assert forall k | 0 <= k < |items| :: items[k] !in rows;
      Err("No items found for round")
    else
      var m := MinRow(rows);
      assert forall j | 0 <= j < |items| && items[j].roundId == rid :: items[j] in rows;
      assert forall j | 0 <= j < |items| && items[j].roundId == rid :: RowLe(m, items[j]) by {
        forall j | 0 <= j < |items| && items[j].roundId == rid ensures RowLe(m, items[j]) {
          var q :| 0 <= q < |rows| && rows[q] == items[j];
        }
      }
      Ok(m.id)
  }

  /** An item with no rating is chosen only when no item of the round has one. */
  lemma MinRowNullsLast(rows: seq<ItemRow>)
    requires rows != []
    ensures MinRow(rows).rating.None? ==> forall j | 0 <= j < |rows| :: rows[j].rating.None?
  {
  }

  /** `insert_item`: appends a row under a fresh id that belongs to round `rid` and is
      not eliminated. */
  method InsertItem(db: Db, rid: Id, title: string, rating: Option<real>,
                    secretText: Option<string>, imageData: Option<string>)
    returns (iid: Id)
    modifies db
    ensures iid == old(db.nextId)
    ensures db.State() == old(db.State()).(
              items := old(db.items) + [ItemRow(iid, rid, title, rating, secretText, imageData, false, None)],
              nextId := iid + 1)
    ensures Valid(old(db.State())) && rid in old(db.rounds) ==> Valid(db.State())
  {
    iid := db.NewId();
    db.items := db.items + [ItemRow(iid, rid, title, rating, secretText, imageData, false, None)];
  }
}
