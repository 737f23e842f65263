/** `TemplateRepo` (`backend/app/repos/templates.py`): storing templates and their items,
    with the per-kind normalisation `replace_items` applies before each insert. */
module TemplateRepo {
  import opened Results
  import opened Schemas
  import opened Database
  import Text
  import Order
  import Validators

  /** `get_template`: the template row if it belongs to the caller's game set. */
  function ScopedTemplate(t: Tables, tid: Id, gs: string): (r: Option<TemplateRow>)
    ensures r.Some? <==> tid in t.templates && t.templates[tid].gameSet == gs
    ensures r.Some? ==> r.value == t.templates[tid]
  {
    if tid in t.templates && t.templates[tid].gameSet == gs then Some(t.templates[tid]) else None
  }

  /** The item rows of template `tid`, in table order. */
  function RowsOfTemplate(rows: seq<TemplateItemRow>, tid: Id): (r: seq<TemplateItemRow>)
    ensures forall x :: x in r <==> x in rows && x.templateId == tid
  {
    if rows == [] then []
    else
      assert rows == [rows[0]] + rows[1..];
      (if rows[0].templateId == tid then [rows[0]] else []) + RowsOfTemplate(rows[1..], tid)
  }

  /** `DELETE FROM template_items WHERE template_id=%s`: every other template's rows, in order. */
  function WithoutTemplate(rows: seq<TemplateItemRow>, tid: Id): (r: seq<TemplateItemRow>)
    ensures forall x :: x in r <==> x in rows && x.templateId != tid
  {
    if rows == [] then []
    else
      assert rows == [rows[0]] + rows[1..];
      (if rows[0].templateId != tid then [rows[0]] else []) + WithoutTemplate(rows[1..], tid)
  }

  lemma {:induction false} RowsOfTemplateAppend(a: seq<TemplateItemRow>, b: seq<TemplateItemRow>, tid: Id)
    ensures RowsOfTemplate(a + b, tid) == RowsOfTemplate(a, tid) + RowsOfTemplate(b, tid)
  {
    if a == [] {
      assert a + b == b;
    } else {
      var h, t := a[0], a[1..];
      var head := if h.templateId == tid then [h] else [];
      ConsSplit(a, b);
      calc {
        RowsOfTemplate(a + b, tid);
        RowsOfTemplate([h] + (t + b), tid);
        { RowsOfTemplateCons(h, t + b, tid); }
        head + RowsOfTemplate(t + b, tid);
        { RowsOfTemplateAppend(t, b, tid); }
        head + (RowsOfTemplate(t, tid) + RowsOfTemplate(b, tid));
        { ConcatAssoc(head, RowsOfTemplate(t, tid), RowsOfTemplate(b, tid)); }
        (head + RowsOfTemplate(t, tid)) + RowsOfTemplate(b, tid);
        { RowsOfTemplateCons(h, t, tid); }
        RowsOfTemplate(a, tid) + RowsOfTemplate(b, tid);
      }
    }
  }

  /** A non-empty `a` is its head in front of its tail, also in front of `b`. */
  lemma ConsSplit<T>(a: seq<T>, b: seq<T>)
    requires a != []
    ensures a == [a[0]] + a[1..] && a + b == [a[0]] + (a[1..] + b)
  {
  }

  lemma ConcatAssoc<T>(a: seq<T>, b: seq<T>, c: seq<T>)
    ensures a + (b + c) == (a + b) + c
  {
  }

  /** `RowsOfTemplate` on a row in front of others. */
  lemma RowsOfTemplateCons(x: TemplateItemRow, rows: seq<TemplateItemRow>, tid: Id)
    ensures RowsOfTemplate([x] + rows, tid) == (if x.templateId == tid then [x] else []) + RowsOfTemplate(rows, tid)
  {
    assert ([x] + rows)[1..] == rows;
  }

  lemma {:induction false} RowsOfTemplateAll(rows: seq<TemplateItemRow>, tid: Id)
    requires forall k | 0 <= k < |rows| :: rows[k].templateId == tid
    ensures RowsOfTemplate(rows, tid) == rows
  {
    if rows != [] {
      RowsOfTemplateAll(rows[1..], tid);
    }
  }

  lemma {:induction false} RowsOfTemplateNone(rows: seq<TemplateItemRow>, tid: Id)
    requires forall k | 0 <= k < |rows| :: rows[k].templateId != tid
    ensures RowsOfTemplate(rows, tid) == []
  {
    if rows != [] {
      RowsOfTemplateNone(rows[1..], tid);
    }
  }

  function TitleOf(row: TemplateItemRow): string {
    row.title
  }

  /** `get_full`: nothing when the template is not in the caller's game set; otherwise
      the template and its items in ascending title order. */
  function GetFull(t: Tables, tid: Id, gs: string): (r: Option<(TemplateRow, seq<TemplateItemRow>)>)
    ensures r.None? <==> ScopedTemplate(t, tid, gs).None?
    ensures r.Some? ==> r.value.0 == t.templates[tid]
    ensures r.Some? ==> Order.SortedBy(r.value.1, TitleOf)
    ensures r.Some? ==> multiset(r.value.1) == multiset(RowsOfTemplate(t.templateItems, tid))
  {
    match ScopedTemplate(t, tid, gs)
    case None => None
    case Some(row) => Some((row, Order.SortBy(RowsOfTemplate(t.templateItems, tid), TitleOf)))
  }

  predicate ManualLike(kind: string) {
    kind == "manual" || kind == "carousel"
  }

  /** The row `replace_items` inserts for one input item. */
  function NormalizeItem(tid: Id, kind: string, it: TemplateItemIn): TemplateItemRow {
    TemplateItemRow(
      tid,
      Text.Strip(Text.Python, it.title),
      if kind == "rated" then it.rating else None,
      if ManualLike(kind) && it.secretText.Some? && it.secretText.value != "" then Some(Text.Strip(Text.Python, it.secretText.value)) else None,
      if ManualLike(kind) then it.isTarget else false,
      it.imageData)
  }

  function NormalizeAll(tid: Id, kind: string, items: seq<TemplateItemIn>): (r: seq<TemplateItemRow>)
    ensures |r| == |items| && forall i | 0 <= i < |items| :: r[i] == NormalizeItem(tid, kind, items[i])
  {
    seq(|items|, i requires 0 <= i < |items| => NormalizeItem(tid, kind, items[i]))
  }

  /** What every stored field is, per kind. */
  lemma NormalizeItemFields(tid: Id, kind: string, it: TemplateItemIn)
    ensures NormalizeItem(tid, kind, it).templateId == tid
    ensures NormalizeItem(tid, kind, it).title == Text.Strip(Text.Python, it.title)
    ensures Text.Trimmed(Text.Python, NormalizeItem(tid, kind, it).title)
    ensures NormalizeItem(tid, kind, it).rating.Some? ==> kind == "rated"
    ensures kind == "rated" ==> NormalizeItem(tid, kind, it).rating == it.rating
    ensures NormalizeItem(tid, kind, it).secretText.Some? ==>
              ManualLike(kind) && Text.Trimmed(Text.Python, NormalizeItem(tid, kind, it).secretText.value)
    ensures ManualLike(kind) && it.secretText.Some? && it.secretText.value != "" ==>
              NormalizeItem(tid, kind, it).secretText == Some(Text.Strip(Text.Python, it.secretText.value))
    ensures ManualLike(kind) && (it.secretText.None? || it.secretText == Some("")) ==>
              NormalizeItem(tid, kind, it).secretText.None?
    ensures !ManualLike(kind) ==> NormalizeItem(tid, kind, it).secretText.None?
    ensures ManualLike(kind) ==> NormalizeItem(tid, kind, it).isTarget == it.isTarget
    ensures !ManualLike(kind) ==> !NormalizeItem(tid, kind, it).isTarget
    ensures NormalizeItem(tid, kind, it).imageData == it.imageData
  {
  }

  /** A stored row read back as an input item, as `create_round_from_template_id` and
      the template router do. */
  function ToInput(row: TemplateItemRow): TemplateItemIn {
    TemplateItemIn(row.title, row.rating, row.secretText, row.isTarget, row.imageData)
  }

  function Reread(rows: seq<TemplateItemRow>): (r: seq<TemplateItemIn>)
    ensures |r| == |rows| && forall i | 0 <= i < |rows| :: r[i] == ToInput(rows[i])
  {
    seq(|rows|, i requires 0 <= i < |rows| => ToInput(rows[i]))
  }

  lemma SameTargetFlags(a: seq<TemplateItemIn>, b: seq<TemplateItemIn>)
    requires |a| == |b| && forall i | 0 <= i < |a| :: a[i].isTarget == b[i].isTarget
    ensures Validators.ExactlyOneTarget(a) ==> Validators.ExactlyOneTarget(b)
  {
    if Validators.ExactlyOneTarget(a) {
      var i :| 0 <= i < |a| && Validators.OnlyTarget(a, i);
      assert Validators.OnlyTarget(b, i);
    }
  }

  /** One item stored and read back: the fields validation looks at survive. */
  lemma NormalizeItemKeeps(tid: Id, kind: string, it: TemplateItemIn)
    requires ManualLike(kind) ==> Validators.HasText(it.secretText)
    ensures ManualLike(kind) ==> Validators.HasText(ToInput(NormalizeItem(tid, kind, it)).secretText)
    ensures ManualLike(kind) ==> ToInput(NormalizeItem(tid, kind, it)).isTarget == it.isTarget
    ensures kind == "rated" ==> ToInput(NormalizeItem(tid, kind, it)).rating == it.rating
    ensures kind == "carousel" ==> ToInput(NormalizeItem(tid, kind, it)).imageData == it.imageData
    ensures kind != "rated" ==> ToInput(NormalizeItem(tid, kind, it)).rating.None?
  {
    if ManualLike(kind) {
      var x := it.secretText.value;
      Text.StripIsInfix(Text.Python, x);
      assert NormalizeItem(tid, kind, it).secretText == Some(Text.Strip(Text.Python, x));
    }
  }

  /** Storing what was read back gives the same row. */
  lemma NormalizeItemRoundTrip(tid: Id, kind: string, it: TemplateItemIn)
    requires ManualLike(kind) ==> Validators.HasText(it.secretText)
    ensures NormalizeItem(tid, kind, ToInput(NormalizeItem(tid, kind, it))) == NormalizeItem(tid, kind, it)
  {
    var row := NormalizeItem(tid, kind, it);
    var again := NormalizeItem(tid, kind, ToInput(row));
    Text.StripTrimmed(Text.Python, row.title);
    assert again.title == row.title;
    if ManualLike(kind) {
      var x := Text.Strip(Text.Python, it.secretText.value);
      assert row.secretText == Some(x) && x != [];
      Text.StripTrimmed(Text.Python, x);
      assert again.secretText == row.secretText;
    }
  }

  /** Normalisation keeps a valid template valid: what `replace_items` stores passes
      `validate_template` again when a round is created from it, and storing what was
      read back stores the same rows. */
  lemma NormalizePreservesValidity(tid: Id, kind: string, items: seq<TemplateItemIn>)
    requires Validators.ValidateTemplate(kind, items) == Pass
    ensures Validators.ValidateTemplate(kind, Reread(NormalizeAll(tid, kind, items))) == Pass
    ensures NormalizeAll(tid, kind, Reread(NormalizeAll(tid, kind, items))) == NormalizeAll(tid, kind, items)
  {
    var rows := NormalizeAll(tid, kind, items);
    var back := Reread(rows);
    RereadItems(tid, kind, items, rows, back);
    RereadValid(kind, items, back);
    NormalizeBack(tid, kind, rows, back);
  }

  /** Rows that each normalise back to themselves are what normalising their inputs gives. */
  lemma NormalizeBack(tid: Id, kind: string, rows: seq<TemplateItemRow>, back: seq<TemplateItemIn>)
    requires |back| == |rows| && forall i | 0 <= i < |rows| :: NormalizeItem(tid, kind, back[i]) == rows[i]
    ensures NormalizeAll(tid, kind, back) == rows
  {
  }

  /** Item by item: what is read back keeps the fields validation looks at, and
      normalises to the row it was read from. */
  lemma RereadItems(tid: Id, kind: string, items: seq<TemplateItemIn>, rows: seq<TemplateItemRow>, back: seq<TemplateItemIn>)
    requires Validators.TemplateValid(kind, items)
    requires |rows| == |items| && forall i | 0 <= i < |items| :: rows[i] == NormalizeItem(tid, kind, items[i])
    requires |back| == |rows| && forall i | 0 <= i < |rows| :: back[i] == ToInput(rows[i])
    ensures forall i | 0 <= i < |items| ::
              && (ManualLike(kind) ==> Validators.HasText(back[i].secretText) && back[i].isTarget == items[i].isTarget)
              && (kind == "rated" ==> back[i].rating.Some?)
              && (kind == "carousel" ==> Validators.CarouselItemOk(back[i]))
              && NormalizeItem(tid, kind, back[i]) == rows[i]
  {
    forall i | 0 <= i < |items|
      ensures ManualLike(kind) ==> Validators.HasText(back[i].secretText) && back[i].isTarget == items[i].isTarget
      ensures kind == "rated" ==> back[i].rating.Some?
      ensures kind == "carousel" ==> Validators.CarouselItemOk(back[i])
      ensures NormalizeItem(tid, kind, back[i]) == rows[i]
    {
      NormalizeItemKeeps(tid, kind, items[i]);
      NormalizeItemRoundTrip(tid, kind, items[i]);
    }
  }

  /** Items that keep every field validation looks at keep a valid template valid. */
  lemma RereadValid(kind: string, items: seq<TemplateItemIn>, back: seq<TemplateItemIn>)
    requires Validators.TemplateValid(kind, items) && |back| == |items|
    requires forall i | 0 <= i < |items| ::
               && (ManualLike(kind) ==> Validators.HasText(back[i].secretText) && back[i].isTarget == items[i].isTarget)
               && (kind == "rated" ==> back[i].rating.Some?)
               && (kind == "carousel" ==> Validators.CarouselItemOk(back[i]))
    ensures Validators.TemplateValid(kind, back)
  {
    if ManualLike(kind) {
      SameTargetFlags(items, back);
    }
  }

  /** After `replace_items` the template's rows are exactly the normalised input list. */
  lemma ReplacedRowsExact(rows: seq<TemplateItemRow>, tid: Id, kind: string, items: seq<TemplateItemIn>)
    ensures RowsOfTemplate(WithoutTemplate(rows, tid) + NormalizeAll(tid, kind, items), tid) == NormalizeAll(tid, kind, items)
  {
    var kept := WithoutTemplate(rows, tid);
    assert forall k | 0 <= k < |kept| :: kept[k] in kept;
    KeptThenOwn(kept, NormalizeAll(tid, kind, items), tid);
  }

  /** Rows of other templates followed by rows of `tid` select to the latter. */
  lemma KeptThenOwn(kept: seq<TemplateItemRow>, own: seq<TemplateItemRow>, tid: Id)
    requires forall k | 0 <= k < |kept| :: kept[k].templateId != tid
    requires forall k | 0 <= k < |own| :: own[k].templateId == tid
    ensures RowsOfTemplate(kept + own, tid) == own
  {
    RowsOfTemplateAppend(kept, own, tid);
    RowsOfTemplateNone(kept, tid);
    RowsOfTemplateAll(own, tid);
  }

  // ---- updates on the connection ----

  /** `create_template`: a fresh row with the stripped name and prompt. */
  method CreateTemplate(db: Db, gs: string, name: string, prompt: string, kind: string, imageData: Option<string>)
    returns (tid: Id)
    modifies db
    ensures tid == old(db.nextId)
    ensures db.State() == old(db.State()).(
              templates := old(db.templates)[tid := TemplateRow(gs, Text.Strip(Text.Python, name), Text.Strip(Text.Python, prompt), kind, imageData)],
              nextId := tid + 1)
  {
    tid := db.NewId();
    db.templates := db.templates[tid := TemplateRow(gs, Text.Strip(Text.Python, name), Text.Strip(Text.Python, prompt), kind, imageData)];
  }

  /** `update_template`: rewrites the template's row when it is in the caller's game set;
      the result says whether a row was updated. */
  method UpdateTemplate(db: Db, tid: Id, gs: string, name: string, prompt: string, kind: string, imageData: Option<string>)
    returns (updated: bool)
    modifies db
    ensures updated <==> ScopedTemplate(old(db.State()), tid, gs).Some?
    ensures updated ==> db.State() == old(db.State()).(
              templates := old(db.templates)[tid := TemplateRow(gs, Text.Strip(Text.Python, name), Text.Strip(Text.Python, prompt), kind, imageData)])
    ensures !updated ==> db.State() == old(db.State())
  {
    updated := tid in db.templates && db.templates[tid].gameSet == gs;
    if updated {
      db.templates := db.templates[tid := TemplateRow(gs, Text.Strip(Text.Python, name), Text.Strip(Text.Python, prompt), kind, imageData)];
    }
  }

  /** `delete_template`: removes the template's row when it is in the caller's game set and
      returns the number of rows deleted. */
  method DeleteTemplate(db: Db, tid: Id, gs: string) returns (deleted: int)
    modifies db
    ensures deleted == (if ScopedTemplate(old(db.State()), tid, gs).Some? then 1 else 0)
    ensures deleted == 1 ==> db.State() == old(db.State()).(templates := old(db.templates) - {tid})
    ensures deleted == 0 ==> db.State() == old(db.State())
  {
    if tid in db.templates && db.templates[tid].gameSet == gs {
      db.templates := db.templates - {tid};
      deleted := 1;
    } else {
      deleted := 0;
    }
  }

  /** The row `replace_items` inserts for one item. */
  method NormalizeRow(tid: Id, kind: string, it: TemplateItemIn) returns (row: TemplateItemRow)
    ensures row == NormalizeItem(tid, kind, it)
  {
    var manualLike := ManualLike(kind);
    var secret := if manualLike && it.secretText.Some? && it.secretText.value != "" then Some(Text.Strip(Text.Python, it.secretText.value)) else None;
    row := TemplateItemRow(tid, Text.Strip(Text.Python, it.title), if kind == "rated" then it.rating else None,
                           secret, manualLike && it.isTarget, it.imageData);
  }

  /** One more row of `b` after `a + b[..i]`. */
  lemma AppendNext<T>(a: seq<T>, b: seq<T>, i: nat, x: T)
    requires i < |b| && b[i] == x
    ensures (a + b[..i]) + [x] == a + b[..i + 1]
  {
    assert b[..i + 1] == b[..i] + [x];
  }

  /** `replace_items`: deletes the template's rows, then inserts one normalised row per
      input item, in input order. */
  method ReplaceItems(db: Db, tid: Id, kind: string, items: seq<TemplateItemIn>)
    modifies db
    ensures db.State() == old(db.State()).(
              templateItems := WithoutTemplate(old(db.templateItems), tid) + NormalizeAll(tid, kind, items))
  {
    var kept := WithoutTemplate(db.templateItems, tid);
    ghost var rows := NormalizeAll(tid, kind, items);
    db.templateItems := kept;
    var i := 0;
    while i < |items|
      invariant 0 <= i <= |items|
      invariant db.templateItems == kept + rows[..i]
      invariant db.rounds == old(db.rounds) && db.items == old(db.items) && db.templates == old(db.templates)
      invariant db.gameSets == old(db.gameSets) && db.nextId == old(db.nextId)
    {
      var row := NormalizeRow(tid, kind, items[i]);
      AppendNext(kept, rows, i, row);
      db.templateItems := db.templateItems + [row];
      i := i + 1;
    }
    assert rows[..i] == rows;
  }
}
