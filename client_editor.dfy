/** `ClientEditor` (`frontend/app.js`): the template editor's item form and the checks the
    client makes before it sends a template to the server. */
module ClientEditor {
  import opened Results
  import opened Schemas
  import Text
  import Validators

  /** A template item as the editor receives it; any field may be `null` or missing. */
  datatype DraftItem = DraftItem(
    title: Option<string>,
    rating: Option<real>,
    secretText: Option<string>,
    isTarget: Option<bool>,
    imageData: Option<string>)

  /** One row of the editor form. A rated row's `rating` is `None` where the form holds "". */
  datatype EditorRow =
    | ManualRow(title: string, secretText: string, isTarget: bool, imageData: string)
    | RatedRow(title: string, rating: Option<real>, imageData: string)

  /** The number of rows the editor form always shows. */
  const FORM_ROWS := 11

  /** Manual and carousel templates share the form with hidden text and a target box. */
  predicate ManualLike(kind: string) {
    kind == "manual" || kind == "carousel"
  }

  function Text0(s: Option<string>): string {
    if s.Some? then s.value else ""
  }

  /** The form row of one item: missing text fields become "", and `!!it.is_target`. */
  function FormRow(it: DraftItem, manualLike: bool): EditorRow {
    if manualLike then ManualRow(Text0(it.title), Text0(it.secretText), it.isTarget == Some(true), Text0(it.imageData))
    else RatedRow(Text0(it.title), it.rating, Text0(it.imageData))
  }

  /** An empty form row. */
  function BlankRow(manualLike: bool): EditorRow {
    if manualLike then ManualRow("", "", false, "") else RatedRow("", None, "")
  }

  /** `normalizeItemsTo11`: one row per item in order, padded with blank rows and cut to
      exactly eleven. */
  method NormalizeItemsTo11(items: Option<seq<DraftItem>>, kind: string) returns (rows: seq<EditorRow>)
    ensures |rows| == FORM_ROWS
    ensures var its := if items.Some? then items.value else [];
            forall k | 0 <= k < FORM_ROWS ::
              rows[k] == if k < |its| then FormRow(its[k], ManualLike(kind)) else BlankRow(ManualLike(kind))
  {
    var its := if items.Some? then items.value else [];
    var manualLike := ManualLike(kind);
    rows := [];
    for i := 0 to |its|
      invariant |rows| == i
      invariant forall k | 0 <= k < i :: rows[k] == FormRow(its[k], manualLike)
    {
      rows := rows + [FormRow(its[i], manualLike)];
    }
    while |rows| < FORM_ROWS
      invariant |rows| >= |its|
      invariant forall k | 0 <= k < |its| :: rows[k] == FormRow(its[k], manualLike)
      invariant forall k | |its| <= k < |rows| :: rows[k] == BlankRow(manualLike)
      decreases FORM_ROWS - |rows|
    {
      rows := rows + [BlankRow(manualLike)];
    }
    rows := rows[..FORM_ROWS];
  }

  /** One row of the editor form as `readTemplateItemsFromForm` reads it from the inputs:
      every field is the input's text, and "" where the row has no such input. */
  datatype FormFields = FormFields(title: string, rating: string, secretText: string, isTarget: bool, imageData: string)

  /** The reasons `saveTemplate` refuses to send a template: the first three are raised
      while the form is read, the others by `saveTemplate` itself. */
  datatype EditorError =
    | TitleRequired | SecretRequired | RatingRequired
    | NameRequired | PromptRequired | TwoItemsRequired | OneTargetRequired

  /** The status line each reason shows. */
  function Message(e: EditorError): string {
    match e
    case TitleRequired => "Each item must have a title."
    case SecretRequired => "Manual/carousel round: each item must have hidden info."
    case RatingRequired => "Rated round: each item must have a numeric rating."
    case NameRequired => "Round name is required."
    case PromptRequired => "Prompt is required."
    case TwoItemsRequired => "Add at least 2 items."
    case OneTargetRequired => "Manual/carousel round: select exactly 1 target item."
  }

  /** `hasAny`: a row counts once any of its fields holds something. */
  predicate HasAny(r: FormFields) {
    || !Text.AllSpace(Text.JavaScript, r.title)
    || !Text.AllSpace(Text.JavaScript, r.rating)
    || !Text.AllSpace(Text.JavaScript, r.secretText)
    || r.isTarget
    || r.imageData != ""
  }

  /** The item a kept row became is what the server's per-kind checks look for: a title, and
      hidden text for manual/carousel or a rating otherwise. */
  predicate ReadOk(it: TemplateItemIn, manualLike: bool) {
    && it.title != []
    && (manualLike ==> it.secretText.Some? && it.secretText.value != [] && it.rating.None?)
    && (!manualLike ==> it.rating.Some? && it.secretText.None? && !it.isTarget)
  }

  /** The item a row that counts becomes, or the error it raises. `parse` stands for
      `Number(ratingRaw)` followed by `Number.isFinite`: `None` where the rating is not a
      finite number. */
  function ReadRow(r: FormFields, manualLike: bool, parse: string -> Option<real>): (res: Result<TemplateItemIn, EditorError>)
    ensures res.Ok? ==> ReadOk(res.value, manualLike)
    ensures res.Err? ==> res.error == TitleRequired || res.error == SecretRequired || res.error == RatingRequired
  {
    if Text.AllSpace(Text.JavaScript, r.title) then Err(TitleRequired)
    else if manualLike then
      if Text.AllSpace(Text.JavaScript, r.secretText) then Err(SecretRequired)
      else Ok(TemplateItemIn(Text.Strip(Text.JavaScript, r.title), None,
                             Some(Text.Strip(Text.JavaScript, r.secretText)), r.isTarget, Some(r.imageData)))
    else
      match parse(Text.Strip(Text.JavaScript, r.rating))
      case None => Err(RatingRequired)
      case Some(v) => Ok(TemplateItemIn(Text.Strip(Text.JavaScript, r.title), Some(v), None, false, Some(r.imageData)))
  }

  /** For manual/carousel, which error a row raises and the item it becomes: the title and
      hidden text trimmed, the target flag and image kept. */
  lemma ManualRowCases(r: FormFields, parse: string -> Option<real>)
    ensures ReadRow(r, true, parse) == Err(TitleRequired) <==> Text.AllSpace(Text.JavaScript, r.title)
    ensures ReadRow(r, true, parse) == Err(SecretRequired) <==>
              !Text.AllSpace(Text.JavaScript, r.title) && Text.AllSpace(Text.JavaScript, r.secretText)
    ensures ReadRow(r, true, parse) != Err(RatingRequired)
    ensures ReadRow(r, true, parse).Ok? ==>
              ReadRow(r, true, parse).value ==
                TemplateItemIn(Text.Strip(Text.JavaScript, r.title), None,
                               Some(Text.Strip(Text.JavaScript, r.secretText)), r.isTarget, Some(r.imageData))
  {
  }

  /** For a rated template, which error a row raises and the item it becomes: the title
      trimmed, the rating parsed from the trimmed input, never the target. */
  lemma RatedRowCases(r: FormFields, parse: string -> Option<real>)
    ensures ReadRow(r, false, parse) == Err(TitleRequired) <==> Text.AllSpace(Text.JavaScript, r.title)
    ensures ReadRow(r, false, parse) == Err(RatingRequired) <==>
              !Text.AllSpace(Text.JavaScript, r.title) && parse(Text.Strip(Text.JavaScript, r.rating)).None?
    ensures ReadRow(r, false, parse) != Err(SecretRequired)
    ensures ReadRow(r, false, parse).Ok? ==>
              ReadRow(r, false, parse).value ==
                TemplateItemIn(Text.Strip(Text.JavaScript, r.title),
                               parse(Text.Strip(Text.JavaScript, r.rating)), None, false, Some(r.imageData))
  {
    if !Text.AllSpace(Text.JavaScript, r.title) {
      var title := Text.Strip(Text.JavaScript, r.title);
      match parse(Text.Strip(Text.JavaScript, r.rating))
      case None =>
        assert ReadRow(r, false, parse) == Err(RatingRequired);
      case Some(v) =>
        assert ReadRow(r, false, parse) == Ok(TemplateItemIn(title, Some(v), None, false, Some(r.imageData)));
    }
  }

  /** The loop of `readTemplateItemsFromForm` over the first rows, in order: rows without
      content are skipped, and the first row that counts and fails stops the loop with its
      error. */
  function ReadItems(rows: seq<FormFields>, manualLike: bool, parse: string -> Option<real>): (res: Result<seq<TemplateItemIn>, EditorError>)
    ensures res.Ok? ==> |res.value| <= |rows| && forall i | 0 <= i < |res.value| :: ReadOk(res.value[i], manualLike)
    ensures res.Err? ==> res.error == TitleRequired || res.error == SecretRequired || res.error == RatingRequired
    decreases |rows|
  {
    if rows == [] then Ok([])
    else
      var prev := ReadItems(rows[..|rows| - 1], manualLike, parse);
      var last := rows[|rows| - 1];
      if prev.Err? || !HasAny(last) then prev
      else
        match ReadRow(last, manualLike, parse)
        case Err(e) => Err(e)
        case Ok(it) => Ok(prev.value + [it])
  }

  /** A row without content, or one that reads without error. */
  predicate RowReads(r: FormFields, manualLike: bool, parse: string -> Option<real>) {
    HasAny(r) ==> ReadRow(r, manualLike, parse).Ok?
  }

  /** Every row that counts reads without error. */
  predicate AllRowsRead(rows: seq<FormFields>, manualLike: bool, parse: string -> Option<real>) {
    forall k | 0 <= k < |rows| :: RowReads(rows[k], manualLike, parse)
  }

  /** One more row: the form still reads exactly when it did and the new row reads. */
  lemma ReadItemsStep(rows: seq<FormFields>, manualLike: bool, parse: string -> Option<real>)
    requires rows != []
    ensures ReadItems(rows, manualLike, parse).Ok? <==>
              ReadItems(rows[..|rows| - 1], manualLike, parse).Ok? && RowReads(rows[|rows| - 1], manualLike, parse)
  {
  }

  lemma AllRowsReadStep(rows: seq<FormFields>, manualLike: bool, parse: string -> Option<real>)
    requires rows != []
    ensures AllRowsRead(rows, manualLike, parse) <==>
              AllRowsRead(rows[..|rows| - 1], manualLike, parse) && RowReads(rows[|rows| - 1], manualLike, parse)
  {
    var front := rows[..|rows| - 1];
    assert forall k | 0 <= k < |front| :: front[k] == rows[k];
  }

  /** The form reads without error exactly when every row that counts reads. */
  lemma {:induction false} ReadItemsOk(rows: seq<FormFields>, manualLike: bool, parse: string -> Option<real>)
    ensures ReadItems(rows, manualLike, parse).Ok? <==> AllRowsRead(rows, manualLike, parse)
    decreases |rows|
  {
    if rows != [] {
      ReadItemsOk(rows[..|rows| - 1], manualLike, parse);
      ReadItemsStep(rows, manualLike, parse);
      AllRowsReadStep(rows, manualLike, parse);
    }
  }

  /** A form that fails to read fails with the error of a row that counts. */
  lemma {:induction false} ReadItemsError(rows: seq<FormFields>, manualLike: bool, parse: string -> Option<real>)
    requires ReadItems(rows, manualLike, parse).Err?
    ensures exists k | 0 <= k < |rows| ::
              HasAny(rows[k]) && ReadRow(rows[k], manualLike, parse) == Err(ReadItems(rows, manualLike, parse).error)
    decreases |rows|
  {
    var front, last := rows[..|rows| - 1], rows[|rows| - 1];
    if ReadItems(front, manualLike, parse).Err? {
      ReadItemsError(front, manualLike, parse);
      var k :| 0 <= k < |front| && HasAny(front[k]) &&
               ReadRow(front[k], manualLike, parse) == Err(ReadItems(front, manualLike, parse).error);
      assert front[k] == rows[k];
    } else {
      assert HasAny(rows[|rows| - 1]);
    }
  }

  /** `readTemplateItemsFromForm`, once the inputs are read into rows. */
  method ReadTemplateItemsFromForm(rows: seq<FormFields>, kind: string, parse: string -> Option<real>)
    returns (res: Result<seq<TemplateItemIn>, EditorError>)
    ensures res == ReadItems(rows, ManualLike(kind), parse)
  {
    var manualLike := ManualLike(kind);
    var items: seq<TemplateItemIn> := [];
    var i := 0;
    while i < |rows|
      invariant 0 <= i <= |rows|
      invariant ReadItems(rows[..i], manualLike, parse) == Ok(items)
    {
      ReadItemsNext(rows, i, manualLike, parse);
      if HasAny(rows[i]) {
        var row := ReadRow(rows[i], manualLike, parse);
        if row.Err? {
          ErrorSticks(rows, i + 1, manualLike, parse);
          return Err(row.error);
        }
        items := items + [row.value];
      }
      i := i + 1;
    }
    assert rows[..i] == rows;
    res := Ok(items);
  }

  /** One more row of the loop. */
  lemma ReadItemsNext(rows: seq<FormFields>, i: nat, manualLike: bool, parse: string -> Option<real>)
    requires i < |rows| && ReadItems(rows[..i], manualLike, parse).Ok?
    ensures !HasAny(rows[i]) ==> ReadItems(rows[..i + 1], manualLike, parse) == ReadItems(rows[..i], manualLike, parse)
    ensures HasAny(rows[i]) && ReadRow(rows[i], manualLike, parse).Err? ==>
              ReadItems(rows[..i + 1], manualLike, parse) == Err(ReadRow(rows[i], manualLike, parse).error)
    ensures HasAny(rows[i]) && ReadRow(rows[i], manualLike, parse).Ok? ==>
              ReadItems(rows[..i + 1], manualLike, parse) ==
                Ok(ReadItems(rows[..i], manualLike, parse).value + [ReadRow(rows[i], manualLike, parse).value])
  {
    assert rows[..i + 1][..i] == rows[..i];
    assert rows[..i + 1][i] == rows[i];
  }

  /** Once the loop has stopped with an error, the rows after it change nothing. */
  lemma {:induction false} ErrorSticks(rows: seq<FormFields>, n: nat, manualLike: bool, parse: string -> Option<real>)
    requires n <= |rows| && ReadItems(rows[..n], manualLike, parse).Err?
    ensures ReadItems(rows, manualLike, parse) == ReadItems(rows[..n], manualLike, parse)
    decreases |rows| - n
  {
    if n < |rows| {
      assert rows[..n + 1][..n] == rows[..n];
      ErrorSticks(rows, n + 1, manualLike, parse);
    } else {
      assert rows[..n] == rows;
    }
  }

  /** The checks of `saveTemplate`, in order, on the name and prompt as typed and the form's
      rows: the form is read first, so its errors come first; on success, the items sent.
      `!s.trim()` holds exactly for a blank `s`. */
  function SaveTemplateCheck(name: string, prompt: string, kind: string, rows: seq<FormFields>, parse: string -> Option<real>)
    : Result<seq<TemplateItemIn>, EditorError>
  {
    match ReadItems(rows, ManualLike(kind), parse)
    case Err(e) => Err(e)
    case Ok(items) =>
      if Text.AllSpace(Text.JavaScript, name) then Err(NameRequired)
      else if Text.AllSpace(Text.JavaScript, prompt) then Err(PromptRequired)
      else if |items| < 2 then Err(TwoItemsRequired)
      else if ManualLike(kind) && Validators.CountTargets(items) != 1 then Err(OneTargetRequired)
      else Ok(items)
  }

  /** Each error exactly when its check is the first to fail: a row of the form first, then
      the name, the prompt, the item count and, for manual/carousel, the single target. */
  lemma SaveTemplateCheckCases(name: string, prompt: string, kind: string, rows: seq<FormFields>, parse: string -> Option<real>)
    ensures ReadItems(rows, ManualLike(kind), parse).Err? ==>
              SaveTemplateCheck(name, prompt, kind, rows, parse) == Err(ReadItems(rows, ManualLike(kind), parse).error)
    ensures ReadItems(rows, ManualLike(kind), parse).Ok? ==>
              var items := ReadItems(rows, ManualLike(kind), parse).value;
              && (SaveTemplateCheck(name, prompt, kind, rows, parse) == Err(NameRequired) <==>
                    Text.AllSpace(Text.JavaScript, name))
              && (SaveTemplateCheck(name, prompt, kind, rows, parse) == Err(PromptRequired) <==>
                    !Text.AllSpace(Text.JavaScript, name) && Text.AllSpace(Text.JavaScript, prompt))
              && (SaveTemplateCheck(name, prompt, kind, rows, parse) == Err(TwoItemsRequired) <==>
                    !Text.AllSpace(Text.JavaScript, name) && !Text.AllSpace(Text.JavaScript, prompt) && |items| < 2)
              && (SaveTemplateCheck(name, prompt, kind, rows, parse) == Err(OneTargetRequired) <==>
                    !Text.AllSpace(Text.JavaScript, name) && !Text.AllSpace(Text.JavaScript, prompt) && |items| >= 2 &&
                    ManualLike(kind) && !Validators.ExactlyOneTarget(items))
              && (SaveTemplateCheck(name, prompt, kind, rows, parse) == Ok(items) <==>
                    !Text.AllSpace(Text.JavaScript, name) && !Text.AllSpace(Text.JavaScript, prompt) && |items| >= 2 &&
                    (ManualLike(kind) ==> Validators.ExactlyOneTarget(items)))
  {
    if ReadItems(rows, ManualLike(kind), parse).Ok? {
      Validators.CountTargetsOne(ReadItems(rows, ManualLike(kind), parse).value);
    }
  }

  /** What the client sends the server accepts as far as the checks overlap: enough items
      and, for manual/carousel, exactly one target; a rated template it sends passes
      `validate_template` outright. */
  lemma SaveTemplateCheckAgreesWithServer(name: string, prompt: string, kind: string, rows: seq<FormFields>, parse: string -> Option<real>)
    requires Validators.KnownKind(kind)
    ensures SaveTemplateCheck(name, prompt, kind, rows, parse).Ok? ==>
              var items := SaveTemplateCheck(name, prompt, kind, rows, parse).value;
              && Validators.ValidateTemplate(kind, items) != Fail(Validators.TooFewItems)
              && Validators.ValidateTemplate(kind, items) != Fail(Validators.TargetCount)
              && (kind == "rated" ==> Validators.ValidateTemplate(kind, items) == Pass)
  {
    if SaveTemplateCheck(name, prompt, kind, rows, parse).Ok? {
      var items := SaveTemplateCheck(name, prompt, kind, rows, parse).value;
      assert ReadItems(rows, ManualLike(kind), parse) == Ok(items);
      assert |items| >= 2;
      if ManualLike(kind) {
        Validators.CountTargetsOne(items);
      } else {
        assert forall i | 0 <= i < |items| :: items[i].rating.Some? by {
          forall i | 0 <= i < |items| ensures items[i].rating.Some? {
            assert ReadOk(items[i], false);
          }
        }
        assert Validators.TemplateValid(kind, items);
      }
    }
  }

  /** When the client refuses a read form for its item count or its target, the server
      would refuse those items for the same reason. */
  lemma SaveTemplateRefusalsAgree(name: string, prompt: string, kind: string, rows: seq<FormFields>, parse: string -> Option<real>)
    requires Validators.KnownKind(kind)
    ensures ReadItems(rows, ManualLike(kind), parse).Ok? && SaveTemplateCheck(name, prompt, kind, rows, parse) == Err(TwoItemsRequired) ==>
              Validators.ValidateTemplate(kind, ReadItems(rows, ManualLike(kind), parse).value) == Fail(Validators.TooFewItems)
    ensures ReadItems(rows, ManualLike(kind), parse).Ok? && SaveTemplateCheck(name, prompt, kind, rows, parse) == Err(OneTargetRequired) ==>
              Validators.ValidateTemplate(kind, ReadItems(rows, ManualLike(kind), parse).value) == Fail(Validators.TargetCount)
  {
    if ReadItems(rows, ManualLike(kind), parse).Ok? {
      Validators.CountTargetsOne(ReadItems(rows, ManualLike(kind), parse).value);
    }
  }
}
