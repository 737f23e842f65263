/** `validate_template` (`backend/app/validators.py`): the checks a template must pass
    before it is stored or turned into a round. The checks run in a fixed order and the
    first one that fails decides the error. */
module Validators {
  import opened Results
  import opened Schemas
  import Text

  /** The reasons `validate_template` rejects a template, in the order it checks them. */
  datatype TemplateError =
    | UnknownKind | TooFewItems | MissingRating | TargetCount
    | MissingSecret | MissingImage | CarouselRating

  /** The `HTTPException` each reason is raised as. */
  function Detail(e: TemplateError): (h: HttpError)
    ensures h.status == 400
  {
    match e
    case UnknownKind => HttpError(400, "Unknown template kind")
    case TooFewItems => HttpError(400, "Template must have at least 2 items")
    case MissingRating => HttpError(400, "Rated round: each item must have a numeric rating")
    case TargetCount => HttpError(400, "Manual/carousel round: exactly 1 item must be marked as target")
    case MissingSecret => HttpError(400, "Manual/carousel round: each item must have hidden info (secret_text)")
    case MissingImage => HttpError(400, "Carousel round: each item must have image_data")
    case CarouselRating => HttpError(400, "Carousel round: rating must be null")
  }

  /** The kinds `validate_template` accepts: the `TemplateKind` literals. */
  predicate KnownKind(kind: string) {
    ParseKind(kind).Some?
  }

  /** Python's `bool(s and s.strip())`: present and not blank. */
  predicate HasText(s: Option<string>) {
    s.Some? && !Text.AllSpace(Text.Python, s.value)
  }

  /** Item `i` is marked as target and no other item is. */
  predicate OnlyTarget(items: seq<TemplateItemIn>, i: int) {
    0 <= i < |items| && items[i].isTarget && forall j | 0 <= j < |items| && items[j].isTarget :: j == i
  }

  predicate ExactlyOneTarget(items: seq<TemplateItemIn>) {
    exists i | 0 <= i < |items| :: OnlyTarget(items, i)
  }

  predicate CarouselItemOk(it: TemplateItemIn) {
    HasText(it.imageData) && it.rating.None?
  }

  /** Item `i` is the first one the carousel loop rejects. */
  predicate FirstCarouselFailure(items: seq<TemplateItemIn>, i: int) {
    0 <= i < |items| && !CarouselItemOk(items[i]) && forall j | 0 <= j < i :: CarouselItemOk(items[j])
  }

  /** What a valid template is, stated per kind. */
  predicate TemplateValid(kind: string, items: seq<TemplateItemIn>) {
    && KnownKind(kind)
    && |items| >= 2
    && (kind == "rated" ==> forall i | 0 <= i < |items| :: items[i].rating.Some?)
    && (kind != "rated" ==> ExactlyOneTarget(items) && forall i | 0 <= i < |items| :: HasText(items[i].secretText))
    && (kind == "carousel" ==> forall i | 0 <= i < |items| :: CarouselItemOk(items[i]))
  }

  /** The loop over rated items. */
  function AllRated(items: seq<TemplateItemIn>): (b: bool)
    ensures b <==> forall i | 0 <= i < |items| :: items[i].rating.Some?
  {
    if items == [] then true
    else
      assert forall i | 1 <= i < |items| :: items[i] == items[1..][i - 1];
      items[0].rating.Some? && AllRated(items[1..])
  }

  /** `len([it for it in items if bool(it.is_target)])`. */
  function CountTargets(items: seq<TemplateItemIn>): (n: nat)
    ensures n == 0 <==> forall i | 0 <= i < |items| :: !items[i].isTarget
    ensures n <= |items|
  {
    if items == [] then 0
    else
      assert forall i | 1 <= i < |items| :: items[i] == items[1..][i - 1];
      (if items[0].isTarget then 1 else 0) + CountTargets(items[1..])
  }

  /** Counting one target is having exactly one target. */
  lemma {:induction false} CountTargetsOne(items: seq<TemplateItemIn>)
    ensures CountTargets(items) == 1 <==> ExactlyOneTarget(items)
  {
    if items != [] {
      var tail := items[1..];
      assert forall i | 1 <= i < |items| :: items[i] == tail[i - 1];
      if items[0].isTarget {
        if CountTargets(tail) == 0 {
          assert OnlyTarget(items, 0);
        } else {
          var m :| 0 <= m < |tail| && tail[m].isTarget;
          assert items[m + 1].isTarget;
          assert forall i :: !OnlyTarget(items, i);
        }
      } else {
        CountTargetsOne(tail);
        assert forall i :: OnlyTarget(items, i) ==> OnlyTarget(tail, i - 1);
        assert forall i :: OnlyTarget(tail, i) ==> OnlyTarget(items, i + 1);
      }
    }
  }

  /** The loop over secret texts. */
  function AllHaveSecret(items: seq<TemplateItemIn>): (b: bool)
    ensures b <==> forall i | 0 <= i < |items| :: HasText(items[i].secretText)
  {
    if items == [] then true
    else
      assert forall i | 1 <= i < |items| :: items[i] == items[1..][i - 1];
      HasText(items[0].secretText) && AllHaveSecret(items[1..])
  }

  /** The carousel loop: per item, the image is checked before the rating. */
  function CarouselCheck(items: seq<TemplateItemIn>): (r: Outcome<TemplateError>)
    ensures r == Pass || r == Fail(MissingImage) || r == Fail(CarouselRating)
    ensures r == Pass <==> forall i | 0 <= i < |items| :: CarouselItemOk(items[i])
    ensures r == Fail(MissingImage) <==>
              exists i :: FirstCarouselFailure(items, i) && !HasText(items[i].imageData)
    ensures r == Fail(CarouselRating) <==>
              exists i :: FirstCarouselFailure(items, i) && HasText(items[i].imageData)
  {
    if items == [] then Pass
    else if !HasText(items[0].imageData) then
      assert FirstCarouselFailure(items, 0);
      Fail(MissingImage)
    else if items[0].rating.Some? then
      assert FirstCarouselFailure(items, 0);
      Fail(CarouselRating)
    else
      CarouselTail(items);
      CarouselCheck(items[1..])
  }

  /** Past an accepted first item, the carousel loop's first failure is that of the rest. */
  lemma CarouselTail(items: seq<TemplateItemIn>)
    requires items != [] && CarouselItemOk(items[0])
    ensures forall i | 1 <= i < |items| :: items[i] == items[1..][i - 1]
    ensures forall i | 0 < i :: FirstCarouselFailure(items, i) <==> FirstCarouselFailure(items[1..], i - 1)
    ensures !FirstCarouselFailure(items, 0)
    ensures forall i :: FirstCarouselFailure(items[1..], i) ==> FirstCarouselFailure(items, i + 1)
  {
    assert forall i | 1 <= i < |items| :: items[i] == items[1..][i - 1];
  }

  /** `validate_template`. */
  function ValidateTemplate(kind: string, items: seq<TemplateItemIn>): (r: Outcome<TemplateError>)
    ensures r == Pass <==> TemplateValid(kind, items)
    ensures r == Fail(UnknownKind) <==> !KnownKind(kind)
    ensures r == Fail(TooFewItems) <==> KnownKind(kind) && |items| < 2
    ensures r == Fail(MissingRating) <==>
              kind == "rated" && |items| >= 2 && exists i | 0 <= i < |items| :: items[i].rating.None?
    ensures r == Fail(TargetCount) <==>
              (kind == "manual" || kind == "carousel") && |items| >= 2 && !ExactlyOneTarget(items)
    ensures r == Fail(MissingSecret) <==>
              (kind == "manual" || kind == "carousel") && |items| >= 2 && ExactlyOneTarget(items) &&
              exists i | 0 <= i < |items| :: !HasText(items[i].secretText)
    ensures r == Fail(MissingImage) <==>
              kind == "carousel" && |items| >= 2 && ExactlyOneTarget(items) &&
              (forall i | 0 <= i < |items| :: HasText(items[i].secretText)) &&
              exists i :: FirstCarouselFailure(items, i) && !HasText(items[i].imageData)
    ensures r == Fail(CarouselRating) <==>
              kind == "carousel" && |items| >= 2 && ExactlyOneTarget(items) &&
              (forall i | 0 <= i < |items| :: HasText(items[i].secretText)) &&
              exists i :: FirstCarouselFailure(items, i) && HasText(items[i].imageData)
  {
    if !KnownKind(kind) then Fail(UnknownKind)
    else if |items| < 2 then Fail(TooFewItems)
    else if kind == "rated" then
      if !AllRated(items) then Fail(MissingRating) else Pass
    else if (CountTargetsOne(items); CountTargets(items) != 1) then Fail(TargetCount)
    else if !AllHaveSecret(items) then Fail(MissingSecret)
    else if kind == "carousel" then CarouselCheck(items)
    else Pass
  }

  /** The template router validates a `TemplateCreate` body pydantic has already accepted:
      its kind is a `TemplateKind` literal and it holds at least two items, so neither of
      the first two checks of `validate_template` fails there. */
  lemma RouterBodyPassesShape(b: TemplateCreate)
    requires TemplateCreateValid(b)
    ensures ValidateTemplate(KindName(b.kind), b.items) != Fail(UnknownKind)
    ensures ValidateTemplate(KindName(b.kind), b.items) != Fail(TooFewItems)
  {
    ParseKindName(b.kind);
  }
}
