/** The request and response shapes of the backend API (`backend/app/schemas.py`). */
module Schemas {
  import opened Results

  /** Identifiers of rounds, items and templates; UUIDs are modelled as numbers and
      the nil UUID (`uuid.UUID(int=0)`) as 0. */
  type Id = nat

  /** `TeamId = Literal[1, 2]`. */
  type TeamId = t: int | t == 1 || t == 2 witness 1

  /** `TemplateKind = Literal["rated", "manual", "carousel"]`. */
  datatype TemplateKind = Rated | Manual | Carousel

  function KindName(k: TemplateKind): string {
    match k
    case Rated => "rated"
    case Manual => "manual"
    case Carousel => "carousel"
  }

  /** The literal check pydantic applies to a kind string. */
  function ParseKind(s: string): (r: Option<TemplateKind>)
    ensures r.Some? ==> KindName(r.value) == s
  {
    if s == "rated" then Some(Rated)
    else if s == "manual" then Some(Manual)
    else if s == "carousel" then Some(Carousel)
    else None
  }

  /** Every kind's name parses back to that kind. */
  lemma ParseKindName(k: TemplateKind)
    ensures ParseKind(KindName(k)) == Some(k)
  {
  }

  /** `RoundStatus = Literal["active", "finished"]`. */
  datatype RoundStatus = Active | Finished

  const STATUS_ACTIVE := "active"
  const STATUS_FINISHED := "finished"

  function StatusName(s: RoundStatus): string {
    match s
    case Active => STATUS_ACTIVE
    case Finished => STATUS_FINISHED
  }

  /** One item of a round as the API returns it; hidden fields are `None`. */
  datatype ItemOut = ItemOut(
    id: Id,
    title: string,
    eliminated: bool,
    eliminatedByTeam: Option<TeamId>,
    rating: Option<real>,
    secretText: Option<string>,
    isTarget: Option<bool>,
    imageData: Option<string>)

  /** A round as the API returns it. */
  datatype RoundOut = RoundOut(
    id: Id,
    category: string,
    prompt: string,
    kind: string,
    currentTeam: TeamId,
    status: RoundStatus,
    winnerTeam: Option<TeamId>,
    loserTeam: Option<TeamId>,
    items: seq<ItemOut>,
    imageData: Option<string>)

  /** One item of a template, as sent by the editor or read back from storage. */
  datatype TemplateItemIn = TemplateItemIn(
    title: string,
    rating: Option<real>,
    secretText: Option<string>,
    isTarget: bool,
    imageData: Option<string>)

  /** `title: str = Field(min_length=1, max_length=200)`. */
  predicate TemplateItemInValid(it: TemplateItemIn) {
    1 <= |it.title| <= 200
  }

  /** The body of a template create or update request. */
  datatype TemplateCreate = TemplateCreate(
    kind: TemplateKind,
    name: string,
    prompt: string,
    items: seq<TemplateItemIn>,
    imageData: Option<string>)

  /** The field constraints pydantic enforces on `TemplateCreate`, including
      `conlist(TemplateItemIn, min_length=2)`. */
  predicate TemplateCreateValid(b: TemplateCreate) {
    && 1 <= |b.name| <= 120
    && 1 <= |b.prompt| <= 300
    && |b.items| >= 2
    && forall i | 0 <= i < |b.items| :: TemplateItemInValid(b.items[i])
  }
}
