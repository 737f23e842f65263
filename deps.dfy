/** `Deps` (`backend/app/deps.py`): the `X-Game-Set` header every scoped endpoint takes.
    Unlike the game-set router, the header is not stripped. */
module Deps {
  import opened Results

  const MissingHeader := HttpError(400, "X-Game-Set header is required")
  const BadLength := HttpError(400, "Game set name must be exactly 6 characters")

  /** `_validate_game_set`: an absent or empty header is missing; otherwise it must be six
      characters long and is passed through unchanged. */
  function ValidateGameSet(name: Option<string>): (r: Result<string, HttpError>)
    ensures r == Err(MissingHeader) <==> name.None? || name.value == ""
    ensures r == Err(BadLength) <==> name.Some? && name.value != "" && |name.value| != 6
    ensures r.Ok? <==> name.Some? && |name.value| == 6
    ensures r.Ok? ==> r.value == name.value
  {
    if name.None? || name.value == "" then Err(MissingHeader)
    else if |name.value| != 6 then Err(BadLength)
    else Ok(name.value)
  }

  /** Six characters are accepted as they are, spaces included. */
  lemma HeaderNotStripped()
    ensures ValidateGameSet(Some("  ABCD")) == Ok("  ABCD")
    ensures ValidateGameSet(Some("  ABCDEF  ")) == Err(BadLength)
    ensures ValidateGameSet(Some("")) == Err(MissingHeader)
  {
  }
}
