/** `GameSetRouter` (`backend/app/routers/game_sets.py`): the path parameter of the
    game-set endpoints is stripped and must then be six characters long. */
module GameSetRouter {
  import opened Results
  import Text

  const BadLength := HttpError(400, "Game set name must be exactly 6 characters")

  /** `validate_game_set_name`. */
  function ValidateGameSetName(name: string): (r: Result<string, HttpError>)
    ensures r.Ok? <==> |Text.Strip(Text.Python, name)| == 6
    ensures r.Ok? ==> r.value == Text.Strip(Text.Python, name) && Text.Trimmed(Text.Python, r.value)
    ensures r.Err? ==> r.error == BadLength
  {
    var v := Text.Strip(Text.Python, name);
    if |v| != 6 then Err(BadLength) else Ok(v)
  }

  /** A validated name validates to itself. */
  lemma ValidateIdempotent(name: string)
    requires ValidateGameSetName(name).Ok?
    ensures ValidateGameSetName(ValidateGameSetName(name).value) == ValidateGameSetName(name)
  {
    Text.StripIdempotent(Text.Python, name);
  }

  /** A name without surrounding whitespace is judged by its own length. */
  lemma ValidateTrimmed(name: string)
    requires Text.Trimmed(Text.Python, name)
    ensures ValidateGameSetName(name) == if |name| == 6 then Ok(name) else Err(BadLength)
  {
    Text.StripTrimmed(Text.Python, name);
  }

  /** Whitespace around a trimmed name does not change the verdict, so "  ABCDEF  " is
      accepted as "ABCDEF". */
  lemma ValidatePadded(pre: string, name: string, post: string)
    requires Text.AllSpace(Text.Python, pre) && Text.AllSpace(Text.Python, post) && name != [] && Text.Trimmed(Text.Python, name)
    ensures ValidateGameSetName(pre + name + post) == ValidateGameSetName(name)
  {
    Text.StripPadded(Text.Python, pre, name, post);
    Text.StripTrimmed(Text.Python, name);
  }

  /** The unit tests of `validate_game_set_name`: lengths that are rejected. */
  lemma ValidateRejects(name: string)
    requires name == "" || name == "A" || name == "ABCDE" || name == "ABCDEFG"
    ensures ValidateGameSetName(name) == Err(BadLength)
  {
    ValidateTrimmed(name);
  }

  /** A blank name strips to nothing and is rejected. */
  lemma ValidateRejectsBlank()
    ensures ValidateGameSetName("     ") == Err(BadLength)
  {
    var s := "     ";
    assert Text.AllSpace(Text.Python, s) by {
      forall i | 0 <= i < |s| ensures Text.IsSpace(Text.Python, s[i]) { }
    }
  }
}
