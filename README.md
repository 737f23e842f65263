# Eliminator: a Dafny model of the round engine

Eliminator is a two-team party game. A round shows a list of items, and one of them is the
secret target. The teams take turns eliminating items. Picking the target loses the round.
If only the target is left, the round is a draw. Rounds are drawn from a built-in rated
dataset ("find the lowest-rated movie") or created from templates that a game set saves.
Every request is scoped to a six-character game-set name.

This project models the core of the FastAPI backend and the match bookkeeping of the
browser client, and proves what they promise:

- **Tables.** `Database.Db` is the connection. It is a class whose fields are the tables:
  `rounds` and `templates` as maps from identifier to row, `items` and `templateItems` as
  sequences in insertion order, `gameSets` as a set, and `nextId`, the next fresh
  identifier. `Database.Tables` is the same state as a value.
- **Repositories.** Each repository method (`RoundRepo`, `ItemRepo`, `TemplateRepo`,
  `GameSetRepo`) is a method on `Db`. Its `ensures` gives the whole new state as a
  function of the old one. Queries are functions over `Tables`.
- **Services.** Each service operation (`RoundService`) is a method proved against a
  specification function over `Tables`: `Eliminate`, `CreateRated` and `FromTemplate`.
  Each returns the tables the transaction commits, or the error it raises. The lemmas about
  those functions carry the game's rules:
  - an elimination has three outcomes;
  - what a response reveals depends on the round's status;
  - the rated target is the lowest rating, ties broken by title;
  - the invariants (valid identifiers, playable active rounds, consistent results) are
    kept.
- **Validation.** `Validators`, `GameSetRouter` and `Deps` are pure functions returning
  `Result`/`Outcome` values. Each error reason is a datatype constructor, and
  `Validators.Detail` maps it to the HTTP status and message the source raises.
- **Client.** The client (`frontend/app.js`) is a set of classes over its module-level
  state: `ClientMatch.Match`, `ClientImages.ImageCache`, `ClientCarousel.Carousel` and
  `ClientSession.Session`. Pure helpers such as `escapeHtml` and `detectDataUrl` are
  functions. Server answers are method parameters.

Whitespace for `strip()`/`trim()` is the ASCII set (`Text.IsSpace`). Python's `str.strip()` also drops
the separators 1C-1F, which JavaScript's `trim()` keeps, so `Text` takes the flavour as a
parameter.
Python's `len` counts characters (code points), as Dafny's `|s|` does; the client's
`.length` counts UTF-16 code units (`ClientText.JsLength`).
`lower()`/`toUpperCase()` act on ASCII letters only. `ORDER BY title` is code-point
lexicographic order (`Order.StrLe`), and ties keep insertion order. Ratings
(`Decimal`) are `real`.

## Model

| member | source | states |
|---|---|---|
| Schemas.ParseKind | backend/app/schemas.py:11 | only "rated", "manual" and "carousel" parse, each to its own kind; that each of them does parse is `Schemas.ParseKindName` |
| Schemas.ParseKindName | backend/app/schemas.py:11-12 | every kind's name parses back to that kind |
| Schemas.TemplateItemInValid | backend/app/schemas.py:54 | the title has 1 to 200 characters; `RoundService.FromTemplateErrors` returns the 500 exactly when a stored item fails it |
| Schemas.TemplateCreateValid | backend/app/schemas.py:61-66 | a name of 1 to 120 characters, a prompt of 1 to 300, at least two items, each a valid `TemplateItemIn`; `Validators.RouterBodyPassesShape` states what it spares `validate_template` |
| Text.Strip | backend/app/routers/game_sets.py:9 | the result is trimmed, and it is empty exactly when the input is all whitespace |
| Text.StripLeft | backend/app/routers/game_sets.py:9 | the result is a suffix of the input; everything dropped is whitespace, and the result does not start with whitespace |
| Text.StripRight | backend/app/routers/game_sets.py:9 | the result is a prefix of the input; everything dropped is whitespace, and the result does not end with whitespace |
| Text.StripIsInfix | backend/app/routers/game_sets.py:9 | `strip()` removes exactly a whitespace run before and a whitespace run after its result |
| Text.StripParts | backend/app/routers/game_sets.py:9 | the decomposition of a string into leading whitespace, the stripped result and trailing whitespace |
| Text.StripTrimmed | backend/app/routers/game_sets.py:9 | a trimmed string is its own strip |
| Text.StripIdempotent | backend/app/routers/game_sets.py:9 | stripping twice is stripping once |
| Text.StripPadded | backend/app/tests/test_game_sets_validation.py:7-9 | whitespace written around a trimmed, non-empty string is exactly what `strip()` removes |
| Text.StripLeftPadded | backend/app/tests/test_game_sets_validation.py:9 | leading whitespace before a string that starts with a non-space is what the left strip removes |
| Text.StripRightPadded | backend/app/tests/test_game_sets_validation.py:9 | trailing whitespace after a string that ends with a non-space is what the right strip removes |
| Text.Lower | backend/app/services/rounds.py:76 | the length is kept, and each character is mapped on its own |
| Text.Upper | frontend/app.js:44 | the length is kept, and each character is mapped on its own |
| Text.UpperKeepsTrimmed | frontend/app.js:44 | upper-casing keeps a trimmed string trimmed |
| Text.UpperIdempotent | frontend/app.js:44 | upper-casing twice is upper-casing once |
| Order.StrLe | backend/app/repos/rounds.py:40 | code-point lexicographic order on titles, a proper prefix first; `Order.StrLeRefl`, `StrLeTotal`, `StrLeTrans` and `StrLeAntisym` prove it a total order |
| Order.StrLeRefl | backend/app/repos/rounds.py:40 | the title order is reflexive |
| Order.StrLeTotal | backend/app/repos/rounds.py:40 | the title order is total |
| Order.StrLeTrans | backend/app/repos/rounds.py:40 | the title order is transitive |
| Order.StrLeAntisym | backend/app/repos/rounds.py:40 | the title order is antisymmetric |
| Order.InsertBy | backend/app/repos/rounds.py:40 | inserting into a sorted list keeps it sorted, and adds exactly the new element to its multiset |
| Order.InsertFront | backend/app/repos/rounds.py:40 | an element whose key sorts first may go in front of a sorted list |
| Order.InsertBehind | backend/app/repos/rounds.py:40 | otherwise the head stays first, in front of the sorted insertion into the rest |
| Order.SortBy | backend/app/repos/rounds.py:40 | `ORDER BY`: the result is sorted by the key and is a permutation of the input |
| Database.Db.constructor | backend/app/repos/base.py:1-19 | an empty, valid database |
| Database.Db.NewId | backend/app/repos/items.py:21 | a fresh identifier, `nextId`, which is then advanced; nothing else changes |
| RoundRepo.ScopedRound | backend/app/repos/rounds.py:12-32 | a round is found exactly when it exists and belongs to the caller's game set, and then it is that round's row |
| RoundRepo.ScopedRoundIsolation | backend/app/repos/rounds.py:17 | a round of one game set is invisible to every other game set |
| RoundRepo.RowsOfRound | backend/app/repos/rounds.py:39 | the rows of the round, no more than the table holds, exactly those with that `round_id` |
| RoundRepo.ListRoundItems | backend/app/repos/rounds.py:34-44 | the round's rows sorted by title: sorted, and a permutation of the round's rows |
| RoundRepo.ItemEliminatedFlag | backend/app/repos/rounds.py:46-55 | nothing exactly when no row matches the id and round; otherwise the `eliminated` flag of a matching row |
| RoundRepo.ItemEliminatedFlagAt | backend/app/repos/rounds.py:46-55 | with distinct ids, the flag read is that of the one matching row |
| RoundRepo.MarkEliminated | backend/app/repos/rounds.py:57-65 | the rows matching id and round become eliminated by the team, and every other row is unchanged |
| RoundRepo.MarkEliminatedKeepsIds | backend/app/repos/rounds.py:57-65 | marking keeps every row's id and round, so it keeps ids distinct |
| RoundRepo.MarkedFlag | backend/app/repos/rounds.py:57-65 | after marking a present row, the flag reads as eliminated |
| RoundRepo.CountRemaining | backend/app/repos/rounds.py:84-94 | the count is at most the number of rows |
| RoundRepo.CountRemainingZero | backend/app/repos/rounds.py:84-94 | the count is 0 exactly when no row of the round is still in play |
| RoundRepo.MarkUnmatched | backend/app/repos/rounds.py:57-65 | marking an id that no row of the round has changes nothing |
| RoundRepo.DistinctTail | backend/app/repos/rounds.py:57-65 | distinct ids stay distinct in the tail, and the head's id is not in it |
| RoundRepo.CountRemainingAfterMark | backend/app/repos/rounds.py:84-94 | marking one unplayed row of the round, with distinct ids, lowers the count by one |
| RoundRepo.FirstRemaining | backend/app/repos/rounds.py:96-102 | nothing exactly when no row of the round is in play; otherwise the id of such a row |
| RoundRepo.FirstRemainingSingle | backend/app/repos/rounds.py:96-102 | when one row is left in play, it is that row's id |
| RoundRepo.Finish | backend/app/repos/rounds.py:67-82 | only the scoped round changes: status finished and the given winner and loser; the current team, the target and every other round stay; out of scope nothing changes |
| RoundRepo.WithCurrentTeam | backend/app/repos/rounds.py:104-108 | only the scoped round's current team changes; out of scope nothing changes |
| RoundRepo.WithTarget | backend/app/repos/rounds.py:138-142 | only the scoped round's target changes; out of scope nothing changes |
| RoundRepo.PlaceholderTargetId | backend/app/repos/rounds.py:110-113 | the nil id, or the id of some existing item row |
| RoundRepo.EliminateItem | backend/app/repos/rounds.py:57-65 | the new state is the old one with the item rows marked, and no other table changes |
| RoundRepo.FinishRound | backend/app/repos/rounds.py:67-82 | the new state is the old one with the round finished, and no other table changes |
| RoundRepo.SetCurrentTeam | backend/app/repos/rounds.py:104-108 | the new state is the old one with the team set, and no other table changes |
| RoundRepo.SetTargetItemId | backend/app/repos/rounds.py:138-142 | the new state is the old one with the target set, and no other table changes |
| RoundRepo.CreateRound | backend/app/repos/rounds.py:115-136 | a new round row under a fresh id, with the placeholder target; nothing else changes |
| ItemRepo.KeyLe | backend/app/repos/items.py:29 | `ORDER BY rating ASC NULLS LAST, title ASC` as a comparison of (rating, title) keys; `ItemRepo.KeyLeTotal` and `KeyLeTrans` prove it total and transitive |
| ItemRepo.KeyLeTotal | backend/app/repos/items.py:29 | `ORDER BY rating ASC NULLS LAST, title ASC` is total |
| ItemRepo.KeyLeTrans | backend/app/repos/items.py:29 | that order is transitive |
| ItemRepo.MinRow | backend/app/repos/items.py:29 | a row of the list that sorts no later than every row |
| ItemRepo.FindMinRatingItemId | backend/app/repos/items.py:27-35 | an error exactly when the round has no rows; otherwise the id of a row of the round that sorts first among the round's rows |
| ItemRepo.MinRowNullsLast | backend/app/repos/items.py:29 | a row without a rating is chosen only when no row has a rating |
| ItemRepo.InsertItem | backend/app/repos/items.py:8-26 | appends an unplayed row of round `rid` under a fresh id; nothing else changes, and validity is kept |
| Validators.Detail | backend/app/validators.py:4-40 | every template error is raised with status 400 |
| Validators.KnownKind | backend/app/validators.py:5-6 | the kinds `validate_template` accepts are the `TemplateKind` literals (`Schemas.ParseKind`); `Validators.ValidateTemplate` returns the unknown-kind error exactly outside them |
| Validators.HasText | backend/app/validators.py:24 | `it.secret_text and it.secret_text.strip()`: present and not all whitespace; `Validators.AllHaveSecret` states it for every item |
| Validators.AllRated | backend/app/validators.py:9-16 | true exactly when every item has a rating |
| Validators.CountTargets | backend/app/validators.py:17 | the number of items marked as target: none for no items, and no more than the number of items |
| Validators.CountTargetsOne | backend/app/validators.py:17-22 | counting exactly one target is having exactly one item marked as target |
| Validators.AllHaveSecret | backend/app/validators.py:23-28 | true exactly when every item has a non-blank secret text |
| Validators.CarouselCheck | backend/app/validators.py:29-40 | passes exactly when every item has a non-blank image and no rating; otherwise it fails with the error of the first failing item, image before rating |
| Validators.CarouselTail | backend/app/validators.py:29-40 | past an accepted first item, the first failure is that of the rest |
| Validators.ValidateTemplate | backend/app/validators.py:4-40 | it passes exactly for a valid template; each error is returned exactly when its check is the first to fail, in the order kind, count, then the per-kind rules |
| Validators.RouterBodyPassesShape | backend/app/routers/templates.py:60-61 | for a request body pydantic accepted, `validate_template` fails neither the kind check nor the item-count check |
| TemplateRepo.ScopedTemplate | backend/app/repos/templates.py:27-33 | a template is found exactly when it exists in the caller's game set |
| TemplateRepo.RowsOfTemplate | backend/app/repos/templates.py:34-44 | exactly the rows of that template |
| TemplateRepo.WithoutTemplate | backend/app/repos/templates.py:99 | exactly the rows of the other templates |
| TemplateRepo.RowsOfTemplateAppend | backend/app/repos/templates.py:34-44 | selecting rows distributes over concatenation |
| TemplateRepo.RowsOfTemplateAll | backend/app/repos/templates.py:34-44 | rows that all belong to the template select to themselves |
| TemplateRepo.RowsOfTemplateNone | backend/app/repos/templates.py:34-44 | rows of other templates select to nothing |
| TemplateRepo.GetFull | backend/app/repos/templates.py:45-50 | nothing exactly when the template is out of scope; otherwise its row and its items sorted by title, as a permutation of its rows |
| TemplateRepo.NormalizeItem | backend/app/repos/templates.py:101-106 | the row `replace_items` writes for one item; its per-kind fields are stated by `TemplateRepo.NormalizeItemFields` |
| TemplateRepo.NormalizeAll | backend/app/repos/templates.py:101-113 | one normalised row per input item, in order |
| TemplateRepo.NormalizeItemFields | backend/app/repos/templates.py:102-106 | the title is stripped; the rating is kept only for rated; for manual/carousel a present, non-empty secret text is stripped and a missing or "" one becomes null, and for rated it is null; the target flag is kept for manual/carousel and false for rated |
| TemplateRepo.Reread | backend/app/services/rounds.py:122-131 | one input item per stored row, in order |
| TemplateRepo.NormalizeItemKeeps | backend/app/repos/templates.py:100-113 | an item with hidden text where its kind needs it, stored and read back, keeps non-blank hidden text and its target flag for manual/carousel, its rating for rated, its image for carousel, and no rating otherwise |
| TemplateRepo.NormalizeItemRoundTrip | backend/app/repos/templates.py:100-113 | storing an item that was stored and read back gives the same row |
| TemplateRepo.NormalizePreservesValidity | backend/app/repos/templates.py:92-113 | what is stored from a valid template passes validation again when read back, and storing it again gives the same rows |
| TemplateRepo.ReplacedRowsExact | backend/app/repos/templates.py:99-113 | after `replace_items` the template's rows are exactly the normalised input list |
| TemplateRepo.CreateTemplate | backend/app/repos/templates.py:51-69 | a fresh template row with the stripped name and prompt; nothing else changes |
| TemplateRepo.UpdateTemplate | backend/app/repos/templates.py:70-88 | in scope, the row is rewritten with the stripped name and prompt and the result is true; otherwise nothing changes and the result is false |
| TemplateRepo.DeleteTemplate | backend/app/repos/templates.py:89-91 | in scope, the template row is removed and 1 is returned; otherwise nothing changes and 0 is returned |
| TemplateRepo.NormalizeRow | backend/app/repos/templates.py:102-106 | the row inserted for one item is its normalised row |
| TemplateRepo.ReplaceItems | backend/app/repos/templates.py:92-113 | the template's old item rows are gone, the normalised rows are appended in input order, and no other table changes |
| GameSetRepo.Exists | backend/app/repos/game_sets.py:5-7 | a row with the name is present; `GameSetRepo.Create` makes it true for its name and leaves it unchanged for every other name |
| GameSetRepo.Create | backend/app/repos/game_sets.py:8-12 | the name is present afterwards, every other name's membership is unchanged, and no other table changes |
| GameSetRepo.Created | backend/app/repos/game_sets.py:5-12 | after `create(name)`, `exists(name)` holds and no other name or table changes |
| GameSetRepo.CreateIdempotent | backend/app/repos/game_sets.py:10 | creating twice is creating once, and creating an existing name changes nothing |
| GameSetRouter.ValidateGameSetName | backend/app/routers/game_sets.py:8-12 | accepted exactly when the stripped name has six characters, and then the result is the stripped, trimmed name; otherwise a 400 error |
| GameSetRouter.ValidateIdempotent | backend/app/routers/game_sets.py:9-12 | a validated name validates to itself |
| GameSetRouter.ValidateTrimmed | backend/app/tests/test_game_sets_validation.py:7-8 | a name without surrounding whitespace is accepted as itself exactly when it has six characters |
| GameSetRouter.ValidatePadded | backend/app/tests/test_game_sets_validation.py:9 | whitespace around a trimmed name does not change the verdict, so "  ABCDEF  " is accepted as "ABCDEF" |
| GameSetRouter.ValidateRejects | backend/app/tests/test_game_sets_validation.py:11-15 | "", "A", "ABCDE" and "ABCDEFG" are rejected with 400 |
| GameSetRouter.ValidateRejectsBlank | backend/app/tests/test_game_sets_validation.py:11-15 | "     " is rejected with 400 |
| Deps.ValidateGameSet | backend/app/deps.py:3-8 | missing exactly for an absent or empty header; a bad length exactly for any other length than six; otherwise the header unchanged |
| Deps.HeaderNotStripped | backend/app/deps.py:6-8 | the header is not stripped: six characters with spaces pass as they are, and a padded six-letter name fails |
| Datasets.BuiltinDatasets | backend/app/datasets.py:14-31 | the one built-in category holds eleven items with distinct titles |
| Datasets.Picked | backend/app/services/rounds.py:83 | one item per drawn position, in draw order |
| Datasets.PickedTitlesDistinct | backend/app/services/rounds.py:83 | a sample of a list with distinct titles has distinct titles |
| RoundService.OtherTeam | backend/app/services/rounds.py:16-17 | the other team: 1 gives 2 and 2 gives 1 |
| RoundService.WinnerLoserFromLoser | backend/app/services/rounds.py:19-22 | the pair is the other team and the loser, which are distinct |
| RoundService.TeamHelpers | backend/app/tests/test_round_helpers.py:6-12 | `other_team` is an involution, and the unit-test values of both helpers |
| RoundService.ItemView | backend/app/services/rounds.py:45-60 | the target flag only once the round is finished, and then true exactly for the target; rating and secret text only when finished or eliminated; the image for carousel rounds or when hidden fields show; id, title and flags as stored |
| RoundService.ViewItems | backend/app/services/rounds.py:46-61 | one view per row, in order |
| RoundService.RoundToResponse | backend/app/services/rounds.py:24-73 | 404 exactly when the round is out of scope; otherwise the round's fields and the views of its rows in title order |
| RoundService.ResponseListsRoundItems | backend/app/services/rounds.py:30-47 | the response lists exactly the round's rows, by id and title |
| RoundService.ViewsOfListing | backend/app/services/rounds.py:47-61 | the views of a listing name exactly the listed rows |
| RoundService.ListingViews | backend/app/services/rounds.py:47-61 | every listed row has a view |
| RoundService.ActiveRoundHidesTarget | backend/app/services/rounds.py:45-59 | while a round is active no view reveals the target, nor the rating or text of an uneliminated item |
| RoundService.FinishedRoundRevealsTarget | backend/app/services/rounds.py:45-59 | once finished, every view carries the target flag, and only the target's row says it is the target |
| RoundService.PlayableHasRemaining | backend/app/services/rounds.py:192-203 | an active round of a playable database has an item left |
| RoundService.Eliminate | backend/app/services/rounds.py:172-205 | the tables `eliminate_item_in_round` commits, or its error; the errors are stated by `RoundService.EliminateErrors` and the three outcomes by `EliminateShape`, `EliminateTargetLoses`, `EliminatePassesTurn` and `EliminateDraw` |
| RoundService.Eliminated | backend/app/services/rounds.py:186-203 | the writes of an accepted pick: the marked row, then one of the three outcomes for the round |
| RoundService.EliminateErrors | backend/app/services/rounds.py:172-185 | 404 for an unknown round, 409 for a finished round, 404 for an unknown item, 409 for an eliminated item, each exactly when its check is the first to fail; otherwise success |
| RoundService.EliminateShape | backend/app/services/rounds.py:186-203 | an accepted pick marks the row and leaves the round finished as a loss, finished as a draw or win, or active with the turn passed |
| RoundService.EliminateMarksItem | backend/app/services/rounds.py:186 | the picked row is marked as eliminated by the acting team, and no other row changes |
| RoundService.EliminateFlagsItem | backend/app/services/rounds.py:186 | afterwards the picked item reads as eliminated |
| RoundService.MarkedFlagOf | backend/app/services/rounds.py:181-186 | after marking, the flag query gives true |
| RoundService.EliminateTargetLoses | backend/app/services/rounds.py:187-191 | picking the target finishes the round with the acting team as loser and the other team as winner; team 1 picking first loses to team 2 |
| RoundService.EliminatePassesTurn | backend/app/services/rounds.py:202-203 | any other pick that leaves more than one item keeps the round active and passes the turn |
| RoundService.EliminateDraw | backend/app/services/rounds.py:192-197 | a non-target pick that leaves one item finishes the round as a draw, with no winner and no loser |
| RoundService.LastRemainingIsTarget | backend/app/services/rounds.py:194-195 | when the target is still in play and one item is left, that item is the target |
| RoundService.EliminateCountsDown | backend/app/services/rounds.py:186-192 | every accepted pick lowers the round's remaining count by one |
| RoundService.EliminateFrame | backend/app/services/rounds.py:186-203 | other rows and other rounds are untouched; the round keeps its game set and target |
| RoundService.EliminateKeepsValid | backend/app/services/rounds.py:172-204 | elimination keeps the identifiers valid |
| RoundService.SameKeysKeepValid | backend/app/services/rounds.py:172-204 | changing rows without changing identifiers keeps them valid |
| RoundService.EliminateKeepsOutcome | backend/app/services/rounds.py:188-200 | winner and loser stay distinct or both null, and an active round has no result |
| RoundService.EliminateKeepsPlayable | backend/app/services/rounds.py:186-203 | every active round keeps its target in play |
| RoundService.EliminateKeepsTargets | backend/app/services/rounds.py:186-203 | every round keeps its target; a finished round stays finished; the round stays active only after a non-target pick |
| RoundService.MarkKeepsRemaining | backend/app/services/rounds.py:186 | marking the picked row keeps every other row in play |
| RoundService.EliminateLeavesChoice | backend/app/services/rounds.py:192-203 | a round still active after a pick offers at least two items |
| RoundService.EliminateItemInRound | backend/app/services/rounds.py:172-205 | on error, the error and an unchanged database (the rollback); on success, the committed tables are `Eliminate`'s and the result is the round's response |
| RoundService.AppendRoundKeepsValid | backend/app/services/rounds.py:85-111 | a new round under the next id, with rows numbered after it, keeps the ids valid |
| RoundService.AppendRoundKeepsPlayable | backend/app/services/rounds.py:85-111 | such a round with its target among its unplayed rows keeps every active round playable |
| RoundService.AppendRoundKeepsOutcome | backend/app/services/rounds.py:85-111 | such an active round without a result keeps every result consistent |
| RoundService.NoRowsOfNextRound | backend/app/repos/rounds.py:115-136 | in a valid database no row belongs to the round about to be created |
| RoundService.RowsOfRoundAppendNone | backend/app/repos/rounds.py:39 | rows of other rounds add nothing to a round's rows |
| RoundService.RowsOfRoundAll | backend/app/repos/rounds.py:39 | rows that all belong to a round are its rows |
| RoundService.FreshRoundMin | backend/app/repos/items.py:27-35 | for a new round, `find_min_rating_item_id` picks among its own rows only |
| RoundService.Category | backend/app/services/rounds.py:76 | `category.strip().lower()`, the key looked up in the dataset table; `Text.Strip` and `Text.Lower` state the two steps |
| RoundService.MinItem | backend/app/services/rounds.py:84 | one of the drawn items, no later than every other by (rating, title) |
| RoundService.DatasetRows | backend/app/services/rounds.py:98-106 | one unplayed row per drawn item, numbered after the round, with its title and rating |
| RoundService.TitleToId | backend/app/services/rounds.py:97-106 | the titles inserted are the keys, and each maps to a row inserted for it |
| RoundService.TitleToIdDistinct | backend/app/services/rounds.py:106-107 | with distinct titles every title maps to its own row |
| RoundService.CreateRated | backend/app/services/rounds.py:75-112 | the tables `create_rated_round_from_dataset` commits, or its error; `RoundService.CreateRatedOutcomes` states the errors and `RatedRound` and `RatedTargetIsLowest` the new round |
| RoundService.CreateRatedOutcomes | backend/app/services/rounds.py:75-112 | the category is stripped and lower-cased; 400 for an unknown category, 500 for a dataset under eleven items, and otherwise the round is stored |
| RoundService.RatedRound | backend/app/services/rounds.py:85-106 | a rated round starts active with team 1, no result, and one fresh unplayed row per drawn item, in draw order |
| RoundService.RatedTargetIsLowest | backend/app/services/rounds.py:84-110 | with distinct titles, the target is the row of the drawn item with the lowest (rating, title) |
| RoundService.RatedTargetIsMinQuery | backend/app/services/rounds.py:84-107 | the dataset path and `find_min_rating_item_id` agree on the target |
| RoundService.DatasetLeUnique | backend/app/services/rounds.py:84 | with distinct titles no two drawn items tie on (rating, title) |
| RoundService.RatedKeepsInvariants | backend/app/services/rounds.py:75-112 | storing a rated round keeps valid ids, playable rounds and consistent results |
| RoundService.TitleToIdHit | backend/app/services/rounds.py:106-109 | every value of `title_to_id` is one of the inserted rows, so the "Failed to resolve" branch is not taken |
| RoundService.DatasetRowsSnoc | backend/app/services/rounds.py:98-106 | one more step of the insert loop |
| RoundService.InsertDatasetItems | backend/app/services/rounds.py:97-106 | the loop appends the dataset rows under the next ids and returns `title_to_id`; nothing else changes |
| RoundService.CreateRatedRoundFromDataset | backend/app/services/rounds.py:75-112 | on error, the error and an unchanged database; otherwise the new round's id and `CreateRated`'s tables |
| RoundService.StoreRatedRound | backend/app/services/rounds.py:85-111 | the round, its rows and its resolved target, as `RatedTables` |
| RoundService.TemplateRows | backend/app/services/rounds.py:146-163 | one unplayed row per stored item, numbered after the round, with its fields |
| RoundService.TemplateRowsSnoc | backend/app/services/rounds.py:146-163 | one more step of the insert loop |
| RoundService.LastTargetOnly | backend/app/services/rounds.py:156-165 | with exactly one target, the loop resolves that item's row |
| RoundService.LastTargetSome | backend/app/services/rounds.py:164-167 | a template with a target resolves some row |
| RoundService.FromTemplate | backend/app/services/rounds.py:114-170 | the tables `create_round_from_template_id` commits, or its error; `RoundService.FromTemplateErrors` states the errors and `TemplateRound` and `TemplateTargetChoice` the new round |
| RoundService.FromTemplateErrors | backend/app/services/rounds.py:114-132 | 404 exactly for a template out of scope, then the validation error of its stored items; otherwise the round built from the template |
| RoundService.TemplateRound | backend/app/services/rounds.py:135-168 | a template round starts active with team 1 in category "templates"; its target is the lowest-rated row for rated, else the row of the one target |
| RoundService.TemplateRoundItems | backend/app/services/rounds.py:144-163 | one fresh unplayed row per stored item, in order, after the rows already there |
| RoundService.AppendedTemplateRows | backend/app/services/rounds.py:146-163 | each appended row is its stored item's row |
| RoundService.TemplateTargetChoice | backend/app/services/rounds.py:145-165 | the rated target is the row `find_min_rating_item_id` returns for the new round; otherwise it is the marked row |
| RoundService.TemplateKeepsInvariants | backend/app/services/rounds.py:114-170 | creating a round from a template keeps valid ids, playable rounds and consistent results |
| RoundService.AppendRoundKeepsInvariants | backend/app/services/rounds.py:85-111 | the three invariants for any new round with fresh unplayed rows |
| RoundService.TemplateTargetIsRow | backend/app/services/rounds.py:145-165 | the template target is one of the new round's rows |
| RoundService.BlankTitleBreaksTemplate | backend/app/services/rounds.py:122-132 | a template item saved with a blank title is stored with an empty title, and every later round built from the template is refused |
| RoundService.BlankTitleStoredEmpty | backend/app/repos/templates.py:102 | a blank title is stored as "" |
| RoundService.InsertTemplateItems | backend/app/services/rounds.py:144-165 | the loop appends the template rows under the next ids and returns the last row marked as target; nothing else changes |
| RoundService.CreateRoundFromTemplateId | backend/app/services/rounds.py:114-170 | on error, the error and an unchanged database; otherwise the new round's id and `FromTemplate`'s tables |
| RoundService.StoreTemplateRound | backend/app/services/rounds.py:133-168 | the round, its rows and its target, as `TemplateTables` |
| RoundService.SetTargetOfNewRound | backend/app/services/rounds.py:168 | setting the target of the new round replaces its placeholder |
| RoundService.TemplateTablesAre | backend/app/services/rounds.py:133-168 | the tables the writes leave are `TemplateTables` |
| RoundService.InsertTemplateRound | backend/app/services/rounds.py:135-163 | `create_round` and the insert loop, before the target is known |
| RoundService.ResolveTemplateTarget | backend/app/services/rounds.py:145-168 | the lowest-rated new row for rated, else the last marked row, is set as the target |
| ClientText.OrEmpty | frontend/app.js:167 | `String(s ?? "")`: the string, or "" for null and undefined |
| ClientText.JsLength | frontend/app.js:1042 | `.length`: UTF-16 code units, two for a character outside the Basic Multilingual Plane; stated by `ClientText.JsLengthCounts` |
| ClientText.JsLengthCounts | frontend/app.js:1065 | `.length` is at least the number of characters, and equal to it exactly when every character lies in the Basic Multilingual Plane |
| ClientText.JsLengthCons | frontend/app.js:1065 | a leading character adds its own one or two code units |
| ClientText.ReplaceAll | frontend/app.js:168-170 | a string without the character is unchanged |
| ClientText.EscapeText | frontend/app.js:166-171 | the three `replaceAll` passes in order; `ClientText.EscapeTextIsEach` proves it escapes each character on its own, and `ClientText.EscapeHtmlSafe` and `UnescapeEscapeHtml` state what that gives |
| ClientText.EscapeHtml | frontend/app.js:166-171 | `escapeHtml`: the escape of the string, "" for null; stated by `ClientText.EscapeHtmlSafe` and `ClientText.UnescapeEscapeHtml` |
| ClientText.ReplaceAllAppend | frontend/app.js:168-170 | replacing distributes over concatenation |
| ClientText.ReplaceAllOne | frontend/app.js:168-170 | one character is replaced exactly when it is the pattern |
| ClientText.EscapeTextCons | frontend/app.js:166-171 | the three passes escape a leading character on its own |
| ClientText.EscapeTextIsEach | frontend/app.js:166-171 | `escapeHtml` is escaping each character on its own |
| ClientText.EscapeEachSafe | frontend/app.js:166-171 | per-character escaping is HTML-safe |
| ClientText.HtmlSafeCons | frontend/app.js:166-171 | an escaped character in front of safe text keeps it safe |
| ClientText.EscapeHtmlSafe | frontend/app.js:166-171 | the output has no `<` or `>`, and every `&` begins `&amp;`, `&lt;` or `&gt;` |
| ClientText.UnescapeCons | frontend/app.js:166-171 | reading an escaped character back gives that character |
| ClientText.UnescapeEntity | frontend/app.js:166-171 | each entity reads back as its character |
| ClientText.UnescapeEscapeHtml | frontend/app.js:166-171 | escaping loses nothing: unescaping gives the text back |
| ClientText.UnescapeEach | frontend/app.js:166-171 | the same for per-character escaping |
| ClientText.Mime | frontend/app.js:616-620 | the media type guessed from the data's first characters, png by default |
| ClientText.DetectDataUrl | frontend/app.js:612-622 | `detectDataUrl`; its three outcomes are `ClientText.DetectDataUrlCases`, and `ClientText.DetectDataUrlIdempotent` shows it is idempotent |
| ClientText.DetectTrimmed | frontend/app.js:614-622 | the cases of `detectDataUrl` once the input is trimmed: "" for empty, a data URL kept, a header put before anything else |
| ClientText.Header | frontend/app.js:616-621 | the header starts with "data:" |
| ClientText.DetectDataUrlCases | frontend/app.js:612-622 | "" exactly for blank input; otherwise a data URL ending with the trimmed input, which is the whole result for a data URL and follows the mime header for base64 data |
| ClientText.DetectDataUrlIdempotent | frontend/app.js:612-622 | applying it twice is applying it once |
| ClientText.HeaderKept | frontend/app.js:612-622 | base64 data with its header comes back unchanged |
| ClientText.DataUrlKept | frontend/app.js:615 | a trimmed data URL comes back unchanged |
| ClientEditor.FormRow | frontend/app.js:747-759 | the form row of one item: missing text becomes "", the target flag is `!!is_target`, the rating is kept for rated |
| ClientEditor.HasAny | frontend/app.js:895-901 | a row counts when its title, rating or hidden text is not blank, it is marked as target, or it has an image; `ClientEditor.ReadItems` skips the others |
| ClientEditor.Message | frontend/app.js:902-957 | the status line each editor error shows, with the exact texts of the form errors (lines 902, 905, 910) and of the save checks (lines 952-957) |
| ClientEditor.BlankRow | frontend/app.js:761-767 | the blank row the form is padded with |
| ClientEditor.NormalizeItemsTo11 | frontend/app.js:744-771 | exactly eleven rows: row i is item i's form row while there are items, and the rest are blank; for manual/carousel the target flag is a boolean |
| ClientEditor.ReadRow | frontend/app.js:893-911 | a row that counts reads into an item with a title, hidden text and no rating for manual/carousel, or a rating, no hidden text and no target for rated; otherwise it raises one of the three form errors |
| ClientEditor.ManualRowCases | frontend/app.js:893-906 | for manual/carousel: the missing-title error exactly for a blank title, the hidden-info error exactly for a titled row with blank hidden text, never the rating error; the item is the trimmed title and hidden text with the target flag and image kept |
| ClientEditor.RatedRowCases | frontend/app.js:893-911 | for rated: the missing-title error exactly for a blank title, the rating error exactly for a titled row whose trimmed rating does not parse, never the hidden-info error; the item is the trimmed title with the parsed rating and no target |
| ClientEditor.ReadItems | frontend/app.js:890-913 | at most one item per row, each one as `ReadRow` promises; an error is one of the three form errors |
| ClientEditor.ReadItemsOk | frontend/app.js:890-913 | the form reads exactly when every row that counts reads |
| ClientEditor.ReadItemsError | frontend/app.js:890-913 | an error is the error of some row that counts |
| ClientEditor.ErrorSticks | frontend/app.js:890-913 | once a row has raised, the rows after it change nothing: the first error wins |
| ClientEditor.ReadTemplateItemsFromForm | frontend/app.js:888-913 | the loop over the form rows returns what `ReadItems` gives |
| ClientEditor.SaveTemplateCheck | frontend/app.js:946-959 | the form is read first and its error wins, then the name, prompt, item-count and target checks; stated by `ClientEditor.SaveTemplateCheckCases` |
| ClientEditor.SaveTemplateCheckCases | frontend/app.js:946-959 | a form error comes first and is returned as is; once the form reads, each other error exactly when its check is the first to fail: name, prompt, item count, then the single target for manual/carousel; otherwise the items read are sent |
| ClientEditor.SaveTemplateCheckAgreesWithServer | frontend/app.js:946-959 | what the client sends for a known kind is not rejected by the server for its item count or target count, and a rated one passes `validate_template` |
| ClientEditor.SaveTemplateRefusalsAgree | frontend/app.js:955-958 | when the client refuses a read form for its item count or its target, the server rejects those items for the same reason |
| ClientImages.ImageIdsSnoc | frontend/app.js:78-82 | the ids with an image grow by the last item's id when it carries one |
| ClientImages.Remember | frontend/app.js:77-82 | the cache gains exactly the ids that came with an image, keeps only non-empty images, and keeps every other entry |
| ClientImages.RememberSnoc | frontend/app.js:78-82 | one more step of the loop |
| ClientImages.RememberLast | frontend/app.js:78-82 | an item's cached image is that of the last item with its id and an image |
| ClientImages.Fill | frontend/app.js:84-88 | the body of the `map` callback; stated by `ClientImages.FillKeepsItem` |
| ClientImages.FillKeepsItem | frontend/app.js:84-88 | only the image may change: an item with an image, or one the cache does not know, is kept; one without an image gets the cached image when the cache has a non-empty one |
| ClientImages.FillAll | frontend/app.js:84-88 | one item per input item, in order, each through the `map` callback |
| ClientImages.FillOnlyAddsImages | frontend/app.js:84-88 | only missing images change: an item with an image is unchanged, and every other field stays |
| ClientImages.SyncShowsImages | frontend/app.js:70-90 | after a sync, an item whose id came with an image or is cached shows an image |
| ClientImages.ImageCache.constructor | frontend/app.js:67-68 | an empty cache for no round |
| ClientImages.ImageCache.Clear | frontend/app.js:51-52 | the cache is emptied and tied to no round |
| ClientImages.ImageCache.Sync | frontend/app.js:70-90 | the cache starts over for a new round or on reset, remembers every image of the response, and the response comes back with cached images put into the items that lack one |
| ClientCarousel.VisibleCount | frontend/app.js:1314-1318 | a positive count: the style value when positive, else 5 |
| ClientCarousel.MaxIndex | frontend/app.js:1322 | `Math.max(0, count - visible)`, the last index with a full frame; `ClientCarousel.Clamp` keeps the index within it |
| ClientCarousel.Clamp | frontend/app.js:1320-1325 | the index stays within 0 and the last full frame; an index in range is kept; past the end wraps to 0; before the start wraps to the last frame |
| ClientCarousel.PrevUndoesNext | frontend/app.js:1336-1343 | "next" then "prev", or "prev" then "next", returns to the same index |
| ClientCarousel.WrapsAround | frontend/app.js:1336-1343 | "next" from the last frame goes to the first, and "prev" from the first goes to the last |
| ClientCarousel.FindTarget | frontend/app.js:1277 | `findIndex` over the target flags: -1 exactly when no item is the target, otherwise the first target's position |
| ClientCarousel.RenderedTargetInView | frontend/app.js:1276-1279 | a finished round's index is its target when the target is within the last full frame, else 0; the target is in view exactly in the first case or when it lies in the first frame |
| ClientCarousel.LastTargetOutOfView | frontend/app.js:1276-1279 | with seven items, five visible and the last one the target, the finished carousel opens at 0 without the target in view |
| ClientCarousel.Carousel.constructor | frontend/app.js:1320-1325 | an empty carousel at index 0 |
| ClientCarousel.Carousel.Render | frontend/app.js:1273-1302 | the carousel holds the given items and, for a finished round with a target, starts from the first target, clamped |
| ClientCarousel.Carousel.Reset | frontend/app.js:555 | the index goes back to 0 |
| ClientCarousel.Carousel.Update | frontend/app.js:1320-1325 | the index is clamped |
| ClientCarousel.Carousel.Prev | frontend/app.js:1336-1339 | the index steps back and is clamped |
| ClientCarousel.Carousel.Next | frontend/app.js:1340-1343 | the index steps forward and is clamped |
| ClientSession.NormalizeGameSet | frontend/app.js:44 | the name, "" when missing, trimmed and upper-cased; stated by `ClientSession.NormalizeGameSetProps` |
| ClientSession.GameSetHeader | frontend/app.js:277-278 | no call without a game set, otherwise the game set as the header; used by `ClientSession.HeaderAgreesWithRouter` |
| ClientSession.LoginName | frontend/app.js:1064-1068 | the normalised name, when its `.length` is six; stated by `ClientSession.HeaderAgreesWithRouter` |
| ClientSession.NormalizeGameSetProps | frontend/app.js:43-44 | the normalised name is idempotent and trimmed, as long as the stripped input, and empty exactly for blank input |
| ClientSession.HeaderAgreesWithRouter | frontend/app.js:1063-1075 | along the login flow (normalise, require a `.length` of six, then route): the login goes on exactly for a `.length` of six; the header then passes the server's check exactly when every character lies in the Basic Multilingual Plane; the router accepts the name exactly when, in addition, it has no surrounding Python whitespace, and then returns it unchanged, which is the header |
| ClientSession.RouterKeepsSixChars | backend/app/routers/game_sets.py:8-12 | a six-character name is accepted exactly when it has no surrounding whitespace, and then as itself |
| ClientSession.LoginKeeps | frontend/app.js:44 | a name with no surrounding whitespace and no lower-case letter is kept as it is |
| ClientSession.LoginKept | frontend/app.js:1064-1068 | a name the normalisation keeps goes on to the server exactly when its `.length` is six |
| ClientSession.SeparatorNameKept | frontend/app.js:1067-1069 | a separator (1C-1F) before five characters of the Basic Multilingual Plane, such as "\x1cABCDE", passes the login as a six-character name, kept as it is |
| ClientSession.SeparatorNameRefused | backend/app/routers/game_sets.py:8-12 | the router refuses that name for its length: `strip()` drops the separator |
| ClientSession.AstralNameRefused | frontend/app.js:1065 | a character outside the Basic Multilingual Plane before four others passes the login (`.length` six), and both the router and the header check refuse the five characters |
| ClientSession.AstralNameBlocked | frontend/app.js:1065 | such a character before five others is refused by the login (`.length` seven), although the header check would accept its six characters |
| ClientSession.ShortNameRefused | backend/app/routers/game_sets.py:8-12 | a name of one to five characters is refused by the router, and by the header check (backend/app/deps.py:6-7) |
| ClientSession.Session.constructor | frontend/app.js:41 | the stored game set, trimmed, and empty caches |
| ClientSession.Session.SetGameSet | frontend/app.js:43-53 | the normalised name is kept, and every cache tied to the old game set is dropped |
| ClientSession.Session.DropCaches | frontend/app.js:47-52 | every cache tied to the game set is emptied, and the game set is kept |
| ClientMatch.DistinctCons | frontend/app.js:353 | a draft without repeats stays so when an absent id is pushed |
| ClientMatch.Without | frontend/app.js:355 | the other entries, in order: no entry is `id`, and every other entry is kept |
| ClientMatch.WithoutKeepsDistinct | frontend/app.js:355 | filtering keeps the draft free of repeats |
| ClientMatch.Edited | frontend/app.js:351-357 | after the `push` or `filter`: `id` is present exactly when ticked, and every other entry is present exactly when it was |
| ClientMatch.Toggled | frontend/app.js:351-361 | the draft cut to ten entries; stated by `ClientMatch.ToggledProps` |
| ClientMatch.ToggledProps | frontend/app.js:351-361 | the draft stays at most ten long and free of repeats, gains nothing but `id`, loses `id` when unticked, and gets `id` appended when ticked with room |
| ClientMatch.UntickedWhenFull | frontend/app.js:358-361 | the box is cleared again exactly when the edit overflows the draft, which means ticking a new id into a full draft |
| ClientMatch.OrderNumber | frontend/app.js:321-324 | null exactly when `id` is absent; otherwise the 1-based position of its first occurrence |
| ClientMatch.OrderNumbersArePositions | frontend/app.js:321-324 | in a draft without repeats, the entry at index i is numbered i + 1 |
| ClientMatch.OrderNumberOfTicked | frontend/app.js:321-361 | a new id ticked into a draft with room gets the next number |
| ClientMatch.FindItem | frontend/app.js:588 | nothing exactly when no item has the id; otherwise the index of an item with the id, the first one |
| ClientMatch.Bonus | frontend/app.js:591-592 | minus four for picking the target, plus one otherwise; `ClientMatch.ScoreFollowsServer` ties it to the server's answer |
| ClientMatch.PickedWasTarget | frontend/app.js:588-590 | the answer shows the picked item, the round is over and the item is revealed as the target; `ClientMatch.ScoreFollowsServer` states when that holds |
| ClientMatch.ScoreFollowsServer | frontend/app.js:588-590 | the client reads the answer as "picked the target" exactly when the pick was the round's target, whatever images it puts back |
| ClientMatch.ServerShowsPick | backend/app/services/rounds.py:172-205 | the answer to a pick shows the round's views with the picked item among them, finished with it as target exactly when it was the target |
| ClientMatch.PickIsShown | backend/app/services/rounds.py:205 | the picked item is among the answer's items |
| ClientMatch.PickFinishes | backend/app/services/rounds.py:187-191 | the round is finished with the pick as target exactly when the pick was the target |
| ClientMatch.ClientReadsPick | frontend/app.js:587-590 | the client reads the pick as the target exactly when the round is finished and the item is its target |
| ClientMatch.ViewedPick | frontend/app.js:588-590 | the same for the views of the round's rows |
| ClientMatch.StartCheck | frontend/app.js:1172-1179 | the two checks of the start button; stated by `ClientMatch.StartCheckCases` |
| ClientMatch.Message | frontend/app.js:1174-1178 | the dialog text each start error opens |
| ClientMatch.StartCheckCases | frontend/app.js:1172-1179 | "pick at least 1" exactly for an empty draft, "up to 10" exactly for more than ten, and a start exactly for one to ten |
| ClientMatch.TeamName | frontend/app.js:1167-1168 | the trimmed input, or the fallback for a blank one; stated by `ClientMatch.TeamNameProps` |
| ClientMatch.TeamNameProps | frontend/app.js:1167-1168 | a team always has a name; a typed name is kept stripped, and a blank one gives the fallback |
| ClientMatch.Stored | frontend/app.js:2-8 | the stored value, or the fallback when it is missing or empty; never empty with a non-empty fallback |
| ClientMatch.Match.constructor | frontend/app.js:55-58 | the stored team names or their defaults, an empty plan and draft, index 0, both scores 0 |
| ClientMatch.Match.CurrentRoundSetId | frontend/app.js:377-379 | the plan's entry at the index, or "builtin:movies" when there is none or it is empty |
| ClientMatch.Match.HasNextRound | frontend/app.js:373-375 | true exactly while the plan has a round after the current one |
| ClientMatch.Match.GetOrderNumber | frontend/app.js:321-324 | the order number of `id` in the draft |
| ClientMatch.Match.Toggle | frontend/app.js:351-361 | the draft becomes the toggled draft, and the box is cleared exactly when the draft overflowed |
| ClientMatch.Match.StartRound | frontend/app.js:552-563 | the carousel goes to 0; a created round replaces the one on screen after a reset sync, and a failed creation leaves it |
| ClientMatch.Match.StartMatch | frontend/app.js:566-571 | both scores and the index go to 0, then the first round starts: a created round replaces the one on screen and the image cache starts over for it with that round's images; a failed creation keeps the round and the cache; the carousel goes to 0 and keeps its item count |
| ClientMatch.Match.GoNextRound | frontend/app.js:573-577 | on the last round nothing changes, the round, carousel and image cache included; otherwise the index goes up by one and stays inside the plan, and the next round starts as in `StartMatch`: a new round and cache, or on a failed creation the old round and cache |
| ClientMatch.Match.SetTeamNames | frontend/app.js:1167-1169 | the team names are the stripped inputs, or "Team 1" and "Team 2" for blank ones; nothing else changes |
| ClientMatch.Match.Start | frontend/app.js:1172-1182 | the start check's verdict; on a refusal nothing changes, the round, carousel and image cache included; on success the draft is frozen as the plan and the match starts, with a new round and cache, or the old round and cache when creation fails |
| ClientMatch.Match.Eliminate | frontend/app.js:579-592 | with no round or a failed request nothing changes, the image cache included; otherwise the cache belongs to the answered round and holds the images it had for that round (none for another round) plus those in the answer, the answer with those images put back replaces the round, and only the acting team's score moves, by −4 when the pick was the target and +1 otherwise |

## Left out

- Tables are in memory. SQL, the connection pool, its retries and the cursor wrapper are
  not modelled. A transaction that raises leaves the database unchanged, which the
  services state as "on error, the state is unchanged".
- Identifiers are sequential, from `nextId`, and 0 stands for the nil UUID.
  `gen_random_uuid()` is not modelled beyond "fresh".
- `random.sample`: the drawn positions are a parameter (`sample`). The dataset table is a
  parameter as well; `Datasets.BuiltinDatasets` states the built-in one.
- `list_summaries` and `list_categories` are not modelled. The first orders by timestamps,
  and no clock is modelled.
- Concurrent eliminations on the same round are not modelled.
- FastAPI routing, the request bodies beyond `TemplateItemIn` and `TemplateCreate`, and
  the HTTP plumbing are not modelled. Errors are `Result` values with a status and a
  detail text.
- Whitespace, lower-casing and upper-casing are ASCII only. Unicode whitespace and case
  mapping are not modelled. `ORDER BY title` uses code-point order, not the database's
  collation.
- `RoundService.ResolveTemplateTarget` and `RoundService.CreateRoundFromTemplateId`: the
  "Failed to resolve target_item_id" error (services/rounds.py:166-167) is not a reachable
  branch of the model. A template that passed validation always resolves a target, which
  `RoundService.LastTargetSome` and `RoundService.TemplateTargetIsRow` prove. The same
  holds for the dataset path (`RoundService.TitleToIdHit`).
- `RoundService.BlankTitleBreaksTemplate`: a blank title passes `validate_template` and is
  stored as "". Reading it back into `TemplateItemIn` then fails its `min_length=1`, which
  the model reports as a refused round. The text of pydantic's validation error is not
  modelled.
- Client: the DOM, rendering, modals, `fetch`, `localStorage` and `Date.now` caching are
  not modelled. Server answers are method parameters, and the storage writes of `setGameSet`
  and the start button are left out. `loadGamePlanDraft` is not modelled, and
  `renderCarousel` only as far as the index and item count (`ClientCarousel.Carousel.Render`).
- Foreign keys and cascades of the database schema are not modelled. The schema is not part
  of this model, so `TemplateRepo.DeleteTemplate` states only the template row.
- `ClientEditor.ReadRow`: `Number(...)` with `Number.isFinite` is a parameter (`parse`), so
  JavaScript's number syntax is not modelled (an empty rating, for one, reads as 0).
  The form inputs are read into `ClientEditor.FormFields` rows; reading the DOM is left out.
- Client and server trim differently: the separators 1C-1F survive `trim()` but not
  `strip()`. `ClientSession.SeparatorNameKept` and `ClientSession.SeparatorNameRefused` show login
  names this lets through the client and the router then refuses.
- Client and server count lengths differently: `.length` counts UTF-16 code units, `len`
  counts characters. `ClientSession.AstralNameRefused` and `ClientSession.AstralNameBlocked`
  show names with a character outside the Basic Multilingual Plane that the client and the
  server judge differently.
- `ClientMatch.Match.StartRound`: `created` is the result of `createRoundFor`, including its
  hydration of missing images from the template (app.js:389-414, by index, then by title).
  That hydration and the template request it makes are not modelled.
- `ClientMatch.Match.SetTeamNames` and `ClientMatch.Match.Start`: the start button's
  handler is split into these two steps. Its writes to `localStorage` are left out.
- `ClientText.OrEmpty`: `String(x ?? "")` is modelled for strings, `null` and `undefined`
  only. JavaScript's conversion of other values is not modelled.
- `ClientCarousel.VisibleCount`: the visible count is an integer. The source parses a CSS
  float, and the pixel transform `updateCarouselTransform` writes is left out.
- `ClientImages.ImageCache.Sync`: the source replaces `r.items` inside the object it was
  given and returns that object. The model returns a new value, so aliasing of the round
  object is not captured.
- `ClientSession.Session`: `templatesCache` holds template ids only. The template
  summaries it caches in the source are not modelled.
- The template router (`backend/app/routers/templates.py`) and the rounds router are not
  part of this model, beyond the checks they delegate to.
