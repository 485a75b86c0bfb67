# Recipe bot: recipe selection and message formatting

A model of the core of `RecipeBot` (`src/main.py`), a Telegram bot that
serves random recipes fetched from a recipe API. Two parts are modelled:

- **Selection** (`selection.dfy`): `get_random_recipe_data` without its HTTP
  fetch. The bot keeps one field, `previous_recipe`, the title of the last
  recipe served. A list of at most one recipe returns element 0 and leaves
  the field alone (an empty list raises `IndexError`). A longer list is
  sampled with `randint(0, n - 1)` until a recipe whose title differs from
  the stored one comes up; that title is stored and the recipe returned.
  `RecipeBot` is a class with the field `previousRecipe: Option<string>`
  and a ghost history `served` of the recipes the sampling path returned;
  its invariant says the field holds the last served title and that no two
  consecutive served recipes share a title.
- **Formatting** (`formatting.dfy`, over `text.dfy`): `format_ingredients`
  (one `- name: amount unit` line per ingredient, joined with line breaks)
  and `format_recipe_details` (cooking time, description and ingredient
  list under fixed labels).

`recipes.dfy` holds the recipe and ingredient records; `text.dfy` holds
Python's `'\n'.join` and `str.split` on one character, with the round trip
between them and a line-break count.

Modelling choices:

- `randint` is `Selection.Randint(lo, hi, raw)`: the generator's entropy is
  an input `raw: nat`, and the result is proved to lie in `[lo, hi]`, with
  every value of that range reachable. The `while True` loop consumes a
  sequence of such inputs, one per turn; if they run out while the loop
  still runs, the outcome is `Exhausted` (the call has not returned yet).
  So the method's contract is partial correctness: whatever it returns
  obeys the rule.
- The `IndexError` of `response[0]` on an empty list is the outcome
  `IndexError`, not a precondition.
- `amount` and `cooking_time` are kept as the text `str()` renders for them.

Behaviour of the code that the model keeps: the comparison key is the
recipe's `title`; an empty list raises `IndexError`; a one-element list
does not update the stored title; when every title equals the stored one
the loop never ends (`Selection.AllStaleNeverReturns`).

## Model

| member | source | states |
|---|---|---|
| `Selection.Randint` | src/main.py:51 | `randint(0, n - 1)` yields an index in `0 .. n - 1`, both ends included |
| `Selection.RandintCovers` | src/main.py:51 | every index in range is the result of some draw, so no in-range choice is excluded |
| `Selection.Pick` | src/main.py:50-55 | the loop returns exactly when some draw hits a recipe whose title differs from the stored one, and then it returns the recipe of the first such draw: a list member with a fresh title |
| `Selection.PickReachesExactlyFresh` | src/main.py:50-55 | over all draws, the recipes the loop can return are exactly the list's recipes with a title other than the stored one |
| `Selection.AllStaleNeverReturns` | src/main.py:50-55 | if every title equals the stored one, no sequence of draws ends the loop |
| `Selection.RecipeBot.constructor` | src/main.py:17 | a new bot has no stored title and an empty history |
| `Selection.RecipeBot.GetRandomRecipeData` | src/main.py:42-55 | empty list: `IndexError`; one recipe: returns it with the state unchanged; otherwise returns what the loop picks (the recipe of the first draw with a fresh title), stores that title, and keeps the no-consecutive-repeat invariant |
| `Selection.ConsecutiveCalls` | src/main.py:42-55 | two successive calls on lists of two or more recipes never return the same title |
| `Text.Join` | src/main.py:60 | the lines with one separator between neighbours: `""` for none, and the text starts with the first line (followed by the separator when there are more) |
| `Text.SplitJoin` | src/main.py:60-66 | splitting a line-break join of single-line strings at line breaks gives the strings back, in order |
| `Text.CountJoin` | src/main.py:60-66 | a join of n single-line strings holds n - 1 line breaks |
| `Formatting.IngredientLine` | src/main.py:62-63 | an ingredient line starts with `- ` and is a single line exactly when the ingredient's fields are |
| `Formatting.IngredientLines` | src/main.py:61-65 | one line per ingredient |
| `Formatting.FormatIngredients` | src/main.py:58-66 | no ingredients give the empty text; one ingredient gives exactly its line |
| `Formatting.FormatIngredientsLines` | src/main.py:58-66 | when no name, amount or unit holds a line break, n ingredients give exactly n lines, the i-th being the i-th ingredient's line, and n - 1 line breaks |
| `Formatting.FormatRecipeDetails` | src/main.py:69-81 | the message starts with the cooking-time line and ends with the ingredients header followed by the `format_ingredients` text |
| `Formatting.FormatRecipeDetailsSplit` | src/main.py:69-81 | for any field contents, line by line the message is the lines of the cooking-time line, the lines of the description line, a blank line, the ingredients header, then the lines of the `format_ingredients` text |
| `Formatting.FormatRecipeDetailsLines` | src/main.py:69-81 | when no field holds a line break, line by line the message is the cooking-time line, the description line, a blank line, the ingredients header, then one line per ingredient (one empty line for no ingredients) |

## Left out

- The HTTP fetch `requests.get(...).json()` (src/main.py:44): network I/O; the decoded list is a parameter.
- The Telegram glue: bot construction, handler registration, keyboards, `greet_user`, `send_recipe`, `run` (src/main.py:12-40, 83-105): messaging-platform calls.
- Reading the token and chat id from the environment (src/main.py:8-14, src/consts.py): process configuration.
- `src/bot/abstract_base.py`: abstract methods without bodies; the tag query, cache and periodic refresh it declares are not implemented in the modelled code, and its token check guards only configuration.
- Probability: `randint`'s distribution is not modelled; a draw is any in-range choice.
- Python's `str()` of numbers and the Markdown rendering: values are opaque text.
- Key errors on records missing a field: records always carry the fields the bot reads.
- Recipe `id`: the code never reads it.
- Concurrency: the shared `previous_recipe` is modelled for sequential calls only.
- Selection.RecipeBot.GetRandomRecipeData: proves partial correctness only; the unbounded `while True` loop is cut at the draws supplied, so non-termination appears as `Exhausted`.
- Formatting.FormatIngredientsLines: the one-line-per-ingredient reading holds only when no ingredient field holds a line break; otherwise the ingredient text splits into more lines than ingredients, and `Formatting.FormatRecipeDetailsSplit` describes the message in terms of that text's own lines.
