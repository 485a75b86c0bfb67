/** The bot's "do not serve the same recipe twice in a row" rule: the part of
    `get_random_recipe_data` that remains once the HTTP fetch is replaced by
    the decoded recipe list it returns. */
module Selection {
  import opened Recipes

  /** Python's `randint(lo, hi)`, both ends included. The entropy the
      generator consumes is the input `raw`; any policy of drawing is some
      sequence of such inputs. */
  function Randint(lo: int, hi: int, raw: nat): (r: int)
    requires lo <= hi
    ensures lo <= r <= hi
  {
    lo + raw % (hi - lo + 1)
  }

  /** Every value in range is some draw's result, so the model leaves no
      in-range choice out. */
  lemma RandintCovers(lo: int, hi: int, k: int)
    requires lo <= k <= hi
    ensures Randint(lo, hi, (k - lo) as nat) == k
  {
    assert (k - lo) % (hi - lo + 1) == k - lo;
  }

  /** How a call to `get_random_recipe_data` ends. `IndexError` is the
      exception `response[0]` raises on an empty list; `Exhausted` means the
      draws given ran out while the loop was still going. */
  datatype Outcome = Returned(recipe: Recipe) | IndexError | Exhausted

  /** True when `recipe`'s title differs from the stored one; a stored `None`
      differs from every title. */
  predicate Fresh(recipe: Recipe, previous: Option<string>)
  {
    previous != Some(recipe.title)
  }

  /** The `while True` loop of the multi-recipe path run on a sequence of
      draws: the recipe of the first draw whose title is fresh, or
      `Exhausted`. */
  function Pick(response: seq<Recipe>, previous: Option<string>, draws: seq<nat>): (r: Outcome)
    requires |response| >= 2
    ensures r != IndexError
    ensures r.Returned? ==> r.recipe in response && Fresh(r.recipe, previous)
    ensures r.Returned? <==>
      exists i :: 0 <= i < |draws| && Fresh(response[Randint(0, |response| - 1, draws[i])], previous)
    ensures r.Returned? ==>
      exists j :: 0 <= j < |draws| && r.recipe == response[Randint(0, |response| - 1, draws[j])]
        && forall k :: 0 <= k < j ==> !Fresh(response[Randint(0, |response| - 1, draws[k])], previous)
  {
    if |draws| == 0 then Exhausted
    else
      var recipe := response[Randint(0, |response| - 1, draws[0])];
      if Fresh(recipe, previous) then Returned(recipe)
      else
        var r := Pick(response, previous, draws[1..]);
        assert forall i :: 0 < i < |draws| ==> draws[i] == draws[1..][i - 1];
        if r.Returned? then
          var j :| 0 <= j < |draws| - 1 && r.recipe == response[Randint(0, |response| - 1, draws[1..][j])]
            && forall k :: 0 <= k < j ==> !Fresh(response[Randint(0, |response| - 1, draws[1..][k])], previous);
          assert r.recipe == response[Randint(0, |response| - 1, draws[j + 1])];
          r
        else r
  }

  /** The recipes one call can return, over all draws, are exactly those in
      the list whose title differs from the stored one. */
  lemma {:induction false} PickReachesExactlyFresh(response: seq<Recipe>, previous: Option<string>, recipe: Recipe)
    requires |response| >= 2
    ensures (exists draws :: Pick(response, previous, draws) == Returned(recipe))
        <==> recipe in response && Fresh(recipe, previous)
  {
    if recipe in response && Fresh(recipe, previous) {
      var k :| 0 <= k < |response| && response[k] == recipe;
      RandintCovers(0, |response| - 1, k);
      var draws: seq<nat> := [k];
      assert Pick(response, previous, draws) == Returned(recipe);
    }
  }

  /** When every title equals the stored one, no number of draws ends the
      loop. */
  lemma AllStaleNeverReturns(response: seq<Recipe>, title: string, draws: seq<nat>)
    requires |response| >= 2
    requires forall i :: 0 <= i < |response| ==> response[i].title == title
    ensures Pick(response, Some(title), draws) == Exhausted
  {
  }

  /** `RecipeBot` reduced to the state `get_random_recipe_data` reads and
      writes: the title of the last recipe served by the multi-recipe path. */
  class RecipeBot {
    var previousRecipe: Option<string>
    /** The recipes the multi-recipe path has returned, oldest first. */
    ghost var served: seq<Recipe>

    /** The stored title is the title of the last served recipe, and no two
        consecutive served recipes share a title. */
    ghost predicate Valid()
      reads this
    {
      (previousRecipe == if served == [] then None else Some(served[|served| - 1].title))
      && forall i :: 0 < i < |served| ==> served[i].title != served[i - 1].title
    }

    constructor ()
      ensures Valid() && previousRecipe == None && served == []
    {
      previousRecipe := None;
      served := [];
    }

    /** `get_random_recipe_data` on the list the API returned. Each loop turn
        takes the next element of `draws` as the entropy of its `randint`. */
    method GetRandomRecipeData(response: seq<Recipe>, draws: seq<nat>) returns (out: Outcome)
      requires Valid()
      modifies this
      ensures Valid()
      ensures |response| == 0 ==> out == IndexError
      ensures |response| == 1 ==> out == Returned(response[0])
      ensures |response| <= 1 ==> previousRecipe == old(previousRecipe) && served == old(served)
      ensures |response| >= 2 ==> out == Pick(response, old(previousRecipe), draws)
      ensures |response| >= 2 && out.Returned? ==>
        out.recipe in response && Fresh(out.recipe, old(previousRecipe))
        && previousRecipe == Some(out.recipe.title) && served == old(served) + [out.recipe]
      ensures |response| >= 2 && !out.Returned? ==>
        previousRecipe == old(previousRecipe) && served == old(served)
    {
      var totalRecipes := |response|;
      if totalRecipes == 0 {
        return IndexError;
      }
      if totalRecipes <= 1 {
        return Returned(response[0]);
      }
      var i := 0;
      while i < |draws|
        invariant 0 <= i <= |draws|
        invariant Pick(response, previousRecipe, draws) == Pick(response, previousRecipe, draws[i..])
        invariant previousRecipe == old(previousRecipe) && served == old(served)
      {
        var randomId := Randint(0, totalRecipes - 1, draws[i]);
        var recipe := response[randomId];
        assert draws[i..][1..] == draws[i + 1..];
        if previousRecipe != Some(recipe.title) {
          previousRecipe := Some(recipe.title);
          served := served + [recipe];
          return Returned(recipe);
        }
        i := i + 1;
      }
      return Exhausted;
    }
  }

  /** Two calls in a row on lists of two or more recipes never serve the same
      title twice, whatever the lists and the draws. */
  method ConsecutiveCalls(bot: RecipeBot, first: seq<Recipe>, second: seq<Recipe>, d1: seq<nat>, d2: seq<nat>)
    returns (r1: Outcome, r2: Outcome)
    requires bot.Valid() && |first| >= 2 && |second| >= 2
    modifies bot
    ensures r1.Returned? && r2.Returned? ==> r1.recipe.title != r2.recipe.title
  {
    r1 := bot.GetRandomRecipeData(first, d1);
    r2 := bot.GetRandomRecipeData(second, d2);
  }
}
