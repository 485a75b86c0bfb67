/** The two text builders of the bot: the ingredient list and the recipe
    details message that follows a recipe's photo. */
module Formatting {
  import opened Recipes
  import opened Text

  const CookingTimeLabel: string := "⏳ *Время готовки:* "
  const MinutesSuffix: string := " минут"
  const DescriptionLabel: string := "🍪 *Описание:* "
  const IngredientsHeader: string := "🛒 *Ингредиенты:* "

  /** True when none of the ingredient's fields holds a line break. */
  predicate SingleLine(ing: Ingredient)
  {
    '\n' !in ing.name && '\n' !in ing.amount && '\n' !in ing.measurementUnit
  }

  /** The line `- {name}: {amount} {measurement_unit}` for one ingredient. */
  function IngredientLine(ing: Ingredient): (r: string)
    ensures "- " <= r
    ensures '\n' !in r <==> SingleLine(ing)
  {
    "- " + ing.name + ": " + ing.amount + " " + ing.measurementUnit
  }

  /** One line per ingredient, in input order. */
  function IngredientLines(ings: seq<Ingredient>): (r: seq<string>)
    ensures |r| == |ings|
  {
    seq(|ings|, i requires 0 <= i < |ings| => IngredientLine(ings[i]))
  }

  /** `format_ingredients`: the ingredient lines joined by line breaks. */
  function FormatIngredients(ings: seq<Ingredient>): (r: string)
    ensures ings == [] ==> r == ""
    ensures |ings| == 1 ==> r == IngredientLine(ings[0])
  {
    Join(IngredientLines(ings), '\n')
  }

  /** `format_recipe_details`: cooking time, description and ingredients,
      each under its own label. */
  function FormatRecipeDetails(recipe: Recipe): (r: string)
    ensures CookingTimeLabel + recipe.cookingTime + MinutesSuffix + "\n" <= r
    ensures |IngredientsHeader + "\n" + FormatIngredients(recipe.ingredients)| <= |r|
    ensures r[|r| - |IngredientsHeader + "\n" + FormatIngredients(recipe.ingredients)|..]
         == IngredientsHeader + "\n" + FormatIngredients(recipe.ingredients)
  {
    CookingTimeLabel + recipe.cookingTime + MinutesSuffix + "\n"
    + DescriptionLabel + recipe.description + "\n\n"
    + IngredientsHeader + "\n" + FormatIngredients(recipe.ingredients)
  }

  /** A non-empty ingredient list gives exactly one line per ingredient, in
      order, and so one line break fewer than there are ingredients. */
  lemma {:induction false} FormatIngredientsLines(ings: seq<Ingredient>)
    requires |ings| >= 1
    requires forall i :: 0 <= i < |ings| ==> SingleLine(ings[i])
    ensures Split(FormatIngredients(ings), '\n') == IngredientLines(ings)
    ensures forall i :: 0 <= i < |ings| ==>
      Split(FormatIngredients(ings), '\n')[i] == IngredientLine(ings[i])
    ensures Count(FormatIngredients(ings), '\n') == |ings| - 1
  {
    var lines := IngredientLines(ings);
    forall i | 0 <= i < |lines| ensures '\n' !in lines[i] {
      assert lines[i] == IngredientLine(ings[i]);
    }
    SplitJoin(lines, '\n');
    CountJoin(lines, '\n');
  }

  /** The details message, read line by line: the lines of the cooking-time
      line, the lines of the description line (a description may span
      several), a blank line, the ingredients header, and then the lines of
      the ingredient list. */
  lemma FormatRecipeDetailsSplit(recipe: Recipe)
    ensures Split(FormatRecipeDetails(recipe), '\n')
         == Split(CookingTimeLabel + recipe.cookingTime + MinutesSuffix, '\n')
          + Split(DescriptionLabel + recipe.description, '\n')
          + ["", IngredientsHeader]
          + Split(FormatIngredients(recipe.ingredients), '\n')
  {
    DetailsShape(recipe);
    LabelsSingleLine();
    FourLinesThen(CookingTimeLabel + recipe.cookingTime + MinutesSuffix,
      DescriptionLabel + recipe.description, IngredientsHeader, FormatIngredients(recipe.ingredients));
  }

  /** When no field holds a line break, the details message is one
      cooking-time line, one description line, a blank line, the ingredients
      header, and one line per ingredient (a single empty line when there are
      no ingredients). */
  lemma FormatRecipeDetailsLines(recipe: Recipe)
    requires '\n' !in recipe.cookingTime && '\n' !in recipe.description
    requires forall i :: 0 <= i < |recipe.ingredients| ==> SingleLine(recipe.ingredients[i])
    ensures Split(FormatRecipeDetails(recipe), '\n')
         == [CookingTimeLabel + recipe.cookingTime + MinutesSuffix,
             DescriptionLabel + recipe.description,
             "",
             IngredientsHeader]
          + (if recipe.ingredients == [] then [""] else IngredientLines(recipe.ingredients))
  {
    var a := CookingTimeLabel + recipe.cookingTime + MinutesSuffix;
    var b := DescriptionLabel + recipe.description;
    FormatRecipeDetailsSplit(recipe);
    LabelsSingleLine();
    assert '\n' !in a by {
      assert a == CookingTimeLabel + (recipe.cookingTime + MinutesSuffix);
    }
    assert '\n' !in b;
    SplitWithoutSep(a, '\n');
    SplitWithoutSep(b, '\n');
    if recipe.ingredients != [] {
      FormatIngredientsLines(recipe.ingredients);
    }
    ConsFour(a, b, "", IngredientsHeader, Split(FormatIngredients(recipe.ingredients), '\n'));
  }

  /** None of the fixed labels holds a line break. */
  lemma LabelsSingleLine()
    ensures '\n' !in CookingTimeLabel && '\n' !in MinutesSuffix
    ensures '\n' !in DescriptionLabel && '\n' !in IngredientsHeader
  {
  }

  /** The details message, grouped the way `FourLinesThen` reads it. */
  lemma DetailsShape(recipe: Recipe)
    ensures FormatRecipeDetails(recipe)
         == (CookingTimeLabel + recipe.cookingTime + MinutesSuffix) + ['\n']
          + ((DescriptionLabel + recipe.description) + ['\n']
          + ([] + ['\n'] + (IngredientsHeader + ['\n'] + FormatIngredients(recipe.ingredients))))
  {
    ReassociateDetails(CookingTimeLabel, recipe.cookingTime, MinutesSuffix, "\n", DescriptionLabel,
      recipe.description, "\n\n", IngredientsHeader, FormatIngredients(recipe.ingredients));
  }

  /** Only re-brackets a concatenation, for `DetailsShape`. */
  lemma ReassociateDetails<T>(p: seq<T>, x: seq<T>, q: seq<T>, n: seq<T>, d: seq<T>, y: seq<T>, nn: seq<T>, h: seq<T>, f: seq<T>)
    requires nn == n + n
    ensures p + x + q + n + d + y + nn + h + n + f
         == (p + x + q) + n + ((d + y) + n + ([] + n + (h + n + f)))
  {
  }

  /** Splitting two lines of text, a blank line and the header line that
      precede a tail. */
  lemma FourLinesThen(a: string, b: string, h: string, f: string)
    requires '\n' !in h
    ensures Split(a + ['\n'] + (b + ['\n'] + ([] + ['\n'] + (h + ['\n'] + f))), '\n')
         == Split(a, '\n') + Split(b, '\n') + ["", h] + Split(f, '\n')
  {
    var t3 := h + ['\n'] + f;
    var t2 := [] + ['\n'] + t3;
    var t1 := b + ['\n'] + t2;
    SplitAtSep(a, t1, '\n');
    SplitAtSep(b, t2, '\n');
    SplitAfterLine([], t3, '\n');
    SplitAfterLine(h, f, '\n');
    ConcatFour(Split(a, '\n'), Split(b, '\n'), "", h, Split(f, '\n'));
  }

  /** Only re-brackets a concatenation, for `FourLinesThen`. */
  lemma ConcatFour<T>(x: seq<T>, y: seq<T>, c: T, d: T, r: seq<T>)
    ensures x + (y + ([c] + ([d] + r))) == x + y + [c, d] + r
  {
  }

  /** Only re-brackets a concatenation, for `FormatRecipeDetailsLines`. */
  lemma ConsFour<T>(a: T, b: T, c: T, d: T, r: seq<T>)
    ensures [a] + [b] + [c, d] + r == [a, b, c, d] + r
  {
  }
}
