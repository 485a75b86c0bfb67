/** The records the recipe API returns, as the bot reads them. */
module Recipes {

  datatype Option<+T> = None | Some(value: T)

  /** One entry of a recipe's `ingredients_display` list. The amount is kept
      as the text Python's `str()` would render for it. */
  datatype Ingredient = Ingredient(name: string, amount: string, measurementUnit: string)

  /** The fields of a recipe record that the bot reads. `cooking_time` is kept
      as its rendered text, like an ingredient's amount. */
  datatype Recipe = Recipe(
    title: string,
    image: string,
    cookingTime: string,
    description: string,
    ingredients: seq<Ingredient>)
}
