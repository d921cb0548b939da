/** The recipe page (`rezept_detail`): the recipe row by id, its ingredients,
    its steps by step number, its photo file names and tag names, and the
    portion multiplier, kept here as an exact fraction. */
module RecipeDetail {
  import opened Wrappers
  import opened Schema

  /** The fraction num/den. */
  datatype Ratio = Ratio(num: int, den: int)

  /** `a` and `b` denote the same number (both denominators non-zero). */
  predicate SameValue(a: Ratio, b: Ratio) {
    a.num * b.den == b.num * a.den
  }

  const One: Ratio := Ratio(1, 1)

  /** The portions asked for: an absent or empty `p` argument gives the
      base portions; otherwise `parseInt` decides (None is ValueError). */
  function RequestedPortions(p: Option<string>, base: int, parseInt: string -> Option<int>): (r: Option<int>)
    ensures p.None? || p.value == "" ==> r == Some(base)
    ensures p.Some? && p.value != "" ==> r == parseInt(p.value)
  {
    if p.None? || p.value == "" then Some(base) else parseInt(p.value)
  }

  /** `portionen / base_portions if base_portions else 1`. */
  function Multiplier(portions: int, base: int): (m: Ratio)
    ensures m.den != 0
    ensures base == 0 ==> m == One
    ensures base != 0 ==> m.num * base == portions * m.den
  {
    if base == 0 then One else Ratio(portions, base)
  }

  /** An absent or empty `p` shows the recipe unscaled. */
  lemma DefaultPortionsUnscaled(p: Option<string>, base: int, parseInt: string -> Option<int>)
    requires p.None? || p.value == ""
    ensures RequestedPortions(p, base, parseInt).Some?
    ensures SameValue(Multiplier(RequestedPortions(p, base, parseInt).value, base), One)
  {
  }

  /** Scaling multiplies: asking for k times the base portions gives the
      multiplier k, whatever the (non-zero) base. */
  lemma {:induction false} MultiplierOfMultiple(k: int, base: int)
    requires base != 0
    ensures SameValue(Multiplier(k * base, base), Ratio(k, 1))
  {
    assert k * base * 1 == k * base;
  }

  // -------------------------------------------------------------- queries

  /** The recipe lookup by key: the first row with that id. */
  function FindRecipe(recipes: seq<Recipe>, id: nat): (r: Option<Recipe>)
    ensures r.Some? ==> r.value in recipes && r.value.id == id
    ensures r.None? <==> id !in RecipeIds(recipes)
  {
    if recipes == [] then None
    else if recipes[0].id == id then Some(recipes[0])
    else
      assert forall x :: x in recipes <==> x == recipes[0] || x in recipes[1..];
      FindRecipe(recipes[1..], id)
  }

  /** The ingredient rows of a recipe, in table order. */
  function IngredientsOf(ingredients: seq<Ingredient>, id: nat): (r: seq<Ingredient>)
    ensures forall g :: g in r <==> g in ingredients && g.recipeId == id
  {
    if ingredients == [] then []
    else
      assert forall x :: x in ingredients <==> x == ingredients[0] || x in ingredients[1..];
      (if ingredients[0].recipeId == id then [ingredients[0]] else []) + IngredientsOf(ingredients[1..], id)
  }

  /** The file names of a recipe's photos, in table order. */
  function PhotosOf(photos: seq<Photo>, id: nat): (r: seq<string>)
    ensures forall f :: f in r <==> exists p :: p in photos && p.recipeId == id && p.filename == f
  {
    if photos == [] then []
    else
      assert forall x :: x in photos <==> x == photos[0] || x in photos[1..];
      (if photos[0].recipeId == id then [photos[0].filename] else []) + PhotosOf(photos[1..], id)
  }

  /** The names of the tags with id `tagId`. */
  function NamesWithId(tags: seq<Tag>, tagId: nat): (r: seq<string>)
    ensures forall n :: n in r <==> Tag(tagId, n) in tags
  {
    if tags == [] then []
    else
      assert forall x :: x in tags <==> x == tags[0] || x in tags[1..];
      (if tags[0].id == tagId then [tags[0].name] else []) + NamesWithId(tags[1..], tagId)
  }

  /** The names of the tags a recipe is linked to, one per link and
      matching tag row, in link order. */
  function TagNamesOf(links: seq<RecipeTag>, tags: seq<Tag>, id: nat): (r: seq<string>)
    ensures forall n :: n in r <==> LinkedToTag(links, tags, id, n)
  {
    if links == [] then []
    else
      assert forall x :: x in links <==> x == links[0] || x in links[1..];
      (if links[0].recipeId == id then NamesWithId(tags, links[0].tagId) else []) + TagNamesOf(links[1..], tags, id)
  }

  /** What the recipe page shows. */
  datatype Page =
    | NotFound
    | BadPortions
    | Shown(recipe: Recipe, ingredients: seq<Ingredient>, steps: seq<Step>, photos: seq<string>,
            tagNames: seq<string>, portions: int, multiplier: Ratio)

  /** `rezept_detail(recipe_id)` with the query argument `p`. */
  function Detail(recipes: seq<Recipe>, ingredients: seq<Ingredient>, steps: seq<Step>, photos: seq<Photo>,
                  links: seq<RecipeTag>, tags: seq<Tag>, id: nat, p: Option<string>,
                  parseInt: string -> Option<int>): (page: Page)
    ensures page == NotFound <==> id !in RecipeIds(recipes)
    ensures page.Shown? ==> page.recipe in recipes && page.recipe.id == id
    ensures page.Shown? ==> page.multiplier.den != 0
    ensures page.Shown? && page.recipe.basePortions == 0 ==> page.multiplier == One
    ensures page.Shown? && page.recipe.basePortions != 0 ==>
      page.multiplier.num * page.recipe.basePortions == page.portions * page.multiplier.den
    ensures page == BadPortions <==> id in RecipeIds(recipes) && p.Some? && p.value != "" && parseInt(p.value).None?
    ensures page.Shown? ==> RequestedPortions(p, page.recipe.basePortions, parseInt) == Some(page.portions)
    ensures page.Shown? ==> forall g :: g in page.ingredients <==> g in ingredients && g.recipeId == id
    ensures page.Shown? ==> forall s :: s in page.steps <==> s in steps && s.recipeId == id
    ensures page.Shown? ==> forall f :: f in page.photos <==>
      exists ph :: ph in photos && ph.recipeId == id && ph.filename == f
    ensures page.Shown? ==> forall n :: n in page.tagNames <==> LinkedToTag(links, tags, id, n)
  {
    match FindRecipe(recipes, id)
    case None => NotFound
    case Some(r) =>
      match RequestedPortions(p, r.basePortions, parseInt)
      case None => BadPortions
      case Some(portions) =>
        StepsOfMembers(steps, id);
        Shown(r, IngredientsOf(ingredients, id), StepsOf(steps, id), PhotosOf(photos, id),
              TagNamesOf(links, tags, id), portions, Multiplier(portions, r.basePortions))
  }

  /** The page lists the steps numbered 1..n in that order, as `ORDER BY
      step_number` asks, when the table's numbering holds. */
  lemma DetailStepsInOrder(recipes: seq<Recipe>, ingredients: seq<Ingredient>, steps: seq<Step>, photos: seq<Photo>,
                           links: seq<RecipeTag>, tags: seq<Tag>, id: nat, p: Option<string>,
                           parseInt: string -> Option<int>)
    requires StepsNumbered(steps)
    ensures var page := Detail(recipes, ingredients, steps, photos, links, tags, id, p, parseInt);
      page.Shown? ==> forall k :: 0 <= k < |page.steps| ==> page.steps[k].stepNumber == k + 1
  {
    StepsOfNumbered(steps, id);
  }

  /** Asking for k times a recipe's (non-zero) base portions shows it with
      the multiplier k. */
  lemma DetailScaled(recipes: seq<Recipe>, ingredients: seq<Ingredient>, steps: seq<Step>, photos: seq<Photo>,
                     links: seq<RecipeTag>, tags: seq<Tag>, id: nat, p: string, k: int,
                     parseInt: string -> Option<int>)
    requires p != "" && FindRecipe(recipes, id).Some? && FindRecipe(recipes, id).value.basePortions != 0
    requires parseInt(p) == Some(k * FindRecipe(recipes, id).value.basePortions)
    ensures var page := Detail(recipes, ingredients, steps, photos, links, tags, id, Some(p), parseInt);
      page.Shown? && page.portions == k * page.recipe.basePortions && SameValue(page.multiplier, Ratio(k, 1))
  {
    MultiplierOfMultiple(k, FindRecipe(recipes, id).value.basePortions);
  }

  /** Without `p` an existing recipe is always shown, unscaled. */
  lemma DetailDefaultUnscaled(recipes: seq<Recipe>, ingredients: seq<Ingredient>, steps: seq<Step>, photos: seq<Photo>,
                              links: seq<RecipeTag>, tags: seq<Tag>, id: nat, parseInt: string -> Option<int>)
    requires id in RecipeIds(recipes)
    ensures var page := Detail(recipes, ingredients, steps, photos, links, tags, id, None, parseInt);
      page.Shown? && page.portions == page.recipe.basePortions && SameValue(page.multiplier, One)
  {
  }
}
