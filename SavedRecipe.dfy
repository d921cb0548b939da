/** A saved submission read back: after `rezept_eintrag` saves a recipe,
    `rezept_detail` for the reported id shows exactly the recipe, the
    ingredients, the numbered steps and the tags that were submitted. */
module SavedRecipe {
  import opened Wrappers
  import opened Schema
  import opened Submission
  import opened RecipeStore
  import RecipeDetail

  // ------------------------------------------ the queries on appended rows

  /** A new row under an unused id is the one the id lookup finds. */
  lemma {:induction false} FindNewRecipe(recipes: seq<Recipe>, x: Recipe)
    requires x.id !in RecipeIds(recipes)
    ensures RecipeDetail.FindRecipe(recipes + [x], x.id) == Some(x)
    decreases |recipes|
  {
    if recipes != [] {
      assert recipes[0] in recipes;
      assert (recipes + [x])[1..] == recipes[1..] + [x];
      assert forall y :: y in recipes[1..] ==> y in recipes;
      FindNewRecipe(recipes[1..], x);
    }
  }

  /** Rows that all belong to recipe `id` are all its ingredients. */
  lemma {:induction false} IngredientsOfOwn(rows: seq<Ingredient>, id: nat)
    requires forall g :: g in rows ==> g.recipeId == id
    ensures RecipeDetail.IngredientsOf(rows, id) == rows
    decreases |rows|
  {
    if rows != [] {
      assert rows[0] in rows;
      assert forall g :: g in rows[1..] ==> g in rows;
      IngredientsOfOwn(rows[1..], id);
      assert rows == [rows[0]] + rows[1..];
    }
  }

  /** Ingredients of other recipes in front of them change nothing. */
  lemma {:induction false} IngredientsOfNew(older: seq<Ingredient>, rows: seq<Ingredient>, id: nat)
    requires forall g :: g in older ==> g.recipeId != id
    requires forall g :: g in rows ==> g.recipeId == id
    ensures RecipeDetail.IngredientsOf(older + rows, id) == rows
    decreases |older|
  {
    if older == [] {
      assert older + rows == rows;
      IngredientsOfOwn(rows, id);
    } else {
      assert older[0] in older;
      assert (older + rows)[1..] == older[1..] + rows;
      assert forall g :: g in older[1..] ==> g in older;
      IngredientsOfNew(older[1..], rows, id);
    }
  }

  /** A recipe without step rows has no steps. */
  lemma {:induction false} StepsOfNone(steps: seq<Step>, id: nat)
    requires forall k :: 0 <= k < |steps| ==> steps[k].recipeId != id
    ensures StepsOf(steps, id) == []
    decreases |steps|
  {
    if steps != [] {
      StepsOfNone(steps[..|steps| - 1], id);
    }
  }

  /** One more step row adds that step to its own recipe's steps only. */
  lemma StepsOfSnoc(steps: seq<Step>, x: Step, id: nat)
    ensures StepsOf(steps + [x], id) == StepsOf(steps, id) + (if x.recipeId == id then [x] else [])
  {
    assert (steps + [x])[..|steps|] == steps;
  }

  /** The steps of a recipe in two tables one after the other are its steps
      in the first followed by its steps in the second. */
  lemma {:induction false} StepsOfAppend(a: seq<Step>, b: seq<Step>, id: nat)
    ensures StepsOf(a + b, id) == StepsOf(a, id) + StepsOf(b, id)
    decreases |b|
  {
    if b == [] {
      assert a + b == a;
    } else {
      var init, last := b[..|b| - 1], b[|b| - 1];
      StepsOfAppend(a, init, id);
      assert a + b == (a + init) + [last];
      assert b == init + [last];
      StepsOfSnoc(a + init, last, id);
      StepsOfSnoc(init, last, id);
    }
  }

  /** Rows that all belong to recipe `id` are all its steps. */
  lemma {:induction false} StepsOfOwn(rows: seq<Step>, id: nat)
    requires forall k :: 0 <= k < |rows| ==> rows[k].recipeId == id
    ensures StepsOf(rows, id) == rows
    decreases |rows|
  {
    if rows != [] {
      var init := rows[..|rows| - 1];
      StepsOfOwn(init, id);
      assert rows == init + [rows[|rows| - 1]];
    }
  }

  /** Step rows of recipe `id` behind rows of other recipes are exactly its
      steps. */
  lemma StepsOfNew(older: seq<Step>, rows: seq<Step>, id: nat)
    requires forall k :: 0 <= k < |older| ==> older[k].recipeId != id
    requires forall k :: 0 <= k < |rows| ==> rows[k].recipeId == id
    ensures StepsOf(older + rows, id) == rows
  {
    StepsOfAppend(older, rows, id);
    StepsOfNone(older, id);
    StepsOfOwn(rows, id);
  }

  /** The tag names shown for a new recipe are the names it was linked
      under. */
  lemma TagNamesOfNew(tags: seq<Tag>, next: nat, links: seq<RecipeTag>, id: nat, names: seq<string>)
    requires TagTable(tags, next) && forall l :: l in links ==> l.recipeId != id
    ensures var r := ResolveTags(tags, next, names);
      forall n :: n in RecipeDetail.TagNamesOf(links + LinkRows(id, r.ids), r.tags, id) <==> n in names
  {
    var r := ResolveTags(tags, next, names);
    var rows := LinkRows(id, r.ids);
    ResolveTagsKeepsTable(tags, next, names);
    ResolveTagsLinksNames(tags, next, names);
    forall n ensures n in RecipeDetail.TagNamesOf(links + rows, r.tags, id) <==> n in names {
      if n in RecipeDetail.TagNamesOf(links + rows, r.tags, id) {
        var l :| l in links + rows && l.recipeId == id && Tag(l.tagId, n) in r.tags;
        var k :| 0 <= k < |rows| && rows[k] == l;
        SameIdSameTag(r.tags, r.nextId, l.tagId, n, names[k]);
      }
      if n in names {
        var k :| 0 <= k < |names| && names[k] == n;
        assert rows[k] in links + rows;
      }
    }
  }

  // ------------------------------------------------------------ round trip

  /** The ingredient rows of a new recipe are all the ingredients shown
      for it. */
  lemma NewIngredientsShown(ingredients: seq<Ingredient>, next: nat, recipes: seq<Recipe>, id: nat,
                            fields: seq<IngredientFields>)
    requires IngredientsOk(ingredients, next, recipes) && id !in RecipeIds(recipes)
    ensures RecipeDetail.IngredientsOf(ingredients + IngredientRows(id, next, fields), id) == IngredientRows(id, next, fields)
  {
    IngredientsOfNew(ingredients, IngredientRows(id, next, fields), id);
  }

  /** The step rows of a new recipe are all the steps shown for it. */
  lemma NewStepsShown(steps: seq<Step>, next: nat, recipes: seq<Recipe>, id: nat, texts: seq<string>)
    requires StepsOk(steps, next, recipes) && id !in RecipeIds(recipes)
    ensures StepsOf(steps + StepRows(id, next, texts), id) == StepRows(id, next, texts)
  {
    forall k | 0 <= k < |steps| ensures steps[k].recipeId != id {
      assert steps[k] in steps;
    }
    StepsOfNew(steps, StepRows(id, next, texts), id);
  }

  /** What a saved submission's page shows, given the recipe, ingredient,
      step, photo and tag tables after the save. */
  lemma SavedPage(db: Tables, h: Header, fields: seq<IngredientFields>, texts: seq<string>, names: seq<string>,
                  parseInt: string -> Option<int>)
    requires TablesOk(db)
    ensures var db' := SaveRecipe(db, h, fields, texts, names);
      var id := db.nextRecipe;
      var page := RecipeDetail.Detail(db'.recipes, db'.ingredients, db'.steps, db'.photos, db'.links, db'.tags,
                                      id, None, parseInt);
      page.Shown?
      && page.recipe == Recipe(id, h.name, h.basePortions, h.prepMinutes, h.cookMinutes, h.difficulty)
      && page.ingredients == IngredientRows(id, db.nextIngredient, fields)
      && page.steps == StepRows(id, db.nextStep, texts)
      && (forall n :: n in page.tagNames <==> n in names)
      && page.portions == h.basePortions
  {
    var id := db.nextRecipe;
    var x := Recipe(id, h.name, h.basePortions, h.prepMinutes, h.cookMinutes, h.difficulty);
    assert id !in RecipeIds(db.recipes);
    FindNewRecipe(db.recipes, x);
    NewIngredientsShown(db.ingredients, db.nextIngredient, db.recipes, id, fields);
    NewStepsShown(db.steps, db.nextStep, db.recipes, id, texts);
    TagNamesOfNew(db.tags, db.nextTag, db.links, id, names);
  }

  /** A saved submission reads back: the page of the reported id shows the
      submitted name, numbers (or their defaults) and difficulty, one
      ingredient per filled-in entry before the first gap, the step lines
      numbered from 1, and exactly the listed tags. */
  lemma SubmitThenDetail(db: Tables, form: Form, parseInt: string -> Option<int>, parseFloat: string -> Option<real>)
    requires TablesOk(db)
    ensures var (outcome, db') := SubmitResult(db, form, parseInt, parseFloat);
      outcome.Saved? ==>
        var page := RecipeDetail.Detail(db'.recipes, db'.ingredients, db'.steps, db'.photos, db'.links, db'.tags,
                                        outcome.recipeId, None, parseInt);
        page.Shown?
        && page.recipe == Recipe(outcome.recipeId, SubmittedName(form), IntField(form, "portionen", 1, parseInt).value,
                                 IntField(form, "prep_time", 0, parseInt).value,
                                 IntField(form, "cook_time", 0, parseInt).value, SubmittedDifficulty(form))
        && page.portions == page.recipe.basePortions
        && |page.ingredients| == FirstGap(form)
        && (forall k :: 0 <= k < |page.ingredients| ==>
              page.ingredients[k].fields == ParseIngredient(form, k, parseFloat))
        && |page.steps| == |StepTexts(GetOr(form, Field("steps"), ""))|
        && (forall k :: 0 <= k < |page.steps| ==>
              page.steps[k].stepNumber == k + 1 && page.steps[k].description == StepTexts(GetOr(form, Field("steps"), ""))[k])
        && (forall n :: n in page.tagNames <==> n in TagList(GetOr(form, Field("tags"), "")))
  {
    var header := ParseHeader(form, parseInt);
    var names := TagList(GetOr(form, Field("tags"), ""));
    if header.Ok? && !HasDuplicate(names) {
      SavedPage(db, header.value, ParseIngredients(form, parseFloat), StepTexts(GetOr(form, Field("steps"), "")),
                names, parseInt);
    }
  }
}
