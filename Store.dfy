/** The recipe database as the handlers change and read it: one table per
    field, one AUTOINCREMENT counter per table, and the constraints of the
    schema kept as the invariant Valid(). `Submit` is the POST branch of
    `rezept_eintrag` (one transaction: either every row is written or, when a
    statement fails, none is); `FindRecipes` is the POST branch of
    `was_koche_ich`. */
module RecipeStore {
  import opened Wrappers
  import opened Text
  import opened Schema
  import opened Submission
  import opened Finder

  // The schema's constraints, one predicate per table.

  ghost predicate RecipesOk(recipes: seq<Recipe>, next: nat) {
    RecipeKeys(recipes, next) && forall r :: r in recipes ==> r.difficulty in Difficulties
  }

  ghost predicate IngredientsOk(ingredients: seq<Ingredient>, next: nat, recipes: seq<Recipe>) {
    IngredientKeys(ingredients, next) && forall g :: g in ingredients ==> g.recipeId in RecipeIds(recipes)
  }

  ghost predicate StepsOk(steps: seq<Step>, next: nat, recipes: seq<Recipe>) {
    StepKeys(steps, next) && StepsNumbered(steps) && forall s :: s in steps ==> s.recipeId in RecipeIds(recipes)
  }

  ghost predicate TagsOk(tags: seq<Tag>, next: nat, links: seq<RecipeTag>, recipes: seq<Recipe>) {
    TagTable(tags, next) && LinksDistinct(links)
    && forall l :: l in links ==> l.recipeId in RecipeIds(recipes) && l.tagId in TagIds(tags)
  }

  ghost predicate PhotosOk(photos: seq<Photo>, next: nat, recipes: seq<Recipe>) {
    PhotoKeys(photos, next) && forall p :: p in photos ==> p.recipeId in RecipeIds(recipes)
  }

  /** One more step, numbered one past its recipe's earlier steps, keeps the
      step table valid. */
  lemma StepsOkSnoc(steps: seq<Step>, next: nat, recipes: seq<Recipe>, x: Step, after: seq<Step>)
    requires StepsOk(steps, next, recipes) && x.id == next && x.recipeId in RecipeIds(recipes)
    requires x.stepNumber == CountFor(steps, x.recipeId) + 1
    requires after == steps + [x]
    ensures StepsOk(after, next + 1, recipes)
    ensures CountFor(after, x.recipeId) == CountFor(steps, x.recipeId) + 1
  {
    StepsNumberedSnoc(steps, x);
  }

  /** The first n step rows are the first n - 1 and one more. */
  lemma StepRowsAppend(steps: seq<Step>, id: nat, next: nat, texts: seq<string>, n: nat)
    requires 0 < n <= |texts|
    ensures steps + StepRows(id, next, texts[..n])
      == (steps + StepRows(id, next, texts[..n - 1])) + [Step(next + n - 1, id, n, texts[n - 1])]
  {
    StepRowsSnoc(id, next, texts, n - 1);
  }

  /** The ingredient rows of a new recipe keep the ingredient table valid. */
  lemma IngredientsOkRows(ingredients: seq<Ingredient>, next: nat, recipes: seq<Recipe>, id: nat, fields: seq<IngredientFields>)
    requires IngredientsOk(ingredients, next, recipes) && id in RecipeIds(recipes)
    ensures IngredientsOk(ingredients + IngredientRows(id, next, fields), next + |fields|, recipes)
  {
    var all := ingredients + IngredientRows(id, next, fields);
    assert forall i :: |ingredients| <= i < |all| ==> all[i] == Ingredient(next + i - |ingredients|, id, fields[i - |ingredients|]);
    assert forall g :: g in all ==> g in ingredients || g.recipeId == id;
  }

  /** The n-th step row of a new recipe keeps the step table valid. */
  lemma StepsOkStep(steps: seq<Step>, next: nat, recipes: seq<Recipe>, id: nat, texts: seq<string>, n: nat,
                    prefix: seq<Step>)
    requires 0 < n <= |texts| && id in RecipeIds(recipes)
    requires prefix == steps + StepRows(id, next, texts[..n - 1])
    requires StepsOk(prefix, next + n - 1, recipes) && CountFor(prefix, id) == n - 1
    ensures StepsOk(steps + StepRows(id, next, texts[..n]), next + n, recipes)
    ensures CountFor(steps + StepRows(id, next, texts[..n]), id) == n
  {
    StepRowsAppend(steps, id, next, texts, n);
    StepsOkSnoc(prefix, next + n - 1, recipes, Step(next + n - 1, id, n, texts[n - 1]), steps + StepRows(id, next, texts[..n]));
  }

  /** The first n step rows of a new recipe keep the step table valid. */
  lemma {:induction false} StepsOkPrefix(steps: seq<Step>, next: nat, recipes: seq<Recipe>, id: nat, texts: seq<string>, n: nat)
    requires StepsOk(steps, next, recipes) && id in RecipeIds(recipes) && CountFor(steps, id) == 0
    requires n <= |texts|
    ensures StepsOk(steps + StepRows(id, next, texts[..n]), next + n, recipes)
    ensures CountFor(steps + StepRows(id, next, texts[..n]), id) == n
    decreases n
  {
    if n == 0 {
      assert steps + StepRows(id, next, texts[..0]) == steps;
    } else {
      StepsOkPrefix(steps, next, recipes, id, texts, n - 1);
      StepsOkStep(steps, next, recipes, id, texts, n, steps + StepRows(id, next, texts[..n - 1]));
    }
  }

  /** The step rows of a new recipe keep the step table valid. */
  lemma StepsOkRows(steps: seq<Step>, next: nat, recipes: seq<Recipe>, id: nat, texts: seq<string>)
    requires StepsOk(steps, next, recipes) && id in RecipeIds(recipes) && CountFor(steps, id) == 0
    ensures StepsOk(steps + StepRows(id, next, texts), next + |texts|, recipes)
    ensures CountFor(steps + StepRows(id, next, texts), id) == |texts|
  {
    StepsOkPrefix(steps, next, recipes, id, texts, |texts|);
    assert texts[..|texts|] == texts;
  }

  /** One get-or-create of the tag loop resolves the next listed name as
      ResolveTags does. */
  lemma TagResolveStep(tags: seq<Tag>, next: nat, names: seq<string>, k: nat,
                       current: seq<Tag>, currentNext: nat, tagId: nat, grown: seq<Tag>, grownNext: nat)
    requires k < |names|
    requires current == ResolveTags(tags, next, names[..k]).tags && currentNext == ResolveTags(tags, next, names[..k]).nextId
    requires TagIdByName(current, names[k]).Some? ==>
      tagId == TagIdByName(current, names[k]).value && grown == current && grownNext == currentNext
    requires TagIdByName(current, names[k]).None? ==>
      tagId == currentNext && grown == current + [Tag(currentNext, names[k])] && grownNext == currentNext + 1
    ensures var r := ResolveTags(tags, next, names[..k + 1]);
      grown == r.tags && grownNext == r.nextId && tagId == r.ids[k]
  {
    ResolveTagsStep(tags, next, names, k);
  }

  /** One more listed tag of a new recipe: its link extends the links of the
      shorter list, and it is already among them exactly when the longer list
      has a duplicate. */
  lemma TagLinkStep(tags: seq<Tag>, next: nat, links: seq<RecipeTag>, names: seq<string>, k: nat, id: nat,
                    current: seq<RecipeTag>, tagId: nat)
    requires TagTable(tags, next) && k < |names| && !HasDuplicate(names[..k])
    requires forall l :: l in links ==> l.recipeId != id
    requires current == links + LinkRows(id, ResolveTags(tags, next, names[..k]).ids)
    requires tagId == ResolveTags(tags, next, names[..k + 1]).ids[k]
    ensures RecipeTag(id, tagId) in current <==> HasDuplicate(names[..k + 1])
    ensures current + [RecipeTag(id, tagId)] == links + LinkRows(id, ResolveTags(tags, next, names[..k + 1]).ids)
  {
    var before := ResolveTags(tags, next, names[..k]);
    var after := ResolveTags(tags, next, names[..k + 1]);
    ResolveTagsStep(tags, next, names, k);
    assert after.ids == before.ids + [tagId];
    assert after.ids[..k] == before.ids;
    ResolveTagsRepeatedId(tags, next, names, k);
    HasDuplicateSnoc(names, k);
    LinkRowsMember(id, before.ids, tagId);
    LinkRowsSnoc(id, before.ids, tagId);
    assert RecipeTag(id, tagId) !in links;
    assert links + (LinkRows(id, before.ids) + [RecipeTag(id, tagId)]) == current + [RecipeTag(id, tagId)];
  }

  /** The links of a new recipe to distinct tags are distinct from each
      other and from every older link. */
  lemma LinksDistinctAppend(links: seq<RecipeTag>, id: nat, ids: seq<nat>)
    requires LinksDistinct(links) && forall l :: l in links ==> l.recipeId != id
    requires forall k, m :: 0 <= k < m < |ids| ==> ids[k] != ids[m]
    ensures LinksDistinct(links + LinkRows(id, ids))
  {
    var rows := LinkRows(id, ids);
    var all := links + rows;
    forall i, j | 0 <= i < j < |all| ensures all[i] != all[j] {
      if j >= |links| {
        assert all[j] == rows[j - |links|];
        if i < |links| { assert all[i] in links; }
      }
    }
  }

  /** Every link, old or new, still points at a tag of the grown table. */
  lemma ResolvedLinksKnown(tags: seq<Tag>, next: nat, links: seq<RecipeTag>, id: nat, names: seq<string>)
    requires forall l :: l in links ==> l.tagId in TagIds(tags)
    ensures var r := ResolveTags(tags, next, names);
      forall l :: l in links + LinkRows(id, r.ids) ==> l.tagId in TagIds(r.tags)
  {
    var r := ResolveTags(tags, next, names);
    ResolveTagsKeepsOld(tags, next, names);
    ResolveTagsLinksNames(tags, next, names);
    var rows := LinkRows(id, r.ids);
    forall l | l in links + rows ensures l.tagId in TagIds(r.tags) {
      if l in links {
        var t :| t in tags && t.id == l.tagId;
        assert t in r.tags;
      } else {
        var k :| 0 <= k < |rows| && rows[k] == l;
        assert Tag(r.ids[k], names[k]) in r.tags;
      }
    }
  }

  /** Distinct listed names resolve to distinct tag ids. */
  lemma ResolvedIdsDistinct(tags: seq<Tag>, next: nat, names: seq<string>)
    requires TagTable(tags, next) && !HasDuplicate(names)
    ensures var r := ResolveTags(tags, next, names);
      forall k, m :: 0 <= k < m < |r.ids| ==> r.ids[k] != r.ids[m]
  {
    ResolveTagsIdsMatchNames(tags, next, names);
  }

  /** Links of the new recipe to an existing recipe keep every link's recipe
      in the recipe table. */
  lemma LinkRowsOfRecipe(links: seq<RecipeTag>, recipes: seq<Recipe>, id: nat, ids: seq<nat>)
    requires id in RecipeIds(recipes) && forall l :: l in links ==> l.recipeId in RecipeIds(recipes)
    ensures forall l :: l in links + LinkRows(id, ids) ==> l.recipeId in RecipeIds(recipes)
  {
    var rows := LinkRows(id, ids);
    assert forall l :: l in rows ==> l.recipeId == id;
  }

  /** The tag rows and links of a new recipe, resolved from a list without
      duplicates, keep the tag tables valid. */
  lemma TagsOkResolved(tags: seq<Tag>, next: nat, links: seq<RecipeTag>, recipes: seq<Recipe>, id: nat, names: seq<string>)
    requires TagsOk(tags, next, links, recipes) && id in RecipeIds(recipes)
    requires (forall l :: l in links ==> l.recipeId != id) && !HasDuplicate(names)
    ensures var r := ResolveTags(tags, next, names);
      TagsOk(r.tags, r.nextId, links + LinkRows(id, r.ids), recipes)
  {
    var r := ResolveTags(tags, next, names);
    ResolveTagsKeepsTable(tags, next, names);
    ResolvedIdsDistinct(tags, next, names);
    ResolvedLinksKnown(tags, next, links, id, names);
    LinksDistinctAppend(links, id, r.ids);
    LinkRowsOfRecipe(links, recipes, id, r.ids);
  }

  // ----------------------------------------------------------- the tables

  /** The whole database: every table and every AUTOINCREMENT counter. */
  datatype Tables = Tables(
    recipes: seq<Recipe>, ingredients: seq<Ingredient>, steps: seq<Step>, tags: seq<Tag>,
    links: seq<RecipeTag>, photos: seq<Photo>,
    nextRecipe: nat, nextIngredient: nat, nextStep: nat, nextTag: nat, nextPhoto: nat)

  /** A fresh database: empty tables, every counter at 1. */
  const EmptyTables: Tables := Tables([], [], [], [], [], [], 1, 1, 1, 1, 1)

  /** Every constraint of the schema holds. */
  ghost predicate TablesOk(db: Tables) {
    RecipesOk(db.recipes, db.nextRecipe)
    && IngredientsOk(db.ingredients, db.nextIngredient, db.recipes)
    && StepsOk(db.steps, db.nextStep, db.recipes)
    && TagsOk(db.tags, db.nextTag, db.links, db.recipes)
    && PhotosOk(db.photos, db.nextPhoto, db.recipes)
  }

  lemma EmptyTablesOk()
    ensures TablesOk(EmptyTables)
  {
  }

  /** The rows one saved submission adds: the recipe under the next key, its
      ingredient rows, its numbered steps, the tags created for it and its
      links. */
  function SaveRecipe(db: Tables, h: Header, fields: seq<IngredientFields>, texts: seq<string>, names: seq<string>): (r: Tables)
    ensures |r.recipes| == |db.recipes| + 1 && r.nextRecipe == db.nextRecipe + 1
    ensures |db.ingredients| <= |r.ingredients| && |db.steps| <= |r.steps|
    ensures |db.tags| <= |r.tags| && |db.links| <= |r.links|
    ensures r.recipes[..|db.recipes|] == db.recipes && r.ingredients[..|db.ingredients|] == db.ingredients
    ensures r.steps[..|db.steps|] == db.steps && r.tags[..|db.tags|] == db.tags && r.links[..|db.links|] == db.links
    ensures r.photos == db.photos && r.nextPhoto == db.nextPhoto
    ensures r.recipes[|db.recipes|] == Recipe(db.nextRecipe, h.name, h.basePortions, h.prepMinutes, h.cookMinutes, h.difficulty)
    ensures r.ingredients[|db.ingredients|..] == IngredientRows(db.nextRecipe, db.nextIngredient, fields)
    ensures r.steps[|db.steps|..] == StepRows(db.nextRecipe, db.nextStep, texts)
    ensures r.links[|db.links|..] == LinkRows(db.nextRecipe, ResolveTags(db.tags, db.nextTag, names).ids)
    ensures r.tags == ResolveTags(db.tags, db.nextTag, names).tags
  {
    var id := db.nextRecipe;
    var r := ResolveTags(db.tags, db.nextTag, names);
    db.(recipes := db.recipes + [Recipe(id, h.name, h.basePortions, h.prepMinutes, h.cookMinutes, h.difficulty)],
        nextRecipe := id + 1,
        ingredients := db.ingredients + IngredientRows(id, db.nextIngredient, fields),
        nextIngredient := db.nextIngredient + |fields|,
        steps := db.steps + StepRows(id, db.nextStep, texts),
        nextStep := db.nextStep + |texts|,
        tags := r.tags, nextTag := r.nextId,
        links := db.links + LinkRows(id, r.ids))
  }

  /** `rezept_eintrag`, POST, on the database `db`: the outcome and the
      database after the transaction. Everything is written or, when a
      check or a statement fails, nothing is. */
  function SubmitResult(db: Tables, form: Form, parseInt: string -> Option<int>,
                        parseFloat: string -> Option<real>): (r: (Outcome, Tables))
    ensures !r.0.Saved? ==> r.1 == db
    ensures r.0.Saved? ==>
      r.0.recipeId == db.nextRecipe && |r.1.recipes| == |db.recipes| + 1
      && r.1.recipes[..|db.recipes|] == db.recipes
      && r.1.recipes[|db.recipes|].id == db.nextRecipe && r.1.recipes[|db.recipes|].name == SubmittedName(form)
  {
    match ParseHeader(form, parseInt)
    case Err(e) => (e, db)
    case Ok(h) =>
      var names := TagList(GetOr(form, Field("tags"), ""));
      if HasDuplicate(names) then (Failed(DuplicateTagLink), db)
      else (Saved(db.nextRecipe),
            SaveRecipe(db, h, ParseIngredients(form, parseFloat), StepTexts(GetOr(form, Field("steps"), "")), names))
  }

  /** A new recipe row under the next key adds exactly that key. */
  lemma RecipeIdsSnoc(recipes: seq<Recipe>, next: nat, x: Recipe)
    requires RecipesOk(recipes, next) && x.id == next && x.difficulty in Difficulties
    ensures RecipesOk(recipes + [x], next + 1)
    ensures RecipeIds(recipes + [x]) == RecipeIds(recipes) + {next}
    ensures next !in RecipeIds(recipes)
  {
    assert forall y :: y in recipes + [x] <==> y in recipes || y == x;
  }

  /** The ingredient and step rows of a new recipe keep their tables valid. */
  lemma SaveRowsOk(db: Tables, h: Header, fields: seq<IngredientFields>, texts: seq<string>, names: seq<string>)
    requires TablesOk(db) && h.difficulty in Difficulties
    ensures var db' := SaveRecipe(db, h, fields, texts, names);
      RecipesOk(db'.recipes, db'.nextRecipe)
      && IngredientsOk(db'.ingredients, db'.nextIngredient, db'.recipes)
      && StepsOk(db'.steps, db'.nextStep, db'.recipes)
      && PhotosOk(db'.photos, db'.nextPhoto, db'.recipes)
  {
    var id := db.nextRecipe;
    var recipes' := SaveRecipe(db, h, fields, texts, names).recipes;
    RecipeIdsSnoc(db.recipes, id, Recipe(id, h.name, h.basePortions, h.prepMinutes, h.cookMinutes, h.difficulty));
    assert IngredientsOk(db.ingredients, db.nextIngredient, recipes');
    IngredientsOkRows(db.ingredients, db.nextIngredient, recipes', id, fields);
    assert StepsOk(db.steps, db.nextStep, recipes');
    CountForAbsent(db.steps, id);
    StepsOkRows(db.steps, db.nextStep, recipes', id, texts);
  }

  /** The tags and links of a new recipe keep their tables valid. */
  lemma SaveTagsOk(db: Tables, h: Header, fields: seq<IngredientFields>, texts: seq<string>, names: seq<string>)
    requires TablesOk(db) && h.difficulty in Difficulties && !HasDuplicate(names)
    ensures var db' := SaveRecipe(db, h, fields, texts, names);
      TagsOk(db'.tags, db'.nextTag, db'.links, db'.recipes)
  {
    var id := db.nextRecipe;
    var recipes' := SaveRecipe(db, h, fields, texts, names).recipes;
    RecipeIdsSnoc(db.recipes, id, Recipe(id, h.name, h.basePortions, h.prepMinutes, h.cookMinutes, h.difficulty));
    assert TagsOk(db.tags, db.nextTag, db.links, recipes');
    TagsOkResolved(db.tags, db.nextTag, db.links, recipes', id, names);
  }

  /** A submission keeps every constraint of the schema. */
  lemma SubmitKeepsTables(db: Tables, form: Form, parseInt: string -> Option<int>, parseFloat: string -> Option<real>)
    requires TablesOk(db)
    ensures TablesOk(SubmitResult(db, form, parseInt, parseFloat).1)
  {
    var header := ParseHeader(form, parseInt);
    var names := TagList(GetOr(form, Field("tags"), ""));
    if header.Ok? && !HasDuplicate(names) {
      var fields, texts := ParseIngredients(form, parseFloat), StepTexts(GetOr(form, Field("steps"), ""));
      SaveRowsOk(db, header.value, fields, texts, names);
      SaveTagsOk(db, header.value, fields, texts, names);
    }
  }

  /** What a submission reports: the first failed check of the form, a
      repeated tag, or the key of the saved recipe; and it writes nothing
      unless it saves. */
  lemma SubmitOutcome(db: Tables, form: Form, parseInt: string -> Option<int>, parseFloat: string -> Option<real>)
    ensures var (outcome, db') := SubmitResult(db, form, parseInt, parseFloat);
      (outcome == NameMissing <==> SubmittedName(form) == [])
      && (outcome == Failed(NotAnInteger) <==> SubmittedName(form) != [] && NumbersFail(form, parseInt))
      && (outcome == Failed(DifficultyNotAllowed) <==>
            SubmittedName(form) != [] && !NumbersFail(form, parseInt) && SubmittedDifficulty(form) !in Difficulties)
      && (outcome == Failed(DuplicateTagLink) <==>
            ParseHeader(form, parseInt).Ok? && HasDuplicate(TagList(GetOr(form, Field("tags"), ""))))
      && (outcome.Saved? ==> outcome.recipeId == db.nextRecipe)
      && (!outcome.Saved? ==> db' == db)
  {
  }

  /** The rows of `recipes` whose id is in `ids`, in table order. */
  function RecipesWithIds(recipes: seq<Recipe>, ids: set<nat>): (r: seq<Recipe>)
    ensures forall x :: x in r <==> x in recipes && x.id in ids
  {
    if recipes == [] then []
    else
      assert forall x :: x in recipes <==> x == recipes[0] || x in recipes[1..];
      (if recipes[0].id in ids then [recipes[0]] else []) + RecipesWithIds(recipes[1..], ids)
  }

  /** The selection keeps increasing keys, so no row is selected twice. */
  lemma {:induction false} RecipesWithIdsIncreasing(recipes: seq<Recipe>, next: nat, ids: set<nat>)
    requires RecipeKeys(recipes, next)
    ensures RecipeKeys(RecipesWithIds(recipes, ids), next)
  {
    if recipes != [] {
      var rest := recipes[1..];
      assert RecipeKeys(rest, next);
      RecipesWithIdsIncreasing(rest, next, ids);
      var tail := RecipesWithIds(rest, ids);
      if recipes[0].id in ids {
        forall j | 0 <= j < |tail| ensures recipes[0].id < tail[j].id {
          assert tail[j] in rest;
          var k :| 0 <= k < |rest| && rest[k] == tail[j];
          assert recipes[k + 1] == tail[j];
        }
        ConsKeys(recipes[0], tail, next);
      }
    }
  }

  /** A smaller key in front keeps the keys increasing. */
  lemma ConsKeys(x: Recipe, rs: seq<Recipe>, next: nat)
    requires RecipeKeys(rs, next) && x.id < next
    requires forall j :: 0 <= j < |rs| ==> x.id < rs[j].id
    ensures RecipeKeys([x] + rs, next)
  {
    var c := [x] + rs;
    forall i, j | 0 <= i < j < |c| ensures c[i].id < c[j].id {
      if i > 0 {
        assert c[i] == rs[i - 1] && c[j] == rs[j - 1];
      } else {
        assert c[j] == rs[j - 1];
      }
    }
  }

  lemma {:induction false} NoRecipeWithId(recipes: seq<Recipe>, id: nat)
    requires forall k :: 0 <= k < |recipes| ==> recipes[k].id != id
    ensures RecipesWithIds(recipes, {id}) == []
  {
    if recipes != [] {
      NoRecipeWithId(recipes[1..], id);
    }
  }

  /** With increasing keys an existing id selects exactly one row. */
  lemma {:induction false} OneRecipeWithId(recipes: seq<Recipe>, next: nat, id: nat)
    requires RecipeKeys(recipes, next) && id in RecipeIds(recipes)
    ensures |RecipesWithIds(recipes, {id})| == 1
  {
    var rest := recipes[1..];
    assert RecipeKeys(rest, next);
    assert forall x :: x in recipes <==> x == recipes[0] || x in rest;
    if recipes[0].id == id {
      NoRecipeWithId(rest, id);
    } else {
      OneRecipeWithId(rest, next, id);
    }
  }

  // ------------------------------------------------- the inserting loops

  /** Appending the row of entry i to a table that holds the rows of the
      entries before it gives the rows of entries 0..i. */
  lemma AppendIngredientRow(table: seq<Ingredient>, id: nat, next: nat, fields: seq<IngredientFields>, i: nat,
                            current: seq<Ingredient>, key: nat)
    requires i < |fields| && current == table + IngredientRows(id, next, fields[..i]) && key == next + i
    ensures current + [Ingredient(key, id, fields[i])] == table + IngredientRows(id, next, fields[..i + 1])
  {
    IngredientRowsSnoc(id, next, fields, i);
    assert table + (IngredientRows(id, next, fields[..i]) + [Ingredient(key, id, fields[i])])
      == (table + IngredientRows(id, next, fields[..i])) + [Ingredient(key, id, fields[i])];
  }

  /** One turn of the ingredient loop at an index before the first gap adds
      the row of that index under the next key. */
  lemma IngredientLoopStep(form: Form, parseFloat: string -> Option<real>, table: seq<Ingredient>, id: nat, next: nat,
                           i: nat, current: seq<Ingredient>, key: nat)
    requires HasIngredient(form, i) && GapFrom(form, i) == FirstGap(form)
    requires i <= |ParseIngredients(form, parseFloat)|
    requires current == table + IngredientRows(id, next, ParseIngredients(form, parseFloat)[..i]) && key == next + i
    ensures GapFrom(form, i + 1) == FirstGap(form) && i + 1 <= |ParseIngredients(form, parseFloat)|
    ensures current + [Ingredient(key, id, ParseIngredient(form, i, parseFloat))]
      == table + IngredientRows(id, next, ParseIngredients(form, parseFloat)[..i + 1])
  {
    var rows := ParseIngredients(form, parseFloat);
    assert GapFrom(form, i) == GapFrom(form, i + 1);
    AppendIngredientRow(table, id, next, rows, i, current, key);
  }

  /** The ingredient loop breaks exactly at the first gap, having added every
      row. */
  lemma IngredientLoopEnd(form: Form, parseFloat: string -> Option<real>, i: nat)
    requires !HasIngredient(form, i) && GapFrom(form, i) == FirstGap(form)
    ensures ParseIngredients(form, parseFloat)[..i] == ParseIngredients(form, parseFloat)
  {
  }

  /** One turn of the ingredient loop: the row of index `i` under the next
      key. */
  method InsertIngredientRow(form: Form, parseFloat: string -> Option<real>, table: seq<Ingredient>, id: nat, next: nat,
                             i: nat, current: seq<Ingredient>, key: nat)
    returns (current': seq<Ingredient>, key': nat)
    requires HasIngredient(form, i) && GapFrom(form, i) == FirstGap(form)
    requires i <= |ParseIngredients(form, parseFloat)|
    requires current == table + IngredientRows(id, next, ParseIngredients(form, parseFloat)[..i]) && key == next + i
    ensures GapFrom(form, i + 1) == FirstGap(form) && i + 1 <= |ParseIngredients(form, parseFloat)|
    ensures current' == table + IngredientRows(id, next, ParseIngredients(form, parseFloat)[..i + 1])
    ensures key' == key + 1
  {
    IngredientLoopStep(form, parseFloat, table, id, next, i, current, key);
    current' := current + [Ingredient(key, id, ParseIngredient(form, i, parseFloat))];
    key' := key + 1;
  }

  /** The `while True` ingredient loop: one row per index until the first
      missing or empty `name_<i>`, appended to the ingredient table under
      consecutive keys from `next`. */
  method InsertIngredients(table: seq<Ingredient>, next: nat, form: Form, parseFloat: string -> Option<real>, id: nat)
    returns (table': seq<Ingredient>, next': nat)
    ensures table' == table + IngredientRows(id, next, ParseIngredients(form, parseFloat))
    ensures next' == next + |ParseIngredients(form, parseFloat)|
  {
    ghost var rows := ParseIngredients(form, parseFloat);
    table', next' := table, next;
    var i: nat := 0;
    while true
      invariant GapFrom(form, i) == FirstGap(form)
      invariant table' == table + IngredientRows(id, next, rows[..i])
      invariant next' == next + i
      decreases |rows| - i
    {
      if !HasIngredient(form, i) {
        break;
      }
      table', next' := InsertIngredientRow(form, parseFloat, table, id, next, i, table', next');
      i := i + 1;
    }
    IngredientLoopEnd(form, parseFloat, i);
  }

  /** The step loop: the non-blank stripped lines of the step text, numbered
      from 1, appended to the step table under consecutive keys from `next`. */
  method InsertSteps(table: seq<Step>, next: nat, raw: string, id: nat) returns (table': seq<Step>, next': nat)
    ensures table' == table + StepRows(id, next, StepTexts(raw))
    ensures next' == next + |StepTexts(raw)|
  {
    table', next' := table, next;
    var stepsText := Strip(raw);
    if stepsText != [] {
      var stepsList := NonBlankStripped(Split(stepsText, '\n'));
      for k := 0 to |stepsList|
        invariant table' == table + StepRows(id, next, stepsList[..k])
        invariant next' == next + k
      {
        StepRowsSnoc(id, next, stepsList, k);
        table' := table' + [Step(next', id, k + 1, stepsList[k])];
        next' := next' + 1;
      }
      assert stepsList[..|stepsList|] == stepsList;
    } else {
      assert StepRows(id, next, []) == [];
      assert table + [] == table;
    }
  }

  /** Get-or-create: the id of the tag with that name, or a new tag row
      under the next key when there is none. */
  method GetOrCreateTag(tags: seq<Tag>, next: nat, name: string) returns (id: nat, tags': seq<Tag>, next': nat)
    ensures TagIdByName(tags, name).Some? ==> id == TagIdByName(tags, name).value && tags' == tags && next' == next
    ensures TagIdByName(tags, name).None? ==> id == next && tags' == tags + [Tag(next, name)] && next' == next + 1
    ensures Tag(id, name) in tags'
  {
    var row := TagIdByName(tags, name);
    if row.Some? {
      return row.value, tags, next;
    }
    return next, tags + [Tag(next, name)], next + 1;
  }

  /** The tag loop: get-or-create each listed name, then link it to the
      recipe. A second link with the same key breaks the primary key of
      `recipe_tags`; the loop then stops and reports it. */
  method InsertTags(tags: seq<Tag>, nextTag: nat, links: seq<RecipeTag>, names: seq<string>, id: nat)
    returns (ok: bool, tags': seq<Tag>, nextTag': nat, links': seq<RecipeTag>)
    requires TagTable(tags, nextTag) && forall l :: l in links ==> l.recipeId != id
    ensures ok <==> !HasDuplicate(names)
    ensures ok ==> var r := ResolveTags(tags, nextTag, names);
      tags' == r.tags && nextTag' == r.nextId && links' == links + LinkRows(id, r.ids)
  {
    tags', nextTag', links' := tags, nextTag, links;
    for k := 0 to |names|
      invariant tags' == ResolveTags(tags, nextTag, names[..k]).tags
      invariant nextTag' == ResolveTags(tags, nextTag, names[..k]).nextId
      invariant links' == links + LinkRows(id, ResolveTags(tags, nextTag, names[..k]).ids)
      invariant !HasDuplicate(names[..k])
    {
      var tagId, grown, grownNext := GetOrCreateTag(tags', nextTag', names[k]);
      TagResolveStep(tags, nextTag, names, k, tags', nextTag', tagId, grown, grownNext);
      TagLinkStep(tags, nextTag, links, names, k, id, links', tagId);
      tags', nextTag' := grown, grownNext;
      if RecipeTag(id, tagId) in links' {
        HasDuplicatePrefix(names, k + 1);
        return false, tags', nextTag', links';
      }
      links' := links' + [RecipeTag(id, tagId)];
    }
    assert names[..|names|] == names;
    ok := true;
  }

  /** The statements of one submission after the header checks, on the
      tables as they were: the recipe row under the next key, the ingredient
      loop, the step loop and the tag loop. `ok` is false when the tag loop
      broke the primary key of `recipe_tags`; `db'` is what a commit writes. */
  method WriteRecipe(db: Tables, h: Header, form: Form, parseFloat: string -> Option<real>) returns (ok: bool, db': Tables)
    requires TablesOk(db)
    ensures ok <==> !HasDuplicate(TagList(GetOr(form, Field("tags"), "")))
    ensures ok ==> db' == SaveRecipe(db, h, ParseIngredients(form, parseFloat), StepTexts(GetOr(form, Field("steps"), "")),
                                     TagList(GetOr(form, Field("tags"), "")))
  {
    var id := db.nextRecipe;
    var recipes := db.recipes + [Recipe(id, h.name, h.basePortions, h.prepMinutes, h.cookMinutes, h.difficulty)];
    var ingredients, nextIngredient := InsertIngredients(db.ingredients, db.nextIngredient, form, parseFloat, id);
    var steps, nextStep := InsertSteps(db.steps, db.nextStep, GetOr(form, Field("steps"), ""), id);
    var names := TagList(GetOr(form, Field("tags"), ""));
    assert id !in RecipeIds(db.recipes);
    var tags, nextTag, links;
    ok, tags, nextTag, links := InsertTags(db.tags, db.nextTag, db.links, names, id);
    db' := db.(recipes := recipes, nextRecipe := id + 1, ingredients := ingredients, nextIngredient := nextIngredient,
               steps := steps, nextStep := nextStep, tags := tags, nextTag := nextTag, links := links);
  }

  /** The open database connection: its tables change in place. */
  class Store {
    var db: Tables

    ghost predicate Valid()
      reads this
    {
      TablesOk(db)
    }

    /** A fresh database. */
    constructor ()
      ensures Valid() && db == EmptyTables
    {
      db := EmptyTables;
      EmptyTablesOk();
    }

    /** `rezept_eintrag`, POST: the header checks, then the recipe row, the
        ingredient rows, the steps and the tags, written into a transaction
        that is committed at the end and discarded when a statement fails. */
    method Submit(form: Form, parseInt: string -> Option<int>, parseFloat: string -> Option<real>) returns (outcome: Outcome)
      requires Valid()
      modifies this
      ensures (outcome, db) == SubmitResult(old(db), form, parseInt, parseFloat)
      ensures Valid()
    {
      var header := ParseHeader(form, parseInt);
      if header.Err? {
        return header.error;
      }
      var id := db.nextRecipe;
      var ok, committed := WriteRecipe(db, header.value, form, parseFloat);
      if !ok {
        return Failed(DuplicateTagLink);
      }
      SubmitKeepsTables(db, form, parseInt, parseFloat);
      db := committed;
      return Saved(id);
    }

    /** Whether the form asks for a random pick (the `random` field is
        present and not empty). */
    function RandomRequested(form: Form): (b: bool)
      ensures b <==> "random" in NamesSent(form)
    {
      GetOr(form, Field("random"), "") != ""
    }

    /** The candidate ids for the finder form, over the current tables. */
    function CandidatesFor(form: Form): (ids: Option<set<nat>>)
      reads this
      ensures ids.None? <==> Strip(GetOr(form, Field("ingredients"), "")) == [] && Strip(GetOr(form, Field("tag"), "")) == []
    {
      Candidates(db.ingredients, db.links, db.tags,
                 Strip(GetOr(form, Field("ingredients"), "")), Strip(GetOr(form, Field("tag"), "")))
    }

    /** `was_koche_ich`, POST. The random choices are nondeterministic. */
    method FindRecipes(form: Form) returns (results: seq<Recipe>)
      requires Valid()
      ensures !RandomRequested(form) ==> forall x :: x in results <==>
        x in db.recipes && CandidatesFor(form).Some? && x.id in CandidatesFor(form).value
      ensures !RandomRequested(form) ==> forall i, j :: 0 <= i < j < |results| ==> results[i].id < results[j].id
      ensures RandomRequested(form) && CandidatesFor(form).Some? && CandidatesFor(form).value != {} ==>
        |results| == 1 && results[0] in db.recipes && results[0].id in CandidatesFor(form).value
      ensures RandomRequested(form) && (CandidatesFor(form).None? || CandidatesFor(form).value == {}) ==>
        |results| == (if db.recipes == [] then 0 else 1) && forall x :: x in results ==> x in db.recipes
    {
      var ingredientInput := Strip(GetOr(form, Field("ingredients"), ""));
      var tagInput := Strip(GetOr(form, Field("tag"), ""));
      var randomChoice := GetOr(form, Field("random"), "") != "";
      var recipeIds: Option<set<nat>> := None;
      if ingredientInput != [] {
        var searchIngs := SearchTerms(ingredientInput);
        recipeIds := Some(IngredientHits(db.ingredients, searchIngs));
      }
      if tagInput != [] {
        var tagIdsSet := TagHits(db.links, db.tags, tagInput);
        recipeIds := if recipeIds.None? then Some(tagIdsSet) else Some(recipeIds.value * tagIdsSet);
      }
      assert recipeIds == CandidatesFor(form);
      if randomChoice {
        if recipeIds.Some? && recipeIds.value != {} {
          var pick :| pick in recipeIds.value;
          assert pick in RecipeIds(db.recipes);
          OneRecipeWithId(db.recipes, db.nextRecipe, pick);
          results := RecipesWithIds(db.recipes, {pick});
          assert results[0] in results;
        } else if db.recipes == [] {
          results := [];
        } else {
          var k :| 0 <= k < |db.recipes|;
          results := [db.recipes[k]];
        }
      } else if recipeIds.Some? && recipeIds.value != {} {
        results := RecipesWithIds(db.recipes, recipeIds.value);
        RecipesWithIdsIncreasing(db.recipes, db.nextRecipe, recipeIds.value);
      } else {
        results := [];
      }
    }
  }
}
