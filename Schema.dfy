/** The six tables of the recipe database (db_setup.py) as rows, and the
    constraints the schema declares, stated as predicates over the tables:
    AUTOINCREMENT keys, the foreign keys to `recipes` and `tags`, the unique tag
    name, the primary key of `recipe_tags` and the CHECK on `difficulty`. */
module Schema {
  import opened Wrappers

  /** A row of `recipes`. */
  datatype Recipe = Recipe(
    id: nat,
    name: string,
    basePortions: int,
    prepMinutes: int,
    cookMinutes: int,
    difficulty: string)

  /** The columns of an `ingredients` row that come from the form. An absent
      value is SQL NULL. */
  datatype IngredientFields = IngredientFields(
    amount: Option<real>,
    unit: Option<string>,
    name: string,
    altName: Option<string>,
    altAmount: Option<real>,
    altUnit: Option<string>)

  /** A row of `ingredients`. */
  datatype Ingredient = Ingredient(id: nat, recipeId: nat, fields: IngredientFields)

  /** A row of `steps`. */
  datatype Step = Step(id: nat, recipeId: nat, stepNumber: int, description: string)

  /** A row of `tags`. */
  datatype Tag = Tag(id: nat, name: string)

  /** A row of `recipe_tags`. */
  datatype RecipeTag = RecipeTag(recipeId: nat, tagId: nat)

  /** A row of `photos`. */
  datatype Photo = Photo(id: nat, recipeId: nat, filename: string)

  /** The values the CHECK constraint on `recipes.difficulty` admits. */
  const Difficulties: set<string> := {"Einfach", "Mittel", "Schwer"}

  /** The default difficulty. */
  const DefaultDifficulty: string := "Einfach"

  function RecipeIds(recipes: seq<Recipe>): set<nat> {
    set r | r in recipes :: r.id
  }

  function TagIds(tags: seq<Tag>): set<nat> {
    set t | t in tags :: t.id
  }

  /** AUTOINCREMENT keys: increasing in insertion order and below the next key. */
  ghost predicate RecipeKeys(rs: seq<Recipe>, next: nat) {
    (forall i, j :: 0 <= i < j < |rs| ==> rs[i].id < rs[j].id)
    && forall i :: 0 <= i < |rs| ==> rs[i].id < next
  }

  ghost predicate IngredientKeys(rs: seq<Ingredient>, next: nat) {
    (forall i, j :: 0 <= i < j < |rs| ==> rs[i].id < rs[j].id)
    && forall i :: 0 <= i < |rs| ==> rs[i].id < next
  }

  ghost predicate StepKeys(rs: seq<Step>, next: nat) {
    (forall i, j :: 0 <= i < j < |rs| ==> rs[i].id < rs[j].id)
    && forall i :: 0 <= i < |rs| ==> rs[i].id < next
  }

  ghost predicate TagKeys(rs: seq<Tag>, next: nat) {
    (forall i, j :: 0 <= i < j < |rs| ==> rs[i].id < rs[j].id)
    && forall i :: 0 <= i < |rs| ==> rs[i].id < next
  }

  ghost predicate PhotoKeys(rs: seq<Photo>, next: nat) {
    (forall i, j :: 0 <= i < j < |rs| ==> rs[i].id < rs[j].id)
    && forall i :: 0 <= i < |rs| ==> rs[i].id < next
  }

  /** `tags.name` is UNIQUE. */
  ghost predicate TagNamesUnique(tags: seq<Tag>) {
    forall i, j :: 0 <= i < j < |tags| ==> tags[i].name != tags[j].name
  }

  /** The tag table's own constraints. */
  ghost predicate TagTable(tags: seq<Tag>, next: nat) {
    TagKeys(tags, next) && TagNamesUnique(tags)
  }

  /** Two tags with the same name in a table with unique names are one tag. */
  lemma SameNameSameTag(ts: seq<Tag>, a: nat, b: nat, n: string)
    requires TagNamesUnique(ts) && Tag(a, n) in ts && Tag(b, n) in ts
    ensures a == b
  {
    var i :| 0 <= i < |ts| && ts[i] == Tag(a, n);
    var j :| 0 <= j < |ts| && ts[j] == Tag(b, n);
    assert i == j;
  }

  /** Two tags with the same id in a table with increasing keys are one tag. */
  lemma SameIdSameTag(ts: seq<Tag>, next: nat, id: nat, n1: string, n2: string)
    requires TagKeys(ts, next) && Tag(id, n1) in ts && Tag(id, n2) in ts
    ensures n1 == n2
  {
    var i :| 0 <= i < |ts| && ts[i] == Tag(id, n1);
    var j :| 0 <= j < |ts| && ts[j] == Tag(id, n2);
    assert i == j;
  }

  /** PRIMARY KEY(recipe_id, tag_id) of `recipe_tags`. */
  ghost predicate LinksDistinct(links: seq<RecipeTag>) {
    forall i, j :: 0 <= i < j < |links| ==> links[i] != links[j]
  }

  /** Recipe `rid` is linked to a tag named `name`: some `recipe_tags` row
      of `rid` points at a `tags` row of that name. */
  predicate LinkedToTag(links: seq<RecipeTag>, tags: seq<Tag>, rid: nat, name: string) {
    exists l :: l in links && l.recipeId == rid && Tag(l.tagId, name) in tags
  }

  /** The number of steps of recipe `r` in `steps`. */
  function CountFor(steps: seq<Step>, r: nat): nat {
    if steps == [] then 0
    else CountFor(steps[..|steps| - 1], r) + (if steps[|steps| - 1].recipeId == r then 1 else 0)
  }

  lemma {:induction false} CountForAppend(a: seq<Step>, b: seq<Step>, r: nat)
    ensures CountFor(a + b, r) == CountFor(a, r) + CountFor(b, r)
  {
    if b == [] {
      assert a + b == a;
    } else {
      assert (a + b)[..|a + b| - 1] == a + b[..|b| - 1];
      CountForAppend(a, b[..|b| - 1], r);
    }
  }

  /** A recipe with no step rows has the count 0. */
  lemma {:induction false} CountForAbsent(steps: seq<Step>, r: nat)
    requires forall s :: s in steps ==> s.recipeId != r
    ensures CountFor(steps, r) == 0
  {
    if steps != [] {
      assert steps[|steps| - 1] in steps;
      assert forall s :: s in steps[..|steps| - 1] ==> s in steps;
      CountForAbsent(steps[..|steps| - 1], r);
    }
  }

  /** Step numbers run 1, 2, 3, ... per recipe in insertion order: each step's
      number is one more than the number of earlier steps of its recipe. */
  ghost predicate StepsNumbered(steps: seq<Step>) {
    forall i :: 0 <= i < |steps| ==> NumberedAt(steps, i)
  }

  /** The step at position i is numbered one past the earlier steps of its
      recipe. */
  ghost predicate NumberedAt(steps: seq<Step>, i: int)
    requires 0 <= i < |steps|
  {
    steps[i].stepNumber == CountFor(steps[..i], steps[i].recipeId) + 1
  }

  /** A step numbered one past the earlier steps of its recipe keeps the
      numbering, and counts once more for its recipe. */
  lemma StepsNumberedSnoc(steps: seq<Step>, x: Step)
    requires StepsNumbered(steps) && x.stepNumber == CountFor(steps, x.recipeId) + 1
    ensures StepsNumbered(steps + [x])
    ensures forall r :: CountFor(steps + [x], r) == CountFor(steps, r) + (if x.recipeId == r then 1 else 0)
  {
    var t := steps + [x];
    assert t[..|steps|] == steps;
    forall i | 0 <= i < |t| ensures NumberedAt(t, i) {
      if i < |steps| {
        assert NumberedAt(steps, i);
        assert t[..i] == steps[..i];
      }
    }
  }

  /** The steps of recipe `r`, in insertion order. */
  function StepsOf(steps: seq<Step>, r: nat): seq<Step> {
    if steps == [] then []
    else StepsOf(steps[..|steps| - 1], r) + (if steps[|steps| - 1].recipeId == r then [steps[|steps| - 1]] else [])
  }

  /** The steps of `r` are exactly the rows of `steps` that belong to `r`. */
  lemma {:induction false} StepsOfMembers(steps: seq<Step>, r: nat)
    ensures forall x :: x in StepsOf(steps, r) <==> x in steps && x.recipeId == r
    decreases |steps|
  {
    if steps != [] {
      var init := steps[..|steps| - 1];
      StepsOfMembers(init, r);
      assert steps == init + [steps[|steps| - 1]];
    }
  }

  lemma {:induction false} StepsOfLength(steps: seq<Step>, r: nat)
    ensures |StepsOf(steps, r)| == CountFor(steps, r)
  {
    if steps != [] { StepsOfLength(steps[..|steps| - 1], r); }
  }

  /** Under StepsNumbered, the steps of one recipe in table order are numbered
      exactly 1..n, so `ORDER BY step_number` is table order. */
  lemma {:induction false} StepsOfNumbered(steps: seq<Step>, r: nat)
    requires StepsNumbered(steps)
    ensures forall k :: 0 <= k < |StepsOf(steps, r)| ==> StepsOf(steps, r)[k].stepNumber == k + 1
  {
    if steps != [] {
      var init := steps[..|steps| - 1];
      assert StepsNumbered(init) by {
        forall i | 0 <= i < |init| ensures NumberedAt(init, i) {
          assert NumberedAt(steps, i);
          assert init[..i] == steps[..i];
        }
      }
      assert NumberedAt(steps, |steps| - 1);
      StepsOfNumbered(init, r);
      StepsOfLength(init, r);
      assert steps[..|steps| - 1] == init;
    }
  }
}
