/** What the recipe form (`rezept_eintrag`, POST) makes of its fields before
    and while writing rows: the name check, the defaulted numeric fields, the
    index-suffixed ingredient rows read until the first gap, the steps split
    from newline text, the comma-separated tag list, and the get-or-create rule
    that turns tag names into tag ids. */
module Submission {
  import opened Wrappers
  import opened Text
  import opened Schema

  /** A field name of the submitted form. A field named `<family>_<i>`
      (`name_0`, `amount_3`, `alt_unit_1`, ...) is Indexed(family, i); every
      other field is Field(name). */
  datatype Key = Field(name: string) | Indexed(family: string, index: nat)

  /** The submitted form: at most one value per field. */
  type Form = map<Key, string>

  /** The value of a form field, if it was sent. */
  function Get(form: Form, key: Key): Option<string> {
    if key in form then Some(form[key]) else None
  }

  /** The value of a form field, or `default` when it was not sent. */
  function GetOr(form: Form, key: Key, default: string): string {
    Get(form, key).GetOr(default)
  }

  /** The plain fields sent with a non-empty value. */
  function NamesSent(form: Form): set<string> {
    set k | k in form && k.Field? && form[k] != "" :: k.name
  }

  // ---------------------------------------------------------------- header

  /** The recipe columns taken from the form. */
  datatype Header = Header(
    name: string,
    basePortions: int,
    prepMinutes: int,
    cookMinutes: int,
    difficulty: string)

  /** Why a submission that passed the name check stored nothing: `int()`
      raised ValueError, the difficulty CHECK constraint refused the recipe row,
      or a second `recipe_tags` row with the same key broke its primary key. */
  datatype Failure = NotAnInteger | DifficultyNotAllowed | DuplicateTagLink

  /** The result of one submission. */
  datatype Outcome = NameMissing | Failed(failure: Failure) | Saved(recipeId: nat)

  /** The submitted recipe name, stripped; empty when absent. */
  function SubmittedName(form: Form): (n: string)
    ensures n == [] <==> IsBlank(GetOr(form, Field("name"), ""))
    ensures Strip(n) == n
  {
    StripIdempotent(GetOr(form, Field("name"), ""));
    Strip(GetOr(form, Field("name"), ""))
  }

  /** A numeric field: an absent or empty field gives the default, anything
      else is parsed by `parseInt` (None is ValueError). */
  function IntField(form: Form, name: string, default: int, parseInt: string -> Option<int>): (r: Option<int>)
    ensures name !in NamesSent(form) ==> r == Some(default)
    ensures name in NamesSent(form) ==> r == parseInt(form[Field(name)])
  {
    var v := GetOr(form, Field(name), "");
    if v == "" then Some(default) else parseInt(v)
  }

  /** Field `name` was sent non-empty and `int()` refuses its text. */
  predicate Unparsable(form: Form, name: string, parseInt: string -> Option<int>) {
    name in NamesSent(form) && parseInt(form[Field(name)]).None?
  }

  /** True when one of the three numeric fields does not parse. */
  predicate NumbersFail(form: Form, parseInt: string -> Option<int>): (b: bool)
    ensures b <==> Unparsable(form, "portionen", parseInt) || Unparsable(form, "prep_time", parseInt)
                   || Unparsable(form, "cook_time", parseInt)
  {
    IntField(form, "portionen", 1, parseInt).None?
    || IntField(form, "prep_time", 0, parseInt).None?
    || IntField(form, "cook_time", 0, parseInt).None?
  }

  /** The submitted difficulty, "Einfach" when absent or empty. */
  function SubmittedDifficulty(form: Form): (d: string)
    ensures "difficulty" !in NamesSent(form) ==> d == DefaultDifficulty
    ensures "difficulty" in NamesSent(form) ==> d == form[Field("difficulty")]
  {
    var d := GetOr(form, Field("difficulty"), "");
    if d == "" then DefaultDifficulty else d
  }

  /** The checks made before the recipe row is written, in source order: the
      name, then the three numbers, then the CHECK on the difficulty. */
  function ParseHeader(form: Form, parseInt: string -> Option<int>): (r: Result<Header, Outcome>)
    ensures r == Err(NameMissing) <==> SubmittedName(form) == []
    ensures r == Err(Failed(NotAnInteger)) <==> SubmittedName(form) != [] && NumbersFail(form, parseInt)
    ensures r == Err(Failed(DifficultyNotAllowed)) <==>
      SubmittedName(form) != [] && !NumbersFail(form, parseInt) && SubmittedDifficulty(form) !in Difficulties
    ensures r.Err? ==> r.error == NameMissing || r.error == Failed(NotAnInteger) || r.error == Failed(DifficultyNotAllowed)
    ensures r.Ok? ==> r.value.name == SubmittedName(form) && r.value.name != [] && Strip(r.value.name) == r.value.name
    ensures r.Ok? ==> r.value.difficulty in Difficulties && r.value.difficulty == SubmittedDifficulty(form)
    ensures r.Ok? ==> Some(r.value.basePortions) == IntField(form, "portionen", 1, parseInt)
    ensures r.Ok? ==> Some(r.value.prepMinutes) == IntField(form, "prep_time", 0, parseInt)
    ensures r.Ok? ==> Some(r.value.cookMinutes) == IntField(form, "cook_time", 0, parseInt)
  {
    var name := SubmittedName(form);
    StripIdempotent(GetOr(form, Field("name"), ""));
    if name == [] then Err(NameMissing)
    else
      var portions := IntField(form, "portionen", 1, parseInt);
      var prep := IntField(form, "prep_time", 0, parseInt);
      var cook := IntField(form, "cook_time", 0, parseInt);
      if portions.None? || prep.None? || cook.None? then Err(Failed(NotAnInteger))
      else
        var difficulty := SubmittedDifficulty(form);
        if difficulty !in Difficulties then Err(Failed(DifficultyNotAllowed))
        else Ok(Header(name, portions.value, prep.value, cook.value, difficulty))
  }

  // ----------------------------------------------------------- ingredients

  /** The field `name_<i>` is present and not empty: the loop goes on. A
      name of only spaces counts as present. */
  predicate HasIngredient(form: Form, i: nat): (r: bool)
    ensures r <==> Indexed("name", i) in form && form[Indexed("name", i)] != ""
  {
    GetOr(form, Indexed("name", i), "") != ""
  }

  /** A stripped optional text column: empty becomes NULL. */
  function OptionalText(raw: string): (r: Option<string>)
    ensures r.Some? ==> r.value != [] && r.value == Strip(raw)
    ensures r.None? <==> IsBlank(raw)
  {
    var t := Strip(raw);
    if t == [] then None else Some(t)
  }

  /** A stripped optional amount: empty becomes NULL, otherwise the text with
      `,` read as `.` is handed to `parseFloat` (None is ValueError, stored as
      NULL too). */
  function OptionalAmount(raw: string, parseFloat: string -> Option<real>): (r: Option<real>)
    ensures IsBlank(raw) ==> r.None?
    ensures !IsBlank(raw) ==> r == parseFloat(ReplaceChar(Strip(raw), ',', '.'))
  {
    var t := Strip(raw);
    if t == [] then None else parseFloat(ReplaceChar(t, ',', '.'))
  }

  /** The columns of the ingredient row for index `i`. */
  function ParseIngredient(form: Form, i: nat, parseFloat: string -> Option<real>): (r: IngredientFields)
    ensures r.name == Strip(GetOr(form, Indexed("name", i), ""))
    ensures r.unit.None? <==> IsBlank(GetOr(form, Indexed("unit", i), ""))
    ensures r.altName.None? <==> IsBlank(GetOr(form, Indexed("alt_name", i), ""))
    ensures r.altUnit.None? <==> IsBlank(GetOr(form, Indexed("alt_unit", i), ""))
    ensures IsBlank(GetOr(form, Indexed("amount", i), "")) ==> r.amount.None?
    ensures IsBlank(GetOr(form, Indexed("alt_amount", i), "")) ==> r.altAmount.None?
    ensures r.unit.Some? ==> r.unit.value == Strip(GetOr(form, Indexed("unit", i), ""))
    ensures r.altName.Some? ==> r.altName.value == Strip(GetOr(form, Indexed("alt_name", i), ""))
    ensures r.altUnit.Some? ==> r.altUnit.value == Strip(GetOr(form, Indexed("alt_unit", i), ""))
    ensures !IsBlank(GetOr(form, Indexed("amount", i), "")) ==>
      r.amount == parseFloat(ReplaceChar(Strip(GetOr(form, Indexed("amount", i), "")), ',', '.'))
    ensures !IsBlank(GetOr(form, Indexed("alt_amount", i), "")) ==>
      r.altAmount == parseFloat(ReplaceChar(Strip(GetOr(form, Indexed("alt_amount", i), "")), ',', '.'))
  {
    IngredientFields(
      OptionalAmount(GetOr(form, Indexed("amount", i), ""), parseFloat),
      OptionalText(GetOr(form, Indexed("unit", i), "")),
      Strip(GetOr(form, Indexed("name", i), "")),
      OptionalText(GetOr(form, Indexed("alt_name", i), "")),
      OptionalAmount(GetOr(form, Indexed("alt_amount", i), ""), parseFloat),
      OptionalText(GetOr(form, Indexed("alt_unit", i), "")))
  }

  /** The `name_<j>` fields with j >= i: a finite set that shrinks as the loop
      advances, which is why the loop stops. */
  function NameKeysFrom(form: Form, i: nat): set<Key> {
    set k | k in form.Keys && k.Indexed? && k.family == "name" && k.index >= i
  }

  /** The first index from `i` on whose `name_<index>` is missing or empty. */
  function GapFrom(form: Form, i: nat): (k: nat)
    ensures i <= k && !HasIngredient(form, k)
    ensures forall j :: i <= j < k ==> HasIngredient(form, j)
    decreases NameKeysFrom(form, i)
  {
    if !HasIngredient(form, i) then i
    else
      assert Indexed("name", i) in NameKeysFrom(form, i) - NameKeysFrom(form, i + 1);
      GapFrom(form, i + 1)
  }

  /** The index at which the ingredient loop breaks. */
  function FirstGap(form: Form): nat {
    GapFrom(form, 0)
  }

  /** The first gap is the only index with a gap and no gap before it. */
  lemma FirstGapUnique(form: Form, k: nat)
    requires !HasIngredient(form, k) && forall j :: 0 <= j < k ==> HasIngredient(form, j)
    ensures k == FirstGap(form)
  {
    var g := FirstGap(form);
    assert !HasIngredient(form, g);
  }

  /** The ingredient rows of a submission: one per index before the first gap,
      in index order. */
  function ParseIngredients(form: Form, parseFloat: string -> Option<real>): (r: seq<IngredientFields>)
    ensures |r| == FirstGap(form)
    ensures forall j :: 0 <= j < |r| ==> r[j] == ParseIngredient(form, j, parseFloat)
  {
    seq(FirstGap(form), j requires 0 <= j < FirstGap(form) => ParseIngredient(form, j, parseFloat))
  }

  /** The loop stores exactly k rows, those of indices 0..k-1 in that order,
      where k is the first index whose `name_k` is missing or empty. */
  lemma ParseIngredientsFirstGap(form: Form, parseFloat: string -> Option<real>)
    ensures var k := |ParseIngredients(form, parseFloat)|;
      (forall j :: 0 <= j < k ==> HasIngredient(form, j)) && !HasIngredient(form, k)
  {
  }

  /** The field families an ingredient row is read from. */
  const IngredientFamilies: set<string> := {"name", "amount", "unit", "alt_name", "alt_amount", "alt_unit"}

  /** Two forms carry the same fields for ingredient index `j`. */
  predicate SameRow(f1: Form, f2: Form, j: nat) {
    forall fam :: fam in IngredientFamilies ==> Get(f1, Indexed(fam, j)) == Get(f2, Indexed(fam, j))
  }

  /** Indices after the first gap are never read: two forms that agree on the
      ingredient fields up to and including the first gap of one of them give
      the same rows. */
  lemma IngredientsIgnoreAfterGap(f1: Form, f2: Form, parseFloat: string -> Option<real>)
    requires forall j :: 0 <= j <= FirstGap(f1) ==> SameRow(f1, f2, j)
    ensures ParseIngredients(f2, parseFloat) == ParseIngredients(f1, parseFloat)
  {
    var k := FirstGap(f1);
    assert "name" in IngredientFamilies && "amount" in IngredientFamilies && "unit" in IngredientFamilies;
    assert "alt_name" in IngredientFamilies && "alt_amount" in IngredientFamilies && "alt_unit" in IngredientFamilies;
    forall j | 0 <= j <= k ensures HasIngredient(f1, j) == HasIngredient(f2, j) {
      assert SameRow(f1, f2, j);
    }
    FirstGapUnique(f2, k);
    forall j | 0 <= j < k ensures ParseIngredient(f1, j, parseFloat) == ParseIngredient(f2, j, parseFloat) {
      assert SameRow(f1, f2, j);
    }
  }

  /** The `ingredients` rows written for recipe `recipeId`, keys from `firstId` on. */
  function IngredientRows(recipeId: nat, firstId: nat, fields: seq<IngredientFields>): (rows: seq<Ingredient>)
    ensures |rows| == |fields|
    ensures forall k :: 0 <= k < |rows| ==> rows[k] == Ingredient(firstId + k, recipeId, fields[k])
  {
    seq(|fields|, k requires 0 <= k < |fields| => Ingredient(firstId + k, recipeId, fields[k]))
  }

  /** One more parsed row adds one more stored row. */
  lemma IngredientRowsSnoc(recipeId: nat, firstId: nat, fields: seq<IngredientFields>, j: nat)
    requires j < |fields|
    ensures IngredientRows(recipeId, firstId, fields[..j + 1])
      == IngredientRows(recipeId, firstId, fields[..j]) + [Ingredient(firstId + j, recipeId, fields[j])]
  {
    assert IngredientRows(recipeId, firstId, fields[..j + 1])
      == IngredientRows(recipeId, firstId, fields[..j]) + [Ingredient(firstId + j, recipeId, fields[j])];
  }

  // ----------------------------------------------------------------- steps

  /** The step text stripped and, when that is not empty, its non-blank
      lines, each stripped. */
  function StepTexts(raw: string): (r: seq<string>)
    ensures forall k :: 0 <= k < |r| ==> r[k] != [] && Strip(r[k]) == r[k]
  {
    var text := Strip(raw);
    NonBlankStrippedAreStripped(Split(text, '\n'));
    if text == [] then [] else NonBlankStripped(Split(text, '\n'))
  }

  /** The steps are the non-blank lines of the submitted text, each stripped,
      in their order: the outer strip and the emptiness guard change nothing. */
  lemma StepTextsAreLines(raw: string)
    ensures StepTexts(raw) == NonBlankStripped(Split(raw, '\n'))
  {
    StripBeforeSplitIrrelevant(raw, '\n');
    if Strip(raw) == [] {
      assert Split([], '\n') == [[]];
      assert NonBlankStripped([[]]) == [] by { NonBlankStrippedOfBlankOne([]); }
    }
  }

  /** Empty or blank step text gives no steps at all. */
  lemma BlankStepTextGivesNoSteps(raw: string)
    requires IsBlank(raw)
    ensures StepTexts(raw) == []
  {
  }

  /** The `steps` rows for recipe `recipeId`: numbered 1..n in text order. */
  function StepRows(recipeId: nat, firstId: nat, texts: seq<string>): (rows: seq<Step>)
    ensures |rows| == |texts|
    ensures forall k :: 0 <= k < |rows| ==> rows[k] == Step(firstId + k, recipeId, k + 1, texts[k])
  {
    seq(|texts|, k requires 0 <= k < |texts| => Step(firstId + k, recipeId, k + 1, texts[k]))
  }

  lemma StepRowsSnoc(recipeId: nat, firstId: nat, texts: seq<string>, j: nat)
    requires j < |texts|
    ensures StepRows(recipeId, firstId, texts[..j + 1])
      == StepRows(recipeId, firstId, texts[..j]) + [Step(firstId + j, recipeId, j + 1, texts[j])]
  {
    assert StepRows(recipeId, firstId, texts[..j + 1])
      == StepRows(recipeId, firstId, texts[..j]) + [Step(firstId + j, recipeId, j + 1, texts[j])];
  }

  // ------------------------------------------------------------------ tags

  /** The tag text's comma-separated entries, stripped, blank ones
      dropped. */
  function TagList(raw: string): (r: seq<string>)
    ensures forall k :: 0 <= k < |r| ==> r[k] != [] && Strip(r[k]) == r[k]
  {
    NonBlankStrippedAreStripped(Split(raw, ','));
    NonBlankStripped(Split(raw, ','))
  }

  predicate HasDuplicate(s: seq<string>) {
    exists k, m :: 0 <= k < m < |s| && s[k] == s[m]
  }

  /** The tag lookup by name: the id of the first tag of that name. */
  function TagIdByName(tags: seq<Tag>, name: string): (r: Option<nat>)
    ensures r.Some? ==> Tag(r.value, name) in tags
    ensures r.None? <==> forall t :: t in tags ==> t.name != name
  {
    if tags == [] then None
    else if tags[0].name == name then Some(tags[0].id)
    else
      assert forall t :: t in tags ==> t == tags[0] || t in tags[1..];
      TagIdByName(tags[1..], name)
  }

  /** The tag table, its next key, and the tag id found or created per name. */
  datatype TagResolution = TagResolution(tags: seq<Tag>, nextId: nat, ids: seq<nat>)

  /** The tag loop: each name is looked up; an existing tag gives its id, a
      missing one is inserted with the next key and gives that. */
  function ResolveTags(tags: seq<Tag>, nextId: nat, names: seq<string>): (r: TagResolution)
    ensures |r.ids| == |names|
    ensures |tags| <= |r.tags| && r.tags[..|tags|] == tags
    ensures nextId <= r.nextId
    decreases |names|
  {
    if names == [] then TagResolution(tags, nextId, [])
    else
      var s := ResolveTags(tags, nextId, names[..|names| - 1]);
      var name := names[|names| - 1];
      match TagIdByName(s.tags, name)
      case Some(id) => TagResolution(s.tags, s.nextId, s.ids + [id])
      case None =>
        assert (s.tags + [Tag(s.nextId, name)])[..|tags|] == s.tags[..|tags|];
        TagResolution(s.tags + [Tag(s.nextId, name)], s.nextId + 1, s.ids + [s.nextId])
  }

  /** One more name extends the resolution of the shorter list. */
  lemma ResolveTagsStep(tags: seq<Tag>, nextId: nat, names: seq<string>, j: nat)
    requires j < |names|
    ensures var s := ResolveTags(tags, nextId, names[..j]);
      ResolveTags(tags, nextId, names[..j + 1]) ==
        match TagIdByName(s.tags, names[j])
        case Some(id) => TagResolution(s.tags, s.nextId, s.ids + [id])
        case None => TagResolution(s.tags + [Tag(s.nextId, names[j])], s.nextId + 1, s.ids + [s.nextId])
  {
    assert names[..j + 1][..j] == names[..j];
  }

  /** The tag table keeps its constraints: keys increasing below the next key,
      names unique. */
  lemma {:induction false} ResolveTagsKeepsTable(tags: seq<Tag>, nextId: nat, names: seq<string>)
    requires TagTable(tags, nextId)
    ensures var r := ResolveTags(tags, nextId, names); TagTable(r.tags, r.nextId)
    decreases |names|
  {
    if names != [] {
      ResolveTagsKeepsTable(tags, nextId, names[..|names| - 1]);
    }
  }

  /** Every listed name ends up as a tag whose id is the one linked for it. */
  lemma {:induction false} ResolveTagsLinksNames(tags: seq<Tag>, nextId: nat, names: seq<string>)
    ensures var r := ResolveTags(tags, nextId, names);
      forall k :: 0 <= k < |names| ==> Tag(r.ids[k], names[k]) in r.tags
    decreases |names|
  {
    if names != [] {
      var init := names[..|names| - 1];
      ResolveTagsLinksNames(tags, nextId, init);
      var s := ResolveTags(tags, nextId, init);
      var r := ResolveTags(tags, nextId, names);
      assert r.ids[..|init|] == s.ids;
      assert forall t :: t in s.tags ==> t in r.tags;
      forall k | 0 <= k < |names| ensures Tag(r.ids[k], names[k]) in r.tags {
        if k < |init| {
          assert r.ids[k] == s.ids[k] && names[k] == init[k];
        }
      }
    }
  }

  /** Every tag that was not there before carries a listed name. */
  lemma {:induction false} ResolveTagsNewAreListed(tags: seq<Tag>, nextId: nat, names: seq<string>)
    ensures forall i :: |tags| <= i < |ResolveTags(tags, nextId, names).tags| ==>
      ResolveTags(tags, nextId, names).tags[i].name in names
    decreases |names|
  {
    if names != [] {
      var init := names[..|names| - 1];
      ResolveTagsNewAreListed(tags, nextId, init);
      var s := ResolveTags(tags, nextId, init);
      var r := ResolveTags(tags, nextId, names);
      assert forall i :: |tags| <= i < |s.tags| ==> s.tags[i].name in init;
      assert forall x :: x in init ==> x in names;
      forall i | |tags| <= i < |r.tags| ensures r.tags[i].name in names {
        if i < |s.tags| {
          assert r.tags[i] == s.tags[i];
        } else {
          assert r.tags[i].name == names[|names| - 1];
        }
      }
    }
  }

  /** Every tag in the table before is still there afterwards. */
  lemma ResolveTagsKeepsOld(tags: seq<Tag>, nextId: nat, names: seq<string>)
    ensures forall t :: t in tags ==> t in ResolveTags(tags, nextId, names).tags
  {
    var r := ResolveTags(tags, nextId, names);
    forall t | t in tags ensures t in r.tags {
      var i :| 0 <= i < |tags| && tags[i] == t;
      assert r.tags[i] == t;
    }
  }

  /** An existing tag keeps its id. */
  lemma ResolveTagsExistingKeepId(tags: seq<Tag>, nextId: nat, names: seq<string>)
    requires TagTable(tags, nextId)
    ensures var r := ResolveTags(tags, nextId, names);
      forall k, id :: 0 <= k < |names| && Tag(id, names[k]) in tags ==> r.ids[k] == id
  {
    var r := ResolveTags(tags, nextId, names);
    ResolveTagsKeepsTable(tags, nextId, names);
    ResolveTagsLinksNames(tags, nextId, names);
    ResolveTagsKeepsOld(tags, nextId, names);
    forall k, id | 0 <= k < |names| && Tag(id, names[k]) in tags ensures r.ids[k] == id {
      SameNameSameTag(r.tags, r.ids[k], id, names[k]);
    }
  }

  /** A new row is only added for a name no tag had before. */
  lemma ResolveTagsNewAreMissing(tags: seq<Tag>, nextId: nat, names: seq<string>)
    requires TagTable(tags, nextId)
    ensures var r := ResolveTags(tags, nextId, names);
      forall i, t :: |tags| <= i < |r.tags| && t in tags ==> t.name != r.tags[i].name
  {
    var r := ResolveTags(tags, nextId, names);
    ResolveTagsKeepsTable(tags, nextId, names);
    forall i, t | |tags| <= i < |r.tags| && t in tags ensures t.name != r.tags[i].name {
      var j :| 0 <= j < |tags| && tags[j] == t;
      assert r.tags[j] == t;
    }
  }

  /** A listed name that no tag had is now the name of a new row. */
  lemma ResolveTagsMissingInserted(tags: seq<Tag>, nextId: nat, names: seq<string>)
    ensures var r := ResolveTags(tags, nextId, names);
      forall k :: 0 <= k < |names| && (forall t :: t in tags ==> t.name != names[k]) ==>
        exists i :: |tags| <= i < |r.tags| && r.tags[i].name == names[k]
  {
    var r := ResolveTags(tags, nextId, names);
    ResolveTagsLinksNames(tags, nextId, names);
    forall k | 0 <= k < |names| && (forall t :: t in tags ==> t.name != names[k])
      ensures exists i :: |tags| <= i < |r.tags| && r.tags[i].name == names[k]
    {
      assert forall j :: 0 <= j < |tags| ==> r.tags[j] == tags[j] && tags[j] in tags;
      var i :| 0 <= i < |r.tags| && r.tags[i] == Tag(r.ids[k], names[k]);
    }
  }

  /** Two entries get the same tag id exactly when they are the same name. */
  lemma ResolveTagsIdsMatchNames(tags: seq<Tag>, nextId: nat, names: seq<string>)
    requires TagTable(tags, nextId)
    ensures var r := ResolveTags(tags, nextId, names);
      forall k, m :: 0 <= k < |names| && 0 <= m < |names| ==> (r.ids[k] == r.ids[m] <==> names[k] == names[m])
  {
    var r := ResolveTags(tags, nextId, names);
    ResolveTagsKeepsTable(tags, nextId, names);
    ResolveTagsLinksNames(tags, nextId, names);
    forall k, m | 0 <= k < |names| && 0 <= m < |names|
      ensures r.ids[k] == r.ids[m] <==> names[k] == names[m]
    {
      if r.ids[k] == r.ids[m] { SameIdSameTag(r.tags, r.nextId, r.ids[k], names[k], names[m]); }
      if names[k] == names[m] { SameNameSameTag(r.tags, r.ids[k], r.ids[m], names[k]); }
    }
  }

  /** The `recipe_tags` rows for recipe `recipeId`. */
  function LinkRows(recipeId: nat, tagIds: seq<nat>): (rows: seq<RecipeTag>)
    ensures |rows| == |tagIds|
    ensures forall k :: 0 <= k < |rows| ==> rows[k] == RecipeTag(recipeId, tagIds[k])
  {
    seq(|tagIds|, k requires 0 <= k < |tagIds| => RecipeTag(recipeId, tagIds[k]))
  }

  lemma LinkRowsSnoc(recipeId: nat, ids: seq<nat>, id: nat)
    ensures LinkRows(recipeId, ids + [id]) == LinkRows(recipeId, ids) + [RecipeTag(recipeId, id)]
  {
    assert LinkRows(recipeId, ids + [id]) == LinkRows(recipeId, ids) + [RecipeTag(recipeId, id)];
  }

  /** A link of recipe `recipeId` to tag `t` is among its rows exactly when
      `t` is among the ids. */
  lemma LinkRowsMember(recipeId: nat, ids: seq<nat>, t: nat)
    ensures RecipeTag(recipeId, t) in LinkRows(recipeId, ids) <==> t in ids
  {
    var rows := LinkRows(recipeId, ids);
    if t in ids {
      var k :| 0 <= k < |ids| && ids[k] == t;
      assert rows[k] == RecipeTag(recipeId, t);
    }
  }

  /** The prefix of one more name has a duplicate exactly when the shorter one
      has, or the new name occurred before. */
  lemma HasDuplicateSnoc(names: seq<string>, k: nat)
    requires k < |names|
    ensures HasDuplicate(names[..k + 1]) <==>
      HasDuplicate(names[..k]) || exists m :: 0 <= m < k && names[m] == names[k]
  {
    var p := names[..k + 1];
    if HasDuplicate(p) {
      var a, b :| 0 <= a < b < |p| && p[a] == p[b];
      if b < k { assert names[..k][a] == names[..k][b]; }
      else { assert names[a] == names[k]; }
    }
    if HasDuplicate(names[..k]) {
      var a, b :| 0 <= a < b < k && names[..k][a] == names[..k][b];
      assert p[a] == p[b];
    }
    if exists m :: 0 <= m < k && names[m] == names[k] {
      var m :| 0 <= m < k && names[m] == names[k];
      assert p[m] == p[k];
    }
  }

  /** A duplicate in a prefix is a duplicate of the whole list. */
  lemma HasDuplicatePrefix(names: seq<string>, k: nat)
    requires k <= |names| && HasDuplicate(names[..k])
    ensures HasDuplicate(names)
  {
    var a, b :| 0 <= a < b < k && names[..k][a] == names[..k][b];
    assert names[a] == names[b];
  }

  /** The id resolved for entry k was already resolved for an earlier entry
      exactly when the same name occurred earlier. */
  lemma ResolveTagsRepeatedId(tags: seq<Tag>, nextId: nat, names: seq<string>, k: nat)
    requires TagTable(tags, nextId) && k < |names|
    ensures var r := ResolveTags(tags, nextId, names[..k + 1]);
      r.ids[k] in r.ids[..k] <==> exists m :: 0 <= m < k && names[m] == names[k]
  {
    var p := names[..k + 1];
    var r := ResolveTags(tags, nextId, p);
    ResolveTagsIdsMatchNames(tags, nextId, p);
    if r.ids[k] in r.ids[..k] {
      var m :| 0 <= m < k && r.ids[..k][m] == r.ids[k];
      assert p[m] == p[k];
    }
    if exists m :: 0 <= m < k && names[m] == names[k] {
      var m :| 0 <= m < k && names[m] == names[k];
      assert p[m] == p[k];
      assert r.ids[..k][m] == r.ids[k];
    }
  }
}
