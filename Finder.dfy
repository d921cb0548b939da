/** The "what can I cook today" search (`was_koche_ich`): the search terms
    taken from the ingredient text, the recipe ids an ingredient or a tag
    selects, and the candidate set the two filters leave. The page itself,
    with its random pick, is Store.FindRecipes. */
module Finder {
  import opened Wrappers
  import opened Text
  import opened Schema

  /** The search terms of the ingredient text: its entries separated by
      commas or line breaks, stripped and lower-cased by Python's rules,
      blank entries dropped. */
  function SearchTerms(text: string): (terms: seq<string>)
    ensures forall k :: 0 <= k < |terms| ==> terms[k] != []
  {
    var entries := NonBlankStripped(Split(ReplaceChar(text, '\n', ','), ','));
    seq(|entries|, k requires 0 <= k < |entries| => PyLower(entries[k]))
  }

  /** A term is exactly the lower-cased stripped text of a non-blank entry. */
  lemma SearchTermsMembers(text: string, t: string)
    ensures t in SearchTerms(text) <==>
      exists e :: e in Split(ReplaceChar(text, '\n', ','), ',') && !IsBlank(e) && t == PyLower(Strip(e))
  {
    var parts := Split(ReplaceChar(text, '\n', ','), ',');
    var entries := NonBlankStripped(parts);
    if t in SearchTerms(text) {
      var k :| 0 <= k < |entries| && SearchTerms(text)[k] == t;
      var e := NonBlankStrippedOnly(parts, entries[k]);
    }
    if exists e :: e in parts && !IsBlank(e) && t == PyLower(Strip(e)) {
      var e :| e in parts && !IsBlank(e) && t == PyLower(Strip(e));
      NonBlankStrippedKeeps(parts, e);
      var k :| 0 <= k < |entries| && entries[k] == Strip(e);
      assert SearchTerms(text)[k] == t;
    }
  }

  /** A stripped name without separators is its own single search term. */
  lemma SearchTermsOfName(n: string)
    requires n != [] && Strip(n) == n && ',' !in n && '\n' !in n
    ensures SearchTerms(n) == [PyLower(n)]
  {
    assert ReplaceChar(n, '\n', ',') == n;
    SplitFree(n, ',');
    assert [n][1..] == [];
    assert NonBlankStripped([n]) == [n];
  }

  /** The ingredient filter as written: the recipes having an ingredient
      whose name, folded by SQLite's `LOWER` (ASCII capitals only), is one
      of the terms. */
  function IngredientHitsAsWritten(ingredients: seq<Ingredient>, terms: seq<string>): (ids: set<nat>)
    ensures forall id :: id in ids <==> exists g :: g in ingredients && g.recipeId == id && AsciiLower(g.fields.name) in terms
  {
    set g | g in ingredients && AsciiLower(g.fields.name) in terms :: g.recipeId
  }

  /** The ingredient filter with the stored name lower-cased as the terms
      are. */
  function IngredientHits(ingredients: seq<Ingredient>, terms: seq<string>): (ids: set<nat>)
    ensures forall id :: id in ids <==> exists g :: g in ingredients && g.recipeId == id && PyLower(g.fields.name) in terms
  {
    set g | g in ingredients && PyLower(g.fields.name) in terms :: g.recipeId
  }

  /** The tag filter: the recipes linked to a tag of exactly that name. */
  function TagHits(links: seq<RecipeTag>, tags: seq<Tag>, name: string): (ids: set<nat>)
    ensures forall id :: id in ids <==> LinkedToTag(links, tags, id, name)
  {
    set l | l in links && Tag(l.tagId, name) in tags :: l.recipeId
  }

  /** How the handler combines the filters into `recipe_ids`: undefined when
      neither filter is given, the one given filter's set, or the
      intersection of both. */
  function Combine(ingredientText: string, byIngredient: set<nat>, tagText: string, byTag: set<nat>): (ids: Option<set<nat>>)
    ensures ids.None? <==> ingredientText == [] && tagText == []
    ensures ids.Some? ==> forall id :: id in ids.value <==>
      (ingredientText != [] ==> id in byIngredient) && (tagText != [] ==> id in byTag)
  {
    var first: Option<set<nat>> := if ingredientText != [] then Some(byIngredient) else None;
    if tagText == [] then first
    else if first.None? then Some(byTag)
    else Some(first.value * byTag)
  }

  /** `recipe_ids` as the handler computes it, for the stripped ingredient and
      tag fields, with the ingredient filter as written (SQLite's `LOWER`). */
  function CandidatesAsWritten(ingredients: seq<Ingredient>, links: seq<RecipeTag>, tags: seq<Tag>,
                               ingredientText: string, tagText: string): (ids: Option<set<nat>>)
    ensures ids.None? <==> ingredientText == [] && tagText == []
    ensures ids.Some? ==> forall id :: id in ids.value <==>
      (ingredientText != [] ==> exists g :: g in ingredients && g.recipeId == id
                                  && AsciiLower(g.fields.name) in SearchTerms(ingredientText))
      && (tagText != [] ==> LinkedToTag(links, tags, id, tagText))
  {
    Combine(ingredientText, IngredientHitsAsWritten(ingredients, SearchTerms(ingredientText)),
            tagText, TagHits(links, tags, tagText))
  }

  /** `recipe_ids` with the corrected ingredient filter, which lower-cases the
      stored names as the terms are lower-cased. */
  function Candidates(ingredients: seq<Ingredient>, links: seq<RecipeTag>, tags: seq<Tag>,
                      ingredientText: string, tagText: string): (ids: Option<set<nat>>)
    ensures ids.None? <==> ingredientText == [] && tagText == []
    ensures ids.Some? ==> forall id :: id in ids.value <==>
      (ingredientText != [] ==> exists g :: g in ingredients && g.recipeId == id
                                  && PyLower(g.fields.name) in SearchTerms(ingredientText))
      && (tagText != [] ==> LinkedToTag(links, tags, id, tagText))
  {
    Combine(ingredientText, IngredientHits(ingredients, SearchTerms(ingredientText)),
            tagText, TagHits(links, tags, tagText))
  }

  /** With ASCII ingredient names the handler as written and the corrected
      one select the same recipes. */
  lemma CandidatesAgreeOnAscii(ingredients: seq<Ingredient>, links: seq<RecipeTag>, tags: seq<Tag>,
                               ingredientText: string, tagText: string)
    requires forall g :: g in ingredients ==> IsAscii(g.fields.name)
    ensures CandidatesAsWritten(ingredients, links, tags, ingredientText, tagText)
         == Candidates(ingredients, links, tags, ingredientText, tagText)
  {
    HitsAgreeOnAscii(ingredients, SearchTerms(ingredientText));
  }

  /** Searching a stored ingredient's own name finds its recipe (with the
      corrected filter). */
  lemma FindsOwnIngredient(ingredients: seq<Ingredient>, g: Ingredient)
    requires g in ingredients
    requires g.fields.name != [] && Strip(g.fields.name) == g.fields.name
    requires ',' !in g.fields.name && '\n' !in g.fields.name
    ensures g.recipeId in IngredientHits(ingredients, SearchTerms(g.fields.name))
  {
    SearchTermsOfName(g.fields.name);
  }

  /** Upper and lower case in the search text do not matter (with the
      corrected filter): a term and its lower-cased form select the same
      recipes. */
  lemma HitsIgnoreCase(ingredients: seq<Ingredient>, n: string)
    requires n != [] && Strip(n) == n && ',' !in n && '\n' !in n
    requires Strip(PyLower(n)) == PyLower(n) && ',' !in PyLower(n) && '\n' !in PyLower(n)
    ensures IngredientHits(ingredients, SearchTerms(n)) == IngredientHits(ingredients, SearchTerms(PyLower(n)))
  {
    SearchTermsOfName(n);
    SearchTermsOfName(PyLower(n));
    PyLowerIdempotent(n);
  }

  /** The filter as written and the corrected one agree when every stored
      ingredient name is ASCII. */
  lemma HitsAgreeOnAscii(ingredients: seq<Ingredient>, terms: seq<string>)
    requires forall g :: g in ingredients ==> IsAscii(g.fields.name)
    ensures IngredientHitsAsWritten(ingredients, terms) == IngredientHits(ingredients, terms)
  {
    forall g | g in ingredients ensures AsciiLower(g.fields.name) == PyLower(g.fields.name) {
      LowerAgreeOnAscii(g.fields.name);
    }
  }

  /** The stored ingredient name "Äpfel". */
  const Apples: string := "\U{C4}pfel"

  /** Searching "Äpfel" looks for the single term "äpfel". */
  lemma ApplesTerms()
    ensures SearchTerms(Apples) == [PyLower(Apples)]
  {
    assert !IsSpace(Apples[0]) && !IsSpace(Apples[|Apples| - 1]);
    StripKeeps(Apples);
    assert forall k :: 0 <= k < |Apples| ==> Apples[k] != ',' && Apples[k] != '\n';
    SearchTermsOfName(Apples);
  }

  /** `LOWER` keeps the capital Ä that Python's `lower()` folds. */
  lemma ApplesLowerDiffer()
    ensures AsciiLower(Apples) !in [PyLower(Apples)]
  {
    assert AsciiLower(Apples)[0] != PyLower(Apples)[0];
  }

  /** The one stored ingredient "Äpfel" of recipe 1. */
  const ApplesTable: seq<Ingredient> := [Ingredient(1, 1, IngredientFields(None, None, Apples, None, None, None))]

  /** The filter as written misses a recipe whose ingredient is searched by
      exactly its stored name once that name starts with a non-ASCII capital:
      the term becomes "äpfel" and `LOWER` leaves "Äpfel" as it is. The
      corrected filter finds it. */
  lemma AsWrittenMissesOwnName()
    ensures IngredientHitsAsWritten(ApplesTable, SearchTerms(Apples)) == {}
    ensures IngredientHits(ApplesTable, SearchTerms(Apples)) == {1}
    ensures CandidatesAsWritten(ApplesTable, [], [], Apples, []) == Some({})
    ensures Candidates(ApplesTable, [], [], Apples, []) == Some({1})
  {
    ApplesTerms();
    ApplesLowerDiffer();
    assert forall g :: g in ApplesTable <==> g == ApplesTable[0];
  }
}
