/** The recipe list (`rezepte`): the `sort` argument picks one of four orders,
    falling back to name ascending; a non-empty `tag` argument restricts the
    rows to the recipes joined to a tag of exactly that name. `ORDER BY name
    COLLATE NOCASE` compares names after ASCII case folding, code point by
    code point. */
module RecipeList {
  import opened Wrappers
  import opened Text
  import opened Schema

  datatype SortOrder = NameAsc | NameDesc | PrepAsc | PrepDesc

  /** The sort arguments that select an order other than the default. */
  const OtherSorts: set<string> := {"name_desc", "prep_asc", "prep_desc"}

  /** The order the `sort` argument selects: every value other than the
      three named ones, and an absent argument, give name ascending. */
  function SortOrderOf(sort: Option<string>): (o: SortOrder)
    ensures o == NameAsc <==> sort.None? || sort.value !in OtherSorts
  {
    var s := sort.GetOr("name_asc");
    if s == "name_desc" then NameDesc
    else if s == "prep_asc" then PrepAsc
    else if s == "prep_desc" then PrepDesc
    else NameAsc
  }

  /** The argument the list page links with for each order. */
  function SortParameter(o: SortOrder): string {
    match o
    case NameAsc => "name_asc"
    case NameDesc => "name_desc"
    case PrepAsc => "prep_asc"
    case PrepDesc => "prep_desc"
  }

  /** Every order is reachable, by its own argument. */
  lemma SortParameterRoundTrip(o: SortOrder)
    ensures SortOrderOf(Some(SortParameter(o))) == o
  {
  }

  // ------------------------------------------------------------ text order

  /** SQLite's text comparison: code point by code point, a proper prefix
      first (UTF-8 byte order is code point order). */
  predicate LexLe(a: string, b: string) {
    a == [] || (b != [] && (a[0] < b[0] || (a[0] == b[0] && LexLe(a[1..], b[1..]))))
  }

  lemma {:induction false} LexLeTotal(a: string, b: string)
    ensures LexLe(a, b) || LexLe(b, a)
  {
    if a != [] && b != [] && a[0] == b[0] {
      LexLeTotal(a[1..], b[1..]);
    }
  }

  lemma {:induction false} LexLeTrans(a: string, b: string, c: string)
    requires LexLe(a, b) && LexLe(b, c)
    ensures LexLe(a, c)
  {
    if a != [] && a[0] == b[0] && b[0] == c[0] {
      LexLeTrans(a[1..], b[1..], c[1..]);
    }
  }

  lemma {:induction false} LexLeAntisym(a: string, b: string)
    requires LexLe(a, b) && LexLe(b, a)
    ensures a == b
  {
    if a != [] {
      LexLeAntisym(a[1..], b[1..]);
      assert a == [a[0]] + a[1..] && b == [b[0]] + b[1..];
    }
  }

  /** The `NOCASE` collation key of a recipe name. */
  function NameKey(r: Recipe): string {
    AsciiLower(r.name)
  }

  /** `a` may come before `b` in order `o`. */
  predicate Precedes(o: SortOrder, a: Recipe, b: Recipe) {
    match o
    case NameAsc => LexLe(NameKey(a), NameKey(b))
    case NameDesc => LexLe(NameKey(b), NameKey(a))
    case PrepAsc => a.prepMinutes <= b.prepMinutes
    case PrepDesc => b.prepMinutes <= a.prepMinutes
  }

  lemma PrecedesTotal(o: SortOrder, a: Recipe, b: Recipe)
    ensures Precedes(o, a, b) || Precedes(o, b, a)
  {
    LexLeTotal(NameKey(a), NameKey(b));
  }

  lemma PrecedesTrans(o: SortOrder, a: Recipe, b: Recipe, c: Recipe)
    requires Precedes(o, a, b) && Precedes(o, b, c)
    ensures Precedes(o, a, c)
  {
    match o
    case NameAsc => LexLeTrans(NameKey(a), NameKey(b), NameKey(c));
    case NameDesc => LexLeTrans(NameKey(c), NameKey(b), NameKey(a));
    case PrepAsc =>
    case PrepDesc =>
  }

  /** Every row may come before every later row. */
  predicate Sorted(o: SortOrder, s: seq<Recipe>) {
    forall i, j :: 0 <= i < j < |s| ==> Precedes(o, s[i], s[j])
  }

  lemma ConsSorted(o: SortOrder, h: Recipe, s: seq<Recipe>)
    requires Sorted(o, s)
    requires forall k :: 0 <= k < |s| ==> Precedes(o, h, s[k])
    ensures Sorted(o, [h] + s)
  {
    var t := [h] + s;
    forall i, j | 0 <= i < j < |t| ensures Precedes(o, t[i], t[j]) {
      assert t[j] == s[j - 1];
      if i > 0 { assert t[i] == s[i - 1]; }
    }
  }

  /** A row that may come before the head of a sorted list may come before
      all of it. */
  lemma InsertInFront(o: SortOrder, x: Recipe, s: seq<Recipe>)
    requires s != [] && Sorted(o, s) && Precedes(o, x, s[0])
    ensures Sorted(o, [x] + s)
  {
    forall k | 0 <= k < |s| ensures Precedes(o, x, s[k]) {
      if k > 0 { PrecedesTrans(o, x, s[0], s[k]); }
    }
    ConsSorted(o, x, s);
  }

  /** The head of a sorted list, put before the insertion of a row it may
      come before into the tail, gives a sorted list. */
  lemma InsertBehindHead(o: SortOrder, x: Recipe, s: seq<Recipe>, rest: seq<Recipe>)
    requires s != [] && Sorted(o, s) && !Precedes(o, x, s[0])
    requires Sorted(o, rest) && multiset(rest) == multiset(s[1..]) + multiset{x}
    ensures Sorted(o, [s[0]] + rest)
    ensures multiset([s[0]] + rest) == multiset(s) + multiset{x}
  {
    PrecedesTotal(o, x, s[0]);
    forall k | 0 <= k < |rest| ensures Precedes(o, s[0], rest[k]) {
      assert rest[k] in multiset(rest);
      if rest[k] != x {
        assert rest[k] in s[1..];
      }
    }
    ConsSorted(o, s[0], rest);
    assert s == [s[0]] + s[1..];
  }

  /** Insertion of one row into a sorted list. */
  function Insert(o: SortOrder, x: Recipe, s: seq<Recipe>): (r: seq<Recipe>)
    requires Sorted(o, s)
    ensures Sorted(o, r)
    ensures multiset(r) == multiset(s) + multiset{x}
  {
    if s == [] then [x]
    else if Precedes(o, x, s[0]) then
      InsertInFront(o, x, s);
      [x] + s
    else
      var rest := Insert(o, x, s[1..]);
      InsertBehindHead(o, x, s, rest);
      [s[0]] + rest
  }

  /** Insertion sort: a sorted rearrangement of the rows. Rows that compare
      equal keep their table order. */
  function SortBy(o: SortOrder, s: seq<Recipe>): (r: seq<Recipe>)
    ensures Sorted(o, r)
    ensures multiset(r) == multiset(s)
  {
    if s == [] then []
    else
      assert s == [s[0]] + s[1..];
      Insert(o, s[0], SortBy(o, s[1..]))
  }

  // ------------------------------------------------------------ tag filter

  /** The number of `tags` rows equal to Tag(id, name). */
  function TagRowCount(tags: seq<Tag>, id: nat, name: string): nat {
    if tags == [] then 0
    else (if tags[0] == Tag(id, name) then 1 else 0) + TagRowCount(tags[1..], id, name)
  }

  /** The number of rows `recipe_tags rt JOIN tags t ON rt.tag_id = t.id WHERE
      t.name = name` yields for recipe `rid`. */
  function LinkHits(links: seq<RecipeTag>, tags: seq<Tag>, rid: nat, name: string): nat {
    if links == [] then 0
    else
      var here := if links[0].recipeId == rid then TagRowCount(tags, links[0].tagId, name) else 0;
      here + LinkHits(links[1..], tags, rid, name)
  }

  function Repeat(x: Recipe, n: nat): (r: seq<Recipe>)
    ensures |r| == n && forall k :: 0 <= k < n ==> r[k] == x
  {
    seq(n, _ => x)
  }

  /** The rows of the join of recipes, links and tags restricted to one
      tag name: each recipe once per matching link and tag row. */
  function JoinRows(recipes: seq<Recipe>, links: seq<RecipeTag>, tags: seq<Tag>, name: string): (r: seq<Recipe>)
    ensures forall x :: x in r ==> x in recipes
  {
    if recipes == [] then []
    else
      assert forall x :: x in recipes[1..] ==> x in recipes;
      Repeat(recipes[0], LinkHits(links, tags, recipes[0].id, name)) + JoinRows(recipes[1..], links, tags, name)
  }

  /** The recipes linked to a tag named `name`, in table order. */
  function Tagged(recipes: seq<Recipe>, links: seq<RecipeTag>, tags: seq<Tag>, name: string): (r: seq<Recipe>)
    ensures forall x :: x in r <==> x in recipes && LinkedToTag(links, tags, x.id, name)
  {
    if recipes == [] then []
    else
      assert forall x :: x in recipes <==> x == recipes[0] || x in recipes[1..];
      (if LinkedToTag(links, tags, recipes[0].id, name) then [recipes[0]] else []) + Tagged(recipes[1..], links, tags, name)
  }

  /** With increasing tag ids a tag row occurs at most once. */
  lemma {:induction false} TagRowCountOnce(tags: seq<Tag>, next: nat, id: nat, name: string)
    requires TagKeys(tags, next)
    ensures TagRowCount(tags, id, name) == if Tag(id, name) in tags then 1 else 0
  {
    if tags != [] {
      var rest := tags[1..];
      assert TagKeys(rest, next);
      TagRowCountOnce(rest, next, id, name);
      assert forall k :: 0 <= k < |rest| ==> rest[k].id > tags[0].id;
      assert forall t :: t in tags <==> t == tags[0] || t in rest;
    }
  }

  /** With unique names, a tag row of name `name` is the only one. */
  lemma OnlyTagOfName(tags: seq<Tag>, id: nat, name: string)
    requires TagNamesUnique(tags) && Tag(id, name) in tags
    ensures forall t :: t in tags && t.name == name ==> t.id == id
  {
    forall t | t in tags && t.name == name ensures t.id == id {
      SameNameSameTag(tags, t.id, id, name);
    }
  }

  /** Under the schema's constraints the join yields a recipe at most once:
      once exactly when it is linked to a tag of that name. */
  lemma {:induction false} LinkHitsCount(links: seq<RecipeTag>, tags: seq<Tag>, next: nat, rid: nat, name: string)
    requires TagTable(tags, next) && LinksDistinct(links)
    ensures LinkHits(links, tags, rid, name) == if LinkedToTag(links, tags, rid, name) then 1 else 0
  {
    if links != [] {
      var l0 := links[0];
      var rest := links[1..];
      assert LinksDistinct(rest);
      LinkHitsCount(rest, tags, next, rid, name);
      TagRowCountOnce(tags, next, l0.tagId, name);
      assert forall l :: l in links <==> l == l0 || l in rest;
      if l0.recipeId == rid && Tag(l0.tagId, name) in tags {
        OnlyTagOfName(tags, l0.tagId, name);
        assert forall k :: 0 <= k < |rest| ==> rest[k] != l0;
        assert !LinkedToTag(rest, tags, rid, name);
      }
    }
  }

  /** Under the schema's constraints the join is the plain filter. */
  lemma {:induction false} JoinIsTagged(recipes: seq<Recipe>, links: seq<RecipeTag>, tags: seq<Tag>, next: nat, name: string)
    requires TagTable(tags, next) && LinksDistinct(links)
    ensures JoinRows(recipes, links, tags, name) == Tagged(recipes, links, tags, name)
  {
    if recipes != [] {
      JoinIsTagged(recipes[1..], links, tags, next, name);
      LinkHitsCount(links, tags, next, recipes[0].id, name);
      if LinkedToTag(links, tags, recipes[0].id, name) {
        assert Repeat(recipes[0], 1) == [recipes[0]];
      } else {
        assert Repeat(recipes[0], 0) == [];
      }
    }
  }

  // ---------------------------------------------------------------- listing

  /** The rows before ordering: all recipes, or the join with a non-empty tag. */
  function Matching(recipes: seq<Recipe>, links: seq<RecipeTag>, tags: seq<Tag>, tag: Option<string>): (r: seq<Recipe>)
    ensures forall x :: x in r ==> x in recipes
  {
    if tag.None? || tag.value == "" then recipes else JoinRows(recipes, links, tags, tag.value)
  }

  /** `rezepte`: the matching rows in the chosen order. SQL fixes no order
      between rows that compare equal; this model keeps table order there. */
  function Listing(recipes: seq<Recipe>, links: seq<RecipeTag>, tags: seq<Tag>, sort: Option<string>, tag: Option<string>): (r: seq<Recipe>)
    ensures Sorted(SortOrderOf(sort), r)
    ensures multiset(r) == multiset(Matching(recipes, links, tags, tag))
  {
    SortBy(SortOrderOf(sort), Matching(recipes, links, tags, tag))
  }

  /** A recipe is listed exactly when it is in the table and, with a tag
      filter, linked to a tag of exactly that name. */
  lemma ListingMembers(recipes: seq<Recipe>, links: seq<RecipeTag>, tags: seq<Tag>, next: nat,
                       sort: Option<string>, tag: Option<string>, x: Recipe)
    requires TagTable(tags, next) && LinksDistinct(links)
    ensures x in Listing(recipes, links, tags, sort, tag) <==>
      x in recipes && (tag.None? || tag.value == "" || LinkedToTag(links, tags, x.id, tag.value))
  {
    var r := Listing(recipes, links, tags, sort, tag);
    assert x in r <==> x in multiset(r);
    if tag.Some? && tag.value != "" {
      JoinIsTagged(recipes, links, tags, next, tag.value);
    }
  }

  /** No two rows of a sequence are equal. */
  predicate Distinct(s: seq<Recipe>) {
    forall i, j :: 0 <= i < j < |s| ==> s[i] != s[j]
  }

  lemma {:induction false} DistinctCount(s: seq<Recipe>, x: Recipe)
    requires Distinct(s)
    ensures multiset(s)[x] <= 1
  {
    if s != [] {
      assert Distinct(s[1..]);
      DistinctCount(s[1..], x);
      assert s == [s[0]] + s[1..];
      assert forall k :: 0 <= k < |s[1..]| ==> s[1..][k] != s[0];
    }
  }

  lemma {:induction false} TaggedDistinct(recipes: seq<Recipe>, links: seq<RecipeTag>, tags: seq<Tag>, name: string)
    requires Distinct(recipes)
    ensures Distinct(Tagged(recipes, links, tags, name))
  {
    if recipes != [] {
      assert Distinct(recipes[1..]);
      TaggedDistinct(recipes[1..], links, tags, name);
      var rest := Tagged(recipes[1..], links, tags, name);
      assert forall k :: 0 <= k < |rest| ==> rest[k] in recipes[1..];
      assert forall k :: 0 <= k < |recipes[1..]| ==> recipes[1..][k] != recipes[0];
    }
  }

  /** Under the schema's constraints no recipe is listed twice, with or
      without a tag filter. */
  lemma ListingOnce(recipes: seq<Recipe>, nextRecipe: nat, links: seq<RecipeTag>, tags: seq<Tag>, next: nat,
                    sort: Option<string>, tag: Option<string>, x: Recipe)
    requires RecipeKeys(recipes, nextRecipe) && TagTable(tags, next) && LinksDistinct(links)
    ensures multiset(Listing(recipes, links, tags, sort, tag))[x] <= 1
  {
    assert Distinct(recipes);
    if tag.Some? && tag.value != "" {
      JoinIsTagged(recipes, links, tags, next, tag.value);
      TaggedDistinct(recipes, links, tags, tag.value);
      DistinctCount(Tagged(recipes, links, tags, tag.value), x);
    } else {
      DistinctCount(recipes, x);
    }
  }
}
