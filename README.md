# La dolce vita: a verified model of the recipe handlers

La dolce vita is a small Flask recipe catalogue backed by SQLite. Users enter
recipes through the form `rezept_eintrag`: a name, portions, preparation and
cooking times, a difficulty, index-suffixed ingredient rows, free-text steps,
comma-separated tags and photos. They browse recipes on `rezepte`, sorted by
name or preparation time and optionally filtered by a tag. They open one
recipe on `rezept_detail`, scaled to a requested number of portions. They ask
`was_koche_ich` ("what can I cook today") for recipes by ingredients and/or a
tag, optionally picking one at random.

This project models the request-independent logic of `app.py` in Dafny. The
SQLite tables become sequences of rows, and the AUTOINCREMENT keys become
counters that start at 1. The constraints from `db_setup.py` are stated as
invariants: the unique tag name, the `difficulty` CHECK, the `recipe_tags`
primary key and the foreign keys.

Modules:

- `Wrappers`: `Option` and `Result`.
- `Text`: Python's `strip`, `split`, `lower` and `replace`; SQLite's ASCII-only `LOWER`.
- `Upload`: `allowed_file`.
- `Schema`: the rows of the six tables and the schema's constraints.
- `Submission`: the form parsing of `rezept_eintrag`.
  - the name check, the `int(... or default)` fields and the difficulty;
  - the `while True` ingredient loop up to the first gap;
  - the step lines and the tag list;
  - the get-or-create rule for tags, as a reference function `ResolveTags`.
- `RecipeList`: `rezepte`.
  - the sort argument and its fallback;
  - the four orders as an insertion sort;
  - the tag-filter join, including how many rows it yields per recipe.
- `RecipeDetail`: `rezept_detail`.
  - the lookups;
  - the `p` argument;
  - the multiplier, as an exact fraction.
- `Finder`: the candidate set of `was_koche_ich`, as written and with the corrected ingredient filter (see Findings).
- `RecipeStore`: the database and its writes.
  - the whole database as a value `Tables`, and the class `Store` that owns it;
  - the three inserting loops as methods proved against the reference functions (`InsertIngredients`, `InsertSteps`, `InsertTags`);
  - one submission as a transaction: `Store.Submit` commits by a single assignment, and a failed statement leaves the tables as they were;
  - the finder page, `Store.FindRecipes`.
- `SavedRecipe`: the round trip. After a saved submission, the detail page of the reported id shows what was submitted.

What a failed submission does:

- A missing name, or one that is blank after stripping, is rejected.
- An `int()` that raises, a difficulty the CHECK refuses, or a tag listed twice (the second `recipe_tags` row breaks the primary key) ends the request before the commit. Nothing is written in any of these cases, and the counters are unchanged.

Where the code and the design notes disagree, the model follows the code:

- Non-numeric portions or times raise `ValueError` (app.py:63-65). They are not replaced by a default.
- The difficulty values are `Einfach`, `Mittel` and `Schwer`. Any other submitted value is refused by the CHECK constraint; it is not mapped to a default.
- `base_portions` can be 0 or negative, since nothing checks it.

## Model

| member | source | states |
|---|---|---|
| Upload.LastDot | app.py:37 | the position found holds a dot and no dot follows it; there is none exactly when the name has no dot |
| Upload.AllowedFile | app.py:36-37 | `allowed_file` itself; an accepted name has a dot and an extension of three or four characters (its full meaning is AllowedFileIff) |
| Upload.LastDotUnique | app.py:37 | a dot with no dot after it is the one `rsplit('.', 1)` splits at |
| Upload.AllowedFileIff | app.py:36-37 | a file name is accepted exactly when it has a last dot and the text after it, lower-cased, is png, jpg, jpeg or gif; a name without a dot is always refused |
| Upload.AllowedFileByExtension | app.py:11 | whatever precedes it, a name ending in "." + ext (ext without dots) is accepted exactly when ext lower-cases to an allowed extension |
| Text.Strip | app.py:58 | the stripped text is empty exactly when the input is blank, and otherwise starts and ends with a non-space |
| Text.StripIdempotent | app.py:58 | stripping twice is stripping once |
| Text.Split | app.py:128 | Python's `str.split` on one character gives at least one piece and no piece holds the separator; JoinSplit and SplitJoin prove that it loses nothing and that it inverts a join of separator-free pieces (also used at app.py:137 and app.py:307) |
| Text.NonBlankStripped | app.py:128 | the `[s.strip() for s in … if s.strip()]` filter keeps no empty entry and never more entries than it is given; NonBlankStrippedAreStripped, NonBlankStrippedKeeps and NonBlankStrippedOnly prove each entry is the stripped form of a non-blank part and every non-blank part is kept (also used at app.py:137 and app.py:307) |
| Text.ReplaceChar | app.py:88 | `str.replace` of one character by another: same length, every occurrence replaced and every other character kept (also used at app.py:100 and app.py:307) |
| Text.JoinSplit | app.py:137 | joining the pieces of a split with the separator gives back the text |
| Text.SplitJoin | app.py:137 | splitting a join of separator-free pieces gives back the pieces |
| Text.StripBeforeSplitIrrelevant | app.py:126-128 | the non-blank stripped lines of a text do not change when the text is stripped first |
| Text.PyLowerIdempotent | app.py:307 | lower-casing twice is lower-casing once |
| Text.PyLower | app.py:307 | Python's `lower`: same length, each character lower-cased alone, folding the ASCII and the Latin-1 capitals |
| Text.AsciiLower | app.py:309 | SQLite's `LOWER`: same length, each character lower-cased alone, folding only the 26 ASCII capitals |
| Text.LowerAgreeOnAscii | app.py:309 | on ASCII text, Python's `lower` and SQLite's `LOWER` agree |
| Schema.SameNameSameTag | db_setup.py:55 | with unique tag names, two tags of the same name are one tag |
| Schema.SameIdSameTag | db_setup.py:54 | with increasing tag keys, an id names one tag |
| Schema.StepsNumberedSnoc | app.py:129-133 | a step numbered one past the earlier steps of its recipe keeps the numbering, and counts once more for its recipe only |
| Schema.StepsOfMembers | app.py:255-257 | the steps of a recipe are exactly its rows of the step table |
| Schema.StepsOf | app.py:255-257 | the step query of a recipe, in table order (its contract is StepsOfMembers and StepsOfLength) |
| Schema.StepsOfLength | app.py:255-257 | a recipe has as many steps as the step table has rows for it |
| Schema.StepsOfNumbered | app.py:255-257 | under the numbering invariant, a recipe's steps in table order are numbered 1..n, so `ORDER BY step_number` is table order |
| Submission.ParseHeader | app.py:58-66 | the name check fails exactly for a blank name; then a failing `int()`; then a refused difficulty; a passing header has the stripped non-empty name, the parsed portions, preparation and cooking times (1, 0 and 0 when absent or empty) and the submitted difficulty (Einfach when absent or empty), which is an allowed one |
| Submission.SubmittedName | app.py:58-59 | the submitted name is empty exactly when the `name` field is absent or blank, and it is already stripped |
| Submission.NumbersFail | app.py:63-65 | the numeric fields fail exactly when one of `portionen`, `prep_time` or `cook_time` was sent non-empty and `int()` refuses it |
| Submission.IntField | app.py:63-65 | a numeric field that is absent or empty takes its default; otherwise its value is parsed |
| Submission.SubmittedDifficulty | app.py:66 | an absent or empty difficulty is Einfach; otherwise the value sent |
| Submission.OptionalText | app.py:92 | an optional text column is NULL exactly when the field is blank, and otherwise is the stripped field |
| Submission.OptionalAmount | app.py:84-90 | a blank amount is stored as NULL; otherwise the stripped text, with commas read as decimal points, is parsed, and a failed parse is stored as NULL |
| Submission.ParseIngredient | app.py:84-104 | row i stores the stripped `name_i`; unit, alternative name and alternative unit are NULL exactly when blank and otherwise the stripped text; an amount or alternative amount is NULL when blank and otherwise the float of the stripped text with ',' read as '.' (NULL when that does not parse) |
| Submission.GapFrom | app.py:78-81 | the loop, started at i, stops at the first index from i whose `name_<index>` is missing or empty, and every index before it has a name |
| Submission.HasIngredient | app.py:79-80 | the loop goes on exactly while `name_i` is sent and not empty |
| Submission.FirstGapUnique | app.py:78-81 | the first gap is the only index with a gap and no gap before it |
| Submission.ParseIngredients | app.py:77-123 | one row per index before the first gap, row j read from the fields with suffix j |
| Submission.ParseIngredientsFirstGap | app.py:77-81 | the loop stores exactly k rows, where every `name_0`..`name_{k-1}` is present and `name_k` is missing or empty |
| Submission.IngredientsIgnoreAfterGap | app.py:78-81 | indices after the first gap are never read: forms that agree up to the gap store the same rows |
| Submission.IngredientRows | app.py:107-121 | the k-th row of a submission gets key first+k and the new recipe's id |
| Submission.StepTextsAreLines | app.py:126-128 | the steps are the non-blank lines of the text, stripped, in order; the outer strip and the emptiness test change nothing |
| Submission.StepTexts | app.py:126-128 | every step text stored is non-empty and already stripped |
| Submission.BlankStepTextGivesNoSteps | app.py:126-127 | blank step text stores no steps |
| Submission.StepRows | app.py:129-133 | step k of a submission gets key first+k, number k+1 and the k-th line |
| Submission.TagIdByName | app.py:141 | the lookup finds a tag of that name; it finds none exactly when no tag has that name |
| Submission.TagList | app.py:136-137 | every listed tag name is non-empty and already stripped |
| Submission.ResolveTags | app.py:139-146 | one tag id per listed name, the old tag rows kept as a prefix, the counter never decreasing |
| Submission.ResolveTagsStep | app.py:139-146 | each further name is looked up in the table grown so far: an existing tag gives its id, a missing one is inserted under the next key |
| Submission.ResolveTagsKeepsTable | app.py:141-146 | get-or-create keeps tag keys increasing below the counter and tag names unique |
| Submission.ResolveTagsLinksNames | app.py:139-151 | every listed name ends up as a tag whose id is the one linked for it |
| Submission.ResolveTagsNewAreListed | app.py:144-146 | every tag row added carries a listed name |
| Submission.ResolveTagsKeepsOld | app.py:141-143 | every tag that was there before is still there |
| Submission.ResolveTagsExistingKeepId | app.py:141-143 | a listed name that already had a tag is linked under that tag's id |
| Submission.ResolveTagsNewAreMissing | app.py:144-146 | a tag row is added only for a name no tag had before |
| Submission.ResolveTagsMissingInserted | app.py:144-146 | a listed name that no tag had is the name of an added row |
| Submission.ResolveTagsIdsMatchNames | app.py:139-146 | two listed names get the same tag id exactly when they are the same name |
| Submission.ResolveTagsRepeatedId | app.py:148-151 | the id of the next name is among the earlier ids exactly when the name was listed before |
| Submission.LinkRows | app.py:148-151 | the k-th link joins the new recipe to the k-th resolved tag id |
| Submission.LinkRowsMember | app.py:148-151 | the new recipe is linked to a tag exactly when the tag's id was resolved |
| Submission.HasDuplicateSnoc | app.py:148-151 | one more name makes the list repeat exactly when the list already repeats or the name was listed before |
| Submission.HasDuplicate | app.py:148-151 | a predicate with no ensures of its own: some name occurs twice in the list. HasDuplicateSnoc and ResolveTagsRepeatedId prove it holds exactly when a `recipe_tags` key repeats, which is the primary-key violation |
| RecipeList.SortOrderOf | app.py:191-201 | name ascending exactly when the argument is absent or is none of name_desc, prep_asc and prep_desc |
| RecipeList.SortParameterRoundTrip | app.py:196-201 | each of the four orders is chosen by its own argument |
| RecipeList.LexLeTotal | app.py:195 | any two names compare under SQLite's text order |
| RecipeList.LexLeTrans | app.py:195 | SQLite's text order is transitive |
| RecipeList.LexLeAntisym | app.py:195 | names that compare both ways are equal |
| RecipeList.Precedes | app.py:195-201 | a predicate with no ensures of its own: the four ORDER BY clauses (name by `NOCASE` either way, preparation time either way). PrecedesTotal and PrecedesTrans prove each is a total preorder, and SortBy sorts by it |
| RecipeList.PrecedesTotal | app.py:195-201 | every order compares any two recipes |
| RecipeList.PrecedesTrans | app.py:195-201 | every order is transitive |
| RecipeList.Insert | app.py:195-201 | inserting a recipe into a sorted list keeps it sorted and adds exactly that recipe |
| RecipeList.SortBy | app.py:216-218 | the listing is sorted in the chosen order and is a permutation of the rows |
| RecipeList.Tagged | app.py:208-214 | a recipe passes the tag filter exactly when it is linked to a tag of exactly that name |
| RecipeList.TagRowCountOnce | db_setup.py:54 | with increasing tag keys a tag row occurs at most once |
| RecipeList.JoinRows | app.py:209-212 | the join never yields a row that is not in the recipes table (its multiplicity is LinkHitsCount) |
| RecipeList.LinkHitsCount | app.py:209-212 | under the schema's constraints the join yields a recipe once if it is linked to a tag of that name, and otherwise not at all |
| RecipeList.JoinIsTagged | app.py:208-214 | under the schema's constraints the join is exactly the tag filter, in table order |
| RecipeList.Matching | app.py:204-214 | the rows before ordering all come from the recipes table |
| RecipeList.Listing | app.py:204-218 | the page lists the filtered rows, sorted in the chosen order, as a permutation |
| RecipeList.ListingMembers | app.py:208-218 | a recipe is listed exactly when it is in the table and, with a non-empty tag argument, is linked to a tag of exactly that name |
| RecipeList.ListingOnce | app.py:208-218 | under the schema's constraints no recipe is listed twice |
| RecipeDetail.RequestedPortions | app.py:272 | an absent or empty `p` means the base portions; otherwise the parsed value |
| RecipeDetail.Multiplier | app.py:273 | 1 when the base is 0, and otherwise a fraction equal to portions / base |
| RecipeDetail.DefaultPortionsUnscaled | app.py:272-273 | without `p` the multiplier equals 1 |
| RecipeDetail.MultiplierOfMultiple | app.py:273 | asking for k times the base portions gives the multiplier k |
| RecipeDetail.DetailScaled | app.py:272-273 | asking for k times a recipe's non-zero base portions shows it with k times the base and a multiplier equal to k |
| RecipeDetail.FindRecipe | app.py:241-247 | the lookup returns a row with that id, and none exactly when no row has it |
| RecipeDetail.IngredientsOf | app.py:250-252 | the ingredients shown are exactly the recipe's ingredient rows |
| RecipeDetail.PhotosOf | app.py:260-262 | the file names shown are exactly those of the recipe's photo rows |
| RecipeDetail.NamesWithId | app.py:265-269 | the names of the tags with that id |
| RecipeDetail.TagNamesOf | app.py:265-269 | a tag name is shown exactly when the recipe is linked to a tag of that name |
| RecipeDetail.Detail | app.py:241-273 | not found exactly when no recipe has the id; a `ValueError` exactly when the recipe exists and a non-empty `p` does not parse; otherwise that recipe with exactly its ingredients, steps, photo names and tag names, the portions asked for and a multiplier equal to portions / base (1 for a base of 0) |
| RecipeDetail.DetailStepsInOrder | app.py:255-257 | the page lists the steps numbered 1..n in that order |
| RecipeDetail.DetailDefaultUnscaled | app.py:272-273 | without `p` an existing recipe is shown with its base portions and a multiplier of 1 |
| Finder.SearchTerms | app.py:307 | no search term is empty |
| Finder.SearchTermsMembers | app.py:307 | a term is exactly the lower-cased stripped text of a non-blank entry between commas or line breaks |
| Finder.SearchTermsOfName | app.py:307 | a stripped name without separators is its own single term, lower-cased |
| Finder.IngredientHitsAsWritten | app.py:309-311 | as written: the recipes having an ingredient whose `LOWER`-ed name is a term |
| Finder.IngredientHits | app.py:307-311 | corrected filter (see Findings): the recipes having an ingredient whose name, lower-cased by Python's rules like the terms, is a term |
| Finder.TagHits | app.py:315-319 | the recipes linked to a tag of exactly that name |
| Finder.Combine | app.py:303-320 | `recipe_ids` is undefined exactly when neither filter is given; otherwise it holds the recipes every given filter selects, which is the intersection when both are given |
| Finder.CandidatesAsWritten | app.py:303-320 | as written: undefined without filters; otherwise the recipes having an ingredient whose `LOWER`-ed name is a term (when ingredients are given) and linked to a tag of exactly that name (when a tag is given) |
| Finder.Candidates | app.py:303-320 | corrected (see Findings): the same, with the stored ingredient names lower-cased by Python's rules |
| Finder.CandidatesAgreeOnAscii | app.py:303-320 | with ASCII ingredient names the handler as written and the corrected one select the same recipes |
| Finder.FindsOwnIngredient | app.py:307-311 | searching a stored ingredient's own name finds its recipe |
| Finder.HitsIgnoreCase | app.py:307-311 | a term and its lower-cased form select the same recipes |
| Finder.HitsAgreeOnAscii | app.py:309 | with ASCII ingredient names, the filter as written and the corrected one agree |
| Finder.ApplesTerms | app.py:307 | searching "Äpfel" looks for the single term "äpfel" |
| Finder.ApplesLowerDiffer | app.py:309 | `LOWER("Äpfel")` is not the term "äpfel" |
| Finder.AsWrittenMissesOwnName | app.py:307-320 | with the one ingredient "Äpfel" stored, searching "Äpfel" finds nothing as written (an empty candidate set) and finds its recipe corrected |
| RecipeStore.EmptyTablesOk | db_setup.py:5-84 | an empty database meets every constraint of the schema |
| RecipeStore.TablesOk | db_setup.py:5-84 | a ghost predicate with no ensures of its own: every key, foreign key, UNIQUE, CHECK and primary-key constraint of the schema. EmptyTablesOk and SubmitKeepsTables prove it holds for a fresh database and after every submission |
| RecipeStore.IngredientsOkRows | app.py:107-121 | the ingredient rows of a new recipe keep keys increasing and every ingredient's recipe present |
| RecipeStore.StepsOkRows | app.py:129-133 | the step rows of a new recipe keep keys increasing, every step's recipe present and the per-recipe numbering, and give the recipe exactly n steps |
| RecipeStore.TagsOkResolved | app.py:139-151 | the tags and links of a new recipe with distinct names keep tag names unique, links distinct and every link's recipe and tag present |
| RecipeStore.RecipeIdsSnoc | app.py:69-74 | the new recipe row adds exactly the next key, which no recipe had |
| RecipeStore.SaveRecipe | app.py:69-151 | a save only appends: every table keeps its old rows as a prefix; the new recipe row holds the header under the next key; the appended ingredient, step and link rows are exactly those of the parsed ingredients, the step lines and the resolved tag ids, under that key; the tag table is the one get-or-create leaves; the photos are untouched |
| RecipeStore.SubmitResult | app.py:55-177 | a submission that does not save leaves the database exactly as it was; a save reports the next recipe key and appends the recipe row with the submitted name |
| RecipeStore.SubmitKeepsTables | app.py:55-177 | every submission, saved or not, keeps every constraint of the schema |
| RecipeStore.SubmitOutcome | app.py:58-174 | blank name, failing `int()`, refused difficulty and a repeated tag are each reported exactly when they happen; a save reports the next recipe key; only a save writes anything |
| RecipeStore.RecipesWithIds | app.py:333-336 | exactly the recipes whose id is in the set, in table order |
| RecipeStore.RecipesWithIdsIncreasing | app.py:333-336 | the selection keeps the table's increasing keys, so each row comes once |
| RecipeStore.OneRecipeWithId | app.py:326 | with increasing keys an existing id selects exactly one row |
| RecipeStore.NoRecipeWithId | app.py:326 | an id no row has selects no row |
| RecipeStore.InsertIngredients | app.py:77-123 | the `while True` loop appends exactly the rows of the indices before the first gap, under consecutive keys |
| RecipeStore.InsertIngredientRow | app.py:106-123 | one turn of that loop, at an index before the first gap, extends the table by exactly the row of that index and the key counter by one |
| RecipeStore.InsertSteps | app.py:126-133 | the step loop appends the non-blank stripped lines numbered 1..n under consecutive keys |
| RecipeStore.GetOrCreateTag | app.py:141-146 | an existing tag's id with the table unchanged, or a new tag under the next key; either way a tag of that name with the returned id |
| RecipeStore.InsertTags | app.py:136-151 | the tag loop succeeds exactly when no name is listed twice, and then leaves the tags and links that get-or-create gives |
| RecipeStore.WriteRecipe | app.py:69-151 | the statements of one submission succeed exactly when no tag is listed twice, and then write the recipe, its ingredient rows, steps, tags and links |
| RecipeStore.Store.constructor | db_setup.py:5-84 | a fresh database is empty and meets the schema's constraints |
| RecipeStore.Store.Submit | app.py:52-177 | the outcome and the new tables are those of the transaction, and the schema's constraints still hold |
| RecipeStore.Store.RandomRequested | app.py:301 | a random pick is asked for exactly when the `random` field was sent non-empty |
| RecipeStore.Store.CandidatesFor | app.py:299-323 | the finder has no candidate set, meaning no filter is given, exactly when both stripped inputs are empty |
| RecipeStore.Store.FindRecipes | app.py:298-338 | over the corrected candidate set (see Findings): without `random`, exactly the recipes in the candidate set, each once and in increasing key order, and none when neither filter is given; with it, one candidate, or, when there is no candidate, one recipe of the whole table (none if the table is empty) |
| SavedRecipe.FindNewRecipe | app.py:241-243 | the new row under an unused id is what the id lookup finds |
| SavedRecipe.IngredientsOfNew | app.py:250-252 | the ingredient rows of a new recipe after its older rows are all it shows |
| SavedRecipe.StepsOfAppend | app.py:255-257 | a recipe's steps in two tables one after the other are its steps in the first followed by those in the second |
| SavedRecipe.StepsOfNew | app.py:255-257 | the step rows of a new recipe are all its steps |
| SavedRecipe.TagNamesOfNew | app.py:265-269 | the tag names shown for a new recipe are exactly the names listed for it |
| SavedRecipe.SavedPage | app.py:241-273 | after a save, the page of the new id shows the recipe row, the rows written for it and the listed tag names, at base portions |
| SavedRecipe.SubmitThenDetail | app.py:236-284 | a saved recipe reads back: its page shows the recipe row of the submitted name, numbers (or their defaults) and difficulty at its base portions, one ingredient per entry before the first gap, the step lines numbered from 1 and exactly the listed tags |

## Left out

- Flask itself is not modelled: routing, `render_template`, `flash`, `redirect`, `url_for`, the index page (app.py:44-46) and the HTTP error page a raised exception produces. A failed submission is an `Outcome` value.
- `get_db` and `close_connection` (app.py:21-32) are not modelled. The open connection is the `Store` object, and the rollback on an uncommitted close is the rule that a failed submission writes nothing.
- Photo saving (app.py:154-172) is not modelled. It uses `secure_filename`, the filesystem and a random rename. The model never writes the photos table; `allowed_file` is modelled on its own.
- `float()` (app.py:88, 100) and `int()` (app.py:63-65, 272) are the function parameters `parseFloat` and `parseInt`, where None means `ValueError`. Python's handling of floats and the float value of the multiplier are not modelled.
- `random.choice` and `ORDER BY RANDOM()` (app.py:325, 328) are nondeterministic choices.
- The GET branches only read tag names for menus (app.py:180-181, 221, 296) and are not modelled.
- Form field names are a datatype `Key`: `name_3` is `Indexed("name", 3)`. The decimal formatting of `f"name_{i}"` is not modelled.
- Text.PyLower: Python's `lower()` is modelled for ASCII and Latin-1 capitals only. The rest of Unicode case mapping is left out.
- RecipeList.Listing: SQL leaves the order of rows that compare equal unspecified. The model keeps table order for them.
- RecipeDetail.IngredientsOf, RecipeDetail.PhotosOf, RecipeDetail.TagNamesOf and RecipeStore.RecipesWithIds: queries without `ORDER BY` are modelled in table order, which SQLite does not promise.
- RecipeStore.Store.FindRecipes: the contract says which rows the random pick may return, not which one it returns. Its ingredient filter is the corrected one (see Findings), so a stored non-ASCII name such as "Äpfel" is found where app.py:309 finds nothing; Finder.CandidatesAsWritten is the handler as written and Finder.CandidatesAgreeOnAscii shows the two agree on ASCII names.
- Finder.IngredientHits: this is the corrected filter, not app.py:309; it lower-cases the stored names with Python's rules where the source uses SQLite's ASCII-only `LOWER`. Finder.IngredientHitsAsWritten is the source's filter.
- Finder.Candidates: built on the corrected filter, so it is not the `recipe_ids` of app.py:303-320 for non-ASCII ingredient names; Finder.CandidatesAsWritten is.
- RecipeDetail.Detail: the lists on the page are specified by membership in this contract. Their order and multiplicity follow from `IngredientsOf`, `PhotosOf` and `TagNamesOf`. `SavedRecipe.SavedPage` states them in full for a new recipe.
- Integers are unbounded. SQLite's 64-bit limit on keys and values is not modelled.
- `ON DELETE CASCADE` is not modelled, because nothing here deletes rows. Requests are not concurrent.

## Findings

| source | as written | input that shows it | evidently intended | confidence | as-written member | corrected member |
|---|---|---|---|---|---|---|
| app.py:307-309 | the search terms are lower-cased by Python's `str.lower`, the stored names by SQLite's `LOWER`, which folds only ASCII | stored ingredient "Äpfel", searched as "Äpfel": the term becomes "äpfel", `LOWER` keeps "Äpfel", no recipe is found | both sides folded alike, so that an ingredient is found by its own name whatever its case | not executed; medium (follows from SQLite's documented ASCII-only `LOWER`) | Finder.AsWrittenMissesOwnName | Finder.FindsOwnIngredient |
