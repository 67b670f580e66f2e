# Recipe recommender: calorie extraction, ingredient normalisation, ranking

This project models the recipe-matching core of `recommendation.py` from the
Recommendation-AI repository. The core has three parts, and each part is written in
Dafny the way the Python source works:

- `extract_calories` finds the leftmost match of `(\d+)\s*kcal` (case-insensitive) in
  an energy text and returns its digits as an integer, or 0 when nothing matches.
  It is pure: module `Calories`.
- `pre_processing_ingredients` builds one record per raw recipe row. The row's
  ingredient text `"name: attribute, ..."` becomes a dict: the text is split on `", "`,
  each item on `": "`, only two-part items are kept, and both sides are lower-cased,
  stripped and have each whitespace run replaced by `_`. The dict's keys are joined with
  `", "` into `str_ingredients`, and the energy text becomes a calorie count. It is
  imperative, with nested loops: method `Ingredients.PreProcessIngredients` loops over
  the rows and calls method `Ingredients.ProcessRow` for each one. That method calls
  `Ingredients.FormatRow`, which holds the inner loop over the items. They are proved
  against the functions `Ingredients.BuildRecords`, `Ingredients.BuildRecord` and
  `Ingredients.FormatIngredients`.
- `recommend_recipes` keeps the records with `energy <= max_kcals`, scores each one,
  sorts by descending score with Python's stable sort and returns the first
  `num_recommendations`. It is imperative: method `Recommender.RecommendRecipes`, proved
  against the function `Recommender.Recommendation`.

Supporting modules:

- `Text` models the Python string operations the core uses, on `seq<char>`:
  `lower`, `strip`, `re.sub(r'\s+', '_', ...)`, `str.split` and
  `str.join`.
- `StableSort` models what `list.sort(key=..., reverse=True)` produces. The list
  ends up ordered by descending key, elements with equal keys keep their original
  order, and that result is the only one with both properties.

The similarity score is a parameter `score: string -> real`, applied to a record's
`str_ingredients`. It stands for `calculate_similarity(ingredients_list,
[row['str_ingredients']])[0]`. That value depends only on the query, which is fixed
for one call, and on that one row's `str_ingredients`.

Characters are restricted to ASCII:
- whitespace means the characters that Python's `str.isspace` and regex `\s` accept
  among ASCII, which are codes 9 to 13 and 28 to 32;
- case folding maps `A`–`Z` to `a`–`z`.

Three points of the code's behaviour that the model keeps:

- **Empty rows are kept.** Rows whose ingredient dict is empty stay in the corpus: one
  record per row, with an empty dict and an empty `str_ingredients`. That is what
  `PreProcessIngredients` states.
- **Keys are joined with `", "`.** `str_ingredients` is the dict's keys joined with
  `", "`, and `BuildRecord` does the same.
- **`num_recommendations` is not checked.** A limit of 0 gives an empty answer.

Two properties that are easy to expect hold only in a narrower form:

- **A zero count is not always "no match".** Text such as `"0 kcal"` matches and
  yields 0. `ExtractCaloriesZero` states the exact condition for a result of 0.
- **Keys can start or end with `_`.** This happens when the raw name has `_` at its
  edges. The edges of a normalised key are the lower-cased first and last non-blank
  characters of the raw text (`NormaliseShape`). So a key neither starts nor ends
  with `_` when the raw text contains no `_` (`NormaliseNoEdgeUnderscore`).

## Model

| member | source | states |
|---|---|---|
| Calories.DecimalString | recommendation.py:15 | the numeral of n is non-empty, all digits, and `int()` of it gives n back |
| Calories.DecimalValueZero | recommendation.py:15 | `int(d)` of a digit run is 0 exactly when every digit is `0` |
| Calories.MatchesAtIff | recommendation.py:14 | the greedy scan from i succeeds exactly when the regex has a match starting at i, and a match starting at i has the whole digit run as its group and the kcal token right after the blanks that follow |
| Calories.SearchFrom | recommendation.py:14 | a reported span lies inside the text from i on and consists of digits |
| Calories.SearchSpec | recommendation.py:14 | `re.search` finds nothing exactly when the text has no match; otherwise it reports the leftmost match, and the leftmost match is unique |
| Calories.ExtractCaloriesSpec | recommendation.py:13-15 | the result is 0 when nothing matches, and otherwise the value of the leftmost match's digits |
| Calories.ExtractCaloriesZero | recommendation.py:13-15 | the result is 0 exactly when there is no match or the leftmost match's digits are all `0` |
| Calories.ExtractCaloriesOfQuantity | recommendation.py:13-15 | a numeral, optional blanks and `kcal` in any case, followed by any text, reads back as that number |
| Calories.Example250 | recommendation.py:13-15 | `"250 kcal"` gives 250 |
| Calories.Example300 | recommendation.py:13-15 | `"300 KCAL"` gives 300 |
| Calories.ExampleNoData | recommendation.py:13-15 | a text without digits gives 0 |
| Text.LowerChar | recommendation.py:25-26 | `lower()` on one character maps each capital `A`–`Z` to the lower-case letter at the same place in the alphabet, and leaves every other character as it is |
| Text.Lower | recommendation.py:25-26 | `lower()` lowers every character and keeps the length |
| Text.SkipSpaces | recommendation.py:25-26 | the scan that `lstrip()` and a `\s+` match do: the returned index ends a run of whitespace starting at i and is followed by a non-blank character or the end |
| Text.TrimEnd | recommendation.py:25-26 | the scan that `rstrip()` does: everything from the returned index up to j is whitespace, and the character before it is not |
| Text.StripLeftAt | recommendation.py:25-26 | `lstrip()` keeps the text from the first non-blank character on |
| Text.StripRightAt | recommendation.py:25-26 | `rstrip()` keeps the text up to and including the last non-blank character |
| Text.StripInfix | recommendation.py:25-26 | `strip()` is the slice from the first to the last non-blank character |
| Text.ReplaceSpaceRuns | recommendation.py:25-26 | after `re.sub(r'\s+', '_', ...)` there is no whitespace; the result is empty only for empty input; a non-blank first or last character stays first or last |
| Text.ReplaceSpaceRunsNoUpper | recommendation.py:25-26 | the replacement adds no upper-case letter |
| Text.ReplaceSpaceRunsBlank | recommendation.py:25-26 | a non-empty whitespace run becomes exactly one `_` |
| Text.ReplaceSpaceRunsAppend | recommendation.py:25-26 | when a text is cut outside any whitespace run, its replacement is the two pieces' replacements concatenated; with `ReplaceSpaceRunsBlank` and `ReplaceSpaceRunsNoSpace` this fixes the result on every input |
| Text.ReplaceSpaceRunsExample | recommendation.py:25-26 | `"a  b"` becomes `"a_b"` |
| Text.NormaliseShape | recommendation.py:25-26 | a normalised text has no whitespace and no upper case; it is empty exactly when the raw text is all blank; its first and last characters are the lower-cased first and last non-blank characters of the raw text |
| Text.NormaliseNoEdgeUnderscore | recommendation.py:25-26 | a raw text without `_` normalises to a text that neither starts nor ends with `_` |
| Text.ReplaceSpaceRunsNoSpace | recommendation.py:25-26 | replacing whitespace runs changes nothing in a text that has none |
| Text.NormaliseIdempotent | recommendation.py:25-26 | normalising twice is normalising once |
| Text.Find | recommendation.py:23 | the place where `split` cuts: the reported position is an occurrence of the separator and none lies before it; no position means no occurrence |
| Text.SplitAt | recommendation.py:20 | `split` cuts at the first occurrence of the separator and goes on with the rest after it |
| Text.SplitAbsent | recommendation.py:20 | a string that lacks the separator's first character splits into itself |
| Text.JoinCons | recommendation.py:27 | joining a first part and a non-empty rest puts the separator between the first part and the join of the rest |
| Text.JoinSplit | recommendation.py:20 | joining the pieces of `split(sep)` with sep gives the string back |
| Text.SplitPiecesFree | recommendation.py:20 | no piece of `split(sep)` contains sep |
| Text.SplitOnePiece | recommendation.py:20 | `split(sep)` gives one piece exactly when sep does not occur |
| Text.SplitTwoParts | recommendation.py:23-24 | `item.split(": ")` has exactly two parts exactly when `": "` occurs exactly once |
| Text.SplitCommaFirst | recommendation.py:20 | in `a + ", " + b` where a does not contain `", "`, `split(", ")` cuts first right after a |
| Text.SplitJoinComma | recommendation.py:20-27 | splitting on `", "` a `", "`-join of one or more parts, none of which contains `", "`, gives the parts back |
| Ingredients.Assign | recommendation.py:26 | `d[k] = v` keeps the keys distinct and the key list equal to the map's domain |
| Ingredients.PreProcessIngredients | recommendation.py:17-37 | one record per row, in row order, including rows whose dict is empty; record i is built from row i |
| Ingredients.EachSpec | recommendation.py:19-36 | mapping a function over a sequence gives one result per element, result i from element i |
| Ingredients.BuildRecordsSpec | recommendation.py:17-37 | the record list has one record per row, and record i is `BuildRecord` of row i |
| Ingredients.ProcessRow | recommendation.py:20-36 | one loop iteration over the rows builds exactly the record of that row: name, text, dict, calories, cooking time and `str_ingredients` |
| Ingredients.FormatRow | recommendation.py:20-26 | the inner loop builds exactly the dict of the row's ingredient text |
| Ingredients.CollectStep | recommendation.py:22-26 | one loop iteration: a two-part item assigns its normalised name and attribute into the dict, and any other item leaves the dict unchanged |
| Ingredients.ParseItemIff | recommendation.py:23-24 | an item contributes exactly when `": "` occurs in it exactly once |
| Ingredients.ParseItemNormal | recommendation.py:25-26 | a contributed name and attribute are in normal form and are fixed points of normalisation |
| Ingredients.KeepSpec | recommendation.py:22-24 | the kept results are exactly the results of the accepted elements |
| Ingredients.PairsSpec | recommendation.py:22-24 | the pairs are exactly the parses of the well-formed items, and there are no more pairs than items |
| Ingredients.CollectValid | recommendation.py:21-26 | the built dict has distinct keys, and its key list equals its domain |
| Ingredients.CollectKeys | recommendation.py:21-26 | a name is a key exactly when some pair carries it |
| Ingredients.CollectSize | recommendation.py:21-26 | there are no more keys than pairs |
| Ingredients.CollectLastWins | recommendation.py:26 | each key holds the attribute of the last pair with that name |
| Ingredients.CollectOrder | recommendation.py:26-27 | the keys stand in the order in which their names first occur (dict insertion order) |
| Ingredients.FormatIngredientsNormal | recommendation.py:20-26 | the dict is valid and has no more keys than items; every key and attribute is normalised and stable under normalising again |
| Ingredients.StrIngredientsEmpty | recommendation.py:27 | with no well-formed item, the dict has no keys and `str_ingredients` is empty |
| Ingredients.StrIngredientsSplit | recommendation.py:27 | splitting `str_ingredients` on `", "` gives exactly the dict's keys, in dict order |
| Ingredients.FormatIngredientsOfItems | recommendation.py:20-26 | an ingredient text that is a `", "`-join of items, none of which contains `", "`, gives the dict built from exactly those items, so `CollectLastWins` and `CollectOrder` describe the dict of any such text |
| Ingredients.ItemOf | recommendation.py:23 | an item `name + ": " + attr` with no `:` on either side splits into `[name, attr]` |
| Ingredients.ParseItemOf | recommendation.py:23-26 | such an item contributes its name and attribute, each normalised |
| Ingredients.ParseItemOfWords | recommendation.py:23-26 | when name and attribute are already in normal form, the item contributes them unchanged |
| Ingredients.NormaliseOfWord | recommendation.py:25-26 | a word without whitespace or upper case is its own normal form |
| Ingredients.KeepPair | recommendation.py:22-24 | two accepted items both contribute, in order |
| Ingredients.ExamplePairs | recommendation.py:22-26 | the items `"a: x"` and `"b: y"` give the pairs `("a", "x")` and `("b", "y")` |
| Ingredients.ExampleCollect | recommendation.py:21-26 | assigning those pairs gives the dict `{"a": "x", "b": "y"}` with keys in that order |
| Ingredients.FormatIngredientsExample | recommendation.py:20-26 | the ingredient text `"a: x, b: y"` gives `{"a": "x", "b": "y"}` |
| Ingredients.SingleItem | recommendation.py:20-26 | an ingredient text that is one well-formed item gives a dict whose only key is that item's name |
| Ingredients.EmptyNameStillKey | recommendation.py:24-26 | the ingredient text `": " + attr`, with neither `:` nor `,` in attr, gives a dict whose only key is the empty name |
| Ingredients.EmptyNameEmptyStr | recommendation.py:24-27 | such a row has a non-empty dict but an empty `str_ingredients` |
| StableSort.SortDescPerm | recommendation.py:54 | the sorted list is a permutation of the original list |
| StableSort.SortDescSorted | recommendation.py:54 | the sorted list is non-increasing in the key |
| StableSort.SortDescStable | recommendation.py:54 | for every key value, the elements with that key keep their original order |
| StableSort.SortDescUnique | recommendation.py:54 | any list that is sorted descending and keeps the original order within every key equals the sort's result |
| StableSort.WithKeyAppend | recommendation.py:54 | taking the elements with one key distributes over concatenation |
| StableSort.SortedSameGroupsEqual | recommendation.py:54 | two descending lists with the same order within every key are equal |
| Recommender.RecommendRecipes | recommendation.py:48-55 | the answer is the candidates sorted by descending score and cut to the first n; every row is within the budget; the scores never increase |
| Recommender.Candidates | recommendation.py:50-53 | there are no more candidates than recipes |
| Recommender.CandidatesAppend | recommendation.py:50-53 | filtering distributes over concatenation, so candidates stand in corpus order |
| Recommender.CandidatesCount | recommendation.py:50-53 | there are as many candidates as recipes within the budget |
| Recommender.CandidatesMembers | recommendation.py:50-53 | a candidate is exactly the tuple of a recipe within the budget |
| Recommender.RecommendationSubset | recommendation.py:54-55 | the answer holds only candidates, each at most as often as it occurs among the candidates |
| Recommender.RecommendationWithinBudget | recommendation.py:51-55 | every answer row is the tuple of a corpus recipe whose energy is at most `max_kcals` |
| Recommender.RecommendationLength | recommendation.py:51-55 | the answer has min(n, number of recipes within the budget) rows |
| Recommender.RecommendationOrdered | recommendation.py:54-55 | the similarities along the answer never increase |
| Recommender.RecommendationTopK | recommendation.py:54-55 | no candidate left out of the answer scores higher than a row in it |
| Recommender.RecommendationTies | recommendation.py:54-55 | for every score, the answer's rows with that score are a prefix, in corpus order, of the candidates with that score |

## Left out

- The Flask application and the `/recommend` route (recommendation.py:1, 7, 57-79) are
  left out. They are HTTP transport: JSON parsing, the defaults 500 and 5, the query
  dict and the mapping of exceptions to status codes.
- Loading the CSV with `pd.read_csv` (recommendation.py:10) is file I/O. The model
  starts from a sequence of rows.
- The pandas containers are plain sequences: `iterrows` is indexing, and the
  `DataFrame` built on lines 37 and 55 is the sequence of records or matches.
- `calculate_similarity` (recommendation.py:41-46) is left out. It computes TF-IDF and a
  cosine similarity in floating point through scikit-learn. The model takes the score
  as a function parameter and proves nothing about its values or range. The exception
  the vectoriser raises for an empty vocabulary is not modelled either.
- Calories.ExtractCaloriesSpec: the `ValueError` that `int()` raises on a digit group
  longer than 4300 characters is not modelled. CPython 3.11 and later enforce this limit
  (`sys.get_int_max_str_digits()`), and so do the security releases of 3.7–3.10. The model
  returns the group's value instead, so for such an energy text it gives a number where
  the code fails, and the corpus load at recommendation.py:39 fails with it.
- Calories.ExtractCaloriesZero: for a leftmost group of more than 4300 zeros it states a
  result of 0, where `int()` raises `ValueError`. This is the same unmodelled limit.
- Calories.ExtractCaloriesOfQuantity: the read-back of n holds only when n has at most
  4300 digits. For longer numerals `int()` raises `ValueError`, and the model does not
  capture that.
- Cells that pandas reads as NaN or as non-strings are not modelled: every row field
  is a string.
- Characters outside ASCII are not modelled:
  - Unicode digits that `\d` also accepts;
  - the Kelvin sign, which matches `k` under `IGNORECASE`;
  - non-ASCII whitespace;
  - full-Unicode `lower()`.
- Recommender.RecommendRecipes: the in-place `list.sort` (Timsort) is modelled by its result
  (`StableSort.SortDesc`), not by its algorithm.
- Recommender.RecommendRecipes: a negative `num_recommendations` is excluded; `numRecommendations`
  is a `nat`. Python's slice would then drop elements from the end.
- Recommender.RecommendRecipes: `max_kcals` is a real number, which covers integers and finite
  floats. A NaN budget and NaN scores are excluded, because NaN breaks comparisons and
  sorting.
