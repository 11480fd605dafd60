# WasteLess food stock: a verified model of the inventory and recipe core

WasteLess keeps, per user, a stock of food items (name, quantity, unit,
expiration date) and a set of recipes with ingredient lists, and suggests
which recipes the user can cook from the stock. This project models its core
in Dafny:

- **Name keys** (`Names`): `normalize_name` strips surrounding whitespace
  (Python's `str.isspace` set) and lower-cases. Every food and ingredient
  comparison goes through this key.
- **Food table** (`FoodRepository`): the `food_stock` table is an immutable
  sequence of rows plus the next serial id. Each query is a selection over
  that sequence: find-existing, insert, quantity update, list, detail,
  delete, delete-all and the expiry window. Each owner's rows are selected
  through the single order-preserving `Seqs.Filter`.
- **Inventory service** (`FoodService`): add-or-merge keyed by (owner, name
  key, unit, expiration date); consume, which deletes an entry at a remainder
  of zero or less and updates it otherwise; detail; and the window
  `[today, today + days]` with `days` defaulting to 5. The table invariant
  (unique ids, at most one row per owner and merge key) is proved to be kept
  by every write.
- **Recipes** (`RecipeRepository`, `RecipeService`): recipe and ingredient
  tables; saving a recipe, which aborts with `CreationFailed` before any
  ingredient is written when the recipe insert returns no row; and the
  suggestion matcher. The matcher produces two exclusive shapes, `CanMake`
  with every ingredient name or `Partial` with the missing names in order.
  It depends only on the set of stocked name keys.
- **Legacy application** (`Legacy`): old_main.py's loop-based
  `compute_recipe_suggestions`, proved to compute exactly what the service
  computes. Its routes check the caller against the path owner before
  anything else. The add route answers 400 when the write returned no data.
  The suggest route nests the body under a second `suggestions` key.

The remote store's answers are parameters. For the inserts (food row,
recipe row, ingredient rows), `accepted` says whether the store returned the
created rows or no data. A quantity update always returns the updated rows. `today` is a day number passed in by
the caller, and `current` is the user id carried by the caller's token.
Failures are values (`Results.Result`) rather than raised HTTP exceptions;
each failure carries the HTTP status noted at its declaration (403, 404 or 400).

old_main.py's `add_or_update_food_item` and its consume route run the same
steps as the layered service. They are modelled once, by
`FoodService.AddOrUpdateFoodItem` and `FoodService.ConsumeItem`, and the
legacy routes call those definitions.

## Model

| member | source | states |
|---|---|---|
| `Names.StripStart` | old_main.py:105 | Leading strip: the result is a suffix of the input, everything dropped is whitespace, and the result does not start with whitespace |
| `Names.StripEnd` | old_main.py:105 | Trailing strip: the result is a prefix of the input, everything dropped is whitespace, and the result does not end with whitespace |
| `Names.Strip` | old_main.py:105 | `str.strip()`: the result is a slice of the input with only whitespace around it and no whitespace at either of its own ends |
| `Names.NormalizeName` | old_main.py:101-105 | The key is no longer than the name, has no surrounding whitespace and no ASCII capital, and is the lower-cased strip of the name |
| `Names.NormalizeIdempotent` | old_main.py:101-105 | Normalising a key again changes nothing |
| `Names.NormalizeIgnoresPadding` | old_main.py:101-105 | Whitespace added around a name never changes its key |
| `Names.NormalizeIgnoresAsciiCase` | old_main.py:101-105 | Lower-casing a name first never changes its key |
| `Names.NormalizeUnpadded` | old_main.py:101-105 | A name without surrounding whitespace is only lower-cased |
| `Names.NormalizeApfel` | tests/test_helpers.py:19 | "  ApFel  " has the key "apfel" |
| `Names.NormalizeBrot` | tests/test_helpers.py:20 | "\tBrot\n" has the key "brot" |
| `Names.NormalizeKaese` | tests/test_helpers.py:21 | "  KäSe" has the key "käse" (the non-ASCII letter is already lower case) |
| `FoodRepository.FindExistingFoodRow` | app/repositories/food.py:10-21 | A row is returned only if it is stored and matches owner, normalised name, unit and date; None exactly when no stored row matches all four |
| `FoodRepository.FindExistingIsUnique` | app/repositories/food.py:10-21 | Under the table invariant, the row found is the only row of that owner with that merge key |
| `FoodRepository.InsertFoodItem` | app/repositories/food.py:23-36 | An accepted insert appends exactly one row with the next id, the owner, the display name as given and its normalised key beside it, returning that row; a refused one changes nothing and returns no data |
| `FoodRepository.UpdateFoodQuantity` | app/repositories/food.py:38-46 | Only the quantity of rows matching both id and owner changes; every other row and field is untouched; the data is the updated rows |
| `FoodRepository.UpdateFoodQuantityIsScoped` | app/repositories/food.py:38-46 | A quantity update never changes another user's listing |
| `FoodRepository.AllFoodItems` | app/repositories/food.py:48-50 | Every row of the owner, with its multiplicity, and no row of anyone else |
| `FoodRepository.GetFoodItemDetail` | app/repositories/food.py:52-61 | The returned row is stored, belongs to the owner and has the id; None exactly when the owner has no row with that id |
| `FoodRepository.DetailIsOwnerScoped` | app/repositories/food.py:52-61 | An id that belongs to another user's row is not found for this user |
| `FoodRepository.DeleteFoodItem` | app/repositories/food.py:63-64 | Removes exactly the rows matching both owner and id; every other row keeps its multiplicity |
| `FoodRepository.DeleteFoodItemIsScoped` | app/repositories/food.py:63-64 | Deleting one entry never changes another user's listing |
| `FoodRepository.DeleteAllFoodForUser` | app/repositories/food.py:66-67 | Removes every row of the owner and keeps every other row with its multiplicity |
| `FoodRepository.DeleteAllFoodIsScoped` | app/repositories/food.py:66-67 | Afterwards the owner's listing is empty and every other user's listing is exactly as before |
| `FoodRepository.DeleteAllFoodIdempotent` | app/repositories/food.py:66-67 | Deleting all of a user's food twice leaves the same table as once |
| `FoodRepository.SortByExpiry` | app/repositories/food.py:76 | Ascending by expiration date, and a permutation of the input |
| `FoodRepository.GetExpiringItems` | app/repositories/food.py:69-79 | Exactly the owner's rows with start <= date <= end, each with its multiplicity, sorted ascending by date |
| `FoodRepository.InsertKeepsWellFormed` | app/repositories/food.py:23-36 | Inserting a row whose key its owner does not use yet keeps ids unique and keys unique per owner |
| `FoodRepository.UpdateKeepsWellFormed` | app/repositories/food.py:38-46 | A quantity update keeps the table invariant |
| `FoodRepository.DeleteKeepsWellFormed` | app/repositories/food.py:63-67 | Both deletes keep the table invariant |
| `FoodService.AddOrUpdateFoodItem` | app/services/food_service.py:11-24 | With a matching row: tag Updated, only that row's quantity becomes existing + added, no row is inserted, and the data is the updated row. Without one: tag Created, and exactly one new row with the next id carrying the item, returned as the data (or no change and no data, when the store refuses) |
| `FoodService.AddKeepsWellFormed` | app/services/food_service.py:11-24 | Add keeps at most one row per owner and (name key, unit, date), and unique ids |
| `FoodService.AddTwiceMerges` | app/services/food_service.py:11-24 | Adding the same food twice, under any spelling with the same key, creates one row and then merges into it: one row holding the sum, older rows untouched |
| `FoodService.ConsumeItem` | app/services/food_service.py:35-46 | NotFound and no change for an entry the owner lacks; at a remainder <= 0 the entry is removed and all else kept; above 0 the entry holds exactly quantity - amount, no other row changes, and the reply carries the updated row |
| `FoodService.ConsumeWrites` | app/services/food_service.py:40-46 | The table after a consume is the repository's delete or its update, chosen by the remainder |
| `FoodService.ConsumeKeepsWellFormed` | app/services/food_service.py:35-46 | Consume keeps the table invariant |
| `FoodService.ConsumeAllThenNotFound` | app/services/food_service.py:35-46 | Consuming at least the whole quantity removes the entry, so consuming it again is NotFound |
| `FoodService.GetFoodItem` | app/services/food_service.py:29-33 | The owner's entry when there is one; NotFound exactly when the owner has no row with that id |
| `FoodService.ExpiringItems` | app/services/food_service.py:56-60 | Exactly the owner's rows dated in [today, today + days], days defaulting to 5, soonest first |
| `FoodRepository.DeleteFoodItemIdempotent` | app/services/food_service.py:48-50 | Deleting an entry twice gives the same store as deleting it once |
| `RecipeRepository.CreateRecipe` | app/repositories/recipes.py:9-19 | An accepted insert appends one recipe row with the next id, owner and title, storing "" for a missing description, and returns it; otherwise None and no change |
| `RecipeRepository.AddIngredients` | app/repositories/recipes.py:21-33 | One row per input ingredient, in input order, each with the recipe id, the display name and its normalised key, quantity and unit |
| `RecipeRepository.GetRecipesForUser` | app/repositories/recipes.py:35-37 | The owner's recipes in stored order, only those; empty exactly when the owner has none |
| `RecipeRepository.GetIngredientsForRecipe` | app/repositories/recipes.py:39-46 | The recipe's ingredient rows in stored order, only those; empty exactly when there are none |
| `RecipeRepository.CreatedRecipeIsListedLast` | app/repositories/recipes.py:9-19 | In table order, a created recipe is listed for its owner after all the recipes the owner already had |
| `RecipeRepository.AddedIngredientsReadBack` | app/repositories/recipes.py:21-33 | Ingredients added under an unused recipe id read back as exactly the inserted rows, in table order |
| `RecipeService.StockKeysHas` | app/services/recipe_service.py:20-22 | A key is in the stock lookup exactly when some stock row stores it |
| `RecipeService.UserStock` | app/services/recipe_service.py:20-22 | The lookup built from the user's stock: a key is in it exactly when one of the user's rows stores it, so quantities, units, dates and duplicate rows play no part |
| `RecipeService.MissingIngredients` | app/services/recipe_service.py:35-42 | The display names of the unstocked ingredients, in ingredient order; empty exactly when every key is stocked |
| `RecipeService.Evaluate` | app/services/recipe_service.py:44-55 | CanMake exactly when every ingredient key is stocked, listing all display names in order; otherwise Partial with the non-empty list of missing names |
| `RecipeService.SuggestAll` | app/services/recipe_service.py:30-55 | The recipe loop: at most one suggestion per recipe, and every Partial suggestion has a non-empty missing list (its exact content is stated by `RecipeService.SuggestAllAppend` and `RecipeService.SuggestionsFollowRecipes`) |
| `RecipeService.ComputeRecipeSuggestions` | app/services/recipe_service.py:24-26 | A user without recipes gets no suggestions; never more suggestions than recipes; no Partial suggestion has an empty missing list |
| `RecipeService.SuggestAllAppend` | app/services/recipe_service.py:30-33 | One more recipe adds its evaluation at the end, or nothing when it has no ingredient rows |
| `RecipeService.SuggestionsFollowRecipes` | app/services/recipe_service.py:30-55 | The suggestions are the evaluations of exactly the user's recipes that have ingredients, in retrieval order |
| `RecipeService.RecipeWithIngredientsIsSuggested` | app/services/recipe_service.py:30-55 | Every recipe of the user with ingredient rows gets its suggestion |
| `RecipeService.RecipesWithoutIngredientsAreSkipped` | app/services/recipe_service.py:31-33 | When none of the user's recipes has ingredient rows there is no suggestion |
| `RecipeService.SuggestionsDependOnlyOnKeys` | app/services/recipe_service.py:20-22 | Two stocks with the same set of name keys give the same suggestions |
| `RecipeService.QuantitiesDoNotChangeKeys` | app/services/recipe_service.py:20-22 | Rows that differ only in quantity give the same key set |
| `RecipeService.PrefixKeysIncluded` | app/services/recipe_service.py:20-22 | Rows added at the end never remove a key |
| `RecipeService.RestockKeepsKeys` | app/services/recipe_service.py:20-22 | Adding food whose key the user already stocks, merged or as a new row, keeps the key set |
| `RecipeService.RestockKeepsSuggestions` | app/services/recipe_service.py:39-40 | Restocking a food the user already has, under any unit or date, leaves the suggestions unchanged |
| `RecipeService.AllStockedCanMake` | app/services/recipe_service.py:44-49 | With every key stocked the suggestion is CanMake with all display names in order |
| `RecipeService.SaveRecipe` | app/services/recipe_service.py:10-17 | No recipe row means CreationFailed and an unchanged store, with no ingredient written; otherwise the recipe is appended and the ingredient rows, one per input in order, point at its id and carry the request's quantity, unit and normalised name; the recipe counter moves by one, and on an accepted ingredient insert the ingredient counter moves by the number of inputs, which number the new rows consecutively |
| `RecipeService.SaveKeepsRecipeIdsIssued` | app/services/recipe_service.py:10-17 | Every ingredient row keeps pointing at an already issued recipe id |
| `RecipeService.SavedRecipeReadsBack` | app/services/recipe_service.py:10-17 | In table order, a saved recipe is its owner's newest recipe, and its ingredients read back as exactly the rows written |
| `RecipeService.SavedRecipeComesLast` | app/services/recipe_service.py:30-55 | In table order, a freshly saved recipe with ingredients yields the last suggestion |
| `RecipeService.SavedNamesAreRequestNames` | app/repositories/recipes.py:22-31 | The saved ingredient rows keep the request's display names in order |
| `RecipeService.SavedRecipeIsSuggestedLast` | app/services/recipe_service.py:44-49 | In table order, a recipe saved with ingredients that are all in stock becomes the last suggestion: CanMake with the request's title, its description or "", and the request's ingredient names in order |
| `RecipeService.SingleStockedRecipe` | app/services/recipe_service.py:19-57 | One stocked row and one recipe whose only ingredient has that key give exactly one CanMake suggestion |
| `RecipeService.TomatoSaladCanBeMade` | tests/test_recipe_logic.py:52-110 | A stocked "Tomate" and the recipe "Tomatensalat" needing it give the single suggestion CanMake with ingredients ["Tomate"] |
| `Legacy.LegacyComputeRecipeSuggestions` | old_main.py:176-226 | The legacy loops compute exactly the suggestions of the service |
| `Legacy.CollectKeys` | old_main.py:181-182 | The dictionary built from the stock rows has exactly the keys of the stock lookup |
| `Legacy.SuggestEach` | old_main.py:193-223 | The recipe loop equals the reference matching, with the skip rule and both shapes |
| `Legacy.CollectMissing` | old_main.py:201-209 | The ingredient loop collects exactly the missing display names, and its flag is set exactly when all keys are stocked |
| `Legacy.EvaluateFromLoop` | old_main.py:212-223 | The loop's result selects the same shape as the service, and a recipe that cannot be made always has a missing ingredient |
| `Legacy.AddFoodItemRoute` | old_main.py:257-273 | Forbidden and no change for anyone but the owner; otherwise add-or-merge, answering 400 when the write returned no data |
| `Legacy.AddRouteFailsOnlyOnRefusedInsert` | old_main.py:267-270 | The add route fails exactly for a new item the store refused, and then nothing was stored |
| `Legacy.ListFoodItemsRoute` | old_main.py:276-289 | Forbidden for anyone but the owner; otherwise exactly the owner's rows |
| `Legacy.FoodItemDetailRoute` | old_main.py:292-308 | Forbidden, then NotFound, then the owner's row |
| `Legacy.ConsumeItemRoute` | old_main.py:311-338 | Forbidden first; then NotFound exactly when the owner lacks the entry; then removal at a remainder <= 0 and a quantity update above it, with exactly the reply and food table of the service's consume; recipes are untouched |
| `Legacy.DeleteItemRoute` | old_main.py:341-354 | Forbidden, or success with exactly the owner's entry removed whether or not it existed; the store becomes the repository delete's table and the id counter is kept |
| `Legacy.DeleteUserFoodRoute` | old_main.py:357-370 | Forbidden, or success with every row of the owner removed and no other row touched; the store becomes the repository delete's table and the id counter is kept |
| `Legacy.ExpiringItemsRoute` | old_main.py:373-396 | Forbidden, or the owner's rows in [today, today + days], days defaulting to 5, soonest first |
| `Legacy.SuggestRecipesRoute` | old_main.py:399-409 | Forbidden, or the computed body nested under a second `suggestions` key |
| `Legacy.SaveRecipeRoute` | old_main.py:412-446 | Forbidden for anyone but the owner; otherwise the same outcome and store as the service's save |

## Left out

- Authentication: password hashing, token issue and verification are left out because they call bcrypt and python-jose. The caller's user id is a parameter.
- User registration and login routes are left out.
- The remote table client is left out. Its query chains are modelled as selections over row sequences. Whether an insert returned data is the parameter `accepted`; an insert's reply is either the created rows or no data, never an empty list.
- `Legacy.AddRouteFailsOnlyOnRefusedInsert`: rests on two modelling assumptions. A quantity update always answers with data (possibly an empty list), never with no data, so the merge path never reaches the 400 of old_main.py:269-270. An insert never answers with an empty list. Under the first assumption a merge always succeeds; a store that answered an update with no data would also get a 400.
- HTTP routing is left out. In both applications `GET /users/{user_id}/food/{item_id}` is declared before `/users/{user_id}/food/expiring`, so a real request for the latter may be matched by the former; routing is not modelled.
- Dates are day numbers and `date.today()` is a parameter, because clocks are I/O.
- `FoodService.ExpiringItems`: the window end is today + days for every integer `days`. In the source, `today + timedelta(days=days)` raises OverflowError (an HTTP 500) when |days| exceeds 999999999 or the sum leaves the years 1 to 9999; that error path is not modelled because dates are unbounded day numbers here.
- `Legacy.ExpiringItemsRoute`: the same OverflowError path of old_main.py:384 is not modelled, for the same reason.
- Quantities are exact reals. Python floats, and `float()` conversion of stored values, are not modelled.
- `Names.NormalizeName`: lower-casing covers ASCII letters only; Python's Unicode `str.lower` is not modelled, so a non-ASCII capital such as "Ä" keeps its case.
- app/services/utils.py is not part of this model. The layered repositories import `normalize_name` from it, and the model assumes it matches the definition in old_main.py.
- `FoodRepository.SortByExpiry`: the store's order among rows with equal expiration dates is unspecified; the model keeps their table order, and the contract only promises ascending dates and a permutation.
- The service method `list_food_items` returns the repository's list unchanged, and `delete_item` and `delete_all_food` call the repository and return a confirmation message. They are modelled by `FoodRepository.AllFoodItems`, `FoodRepository.DeleteFoodItem` and `FoodRepository.DeleteAllFoodForUser`; the messages are not modelled.
- The recipe and ingredient inserts are not atomic in the source. A refused ingredient insert leaves the recipe stored, and the model reproduces that. Concurrency is not modelled.
- `RecipeService.ComputeRecipeSuggestions`: its own contract states only the bounds and the empty case; the exact output is stated by `RecipeService.SuggestionsFollowRecipes` against the reference definition `EvaluateEach`.
- The recipe and ingredient selects of app/repositories/recipes.py:36 and 40-45 have no `.order`, so the store may return their rows in any order. The model returns them in table order, which is insertion order. The five "last" and "read back" lemmas below rely on that choice.
- `RecipeRepository.CreatedRecipeIsListedLast`: "listed last" holds in table order only; the source promises membership, not position.
- `RecipeRepository.AddedIngredientsReadBack`: "in order" holds in table order only; the source promises the same rows, not their order.
- `RecipeService.SavedRecipeReadsBack`: the newest-recipe position and the row order hold in table order only.
- `RecipeService.SavedRecipeComesLast`: the last position holds in table order only; the source's suggestion order follows the unordered recipe select.
- `RecipeService.SavedRecipeIsSuggestedLast`: the last position holds in table order only, for the same reason.
- Response messages ("Item created", "Recipe saved", …) are not modelled; only the tags and data they carry are.
- Seeding scripts and the test fixtures are left out, apart from the worked examples above.
