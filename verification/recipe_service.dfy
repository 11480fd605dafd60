/** Recipe logic of app/services/recipe_service.py: saving a recipe with its
    ingredients, and matching the user's recipes against the user's stock. */
module RecipeService {
  import opened Results
  import opened Seqs
  import opened Names
  import opened FoodRepository
  import opened FoodService
  import opened RecipeRepository

  /** The three tables the services read and write. */
  datatype Db = Db(food: FoodTable, recipes: RecipeTable, ingredients: IngredientTable)

  /** One suggestion, in exactly one of the two shapes of the response: a
      recipe that can be made lists all its ingredients, any other lists
      only the missing ones. */
  datatype Suggestion =
    | CanMake(title: string, description: string, ingredients: seq<string>)
    | Partial(title: string, description: string, missingIngredients: seq<string>)

  /** The response body `{"suggestions": [...]}`. */
  datatype SuggestionsBody = SuggestionsBody(suggestions: seq<Suggestion>)

  // Matching.

  /** The keys of a stock lookup built from some food rows: every stored
      name key once, whatever the quantities, units or dates. */
  function StockKeys(items: seq<FoodRow>): set<string>
    decreases |items|
  {
    if |items| == 0 then {}
    else StockKeys(items[..|items| - 1]) + {items[|items| - 1].nameNorm}
  }

  /** A key is in the lookup exactly when some row stores it. */
  lemma {:induction false} StockKeysHas(items: seq<FoodRow>, k: string)
    ensures k in StockKeys(items) <==> exists i :: 0 <= i < |items| && items[i].nameNorm == k
    decreases |items|
  {
    if |items| > 0 {
      var init := items[..|items| - 1];
      StockKeysHas(init, k);
      assert forall i :: 0 <= i < |init| ==> init[i] == items[i];
    }
  }

  /** The user's stock lookup: the name keys of the user's food. A key is in
      it exactly when one of the user's rows stores it, whatever the
      quantities, units or dates, and however many rows store it. */
  function UserStock(food: FoodTable, user: int): (r: set<string>)
    ensures forall k :: k in r <==> exists i :: 0 <= i < |food.rows| && food.rows[i].userId == user && food.rows[i].nameNorm == k
  {
    OwnedKeys(food, user);
    StockKeys(AllFoodItems(food, user))
  }

  lemma OwnedKeys(food: FoodTable, user: int)
    ensures forall k :: k in StockKeys(AllFoodItems(food, user)) <==>
              exists i :: 0 <= i < |food.rows| && food.rows[i].userId == user && food.rows[i].nameNorm == k
  {
    forall k
      ensures k in StockKeys(AllFoodItems(food, user)) <==>
              exists i :: 0 <= i < |food.rows| && food.rows[i].userId == user && food.rows[i].nameNorm == k
    {
      OwnedKey(food, user, k);
    }
  }

  lemma OwnedKey(food: FoodTable, user: int, k: string)
    ensures k in StockKeys(AllFoodItems(food, user)) <==>
            exists i :: 0 <= i < |food.rows| && food.rows[i].userId == user && food.rows[i].nameNorm == k
  {
    var items := AllFoodItems(food, user);
    StockKeysHas(items, k);
    if k in StockKeys(items) {
      var j :| 0 <= j < |items| && items[j].nameNorm == k;
      assert multiset(items)[items[j]] > 0;
      assert items[j] in food.rows;
    }
    if exists i :: 0 <= i < |food.rows| && food.rows[i].userId == user && food.rows[i].nameNorm == k {
      var i :| 0 <= i < |food.rows| && food.rows[i].userId == user && food.rows[i].nameNorm == k;
      assert multiset(food.rows)[food.rows[i]] > 0;
      assert food.rows[i] in items;
    }
  }

  function AbsentFrom(stock: set<string>): IngredientRow -> bool {
    (x: IngredientRow) => x.nameNorm !in stock
  }

  function DisplayNames(ings: seq<IngredientRow>): (r: seq<string>)
    ensures |r| == |ings| && forall i :: 0 <= i < |ings| ==> r[i] == ings[i].name
  {
    seq(|ings|, i requires 0 <= i < |ings| => ings[i].name)
  }

  /** The display names of the ingredients whose key is not stocked, in
      ingredient order; empty exactly when every key is stocked. */
  function MissingIngredients(ings: seq<IngredientRow>, stock: set<string>): (r: seq<string>)
    ensures |r| == |Positions(ings, AbsentFrom(stock))|
    ensures forall j :: 0 <= j < |r| ==> r[j] == ings[Positions(ings, AbsentFrom(stock))[j]].name
    ensures r == [] <==> forall i :: 0 <= i < |ings| ==> ings[i].nameNorm in stock
  {
    var absent := Filter(ings, AbsentFrom(stock));
    FilterHas(ings, AbsentFrom(stock));
    FilterPicks(ings, AbsentFrom(stock));
    assert absent == [] <==> forall i :: 0 <= i < |ings| ==> ings[i].nameNorm in stock by {
      if absent != [] {
        assert absent[0] in absent;
      } else {
        forall i | 0 <= i < |ings|
          ensures ings[i].nameNorm in stock
        {
          assert ings[i] in ings;
        }
      }
    }
    DisplayNames(absent)
  }

  /** The suggestion for one recipe with its ingredient rows. */
  function Evaluate(recipe: RecipeRow, ings: seq<IngredientRow>, stock: set<string>): (s: Suggestion)
    ensures s.title == recipe.title && s.description == recipe.description
    ensures s.CanMake? <==> forall i :: 0 <= i < |ings| ==> ings[i].nameNorm in stock
    ensures s.CanMake? ==> |s.ingredients| == |ings| && forall i :: 0 <= i < |ings| ==> s.ingredients[i] == ings[i].name
    ensures s.Partial? ==> s.missingIngredients != [] && s.missingIngredients == MissingIngredients(ings, stock)
  {
    var missing := MissingIngredients(ings, stock);
    if missing == [] then CanMake(recipe.title, recipe.description, DisplayNames(ings))
    else Partial(recipe.title, recipe.description, missing)
  }

  function HasIngredients(t: IngredientTable): RecipeRow -> bool {
    (x: RecipeRow) => GetIngredientsForRecipe(t, x.id) != []
  }

  /** The reference reading of the matching loop: one evaluated suggestion
      per given recipe, in the given order. */
  function EvaluateEach(rs: seq<RecipeRow>, t: IngredientTable, stock: set<string>): (r: seq<Suggestion>)
    ensures |r| == |rs|
  {
    seq(|rs|, i requires 0 <= i < |rs| => Evaluate(rs[i], GetIngredientsForRecipe(t, rs[i].id), stock))
  }

  /** The loop over the recipes: a recipe without ingredient rows is
      skipped, every other one is evaluated. */
  function SuggestAll(recipes: seq<RecipeRow>, t: IngredientTable, stock: set<string>): (r: seq<Suggestion>)
    ensures |r| <= |recipes|
    ensures forall j :: 0 <= j < |r| && r[j].Partial? ==> r[j].missingIngredients != []
    decreases |recipes|
  {
    if |recipes| == 0 then []
    else
      var init := SuggestAll(recipes[..|recipes| - 1], t, stock);
      var last := recipes[|recipes| - 1];
      var ings := GetIngredientsForRecipe(t, last.id);
      if ings == [] then init else init + [Evaluate(last, ings, stock)]
  }

  /** One more recipe at the end adds its suggestion at the end, unless it
      has no ingredient rows. */
  lemma SuggestAllAppend(recipes: seq<RecipeRow>, x: RecipeRow, t: IngredientTable, stock: set<string>)
    ensures var ings := GetIngredientsForRecipe(t, x.id);
            SuggestAll(recipes + [x], t, stock)
              == if ings == [] then SuggestAll(recipes, t, stock)
                 else SuggestAll(recipes, t, stock) + [Evaluate(x, ings, stock)]
  {
    assert (recipes + [x])[..|recipes|] == recipes;
  }

  /** compute_recipe_suggestions: no recipes give an empty list; otherwise
      each recipe with ingredients yields one suggestion, in recipe order. */
  function ComputeRecipeSuggestions(db: Db, user: int): (r: SuggestionsBody)
    ensures (forall i :: 0 <= i < |db.recipes.rows| ==> db.recipes.rows[i].userId != user) ==> r.suggestions == []
    ensures |r.suggestions| <= |GetRecipesForUser(db.recipes, user)|
    ensures forall j :: 0 <= j < |r.suggestions| && r.suggestions[j].Partial? ==> r.suggestions[j].missingIngredients != []
  {
    var stock := UserStock(db.food, user);
    var recipes := GetRecipesForUser(db.recipes, user);
    if recipes == [] then SuggestionsBody([])
    else SuggestionsBody(SuggestAll(recipes, db.ingredients, stock))
  }

  /** The loop produces exactly the evaluations of the recipes that have
      ingredients, in recipe order. */
  lemma {:induction false} SuggestAllFollowsRecipes(recipes: seq<RecipeRow>, t: IngredientTable, stock: set<string>)
    ensures SuggestAll(recipes, t, stock) == EvaluateEach(Filter(recipes, HasIngredients(t)), t, stock)
    decreases |recipes|
  {
    if |recipes| > 0 {
      var init := recipes[..|recipes| - 1];
      var last := recipes[|recipes| - 1];
      SuggestAllFollowsRecipes(init, t, stock);
      var kept := Filter(init, HasIngredients(t));
      if HasIngredients(t)(last) {
        assert Filter(recipes, HasIngredients(t)) == kept + [last];
        EvaluateEachAppend(kept, last, t, stock);
      } else {
        assert Filter(recipes, HasIngredients(t)) == kept;
      }
    }
  }

  lemma EvaluateEachAppend(rs: seq<RecipeRow>, x: RecipeRow, t: IngredientTable, stock: set<string>)
    ensures EvaluateEach(rs + [x], t, stock)
         == EvaluateEach(rs, t, stock) + [Evaluate(x, GetIngredientsForRecipe(t, x.id), stock)]
  {
    var a := EvaluateEach(rs + [x], t, stock);
    var b := EvaluateEach(rs, t, stock) + [Evaluate(x, GetIngredientsForRecipe(t, x.id), stock)];
    forall i | 0 <= i < |a|
      ensures a[i] == b[i]
    {
      if i < |rs| {
        assert (rs + [x])[i] == rs[i];
      }
    }
  }

  /** The suggestions of a user, read through the reference definition. */
  lemma SuggestionsFollowRecipes(db: Db, user: int)
    ensures ComputeRecipeSuggestions(db, user).suggestions
         == EvaluateEach(Filter(GetRecipesForUser(db.recipes, user), HasIngredients(db.ingredients)),
                         db.ingredients, UserStock(db.food, user))
  {
    SuggestAllFollowsRecipes(GetRecipesForUser(db.recipes, user), db.ingredients, UserStock(db.food, user));
  }

  /** Every recipe of the user that has ingredients gets its suggestion. */
  lemma RecipeWithIngredientsIsSuggested(db: Db, user: int, k: int)
    requires 0 <= k < |GetRecipesForUser(db.recipes, user)|
    requires GetIngredientsForRecipe(db.ingredients, GetRecipesForUser(db.recipes, user)[k].id) != []
    ensures var recipe := GetRecipesForUser(db.recipes, user)[k];
            Evaluate(recipe, GetIngredientsForRecipe(db.ingredients, recipe.id), UserStock(db.food, user))
              in ComputeRecipeSuggestions(db, user).suggestions
  {
    var recipes := GetRecipesForUser(db.recipes, user);
    var p := HasIngredients(db.ingredients);
    SuggestionsFollowRecipes(db, user);
    PositionsComplete(recipes, p, k);
    var j :| 0 <= j < |Positions(recipes, p)| && Positions(recipes, p)[j] == k;
    var kept := Filter(recipes, p);
    FilterPicks(recipes, p);
    assert kept[j] == recipes[k];
    var s := EvaluateEach(kept, db.ingredients, UserStock(db.food, user));
    assert s[j] == Evaluate(recipes[k], GetIngredientsForRecipe(db.ingredients, recipes[k].id), UserStock(db.food, user));
    assert s[j] in s;
  }

  /** A user whose recipes all lack ingredient rows gets no suggestion. */
  lemma RecipesWithoutIngredientsAreSkipped(db: Db, user: int)
    requires forall i :: 0 <= i < |db.recipes.rows| && db.recipes.rows[i].userId == user
                         ==> GetIngredientsForRecipe(db.ingredients, db.recipes.rows[i].id) == []
    ensures ComputeRecipeSuggestions(db, user).suggestions == []
  {
    var recipes := GetRecipesForUser(db.recipes, user);
    var kept := Filter(recipes, HasIngredients(db.ingredients));
    SuggestionsFollowRecipes(db, user);
    forall j | 0 <= j < |recipes|
      ensures !HasIngredients(db.ingredients)(recipes[j])
    {
      assert recipes[j] in db.recipes.rows;
      var i :| 0 <= i < |db.recipes.rows| && db.recipes.rows[i] == recipes[j];
    }
    FilterDropsAll(recipes, HasIngredients(db.ingredients));
  }

  // Matching only looks at which name keys are stocked.

  /** Two stocks with the same name keys for the user give the same
      suggestions, whatever else differs between them. */
  lemma SuggestionsDependOnlyOnKeys(db: Db, food: FoodTable, user: int)
    requires UserStock(food, user) == UserStock(db.food, user)
    ensures ComputeRecipeSuggestions(db.(food := food), user) == ComputeRecipeSuggestions(db, user)
  {
  }

  /** Rows that differ at most in quantity have the same name keys. */
  lemma QuantitiesDoNotChangeKeys(a: FoodTable, b: FoodTable, user: int)
    requires |a.rows| == |b.rows|
    requires forall i :: 0 <= i < |a.rows| ==> SameExceptQuantity(b.rows[i], a.rows[i])
    ensures UserStock(b, user) == UserStock(a, user)
  {
    forall k | k in UserStock(b, user)
      ensures k in UserStock(a, user)
    {
      var i :| 0 <= i < |b.rows| && b.rows[i].userId == user && b.rows[i].nameNorm == k;
      assert SameExceptQuantity(b.rows[i], a.rows[i]);
    }
    forall k | k in UserStock(a, user)
      ensures k in UserStock(b, user)
    {
      var i :| 0 <= i < |a.rows| && a.rows[i].userId == user && a.rows[i].nameNorm == k;
      assert SameExceptQuantity(b.rows[i], a.rows[i]);
    }
  }

  /** Rows added at the end never take a key away. */
  lemma PrefixKeysIncluded(a: FoodTable, b: FoodTable, user: int)
    requires |b.rows| >= |a.rows| && b.rows[..|a.rows|] == a.rows
    ensures UserStock(a, user) <= UserStock(b, user)
  {
    forall k | k in UserStock(a, user)
      ensures k in UserStock(b, user)
    {
      var i :| 0 <= i < |a.rows| && a.rows[i].userId == user && a.rows[i].nameNorm == k;
      assert b.rows[i] == a.rows[i];
    }
  }

  /** Appending a row whose name key the user already stocks (or that
      belongs to someone else) adds no key. */
  lemma AppendKnownKeyKeepsKeys(a: FoodTable, b: FoodTable, user: int)
    requires |b.rows| == |a.rows| + 1 && b.rows[..|a.rows|] == a.rows
    requires b.rows[|a.rows|].userId == user ==> b.rows[|a.rows|].nameNorm in UserStock(a, user)
    ensures UserStock(b, user) == UserStock(a, user)
  {
    PrefixKeysIncluded(a, b, user);
    forall k | k in UserStock(b, user)
      ensures k in UserStock(a, user)
    {
      AppendedKeyIsKnown(a, b, user, k);
    }
  }

  lemma AppendedKeyIsKnown(a: FoodTable, b: FoodTable, user: int, k: string)
    requires |b.rows| == |a.rows| + 1 && b.rows[..|a.rows|] == a.rows
    requires b.rows[|a.rows|].userId == user ==> b.rows[|a.rows|].nameNorm in UserStock(a, user)
    requires k in UserStock(b, user)
    ensures k in UserStock(a, user)
  {
    var i :| 0 <= i < |b.rows| && b.rows[i].userId == user && b.rows[i].nameNorm == k;
    if i < |a.rows| {
      assert b.rows[i] == a.rows[i];
    }
  }

  /** Adding food whose name key the user already stocks, whether merged
      into an existing row or stored as a new row with another unit or
      date, keeps the user's set of name keys. */
  lemma RestockKeepsKeys(t: FoodTable, user: int, item: FoodItemCreate, accepted: bool)
    requires NormalizeName(item.name) in UserStock(t, user)
    ensures UserStock(AddOrUpdateFoodItem(t, user, item, accepted).table, user) == UserStock(t, user)
  {
    var t' := AddOrUpdateFoodItem(t, user, item, accepted).table;
    if FindExistingFoodRow(t, user, item.name, item.unit, item.expirationDate).Some? {
      QuantitiesDoNotChangeKeys(t, t', user);
    } else if accepted {
      AppendKnownKeyKeepsKeys(t, t', user);
    }
  }

  /** Restocking a food the user already has, under any unit or date,
      leaves the suggestions unchanged: duplicates collapse. */
  lemma RestockKeepsSuggestions(db: Db, user: int, item: FoodItemCreate, accepted: bool)
    requires NormalizeName(item.name) in UserStock(db.food, user)
    ensures ComputeRecipeSuggestions(db.(food := AddOrUpdateFoodItem(db.food, user, item, accepted).table), user)
         == ComputeRecipeSuggestions(db, user)
  {
    RestockKeepsKeys(db.food, user, item, accepted);
    SuggestionsDependOnlyOnKeys(db, AddOrUpdateFoodItem(db.food, user, item, accepted).table, user);
  }

  // Saving a recipe.

  /** What a successful save returns: the recipe row and the response data
      of the ingredient insert. */
  datatype SavedRecipe = SavedRecipe(recipe: RecipeRow, ingredients: Option<seq<IngredientRow>>)

  datatype SaveResult = SaveResult(outcome: Result<SavedRecipe>, db: Db)

  /** save_recipe: the recipe row first; when the store returns none the
      save fails with CreationFailed before any ingredient is written.
      Otherwise the ingredients are inserted under the new recipe's id. */
  function SaveRecipe(db: Db, user: int, payload: RecipeCreate, recipeAccepted: bool, ingredientsAccepted: bool): (r: SaveResult)
    ensures !recipeAccepted ==> r.outcome == Failure(CreationFailed) && r.db == db
    ensures recipeAccepted ==>
              && r.outcome.Success?
              && r.db.food == db.food
              && r.db.recipes.rows == db.recipes.rows + [r.outcome.value.recipe]
              && r.db.recipes.nextId == db.recipes.nextId + 1
              && r.outcome.value.recipe.id == db.recipes.nextId
              && r.outcome.value.recipe.userId == user
              && r.outcome.value.recipe.title == payload.title
              && r.outcome.value.recipe.description == payload.description.GetOr("")
    ensures recipeAccepted && !ingredientsAccepted ==>
              r.outcome.value.ingredients.None? && r.db.ingredients == db.ingredients
    ensures recipeAccepted && ingredientsAccepted ==>
              var rows := r.outcome.value.ingredients;
              && rows.Some? && |rows.value| == |payload.ingredients|
              && r.db.ingredients.rows == db.ingredients.rows + rows.value
              && r.db.ingredients.nextId == db.ingredients.nextId + |payload.ingredients|
              && forall i :: 0 <= i < |payload.ingredients| ==>
                   && rows.value[i].id == db.ingredients.nextId + i
                   && rows.value[i].recipeId == r.outcome.value.recipe.id
                   && rows.value[i].name == payload.ingredients[i].name
                   && rows.value[i].nameNorm == NormalizeName(payload.ingredients[i].name)
                   && rows.value[i].quantity == payload.ingredients[i].quantity
                   && rows.value[i].unit == payload.ingredients[i].unit
  {
    var created := CreateRecipe(db.recipes, user, payload, recipeAccepted);
    match created.created
    case None => SaveResult(Failure(CreationFailed), db)
    case Some(recipe) =>
      var w := AddIngredients(db.ingredients, recipe.id, payload.ingredients, ingredientsAccepted);
      SaveResult(Success(SavedRecipe(recipe, w.data)), Db(db.food, created.table, w.table))
  }

  /** Serial ids: every ingredient row points at a recipe id already handed
      out, so the next recipe id has no ingredient rows yet. */
  predicate RecipeIdsIssued(db: Db) {
    forall i :: 0 <= i < |db.ingredients.rows| ==> db.ingredients.rows[i].recipeId < db.recipes.nextId
  }

  lemma SaveKeepsRecipeIdsIssued(db: Db, user: int, payload: RecipeCreate, recipeAccepted: bool, ingredientsAccepted: bool)
    requires RecipeIdsIssued(db)
    ensures RecipeIdsIssued(SaveRecipe(db, user, payload, recipeAccepted, ingredientsAccepted).db)
  {
    var r := SaveRecipe(db, user, payload, recipeAccepted, ingredientsAccepted);
    if recipeAccepted && ingredientsAccepted {
      var added := r.outcome.value.ingredients.value;
      var next := r.db.recipes.nextId;
      assert next == db.recipes.nextId + 1;
      assert r.db.ingredients.rows == db.ingredients.rows + added;
      forall i | 0 <= i < |added|
        ensures added[i].recipeId < next
      {
        assert added[i].recipeId == db.recipes.nextId;
      }
      IdsBelowAppend(db.ingredients.rows, added, next);
    }
  }

  lemma IdsBelowAppend(a: seq<IngredientRow>, b: seq<IngredientRow>, bound: int)
    requires forall i :: 0 <= i < |a| ==> a[i].recipeId < bound - 1
    requires forall i :: 0 <= i < |b| ==> b[i].recipeId < bound
    ensures forall i :: 0 <= i < |a + b| ==> (a + b)[i].recipeId < bound
  {
  }

  /** A saved recipe reads back: it is the owner's newest recipe, and its
      ingredient rows are exactly the ones just written. */
  lemma SavedRecipeReadsBack(db: Db, user: int, payload: RecipeCreate)
    requires RecipeIdsIssued(db)
    ensures var r := SaveRecipe(db, user, payload, true, true);
            && GetRecipesForUser(r.db.recipes, user) == GetRecipesForUser(db.recipes, user) + [r.outcome.value.recipe]
            && GetIngredientsForRecipe(r.db.ingredients, r.outcome.value.recipe.id) == r.outcome.value.ingredients.value
  {
    CreatedRecipeIsListedLast(db.recipes, user, payload);
    AddedIngredientsReadBack(db.ingredients, db.recipes.nextId, payload.ingredients);
  }

  /** The suggestion for a freshly saved recipe with ingredients comes
      last among its owner's suggestions. */
  lemma SavedRecipeComesLast(db: Db, user: int, payload: RecipeCreate)
    requires RecipeIdsIssued(db)
    requires payload.ingredients != []
    ensures var r := SaveRecipe(db, user, payload, true, true);
            var s := ComputeRecipeSuggestions(r.db, user).suggestions;
            && s != []
            && s[|s| - 1] == Evaluate(r.outcome.value.recipe, r.outcome.value.ingredients.value, UserStock(db.food, user))
  {
    var r := SaveRecipe(db, user, payload, true, true);
    SavedRecipeReadsBack(db, user, payload);
    SuggestAllAppend(GetRecipesForUser(db.recipes, user), r.outcome.value.recipe, r.db.ingredients, UserStock(db.food, user));
  }

  /** When every ingredient key is stocked the recipe can be made, and the
      suggestion lists every ingredient's display name in order. */
  lemma AllStockedCanMake(recipe: RecipeRow, rows: seq<IngredientRow>, stock: set<string>)
    requires forall i :: 0 <= i < |rows| ==> rows[i].nameNorm in stock
    ensures Evaluate(recipe, rows, stock) == CanMake(recipe.title, recipe.description, DisplayNames(rows))
  {
  }

  /** The saved ingredient rows keep the display names of the request. */
  lemma SavedNamesAreRequestNames(db: Db, user: int, payload: RecipeCreate)
    ensures var names := DisplayNames(SaveRecipe(db, user, payload, true, true).outcome.value.ingredients.value);
            && |names| == |payload.ingredients|
            && forall i :: 0 <= i < |payload.ingredients| ==> names[i] == payload.ingredients[i].name
  {
    var rows := SaveRecipe(db, user, payload, true, true).outcome.value.ingredients.value;
    assert forall i :: 0 <= i < |rows| ==> rows[i].name == payload.ingredients[i].name;
  }

  /** A recipe saved with ingredients that are all in stock becomes the last
      suggestion, in the can-make shape with every ingredient name. */
  lemma SavedRecipeIsSuggestedLast(db: Db, user: int, payload: RecipeCreate)
    requires RecipeIdsIssued(db)
    requires payload.ingredients != []
    requires forall i :: 0 <= i < |payload.ingredients| ==> NormalizeName(payload.ingredients[i].name) in UserStock(db.food, user)
    ensures var s := ComputeRecipeSuggestions(SaveRecipe(db, user, payload, true, true).db, user).suggestions;
            && s != []
            && s[|s| - 1] == CanMake(payload.title, payload.description.GetOr(""),
                                     seq(|payload.ingredients|, i requires 0 <= i < |payload.ingredients| => payload.ingredients[i].name))
  {
    var r := SaveRecipe(db, user, payload, true, true);
    var rows := r.outcome.value.ingredients.value;
    var names := seq(|payload.ingredients|, i requires 0 <= i < |payload.ingredients| => payload.ingredients[i].name);
    SavedNamesAreRequestNames(db, user, payload);
    assert DisplayNames(rows) == names;
    AllStockedCanMake(r.outcome.value.recipe, rows, UserStock(db.food, user));
    SavedRecipeComesLast(db, user, payload);
  }

  /** A table holding one row stocks exactly that row's key for its owner. */
  lemma SingleRowStock(x: FoodRow, n: int)
    ensures UserStock(FoodTable([x], n), x.userId) == {x.nameNorm}
  {
    var t := FoodTable([x], n);
    assert t.rows[0] == x;
    forall k | k in UserStock(t, x.userId)
      ensures k == x.nameNorm
    {
    }
  }

  /** One stocked row and one recipe whose single ingredient has that
      row's key give exactly one suggestion: the recipe can be made. */
  lemma SingleStockedRecipe(x: FoodRow, recipe: RecipeRow, ing: IngredientRow, n1: int, n2: int, n3: int)
    requires x.userId == recipe.userId && ing.recipeId == recipe.id && ing.nameNorm == x.nameNorm
    ensures ComputeRecipeSuggestions(Db(FoodTable([x], n1), RecipeTable([recipe], n2), IngredientTable([ing], n3)), recipe.userId).suggestions
         == [CanMake(recipe.title, recipe.description, [ing.name])]
  {
    var user := recipe.userId;
    var db := Db(FoodTable([x], n1), RecipeTable([recipe], n2), IngredientTable([ing], n3));
    var stock := {x.nameNorm};
    SingleRowStock(x, n1);
    assert GetRecipesForUser(db.recipes, user) == [recipe] by {
      FilterKeepsAll([recipe], RecipeOwnedBy(user));
    }
    assert GetIngredientsForRecipe(db.ingredients, recipe.id) == [ing] by {
      FilterKeepsAll([ing], BelongsTo(recipe.id));
    }
    var e := Evaluate(recipe, [ing], stock);
    assert e == CanMake(recipe.title, recipe.description, [ing.name]) by {
      AllStockedCanMake(recipe, [ing], stock);
      assert DisplayNames([ing]) == [ing.name];
    }
    assert SuggestAll([recipe], db.ingredients, stock) == [e] by {
      SuggestAllAppend([], recipe, db.ingredients, stock);
      assert [] + [recipe] == [recipe];
    }
  }

  /** Worked example from the matching tests: one stocked tomato and one
      tomato salad needing it give a single can-make suggestion listing the
      ingredient's display name. */
  lemma TomatoSaladCanBeMade()
    ensures ComputeRecipeSuggestions(Db(FoodTable([FoodRow(1, 1, "Tomate", "tomate", 3.0, "stk", 0)], 2),
                                        RecipeTable([RecipeRow(100, 1, "Tomatensalat", "Lecker.")], 101),
                                        IngredientTable([IngredientRow(200, 100, "Tomate", "tomate", 2.0, "stk")], 201)), 1).suggestions
         == [CanMake("Tomatensalat", "Lecker.", ["Tomate"])]
  {
    SingleStockedRecipe(FoodRow(1, 1, "Tomate", "tomate", 3.0, "stk", 0), RecipeRow(100, 1, "Tomatensalat", "Lecker."),
                        IngredientRow(200, 100, "Tomate", "tomate", 2.0, "stk"), 2, 101, 201);
  }
}
