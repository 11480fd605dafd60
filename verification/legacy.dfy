/** The legacy single-file application (old_main.py): its own copies of the
    add-or-merge and suggestion logic, and its routes. Every route compares
    the caller with the owner in the path before it touches the store. */
module Legacy {
  import opened Results
  import opened Seqs
  import opened FoodRepository
  import opened FoodService
  import opened RecipeRepository
  import opened RecipeService

  /** A route's answer together with the store afterwards. */
  datatype RouteResult<T> = RouteResult(response: Result<T>, db: Db)

  /** The body of a route that only confirms. */
  datatype Done = Done

  /** A successful add: which of the two paths ran, and the response data. */
  datatype AddReply = AddReply(tag: AddTag, data: seq<FoodRow>)

  /** The suggest route wraps the computed body once more:
      `{"suggestions": {"suggestions": [...]}}`. */
  datatype SuggestResponse = SuggestResponse(suggestions: SuggestionsBody)

  /** The legacy compute_recipe_suggestions, as the loops it runs: build the
      key set of the user's stock, then walk the recipes and, inside, their
      ingredients. It computes exactly what the service computes. */
  method LegacyComputeRecipeSuggestions(db: Db, user: int) returns (body: SuggestionsBody)
    ensures body == ComputeRecipeSuggestions(db, user)
  {
    var stock := CollectKeys(AllFoodItems(db.food, user));
    var recipes := GetRecipesForUser(db.recipes, user);
    if recipes == [] {
      return SuggestionsBody([]);
    }
    var suggested := SuggestEach(recipes, db.ingredients, stock);
    return SuggestionsBody(suggested);
  }

  /** The dictionary comprehension keyed by name: its keys, built one row
      at a time. */
  method CollectKeys(items: seq<FoodRow>) returns (stock: set<string>)
    ensures stock == StockKeys(items)
  {
    stock := {};
    var i := 0;
    while i < |items|
      invariant 0 <= i <= |items|
      invariant stock == StockKeys(items[..i])
    {
      assert items[..i + 1][..i] == items[..i];
      stock := stock + {items[i].nameNorm};
      i := i + 1;
    }
    assert items[..|items|] == items;
  }

  /** The loop over the recipes, skipping those without ingredient rows. */
  method SuggestEach(recipes: seq<RecipeRow>, t: IngredientTable, stock: set<string>) returns (suggested: seq<Suggestion>)
    ensures suggested == SuggestAll(recipes, t, stock)
  {
    suggested := [];
    var k := 0;
    while k < |recipes|
      invariant 0 <= k <= |recipes|
      invariant suggested == SuggestAll(recipes[..k], t, stock)
    {
      var recipe := recipes[k];
      var ings := GetIngredientsForRecipe(t, recipe.id);
      SuggestStep(recipes, k, t, stock);
      if ings != [] {
        var missing, canMake := CollectMissing(ings, stock);
        EvaluateFromLoop(recipe, ings, stock, missing, canMake);
        if canMake {
          suggested := suggested + [CanMake(recipe.title, recipe.description, DisplayNames(ings))];
        } else if missing != [] {
          suggested := suggested + [Partial(recipe.title, recipe.description, missing)];
        }
      }
      k := k + 1;
    }
    assert recipes[..|recipes|] == recipes;
  }

  /** The recipe loop's step: the next recipe adds its evaluation, or
      nothing when it has no ingredient rows. */
  lemma SuggestStep(recipes: seq<RecipeRow>, k: int, t: IngredientTable, stock: set<string>)
    requires 0 <= k < |recipes|
    ensures GetIngredientsForRecipe(t, recipes[k].id) == [] ==>
              SuggestAll(recipes[..k + 1], t, stock) == SuggestAll(recipes[..k], t, stock)
    ensures GetIngredientsForRecipe(t, recipes[k].id) != [] ==>
              SuggestAll(recipes[..k + 1], t, stock)
                == SuggestAll(recipes[..k], t, stock) + [Evaluate(recipes[k], GetIngredientsForRecipe(t, recipes[k].id), stock)]
  {
    assert recipes[..k + 1] == recipes[..k] + [recipes[k]];
    SuggestAllAppend(recipes[..k], recipes[k], t, stock);
  }

  /** What the ingredient loop leaves decides the suggestion exactly as
      `Evaluate` does; in particular a recipe that cannot be made always has
      a missing ingredient, so the second branch's guard always holds. */
  lemma EvaluateFromLoop(recipe: RecipeRow, ings: seq<IngredientRow>, stock: set<string>, missing: seq<string>, canMake: bool)
    requires missing == MissingIngredients(ings, stock)
    requires canMake <==> forall i :: 0 <= i < |ings| ==> ings[i].nameNorm in stock
    ensures canMake ==> Evaluate(recipe, ings, stock) == CanMake(recipe.title, recipe.description, DisplayNames(ings))
    ensures !canMake ==> missing != [] && Evaluate(recipe, ings, stock) == Partial(recipe.title, recipe.description, missing)
  {
  }

  /** The loop over one recipe's ingredients: the display names of the
      unstocked ones, and whether there were none. */
  method CollectMissing(ings: seq<IngredientRow>, stock: set<string>) returns (missing: seq<string>, canMake: bool)
    ensures missing == MissingIngredients(ings, stock)
    ensures canMake <==> forall i :: 0 <= i < |ings| ==> ings[i].nameNorm in stock
  {
    missing := [];
    canMake := true;
    var j := 0;
    while j < |ings|
      invariant 0 <= j <= |ings|
      invariant missing == MissingIngredients(ings[..j], stock)
      invariant canMake <==> missing == []
    {
      MissingStep(ings, j, stock);
      if ings[j].nameNorm !in stock {
        missing := missing + [ings[j].name];
        canMake := false;
      }
      j := j + 1;
    }
    assert ings[..|ings|] == ings;
  }

  /** One step of the inner loop: the next ingredient adds its name to the
      missing list exactly when its key is not stocked. */
  lemma MissingStep(ings: seq<IngredientRow>, j: int, stock: set<string>)
    requires 0 <= j < |ings|
    ensures MissingIngredients(ings[..j + 1], stock)
         == MissingIngredients(ings[..j], stock) + (if ings[j].nameNorm !in stock then [ings[j].name] else [])
  {
    var pre := ings[..j + 1];
    assert pre[..j] == ings[..j];
    var kept := Filter(ings[..j], AbsentFrom(stock));
    if ings[j].nameNorm !in stock {
      assert Filter(pre, AbsentFrom(stock)) == kept + [ings[j]];
      assert DisplayNames(kept + [ings[j]]) == DisplayNames(kept) + [ings[j].name];
    } else {
      assert Filter(pre, AbsentFrom(stock)) == kept;
    }
  }

  // The routes. `current` is the user id carried by the caller's token.

  /** POST /users/{user_id}/food: Forbidden for anyone but the owner;
      otherwise add or merge, and 400 when the write returned no data. */
  function AddFoodItemRoute(db: Db, current: int, user: int, item: FoodItemCreate, accepted: bool): (r: RouteResult<AddReply>)
    ensures current != user ==> r.response == Failure(Forbidden) && r.db == db
    ensures current == user ==>
              var a := AddOrUpdateFoodItem(db.food, user, item, accepted);
              && r.db == db.(food := a.table)
              && (a.data.None? ==> r.response == Failure(AddFailed))
              && (a.data.Some? ==> r.response == Success(AddReply(a.tag, a.data.value)))
  {
    if current != user then RouteResult(Failure(Forbidden), db)
    else
      var a := AddOrUpdateFoodItem(db.food, user, item, accepted);
      var db' := db.(food := a.table);
      if a.data.None? then RouteResult(Failure(AddFailed), db')
      else RouteResult(Success(AddReply(a.tag, a.data.value)), db')
  }

  /** The add route answers 400 only for a new item the store refused, and
      then nothing was stored; a merge always succeeds. */
  lemma AddRouteFailsOnlyOnRefusedInsert(db: Db, user: int, item: FoodItemCreate, accepted: bool)
    ensures var r := AddFoodItemRoute(db, user, user, item, accepted);
            r.response == Failure(AddFailed) <==>
              FindExistingFoodRow(db.food, user, item.name, item.unit, item.expirationDate).None? && !accepted
    ensures var r := AddFoodItemRoute(db, user, user, item, accepted);
            r.response == Failure(AddFailed) ==> r.db == db
  {
    var existing := FindExistingFoodRow(db.food, user, item.name, item.unit, item.expirationDate);
    if existing.Some? {
      assert AddOrUpdateFoodItem(db.food, user, item, accepted).data.Some?;
    } else if accepted {
      assert AddOrUpdateFoodItem(db.food, user, item, accepted).data.Some?;
    }
  }

  /** GET /users/{user_id}/food: the owner's rows, or Forbidden. */
  function ListFoodItemsRoute(db: Db, current: int, user: int): (r: Result<seq<FoodRow>>)
    ensures current != user ==> r == Failure(Forbidden)
    ensures current == user ==>
              && r.Success?
              && forall x :: multiset(r.value)[x] == if x.userId == user then multiset(db.food.rows)[x] else 0
  {
    if current != user then Failure(Forbidden)
    else Success(AllFoodItems(db.food, user))
  }

  /** GET /users/{user_id}/food/{item_id}: Forbidden, then NotFound, then the
      owner's row. */
  function FoodItemDetailRoute(db: Db, current: int, user: int, id: int): (r: Result<FoodRow>)
    ensures current != user ==> r == Failure(Forbidden)
    ensures current == user ==> r == GetFoodItem(db.food, user, id)
  {
    if current != user then Failure(Forbidden)
    else
      match GetFoodItemDetail(db.food, user, id)
      case None => Failure(NotFound)
      case Some(item) => Success(item)
  }

  /** POST /users/{user_id}/food/{item_id}/consume: Forbidden, then
      NotFound for an entry the owner does not have, then the entry is
      removed at a remainder of zero or less and keeps the remainder above
      it. Only the food table changes. */
  function ConsumeItemRoute(db: Db, current: int, user: int, id: int, amount: real): (r: RouteResult<ConsumeOutcome>)
    ensures current != user ==> r.response == Failure(Forbidden) && r.db == db
    ensures r.db.recipes == db.recipes && r.db.ingredients == db.ingredients
    ensures current == user ==>
              (r.response == Failure(NotFound) <==> GetFoodItemDetail(db.food, user, id).None?)
    ensures current == user && r.response == Success(Removed) ==>
              forall x :: x in r.db.food.rows ==> !(x.userId == user && x.id == id)
    ensures current == user && GetFoodItemDetail(db.food, user, id).Some? ==>
              var remaining := GetFoodItemDetail(db.food, user, id).value.quantity - amount;
              && (remaining <= 0.0 ==> r.response == Success(Removed))
              && (remaining > 0.0 ==> r.response.Success? && r.response.value.QuantityUpdated?)
    ensures current == user ==>
              var c := ConsumeItem(db.food, user, id, amount);
              r.response == c.outcome && r.db == db.(food := c.table)
  {
    if current != user then RouteResult(Failure(Forbidden), db)
    else
      var c := ConsumeItem(db.food, user, id, amount);
      RouteResult(c.outcome, db.(food := c.table))
  }

  /** DELETE /users/{user_id}/food/{item_id}: Forbidden, or the entry is
      gone (whether or not it existed). */
  function DeleteItemRoute(db: Db, current: int, user: int, id: int): (r: RouteResult<Done>)
    ensures current != user ==> r.response == Failure(Forbidden) && r.db == db
    ensures current == user ==> r.response == Success(Done)
    ensures current == user ==> r.db == db.(food := DeleteFoodItem(db.food, user, id))
    ensures current == user ==> r.db.recipes == db.recipes && r.db.ingredients == db.ingredients
    ensures current == user ==> r.db.food.nextId == db.food.nextId
    ensures current == user ==>
              forall x :: multiset(r.db.food.rows)[x] == if x.userId == user && x.id == id then 0 else multiset(db.food.rows)[x]
  {
    if current != user then RouteResult(Failure(Forbidden), db)
    else RouteResult(Success(Done), db.(food := DeleteFoodItem(db.food, user, id)))
  }

  /** DELETE /users/{user_id}/food: Forbidden, or every row of the owner is
      gone and no other row is touched. */
  function DeleteUserFoodRoute(db: Db, current: int, user: int): (r: RouteResult<Done>)
    ensures current != user ==> r.response == Failure(Forbidden) && r.db == db
    ensures current == user ==> r.response == Success(Done)
    ensures current == user ==> r.db == db.(food := DeleteAllFoodForUser(db.food, user))
    ensures current == user ==> r.db.recipes == db.recipes && r.db.ingredients == db.ingredients
    ensures current == user ==> r.db.food.nextId == db.food.nextId
    ensures current == user ==>
              forall x :: multiset(r.db.food.rows)[x] == if x.userId == user then 0 else multiset(db.food.rows)[x]
  {
    if current != user then RouteResult(Failure(Forbidden), db)
    else RouteResult(Success(Done), db.(food := DeleteAllFoodForUser(db.food, user)))
  }

  /** GET /users/{user_id}/food/expiring: Forbidden, or the owner's rows
      dated within [today, today + days], soonest first. */
  function ExpiringItemsRoute(db: Db, current: int, user: int, today: int, days: Option<int>): (r: Result<seq<FoodRow>>)
    ensures current != user ==> r == Failure(Forbidden)
    ensures current == user ==> r == Success(ExpiringItems(db.food, user, today, days))
  {
    if current != user then Failure(Forbidden)
    else Success(GetExpiringItems(db.food, user, today, today + days.GetOr(DefaultExpiringDays)))
  }

  /** GET /users/{user_id}/recipes/suggest: Forbidden, or the computed body
      nested under one more `suggestions` key. */
  method SuggestRecipesRoute(db: Db, current: int, user: int) returns (r: Result<SuggestResponse>)
    ensures current != user ==> r == Failure(Forbidden)
    ensures current == user ==> r == Success(SuggestResponse(ComputeRecipeSuggestions(db, user)))
  {
    if current != user {
      return Failure(Forbidden);
    }
    var body := LegacyComputeRecipeSuggestions(db, user);
    return Success(SuggestResponse(body));
  }

  /** POST /users/{user_id}/recipes, written out as in the legacy route:
      Forbidden; the recipe insert; CreationFailed when it returned no row;
      otherwise the ingredient rows. It agrees with the service. */
  function SaveRecipeRoute(db: Db, current: int, user: int, payload: RecipeCreate, recipeAccepted: bool, ingredientsAccepted: bool): (r: RouteResult<SavedRecipe>)
    ensures current != user ==> r.response == Failure(Forbidden) && r.db == db
    ensures current == user ==>
              var s := SaveRecipe(db, user, payload, recipeAccepted, ingredientsAccepted);
              r.response == s.outcome && r.db == s.db
  {
    if current != user then RouteResult(Failure(Forbidden), db)
    else
      var created := CreateRecipe(db.recipes, user, payload, recipeAccepted);
      if created.created.None? then RouteResult(Failure(CreationFailed), db)
      else
        var recipe := created.created.value;
        var w := AddIngredients(db.ingredients, recipe.id, payload.ingredients, ingredientsAccepted);
        RouteResult(Success(SavedRecipe(recipe, w.data)), Db(db.food, created.table, w.table))
  }
}
