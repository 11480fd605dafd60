/** The `recipes` and `recipe_ingredients` tables and the queries
    app/repositories/recipes.py runs against them, in the same style as the
    food table: immutable rows plus the next serial id. */
module RecipeRepository {
  import opened Results
  import opened Seqs
  import opened Names
  import opened FoodRepository

  datatype RecipeRow = RecipeRow(id: int, userId: int, title: string, description: string)

  datatype IngredientRow = IngredientRow(
    id: int,
    recipeId: int,
    name: string,
    nameNorm: string,
    quantity: real,
    unit: string)

  /** The request body of a recipe save. Its ingredients have the shape of a
      food item; their expiration dates are not stored. */
  datatype RecipeCreate = RecipeCreate(title: string, description: Option<string>, ingredients: seq<FoodItemCreate>)

  datatype RecipeTable = RecipeTable(rows: seq<RecipeRow>, nextId: int)

  datatype IngredientTable = IngredientTable(rows: seq<IngredientRow>, nextId: int)

  /** What the recipe insert hands back: the created row, if the store
      returned one, and the table afterwards. */
  datatype RecipeWrite = RecipeWrite(created: Option<RecipeRow>, table: RecipeTable)

  /** What the ingredient insert hands back: the response data (absent
      when the store returned none) and the table afterwards. */
  datatype IngredientWrite = IngredientWrite(data: Option<seq<IngredientRow>>, table: IngredientTable)

  function RecipeOwnedBy(user: int): RecipeRow -> bool {
    (x: RecipeRow) => x.userId == user
  }

  function BelongsTo(recipeId: int): IngredientRow -> bool {
    (x: IngredientRow) => x.recipeId == recipeId
  }

  /** create_recipe: inserts one recipe row; a missing description is
      stored as the empty string. The result is the created row, or None
      when the store returned no data (and then nothing was stored). */
  function CreateRecipe(t: RecipeTable, user: int, payload: RecipeCreate, accepted: bool): (w: RecipeWrite)
    ensures !accepted ==> w.created.None? && w.table == t
    ensures accepted ==> && w.created.Some?
                         && w.table.rows == t.rows + [w.created.value]
                         && w.table.nextId == t.nextId + 1
    ensures accepted ==> var r := w.created.value;
                         && r.id == t.nextId && r.userId == user && r.title == payload.title
                         && (payload.description.Some? ==> r.description == payload.description.value)
                         && (payload.description.None? ==> r.description == "")
  {
    if !accepted then RecipeWrite(None, t)
    else
      var r := RecipeRow(t.nextId, user, payload.title, payload.description.GetOr(""));
      RecipeWrite(Some(r), RecipeTable(t.rows + [r], t.nextId + 1))
  }

  /** The row add_ingredients builds for one input ingredient. */
  function IngredientRowFor(id: int, recipeId: int, ing: FoodItemCreate): IngredientRow {
    IngredientRow(id, recipeId, ing.name, NormalizeName(ing.name), ing.quantity, ing.unit)
  }

  /** add_ingredients: one row per input ingredient, in input order, each
      pointing at `recipeId` and carrying its normalised name next to the
      display name; the rows are inserted in one batch. */
  function AddIngredients(t: IngredientTable, recipeId: int, ings: seq<FoodItemCreate>, accepted: bool): (w: IngredientWrite)
    ensures !accepted ==> w.data.None? && w.table == t
    ensures accepted ==> && w.data.Some? && |w.data.value| == |ings|
                         && w.table.rows == t.rows + w.data.value
                         && w.table.nextId == t.nextId + |ings|
    ensures accepted ==> forall i :: 0 <= i < |ings| ==>
              var r := w.data.value[i];
              && r.id == t.nextId + i && r.recipeId == recipeId
              && r.name == ings[i].name && r.nameNorm == NormalizeName(ings[i].name)
              && r.quantity == ings[i].quantity && r.unit == ings[i].unit
  {
    if !accepted then IngredientWrite(None, t)
    else
      var rows := seq(|ings|, i requires 0 <= i < |ings| => IngredientRowFor(t.nextId + i, recipeId, ings[i]));
      IngredientWrite(Some(rows), IngredientTable(t.rows + rows, t.nextId + |ings|))
  }

  /** get_recipes_for_user: the user's recipes in stored order, empty when
      there are none. */
  function GetRecipesForUser(t: RecipeTable, user: int): (r: seq<RecipeRow>)
    ensures |r| == |Positions(t.rows, RecipeOwnedBy(user))|
    ensures forall j :: 0 <= j < |r| ==> r[j] == t.rows[Positions(t.rows, RecipeOwnedBy(user))[j]]
    ensures forall x :: x in r <==> x in t.rows && x.userId == user
    ensures r == [] <==> forall i :: 0 <= i < |t.rows| ==> t.rows[i].userId != user
  {
    var r := Filter(t.rows, RecipeOwnedBy(user));
    FilterHas(t.rows, RecipeOwnedBy(user));
    FilterPicks(t.rows, RecipeOwnedBy(user));
    assert r == [] <==> forall i :: 0 <= i < |t.rows| ==> t.rows[i].userId != user by {
      if r != [] {
        assert r[0] in r;
      } else {
        forall i | 0 <= i < |t.rows|
          ensures t.rows[i].userId != user
        {
          assert t.rows[i] in t.rows;
        }
      }
    }
    r
  }

  /** get_ingredients_for_recipe: the recipe's ingredient rows in stored
      order, empty when there are none. */
  function GetIngredientsForRecipe(t: IngredientTable, recipeId: int): (r: seq<IngredientRow>)
    ensures |r| == |Positions(t.rows, BelongsTo(recipeId))|
    ensures forall j :: 0 <= j < |r| ==> r[j] == t.rows[Positions(t.rows, BelongsTo(recipeId))[j]]
    ensures forall x :: x in r <==> x in t.rows && x.recipeId == recipeId
    ensures r == [] <==> forall i :: 0 <= i < |t.rows| ==> t.rows[i].recipeId != recipeId
  {
    var r := Filter(t.rows, BelongsTo(recipeId));
    FilterHas(t.rows, BelongsTo(recipeId));
    FilterPicks(t.rows, BelongsTo(recipeId));
    assert r == [] <==> forall i :: 0 <= i < |t.rows| ==> t.rows[i].recipeId != recipeId by {
      if r != [] {
        assert r[0] in r;
      } else {
        forall i | 0 <= i < |t.rows|
          ensures t.rows[i].recipeId != recipeId
        {
          assert t.rows[i] in t.rows;
        }
      }
    }
    r
  }

  /** A created recipe is listed for its owner after all the recipes the
      owner already had. */
  lemma CreatedRecipeIsListedLast(t: RecipeTable, user: int, payload: RecipeCreate)
    ensures var w := CreateRecipe(t, user, payload, true);
            GetRecipesForUser(w.table, user) == GetRecipesForUser(t, user) + [w.created.value]
  {
    var w := CreateRecipe(t, user, payload, true);
    FilterAppend(t.rows, [w.created.value], RecipeOwnedBy(user));
  }

  /** Ingredients added under a recipe id that no stored ingredient used
      yet read back as exactly the inserted rows, in input order. */
  lemma AddedIngredientsReadBack(t: IngredientTable, recipeId: int, ings: seq<FoodItemCreate>)
    requires forall i :: 0 <= i < |t.rows| ==> t.rows[i].recipeId != recipeId
    ensures var w := AddIngredients(t, recipeId, ings, true);
            GetIngredientsForRecipe(w.table, recipeId) == w.data.value
  {
    var w := AddIngredients(t, recipeId, ings, true);
    var rows := w.data.value;
    assert GetIngredientsForRecipe(t, recipeId) == [];
    forall i | 0 <= i < |rows|
      ensures BelongsTo(recipeId)(rows[i])
    {
    }
    FilterKeepsAll(rows, BelongsTo(recipeId));
    FilterAppend(t.rows, rows, BelongsTo(recipeId));
  }
}
