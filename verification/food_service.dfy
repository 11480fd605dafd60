/** Inventory logic of app/services/food_service.py: add-or-merge, consume,
    detail, delete, delete-all and the expiry window, each a function from
    the food table (and the request) to a result and the next table. */
module FoodService {
  import opened Results
  import opened Seqs
  import opened Names
  import opened FoodRepository

  datatype AddTag = Created | Updated

  /** The service's return value for an add: the tag, the response data of
      the write, and the table afterwards. */
  datatype AddResult = AddResult(tag: AddTag, data: Option<seq<FoodRow>>, table: FoodTable)

  /** add_or_update_food_item. If the owner already has a row with the same
      normalised name, unit and expiration date, that row's quantity grows
      by the added quantity and nothing is inserted; otherwise exactly one
      new row is inserted (when the store accepts it). */
  function AddOrUpdateFoodItem(t: FoodTable, user: int, item: FoodItemCreate, accepted: bool): (r: AddResult)
    ensures var existing := FindExistingFoodRow(t, user, item.name, item.unit, item.expirationDate);
            existing.Some? ==>
              && r.tag == Updated
              && |r.table.rows| == |t.rows| && r.table.nextId == t.nextId
              && (forall i :: 0 <= i < |t.rows| ==> SameExceptQuantity(r.table.rows[i], t.rows[i]))
              && (forall i :: 0 <= i < |t.rows| ==>
                    if t.rows[i].userId == user && t.rows[i].id == existing.value.id
                    then r.table.rows[i].quantity == existing.value.quantity + item.quantity
                    else r.table.rows[i] == t.rows[i])
              && r.data == Some(Filter(r.table.rows, IsEntry(user, existing.value.id)))
    ensures var existing := FindExistingFoodRow(t, user, item.name, item.unit, item.expirationDate);
            existing.None? ==>
              && r.tag == Created
              && (!accepted ==> r.table == t && r.data.None?)
              && (accepted ==>
                    && |r.table.rows| == |t.rows| + 1
                    && r.table.rows[..|t.rows|] == t.rows
                    && r.table.nextId == t.nextId + 1
                    && r.data == Some([r.table.rows[|t.rows|]])
                    && var n := r.table.rows[|t.rows|];
                       n.id == t.nextId && n.userId == user && n.name == item.name && n.nameNorm == NormalizeName(item.name)
                       && n.quantity == item.quantity && n.unit == item.unit
                       && n.expirationDate == item.expirationDate)
  {
    match FindExistingFoodRow(t, user, item.name, item.unit, item.expirationDate)
    case Some(existing) =>
      var w := UpdateFoodQuantity(t, existing.id, user, existing.quantity + item.quantity);
      AddResult(Updated, w.data, w.table)
    case None =>
      var w := InsertFoodItem(t, user, item, accepted);
      AddResult(Created, w.data, w.table)
  }

  /** Adding keeps at most one row per owner and merge key. */
  lemma AddKeepsWellFormed(t: FoodTable, user: int, item: FoodItemCreate, accepted: bool)
    requires WellFormed(t)
    ensures WellFormed(AddOrUpdateFoodItem(t, user, item, accepted).table)
  {
    var existing := FindExistingFoodRow(t, user, item.name, item.unit, item.expirationDate);
    if existing.Some? {
      UpdateKeepsWellFormed(t, existing.value.id, user, existing.value.quantity + item.quantity);
    } else {
      InsertKeepsWellFormed(t, user, item, accepted);
    }
  }

  /** Once a table ends in a row carrying the key that the earlier rows
      lacked, a lookup with that key finds exactly that row. */
  lemma LookupFindsLastRow(t: FoodTable, t1: FoodTable, user: int, second: FoodItemCreate)
    requires WellFormed(t1)
    requires |t1.rows| == |t.rows| + 1 && t1.rows[..|t.rows|] == t.rows
    requires FindExistingFoodRow(t, user, second.name, second.unit, second.expirationDate).None?
    requires HasKey(user, MergeKey(NormalizeName(second.name), second.unit, second.expirationDate))(t1.rows[|t.rows|])
    ensures FindExistingFoodRow(t1, user, second.name, second.unit, second.expirationDate) == Some(t1.rows[|t.rows|])
  {
    FindExistingIsUnique(t1, user, second.name, second.unit, second.expirationDate);
  }

  /** Adding to a table whose last row already carries the key only raises
      that row's quantity. */
  lemma AddMergesIntoLast(t: FoodTable, t1: FoodTable, user: int, second: FoodItemCreate)
    requires WellFormed(t1)
    requires |t1.rows| == |t.rows| + 1 && t1.rows[..|t.rows|] == t.rows
    requires FindExistingFoodRow(t, user, second.name, second.unit, second.expirationDate).None?
    requires HasKey(user, MergeKey(NormalizeName(second.name), second.unit, second.expirationDate))(t1.rows[|t.rows|])
    ensures var r2 := AddOrUpdateFoodItem(t1, user, second, true);
            && r2.tag == Updated
            && |r2.table.rows| == |t.rows| + 1
            && r2.table.rows[..|t.rows|] == t.rows
            && r2.table.rows[|t.rows|].quantity == t1.rows[|t.rows|].quantity + second.quantity
            && SameExceptQuantity(r2.table.rows[|t.rows|], t1.rows[|t.rows|])
  {
    LookupFindsLastRow(t, t1, user, second);
    var n := t1.rows[|t.rows|];
    var r2 := AddOrUpdateFoodItem(t1, user, second, true);
    forall i | 0 <= i < |t.rows|
      ensures r2.table.rows[i] == t.rows[i]
    {
      assert t1.rows[i] == t.rows[i];
      assert Distinct(t1.rows[i], n);
    }
    assert r2.table.rows[..|t.rows|] == t.rows;
  }

  /** Adding the same food twice (any spelling with the same key) to a table
      that had none of it first creates one row, then merges into it: one
      row holding the sum, every older row untouched. */
  lemma AddTwiceMerges(t: FoodTable, user: int, first: FoodItemCreate, second: FoodItemCreate)
    requires WellFormed(t)
    requires FindExistingFoodRow(t, user, first.name, first.unit, first.expirationDate).None?
    requires NormalizeName(second.name) == NormalizeName(first.name)
    requires second.unit == first.unit && second.expirationDate == first.expirationDate
    ensures var r1 := AddOrUpdateFoodItem(t, user, first, true);
            var r2 := AddOrUpdateFoodItem(r1.table, user, second, true);
            && r1.tag == Created && r2.tag == Updated
            && |r2.table.rows| == |t.rows| + 1
            && r2.table.rows[..|t.rows|] == t.rows
            && r2.table.rows[|t.rows|].quantity == first.quantity + second.quantity
            && SameExceptQuantity(r2.table.rows[|t.rows|], r1.table.rows[|t.rows|])
  {
    AddKeepsWellFormed(t, user, first, true);
    AddMergesIntoLast(t, AddOrUpdateFoodItem(t, user, first, true).table, user, second);
  }

  /** What a successful consume reports. */
  datatype ConsumeOutcome = Removed | QuantityUpdated(data: Option<seq<FoodRow>>)

  datatype ConsumeResult = ConsumeResult(outcome: Result<ConsumeOutcome>, table: FoodTable)

  /** consume_item. An entry the owner does not have is NotFound and nothing
      changes. Otherwise the remainder is quantity minus amount: at zero or
      below the entry is removed (whatever the overshoot), above zero the
      entry keeps exactly the remainder; no other row changes. */
  function ConsumeItem(t: FoodTable, user: int, id: int, amount: real): (r: ConsumeResult)
    ensures GetFoodItemDetail(t, user, id).None? ==> r.outcome == Failure(NotFound) && r.table == t
    ensures GetFoodItemDetail(t, user, id).Some? && GetFoodItemDetail(t, user, id).value.quantity - amount <= 0.0 ==>
              && r.outcome == Success(Removed)
              && r.table.nextId == t.nextId
              && (forall x :: x in r.table.rows ==> !(x.userId == user && x.id == id))
              && (forall x: FoodRow :: !(x.userId == user && x.id == id) ==> multiset(r.table.rows)[x] == multiset(t.rows)[x])
    ensures GetFoodItemDetail(t, user, id).Some? && GetFoodItemDetail(t, user, id).value.quantity - amount > 0.0 ==>
              && r.outcome.Success? && r.outcome.value.QuantityUpdated?
              && r.outcome.value.data == Some(Filter(r.table.rows, IsEntry(user, id)))
              && |r.table.rows| == |t.rows| && r.table.nextId == t.nextId
              && (forall i :: 0 <= i < |t.rows| ==>
                    if t.rows[i].userId == user && t.rows[i].id == id
                    then r.table.rows[i] == t.rows[i].(quantity := GetFoodItemDetail(t, user, id).value.quantity - amount)
                    else r.table.rows[i] == t.rows[i])
  {
    match GetFoodItemDetail(t, user, id)
    case None => ConsumeResult(Failure(NotFound), t)
    case Some(item) =>
      var remaining := item.quantity - amount;
      if remaining <= 0.0 then
        ConsumeResult(Success(Removed), DeleteFoodItem(t, user, id))
      else
        var w := UpdateFoodQuantity(t, id, user, remaining);
        ConsumeResult(Success(QuantityUpdated(w.data)), w.table)
  }

  /** The table a consume leaves is the one the repository's delete or
      update call leaves, chosen by the remainder. */
  lemma ConsumeWrites(t: FoodTable, user: int, id: int, amount: real)
    requires GetFoodItemDetail(t, user, id).Some?
    ensures var remaining := GetFoodItemDetail(t, user, id).value.quantity - amount;
            ConsumeItem(t, user, id, amount).table
              == if remaining <= 0.0 then DeleteFoodItem(t, user, id)
                 else UpdateFoodQuantity(t, id, user, remaining).table
  {
  }

  lemma ConsumeKeepsWellFormed(t: FoodTable, user: int, id: int, amount: real)
    requires WellFormed(t)
    ensures WellFormed(ConsumeItem(t, user, id, amount).table)
  {
    var found := GetFoodItemDetail(t, user, id);
    if found.Some? {
      var remaining := found.value.quantity - amount;
      ConsumeWrites(t, user, id, amount);
      if remaining <= 0.0 {
        DeleteKeepsWellFormed(t, user, id);
      } else {
        UpdateKeepsWellFormed(t, id, user, remaining);
      }
    }
  }

  /** Consuming at least the whole quantity removes the entry, so a second
      consume of it is NotFound. */
  lemma ConsumeAllThenNotFound(t: FoodTable, user: int, id: int, amount: real, again: real)
    requires GetFoodItemDetail(t, user, id).Some?
    requires amount >= GetFoodItemDetail(t, user, id).value.quantity
    ensures ConsumeItem(t, user, id, amount).outcome == Success(Removed)
    ensures ConsumeItem(ConsumeItem(t, user, id, amount).table, user, id, again).outcome == Failure(NotFound)
  {
    var t' := ConsumeItem(t, user, id, amount).table;
    forall i | 0 <= i < |t'.rows|
      ensures !(t'.rows[i].userId == user && t'.rows[i].id == id)
    {
      assert t'.rows[i] in t'.rows;
    }
  }

  /** get_food_item: the owner's entry, or NotFound. */
  function GetFoodItem(t: FoodTable, user: int, id: int): (r: Result<FoodRow>)
    ensures r.Success? ==> r.value in t.rows && r.value.userId == user && r.value.id == id
    ensures r == Failure(NotFound) <==> forall i :: 0 <= i < |t.rows| ==> !(t.rows[i].userId == user && t.rows[i].id == id)
    ensures r.Failure? ==> r.error == NotFound
  {
    match GetFoodItemDetail(t, user, id)
    case Some(item) => Success(item)
    case None => Failure(NotFound)
  }

  /** The window length used when the caller names none. */
  const DefaultExpiringDays := 5

  /** get_expiring_items: today is a parameter; the window is
      [today, today + days] with days defaulting to five. The answer is
      exactly the owner's rows dated inside it, soonest first. */
  function ExpiringItems(t: FoodTable, user: int, today: int, days: Option<int>): (r: seq<FoodRow>)
    ensures SortedByExpiry(r)
    ensures var until := today + days.GetOr(5);
            forall x :: multiset(r)[x] ==
              if x.userId == user && today <= x.expirationDate <= until then multiset(t.rows)[x] else 0
  {
    GetExpiringItems(t, user, today, today + days.GetOr(DefaultExpiringDays))
  }
}
