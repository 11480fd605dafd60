/** The `food_stock` table and the queries app/repositories/food.py runs
    against it. The remote table is an immutable sequence of rows plus the
    next serial id it will hand out; each query builder chain becomes one
    selection over that sequence. Dates are day numbers, quantities reals. */
module FoodRepository {
  import opened Results
  import opened Seqs
  import opened Names

  datatype FoodRow = FoodRow(
    id: int,
    userId: int,
    name: string,
    nameNorm: string,
    quantity: real,
    unit: string,
    expirationDate: int)

  datatype FoodTable = FoodTable(rows: seq<FoodRow>, nextId: int)

  /** The request body of an add (FoodItemCreate). */
  datatype FoodItemCreate = FoodItemCreate(name: string, quantity: real, unit: string, expirationDate: int)

  /** What a write hands back: the response's `data` (absent when the store
      returned none) and the table afterwards. */
  datatype FoodWrite = FoodWrite(data: Option<seq<FoodRow>>, table: FoodTable)

  /** Two rows of the same owner with equal merge keys describe the same
      food bought with the same expiry and must be merged. */
  datatype MergeKey = MergeKey(nameNorm: string, unit: string, expirationDate: int)

  function KeyOf(row: FoodRow): MergeKey {
    MergeKey(row.nameNorm, row.unit, row.expirationDate)
  }

  // The filters the repository composes its queries from.

  function OwnedBy(user: int): FoodRow -> bool {
    (x: FoodRow) => x.userId == user
  }

  function NotOwnedBy(user: int): FoodRow -> bool {
    (x: FoodRow) => x.userId != user
  }

  function IsEntry(user: int, id: int): FoodRow -> bool {
    (x: FoodRow) => x.userId == user && x.id == id
  }

  function NotEntry(user: int, id: int): FoodRow -> bool {
    (x: FoodRow) => !(x.userId == user && x.id == id)
  }

  function HasKey(user: int, key: MergeKey): FoodRow -> bool {
    (x: FoodRow) => x.userId == user && KeyOf(x) == key
  }

  function ExpiresWithin(user: int, start: int, end: int): FoodRow -> bool {
    (x: FoodRow) => x.userId == user && start <= x.expirationDate <= end
  }

  /** Distinct rows never share an id, and rows of one owner never share a
      merge key. */
  predicate Distinct(a: FoodRow, b: FoodRow) {
    a.id != b.id && (a.userId != b.userId || KeyOf(a) != KeyOf(b))
  }

  /** The table invariant: ids are unique and below the next serial id, and
      each user has at most one row per (name key, unit, expiration date). */
  predicate WellFormed(t: FoodTable) {
    && (forall i, j :: 0 <= i < j < |t.rows| ==> Distinct(t.rows[i], t.rows[j]))
    && (forall i :: 0 <= i < |t.rows| ==> t.rows[i].id < t.nextId)
  }

  /** find_existing_food_row: some row of `user` whose stored key equals the
      normalised name with the same unit and expiration date. The store's
      `limit(1)` picks an unspecified matching row; the model picks the first
      in table order, which under `WellFormed` is the only one. */
  function FindExistingFoodRow(t: FoodTable, user: int, name: string, unit: string, expirationDate: int): (r: Option<FoodRow>)
    ensures r.Some? ==> r.value in t.rows
    ensures r.Some? ==> r.value.userId == user && r.value.nameNorm == NormalizeName(name)
                        && r.value.unit == unit && r.value.expirationDate == expirationDate
    ensures r.None? <==> forall i :: 0 <= i < |t.rows| ==> !HasKey(user, MergeKey(NormalizeName(name), unit, expirationDate))(t.rows[i])
  {
    var k := FirstIndex(t.rows, HasKey(user, MergeKey(NormalizeName(name), unit, expirationDate)));
    if k < 0 then None else Some(t.rows[k])
  }

  /** insert_food_item: appends one row with the next serial id, keeping the
      display name as given and storing its normalised key beside it. When
      the store returns no data the table is unchanged. */
  function InsertFoodItem(t: FoodTable, user: int, item: FoodItemCreate, accepted: bool): (w: FoodWrite)
    ensures !accepted ==> w.data.None? && w.table == t
    ensures accepted ==> && |w.table.rows| == |t.rows| + 1
                         && w.table.rows[..|t.rows|] == t.rows
                         && w.table.nextId == t.nextId + 1
                         && w.data == Some([w.table.rows[|t.rows|]])
    ensures accepted ==> var n := w.table.rows[|t.rows|];
                         && n.id == t.nextId && n.userId == user
                         && n.name == item.name && n.nameNorm == NormalizeName(item.name)
                         && n.quantity == item.quantity && n.unit == item.unit
                         && n.expirationDate == item.expirationDate
  {
    if !accepted then FoodWrite(None, t)
    else
      var n := FoodRow(t.nextId, user, item.name, NormalizeName(item.name), item.quantity, item.unit, item.expirationDate);
      assert (t.rows + [n])[..|t.rows|] == t.rows;
      FoodWrite(Some([n]), FoodTable(t.rows + [n], t.nextId + 1))
  }

  /** The row `x` is `y` with at most its quantity changed. */
  predicate SameExceptQuantity(x: FoodRow, y: FoodRow) {
    x == y.(quantity := x.quantity)
  }

  function WithQuantity(x: FoodRow, user: int, id: int, quantity: real): FoodRow {
    if IsEntry(user, id)(x) then x.(quantity := quantity) else x
  }

  /** update_food_quantity: sets the quantity of the rows matching both id
      and owner; every other row, and every other field, is untouched. The
      response carries the updated rows. */
  function UpdateFoodQuantity(t: FoodTable, id: int, user: int, quantity: real): (w: FoodWrite)
    ensures |w.table.rows| == |t.rows| && w.table.nextId == t.nextId
    ensures forall i :: 0 <= i < |t.rows| ==> SameExceptQuantity(w.table.rows[i], t.rows[i])
    ensures forall i :: 0 <= i < |t.rows| ==>
              if t.rows[i].userId == user && t.rows[i].id == id
              then w.table.rows[i].quantity == quantity
              else w.table.rows[i] == t.rows[i]
    ensures w.data == Some(Filter(w.table.rows, IsEntry(user, id)))
  {
    var rows := seq(|t.rows|, i requires 0 <= i < |t.rows| => WithQuantity(t.rows[i], user, id, quantity));
    FoodWrite(Some(Filter(rows, IsEntry(user, id))), FoodTable(rows, t.nextId))
  }

  /** get_all_food_items: every row of `user`, each as often as stored, and
      no row of anyone else. */
  function AllFoodItems(t: FoodTable, user: int): (r: seq<FoodRow>)
    ensures forall x :: multiset(r)[x] == if x.userId == user then multiset(t.rows)[x] else 0
  {
    FilterCounts(t.rows, OwnedBy(user));
    Filter(t.rows, OwnedBy(user))
  }

  /** get_food_item_detail: the row with this id, looked up among the rows
      of `user` only. */
  function GetFoodItemDetail(t: FoodTable, user: int, id: int): (r: Option<FoodRow>)
    ensures r.Some? ==> r.value in t.rows && r.value.userId == user && r.value.id == id
    ensures r.None? <==> forall i :: 0 <= i < |t.rows| ==> !(t.rows[i].userId == user && t.rows[i].id == id)
  {
    var k := FirstIndex(t.rows, IsEntry(user, id));
    if k < 0 then None else Some(t.rows[k])
  }

  /** delete_food_item: removes exactly the rows matching both owner and id. */
  function DeleteFoodItem(t: FoodTable, user: int, id: int): (r: FoodTable)
    ensures r.nextId == t.nextId
    ensures forall x :: multiset(r.rows)[x] == if x.userId == user && x.id == id then 0 else multiset(t.rows)[x]
  {
    FilterCounts(t.rows, NotEntry(user, id));
    FoodTable(Filter(t.rows, NotEntry(user, id)), t.nextId)
  }

  /** delete_all_food_for_user: removes every row of `user` and no other. */
  function DeleteAllFoodForUser(t: FoodTable, user: int): (r: FoodTable)
    ensures r.nextId == t.nextId
    ensures forall x :: multiset(r.rows)[x] == if x.userId == user then 0 else multiset(t.rows)[x]
  {
    FilterCounts(t.rows, NotOwnedBy(user));
    FoodTable(Filter(t.rows, NotOwnedBy(user)), t.nextId)
  }

  predicate SortedByExpiry(s: seq<FoodRow>) {
    forall i, j :: 0 <= i < j < |s| ==> s[i].expirationDate <= s[j].expirationDate
  }

  function InsertByExpiry(x: FoodRow, s: seq<FoodRow>): (r: seq<FoodRow>)
    requires SortedByExpiry(s)
    ensures SortedByExpiry(r)
    ensures multiset(r) == multiset(s) + multiset{x}
    ensures forall y :: y in r <==> y == x || y in s
    decreases |s|
  {
    if |s| == 0 then [x]
    else if x.expirationDate <= s[0].expirationDate then [x] + s
    else
      assert s == [s[0]] + s[1..];
      var rest := InsertByExpiry(x, s[1..]);
      ConsSorted(s[0], rest);
      [s[0]] + rest
  }

  lemma ConsSorted(x: FoodRow, s: seq<FoodRow>)
    requires SortedByExpiry(s)
    requires forall y :: y in s ==> x.expirationDate <= y.expirationDate
    ensures SortedByExpiry([x] + s)
  {
    var r := [x] + s;
    forall i, j | 0 <= i < j < |r|
      ensures r[i].expirationDate <= r[j].expirationDate
    {
      if i == 0 {
        assert r[j] == s[j - 1];
      } else {
        assert r[i] == s[i - 1] && r[j] == s[j - 1];
      }
    }
  }

  /** Ascending order by expiration date (ties in an order the store picks;
      here, the order of the input). */
  function SortByExpiry(s: seq<FoodRow>): (r: seq<FoodRow>)
    ensures SortedByExpiry(r)
    ensures multiset(r) == multiset(s)
    decreases |s|
  {
    if |s| == 0 then []
    else
      assert s == [s[0]] + s[1..];
      InsertByExpiry(s[0], SortByExpiry(s[1..]))
  }

  /** get_expiring_items: exactly the rows of `user` dated within
      [start, end], soonest first. */
  function GetExpiringItems(t: FoodTable, user: int, start: int, end: int): (r: seq<FoodRow>)
    ensures SortedByExpiry(r)
    ensures forall x :: multiset(r)[x] ==
              if x.userId == user && start <= x.expirationDate <= end then multiset(t.rows)[x] else 0
  {
    FilterCounts(t.rows, ExpiresWithin(user, start, end));
    SortByExpiry(Filter(t.rows, ExpiresWithin(user, start, end)))
  }

  // Properties of the queries.

  /** With the invariant, the row the merge lookup finds is the only row of
      that owner with that key. */
  lemma FindExistingIsUnique(t: FoodTable, user: int, name: string, unit: string, expirationDate: int)
    requires WellFormed(t)
    requires FindExistingFoodRow(t, user, name, unit, expirationDate).Some?
    ensures forall i :: 0 <= i < |t.rows| && HasKey(user, MergeKey(NormalizeName(name), unit, expirationDate))(t.rows[i])
              ==> t.rows[i] == FindExistingFoodRow(t, user, name, unit, expirationDate).value
  {
    var e := FindExistingFoodRow(t, user, name, unit, expirationDate).value;
    forall i | 0 <= i < |t.rows| && HasKey(user, MergeKey(NormalizeName(name), unit, expirationDate))(t.rows[i])
      ensures t.rows[i] == e
    {
      var k :| 0 <= k < |t.rows| && t.rows[k] == e;
      RowsApart(t, i, k);
    }
  }

  /** Any two different positions of a well-formed table hold rows with
      different ids and, for one owner, different merge keys. */
  lemma RowsApart(t: FoodTable, i: int, j: int)
    requires WellFormed(t)
    requires 0 <= i < |t.rows| && 0 <= j < |t.rows|
    ensures i == j || Distinct(t.rows[i], t.rows[j])
  {
    if i < j {
      assert Distinct(t.rows[i], t.rows[j]);
    } else if j < i {
      assert Distinct(t.rows[j], t.rows[i]);
    }
  }

  /** Owner scoping of the detail query: an id that belongs to a row of
      another user is not found for this one. */
  lemma DetailIsOwnerScoped(t: FoodTable, user: int, x: FoodRow)
    requires WellFormed(t)
    requires x in t.rows && x.userId != user
    ensures GetFoodItemDetail(t, user, x.id).None?
  {
    var k :| 0 <= k < |t.rows| && t.rows[k] == x;
    forall i | 0 <= i < |t.rows|
      ensures t.rows[i].userId != user || t.rows[i].id != x.id
    {
      if i < k {
        assert t.rows[i].id != x.id by { assert Distinct(t.rows[i], t.rows[k]); }
      } else if k < i {
        assert t.rows[i].id != x.id by { assert Distinct(t.rows[k], t.rows[i]); }
      }
    }
  }

  /** Deleting an entry twice leaves the same table as deleting it once. */
  lemma DeleteFoodItemIdempotent(t: FoodTable, user: int, id: int)
    ensures DeleteFoodItem(DeleteFoodItem(t, user, id), user, id) == DeleteFoodItem(t, user, id)
  {
    FilterIdempotent(t.rows, NotEntry(user, id));
  }

  lemma DeleteAllFoodIdempotent(t: FoodTable, user: int)
    ensures DeleteAllFoodForUser(DeleteAllFoodForUser(t, user), user) == DeleteAllFoodForUser(t, user)
  {
    FilterIdempotent(t.rows, NotOwnedBy(user));
  }

  /** After deleting all of a user's food the user has none, and every other
      user's listing is exactly what it was. */
  lemma DeleteAllFoodIsScoped(t: FoodTable, user: int, other: int)
    ensures AllFoodItems(DeleteAllFoodForUser(t, user), user) == []
    ensures other != user ==> AllFoodItems(DeleteAllFoodForUser(t, user), other) == AllFoodItems(t, other)
  {
    var r := AllFoodItems(DeleteAllFoodForUser(t, user), user);
    assert multiset(r) == multiset{};
    if other != user {
      FilterThroughWeaker(t.rows, NotOwnedBy(user), OwnedBy(other));
    }
  }

  /** Deleting one entry never changes another user's listing. */
  lemma DeleteFoodItemIsScoped(t: FoodTable, user: int, id: int, other: int)
    requires other != user
    ensures AllFoodItems(DeleteFoodItem(t, user, id), other) == AllFoodItems(t, other)
  {
    FilterThroughWeaker(t.rows, NotEntry(user, id), OwnedBy(other));
  }

  /** A quantity update never changes another user's listing. */
  lemma UpdateFoodQuantityIsScoped(t: FoodTable, id: int, user: int, quantity: real, other: int)
    requires other != user
    ensures AllFoodItems(UpdateFoodQuantity(t, id, user, quantity).table, other) == AllFoodItems(t, other)
  {
    FilterIgnoresRejected(t.rows, UpdateFoodQuantity(t, id, user, quantity).table.rows, OwnedBy(other));
  }

  // The invariant is kept by every write.

  lemma InsertKeepsWellFormed(t: FoodTable, user: int, item: FoodItemCreate, accepted: bool)
    requires WellFormed(t)
    requires FindExistingFoodRow(t, user, item.name, item.unit, item.expirationDate).None?
    ensures WellFormed(InsertFoodItem(t, user, item, accepted).table)
  {
    if accepted {
      var key := MergeKey(NormalizeName(item.name), item.unit, item.expirationDate);
      var n := FoodRow(t.nextId, user, item.name, NormalizeName(item.name), item.quantity, item.unit, item.expirationDate);
      assert InsertFoodItem(t, user, item, accepted).table == FoodTable(t.rows + [n], t.nextId + 1);
      forall i | 0 <= i < |t.rows|
        ensures t.rows[i].userId != n.userId || KeyOf(t.rows[i]) != KeyOf(n)
      {
        assert !HasKey(user, key)(t.rows[i]);
      }
      AppendKeepsWellFormed(t, n);
    }
  }

  /** A row with the next serial id and a merge key its owner does not use
      yet can be appended without breaking the invariant. */
  lemma AppendKeepsWellFormed(t: FoodTable, n: FoodRow)
    requires WellFormed(t)
    requires n.id == t.nextId
    requires forall i :: 0 <= i < |t.rows| ==> t.rows[i].userId != n.userId || KeyOf(t.rows[i]) != KeyOf(n)
    ensures WellFormed(FoodTable(t.rows + [n], t.nextId + 1))
  {
    var rows := t.rows + [n];
    forall i, j | 0 <= i < j < |rows|
      ensures Distinct(rows[i], rows[j])
    {
      if j == |t.rows| {
        assert rows[i] == t.rows[i];
      } else {
        assert rows[i] == t.rows[i] && rows[j] == t.rows[j];
      }
    }
    forall i | 0 <= i < |rows|
      ensures rows[i].id < t.nextId + 1
    {
      if i < |t.rows| {
        assert rows[i] == t.rows[i];
      }
    }
  }

  lemma UpdateKeepsWellFormed(t: FoodTable, id: int, user: int, quantity: real)
    requires WellFormed(t)
    ensures WellFormed(UpdateFoodQuantity(t, id, user, quantity).table)
  {
    var rows := UpdateFoodQuantity(t, id, user, quantity).table.rows;
    forall i, j | 0 <= i < j < |rows|
      ensures Distinct(rows[i], rows[j])
    {
      assert SameExceptQuantity(rows[i], t.rows[i]) && SameExceptQuantity(rows[j], t.rows[j]);
      assert Distinct(t.rows[i], t.rows[j]);
    }
    forall i | 0 <= i < |rows|
      ensures rows[i].id < t.nextId
    {
      assert SameExceptQuantity(rows[i], t.rows[i]);
    }
  }

  /** Any selection of a well-formed table's rows is well-formed. */
  lemma FilterKeepsWellFormed(t: FoodTable, p: FoodRow -> bool)
    requires WellFormed(t)
    ensures WellFormed(FoodTable(Filter(t.rows, p), t.nextId))
  {
    FilterKeepsPairwise(t.rows, p, Distinct);
    FilterPicks(t.rows, p);
    var r := Filter(t.rows, p);
    forall i | 0 <= i < |r|
      ensures r[i].id < t.nextId
    {
      assert r[i] in t.rows;
    }
  }

  lemma DeleteKeepsWellFormed(t: FoodTable, user: int, id: int)
    requires WellFormed(t)
    ensures WellFormed(DeleteFoodItem(t, user, id))
    ensures WellFormed(DeleteAllFoodForUser(t, user))
  {
    FilterKeepsWellFormed(t, NotEntry(user, id));
    FilterKeepsWellFormed(t, NotOwnedBy(user));
  }
}
