/**
 * The data-access handlers: each runs one statement against the database and
 * turns the outcome into the public contract (a list, a record or None, a
 * success flag). The database is a `Store` holding the two tables; the
 * handlers that write change its tables in place.
 */
module DataAccess {
  import opened Wrappers
  import opened Domain
  import opened Schema
  import opened Ordering
  import opened TransactionQueries
  import opened CategoryQueries

  /** What the database raises when a statement would break a constraint. */
  datatype IntegrityError = UniqueViolation

  /**
   * The mapping step of `list_transactions`: every row the list query returns
   * becomes a transaction with its category, in order.
   */
  method MapRows(rows: seq<JoinedRow>, txns: seq<Transaction>, cats: seq<Category>, categoryId: Option<int>)
    returns (r: seq<TransactionWithCategory>)
    requires forall i :: 0 <= i < |rows| ==> Listed(rows[i], txns, cats, categoryId)
    ensures |r| == |rows|
    ensures forall k :: 0 <= k < |r| ==> RowToTransactionWithCategory(rows[k]) == Success(r[k])
    ensures forall k :: 0 <= k < |r| ==> r[k].transaction == RowTransaction(rows[k])
    ensures forall k :: 0 <= k < |r| ==> r[k].category == CategoryView(r[k].transaction, cats)
  {
    r := [];
    for i := 0 to |rows|
      invariant |r| == i
      invariant forall k :: 0 <= k < i ==> RowToTransactionWithCategory(rows[k]) == Success(r[k])
      invariant forall k :: 0 <= k < i ==> r[k].transaction == RowTransaction(rows[k])
      invariant forall k :: 0 <= k < i ==> r[k].category == CategoryView(r[k].transaction, cats)
    {
      var t := RowTransaction(rows[i]);
      assert rows[i] == JoinRow(t, cats);
      MapJoinedRow(t, cats);
      var mapped := RowToTransactionWithCategory(rows[i]);
      r := r + [mapped.value];
    }
  }

  class Store {
    /** The `categories` table, in storage order. */
    var categories: seq<Category>
    /** The `transactions` table, in storage order. */
    var transactions: seq<Transaction>

    /**
     * What holds of every state the handlers can reach: the constraints SQLite
     * enforces (primary keys, UNIQUE names) and positive ids, which SQLite does
     * not enforce but every generated id has.
     */
    ghost predicate Valid()
      reads this
    {
      CategoriesTableValid(categories) && TransactionsTableValid(transactions)
    }

    constructor ()
      ensures Valid()
      ensures categories == [] && transactions == []
    {
      categories := [];
      transactions := [];
    }

    /**
     * `list_transactions`: at most `limit` transactions, newest first, after
     * skipping `offset`, restricted to `categoryId` when given, each with the
     * category it refers to.
     */
    method ListTransactions(limit: int := 100, offset: int := 0, categoryId: Option<int> := None)
      returns (r: seq<TransactionWithCategory>)
      ensures limit >= 0 ==> |r| <= limit
      ensures forall i, j :: 0 <= i < j < |r| ==> r[i].transaction.date >= r[j].transaction.date
      ensures categoryId.Some? ==> forall i :: 0 <= i < |r| ==> r[i].transaction.categoryId == categoryId
      ensures forall i :: 0 <= i < |r| ==>
        r[i].transaction in transactions && r[i].category == CategoryView(r[i].transaction, categories)
      ensures var rows := ListTransactionsQuery(transactions, categories, limit, offset, categoryId);
        |r| == |rows| && forall i :: 0 <= i < |r| ==> RowToTransactionWithCategory(rows[i]) == Success(r[i])
    {
      var rows := ListTransactionsQuery(transactions, categories, limit, offset, categoryId);
      ListTransactionsQuerySpec(transactions, categories, limit, offset, categoryId);
      r := MapRows(rows, transactions, categories, categoryId);
    }

    /** `get_transaction`: the transaction with the id and its category, or None when there is none. */
    method GetTransaction(id: int) returns (r: Option<TransactionWithCategory>)
      ensures r.None? <==> forall t :: t in transactions ==> t.id != id
      ensures r.Some? ==>
        && r.value.transaction.id == id
        && r.value.transaction in transactions
        && r.value.category == CategoryView(r.value.transaction, categories)
    {
      var rows := GetTransactionQuery(transactions, categories, id);
      GetTransactionQuerySpec(transactions, categories, id);
      if rows == [] {
        r := None;
      } else {
        MapJoinedRow(FindTransaction(transactions, id).value, categories);
        r := Some(RowToTransactionWithCategory(rows[0]).value);
      }
    }

    /** `create_transaction`: inserts the row and returns it, with its new id. */
    method CreateTransaction(data: TransactionCreate, now: Timestamp) returns (r: Transaction)
      requires Valid()
      modifies this
      ensures Valid()
      ensures categories == old(categories)
      ensures transactions == old(transactions) + [r]
      ensures r.id >= 1 && forall t :: t in old(transactions) ==> t.id != r.id
      ensures r.amount == data.amount && r.description == data.description
      ensures r.date == data.date && r.categoryId == data.categoryId && r.createdAt == now
      ensures FindTransaction(transactions, r.id) == Some(r)
    {
      r := NewTransactionRow(transactions, data, now);
      TransactionsAppendValid(transactions, r);
      transactions := transactions + [r];
      FindTransactionUnique(transactions, r);
    }

    /**
     * `update_transaction`: sets the patched columns of the row with the id
     * and returns it, or None when no row has the id; no other row changes.
     */
    method UpdateTransaction(id: int, patch: TransactionPatch) returns (r: Option<Transaction>)
      requires Valid()
      modifies this
      ensures Valid()
      ensures categories == old(categories)
      ensures transactions == UpdateTransactionRows(old(transactions), id, patch)
      ensures r.None? <==> forall t :: t in old(transactions) ==> t.id != id
      ensures r == match FindTransaction(old(transactions), id)
        case None => None
        case Some(t) => Some(ApplyTransactionPatch(t, patch))
    {
      UpdateTransactionReturning(transactions, id, patch);
      UpdateTransactionKeepsKey(transactions, id, patch);
      transactions := UpdateTransactionRows(transactions, id, patch);
      r := FindTransaction(transactions, id);
    }

    /** `delete_transaction`: removes the row with the id; true exactly when there was one. */
    method DeleteTransaction(id: int) returns (deleted: bool)
      requires Valid()
      modifies this
      ensures Valid()
      ensures categories == old(categories)
      ensures transactions == DeleteTransactionRows(old(transactions), id)
      ensures deleted <==> exists t :: t in old(transactions) && t.id == id
      ensures forall t :: t in transactions <==> t in old(transactions) && t.id != id
      ensures FindTransaction(transactions, id).None?
    {
      DeleteTransactionKeepsKey(transactions, id);
      var before := |transactions|;
      transactions := DeleteTransactionRows(transactions, id);
      var rowcount := before - |transactions|;
      deleted := rowcount > 0;
    }

    /** `list_categories`: at most `limit` categories by name, after skipping `offset`. */
    method ListCategories(limit: int := 100, offset: int := 0) returns (r: seq<Category>)
      ensures limit >= 0 ==> |r| <= limit
      ensures |r| == WindowSize(|categories|, offset, limit)
      ensures forall i, j :: 0 <= i < j < |r| ==> LexLe(r[i].name, r[j].name)
      ensures forall i :: 0 <= i < |r| ==> r[i] in categories
      ensures r == ListCategoriesQuery(categories, limit, offset)
    {
      r := ListCategoriesQuery(categories, limit, offset);
      ListCategoriesQuerySpec(categories, limit, offset);
    }

    /** `get_category`: the category with the id, or None when there is none. */
    method GetCategory(id: int) returns (r: Option<Category>)
      ensures r.None? <==> forall c :: c in categories ==> c.id != id
      ensures r.Some? ==> r.value in categories && r.value.id == id
    {
      var rows := GetCategoryQuery(categories, id);
      GetCategoryQuerySpec(categories, id);
      r := if rows == [] then None else Some(rows[0]);
    }

    /**
     * `list_categories_with_counts`: every category once, by name, with the
     * number of transactions that refer to it.
     */
    method ListCategoriesWithCounts() returns (r: seq<CategoryWithCount>)
      ensures multiset(CategoriesOf(r)) == multiset(categories)
      ensures forall i, j :: 0 <= i < j < |r| ==> LexLe(r[i].category.name, r[j].category.name)
      ensures forall i :: 0 <= i < |r| ==>
        r[i].transactionCount == CountWithCategory(transactions, Some(r[i].category.id))
    {
      r := ListCategoriesWithCountsQuery(categories, transactions);
      ListCategoriesWithCountsQuerySpec(categories, transactions);
    }

    /**
     * `create_category`: inserts the row and returns it with its new id, or
     * fails, leaving the table as it was, when the name is already taken.
     */
    method CreateCategory(data: CategoryCreate, now: Timestamp) returns (r: Result<Category, IntegrityError>)
      requires Valid()
      modifies this
      ensures Valid()
      ensures transactions == old(transactions)
      ensures r.Failure? <==> exists c :: c in old(categories) && c.name == data.name
      ensures r.Failure? ==> categories == old(categories)
      ensures r.Success? ==>
        && categories == old(categories) + [r.value]
        && r.value.id >= 1 && (forall c :: c in old(categories) ==> c.id != r.value.id)
        && r.value.name == data.name && r.value.description == data.description && r.value.createdAt == now
        && FindCategory(categories, r.value.id) == Some(r.value)
    {
      var row := NewCategoryRow(categories, data, now);
      var next := categories + [row];
      InsertCategoryConflict(categories, row);
      if !CategoryNamesUnique(next) {
        r := Failure(UniqueViolation);
      } else {
        CategoryIdsAppendUnique(categories, row);
        categories := next;
        FindCategoryUnique(categories, row);
        r := Success(row);
      }
    }

    /**
     * `update_category`: sets the patched columns of the row with the id and
     * returns it, or None when no row has the id; fails, leaving the table as
     * it was, when the new name belongs to another category.
     */
    method UpdateCategory(id: int, patch: CategoryPatch) returns (r: Result<Option<Category>, IntegrityError>)
      requires Valid()
      modifies this
      ensures Valid()
      ensures transactions == old(transactions)
      ensures r.Failure? <==> match FindCategory(old(categories), id)
        case None => false
        case Some(c) => exists d :: d in old(categories) && d.id != id && d.name == ApplyCategoryPatch(c, patch).name
      ensures r.Failure? ==> categories == old(categories)
      ensures r.Success? ==> categories == UpdateCategoryRows(old(categories), id, patch)
      ensures r.Success? ==> r.value == match FindCategory(old(categories), id)
        case None => None
        case Some(c) => Some(ApplyCategoryPatch(c, patch))
    {
      var next := UpdateCategoryRows(categories, id, patch);
      UpdateCategoryConflict(categories, id, patch);
      UpdateCategoryReturning(categories, id, patch);
      if !CategoryNamesUnique(next) {
        r := Failure(UniqueViolation);
      } else {
        UpdateCategoryKeepsKey(categories, id, patch);
        categories := next;
        r := Success(FindCategory(categories, id));
      }
    }

    /**
     * `delete_category`: removes the row with the id; true exactly when there
     * was one. Transactions are untouched: those that referred to it keep a
     * dangling `category_id`.
     */
    method DeleteCategory(id: int) returns (deleted: bool)
      requires Valid()
      modifies this
      ensures Valid()
      ensures transactions == old(transactions)
      ensures categories == DeleteCategoryRows(old(categories), id)
      ensures deleted <==> exists c :: c in old(categories) && c.id == id
      ensures forall c :: c in categories <==> c in old(categories) && c.id != id
      ensures FindCategory(categories, id).None?
    {
      DeleteCategoryKeepsConstraints(categories, id);
      var before := |categories|;
      categories := DeleteCategoryRows(categories, id);
      var rowcount := before - |categories|;
      deleted := rowcount > 0;
    }
  }

  /**
   * A client of the handlers: create the category "Food", record a spending
   * of 12.50 in it, and list the transactions of that category.
   */
  method FoodScenario()
  {
    var store := new Store();
    var food := store.CreateCategory(NewCategoryCreate("Food"), 1);
    assert food.Success?;
    var foodId := food.value.id;
    assert store.categories == [food.value];
    var input := NewTransactionCreate(-12.5, 2, date := Some(20240101), categoryId := Some(foodId));
    assert input.Success?;
    var spent := store.CreateTransaction(input.value, 2);
    assert store.transactions == [spent];
    assert store.categories == [food.value];
    assert FindCategory(store.categories, foodId) == Some(food.value);
    var listed := store.ListTransactions(categoryId := Some(foodId));
    // exactly the one transaction is listed, with its category nested
    ListTransactionsQueryComplete(store.transactions, store.categories, 100, 0, Some(foodId), spent);
    ListTransactionsQueryAll(store.transactions, store.categories, 100, 0, Some(foodId));
    assert |OuterJoin(store.transactions, store.categories)| == 1;
    assert |listed| == 1;
    assert listed[0].transaction == spent && spent.amount == -12.5;
    assert listed[0].category == Some(Category(foodId, "Food", None, 2));
  }
}
