/**
 * The statements the transaction handlers run, given their meaning over the
 * two tables, and the mapper from a joined row to a transaction with its
 * category.
 */
module TransactionQueries {
  import opened Wrappers
  import opened Domain
  import opened Schema
  import opened Ordering

  /**
   * One row of `transactions LEFT OUTER JOIN categories ON
   * transactions.category_id = categories.id`: every transaction column, plus
   * the joined category's name and description (NULL when nothing joined).
   */
  datatype JoinedRow = JoinedRow(
    id: int,
    amount: real,
    description: Option<string>,
    date: Timestamp,
    categoryId: Option<int>,
    createdAt: Timestamp,
    categoryName: Option<string>,
    categoryDescription: Option<string>)

  /** The transaction columns of a joined row. */
  function RowTransaction(row: JoinedRow): Transaction
  {
    Transaction(row.id, row.amount, row.description, row.date, row.categoryId, row.createdAt)
  }

  /**
   * Joins one transaction against the categories table. NULL equals nothing,
   * so an uncategorised transaction joins no category, and neither does one
   * whose category no longer exists; the transaction is kept either way.
   */
  function JoinRow(t: Transaction, cats: seq<Category>): (row: JoinedRow)
    ensures RowTransaction(row) == t
    ensures row.categoryName.Some? <==> RefersToExisting(t, cats)
    ensures row.categoryName.Some? ==>
      exists c :: c in cats && t.categoryId == Some(c.id) &&
        row.categoryName == Some(c.name) && row.categoryDescription == c.description
    ensures row.categoryName.None? ==> row.categoryDescription.None?
  {
    var joined := if t.categoryId.Some? then FindCategory(cats, t.categoryId.value) else None;
    JoinedRow(t.id, t.amount, t.description, t.date, t.categoryId, t.createdAt,
      if joined.Some? then Some(joined.value.name) else None,
      if joined.Some? then joined.value.description else None)
  }

  /** The outer join: one row per transaction, in table order. */
  function OuterJoin(txns: seq<Transaction>, cats: seq<Category>): seq<JoinedRow>
  {
    seq(|txns|, i requires 0 <= i < |txns| => JoinRow(txns[i], cats))
  }

  /** `WHERE transactions.category_id = ?` when a category is given; no filter otherwise. */
  function WhereCategory(rows: seq<JoinedRow>, categoryId: Option<int>): (r: seq<JoinedRow>)
    ensures categoryId.None? ==> r == rows
    ensures |r| <= |rows|
    ensures forall x :: x in r ==> x in rows
    ensures categoryId.Some? ==> forall x :: x in r ==> x.categoryId == categoryId
    ensures forall x :: x in rows && x.categoryId == categoryId ==> multiset(r)[x] == multiset(rows)[x]
  {
    if categoryId.None? || rows == [] then rows
    else
      assert rows == [rows[0]] + rows[1..];
      (if rows[0].categoryId == categoryId then [rows[0]] else []) + WhereCategory(rows[1..], categoryId)
  }

  /** `ORDER BY transactions.date DESC`: `a` may come before `b`. */
  function ByDateDesc(a: JoinedRow, b: JoinedRow): bool
  {
    a.date >= b.date
  }

  lemma ByDateDescIsTotalPreorder()
    ensures IsTotalPreorder(ByDateDesc)
  {
  }

  /**
   * `list_transactions_query`: the outer join, filtered by category when one
   * is given, newest first, then OFFSET and LIMIT. SQL filters before it
   * orders and paginates, wherever the WHERE clause is attached.
   */
  function ListTransactionsQuery(
    txns: seq<Transaction>, cats: seq<Category>,
    limit: int, offset: int, categoryId: Option<int>): seq<JoinedRow>
  {
    ByDateDescIsTotalPreorder();
    Page(Sort(WhereCategory(OuterJoin(txns, cats), categoryId), ByDateDesc), offset, limit)
  }

  /** Every row of the listing is the join of a stored transaction that passes the filter. */
  predicate Listed(row: JoinedRow, txns: seq<Transaction>, cats: seq<Category>, categoryId: Option<int>)
  {
    && RowTransaction(row) in txns
    && row == JoinRow(RowTransaction(row), cats)
    && (categoryId.Some? ==> row.categoryId == categoryId)
  }

  /**
   * The listing holds the window after `offset` of the transactions that pass
   * the filter, at most `limit` of them, newest first, each the join of a
   * stored transaction.
   */
  lemma {:induction false} ListTransactionsQuerySpec(
    txns: seq<Transaction>, cats: seq<Category>,
    limit: int, offset: int, categoryId: Option<int>)
    ensures var r := ListTransactionsQuery(txns, cats, limit, offset, categoryId);
      && (limit >= 0 ==> |r| <= limit)
      && |r| == WindowSize(|WhereCategory(OuterJoin(txns, cats), categoryId)|, offset, limit)
      && (forall i, j :: 0 <= i < j < |r| ==> r[i].date >= r[j].date)
      && (forall i :: 0 <= i < |r| ==> Listed(r[i], txns, cats, categoryId))
  {
    ByDateDescIsTotalPreorder();
    var filtered := WhereCategory(OuterJoin(txns, cats), categoryId);
    var sorted := Sort(filtered, ByDateDesc);
    var r := Page(sorted, offset, limit);
    PageSorted(sorted, offset, limit, ByDateDesc);
    forall i, j | 0 <= i < j < |r| ensures r[i].date >= r[j].date {
      assert ByDateDesc(r[i], r[j]);
    }
    forall i | 0 <= i < |r| ensures Listed(r[i], txns, cats, categoryId) {
      PageMember(sorted, offset, limit, r[i]);
      assert r[i] in multiset(sorted);
      OuterJoinMember(txns, cats, r[i]);
    }
  }

  /** Each row of the outer join is the join of one stored transaction. */
  lemma OuterJoinMember(txns: seq<Transaction>, cats: seq<Category>, row: JoinedRow)
    requires row in OuterJoin(txns, cats)
    ensures RowTransaction(row) in txns && row == JoinRow(RowTransaction(row), cats)
  {
    var joined := OuterJoin(txns, cats);
    var k :| 0 <= k < |joined| && joined[k] == row;
    assert row == JoinRow(txns[k], cats);
  }

  /**
   * Unpaginated (no offset, no effective limit), the listing holds every
   * transaction that passes the filter: with no filter, uncategorised
   * transactions and those whose category is gone are listed too.
   */
  lemma {:induction false} ListTransactionsQueryComplete(
    txns: seq<Transaction>, cats: seq<Category>,
    limit: int, offset: int, categoryId: Option<int>, t: Transaction)
    requires offset <= 0 && (limit < 0 || limit >= |txns|)
    requires t in txns && (categoryId.None? || t.categoryId == categoryId)
    ensures JoinRow(t, cats) in ListTransactionsQuery(txns, cats, limit, offset, categoryId)
  {
    ByDateDescIsTotalPreorder();
    var joined := OuterJoin(txns, cats);
    var filtered := WhereCategory(joined, categoryId);
    var sorted := Sort(filtered, ByDateDesc);
    var k :| 0 <= k < |txns| && txns[k] == t;
    assert joined[k] == JoinRow(t, cats);
    WhereCategoryKeeps(joined, categoryId, JoinRow(t, cats));
    assert JoinRow(t, cats) in multiset(sorted);
    PageAll(sorted, offset, limit);
  }

  /**
   * Unpaginated, the listing is a reordering of exactly the joined rows that
   * pass the filter: none is lost and none is repeated.
   */
  lemma ListTransactionsQueryAll(
    txns: seq<Transaction>, cats: seq<Category>,
    limit: int, offset: int, categoryId: Option<int>)
    requires offset <= 0 && (limit < 0 || limit >= |txns|)
    ensures multiset(ListTransactionsQuery(txns, cats, limit, offset, categoryId))
      == multiset(WhereCategory(OuterJoin(txns, cats), categoryId))
  {
    ByDateDescIsTotalPreorder();
    var filtered := WhereCategory(OuterJoin(txns, cats), categoryId);
    PageAll(Sort(filtered, ByDateDesc), offset, limit);
  }

  /** A row that passes the filter survives it. */
  lemma {:induction false} WhereCategoryKeeps(rows: seq<JoinedRow>, categoryId: Option<int>, x: JoinedRow)
    requires x in rows && (categoryId.None? || x.categoryId == categoryId)
    ensures x in WhereCategory(rows, categoryId)
  {
    if categoryId.Some? {
      assert multiset(rows)[x] > 0;
    }
  }

  /** `WHERE transactions.id = ?` over the outer join (`get_transaction_query`). */
  function GetTransactionQuery(txns: seq<Transaction>, cats: seq<Category>, id: int): seq<JoinedRow>
  {
    WhereId(OuterJoin(txns, cats), id)
  }

  function WhereId(rows: seq<JoinedRow>, id: int): (r: seq<JoinedRow>)
  {
    if rows == [] then []
    else (if rows[0].id == id then [rows[0]] else []) + WhereId(rows[1..], id)
  }

  /**
   * The lookup yields no row exactly when no transaction has the id, and
   * otherwise begins with the joined row of the transaction that has it.
   */
  lemma {:induction false} GetTransactionQuerySpec(txns: seq<Transaction>, cats: seq<Category>, id: int)
    ensures var rows := GetTransactionQuery(txns, cats, id);
      && (rows == [] <==> FindTransaction(txns, id).None?)
      && (rows != [] ==> rows[0] == JoinRow(FindTransaction(txns, id).value, cats))
  {
    if txns != [] {
      assert OuterJoin(txns, cats) == [JoinRow(txns[0], cats)] + OuterJoin(txns[1..], cats);
      GetTransactionQuerySpec(txns[1..], cats, id);
    }
  }

  datatype MappingError = CategoryIdMissing

  /** The joined category name is present and non-empty (Python truthiness). */
  predicate HasCategoryName(row: JoinedRow)
  {
    row.categoryName.Some? && row.categoryName.value != ""
  }

  /**
   * `row_to_transaction_with_category`: copies the transaction columns and,
   * when the row carries a category name, nests a category built from the
   * row's category id, name and description, with the transaction's own
   * `created_at` standing in for the category's. A row with a category name
   * but no category id fails record validation.
   */
  function RowToTransactionWithCategory(row: JoinedRow): (r: Result<TransactionWithCategory, MappingError>)
    ensures r.Failure? <==> HasCategoryName(row) && row.categoryId.None?
    ensures r.Success? ==>
      var t := r.value.transaction;
      && t.id == row.id && t.amount == row.amount && t.description == row.description
      && t.date == row.date && t.categoryId == row.categoryId && t.createdAt == row.createdAt
    ensures r.Success? ==> (r.value.category.Some? <==> HasCategoryName(row))
    ensures r.Success? && r.value.category.Some? ==>
      var c := r.value.category.value;
      && Some(c.id) == row.categoryId && Some(c.name) == row.categoryName
      && c.description == row.categoryDescription && c.createdAt == row.createdAt
  {
    var transaction := RowTransaction(row);
    if HasCategoryName(row) then
      if row.categoryId.None? then Failure(CategoryIdMissing)
      else
        var category := Category(row.categoryId.value, row.categoryName.value, row.categoryDescription, row.createdAt);
        Success(TransactionWithCategory(transaction, Some(category)))
    else
      Success(TransactionWithCategory(transaction, None))
  }

  /**
   * The nested category a transaction shows, read off the tables: the
   * category its `category_id` refers to, if that exists and has a non-empty
   * name, stamped with the transaction's `created_at`.
   */
  function CategoryView(t: Transaction, cats: seq<Category>): Option<Category>
  {
    if t.categoryId.None? then None
    else match FindCategory(cats, t.categoryId.value)
      case None => None
      case Some(c) => if c.name == "" then None else Some(Category(c.id, c.name, c.description, t.createdAt))
  }

  /** Mapping a row of the join never fails, and yields the transaction with its category view. */
  lemma MapJoinedRow(t: Transaction, cats: seq<Category>)
    ensures RowToTransactionWithCategory(JoinRow(t, cats)) == Success(TransactionWithCategory(t, CategoryView(t, cats)))
  {
  }

  /**
   * Under the primary key, a transaction that refers to an existing category
   * shows exactly that category (unless its name is empty), and one that
   * refers to none shows no category.
   */
  lemma CategoryViewSpec(t: Transaction, cats: seq<Category>)
    requires CategoryIdsUnique(cats)
    ensures !RefersToExisting(t, cats) ==> CategoryView(t, cats).None?
    ensures forall c :: c in cats && t.categoryId == Some(c.id) ==>
      CategoryView(t, cats) == if c.name == "" then None else Some(Category(c.id, c.name, c.description, t.createdAt))
  {
    forall c | c in cats && t.categoryId == Some(c.id)
      ensures CategoryView(t, cats) == if c.name == "" then None else Some(Category(c.id, c.name, c.description, t.createdAt))
    {
      FindCategoryUnique(cats, c);
    }
  }

  /**
   * The row `INSERT INTO transactions ... RETURNING` adds: the input's
   * columns, a fresh positive id and `created_at` set to the insert time.
   */
  function NewTransactionRow(txns: seq<Transaction>, data: TransactionCreate, now: Timestamp): (t: Transaction)
    ensures t.id >= 1
    ensures forall u :: u in txns ==> u.id != t.id
    ensures t.amount == data.amount && t.description == data.description
    ensures t.date == data.date && t.categoryId == data.categoryId && t.createdAt == now
  {
    var id := NextRowId(TransactionIds(txns));
    assert forall k :: 0 <= k < |txns| ==> TransactionIds(txns)[k] == txns[k].id;
    Transaction(id, data.amount, data.description, data.date, data.categoryId, now)
  }

  /** The columns an update sets; a column left None keeps its value. */
  datatype TransactionPatch = TransactionPatch(
    amount: Option<real>,
    description: Option<Option<string>>,
    date: Option<Timestamp>,
    categoryId: Option<Option<int>>)

  /** The column map of a full record, as a `TransactionCreate` supplies it. */
  function PatchOf(data: TransactionCreate): TransactionPatch
  {
    TransactionPatch(Some(data.amount), Some(data.description), Some(data.date), Some(data.categoryId))
  }

  /** One row after `UPDATE ... SET`: never its id or its `created_at`. */
  function ApplyTransactionPatch(t: Transaction, p: TransactionPatch): (u: Transaction)
    ensures u.id == t.id && u.createdAt == t.createdAt
  {
    Transaction(
      t.id,
      if p.amount.Some? then p.amount.value else t.amount,
      if p.description.Some? then p.description.value else t.description,
      if p.date.Some? then p.date.value else t.date,
      if p.categoryId.Some? then p.categoryId.value else t.categoryId,
      t.createdAt)
  }

  /** A full record's column map replaces every user-supplied column and keeps id and `created_at`. */
  lemma PatchOfReplaces(t: Transaction, data: TransactionCreate)
    ensures ApplyTransactionPatch(t, PatchOf(data)) ==
      Transaction(t.id, data.amount, data.description, data.date, data.categoryId, t.createdAt)
  {
  }

  /** `UPDATE transactions SET ... WHERE id = ?`: only rows with the id change. */
  function UpdateTransactionRows(txns: seq<Transaction>, id: int, p: TransactionPatch): (r: seq<Transaction>)
    ensures |r| == |txns|
    ensures forall i :: 0 <= i < |txns| ==>
      r[i] == if txns[i].id == id then ApplyTransactionPatch(txns[i], p) else txns[i]
  {
    if txns == [] then []
    else [if txns[0].id == id then ApplyTransactionPatch(txns[0], p) else txns[0]] + UpdateTransactionRows(txns[1..], id, p)
  }

  /** What `RETURNING` yields for the id: the patched row, or nothing when no row matched. */
  lemma {:induction false} UpdateTransactionReturning(txns: seq<Transaction>, id: int, p: TransactionPatch)
    ensures FindTransaction(UpdateTransactionRows(txns, id, p), id) ==
      match FindTransaction(txns, id)
      case None => None
      case Some(t) => Some(ApplyTransactionPatch(t, p))
  {
    if txns != [] {
      var r := UpdateTransactionRows(txns, id, p);
      assert r[1..] == UpdateTransactionRows(txns[1..], id, p);
      UpdateTransactionReturning(txns[1..], id, p);
    }
  }

  /** An update keeps every id, so it keeps the primary key. */
  lemma UpdateTransactionKeepsKey(txns: seq<Transaction>, id: int, p: TransactionPatch)
    requires TransactionsTableValid(txns)
    ensures TransactionsTableValid(UpdateTransactionRows(txns, id, p))
  {
  }

  /** `DELETE FROM transactions WHERE id = ?`: removes the rows with the id, keeps the rest. */
  function DeleteTransactionRows(txns: seq<Transaction>, id: int): (r: seq<Transaction>)
    ensures |r| <= |txns|
    ensures forall t :: t in r <==> t in txns && t.id != id
    ensures |r| < |txns| <==> exists t :: t in txns && t.id == id
  {
    if txns == [] then []
    else
      var rest := DeleteTransactionRows(txns[1..], id);
      assert txns == [txns[0]] + txns[1..];
      assert (exists t :: t in txns && t.id == id) <==>
        (txns[0].id == id || exists t :: t in txns[1..] && t.id == id);
      if txns[0].id == id then rest else [txns[0]] + rest
  }

  /** A deletion keeps the primary key. */
  lemma {:induction false} DeleteTransactionKeepsKey(txns: seq<Transaction>, id: int)
    requires TransactionsTableValid(txns)
    ensures TransactionsTableValid(DeleteTransactionRows(txns, id))
  {
    if txns != [] {
      TransactionsTailValid(txns);
      DeleteTransactionKeepsKey(txns[1..], id);
      if txns[0].id != id {
        var rest := DeleteTransactionRows(txns[1..], id);
        forall t | t in rest ensures t.id != txns[0].id {
          var k :| 0 <= k < |txns[1..]| && txns[1..][k] == t;
          assert txns[k + 1] == t;
        }
        TransactionsConsValid(txns[0], rest);
      }
    }
  }
}
