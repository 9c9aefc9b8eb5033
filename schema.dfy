/**
 * The two tables and their declared constraints, as predicates on table
 * contents. A table is a sequence of rows in storage (rowid) order. Column
 * nullability is carried by the row types: only `description` and
 * `category_id` are optional. The foreign key from `transactions.category_id`
 * to `categories.id` is declared but SQLite does not enforce it by default, so
 * it is no invariant: a transaction may refer to a category that does not
 * exist.
 */
module Schema {
  import opened Wrappers
  import opened Domain

  /**
   * PRIMARY KEY on `categories.id`. Positive ids are no SQLite constraint; the
   * handlers only ever store generated ids, which are positive.
   */
  predicate CategoryIdsUnique(cats: seq<Category>)
  {
    && (forall i :: 0 <= i < |cats| ==> cats[i].id >= 1)
    && (forall i, j :: 0 <= i < j < |cats| ==> cats[i].id != cats[j].id)
  }

  /** UNIQUE on `categories.name`. */
  predicate CategoryNamesUnique(cats: seq<Category>)
  {
    forall i, j :: 0 <= i < j < |cats| ==> cats[i].name != cats[j].name
  }

  /**
   * The categories table as the handlers keep it: the constraints SQLite
   * enforces, plus positive ids, which SQLite does not enforce but every
   * generated id has.
   */
  predicate CategoriesTableValid(cats: seq<Category>)
  {
    CategoryIdsUnique(cats) && CategoryNamesUnique(cats)
  }

  /**
   * PRIMARY KEY on `transactions.id`. Positive ids are no SQLite constraint;
   * the handlers only ever store generated ids, which are positive.
   */
  predicate TransactionsTableValid(txns: seq<Transaction>)
  {
    && (forall i :: 0 <= i < |txns| ==> txns[i].id >= 1)
    && (forall i, j :: 0 <= i < j < |txns| ==> txns[i].id != txns[j].id)
  }

  /** The declared reference `transactions.category_id -> categories.id` resolves. */
  predicate RefersToExisting(t: Transaction, cats: seq<Category>)
  {
    t.categoryId.Some? && exists c :: c in cats && c.id == t.categoryId.value
  }

  /** The largest id in use, or 0 for an empty table. */
  function MaxId(ids: seq<int>): (m: int)
    ensures m >= 0
    ensures forall i :: 0 <= i < |ids| ==> ids[i] <= m
  {
    if ids == [] then 0
    else
      var rest := MaxId(ids[1..]);
      assert forall i :: 1 <= i < |ids| ==> ids[i] == ids[1..][i - 1];
      if ids[0] > rest then ids[0] else rest
  }

  /**
   * The id SQLite gives a new row of an INTEGER PRIMARY KEY table: one more
   * than the largest id in the table, or 1 when it is empty.
   */
  function NextRowId(ids: seq<int>): (id: int)
    ensures id >= 1
    ensures id !in ids
  {
    MaxId(ids) + 1
  }

  function CategoryIds(cats: seq<Category>): (ids: seq<int>)
  {
    seq(|cats|, i requires 0 <= i < |cats| => cats[i].id)
  }

  function TransactionIds(txns: seq<Transaction>): (ids: seq<int>)
  {
    seq(|txns|, i requires 0 <= i < |txns| => txns[i].id)
  }

  /** `SELECT ... FROM categories WHERE id = ?`, first row. */
  function FindCategory(cats: seq<Category>, id: int): (r: Option<Category>)
    ensures r.None? <==> forall c :: c in cats ==> c.id != id
    ensures r.Some? ==> r.value in cats && r.value.id == id
  {
    if cats == [] then None
    else if cats[0].id == id then Some(cats[0])
    else FindCategory(cats[1..], id)
  }

  /** `SELECT ... FROM transactions WHERE id = ?`, first row. */
  function FindTransaction(txns: seq<Transaction>, id: int): (r: Option<Transaction>)
    ensures r.None? <==> forall t :: t in txns ==> t.id != id
    ensures r.Some? ==> r.value in txns && r.value.id == id
  {
    if txns == [] then None
    else if txns[0].id == id then Some(txns[0])
    else FindTransaction(txns[1..], id)
  }

  /** Under the primary key, the row a lookup finds is the only row with that id. */
  lemma {:induction false} FindCategoryUnique(cats: seq<Category>, c: Category)
    requires CategoryIdsUnique(cats) && c in cats
    ensures FindCategory(cats, c.id) == Some(c)
  {
    if cats[0] != c {
      CategoryIdsTailUnique(cats);
      FindCategoryUnique(cats[1..], c);
    }
  }

  /** Under the primary key, the row a lookup finds is the only row with that id. */
  lemma {:induction false} FindTransactionUnique(txns: seq<Transaction>, t: Transaction)
    requires TransactionsTableValid(txns) && t in txns
    ensures FindTransaction(txns, t.id) == Some(t)
  {
    if txns[0] != t {
      TransactionsTailValid(txns);
      FindTransactionUnique(txns[1..], t);
    }
  }

  lemma CategoryIdsTailUnique(cats: seq<Category>)
    requires CategoryIdsUnique(cats) && cats != []
    ensures CategoryIdsUnique(cats[1..])
  {
    var tail := cats[1..];
    forall i, j | 0 <= i < j < |tail| ensures tail[i].id != tail[j].id {
      assert tail[i] == cats[i + 1] && tail[j] == cats[j + 1];
    }
  }

  lemma CategoriesTailValid(cats: seq<Category>)
    requires CategoriesTableValid(cats) && cats != []
    ensures CategoriesTableValid(cats[1..])
  {
    var tail := cats[1..];
    forall i, j | 0 <= i < j < |tail| ensures tail[i].id != tail[j].id && tail[i].name != tail[j].name {
      assert tail[i] == cats[i + 1] && tail[j] == cats[j + 1];
    }
  }

  /** A row whose id and name are new can head a valid categories table. */
  lemma CategoriesConsValid(c: Category, rest: seq<Category>)
    requires CategoriesTableValid(rest) && c.id >= 1
    requires forall d :: d in rest ==> d.id != c.id && d.name != c.name
    ensures CategoriesTableValid([c] + rest)
  {
    var r := [c] + rest;
    forall i, j | 0 <= i < j < |r| ensures r[i].id != r[j].id && r[i].name != r[j].name {
      assert r[j] == rest[j - 1];
      if i > 0 {
        assert r[i] == rest[i - 1];
      }
    }
  }

  lemma TransactionsTailValid(txns: seq<Transaction>)
    requires TransactionsTableValid(txns) && txns != []
    ensures TransactionsTableValid(txns[1..])
  {
    var tail := txns[1..];
    forall i, j | 0 <= i < j < |tail| ensures tail[i].id != tail[j].id {
      assert tail[i] == txns[i + 1] && tail[j] == txns[j + 1];
    }
  }

  /** A row whose id is new can head a valid transactions table. */
  lemma TransactionsConsValid(t: Transaction, rest: seq<Transaction>)
    requires TransactionsTableValid(rest) && t.id >= 1
    requires forall u :: u in rest ==> u.id != t.id
    ensures TransactionsTableValid([t] + rest)
  {
    var r := [t] + rest;
    forall i, j | 0 <= i < j < |r| ensures r[i].id != r[j].id {
      assert r[j] == rest[j - 1];
      if i > 0 {
        assert r[i] == rest[i - 1];
      }
    }
  }

  /** A row with a new id can be appended to a valid transactions table. */
  lemma TransactionsAppendValid(txns: seq<Transaction>, t: Transaction)
    requires TransactionsTableValid(txns) && t.id >= 1
    requires forall u :: u in txns ==> u.id != t.id
    ensures TransactionsTableValid(txns + [t])
  {
    var r := txns + [t];
    forall i, j | 0 <= i < j < |r| ensures r[i].id != r[j].id {
      assert r[i] == txns[i];
      if j < |txns| {
        assert r[j] == txns[j];
      }
    }
  }

  /** A row with a new id keeps the primary key of the categories table. */
  lemma CategoryIdsAppendUnique(cats: seq<Category>, c: Category)
    requires CategoryIdsUnique(cats) && c.id >= 1
    requires forall d :: d in cats ==> d.id != c.id
    ensures CategoryIdsUnique(cats + [c])
  {
    var r := cats + [c];
    forall i, j | 0 <= i < j < |r| ensures r[i].id != r[j].id {
      assert r[i] == cats[i];
      if j < |cats| {
        assert r[j] == cats[j];
      }
    }
  }
}
