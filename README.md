# Finance tracker data-access layer, modelled in Dafny

The finance tracker keeps two SQLite tables, `categories` and `transactions`,
and reaches them through one data-access layer. For each operation that layer
has a pure statement builder and an async handler that runs the statement. The
handlers turn "no row" into `None` and an affected-row count into a success
flag. This project models that layer, the record types, the table constraints
and the `pluralize` template filter.

SQLAlchemy expression objects are not modelled. Each statement is given its
SQL meaning as a function over the table contents:

- `Ordering`: ORDER BY as a sort by a total preorder, LIMIT/OFFSET as a window,
  and SQLite's BINARY collation as lexicographic order on code points.
- `Domain`: the `Category`, `Transaction` and `TransactionWithCategory` records
  and the validator that rejects a zero amount. `id` and `created_at` are plain
  fields of the output records, never optional; `description` and `category_id`
  are `Option`s.
- `Schema`: the declared constraints as predicates on the tables: primary keys,
  UNIQUE category names and non-null columns. It also has SQLite's rule for a
  new row's id and primary-key lookups.
- `TransactionQueries` and `CategoryQueries`: the statement builders and the
  row mapper, with lemmas that state what each statement means.
- `DataAccess.Store`: a class holding the two tables, with one method per
  handler. The writing handlers change the tables in place. Every writing
  method keeps the constraints (`Valid()`) and says exactly what the new tables
  are.
- `FilterUtils`: `pluralize`.

Timestamps are integers that stand for ordered instants. The clock reading
that fills a default (`datetime.now`, SQL `now()`) is passed in as `now`.
Amounts are `real`.

Points where the behaviour follows from how SQLite runs the statements:

- The code passes `limit`/`offset` to SQLite without checking them, so a
  negative LIMIT sets no bound and a negative OFFSET counts as zero
  (`Ordering.Page`).
- In `list_transactions_query` the `.where` comes after `.limit`/`.offset`
  (app/queries/transactions.py:28-34). SQL still filters first, so the model
  filters, then sorts by date descending, then skips `offset` rows, then takes
  `limit` rows.
- The row mapper tests the joined name for truthiness
  (app/queries/transactions.py:101). A category whose name is the empty string
  still joins, but it shows as no category (`TransactionQueries.CategoryViewSpec`).
- Ids come from SQLite's INTEGER PRIMARY KEY rule: one more than the largest id
  in the table, or 1 when the table is empty. After the row with the largest id
  is deleted, its id can be handed out again.

## Model

| member | source | states |
|---|---|---|
| `Ordering.Sort` | app/queries/transactions.py:27 | ORDER BY gives a permutation of its input, ordered by the key |
| `Ordering.LexLe` | app/queries/categories.py:13 | the BINARY collation: code point by code point, a proper prefix first |
| `Ordering.Page` | app/queries/transactions.py:28-29 | LIMIT/OFFSET give at most `limit` rows (when `limit` >= 0): the rows that follow the first `offset` in order, and exactly as many as remain up to `limit` |
| `Ordering.LexLeTotal` | app/queries/categories.py:13 | any two names are comparable under the BINARY collation |
| `Ordering.LexLeTransitive` | app/queries/categories.py:13 | the collation order is transitive, so ordering by name is well defined |
| `Ordering.LexLeAntisymmetric` | app/models/schema.py:13 | names that compare both ways are equal (used by `CategoryQueries.ByNameNoTies`) |
| `Domain.AmountMustBeNonzero` | app/models/domain.py:26-30 | a zero amount is rejected with the validation error; any other amount is accepted and returned unchanged |
| `Domain.NewTransactionCreate` | app/models/domain.py:18-30 | a transaction input is accepted iff its amount is nonzero, and then carries the given fields, with the date defaulting to the current time |
| `Domain.Defaults` | app/models/domain.py:5-22 | `description` defaults to None for both inputs; `category_id` defaults to None (uncategorised) and the date to now |
| `Domain.SmallAmountsAccepted` | app/models/domain.py:26-30 | 0.01 and -0.01 are accepted, unchanged |
| `Schema.NextRowId` | app/models/schema.py:12 | a new row's id is positive and used by no existing row |
| `Schema.CategoryIdsUnique` | app/models/schema.py:12 | PRIMARY KEY on `categories.id`: ids pairwise distinct, and positive as every generated id is |
| `Schema.CategoryNamesUnique` | app/models/schema.py:13 | UNIQUE on `categories.name`: no two rows share a name |
| `Schema.TransactionsTableValid` | app/models/schema.py:22 | PRIMARY KEY on `transactions.id`: ids pairwise distinct, and positive as every generated id is |
| `Schema.RefersToExisting` | app/models/schema.py:26 | the declared reference `category_id -> categories.id` resolves; no invariant, since SQLite does not enforce it |
| `Schema.FindCategory` | app/queries/categories.py:19-24 | a lookup by id finds nothing iff no category has the id; otherwise it finds a stored category with that id |
| `Schema.FindTransaction` | app/queries/transactions.py:53 | a lookup by id finds nothing iff no transaction has the id; otherwise it finds a stored transaction with that id |
| `Schema.FindCategoryUnique` | app/models/schema.py:12 | under the primary key, the category found for an id is the only one with that id |
| `Schema.FindTransactionUnique` | app/models/schema.py:22 | under the primary key, the transaction found for an id is the only one with that id |
| `FilterUtils.Pluralize` | app/utils/filter_utils.py:1-13 | returns `singular` when the count is 1 and `plural` for every other count, 0 included |
| `FilterUtils.PluralizeIsOneOfTwo` | app/utils/filter_utils.py:13 | the result is always one of the two given strings |
| `FilterUtils.PluralizeDefaults` | app/utils/filter_utils.py:1 | with the default suffixes: `""` for 1, `"s"` for any other count |
| `TransactionQueries.JoinRow` | app/queries/transactions.py:21-26 | the outer join keeps the transaction's columns unchanged; the joined name is present iff the `category_id` refers to an existing category, and then name and description are that category's |
| `TransactionQueries.OuterJoin` | app/queries/transactions.py:21-26 | the LEFT OUTER JOIN: one joined row per transaction, in table order |
| `TransactionQueries.WhereCategory` | app/queries/transactions.py:32-34 | with no category there is no filter; with one, only rows of that category remain, each as often as before |
| `TransactionQueries.ListTransactionsQuery` | app/queries/transactions.py:9-36 | the list statement: filter by category, order by date descending, then OFFSET and LIMIT |
| `TransactionQueries.ListTransactionsQuerySpec` | app/queries/transactions.py:9-36 | the listing holds exactly as many rows as the window after `offset` of the filtered rows, at most `limit`; dates never increase along it, every row passes the category filter, and every row is the join of a stored transaction |
| `TransactionQueries.ListTransactionsQueryComplete` | app/queries/transactions.py:21-34 | without pagination every transaction that passes the filter is listed; with no filter, uncategorised transactions and those with a missing category are listed too |
| `TransactionQueries.ListTransactionsQueryAll` | app/queries/transactions.py:21-34 | without pagination the listing is a reordering of exactly the joined rows that pass the filter, none lost and none repeated |
| `TransactionQueries.GetTransactionQuery` | app/queries/transactions.py:39-54 | the lookup statement: the outer join restricted to the id |
| `TransactionQueries.GetTransactionQuerySpec` | app/queries/transactions.py:39-54 | the lookup yields no row iff no transaction has the id; otherwise its first row is that transaction's joined row |
| `TransactionQueries.RowToTransactionWithCategory` | app/queries/transactions.py:84-113 | id, amount, description, date, category_id and created_at are copied from the row. A category is nested iff the joined name is present and non-empty. Its id is the row's `category_id`, its name and description are the joined columns, and its created_at is the transaction's. A row with a name but no category id fails validation |
| `TransactionQueries.MapJoinedRow` | app/queries/transactions.py:99-113 | mapping a joined row never fails and yields the transaction together with the category it refers to |
| `TransactionQueries.CategoryView` | app/queries/transactions.py:100-107 | the category a mapped transaction shows: none for a null, dangling or empty-named reference, otherwise the category with the transaction's created_at |
| `TransactionQueries.CategoryViewSpec` | app/queries/transactions.py:100-107 | a transaction whose category is null or missing shows no category; one whose category exists shows exactly it (created_at taken from the transaction), unless its name is empty |
| `TransactionQueries.ByDateDescIsTotalPreorder` | app/queries/transactions.py:27 | ordering by date descending is a total preorder, so the sort is defined |
| `TransactionQueries.NewTransactionRow` | app/queries/transactions.py:57-63 | the inserted row carries the input's amount, description, date and category_id, a fresh positive id, and created_at set to now |
| `TransactionQueries.PatchOfReplaces` | app/queries/transactions.py:66-73 | updating with a full input replaces amount, description, date and category_id and keeps id and created_at |
| `TransactionQueries.ApplyTransactionPatch` | app/queries/transactions.py:71 | an update never changes a row's id or created_at |
| `TransactionQueries.UpdateTransactionRows` | app/queries/transactions.py:66-73 | the table keeps its length; the row with the id is patched and every other row is unchanged |
| `TransactionQueries.UpdateTransactionReturning` | app/queries/transactions.py:72 | the returned row is the patched row, or nothing when no row had the id |
| `TransactionQueries.UpdateTransactionKeepsKey` | app/models/schema.py:22 | an update keeps the transaction primary key |
| `TransactionQueries.DeleteTransactionRows` | app/queries/transactions.py:76-81 | the remaining rows are exactly the old rows without the id; a row is removed iff one had the id |
| `TransactionQueries.DeleteTransactionKeepsKey` | app/models/schema.py:22 | a deletion keeps the transaction primary key |
| `CategoryQueries.ByNameIsTotalPreorder` | app/queries/categories.py:13 | ordering by name is a total preorder, so the sort is defined |
| `CategoryQueries.ByNameNoTies` | app/models/schema.py:13 | under UNIQUE(name) no two stored categories tie in name order, so the listing's order does not depend on tie-breaking |
| `CategoryQueries.ListCategoriesQuery` | app/queries/categories.py:9-16 | the list statement: all categories by name, then OFFSET and LIMIT |
| `CategoryQueries.ListCategoriesQuerySpec` | app/queries/categories.py:9-16 | the listing holds exactly as many categories as the window after `offset` of the table, at most `limit`, ascending by name, all of them stored |
| `CategoryQueries.ListCategoriesQueryComplete` | app/queries/categories.py:9-16 | without pagination every stored category is listed, each exactly as often as stored |
| `CategoryQueries.GetCategoryQuery` | app/queries/categories.py:19-24 | the lookup statement: the categories with the id, in table order |
| `CategoryQueries.GetCategoryQuerySpec` | app/queries/categories.py:19-24 | the lookup yields no row iff no category has the id; otherwise its first row is that category |
| `CategoryQueries.CountWithCategory` | app/queries/categories.py:32 | the reference count of transactions with a given `category_id` is at most the number of transactions |
| `CategoryQueries.GroupCounts` | app/queries/categories.py:29-36 | grouping by `category_id` gives every key with at least one transaction its exact count; keys without transactions get no group |
| `CategoryQueries.CoalescedCount` | app/queries/categories.py:41-46 | a category's joined group count, 0 when its id has no group; the NULL group never joins |
| `CategoryQueries.ListCategoriesWithCountsQuery` | app/queries/categories.py:27-48 | the count statement: every category by name, each with its coalesced group count |
| `CategoryQueries.ListCategoriesWithCountsQuerySpec` | app/queries/categories.py:27-48 | each category appears exactly as often as in the table, in name order, and its count equals the number of transactions that refer to it: 0, not null, when none do |
| `CategoryQueries.CountedUnderItsCategoryOnly` | app/queries/categories.py:41-46 | a transaction with a null or dangling `category_id` is counted under no category; one whose category exists is counted under it |
| `CategoryQueries.NewCategoryRow` | app/queries/categories.py:51-57 | the inserted row carries the input's name and description, a fresh positive id, and created_at set to now |
| `CategoryQueries.InsertCategoryConflict` | app/models/schema.py:13 | inserting breaks the UNIQUE name constraint iff the name is already taken |
| `CategoryQueries.CategoryPatchOfReplaces` | app/queries/categories.py:60-67 | updating with a full input replaces name and description and keeps id and created_at |
| `CategoryQueries.ApplyCategoryPatch` | app/queries/categories.py:65 | an update never changes a category's id or created_at |
| `CategoryQueries.UpdateCategoryRows` | app/queries/categories.py:60-67 | the table keeps its length; the row with the id is patched and every other row is unchanged |
| `CategoryQueries.UpdateCategoryReturning` | app/queries/categories.py:66 | the returned row is the patched row, or nothing when no row had the id |
| `CategoryQueries.UpdateCategoryConflict` | app/models/schema.py:13 | an update breaks the UNIQUE name constraint iff the id exists and its new name belongs to another category |
| `CategoryQueries.UpdateCategoryKeepsKey` | app/models/schema.py:12 | an update keeps the category primary key |
| `CategoryQueries.DeleteCategoryRows` | app/queries/categories.py:70-75 | the remaining categories are exactly the old ones without the id; a row is removed iff one had the id |
| `CategoryQueries.DeleteCategoryKeepsConstraints` | app/models/schema.py:9-16 | a deletion keeps both the primary key and the UNIQUE name constraint |
| `DataAccess.Store.constructor` | app/models/schema.py:9-28 | a new database has two empty tables that satisfy every constraint |
| `DataAccess.Store.Valid` | app/models/schema.py:9-28 | the state every handler keeps: both primary keys and UNIQUE(name) hold, and ids are positive |
| `DataAccess.MapRows` | app/queries/transactions.py:131 | each joined row of the listing maps, in order, to its transaction with the category it refers to; mapping never fails |
| `DataAccess.Store.ListTransactions` | app/queries/transactions.py:117-131 | at most `limit` results, newest first, all in the requested category when one is given, each a stored transaction with the category it refers to; the results are the mapped rows of the list query |
| `DataAccess.Store.GetTransaction` | app/queries/transactions.py:133-146 | None exactly when no transaction has the id; otherwise the stored transaction with that id and its category |
| `DataAccess.Store.CreateTransaction` | app/queries/transactions.py:148-163 | appends one row with a fresh positive id and the input's fields and returns it; looking up the id afterwards yields that row; constraints kept |
| `DataAccess.Store.UpdateTransaction` | app/queries/transactions.py:165-181 | only the row with the id changes; returns the patched row, or None (table unchanged) when no row has the id; constraints kept |
| `DataAccess.Store.DeleteTransaction` | app/queries/transactions.py:183-195 | returns true iff a row had the id; afterwards no transaction has it and every other row remains |
| `DataAccess.Store.ListCategories` | app/queries/categories.py:79-92 | exactly the window size of the table, at most `limit` stored categories, ascending by name, after skipping `offset` |
| `DataAccess.Store.GetCategory` | app/queries/categories.py:94-107 | None exactly when no category has the id; otherwise a stored category with that id |
| `DataAccess.Store.ListCategoriesWithCounts` | app/queries/categories.py:109-124 | every category exactly as often as stored, by name, with the exact number of transactions that refer to it |
| `DataAccess.Store.CreateCategory` | app/queries/categories.py:126-141 | fails, with the table unchanged, iff the name is taken; otherwise appends the row with a fresh positive id and the given name and description, which a lookup then finds |
| `DataAccess.Store.UpdateCategory` | app/queries/categories.py:143-159 | fails, with the table unchanged, iff the id exists and its new name belongs to another category; otherwise patches only that row and returns it, or None when no row has the id |
| `DataAccess.Store.DeleteCategory` | app/queries/categories.py:161-173 | returns true iff a category had the id; removes only that row and leaves the transactions untouched (no cascade) |

## Left out

- HTTP routing, templates, the dashboard, settings, the session lifecycle (commit, rollback, close) and the clock are outside this model. The clock reading is a `now` parameter.
- `await`: each handler runs its one statement atomically. Concurrent requests and last-writer-wins races are not modelled.
- Floating point: amounts are exact `real`s, so IEEE rounding is not modelled. Only comparison with zero matters to the code.
- Column lengths (`String(100)`, `String(255)`) are not constraints: SQLite does not enforce them.
- Foreign-key enforcement: SQLite does not enforce the declared reference by default, and the model lets `category_id` dangle. Deleting a category neither cascades nor blocks.
- `Ordering.Sort`: SQL leaves the order of rows with equal keys unspecified. The model keeps them in table order, and the proved properties do not rely on that choice.
- `TransactionQueries.ApplyTransactionPatch`: update field maps are patch records of the four user columns. A raw dictionary could also name `id`, `created_at` or an unknown column, or set `amount` to null (which the NOT NULL constraint would reject). Those cases are not modelled.
- `CategoryQueries.ApplyCategoryPatch`: likewise, only `name` and `description` can be patched, and a null name is not modelled.
- `TransactionQueries.JoinRow`: joins through the first category with the id. Under the primary key that is the only one; without the key, SQL would emit one row per match.
- `TransactionWithCategory.category` defaulting to None: Dafny datatypes have no field defaults. The mapper always sets the field, to None when no category is shown.
- Integer arguments outside the signed 64-bit range (a `limit`, `offset`, `category_id` or id of 2^63 or more, or below -2^63) make the database driver refuse the statement, so the handler raises. The model accepts any integer and returns a result; this failure is not modelled.
- The id rule ignores SQLite's fallback to a random id once the largest id reaches 2^63 - 1.
- A validation failure in `from_orm` on a stored row cannot happen: stored rows always have the record types' fields.
