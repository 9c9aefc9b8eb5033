/**
 * The statements the category handlers run, given their meaning over the two
 * tables, including the per-category transaction count.
 */
module CategoryQueries {
  import opened Wrappers
  import opened Domain
  import opened Schema
  import opened Ordering

  /** `ORDER BY categories.name`: `a` may come before `b`. */
  function ByName(a: Category, b: Category): bool
  {
    LexLe(a.name, b.name)
  }

  lemma ByNameIsTotalPreorder()
    ensures IsTotalPreorder(ByName)
  {
    forall a, b ensures ByName(a, b) || ByName(b, a) {
      LexLeTotal(a.name, b.name);
    }
    forall a, b, c | ByName(a, b) && ByName(b, c) ensures ByName(a, c) {
      LexLeTransitive(a.name, b.name, c.name);
    }
  }

  /** `list_categories_query`: all categories by name, then OFFSET and LIMIT. */
  function ListCategoriesQuery(cats: seq<Category>, limit: int, offset: int): seq<Category>
  {
    ByNameIsTotalPreorder();
    Page(Sort(cats, ByName), offset, limit)
  }

  /**
   * The listing holds the window of the table after `offset` rows, at most
   * `limit` of them, ascending by name, each a stored category.
   */
  lemma ListCategoriesQuerySpec(cats: seq<Category>, limit: int, offset: int)
    ensures var r := ListCategoriesQuery(cats, limit, offset);
      && (limit >= 0 ==> |r| <= limit)
      && |r| == WindowSize(|cats|, offset, limit)
      && (forall i, j :: 0 <= i < j < |r| ==> LexLe(r[i].name, r[j].name))
      && (forall i :: 0 <= i < |r| ==> r[i] in cats)
  {
    ByNameIsTotalPreorder();
    var sorted := Sort(cats, ByName);
    var r := Page(sorted, offset, limit);
    PageSorted(sorted, offset, limit, ByName);
    forall i, j | 0 <= i < j < |r| ensures LexLe(r[i].name, r[j].name) {
      assert ByName(r[i], r[j]);
    }
    forall i | 0 <= i < |r| ensures r[i] in cats {
      PageMember(sorted, offset, limit, r[i]);
      assert r[i] in multiset(sorted);
    }
  }

  /** Without OFFSET and with no effective LIMIT, every stored category is listed, each as often as stored. */
  lemma ListCategoriesQueryComplete(cats: seq<Category>, limit: int, offset: int)
    requires offset <= 0 && (limit < 0 || limit >= |cats|)
    ensures multiset(ListCategoriesQuery(cats, limit, offset)) == multiset(cats)
  {
    ByNameIsTotalPreorder();
    PageAll(Sort(cats, ByName), offset, limit);
  }

  /**
   * Under UNIQUE(name) no two stored categories tie in name order, so the
   * order of the listing does not depend on how ties are broken.
   */
  lemma ByNameNoTies(cats: seq<Category>)
    requires CategoryNamesUnique(cats)
    ensures forall i, j :: 0 <= i < j < |cats| ==> !(ByName(cats[i], cats[j]) && ByName(cats[j], cats[i]))
  {
    forall i, j | 0 <= i < j < |cats| && ByName(cats[i], cats[j])
      ensures !ByName(cats[j], cats[i])
    {
      if ByName(cats[j], cats[i]) {
        LexLeAntisymmetric(cats[i].name, cats[j].name);
        assert false;
      }
    }
  }

  /** `WHERE categories.id = ?` (`get_category_query`). */
  function GetCategoryQuery(cats: seq<Category>, id: int): seq<Category>
  {
    if cats == [] then []
    else (if cats[0].id == id then [cats[0]] else []) + GetCategoryQuery(cats[1..], id)
  }

  /**
   * The lookup yields no row exactly when no category has the id, and
   * otherwise begins with the category that has it.
   */
  lemma {:induction false} GetCategoryQuerySpec(cats: seq<Category>, id: int)
    ensures var rows := GetCategoryQuery(cats, id);
      && (rows == [] <==> FindCategory(cats, id).None?)
      && (rows != [] ==> Some(rows[0]) == FindCategory(cats, id))
  {
    if cats != [] {
      GetCategoryQuerySpec(cats[1..], id);
    }
  }

  /** The number of transactions whose `category_id` is `key` (NULL included). */
  function CountWithCategory(txns: seq<Transaction>, key: Option<int>): (n: nat)
    ensures n <= |txns|
  {
    if txns == [] then 0
    else (if txns[0].categoryId == key then 1 else 0) + CountWithCategory(txns[1..], key)
  }

  /**
   * `SELECT category_id, count(*) FROM transactions GROUP BY category_id`:
   * one group per distinct `category_id`, NULL being a group of its own.
   */
  function GroupCounts(txns: seq<Transaction>): (groups: map<Option<int>, nat>)
    ensures forall key :: key in groups ==> groups[key] == CountWithCategory(txns, key) && groups[key] > 0
    ensures forall key :: key !in groups ==> CountWithCategory(txns, key) == 0
  {
    if txns == [] then map[]
    else
      var rest := GroupCounts(txns[1..]);
      var key := txns[0].categoryId;
      rest[key := (if key in rest then rest[key] else 0) + 1]
  }

  /** A category with its transaction count, as the dashboard receives it. */
  datatype CategoryWithCount = CategoryWithCount(category: Category, transactionCount: nat)

  /**
   * The left join of a category onto the groups, `ON categories.id =
   * count_subq.category_id`, with `coalesce(transaction_count, 0)`. The NULL
   * group never joins.
   */
  function CoalescedCount(groups: map<Option<int>, nat>, c: Category): nat
  {
    if Some(c.id) in groups then groups[Some(c.id)] else 0
  }

  /** `list_categories_with_counts_query`: every category by name, with its count. */
  function ListCategoriesWithCountsQuery(cats: seq<Category>, txns: seq<Transaction>): seq<CategoryWithCount>
  {
    ByNameIsTotalPreorder();
    var groups := GroupCounts(txns);
    var ordered := Sort(cats, ByName);
    seq(|ordered|, i requires 0 <= i < |ordered| => CategoryWithCount(ordered[i], CoalescedCount(groups, ordered[i])))
  }

  function CategoriesOf(rows: seq<CategoryWithCount>): seq<Category>
  {
    seq(|rows|, i requires 0 <= i < |rows| => rows[i].category)
  }

  /**
   * Each category appears exactly as often as in the table, in name order,
   * with the number of transactions that refer to it (0 when none do).
   */
  lemma ListCategoriesWithCountsQuerySpec(cats: seq<Category>, txns: seq<Transaction>)
    ensures var r := ListCategoriesWithCountsQuery(cats, txns);
      && multiset(CategoriesOf(r)) == multiset(cats)
      && (forall i, j :: 0 <= i < j < |r| ==> LexLe(r[i].category.name, r[j].category.name))
      && (forall i :: 0 <= i < |r| ==> r[i].transactionCount == CountWithCategory(txns, Some(r[i].category.id)))
  {
    ByNameIsTotalPreorder();
    var r := ListCategoriesWithCountsQuery(cats, txns);
    var ordered := Sort(cats, ByName);
    assert CategoriesOf(r) == ordered;
    forall i, j | 0 <= i < j < |r| ensures LexLe(r[i].category.name, r[j].category.name) {
      assert ByName(ordered[i], ordered[j]);
    }
  }

  /**
   * A transaction that is uncategorised, or whose category no longer exists,
   * is counted under no category; one whose category exists is counted
   * under it.
   */
  lemma CountedUnderItsCategoryOnly(cats: seq<Category>, txns: seq<Transaction>, t: Transaction)
    requires t in txns
    ensures var r := ListCategoriesWithCountsQuery(cats, txns);
      && (!RefersToExisting(t, cats) ==> forall i :: 0 <= i < |r| ==> Some(r[i].category.id) != t.categoryId)
      && (RefersToExisting(t, cats) ==>
            exists i :: 0 <= i < |r| && Some(r[i].category.id) == t.categoryId && r[i].transactionCount >= 1)
  {
    var r := ListCategoriesWithCountsQuery(cats, txns);
    ListCategoriesWithCountsQuerySpec(cats, txns);
    var shown := CategoriesOf(r);
    if !RefersToExisting(t, cats) {
      forall i | 0 <= i < |r| ensures Some(r[i].category.id) != t.categoryId {
        assert shown[i] in multiset(cats);
      }
    } else {
      var c :| c in cats && c.id == t.categoryId.value;
      assert c in multiset(shown);
      var i :| 0 <= i < |shown| && shown[i] == c;
      CountMember(txns, t);
    }
  }

  /** A transaction is counted in its own `category_id` group. */
  lemma {:induction false} CountMember(txns: seq<Transaction>, t: Transaction)
    requires t in txns
    ensures CountWithCategory(txns, t.categoryId) >= 1
  {
    if txns[0] != t {
      CountMember(txns[1..], t);
    }
  }

  /**
   * The row `INSERT INTO categories ... RETURNING` adds: the input's name and
   * description, a fresh positive id and `created_at` set to the insert time.
   */
  function NewCategoryRow(cats: seq<Category>, data: CategoryCreate, now: Timestamp): (c: Category)
    ensures c.id >= 1
    ensures forall d :: d in cats ==> d.id != c.id
    ensures c.name == data.name && c.description == data.description && c.createdAt == now
  {
    var id := NextRowId(CategoryIds(cats));
    assert forall k :: 0 <= k < |cats| ==> CategoryIds(cats)[k] == cats[k].id;
    Category(id, data.name, data.description, now)
  }

  /** Appending a row breaks the UNIQUE name constraint exactly when its name is taken. */
  lemma InsertCategoryConflict(cats: seq<Category>, c: Category)
    requires CategoryNamesUnique(cats)
    ensures CategoryNamesUnique(cats + [c]) <==> forall d :: d in cats ==> d.name != c.name
  {
    var r := cats + [c];
    if forall d :: d in cats ==> d.name != c.name {
      forall i, j | 0 <= i < j < |r| ensures r[i].name != r[j].name {
        if j == |cats| {
          assert r[i] in cats;
        }
      }
    } else {
      var d :| d in cats && d.name == c.name;
      var k :| 0 <= k < |cats| && cats[k] == d;
      assert r[k].name == r[|cats|].name;
    }
  }

  /** The columns an update sets; a column left None keeps its value. */
  datatype CategoryPatch = CategoryPatch(name: Option<string>, description: Option<Option<string>>)

  /** The column map of a full record, as a `CategoryCreate` supplies it. */
  function CategoryPatchOf(data: CategoryCreate): CategoryPatch
  {
    CategoryPatch(Some(data.name), Some(data.description))
  }

  /** One row after `UPDATE ... SET`: never its id or its `created_at`. */
  function ApplyCategoryPatch(c: Category, p: CategoryPatch): (u: Category)
    ensures u.id == c.id && u.createdAt == c.createdAt
  {
    Category(
      c.id,
      if p.name.Some? then p.name.value else c.name,
      if p.description.Some? then p.description.value else c.description,
      c.createdAt)
  }

  /** A full record's column map replaces name and description and keeps id and `created_at`. */
  lemma CategoryPatchOfReplaces(c: Category, data: CategoryCreate)
    ensures ApplyCategoryPatch(c, CategoryPatchOf(data)) == Category(c.id, data.name, data.description, c.createdAt)
  {
  }

  /** `UPDATE categories SET ... WHERE id = ?`: only rows with the id change. */
  function UpdateCategoryRows(cats: seq<Category>, id: int, p: CategoryPatch): (r: seq<Category>)
    ensures |r| == |cats|
    ensures forall i :: 0 <= i < |cats| ==>
      r[i] == if cats[i].id == id then ApplyCategoryPatch(cats[i], p) else cats[i]
  {
    if cats == [] then []
    else [if cats[0].id == id then ApplyCategoryPatch(cats[0], p) else cats[0]] + UpdateCategoryRows(cats[1..], id, p)
  }

  /** What `RETURNING` yields for the id: the patched row, or nothing when no row matched. */
  lemma {:induction false} UpdateCategoryReturning(cats: seq<Category>, id: int, p: CategoryPatch)
    ensures FindCategory(UpdateCategoryRows(cats, id, p), id) ==
      match FindCategory(cats, id)
      case None => None
      case Some(c) => Some(ApplyCategoryPatch(c, p))
  {
    if cats != [] {
      var r := UpdateCategoryRows(cats, id, p);
      assert r[1..] == UpdateCategoryRows(cats[1..], id, p);
      UpdateCategoryReturning(cats[1..], id, p);
    }
  }

  /**
   * An update breaks the UNIQUE name constraint exactly when the id exists and
   * its new name is the name of another category.
   */
  lemma UpdateCategoryConflict(cats: seq<Category>, id: int, p: CategoryPatch)
    requires CategoriesTableValid(cats)
    ensures CategoryNamesUnique(UpdateCategoryRows(cats, id, p)) <==>
      match FindCategory(cats, id)
      case None => true
      case Some(c) => forall d :: d in cats && d.id != id ==> d.name != ApplyCategoryPatch(c, p).name
  {
    match FindCategory(cats, id)
    case None =>
      assert UpdateCategoryRows(cats, id, p) == cats;
    case Some(c) =>
      var k :| 0 <= k < |cats| && cats[k] == c;
      var name := ApplyCategoryPatch(c, p).name;
      if forall d :: d in cats && d.id != id ==> d.name != name {
        UpdateCategoryNoClash(cats, id, p, k);
      } else {
        var d :| d in cats && d.id != id && d.name == name;
        var m :| 0 <= m < |cats| && cats[m] == d;
        UpdateCategoryClash(cats, id, p, k, m);
      }
  }

  /** When no other category has the new name, the updated table keeps names unique. */
  lemma UpdateCategoryNoClash(cats: seq<Category>, id: int, p: CategoryPatch, k: int)
    requires CategoriesTableValid(cats)
    requires 0 <= k < |cats| && cats[k].id == id
    requires forall d :: d in cats && d.id != id ==> d.name != ApplyCategoryPatch(cats[k], p).name
    ensures CategoryNamesUnique(UpdateCategoryRows(cats, id, p))
  {
    var r := UpdateCategoryRows(cats, id, p);
    forall i, j | 0 <= i < j < |r| ensures r[i].name != r[j].name {
      if cats[i].id == id {
        assert i == k;
        assert cats[j] in cats;
      } else if cats[j].id == id {
        assert j == k;
        assert cats[i] in cats;
      }
    }
  }

  /** When another category has the new name, the updated table holds that name twice. */
  lemma UpdateCategoryClash(cats: seq<Category>, id: int, p: CategoryPatch, k: int, m: int)
    requires 0 <= k < |cats| && cats[k].id == id
    requires 0 <= m < |cats| && cats[m].id != id
    requires cats[m].name == ApplyCategoryPatch(cats[k], p).name
    ensures !CategoryNamesUnique(UpdateCategoryRows(cats, id, p))
  {
    var r := UpdateCategoryRows(cats, id, p);
    assert r[m].name == r[k].name && m != k;
    if m < k {
      assert !(r[m].name != r[k].name);
    } else {
      assert !(r[k].name != r[m].name);
    }
  }

  /** An update keeps every id, so it keeps the primary key. */
  lemma UpdateCategoryKeepsKey(cats: seq<Category>, id: int, p: CategoryPatch)
    requires CategoryIdsUnique(cats)
    ensures CategoryIdsUnique(UpdateCategoryRows(cats, id, p))
  {
  }

  /** `DELETE FROM categories WHERE id = ?`: removes the rows with the id, keeps the rest. */
  function DeleteCategoryRows(cats: seq<Category>, id: int): (r: seq<Category>)
    ensures |r| <= |cats|
    ensures forall c :: c in r <==> c in cats && c.id != id
    ensures |r| < |cats| <==> exists c :: c in cats && c.id == id
  {
    if cats == [] then []
    else
      var rest := DeleteCategoryRows(cats[1..], id);
      assert cats == [cats[0]] + cats[1..];
      assert (exists c :: c in cats && c.id == id) <==>
        (cats[0].id == id || exists c :: c in cats[1..] && c.id == id);
      if cats[0].id == id then rest else [cats[0]] + rest
  }

  /** A deletion keeps both the primary key and the UNIQUE name constraint. */
  lemma {:induction false} DeleteCategoryKeepsConstraints(cats: seq<Category>, id: int)
    requires CategoriesTableValid(cats)
    ensures CategoriesTableValid(DeleteCategoryRows(cats, id))
  {
    if cats != [] {
      CategoriesTailValid(cats);
      DeleteCategoryKeepsConstraints(cats[1..], id);
      if cats[0].id != id {
        var rest := DeleteCategoryRows(cats[1..], id);
        forall d | d in rest ensures d.id != cats[0].id && d.name != cats[0].name {
          var k :| 0 <= k < |cats[1..]| && cats[1..][k] == d;
          assert cats[k + 1] == d;
        }
        CategoriesConsValid(cats[0], rest);
      }
    }
  }
}
