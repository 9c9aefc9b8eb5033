/**
 * The parts of SQLite's SELECT semantics the queries rely on:
 * ORDER BY (a sort by a total preorder), LIMIT/OFFSET (a window into the
 * ordered rows) and the BINARY collation used to compare text.
 */
module Ordering {

  /** `le` is total and transitive: what ORDER BY needs from a sort key. */
  ghost predicate IsTotalPreorder<T(!new)>(le: (T, T) -> bool) {
    && (forall a, b :: le(a, b) || le(b, a))
    && (forall a, b, c :: le(a, b) && le(b, c) ==> le(a, c))
  }

  ghost predicate SortedBy<T>(s: seq<T>, le: (T, T) -> bool) {
    forall i, j :: 0 <= i < j < |s| ==> le(s[i], s[j])
  }

  /** Places `x` before the first element it may precede. */
  function Insert<T>(x: T, s: seq<T>, le: (T, T) -> bool): (r: seq<T>)
    ensures multiset(r) == multiset(s) + multiset{x}
  {
    if s == [] then [x]
    else if le(x, s[0]) then [x] + s
    else
      assert s == [s[0]] + s[1..];
      [s[0]] + Insert(x, s[1..], le)
  }

  /** Every element of `Insert(x, s, le)` is `x` or an element of `s`. */
  lemma {:induction false} InsertMember<T>(x: T, s: seq<T>, le: (T, T) -> bool, y: T)
    requires y in Insert(x, s, le)
    ensures y == x || y in s
  {
    assert y in multiset(Insert(x, s, le));
  }

  lemma {:induction false} InsertSorted<T(!new)>(x: T, s: seq<T>, le: (T, T) -> bool)
    requires IsTotalPreorder(le) && SortedBy(s, le)
    ensures SortedBy(Insert(x, s, le), le)
  {
    var r := Insert(x, s, le);
    if s == [] {
    } else if le(x, s[0]) {
      forall j | 0 < j < |r| ensures le(x, r[j]) {
        assert r[j] == s[j - 1];
        if j > 1 {
          assert le(s[0], s[j - 1]);
        }
      }
    } else {
      var tail := Insert(x, s[1..], le);
      InsertSorted(x, s[1..], le);
      assert le(s[0], x);
      forall k | 0 <= k < |tail| ensures le(s[0], tail[k]) {
        InsertMember(x, s[1..], le, tail[k]);
        if tail[k] != x {
          var m :| 0 <= m < |s[1..]| && s[1..][m] == tail[k];
          assert s[m + 1] == tail[k];
        }
      }
      assert r == [s[0]] + tail;
    }
  }

  /**
   * ORDER BY: a stable insertion sort. SQL leaves the order of rows with equal
   * keys unspecified; this model keeps them in table order.
   */
  function Sort<T(!new)>(s: seq<T>, le: (T, T) -> bool): (r: seq<T>)
    requires IsTotalPreorder(le)
    ensures multiset(r) == multiset(s) && |r| == |s|
    ensures SortedBy(r, le)
  {
    if s == [] then []
    else
      assert s == [s[0]] + s[1..];
      var rest := Sort(s[1..], le);
      InsertSorted(s[0], rest, le);
      Insert(s[0], rest, le)
  }

  /** The number of rows an OFFSET skips. */
  function Skip(offset: int): nat
  {
    if offset < 0 then 0 else offset
  }

  /**
   * How many of `n` rows a LIMIT/OFFSET window holds: those after the skipped
   * ones, at most `limit` of them when `limit` is not negative.
   */
  function WindowSize(n: nat, offset: int, limit: int): nat
  {
    var available := if Skip(offset) >= n then 0 else n - Skip(offset);
    if 0 <= limit < available then limit else available
  }

  /**
   * LIMIT `limit` OFFSET `offset` as SQLite evaluates them: a negative offset
   * counts as zero and a negative limit sets no upper bound.
   */
  function Page<T>(s: seq<T>, offset: int, limit: int): (r: seq<T>)
    ensures limit >= 0 ==> |r| <= limit
    ensures |r| == WindowSize(|s|, offset, limit)
    ensures forall i :: 0 <= i < |r| ==> Skip(offset) + i < |s| && r[i] == s[Skip(offset) + i]
  {
    var skip := Skip(offset);
    var rest := if skip <= |s| then s[skip..] else [];
    if 0 <= limit <= |rest| then rest[..limit] else rest
  }

  /** A window of an ordered sequence is still ordered. */
  lemma PageSorted<T>(s: seq<T>, offset: int, limit: int, le: (T, T) -> bool)
    requires SortedBy(s, le)
    ensures SortedBy(Page(s, offset, limit), le)
  {
    SortedWindow(s, Page(s, offset, limit), Skip(offset), le);
  }

  /** Consecutive rows taken from an ordered sequence are ordered. */
  lemma SortedWindow<T>(s: seq<T>, r: seq<T>, skip: nat, le: (T, T) -> bool)
    requires SortedBy(s, le)
    requires forall i :: 0 <= i < |r| ==> skip + i < |s| && r[i] == s[skip + i]
    ensures SortedBy(r, le)
  {
    forall i, j | 0 <= i < j < |r| ensures le(r[i], r[j]) {
      var x, y := r[i], r[j];
      assert x == s[skip + i] && y == s[skip + j];
      assert le(x, y);
    }
  }

  /** With no offset and no effective limit the window is everything. */
  lemma PageAll<T>(s: seq<T>, offset: int, limit: int)
    requires offset <= 0 && (limit < 0 || limit >= |s|)
    ensures Page(s, offset, limit) == s
  {
  }

  /** Every row of a window is a row of the ordered input. */
  lemma PageMember<T>(s: seq<T>, offset: int, limit: int, x: T)
    requires x in Page(s, offset, limit)
    ensures x in s
  {
    var r := Page(s, offset, limit);
    var i :| 0 <= i < |r| && r[i] == x;
    assert s[Skip(offset) + i] == x;
  }

  /**
   * SQLite's BINARY collation: strings compare code point by code point, and a
   * proper prefix comes first.
   */
  predicate LexLe(a: string, b: string)
  {
    if a == [] then true
    else if b == [] then false
    else if a[0] != b[0] then a[0] < b[0]
    else LexLe(a[1..], b[1..])
  }

  lemma {:induction false} LexLeTotal(a: string, b: string)
    ensures LexLe(a, b) || LexLe(b, a)
  {
    if a != [] && b != [] && a[0] == b[0] {
      LexLeTotal(a[1..], b[1..]);
    }
  }

  lemma {:induction false} LexLeTransitive(a: string, b: string, c: string)
    requires LexLe(a, b) && LexLe(b, c)
    ensures LexLe(a, c)
  {
    if a != [] && b != [] && c != [] && a[0] == b[0] && b[0] == c[0] {
      LexLeTransitive(a[1..], b[1..], c[1..]);
    }
  }

  lemma {:induction false} LexLeAntisymmetric(a: string, b: string)
    requires LexLe(a, b) && LexLe(b, a)
    ensures a == b
  {
    if a != [] && b != [] {
      LexLeAntisymmetric(a[1..], b[1..]);
      assert a == [a[0]] + a[1..] && b == [b[0]] + b[1..];
    }
  }
}
