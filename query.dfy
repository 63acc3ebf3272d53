/**
 * The two SQL clauses the store's queries use on one table: `WHERE` (a
 * filter that keeps the table's order) and `ORDER BY <text column> [DESC]`.
 *
 * `ORDER BY` as the store evaluates it. The result is a
 * permutation of the selected rows, ordered by the key under BINARY
 * collation. SQL leaves the order of rows with equal keys open; the model
 * resolves ties by keeping the table's own order (a stable insertion sort),
 * and nothing stated about a query depends on that choice.
 */
module Query {
  import Text

  /** `SELECT ... WHERE p`: the rows satisfying `p`, in table order. */
  function Filter<T>(s: seq<T>, p: T -> bool): (r: seq<T>)
    ensures |r| <= |s|
    ensures forall i :: 0 <= i < |r| ==> r[i] in s && p(r[i])
    ensures forall i :: 0 <= i < |s| && p(s[i]) ==> s[i] in r
  {
    if s == [] then []
    else
      assert s == [s[0]] + s[1..];
      (if p(s[0]) then [s[0]] else []) + Filter(s[1..], p)
  }

  /** Filtering keeps every satisfying row as often as the table has it. */
  lemma {:induction false} FilterMultiset<T>(s: seq<T>, p: T -> bool, x: T)
    ensures multiset(Filter(s, p))[x] == if p(x) then multiset(s)[x] else 0
  {
    if s != [] {
      FilterMultiset(s[1..], p, x);
      assert s == [s[0]] + s[1..];
    }
  }

  /** `a` may precede `b` in an ascending (or, with `desc`, descending) result. */
  predicate InOrder(a: string, b: string, desc: bool) {
    if desc then Text.StrLe(b, a) else Text.StrLe(a, b)
  }

  lemma InOrderTotal(a: string, b: string, desc: bool)
    ensures InOrder(a, b, desc) || InOrder(b, a, desc)
  {
    Text.StrLeTotal(a, b);
  }

  lemma InOrderTrans(a: string, b: string, c: string, desc: bool)
    requires InOrder(a, b, desc) && InOrder(b, c, desc)
    ensures InOrder(a, c, desc)
  {
    if desc {
      Text.StrLeTrans(c, b, a);
    } else {
      Text.StrLeTrans(a, b, c);
    }
  }

  ghost predicate SortedBy<T>(s: seq<T>, key: T -> string, desc: bool) {
    forall i, j :: 0 <= i < j < |s| ==> InOrder(key(s[i]), key(s[j]), desc)
  }

  /** Put `x` in front of the first element it may precede. */
  function Insert<T>(x: T, s: seq<T>, key: T -> string, desc: bool): (r: seq<T>)
    ensures multiset(r) == multiset(s) + multiset{x}
    ensures |r| == |s| + 1
  {
    if s == [] then [x]
    else if InOrder(key(x), key(s[0]), desc) then [x] + s
    else
      assert s == [s[0]] + s[1..];
      [s[0]] + Insert(x, s[1..], key, desc)
  }

  lemma {:induction false} InsertSorted<T>(x: T, s: seq<T>, key: T -> string, desc: bool)
    requires SortedBy(s, key, desc)
    ensures SortedBy(Insert(x, s, key, desc), key, desc)
  {
    if s != [] {
      var r := Insert(x, s, key, desc);
      if InOrder(key(x), key(s[0]), desc) {
        forall j | 1 <= j < |r|
          ensures InOrder(key(r[0]), key(r[j]), desc)
        {
          if j > 1 {
            InOrderTrans(key(x), key(s[0]), key(s[j - 1]), desc);
          }
        }
      } else {
        InOrderTotal(key(x), key(s[0]), desc);
        var t := Insert(x, s[1..], key, desc);
        InsertSorted(x, s[1..], key, desc);
        forall j | 0 <= j < |t|
          ensures InOrder(key(s[0]), key(t[j]), desc)
        {
          assert t[j] in multiset(t);
          if t[j] != x {
            assert t[j] in multiset(s[1..]);
            var m :| 0 <= m < |s[1..]| && s[1..][m] == t[j];
            assert s[m + 1] == t[j];
          }
        }
        assert r == [s[0]] + t;
      }
    }
  }

  /** Stable insertion sort by `key`. */
  function SortBy<T>(s: seq<T>, key: T -> string, desc: bool): (r: seq<T>)
    ensures multiset(r) == multiset(s) && |r| == |s|
  {
    if s == [] then []
    else
      assert s == [s[0]] + s[1..];
      Insert(s[0], SortBy(s[1..], key, desc), key, desc)
  }

  /** What `ORDER BY` promises: the same rows, in key order. */
  lemma {:induction false} SortBySorted<T>(s: seq<T>, key: T -> string, desc: bool)
    ensures SortedBy(SortBy(s, key, desc), key, desc)
  {
    if s != [] {
      SortBySorted(s[1..], key, desc);
      InsertSorted(s[0], SortBy(s[1..], key, desc), key, desc);
    }
  }
}
