/**
 * The query building blocks the controllers use: `where` (Filter), `orderBy`
 * (SortBy, a stable insertion sort under a total preorder), `take` (a prefix),
 * the rows of a keyed collection in key order (Rows), and the ordering of
 * table names used by `orderBy('table_name')`.
 */
module Ordering {

  function Min(a: int, b: int): int { if a <= b then a else b }

  /** `le` is total and transitive: ties are allowed, and their order is left open. */
  ghost predicate TotalPreorder<T(!new)>(le: (T, T) -> bool) {
    && (forall a, b :: le(a, b) || le(b, a))
    && (forall a, b, c :: le(a, b) && le(b, c) ==> le(a, c))
  }

  predicate SortedBy<T>(s: seq<T>, le: (T, T) -> bool) {
    forall i, j :: 0 <= i < j < |s| ==> le(s[i], s[j])
  }

  /** The elements of `s` that satisfy `p`, in their original order (a `where` clause). */
  function Filter<T(==,!new)>(s: seq<T>, p: T -> bool): (r: seq<T>)
    ensures |r| <= |s|
    ensures multiset(r) <= multiset(s)
    ensures forall x :: x in r <==> x in s && p(x)
  {
    if s == [] then []
    else
      assert s == [s[0]] + s[1..];
      (if p(s[0]) then [s[0]] else []) + Filter(s[1..], p)
  }

  /** Inserts `x` before the first element it is `le` to. */
  function Insert<T(==,!new)>(x: T, s: seq<T>, le: (T, T) -> bool): (r: seq<T>)
    ensures multiset(r) == multiset(s) + multiset{x}
  {
    if s == [] then [x]
    else if le(x, s[0]) then [x] + s
    else
      assert s == [s[0]] + s[1..];
      [s[0]] + Insert(x, s[1..], le)
  }

  /** `orderBy`: a permutation of `s`, sorted whenever `le` is a total preorder (see SortBySorted). */
  function SortBy<T(==,!new)>(s: seq<T>, le: (T, T) -> bool): (r: seq<T>)
    ensures multiset(r) == multiset(s)
    ensures |r| == |s|
  {
    if s == [] then []
    else
      assert s == [s[0]] + s[1..];
      Insert(s[0], SortBy(s[1..], le), le)
  }

  lemma {:induction false} InsertSorted<T(!new)>(x: T, s: seq<T>, le: (T, T) -> bool)
    requires TotalPreorder(le)
    requires SortedBy(s, le)
    ensures SortedBy(Insert(x, s, le), le)
  {
    if s != [] && !le(x, s[0]) {
      var tail := s[1..];
      InsertSorted(x, tail, le);
      var r := Insert(x, tail, le);
      assert le(s[0], x);
      forall y | y in r ensures le(s[0], y) {
        assert y in multiset(r);
        if y != x {
          assert y in multiset(tail);
          var j :| 0 <= j < |tail| && tail[j] == y;
          assert s[j + 1] == y;
        }
      }
      assert Insert(x, s, le) == [s[0]] + r;
      forall i, j | 0 <= i < j < |[s[0]] + r| ensures le(([s[0]] + r)[i], ([s[0]] + r)[j]) {
        if i == 0 {
          assert ([s[0]] + r)[j] == r[j - 1];
          assert r[j - 1] in r;
        } else {
          assert ([s[0]] + r)[i] == r[i - 1];
          assert ([s[0]] + r)[j] == r[j - 1];
        }
      }
    } else if s != [] {
      forall i, j | 0 <= i < j < |[x] + s| ensures le(([x] + s)[i], ([x] + s)[j]) {
        if i == 0 {
          assert le(x, s[0]);
          if j > 1 { assert le(s[0], s[j - 1]); }
        } else {
          assert ([x] + s)[i] == s[i - 1];
        }
      }
    }
  }

  lemma {:induction false} SortBySorted<T(!new)>(s: seq<T>, le: (T, T) -> bool)
    requires TotalPreorder(le)
    ensures SortedBy(SortBy(s, le), le)
  {
    if s != [] {
      SortBySorted(s[1..], le);
      InsertSorted(s[0], SortBy(s[1..], le), le);
    }
  }

  /**
   * `orderBy(...)->take(k)` keeps the least elements: every element of `s` is
   * either taken, or all k places are filled with elements `le` to it.
   */
  lemma TakeKeepsLeast<T(!new)>(s: seq<T>, le: (T, T) -> bool, k: nat)
    requires TotalPreorder(le)
    ensures var q := SortBy(s, le);
            forall y :: y in s ==>
              y in q[..Min(k, |q|)] || (Min(k, |q|) == k && forall x :: x in q[..Min(k, |q|)] ==> le(x, y))
  {
    var q := SortBy(s, le);
    var r := q[..Min(k, |q|)];
    SortBySorted(s, le);
    forall y | y in s
      ensures y in r || (Min(k, |q|) == k && forall x :: x in r ==> le(x, y))
    {
      assert y in multiset(q);
      var j :| 0 <= j < |q| && q[j] == y;
      if j < Min(k, |q|) {
        assert r[j] == y;
      } else {
        forall x | x in r ensures le(x, y) {
          var i :| 0 <= i < |r| && r[i] == x;
          assert q[i] == x;
        }
      }
    }
  }

  /** The keys of `m` below `n`, ascending: the rows of a table in primary-key order. */
  function Rows<T(==,!new)>(m: map<nat, T>, n: nat): (rows: seq<T>)
    ensures forall x :: x in rows ==> x in m.Values
    ensures forall k :: k in m && k < n ==> m[k] in rows
  {
    if n == 0 then []
    else Rows(m, n - 1) + (if n - 1 in m then [m[n - 1]] else [])
  }

  /** No two elements of `s` share a key: each keyed row is listed at most once. */
  ghost predicate KeysDistinct<T>(s: seq<T>, key: T -> nat) {
    forall i, j :: 0 <= i < j < |s| ==> key(s[i]) != key(s[j])
  }

  /**
   * When every row stores its own key, Rows lists the rows below `n` in
   * strictly ascending key order, so each at most once.
   */
  lemma {:induction false} RowsInKeyOrder<T(!new)>(m: map<nat, T>, n: nat, key: T -> nat)
    requires forall k :: k in m ==> key(m[k]) == k
    ensures var rows := Rows(m, n);
      && (forall i :: 0 <= i < |rows| ==> key(rows[i]) < n)
      && (forall i, j :: 0 <= i < j < |rows| ==> key(rows[i]) < key(rows[j]))
      && KeysDistinct(rows, key)
  {
    if n > 0 {
      RowsInKeyOrder(m, n - 1, key);
      var prev := Rows(m, n - 1);
      var rows := Rows(m, n);
      if n - 1 in m {
        assert rows == prev + [m[n - 1]];
        forall i, j | 0 <= i < j < |rows| ensures key(rows[i]) < key(rows[j]) {
          if j == |prev| {
            assert rows[i] == prev[i];
          } else {
            assert rows[i] == prev[i] && rows[j] == prev[j];
          }
        }
      } else {
        assert rows == prev;
      }
    }
  }

  /** `where` keeps keys distinct. */
  lemma {:induction false} FilterKeepsKeysDistinct<T(!new)>(s: seq<T>, p: T -> bool, key: T -> nat)
    requires KeysDistinct(s, key)
    ensures KeysDistinct(Filter(s, p), key)
  {
    if s != [] {
      var tail := s[1..];
      assert KeysDistinct(tail, key) by {
        forall i, j | 0 <= i < j < |tail| ensures key(tail[i]) != key(tail[j]) {
          assert tail[i] == s[i + 1] && tail[j] == s[j + 1];
        }
      }
      FilterKeepsKeysDistinct(tail, p, key);
      var rest := Filter(tail, p);
      if p(s[0]) {
        var r := [s[0]] + rest;
        forall j | 0 < j < |r| ensures key(r[0]) != key(r[j]) {
          assert r[j] == rest[j - 1] && rest[j - 1] in rest;
          var m :| 0 <= m < |tail| && tail[m] == rest[j - 1];
          assert s[m + 1] == tail[m];
        }
        forall i, j | 0 < i < j < |r| ensures key(r[i]) != key(r[j]) {
          assert r[i] == rest[i - 1] && r[j] == rest[j - 1];
        }
      } else {
        assert Filter(s, p) == rest;
      }
    }
  }

  /** Every element of an insertion result is the inserted element or came from `s`. */
  lemma InsertMembers<T(!new)>(x: T, s: seq<T>, le: (T, T) -> bool)
    ensures forall y :: y in Insert(x, s, le) ==> y == x || y in s
  {
    forall y | y in Insert(x, s, le) ensures y == x || y in s {
      assert y in multiset(Insert(x, s, le));
    }
  }

  /** Inserting an element whose key is new keeps keys distinct. */
  lemma {:induction false} InsertKeepsKeysDistinct<T(!new)>(x: T, s: seq<T>, le: (T, T) -> bool, key: T -> nat)
    requires KeysDistinct(s, key)
    requires forall y :: y in s ==> key(y) != key(x)
    ensures KeysDistinct(Insert(x, s, le), key)
    decreases |s|, 1
  {
    if s == [] {
    } else if le(x, s[0]) {
      var r := [x] + s;
      forall i, j | 0 <= i < j < |r| ensures key(r[i]) != key(r[j]) {
        assert r[j] == s[j - 1];
        if i == 0 {
          assert s[j - 1] in s;
        } else {
          assert r[i] == s[i - 1];
        }
      }
    } else {
      InsertAfterHead(x, s, le, key);
    }
  }

  lemma {:induction false} InsertAfterHead<T(!new)>(x: T, s: seq<T>, le: (T, T) -> bool, key: T -> nat)
    requires s != [] && !le(x, s[0])
    requires KeysDistinct(s, key)
    requires forall y :: y in s ==> key(y) != key(x)
    ensures KeysDistinct(Insert(x, s, le), key)
    decreases |s|, 0
  {
    var tail := s[1..];
    assert KeysDistinct(tail, key) by {
      forall i, j | 0 <= i < j < |tail| ensures key(tail[i]) != key(tail[j]) {
        assert tail[i] == s[i + 1] && tail[j] == s[j + 1];
      }
    }
    InsertKeepsKeysDistinct(x, tail, le, key);
    var rest := Insert(x, tail, le);
    InsertMembers(x, tail, le);
    var r := [s[0]] + rest;
    assert Insert(x, s, le) == r;
    forall y | y in rest ensures key(y) != key(s[0]) {
      if y != x {
        var m :| 0 <= m < |tail| && tail[m] == y;
        assert s[m + 1] == y;
      }
    }
    forall i, j | 0 <= i < j < |r| ensures key(r[i]) != key(r[j]) {
      assert r[j] == rest[j - 1];
      if i == 0 {
        assert rest[j - 1] in rest;
      } else {
        assert r[i] == rest[i - 1];
      }
    }
  }

  /** `orderBy` keeps keys distinct. */
  lemma {:induction false} SortByKeepsKeysDistinct<T(!new)>(s: seq<T>, le: (T, T) -> bool, key: T -> nat)
    requires KeysDistinct(s, key)
    ensures KeysDistinct(SortBy(s, le), key)
  {
    if s != [] {
      var tail := s[1..];
      assert KeysDistinct(tail, key) by {
        forall i, j | 0 <= i < j < |tail| ensures key(tail[i]) != key(tail[j]) {
          assert tail[i] == s[i + 1] && tail[j] == s[j + 1];
        }
      }
      SortByKeepsKeysDistinct(tail, le, key);
      var sorted := SortBy(tail, le);
      forall y | y in sorted ensures key(y) != key(s[0]) {
        assert y in multiset(tail);
        var m :| 0 <= m < |tail| && tail[m] == y;
        assert s[m + 1] == y;
      }
      InsertKeepsKeysDistinct(s[0], sorted, le, key);
    }
  }

  /**
   * A list whose keys are distinct and are exactly the set `ks` has one
   * element per key: its length is the size of `ks`.
   */
  lemma {:induction false} CountByKeys<T>(s: seq<T>, key: T -> nat, ks: set<nat>)
    requires KeysDistinct(s, key)
    requires forall i :: 0 <= i < |s| ==> key(s[i]) in ks
    requires forall k :: k in ks ==> exists i :: 0 <= i < |s| && key(s[i]) == k
    ensures |s| == |ks|
  {
    if s != [] {
      var tail := s[1..];
      var rest := ks - {key(s[0])};
      assert KeysDistinct(tail, key) by {
        forall i, j | 0 <= i < j < |tail| ensures key(tail[i]) != key(tail[j]) {
          assert tail[i] == s[i + 1] && tail[j] == s[j + 1];
        }
      }
      forall i | 0 <= i < |tail| ensures key(tail[i]) in rest {
        assert tail[i] == s[i + 1];
      }
      forall k | k in rest ensures exists i :: 0 <= i < |tail| && key(tail[i]) == k {
        var i :| 0 <= i < |s| && key(s[i]) == k;
        assert i != 0 && tail[i - 1] == s[i];
      }
      CountByKeys(tail, key, rest);
      assert ks == rest + {key(s[0])};
    }
  }

  /**
   * A list that holds exactly the rows of `m` satisfying `p`, each row at
   * most once (keys distinct, every row storing its own key), has one entry
   * per such key.
   */
  lemma {:induction false} ListedOnceCount<T(!new)>(s: seq<T>, m: map<nat, T>, key: T -> nat, p: T -> bool, ks: set<nat>)
    requires forall k :: k in m ==> key(m[k]) == k
    requires KeysDistinct(s, key)
    requires forall x :: x in s <==> x in m.Values && p(x)
    requires forall k :: k in ks <==> k in m && p(m[k])
    ensures |s| == |ks|
  {
    forall i | 0 <= i < |s| ensures key(s[i]) in ks {
      assert s[i] in s;
      var k :| k in m && m[k] == s[i];
    }
    forall k | k in ks ensures exists i :: 0 <= i < |s| && key(s[i]) == k {
      assert m[k] in m.Values;
      assert m[k] in s;
      var i :| 0 <= i < |s| && s[i] == m[k];
    }
    CountByKeys(s, key, ks);
  }

  /** Code-point lexicographic order on names: the binary collation of `orderBy` on a string column. */
  predicate NameLe(a: string, b: string)
    decreases |a|
  {
    if |a| == 0 then true
    else if |b| == 0 then false
    else if a[0] != b[0] then a[0] < b[0]
    else NameLe(a[1..], b[1..])
  }

  lemma {:induction false} NameLeTotal(a: string, b: string)
    ensures NameLe(a, b) || NameLe(b, a)
    decreases |a|
  {
    if |a| > 0 && |b| > 0 && a[0] == b[0] {
      NameLeTotal(a[1..], b[1..]);
    }
  }

  lemma {:induction false} NameLeTransitive(a: string, b: string, c: string)
    requires NameLe(a, b) && NameLe(b, c)
    ensures NameLe(a, c)
    decreases |a|
  {
    if |a| > 0 && |b| > 0 && |c| > 0 && a[0] == b[0] && b[0] == c[0] {
      NameLeTransitive(a[1..], b[1..], c[1..]);
    }
  }

  lemma {:induction false} NameLeAntisymmetric(a: string, b: string)
    requires NameLe(a, b) && NameLe(b, a)
    ensures a == b
    decreases |a|
  {
    if |a| > 0 && |b| > 0 {
      NameLeAntisymmetric(a[1..], b[1..]);
      assert a == [a[0]] + a[1..] && b == [b[0]] + b[1..];
    }
  }
}
