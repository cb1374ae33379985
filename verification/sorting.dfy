/** Python's `sorted(items, key=...)` with a string key: a stable sort, given
    here as insertion sort, and the facts that pin it down — the result is
    ordered by key, is a permutation of the input, and keeps the input order
    among items with equal keys. */
module Sorting {
  import opened Text

  /** Ordered by key, pairwise. */
  predicate SortedBy<T>(s: seq<T>, key: T -> string)
  {
    forall i, j :: 0 <= i < j < |s| ==> Le(key(s[i]), key(s[j]))
  }

  /** The items of `s` whose key is `k`, in the order of `s`. */
  function WithKey<T>(s: seq<T>, key: T -> string, k: string): seq<T>
  {
    if |s| == 0 then []
    else (if key(s[0]) == k then [s[0]] else []) + WithKey(s[1..], key, k)
  }

  /** Puts `x` before the first item whose key is not below `x`'s key. */
  function Insert<T>(x: T, s: seq<T>, key: T -> string): seq<T>
  {
    if |s| == 0 then [x]
    else if Le(key(x), key(s[0])) then [x] + s
    else [s[0]] + Insert(x, s[1..], key)
  }

  /** `sorted(s, key=key)` */
  function SortBy<T>(s: seq<T>, key: T -> string): seq<T>
  {
    if |s| == 0 then [] else Insert(s[0], SortBy(s[1..], key), key)
  }

  lemma {:induction false} InsertPermutes<T>(x: T, s: seq<T>, key: T -> string)
    ensures multiset(Insert(x, s, key)) == multiset([x]) + multiset(s)
  {
    if |s| > 0 && !Le(key(x), key(s[0])) {
      InsertPermutes(x, s[1..], key);
      assert s == [s[0]] + s[1..];
    }
  }

  lemma {:induction false} InsertKeeps<T>(x: T, s: seq<T>, key: T -> string, y: T)
    requires y in Insert(x, s, key)
    ensures y == x || y in s
  {
    InsertPermutes(x, s, key);
    assert y in multiset(Insert(x, s, key));
  }

  lemma {:induction false} InsertSorted<T>(x: T, s: seq<T>, key: T -> string)
    requires SortedBy(s, key)
    ensures SortedBy(Insert(x, s, key), key)
  {
    if |s| == 0 {
    } else if Le(key(x), key(s[0])) {
      var r := [x] + s;
      forall i, j | 0 <= i < j < |r| ensures Le(key(r[i]), key(r[j])) {
        if i == 0 && j > 1 {
          LeTransitive(key(x), key(s[0]), key(s[j - 1]));
        }
      }
    } else {
      InsertSorted(x, s[1..], key);
      LeTotal(key(x), key(s[0]));
      var t := Insert(x, s[1..], key);
      var r := [s[0]] + t;
      forall j | 0 <= j < |t| ensures Le(key(s[0]), key(t[j])) {
        assert t[j] in t;
        InsertKeeps(x, s[1..], key, t[j]);
        if t[j] != x {
          var m :| 0 <= m < |s[1..]| && s[1..][m] == t[j];
          assert s[m + 1] == t[j];
        }
      }
      forall i, j | 0 <= i < j < |r| ensures Le(key(r[i]), key(r[j])) {
        if i > 0 {
          assert r[i] == t[i - 1] && r[j] == t[j - 1];
        } else {
          assert r[j] == t[j - 1];
        }
      }
    }
  }

  /** The result of `sorted` is ordered by key. */
  lemma {:induction false} SortBySorted<T>(s: seq<T>, key: T -> string)
    ensures SortedBy(SortBy(s, key), key)
  {
    if |s| > 0 {
      SortBySorted(s[1..], key);
      InsertSorted(s[0], SortBy(s[1..], key), key);
    }
  }

  /** The result of `sorted` has exactly the input's items. */
  lemma {:induction false} SortByPermutes<T>(s: seq<T>, key: T -> string)
    ensures multiset(SortBy(s, key)) == multiset(s)
    ensures |SortBy(s, key)| == |s|
  {
    if |s| > 0 {
      SortByPermutes(s[1..], key);
      InsertPermutes(s[0], SortBy(s[1..], key), key);
      assert s == [s[0]] + s[1..];
    }
    assert |multiset(SortBy(s, key))| == |SortBy(s, key)|;
  }

  lemma {:induction false} WithKeyAppend<T>(a: seq<T>, b: seq<T>, key: T -> string, k: string)
    ensures WithKey(a + b, key, k) == WithKey(a, key, k) + WithKey(b, key, k)
  {
    if |a| == 0 {
      assert a + b == b;
    } else {
      var c := a + b;
      var h := if key(a[0]) == k then [a[0]] else [];
      assert c[1..] == a[1..] + b;
      assert c[0] == a[0];
      WithKeyAppend(a[1..], b, key, k);
      assert WithKey(c, key, k) == h + (WithKey(a[1..], key, k) + WithKey(b, key, k));
      assert WithKey(a, key, k) == h + WithKey(a[1..], key, k);
    }
  }

  /** Dropping the head of a sorted sequence leaves it sorted. */
  lemma SortedTail<T>(s: seq<T>, key: T -> string)
    requires |s| > 0 && SortedBy(s, key)
    ensures SortedBy(s[1..], key)
  {
    forall i, j | 0 <= i < j < |s[1..]| ensures Le(key(s[1..][i]), key(s[1..][j])) {
      assert s[1..][i] == s[i + 1] && s[1..][j] == s[j + 1];
    }
  }

  lemma {:induction false} InsertWithKey<T>(x: T, s: seq<T>, key: T -> string, k: string)
    requires SortedBy(s, key)
    ensures WithKey(Insert(x, s, key), key, k)
         == (if key(x) == k then [x] else []) + WithKey(s, key, k)
  {
    if |s| == 0 {
    } else if Le(key(x), key(s[0])) {
      assert ([x] + s)[1..] == s;
    } else {
      SortedTail(s, key);
      InsertWithKey(x, s[1..], key, k);
      if key(x) == k {
        // x's key is above s[0]'s, so s[0] does not share it
        LtIrreflexive(key(x));
      }
      InsertPastHead(x, s, key, k);
    }
  }

  /** The step of `InsertWithKey` where `x` goes past the head of `s`. */
  lemma InsertPastHead<T>(x: T, s: seq<T>, key: T -> string, k: string)
    requires |s| > 0 && !Le(key(x), key(s[0]))
    requires key(x) == k ==> key(s[0]) != k
    requires WithKey(Insert(x, s[1..], key), key, k)
          == (if key(x) == k then [x] else []) + WithKey(s[1..], key, k)
    ensures WithKey(Insert(x, s, key), key, k)
         == (if key(x) == k then [x] else []) + WithKey(s, key, k)
  {
    var t := Insert(x, s[1..], key);
    var h := if key(s[0]) == k then [s[0]] else [];
    var hx := if key(x) == k then [x] else [];
    assert Insert(x, s, key) == [s[0]] + t;
    assert ([s[0]] + t)[0] == s[0] && ([s[0]] + t)[1..] == t;
    assert WithKey([s[0]] + t, key, k) == h + WithKey(t, key, k);
    assert WithKey(s, key, k) == h + WithKey(s[1..], key, k);
    assert h == [] || hx == [];
  }

  /** Stability: among items with the same key the input order is kept. */
  lemma {:induction false} SortByStable<T>(s: seq<T>, key: T -> string, k: string)
    ensures WithKey(SortBy(s, key), key, k) == WithKey(s, key, k)
  {
    if |s| > 0 {
      SortByStable(s[1..], key, k);
      SortBySorted(s[1..], key);
      InsertWithKey(s[0], SortBy(s[1..], key), key, k);
    }
  }

  /** Filtering by a finer key after a coarser one: when every item with
      `fine` key `k2` has `coarse` key `k1`, filtering by `k1` first loses nothing. */
  lemma {:induction false} WithKeyRefine<T>(s: seq<T>, coarse: T -> string, k1: string, fine: T -> string, k2: string)
    requires forall x :: fine(x) == k2 ==> coarse(x) == k1
    ensures WithKey(s, fine, k2) == WithKey(WithKey(s, coarse, k1), fine, k2)
  {
    if |s| > 0 {
      WithKeyRefine(s[1..], coarse, k1, fine, k2);
      var rest := WithKey(s[1..], coarse, k1);
      if coarse(s[0]) == k1 {
        assert WithKey(s, coarse, k1) == [s[0]] + rest;
        assert ([s[0]] + rest)[1..] == rest;
      } else {
        assert fine(s[0]) != k2;
        assert WithKey(s, coarse, k1) == [] + rest;
        assert [] + rest == rest;
      }
    }
  }
}
