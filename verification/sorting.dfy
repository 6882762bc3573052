/** Python's `list.sort(key=...)` for the navigation key `(order, title)`:
    a stable sort, modelled as insertion sort. */
module StableSort {
  import opened Strings

  /** The sort key: an integer order, then a title compared code point by code point. */
  datatype Key = Key(order: int, title: string)

  /** Tuple comparison `a <= b` on keys. */
  predicate KeyLe(a: Key, b: Key) {
    a.order < b.order || (a.order == b.order && StrLe(a.title, b.title))
  }

  lemma KeyLeTotal(a: Key, b: Key)
    ensures KeyLe(a, b) || KeyLe(b, a)
  {
    StrLeTotal(a.title, b.title);
  }

  lemma KeyLeTransitive(a: Key, b: Key, c: Key)
    requires KeyLe(a, b) && KeyLe(b, c)
    ensures KeyLe(a, c)
  {
    if a.order == b.order == c.order {
      StrLeTransitive(a.title, b.title, c.title);
    }
  }

  /** Every earlier element's key is at most every later element's key. */
  ghost predicate Sorted<T>(xs: seq<T>, key: T -> Key) {
    forall i, j :: 0 <= i < j < |xs| ==> KeyLe(key(xs[i]), key(xs[j]))
  }

  /** Place `x` after every element whose key is at most its own, that is,
      before the first element whose key is greater. */
  function Insert<T>(sorted: seq<T>, x: T, key: T -> Key): (r: seq<T>)
    ensures multiset(r) == multiset(sorted) + multiset{x}
    ensures |r| == |sorted| + 1
  {
    if |sorted| == 0 then [x]
    else if !KeyLe(key(sorted[0]), key(x)) then [x] + sorted
    else
      var r := [sorted[0]] + Insert(sorted[1..], x, key);
      assert sorted == [sorted[0]] + sorted[1..];
      r
  }

  /** `sorted(xs, key=key)`. */
  function SortBy<T>(xs: seq<T>, key: T -> Key): (r: seq<T>)
    ensures multiset(r) == multiset(xs)
    ensures |r| == |xs|
  {
    if |xs| == 0 then []
    else
      var r := Insert(SortBy(xs[..|xs| - 1], key), xs[|xs| - 1], key);
      assert xs == xs[..|xs| - 1] + [xs[|xs| - 1]];
      r
  }

  lemma {:induction false} InsertSorted<T>(sorted: seq<T>, x: T, key: T -> Key)
    requires Sorted(sorted, key)
    ensures Sorted(Insert(sorted, x, key), key)
  {
    var r := Insert(sorted, x, key);
    if |sorted| == 0 {
    } else if !KeyLe(key(sorted[0]), key(x)) {
      KeyLeTotal(key(sorted[0]), key(x));
      forall i, j | 0 <= i < j < |r| ensures KeyLe(key(r[i]), key(r[j])) {
        if i == 0 {
          assert r[j] == sorted[j - 1];
          if j > 1 {
            KeyLeTransitive(key(x), key(sorted[0]), key(sorted[j - 1]));
          }
        } else {
          assert r[i] == sorted[i - 1] && r[j] == sorted[j - 1];
        }
      }
    } else {
      var tail := Insert(sorted[1..], x, key);
      InsertSorted(sorted[1..], x, key);
      forall i, j | 0 <= i < j < |r| ensures KeyLe(key(r[i]), key(r[j])) {
        if i == 0 {
          var y := tail[j - 1];
          assert y in multiset(tail);
          if y != x {
            assert y in multiset(sorted[1..]);
            var m :| 0 <= m < |sorted[1..]| && sorted[1..][m] == y;
            assert sorted[m + 1] == y;
          }
        } else {
          assert r[i] == tail[i - 1] && r[j] == tail[j - 1];
        }
      }
    }
  }

  /** The sort's output is ordered by key. */
  lemma {:induction false} SortBySorted<T>(xs: seq<T>, key: T -> Key)
    ensures Sorted(SortBy(xs, key), key)
  {
    if |xs| > 0 {
      SortBySorted(xs[..|xs| - 1], key);
      InsertSorted(SortBy(xs[..|xs| - 1], key), xs[|xs| - 1], key);
    }
  }

  // ---------------------------------------------------------------------------
  // Stability
  // ---------------------------------------------------------------------------

  /** The elements of `xs` whose key is exactly `k`, in their order in `xs`. */
  function WithKey<T>(xs: seq<T>, key: T -> Key, k: Key): seq<T> {
    if |xs| == 0 then []
    else (if key(xs[0]) == k then [xs[0]] else []) + WithKey(xs[1..], key, k)
  }

  lemma {:induction false} WithKeyAppend<T>(a: seq<T>, b: seq<T>, key: T -> Key, k: Key)
    ensures WithKey(a + b, key, k) == WithKey(a, key, k) + WithKey(b, key, k)
  {
    if |a| > 0 {
      assert (a + b)[1..] == a[1..] + b;
      WithKeyAppend(a[1..], b, key, k);
    } else {
      assert a + b == b;
    }
  }

  lemma {:induction false} WithKeyNone<T>(xs: seq<T>, key: T -> Key, k: Key)
    requires forall i :: 0 <= i < |xs| ==> key(xs[i]) != k
    ensures WithKey(xs, key, k) == []
  {
    if |xs| > 0 {
      WithKeyNone(xs[1..], key, k);
    }
  }

  lemma {:induction false} InsertWithKey<T>(sorted: seq<T>, x: T, key: T -> Key, k: Key)
    requires Sorted(sorted, key)
    ensures WithKey(Insert(sorted, x, key), key, k)
         == WithKey(sorted, key, k) + (if key(x) == k then [x] else [])
  {
    if |sorted| == 0 {
    } else if !KeyLe(key(sorted[0]), key(x)) {
      InsertFront(sorted, x, key, k);
    } else {
      SortedTail(sorted, key);
      InsertWithKey(sorted[1..], x, key, k);
      InsertLater(sorted, x, key, k);
    }
  }

  lemma SortedTail<T>(xs: seq<T>, key: T -> Key)
    requires Sorted(xs, key) && |xs| > 0
    ensures Sorted(xs[1..], key)
  {
    forall i, j | 0 <= i < j < |xs[1..]| ensures KeyLe(key(xs[1..][i]), key(xs[1..][j])) {
      assert xs[1..][i] == xs[i + 1] && xs[1..][j] == xs[j + 1];
    }
  }

  /** Inserting past the first element keeps it first. */
  lemma InsertLater<T>(sorted: seq<T>, x: T, key: T -> Key, k: Key)
    requires |sorted| > 0 && KeyLe(key(sorted[0]), key(x))
    requires WithKey(Insert(sorted[1..], x, key), key, k)
          == WithKey(sorted[1..], key, k) + (if key(x) == k then [x] else [])
    ensures WithKey(Insert(sorted, x, key), key, k)
         == WithKey(sorted, key, k) + (if key(x) == k then [x] else [])
  {
    var tail := Insert(sorted[1..], x, key);
    var r := [sorted[0]] + tail;
    assert Insert(sorted, x, key) == r;
    var a := if key(sorted[0]) == k then [sorted[0]] else [];
    var b := if key(x) == k then [x] else [];
    assert r[1..] == tail;
    assert WithKey(r, key, k) == a + (WithKey(sorted[1..], key, k) + b);
    assert WithKey(sorted, key, k) == a + WithKey(sorted[1..], key, k);
    assert a + (WithKey(sorted[1..], key, k) + b) == a + WithKey(sorted[1..], key, k) + b;
  }

  /** Inserting in front of a larger key: no element of equal key precedes
      `x` in the result. */
  lemma InsertFront<T>(sorted: seq<T>, x: T, key: T -> Key, k: Key)
    requires Sorted(sorted, key)
    requires |sorted| > 0 && !KeyLe(key(sorted[0]), key(x))
    ensures WithKey([x] + sorted, key, k)
         == WithKey(sorted, key, k) + (if key(x) == k then [x] else [])
  {
    var r := [x] + sorted;
    assert r[1..] == sorted;
    if key(x) == k {
      KeyLeTotal(key(x), key(x));
      forall i | 0 <= i < |sorted| ensures key(sorted[i]) != k {
        if i > 0 {
          assert KeyLe(key(sorted[0]), key(sorted[i]));
        }
      }
      WithKeyNone(sorted, key, k);
    }
  }

  lemma WithKeySingle<T>(x: T, key: T -> Key, k: Key)
    ensures WithKey([x], key, k) == if key(x) == k then [x] else []
  {
    assert [x][1..] == [];
  }

  /** Elements with equal keys keep their input order. */
  lemma {:induction false} SortByStable<T>(xs: seq<T>, key: T -> Key, k: Key)
    ensures WithKey(SortBy(xs, key), key, k) == WithKey(xs, key, k)
  {
    if |xs| > 0 {
      var init, last := xs[..|xs| - 1], xs[|xs| - 1];
      SortBySorted(init, key);
      calc {
        WithKey(SortBy(xs, key), key, k);
        WithKey(Insert(SortBy(init, key), last, key), key, k);
        { InsertWithKey(SortBy(init, key), last, key, k); }
        WithKey(SortBy(init, key), key, k) + (if key(last) == k then [last] else []);
        { SortByStable(init, key, k); WithKeySingle(last, key, k); }
        WithKey(init, key, k) + WithKey([last], key, k);
        { WithKeyAppend(init, [last], key, k); }
        WithKey(init + [last], key, k);
        { assert xs == init + [last]; }
        WithKey(xs, key, k);
      }
    }
  }
}
