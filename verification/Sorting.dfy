/** The library's stable sort, as a function of a list and the key it is sorted by. */
module Sorting {
  function Insert<T>(x: T, xs: seq<T>, key: T -> int): seq<T> {
    if xs == [] || key(x) <= key(xs[0]) then [x] + xs
    else [xs[0]] + Insert(x, xs[1..], key)
  }

  function StableSort<T>(xs: seq<T>, key: T -> int): seq<T> {
    if xs == [] then [] else Insert(xs[0], StableSort(xs[1..], key), key)
  }

  predicate Sorted<T>(xs: seq<T>, key: T -> int) {
    forall i, j :: 0 <= i < j < |xs| ==> key(xs[i]) <= key(xs[j])
  }

  // The elements with one key, in order: what a stable sort may not reorder.
  function WithKey<T>(xs: seq<T>, key: T -> int, k: int): seq<T> {
    if xs == [] then []
    else if key(xs[0]) == k then [xs[0]] + WithKey(xs[1..], key, k)
    else WithKey(xs[1..], key, k)
  }

  lemma {:induction false} InsertKeeps<T(!new)>(x: T, xs: seq<T>, key: T -> int)
    ensures multiset(Insert(x, xs, key)) == multiset{x} + multiset(xs)
  {
    if xs == [] || key(x) <= key(xs[0]) {
    } else {
      InsertKeeps(x, xs[1..], key);
      assert xs == [xs[0]] + xs[1..];
    }
  }

  lemma {:induction false} InsertSorts<T(!new)>(x: T, xs: seq<T>, key: T -> int)
    requires Sorted(xs, key)
    ensures Sorted(Insert(x, xs, key), key)
  {
    if xs == [] || key(x) <= key(xs[0]) {
    } else {
      var rest := Insert(x, xs[1..], key);
      InsertSorts(x, xs[1..], key);
      InsertKeeps(x, xs[1..], key);
      forall j | 0 <= j < |rest| ensures key(xs[0]) <= key(rest[j]) {
        assert rest[j] in multiset(rest);
        assert rest[j] == x || rest[j] in xs[1..];
      }
    }
  }

  lemma WithKeyCons<T(!new)>(x: T, xs: seq<T>, key: T -> int, k: int)
    ensures WithKey([x] + xs, key, k) == if key(x) == k then [x] + WithKey(xs, key, k) else WithKey(xs, key, k)
  {
    assert ([x] + xs)[1..] == xs;
  }

  lemma {:induction false} InsertStable<T(!new)>(x: T, xs: seq<T>, key: T -> int, k: int)
    ensures WithKey(Insert(x, xs, key), key, k) == WithKey([x] + xs, key, k)
  {
    if xs == [] || key(x) <= key(xs[0]) {
    } else {
      InsertStable(x, xs[1..], key, k);
      assert xs == [xs[0]] + xs[1..];
      WithKeyCons(x, xs[1..], key, k);
      WithKeyCons(xs[0], Insert(x, xs[1..], key), key, k);
      WithKeyCons(xs[0], xs[1..], key, k);
      WithKeyCons(x, xs, key, k);
    }
  }

  /** The sort orders by key, keeps every element, and keeps equal keys in their order. */
  lemma {:induction false} StableSortSorts<T(!new)>(xs: seq<T>, key: T -> int, k: int)
    ensures Sorted(StableSort(xs, key), key)
    ensures multiset(StableSort(xs, key)) == multiset(xs)
    ensures WithKey(StableSort(xs, key), key, k) == WithKey(xs, key, k)
  {
    if xs != [] {
      StableSortSorts(xs[1..], key, k);
      var t := StableSort(xs[1..], key);
      InsertSorts(xs[0], t, key);
      InsertKeeps(xs[0], t, key);
      InsertStable(xs[0], t, key, k);
      WithKeyCons(xs[0], t, key, k);
      assert xs == [xs[0]] + xs[1..];
    }
  }

  // Sorting a list keeps its members and its length.
  lemma SortMembers<T(!new)>(xs: seq<T>, key: T -> int)
    ensures Sorted(StableSort(xs, key), key)
    ensures forall x :: x in StableSort(xs, key) <==> x in xs
    ensures |StableSort(xs, key)| == |xs|
  {
    StableSortSorts(xs, key, 0);
    var sorted := StableSort(xs, key);
    assert |multiset(sorted)| == |sorted| && |multiset(xs)| == |xs|;
    forall x ensures x in sorted <==> x in xs {
      assert x in multiset(sorted) <==> x in multiset(xs);
    }
  }

  lemma {:induction false} InsertRight<T(!new)>(x: T, a: seq<T>, b: seq<T>, key: T -> int)
    requires forall y :: y in a ==> key(y) < key(x)
    ensures Insert(x, a + b, key) == a + Insert(x, b, key)
  {
    if a == [] {
      assert a + b == b;
    } else {
      InsertRight(x, a[1..], b, key);
      var t := Insert(x, b, key);
      assert (a + b)[1..] == a[1..] + b && (a + b)[0] == a[0];
      assert a + t == [a[0]] + (a[1..] + t);
    }
  }

  lemma {:induction false} InsertLeft<T(!new)>(x: T, a: seq<T>, b: seq<T>, key: T -> int)
    requires forall y :: y in b ==> key(x) <= key(y)
    ensures Insert(x, a + b, key) == Insert(x, a, key) + b
  {
    if a == [] {
      assert a + b == b;
    } else if key(x) > key(a[0]) {
      InsertLeft(x, a[1..], b, key);
      assert (a + b)[1..] == a[1..] + b;
    }
  }

  lemma SortCons<T(!new)>(x: T, xs: seq<T>, key: T -> int)
    ensures StableSort([x] + xs, key) == Insert(x, StableSort(xs, key), key)
  {
    assert ([x] + xs)[1..] == xs;
  }

  lemma SortIntoLow<T(!new)>(x: T, low: seq<T>, high: seq<T>, all: seq<T>, key: T -> int)
    requires StableSort(all, key) == StableSort(low, key) + StableSort(high, key)
    requires forall y :: y in high ==> key(x) <= key(y)
    ensures StableSort([x] + all, key) == StableSort([x] + low, key) + StableSort(high, key)
  {
    SortMembers(high, key);
    InsertLeft(x, StableSort(low, key), StableSort(high, key), key);
    SortCons(x, low, key);
    SortCons(x, all, key);
  }

  lemma SortIntoHigh<T(!new)>(x: T, low: seq<T>, high: seq<T>, all: seq<T>, key: T -> int)
    requires StableSort(all, key) == StableSort(low, key) + StableSort(high, key)
    requires forall y :: y in low ==> key(y) < key(x)
    ensures StableSort([x] + all, key) == StableSort(low, key) + StableSort([x] + high, key)
  {
    SortMembers(low, key);
    InsertRight(x, StableSort(low, key), StableSort(high, key), key);
    SortCons(x, high, key);
    SortCons(x, all, key);
  }
}
