/** std::stable_sort by an integer key, with the facts its callers rely on: the result is ordered,
    holds the same elements, and elements of equal key keep their order. */
module Sorting {

  ghost predicate SortedBy<T>(s: seq<T>, key: T -> int) {
    forall i, j :: 0 <= i < j < |s| ==> key(s[i]) <= key(s[j])
  }

  /** The elements of s with key v, in their order. */
  function WithKey<T>(s: seq<T>, key: T -> int, v: int): seq<T> {
    if s == [] then [] else
      var n := |s| - 1;
      WithKey(s[..n], key, v) + if key(s[n]) == v then [s[n]] else []
  }

  /** x placed behind every element of s whose key is not above its own. */
  function Insert<T>(s: seq<T>, x: T, key: T -> int): (r: seq<T>)
    ensures |r| == |s| + 1
  {
    if s == [] || key(s[|s| - 1]) <= key(x) then s + [x]
    else Insert(s[..|s| - 1], x, key) + [s[|s| - 1]]
  }

  function StableSort<T>(s: seq<T>, key: T -> int): (r: seq<T>)
    ensures |r| == |s|
  {
    if s == [] then [] else Insert(StableSort(s[..|s| - 1], key), s[|s| - 1], key)
  }

  lemma WithKeySnoc<T>(s: seq<T>, x: T, key: T -> int, v: int)
    ensures WithKey(s + [x], key, v) == WithKey(s, key, v) + if key(x) == v then [x] else []
  {
    assert (s + [x])[..|s|] == s;
  }

  lemma {:induction false} InsertAdds<T>(s: seq<T>, x: T, key: T -> int)
    ensures multiset(Insert(s, x, key)) == multiset(s) + multiset{x}
  {
    if s != [] && key(s[|s| - 1]) > key(x) {
      InsertAdds(s[..|s| - 1], x, key);
      assert s == s[..|s| - 1] + [s[|s| - 1]];
    }
  }

  lemma {:induction false} InsertBelow<T>(s: seq<T>, x: T, key: T -> int, b: int)
    requires key(x) <= b && forall i | 0 <= i < |s| :: key(s[i]) <= b
    ensures forall i | 0 <= i < |Insert(s, x, key)| :: key(Insert(s, x, key)[i]) <= b
  {
    if s != [] && key(s[|s| - 1]) > key(x) {
      InsertBelow(s[..|s| - 1], x, key, b);
    }
  }

  lemma {:induction false} InsertSorted<T>(s: seq<T>, x: T, key: T -> int)
    requires SortedBy(s, key)
    ensures SortedBy(Insert(s, x, key), key)
  {
    if s != [] && key(s[|s| - 1]) > key(x) {
      var n := |s| - 1;
      InsertSorted(s[..n], x, key);
      InsertBelow(s[..n], x, key, key(s[n]));
    }
  }

  lemma {:induction false} InsertStable<T>(s: seq<T>, x: T, key: T -> int, v: int)
    ensures WithKey(Insert(s, x, key), key, v) == WithKey(s + [x], key, v)
  {
    if s != [] && key(s[|s| - 1]) > key(x) {
      var n := |s| - 1;
      InsertStable(s[..n], x, key, v);
      WithKeySnoc(Insert(s[..n], x, key), s[n], key, v);
      WithKeySnoc(s[..n], x, key, v);
      WithKeySnoc(s, x, key, v);
    }
  }

  lemma {:induction false} StableSortSorts<T>(s: seq<T>, key: T -> int)
    ensures multiset(StableSort(s, key)) == multiset(s)
    ensures SortedBy(StableSort(s, key), key)
  {
    if s != [] {
      var n := |s| - 1;
      StableSortSorts(s[..n], key);
      InsertAdds(StableSort(s[..n], key), s[n], key);
      InsertSorted(StableSort(s[..n], key), s[n], key);
      assert s == s[..n] + [s[n]];
    }
  }

  lemma {:induction false} StableSortKeeps<T>(s: seq<T>, key: T -> int, v: int)
    ensures WithKey(StableSort(s, key), key, v) == WithKey(s, key, v)
  {
    if s != [] {
      var n := |s| - 1;
      StableSortKeeps(s[..n], key, v);
      InsertStable(StableSort(s[..n], key), s[n], key, v);
      WithKeySnoc(StableSort(s[..n], key), s[n], key, v);
    }
  }
}
