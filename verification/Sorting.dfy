/** A stable sort by a real-valued key, as `sort_by` with `total_cmp` gives. */
module Sorting {

  ghost predicate AscendingBy<T>(s: seq<T>, key: T -> real) {
    forall i, j :: 0 <= i < j < |s| ==> key(s[i]) <= key(s[j])
  }

  /** Inserts `x` after every element whose key is not greater. */
  function Insert<T>(sorted: seq<T>, x: T, key: T -> real): (r: seq<T>)
    requires AscendingBy(sorted, key)
    ensures AscendingBy(r, key) && multiset(r) == multiset(sorted) + multiset{x}
    ensures forall i :: 0 <= i < |r| ==> r[i] == x || r[i] in sorted
  {
    var last := |sorted| - 1;
    if sorted == [] || key(sorted[last]) <= key(x) then sorted + [x]
    else
      assert sorted == sorted[..last] + [sorted[last]];
      Insert(sorted[..last], x, key) + [sorted[last]]
  }

  function SortBy<T>(s: seq<T>, key: T -> real): (r: seq<T>)
    ensures AscendingBy(r, key) && multiset(r) == multiset(s)
  {
    if s == [] then []
    else
      assert s == s[..|s| - 1] + [s[|s| - 1]];
      Insert(SortBy(s[..|s| - 1], key), s[|s| - 1], key)
  }

  lemma SameElements<T>(s: seq<T>, r: seq<T>, x: T)
    requires multiset(r) == multiset(s)
    ensures x in r <==> x in s
  {
    assert x in r <==> x in multiset(r);
    assert x in s <==> x in multiset(s);
  }

  /** The elements of one key, in their order. */
  function WithKey<T>(s: seq<T>, key: T -> real, k: real): seq<T> {
    if s == [] then []
    else WithKey(s[..|s| - 1], key, k) + (if key(s[|s| - 1]) == k then [s[|s| - 1]] else [])
  }

  lemma WithKeyPush<T>(s: seq<T>, x: T, key: T -> real, k: real)
    ensures WithKey(s + [x], key, k) == WithKey(s, key, k) + (if key(x) == k then [x] else [])
  {
    assert (s + [x])[..|s|] == s;
  }

  lemma InsertBefore<T>(sorted: seq<T>, x: T, key: T -> real)
    requires AscendingBy(sorted, key) && sorted != [] && key(sorted[|sorted| - 1]) > key(x)
    ensures Insert(sorted, x, key) == Insert(sorted[..|sorted| - 1], x, key) + [sorted[|sorted| - 1]]
  {
  }

  lemma {:induction false} InsertStable<T>(sorted: seq<T>, x: T, key: T -> real, k: real)
    requires AscendingBy(sorted, key)
    ensures WithKey(Insert(sorted, x, key), key, k) == WithKey(sorted, key, k) + (if key(x) == k then [x] else [])
  {
    var last := |sorted| - 1;
    if sorted == [] || key(sorted[last]) <= key(x) {
      WithKeyPush(sorted, x, key, k);
    } else {
      var init, inserted := sorted[..last], Insert(sorted[..last], x, key);
      InsertStable(init, x, key, k);
      InsertBefore(sorted, x, key);
      WithKeyPush(inserted, sorted[last], key, k);
    }
  }

  /** The sort is stable: elements of equal keys stay in their order. */
  lemma {:induction false} SortIsStable<T>(s: seq<T>, key: T -> real, k: real)
    ensures WithKey(SortBy(s, key), key, k) == WithKey(s, key, k)
  {
    if s != [] {
      SortIsStable(s[..|s| - 1], key, k);
      InsertStable(SortBy(s[..|s| - 1], key), s[|s| - 1], key, k);
    }
  }
}
