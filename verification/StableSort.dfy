/** Stable sorting by an integer key, as the standard library's stable sort promises it. */
module StableSort {

  ghost predicate SortedBy<T>(s: seq<T>, key: T -> int)
  {
    forall i, j :: 0 <= i < j < |s| ==> key(s[i]) <= key(s[j])
  }

  /** The elements of `s` with key `k`, in order: what stability preserves. */
  function Class<T>(s: seq<T>, key: T -> int, k: int): seq<T>
  {
    if s == [] then []
    else
      var last := s[|s| - 1];
      Class(s[..|s| - 1], key, k) + if key(last) == k then [last] else []
  }

  /** `t` is `s` in ascending key order, equal keys in their old order. */
  ghost predicate IsStableSort<T>(s: seq<T>, t: seq<T>, key: T -> int)
  {
    |t| == |s| && SortedBy(t, key) && forall k :: Class(t, key, k) == Class(s, key, k)
  }

  /** Inserts `x` after every element whose key is not larger. */
  function Insert<T>(sorted: seq<T>, x: T, key: T -> int): seq<T>
  {
    if sorted == [] || key(sorted[|sorted| - 1]) <= key(x) then sorted + [x]
    else Insert(sorted[..|sorted| - 1], x, key) + [sorted[|sorted| - 1]]
  }

  function Sort<T>(s: seq<T>, key: T -> int): seq<T>
  {
    if s == [] then [] else Insert(Sort(s[..|s| - 1], key), s[|s| - 1], key)
  }

  lemma {:induction false} InsertSorted<T>(sorted: seq<T>, x: T, key: T -> int)
    requires SortedBy(sorted, key)
    ensures var t := Insert(sorted, x, key);
      && |t| == |sorted| + 1 && SortedBy(t, key)
      && (t[|t| - 1] == x || (sorted != [] && t[|t| - 1] == sorted[|sorted| - 1]))
  {
    if sorted != [] && key(sorted[|sorted| - 1]) > key(x) {
      InsertSorted(sorted[..|sorted| - 1], x, key);
    }
  }

  lemma {:induction false} InsertMembers<T>(sorted: seq<T>, x: T, key: T -> int, y: T)
    ensures y in Insert(sorted, x, key) <==> y == x || y in sorted
  {
    if sorted != [] && key(sorted[|sorted| - 1]) > key(x) {
      InsertMembers(sorted[..|sorted| - 1], x, key, y);
      assert sorted == sorted[..|sorted| - 1] + [sorted[|sorted| - 1]];
    }
  }

  lemma ClassSnoc<T>(s: seq<T>, x: T, key: T -> int, k: int)
    ensures Class(s + [x], key, k) == Class(s, key, k) + if key(x) == k then [x] else []
  {
    assert (s + [x])[..|s|] == s;
  }

  lemma {:induction false} ClassEmpty<T>(s: seq<T>, key: T -> int, k: int)
    requires forall i :: 0 <= i < |s| ==> key(s[i]) != k
    ensures Class(s, key, k) == []
  {
    if s != [] {
      ClassEmpty(s[..|s| - 1], key, k);
    }
  }

  lemma {:induction false} InsertClass<T>(sorted: seq<T>, x: T, key: T -> int, k: int)
    ensures Class(Insert(sorted, x, key), key, k) == Class(sorted + [x], key, k)
  {
    if sorted != [] && key(sorted[|sorted| - 1]) > key(x) {
      var front, last := sorted[..|sorted| - 1], sorted[|sorted| - 1];
      InsertClass(front, x, key, k);
      ClassSnoc(front, x, key, k);
      ClassSnoc(Insert(front, x, key), last, key, k);
      ClassSnoc(sorted, x, key, k);
    }
  }

  /** The sort function is a stable sort. */
  lemma {:induction false} SortIsStable<T>(s: seq<T>, key: T -> int)
    ensures IsStableSort(s, Sort(s, key), key)
  {
    if s != [] {
      var front, last := s[..|s| - 1], s[|s| - 1];
      SortIsStable(front, key);
      InsertSorted(Sort(front, key), last, key);
      assert s == front + [last];
      forall k ensures Class(Sort(s, key), key, k) == Class(s, key, k) {
        InsertClass(Sort(front, key), last, key, k);
        ClassSnoc(Sort(front, key), last, key, k);
        ClassSnoc(front, last, key, k);
      }
    }
  }

  lemma {:induction false} SortMembers<T>(s: seq<T>, key: T -> int, y: T)
    ensures y in Sort(s, key) <==> y in s
  {
    if s != [] {
      SortMembers(s[..|s| - 1], key, y);
      InsertMembers(Sort(s[..|s| - 1], key), s[|s| - 1], key, y);
      assert s == s[..|s| - 1] + [s[|s| - 1]];
    }
  }

  /** There is only one stable sort: order and stability determine the result. */
  lemma {:induction false} StableSortIsUnique<T>(t: seq<T>, u: seq<T>, key: T -> int)
    requires SortedBy(t, key) && SortedBy(u, key)
    requires |t| == |u| && forall k :: Class(t, key, k) == Class(u, key, k)
    ensures t == u
    decreases |t|
  {
    if t != [] {
      var t', u' := t[..|t| - 1], u[..|u| - 1];
      var last := t[|t| - 1];
      LastsAgree(t, u, key);
      assert t == t' + [last] && u == u' + [last];
      forall k ensures Class(t', key, k) == Class(u', key, k) {
        ClassSnoc(t', last, key, k);
        ClassSnoc(u', last, key, k);
        Cancel(Class(t', key, k), Class(u', key, k), if key(last) == k then [last] else []);
      }
      StableSortIsUnique(t', u', key);
    }
  }

  lemma Cancel<T>(a: seq<T>, b: seq<T>, c: seq<T>)
    requires a + c == b + c
    ensures a == b
  {
    assert |a + c| == |b + c|;
    assert a == (a + c)[..|a|] && b == (b + c)[..|b|];
  }

  lemma LastsAgree<T>(t: seq<T>, u: seq<T>, key: T -> int)
    requires |t| == |u| > 0 && SortedBy(t, key) && SortedBy(u, key)
    requires forall k :: Class(t, key, k) == Class(u, key, k)
    ensures t[|t| - 1] == u[|u| - 1]
  {
    var x, y := t[|t| - 1], u[|u| - 1];
    LastClass(t, key, key(y));
    LastClass(u, key, key(x));
    LastClass(t, key, key(x));
    LastClass(u, key, key(y));
    assert Class(t, key, key(x)) == Class(u, key, key(x)) && Class(t, key, key(y)) == Class(u, key, key(y));
  }

  lemma LastClass<T>(t: seq<T>, key: T -> int, k: int)
    requires t != [] && SortedBy(t, key)
    ensures key(t[|t| - 1]) < k ==> Class(t, key, k) == []
    ensures key(t[|t| - 1]) == k ==> Class(t, key, k) != [] && Class(t, key, k)[|Class(t, key, k)| - 1] == t[|t| - 1]
  {
    if key(t[|t| - 1]) < k {
      ClassEmpty(t, key, k);
    }
  }

  /** Sorting what is already in order changes nothing. */
  lemma SortedIsFixed<T>(s: seq<T>, key: T -> int)
    requires SortedBy(s, key)
    ensures Sort(s, key) == s
  {
    SortIsStable(s, key);
    StableSortIsUnique(s, Sort(s, key), key);
  }
}
