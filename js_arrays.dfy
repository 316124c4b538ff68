/**
 The JavaScript array operations the chunk-id plugin relies on:
 `Array.prototype.filter`, `Array.prototype.sort` with a comparator (stable,
 as ECMAScript requires since its 2019 edition), and `slice` with a negative
 start.
 */
module JsArrays {

  /** `s.filter(p)`: the elements satisfying `p`, in their original order. */
  function Filter<T(!new)>(s: seq<T>, p: T -> bool): (r: seq<T>)
    ensures |r| <= |s|
    ensures forall x :: x in r <==> x in s && p(x)
    ensures forall i :: 0 <= i < |r| ==> p(r[i])
    decreases |s|
  {
    if s == [] then []
    else if p(s[0]) then [s[0]] + Filter(s[1..], p)
    else Filter(s[1..], p)
  }

  /** `filter` keeps the order: filtering a concatenation concatenates the filtered parts. */
  lemma {:induction false} FilterAppend<T(!new)>(s1: seq<T>, s2: seq<T>, p: T -> bool)
    ensures Filter(s1 + s2, p) == Filter(s1, p) + Filter(s2, p)
    decreases |s1|
  {
    if s1 == [] {
      assert s1 + s2 == s2;
    } else {
      assert (s1 + s2)[0] == s1[0];
      assert (s1 + s2)[1..] == s1[1..] + s2;
      FilterAppend(s1[1..], s2, p);
    }
  }

  /** `filter` keeps a single element exactly when it satisfies the predicate. */
  lemma FilterSingleton<T(!new)>(x: T, p: T -> bool)
    ensures Filter([x], p) == if p(x) then [x] else []
  {
  }

  /** `s` is in non-decreasing order of `key`. */
  predicate SortedByKey<T>(s: seq<T>, key: T -> int) {
    forall i, j :: 0 <= i < j < |s| ==> key(s[i]) <= key(s[j])
  }

  /** `cmp` is the comparator `(a, b) => key(a) - key(b)` as far as the sort can tell. */
  ghost predicate ComparesBy<T(!new)>(cmp: (T, T) -> int, key: T -> int) {
    forall a, b :: cmp(a, b) <= 0 <==> key(a) <= key(b)
  }

  /** Puts `x` in front of the first element it does not compare above. */
  function Insert<T>(x: T, s: seq<T>, cmp: (T, T) -> int): (r: seq<T>)
    ensures multiset(r) == multiset(s) + multiset{x}
    decreases |s|
  {
    if s == [] || cmp(x, s[0]) <= 0 then [x] + s
    else
      assert s == [s[0]] + s[1..];
      [s[0]] + Insert(x, s[1..], cmp)
  }

  /**
   `s.sort(cmp)`, as a stable sort (ECMAScript 2019 and later). For a
   comparator that orders by a key the result is then unique: elements in key
   order, ties in their original order. Insertion from the back produces
   exactly that.
   */
  function StableSort<T>(s: seq<T>, cmp: (T, T) -> int): (r: seq<T>)
    ensures multiset(r) == multiset(s)
    ensures |r| == |s|
    decreases |s|
  {
    if s == [] then []
    else
      assert s == [s[0]] + s[1..];
      Insert(s[0], StableSort(s[1..], cmp), cmp)
  }

  lemma {:induction false} InsertSorted<T(!new)>(x: T, s: seq<T>, cmp: (T, T) -> int, key: T -> int)
    requires ComparesBy(cmp, key) && SortedByKey(s, key)
    ensures SortedByKey(Insert(x, s, cmp), key)
    decreases |s|
  {
    if s != [] && cmp(x, s[0]) > 0 {
      InsertSorted(x, s[1..], cmp, key);
      var t := Insert(x, s[1..], cmp);
      assert forall y :: y in t ==> key(s[0]) <= key(y) by {
        forall y | y in t ensures key(s[0]) <= key(y) {
          assert y in multiset(t);
          assert y == x || y in multiset(s[1..]);
        }
      }
    }
  }

  /** The stable sort orders the elements by key. */
  lemma {:induction false} StableSortSorted<T(!new)>(s: seq<T>, cmp: (T, T) -> int, key: T -> int)
    requires ComparesBy(cmp, key)
    ensures SortedByKey(StableSort(s, cmp), key)
    decreases |s|
  {
    if s != [] {
      StableSortSorted(s[1..], cmp, key);
      InsertSorted(s[0], StableSort(s[1..], cmp), cmp, key);
    }
  }

  /** A comparator that declares every pair equal leaves the order untouched. */
  lemma {:induction false} StableSortAllEqual<T(!new)>(s: seq<T>, cmp: (T, T) -> int)
    requires forall a, b :: cmp(a, b) == 0
    ensures StableSort(s, cmp) == s
    decreases |s|
  {
    if s != [] {
      StableSortAllEqual(s[1..], cmp);
      assert [s[0]] + s[1..] == s;
    }
  }

  lemma {:induction false} FilterInsert<T(!new)>(x: T, s: seq<T>, cmp: (T, T) -> int, key: T -> int, p: T -> bool)
    requires ComparesBy(cmp, key) && SortedByKey(s, key)
    ensures Filter(Insert(x, s, cmp), p) == if p(x) then Insert(x, Filter(s, p), cmp) else Filter(s, p)
    decreases |s|
  {
    var f := Filter(s, p);
    if s == [] {
    } else if cmp(x, s[0]) <= 0 {
      assert ([x] + s)[1..] == s;
      if p(x) && f != [] {
        assert f[0] in s;
        assert key(x) <= key(f[0]);
      }
    } else {
      var t := Insert(x, s[1..], cmp);
      assert ([s[0]] + t)[1..] == t;
      FilterInsert(x, s[1..], cmp, key, p);
    }
  }

  /** Filtering after a stable sort gives the same as filtering first and sorting the survivors. */
  lemma {:induction false} FilterStableSort<T(!new)>(s: seq<T>, cmp: (T, T) -> int, key: T -> int, p: T -> bool)
    requires ComparesBy(cmp, key)
    ensures Filter(StableSort(s, cmp), p) == StableSort(Filter(s, p), cmp)
    decreases |s|
  {
    if s != [] {
      StableSortSorted(s[1..], cmp, key);
      FilterInsert(s[0], StableSort(s[1..], cmp), cmp, key, p);
      FilterStableSort(s[1..], cmp, key, p);
    }
  }

  /** The position of the leftmost element of least key: the reference for "the first after a stable sort". */
  function FirstMinimalIndex<T>(s: seq<T>, key: T -> int): (i: nat)
    requires |s| > 0
    ensures i < |s|
    ensures forall j :: 0 <= j < |s| ==> key(s[i]) <= key(s[j])
    ensures forall j :: 0 <= j < i ==> key(s[i]) < key(s[j])
    decreases |s|
  {
    if |s| == 1 then 0
    else
      var k := FirstMinimalIndex(s[1..], key) + 1;
      if key(s[0]) <= key(s[k]) then 0 else k
  }

  /** The head of the stable sort is the leftmost element of least key. */
  lemma {:induction false} StableSortHead<T(!new)>(s: seq<T>, cmp: (T, T) -> int, key: T -> int)
    requires ComparesBy(cmp, key) && |s| > 0
    ensures StableSort(s, cmp)[0] == s[FirstMinimalIndex(s, key)]
    decreases |s|
  {
    if |s| > 1 {
      StableSortHead(s[1..], cmp, key);
    }
  }

  /** `s.slice(-n)`: the last `n` elements, or all of them when there are fewer. */
  function SliceFromEnd<T>(s: seq<T>, n: nat): (r: seq<T>)
    ensures |r| == if |s| < n then |s| else n
    ensures r == s[|s| - |r|..]
  {
    if |s| < n then s else s[|s| - n..]
  }
}
