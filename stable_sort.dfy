/** Python's `sorted(xs, key=k, reverse=True)` on integer keys: a stable
    sort into non-increasing key order, in which items with equal keys keep
    the order they had in `xs`. It is stated here as an insertion sort. */
module StableSort {

  /** `x` put in front of the first item of `s` whose key is not larger
      than its own: an item that came earlier stays ahead of equal keys. */
  function Insert<T>(x: T, s: seq<T>, key: T -> int): seq<T>
  {
    if s == [] || key(s[0]) <= key(x) then [x] + s
    else [s[0]] + Insert(x, s[1..], key)
  }

  /** The sorted list, built by inserting the head into the sorted tail. */
  function SortDesc<T>(s: seq<T>, key: T -> int): seq<T>
  {
    if s == [] then [] else Insert(s[0], SortDesc(s[1..], key), key)
  }

  predicate SortedDesc<T>(s: seq<T>, key: T -> int)
  {
    forall i, j :: 0 <= i < j < |s| ==> key(s[i]) >= key(s[j])
  }

  /** The items of `s` whose key is `k`, in the order of `s`. */
  function KeyFilter<T>(s: seq<T>, key: T -> int, k: int): seq<T>
  {
    if s == [] then []
    else (if key(s[0]) == k then [s[0]] else []) + KeyFilter(s[1..], key, k)
  }

  lemma {:induction false} InsertShape<T>(x: T, s: seq<T>, key: T -> int)
    ensures multiset(Insert(x, s, key)) == multiset([x] + s)
    ensures |Insert(x, s, key)| == |s| + 1
    ensures Insert(x, s, key)[0] == x || (s != [] && Insert(x, s, key)[0] == s[0])
  {
    if s != [] && key(s[0]) > key(x) {
      InsertShape(x, s[1..], key);
      assert s == [s[0]] + s[1..];
    }
  }

  lemma {:induction false} InsertSorted<T>(x: T, s: seq<T>, key: T -> int)
    requires SortedDesc(s, key)
    ensures SortedDesc(Insert(x, s, key), key)
  {
    if s != [] && key(s[0]) > key(x) {
      var t := Insert(x, s[1..], key);
      InsertSorted(x, s[1..], key);
      InsertShape(x, s[1..], key);
      forall j | 0 <= j < |t|
        ensures key(s[0]) >= key(t[j])
      {
        assert t[j] in multiset(t);
        assert t[j] in multiset([x] + s[1..]);
        assert t[j] == x || t[j] in s[1..];
      }
    }
  }

  /** The result is in non-increasing key order and holds the same items. */
  lemma {:induction false} SortDescSorted<T>(s: seq<T>, key: T -> int)
    ensures SortedDesc(SortDesc(s, key), key)
    ensures multiset(SortDesc(s, key)) == multiset(s)
  {
    if s != [] {
      SortDescSorted(s[1..], key);
      InsertSorted(s[0], SortDesc(s[1..], key), key);
      InsertShape(s[0], SortDesc(s[1..], key), key);
      assert s == [s[0]] + s[1..];
    }
  }

  /** Inserting `x` puts it ahead of every item with its key. */
  lemma {:induction false} InsertKeyFilter<T>(x: T, s: seq<T>, key: T -> int, k: int)
    ensures KeyFilter(Insert(x, s, key), key, k)
            == (if key(x) == k then [x] else []) + KeyFilter(s, key, k)
  {
    if s == [] || key(s[0]) <= key(x) {
      KeyFilterCons(x, s, key, k);
    } else {
      var t := Insert(x, s[1..], key);
      InsertKeyFilter(x, s[1..], key, k);
      KeyFilterCons(s[0], t, key, k);
      KeyFilterCons(s[0], s[1..], key, k);
      assert [s[0]] + s[1..] == s;
    }
  }

  lemma {:induction false} KeyFilterCons<T>(y: T, t: seq<T>, key: T -> int, k: int)
    ensures KeyFilter([y] + t, key, k) == (if key(y) == k then [y] else []) + KeyFilter(t, key, k)
  {
    assert ([y] + t)[0] == y;
    assert ([y] + t)[1..] == t;
  }

  /** Stability: for every key, the items with that key come out in the
      order in which they went in. */
  lemma {:induction false} SortDescStable<T>(s: seq<T>, key: T -> int, k: int)
    ensures KeyFilter(SortDesc(s, key), key, k) == KeyFilter(s, key, k)
  {
    if s != [] {
      SortDescStable(s[1..], key, k);
      InsertKeyFilter(s[0], SortDesc(s[1..], key), key, k);
    }
  }

  /** A list already in order comes back unchanged. */
  lemma {:induction false} SortedUnchanged<T>(s: seq<T>, key: T -> int)
    requires SortedDesc(s, key)
    ensures SortDesc(s, key) == s
  {
    if s != [] {
      assert SortedDesc(s[1..], key) by {
        forall i, j | 0 <= i < j < |s[1..]|
          ensures key(s[1..][i]) >= key(s[1..][j])
        {
          assert s[1..][i] == s[i + 1] && s[1..][j] == s[j + 1];
        }
      }
      SortedUnchanged(s[1..], key);
      assert s == [s[0]] + s[1..];
    }
  }
}
