/**
 * Python's `sorted(s, key=key)`: a stable sort that compares keys with `<`.
 * It is modelled as insertion sort, which puts every element after all
 * earlier elements whose key is not greater; the ensures of `SortBy` state
 * the three facts that pin its result down: a permutation, in key order,
 * and stable (elements with equal keys keep their relative order).
 */
module Sorting {

  import opened Collections

  /** `less` is Python's `<` on the key type: irreflexive, transitive and total. */
  ghost predicate StrictTotalOrder<K(!new)>(less: (K, K) -> bool) {
    && (forall a :: !less(a, a))
    && (forall a, b, c :: less(a, b) && less(b, c) ==> less(a, c))
    && (forall a, b :: a != b ==> less(a, b) || less(b, a))
  }

  /** No later element has a smaller key than an earlier one. */
  predicate SortedBy<T, K>(s: seq<T>, key: T -> K, less: (K, K) -> bool) {
    forall i, j :: 0 <= i < j < |s| ==> !less(key(s[j]), key(s[i]))
  }

  /** The elements of `s` whose key is `k`, in their order in `s`. */
  function KeyFilter<T, K(==)>(s: seq<T>, key: T -> K, k: K): seq<T>
    decreases |s|
  {
    if |s| == 0 then []
    else (if key(s[0]) == k then [s[0]] else []) + KeyFilter(s[1..], key, k)
  }

  /** Insert `x` before the first element whose key is greater than its own. */
  function InsertBy<T, K>(x: T, s: seq<T>, key: T -> K, less: (K, K) -> bool): seq<T>
    decreases |s|
  {
    if |s| == 0 then [x]
    else if less(key(x), key(s[0])) then [x] + s
    else [s[0]] + InsertBy(x, s[1..], key, less)
  }

  /** Insertion sort: each element in turn is inserted into the sorted front. */
  function InsertionSort<T, K>(s: seq<T>, key: T -> K, less: (K, K) -> bool): seq<T>
    decreases |s|
  {
    if |s| == 0 then [] else InsertBy(s[|s| - 1], InsertionSort(s[..|s| - 1], key, less), key, less)
  }

  /** `sorted(s, key=key)`. */
  function SortBy<T(==), K(==, !new)>(s: seq<T>, key: T -> K, less: (K, K) -> bool): (r: seq<T>)
    requires StrictTotalOrder(less)
    ensures multiset(r) == multiset(s) && |r| == |s|
    ensures SortedBy(r, key, less)
    ensures forall k :: KeyFilter(r, key, k) == KeyFilter(s, key, k)
  {
    InsertionSortFacts(s, key, less);
    InsertionSort(s, key, less)
  }

  /** Insertion sort permutes, sorts and is stable. */
  lemma {:induction false} InsertionSortFacts<T, K(!new)>(s: seq<T>, key: T -> K, less: (K, K) -> bool)
    requires StrictTotalOrder(less)
    ensures multiset(InsertionSort(s, key, less)) == multiset(s) && |InsertionSort(s, key, less)| == |s|
    ensures SortedBy(InsertionSort(s, key, less), key, less)
    ensures forall k :: KeyFilter(InsertionSort(s, key, less), key, k) == KeyFilter(s, key, k)
    decreases |s|
  {
    if |s| > 0 {
      var q := InsertionSort(s[..|s| - 1], key, less);
      InsertionSortFacts(s[..|s| - 1], key, less);
      InsertStep(s, q, InsertionSort(s, key, less), key, less);
    }
  }

  /** Inserting the last element into the sorted front keeps the three facts `SortBy` promises. */
  lemma InsertStep<T, K(!new)>(s: seq<T>, q: seq<T>, r: seq<T>, key: T -> K, less: (K, K) -> bool)
    requires StrictTotalOrder(less) && |s| > 0
    requires multiset(q) == multiset(s[..|s| - 1]) && SortedBy(q, key, less)
    requires forall k :: KeyFilter(q, key, k) == KeyFilter(s[..|s| - 1], key, k)
    requires r == InsertBy(s[|s| - 1], q, key, less)
    ensures multiset(r) == multiset(s) && |r| == |s|
    ensures SortedBy(r, key, less)
    ensures forall k :: KeyFilter(r, key, k) == KeyFilter(s, key, k)
  {
    var p, x := s[..|s| - 1], s[|s| - 1];
    LastSplit(s);
    InsertStepPermutes(s, p, x, q, r, key, less);
    InsertBySorted(x, q, key, less);
    InsertStepStable(s, p, x, q, r, key, less);
  }

  lemma LastSplit<T>(s: seq<T>)
    requires |s| > 0
    ensures s == s[..|s| - 1] + [s[|s| - 1]]
  {
  }

  lemma InsertStepPermutes<T, K>(s: seq<T>, p: seq<T>, x: T, q: seq<T>, r: seq<T>, key: T -> K, less: (K, K) -> bool)
    requires s == p + [x] && multiset(q) == multiset(p)
    requires r == InsertBy(x, q, key, less)
    ensures multiset(r) == multiset(s) && |r| == |s|
  {
    InsertByPermutes(x, q, key, less);
    assert multiset(s) == multiset(p) + multiset{x};
    assert |r| == |multiset(r)| == |multiset(s)| == |s|;
  }

  lemma InsertStepStable<T, K(!new)>(s: seq<T>, p: seq<T>, x: T, q: seq<T>, r: seq<T>, key: T -> K, less: (K, K) -> bool)
    requires StrictTotalOrder(less) && SortedBy(q, key, less)
    requires s == p + [x] && forall k :: KeyFilter(q, key, k) == KeyFilter(p, key, k)
    requires r == InsertBy(x, q, key, less)
    ensures forall k :: KeyFilter(r, key, k) == KeyFilter(s, key, k)
  {
    InsertByStable(x, q, key, less);
    SortByStep(s, p, x, q, key);
  }

  lemma SortByStep<T, K>(s: seq<T>, p: seq<T>, x: T, q: seq<T>, key: T -> K)
    requires s == p + [x]
    requires forall k :: KeyFilter(q, key, k) == KeyFilter(p, key, k)
    ensures multiset(s) == multiset(p) + multiset{x}
    ensures forall k :: KeyFilter(s, key, k) == KeyFilter(q, key, k) + KeyFilter([x], key, k)
  {
    forall k ensures KeyFilter(s, key, k) == KeyFilter(q, key, k) + KeyFilter([x], key, k) {
      KeyFilterConcat(p, [x], key, k);
    }
  }

  lemma {:induction false} KeyFilterConcat<T, K>(a: seq<T>, b: seq<T>, key: T -> K, k: K)
    ensures KeyFilter(a + b, key, k) == KeyFilter(a, key, k) + KeyFilter(b, key, k)
    decreases |a|
  {
    if |a| > 0 {
      KeyFilterConcat(a[1..], b, key, k);
      assert (a + b)[1..] == a[1..] + b;
      assert (a + b)[0] == a[0];
      var h := if key(a[0]) == k then [a[0]] else [];
      calc {
        KeyFilter(a + b, key, k);
        h + KeyFilter(a[1..] + b, key, k);
        h + (KeyFilter(a[1..], key, k) + KeyFilter(b, key, k));
        (h + KeyFilter(a[1..], key, k)) + KeyFilter(b, key, k);
      }
    } else {
      assert a + b == b;
    }
  }

  lemma {:induction false} KeyFilterNone<T, K>(s: seq<T>, key: T -> K, k: K)
    requires forall i :: 0 <= i < |s| ==> key(s[i]) != k
    ensures KeyFilter(s, key, k) == []
    decreases |s|
  {
    if |s| > 0 {
      KeyFilterNone(s[1..], key, k);
    }
  }

  lemma {:induction false} InsertByPermutes<T, K>(x: T, s: seq<T>, key: T -> K, less: (K, K) -> bool)
    ensures multiset(InsertBy(x, s, key, less)) == multiset(s) + multiset{x}
    decreases |s|
  {
    if |s| > 0 && !less(key(x), key(s[0])) {
      InsertByPermutes(x, s[1..], key, less);
      assert s == [s[0]] + s[1..];
    }
  }

  /** Inserting into a sorted sequence keeps it sorted. */
  lemma {:induction false} InsertBySorted<T, K(!new)>(x: T, s: seq<T>, key: T -> K, less: (K, K) -> bool)
    requires StrictTotalOrder(less)
    requires SortedBy(s, key, less)
    ensures SortedBy(InsertBy(x, s, key, less), key, less)
    decreases |s|
  {
    if |s| == 0 {
    } else if less(key(x), key(s[0])) {
      forall j | 0 <= j < |s| ensures !less(key(s[j]), key(x)) {
        if j > 0 {
          assert !less(key(s[j]), key(s[0]));
        }
      }
    } else {
      var t := InsertBy(x, s[1..], key, less);
      InsertBySorted(x, s[1..], key, less);
      InsertByPermutes(x, s[1..], key, less);
      forall j | 0 <= j < |t| ensures !less(key(t[j]), key(s[0])) {
        assert t[j] in multiset(t);
        if t[j] != x {
          assert t[j] in multiset(s[1..]);
          var m :| 0 <= m < |s[1..]| && s[1..][m] == t[j];
          assert s[m + 1] == t[j];
        }
      }
    }
  }

  /** An inserted element lands after every element with an equal key. */
  lemma {:induction false} InsertByStable<T, K(!new)>(x: T, s: seq<T>, key: T -> K, less: (K, K) -> bool)
    requires StrictTotalOrder(less)
    requires SortedBy(s, key, less)
    ensures forall k :: KeyFilter(InsertBy(x, s, key, less), key, k)
                        == KeyFilter(s, key, k) + KeyFilter([x], key, k)
    decreases |s|
  {
    if |s| == 0 {
    } else if less(key(x), key(s[0])) {
      assert InsertBy(x, s, key, less) == [x] + s;
      InsertFrontStable(x, s, key, less);
    } else {
      var t := InsertBy(x, s[1..], key, less);
      InsertByStable(x, s[1..], key, less);
      assert InsertBy(x, s, key, less) == [s[0]] + t;
      InsertBehindStable(x, s, t, key);
    }
  }

  /** `x` goes in front when its key is below the first, hence below all, keys of `s`. */
  lemma InsertFrontStable<T, K(!new)>(x: T, s: seq<T>, key: T -> K, less: (K, K) -> bool)
    requires StrictTotalOrder(less)
    requires SortedBy(s, key, less) && |s| > 0 && less(key(x), key(s[0]))
    ensures forall k :: KeyFilter([x] + s, key, k) == KeyFilter(s, key, k) + KeyFilter([x], key, k)
  {
    forall k ensures KeyFilter([x] + s, key, k) == KeyFilter(s, key, k) + KeyFilter([x], key, k) {
      KeyFilterConcat([x], s, key, k);
      if key(x) == k {
        forall i | 0 <= i < |s| ensures key(s[i]) != k {
          assert !less(key(s[i]), key(s[0]));
        }
        KeyFilterNone(s, key, k);
      }
    }
  }

  /** `x` goes behind the first element when it was placed among the rest. */
  lemma InsertBehindStable<T, K>(x: T, s: seq<T>, t: seq<T>, key: T -> K)
    requires |s| > 0
    requires forall k :: KeyFilter(t, key, k) == KeyFilter(s[1..], key, k) + KeyFilter([x], key, k)
    ensures forall k :: KeyFilter([s[0]] + t, key, k) == KeyFilter(s, key, k) + KeyFilter([x], key, k)
  {
    forall k ensures KeyFilter([s[0]] + t, key, k) == KeyFilter(s, key, k) + KeyFilter([x], key, k) {
      var h := if key(s[0]) == k then [s[0]] else [];
      assert ([s[0]] + t)[1..] == t;
      assert KeyFilter([s[0]] + t, key, k) == h + KeyFilter(t, key, k);
      assert KeyFilter(s, key, k) == h + KeyFilter(s[1..], key, k);
      assert h + (KeyFilter(s[1..], key, k) + KeyFilter([x], key, k)) == (h + KeyFilter(s[1..], key, k)) + KeyFilter([x], key, k);
    }
  }

  lemma InsertByBehind<T, K(!new)>(x: T, y: T, q: seq<T>, key: T -> K, less: (K, K) -> bool)
    requires StrictTotalOrder(less) && less(key(x), key(y))
    ensures InsertBy(y, [x] + q, key, less) == [x] + InsertBy(y, q, key, less)
  {
    assert !less(key(y), key(x));
    assert ([x] + q)[1..] == q;
  }

  /** A sequence already sorted by the key comes out of the sort unchanged. */
  lemma SortBySorted<T, K(!new)>(s: seq<T>, key: T -> K, less: (K, K) -> bool)
    requires StrictTotalOrder(less) && SortedBy(s, key, less)
    ensures SortBy(s, key, less) == s
  {
    InsertionSortSorted(s, key, less);
  }

  lemma {:induction false} InsertionSortSorted<T, K>(s: seq<T>, key: T -> K, less: (K, K) -> bool)
    requires SortedBy(s, key, less)
    ensures InsertionSort(s, key, less) == s
    decreases |s|
  {
    if |s| > 0 {
      var n := |s| - 1;
      var p := s[..n];
      assert SortedBy(p, key, less);
      InsertionSortSorted(p, key, less);
      InsertByLast(s[n], p, key, less);
      LastSplit(s);
    }
  }

  /** An element no earlier key exceeds goes to the back. */
  lemma {:induction false} InsertByLast<T, K>(x: T, q: seq<T>, key: T -> K, less: (K, K) -> bool)
    requires forall i :: 0 <= i < |q| ==> !less(key(x), key(q[i]))
    ensures InsertBy(x, q, key, less) == q + [x]
    decreases |q|
  {
    if |q| > 0 {
      InsertByLast(x, q[1..], key, less);
      assert q == [q[0]] + q[1..];
    }
  }

  /** An element whose key is below every other key stays in front. */
  lemma SortByMinFirst<T, K(!new)>(x: T, s: seq<T>, key: T -> K, less: (K, K) -> bool)
    requires StrictTotalOrder(less)
    requires forall i :: 0 <= i < |s| ==> less(key(x), key(s[i]))
    ensures SortBy([x] + s, key, less) == [x] + SortBy(s, key, less)
  {
    InsertionSortMinFirst(x, s, key, less);
  }

  lemma {:induction false} InsertionSortMinFirst<T, K(!new)>(x: T, s: seq<T>, key: T -> K, less: (K, K) -> bool)
    requires StrictTotalOrder(less)
    requires forall i :: 0 <= i < |s| ==> less(key(x), key(s[i]))
    ensures InsertionSort([x] + s, key, less) == [x] + InsertionSort(s, key, less)
    decreases |s|
  {
    if |s| > 0 {
      var n := |s| - 1;
      var xs := [x] + s;
      assert xs[..n + 1] == [x] + s[..n] && xs[n + 1] == s[n];
      InsertionSortMinFirst(x, s[..n], key, less);
      InsertByBehind(x, s[n], InsertionSort(s[..n], key, less), key, less);
    }
  }

  lemma {:induction false} InsertByMap<T, U, K>(g: T -> U, x: T, q: seq<T>, key: T -> K, gkey: U -> K, less: (K, K) -> bool)
    requires gkey(g(x)) == key(x)
    requires forall i :: 0 <= i < |q| ==> gkey(g(q[i])) == key(q[i])
    ensures InsertBy(g(x), MapSeq(g, q), gkey, less) == MapSeq(g, InsertBy(x, q, key, less))
    decreases |q|
  {
    if |q| > 0 && !less(key(x), key(q[0])) {
      assert MapSeq(g, q)[1..] == MapSeq(g, q[1..]);
      InsertByMap(g, x, q[1..], key, gkey, less);
      assert MapSeq(g, [q[0]] + InsertBy(x, q[1..], key, less)) == [g(q[0])] + MapSeq(g, InsertBy(x, q[1..], key, less));
    }
  }

  /** Sorting commutes with a map that keeps every key. */
  lemma SortByMap<T, U, K(!new)>(g: T -> U, s: seq<T>, key: T -> K, gkey: U -> K, less: (K, K) -> bool)
    requires StrictTotalOrder(less)
    requires forall i :: 0 <= i < |s| ==> gkey(g(s[i])) == key(s[i])
    ensures SortBy(MapSeq(g, s), gkey, less) == MapSeq(g, SortBy(s, key, less))
  {
    InsertionSortMap(g, s, key, gkey, less);
  }

  lemma {:induction false} InsertionSortMap<T, U, K(!new)>(g: T -> U, s: seq<T>, key: T -> K, gkey: U -> K, less: (K, K) -> bool)
    requires StrictTotalOrder(less)
    requires forall i :: 0 <= i < |s| ==> gkey(g(s[i])) == key(s[i])
    ensures InsertionSort(MapSeq(g, s), gkey, less) == MapSeq(g, InsertionSort(s, key, less))
    decreases |s|
  {
    if |s| > 0 {
      var n := |s| - 1;
      assert MapSeq(g, s)[..n] == MapSeq(g, s[..n]);
      InsertionSortMap(g, s[..n], key, gkey, less);
      var q := InsertionSort(s[..n], key, less);
      InsertionSortFacts(s[..n], key, less);
      forall i | 0 <= i < |q|
        ensures gkey(g(q[i])) == key(q[i])
      {
        assert q[i] in multiset(s[..n]);
        var j :| 0 <= j < n && s[..n][j] == q[i];
      }
      InsertByMap(g, s[n], q, key, gkey, less);
    }
  }

  /** Reversal, for `reversed(...)`. */
  function Reverse<T>(s: seq<T>): (r: seq<T>)
    ensures |r| == |s|
    ensures forall i :: 0 <= i < |s| ==> r[i] == s[|s| - 1 - i]
    decreases |s|
  {
    if |s| == 0 then [] else Reverse(s[1..]) + [s[0]]
  }

  lemma {:induction false} ReversePermutes<T>(s: seq<T>)
    ensures multiset(Reverse(s)) == multiset(s)
    decreases |s|
  {
    if |s| > 0 {
      ReversePermutes(s[1..]);
      assert s == [s[0]] + s[1..];
    }
  }

  /** Reversing a sorted sequence puts every key at or above every later one. */
  lemma ReverseSorted<T, K>(s: seq<T>, key: T -> K, less: (K, K) -> bool)
    requires SortedBy(s, key, less)
    ensures forall i, j :: 0 <= i < j < |Reverse(s)| ==> !less(key(Reverse(s)[i]), key(Reverse(s)[j]))
  {
    var r := Reverse(s);
    forall i, j | 0 <= i < j < |r|
      ensures !less(key(r[i]), key(r[j]))
    {
      assert r[i] == s[|s| - 1 - i] && r[j] == s[|s| - 1 - j];
    }
  }
}
