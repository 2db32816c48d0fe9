/**
 * Sequence facts shared by the partitioner (Python's `Counter`) and the
 * complex merger: first-occurrence deduplication, occurrence counts and
 * sums grouped by key.
 */
module Collections {

  predicate Distinct<T(==)>(s: seq<T>) {
    forall i, j :: 0 <= i < j < |s| ==> s[i] != s[j]
  }

  /** Number of occurrences of `x` in `s`. */
  function Count<T(==)>(s: seq<T>, x: T): nat
    decreases |s|
  {
    if |s| == 0 then 0
    else Count(s[..|s| - 1], x) + (if s[|s| - 1] == x then 1 else 0)
  }

  /** Position of the first occurrence of `x` in `s`. */
  function IndexOf<T(==)>(s: seq<T>, x: T): (i: nat)
    requires x in s
    ensures i < |s| && s[i] == x
    ensures forall j :: 0 <= j < i ==> s[j] != x
    decreases |s|
  {
    if s[0] == x then 0 else 1 + IndexOf(s[1..], x)
  }

  /**
   * The distinct elements of `s` in the order of their first occurrence,
   * built the way a dict keyed by the elements is filled.
   */
  function Dedup<T(==)>(s: seq<T>): (d: seq<T>)
    ensures Distinct(d)
    decreases |s|
  {
    if |s| == 0 then []
    else
      var d := Dedup(s[..|s| - 1]);
      var x := s[|s| - 1];
      assert forall i :: 0 <= i < |s| - 1 ==> s[i] == s[..|s| - 1][i];
      if x in d then d else d + [x]
  }

  /** `Dedup` keeps exactly the elements of its input. */
  lemma {:induction false} DedupMembers<T>(s: seq<T>)
    ensures forall x :: x in Dedup(s) <==> x in s
    ensures forall i :: 0 <= i < |s| ==> s[i] in Dedup(s)
    ensures forall i :: 0 <= i < |Dedup(s)| ==> Dedup(s)[i] in s
    decreases |s|
  {
    if |s| > 0 {
      var n := |s| - 1;
      DedupMembers(s[..n]);
      assert s == s[..n] + [s[n]];
    }
  }

  lemma IndexOfAppend<T>(s: seq<T>, y: T, x: T)
    requires x in s
    ensures IndexOf(s + [y], x) == IndexOf(s, x)
  {
    var i := IndexOf(s, x);
    assert (s + [y])[i] == x;
    assert forall j :: 0 <= j < i ==> (s + [y])[j] != x;
  }

  /** The first position of an element is its position in `Dedup`'s order. */
  lemma {:induction false} DedupFirstOccurrenceOrder<T>(s: seq<T>)
    ensures forall i, j :: 0 <= i < j < |Dedup(s)| ==>
      Dedup(s)[i] in s && Dedup(s)[j] in s && IndexOf(s, Dedup(s)[i]) < IndexOf(s, Dedup(s)[j])
    decreases |s|
  {
    if |s| > 0 {
      var p := s[..|s| - 1];
      var x := s[|s| - 1];
      LastOf(s);
      DedupFirstOccurrenceOrder(p);
      DedupMembers(p);
      DedupStep(p, x, Dedup(p));
      FirstOrderStep(p, x, s, Dedup(p), Dedup(s));
    } else {
      assert Dedup(s) == [];
    }
  }

  lemma PrefixStep<T>(s: seq<T>, i: nat)
    requires i < |s|
    ensures s[..i + 1] == s[..i] + [s[i]]
  {
  }

  lemma LastOf<T>(s: seq<T>)
    requires |s| > 0
    ensures s == s[..|s| - 1] + [s[|s| - 1]]
  {
  }

  /** Appending `x` keeps the pieces of a deduplication in order of first occurrence. */
  lemma FirstOrderStep<T>(p: seq<T>, x: T, s: seq<T>, d: seq<T>, e: seq<T>)
    requires s == p + [x]
    requires forall i :: 0 <= i < |d| ==> d[i] in p
    requires forall y :: y in d <==> y in p
    requires forall i, j :: 0 <= i < j < |d| ==> IndexOf(p, d[i]) < IndexOf(p, d[j])
    requires x in d ==> e == d
    requires x !in d ==> e == d + [x]
    ensures forall i, j :: 0 <= i < j < |e| ==> e[i] in s && e[j] in s && IndexOf(s, e[i]) < IndexOf(s, e[j])
  {
    forall k | 0 <= k < |d|
      ensures IndexOf(s, d[k]) == IndexOf(p, d[k])
    {
      IndexOfAppend(p, x, d[k]);
    }
    if x !in d {
      assert s[|p|] == x;
      assert IndexOf(s, x) == |p|;
    }
  }

  /** `Dedup(a)` is a prefix of `Dedup(a + b)`: earlier elements keep their places. */
  lemma {:induction false} DedupPrefix<T>(a: seq<T>, b: seq<T>)
    ensures |Dedup(a)| <= |Dedup(a + b)|
    ensures Dedup(a + b)[..|Dedup(a)|] == Dedup(a)
    decreases |b|
  {
    if |b| == 0 {
      assert a + b == a;
    } else {
      var b' := b[..|b| - 1];
      DedupPrefix(a, b');
      assert (a + b)[..|a + b| - 1] == a + b';
    }
  }

  /** Appending an element already seen leaves `Dedup` unchanged. */
  lemma DedupAppendSeen<T>(s: seq<T>, x: T)
    requires x in s
    ensures Dedup(s + [x]) == Dedup(s)
  {
    assert (s + [x])[..|s|] == s;
    DedupMembers(s);
  }

  /** Appending a new element adds it at the end of `Dedup`. */
  lemma DedupAppendNew<T>(s: seq<T>, x: T)
    requires x !in s
    ensures Dedup(s + [x]) == Dedup(s) + [x]
  {
    assert (s + [x])[..|s|] == s;
    DedupMembers(s);
  }

  /** One more element extends the deduplicated sequence exactly when it is new. */
  lemma DedupStep<T>(s: seq<T>, x: T, q: seq<T>)
    requires q == Dedup(s)
    ensures x in q ==> Dedup(s + [x]) == q
    ensures x !in q ==> Dedup(s + [x]) == q + [x]
  {
    DedupMembers(s);
    if x in q {
      DedupAppendSeen(s, x);
    } else {
      DedupAppendNew(s, x);
    }
  }

  lemma {:induction false} DistinctCardinality<T>(s: seq<T>)
    requires Distinct(s)
    ensures |set x | x in s| == |s|
    decreases |s|
  {
    if |s| > 0 {
      var p := s[..|s| - 1];
      DistinctCardinality(p);
      assert (set x | x in s) == (set x | x in p) + {s[|s| - 1]} by {
        assert s == p + [s[|s| - 1]];
      }
    }
  }

  /** `Dedup(s)` has as many elements as `s` has distinct values. */
  lemma DedupCardinality<T>(s: seq<T>)
    ensures |Dedup(s)| == |set x | x in s|
  {
    DistinctCardinality(Dedup(s));
    DedupMembers(s);
    assert (set x | x in Dedup(s)) == (set x | x in s);
  }

  /** The numbers below `m`. */
  function Below(m: nat): (r: set<nat>)
    ensures forall j: nat :: j in r <==> j < m
    ensures |r| == m
    decreases m
  {
    if m == 0 then {} else Below(m - 1) + {m - 1}
  }

  /**
   * Distinct numbers below `m` are at most `m` many, and when there are
   * exactly `m` of them every number below `m` is among them.
   */
  lemma DistinctBelow(s: seq<nat>, m: nat)
    requires Distinct(s)
    requires forall i :: 0 <= i < |s| ==> s[i] < m
    ensures |s| <= m
    ensures |s| == m ==> forall j :: 0 <= j < m ==> j in s
  {
    var present := set x | x in s;
    DistinctCardinality(s);
    assert present <= Below(m);
    SubsetCardinality(present, Below(m));
    if |s| == m {
      forall j | 0 <= j < m
        ensures j in s
      {
        assert j in Below(m);
      }
    }
  }

  /** A subset is no larger, and a subset as large is the whole set. */
  lemma SubsetCardinality<T>(a: set<T>, b: set<T>)
    requires a <= b
    ensures |a| <= |b|
    ensures |a| == |b| ==> a == b
  {
    var rest := b - a;
    assert b == a + rest && a * rest == {};
    assert |b| == |a| + |rest|;
    if |a| == |b| {
      assert rest == {};
    }
  }

  lemma {:induction false} CountPositive<T>(s: seq<T>, x: T)
    ensures Count(s, x) > 0 <==> x in s
    decreases |s|
  {
    if |s| > 0 {
      CountPositive(s[..|s| - 1], x);
      assert s == s[..|s| - 1] + [s[|s| - 1]];
    }
  }

  lemma {:induction false} CountConcat<T>(a: seq<T>, b: seq<T>, x: T)
    ensures Count(a + b, x) == Count(a, x) + Count(b, x)
    decreases |b|
  {
    if |b| == 0 {
      assert a + b == a;
    } else {
      CountConcat(a, b[..|b| - 1], x);
      assert (a + b)[..|a + b| - 1] == a + b[..|b| - 1];
    }
  }

  /**
   * Two sequences of equal length whose positions are equal in the same
   * pairs have matching counts: `s[i]` occurs in a prefix of `s` as often
   * as `t[i]` occurs in the same prefix of `t`.
   */
  lemma {:induction false} CountPattern<T, U>(s: seq<T>, t: seq<U>, i: nat, n: nat)
    requires |s| == |t| && i < |s| && n <= |s|
    requires forall p, q :: 0 <= p < |s| && 0 <= q < |s| ==> (s[p] == s[q] <==> t[p] == t[q])
    ensures Count(s[..n], s[i]) == Count(t[..n], t[i])
    decreases n
  {
    if n > 0 {
      CountPattern(s, t, i, n - 1);
      assert s[..n][..n - 1] == s[..n - 1];
      assert t[..n][..n - 1] == t[..n - 1];
    }
  }

  /** A count every value of `t` has is had by every value of `s` when the two have the same pattern. */
  lemma CountsCarry<T, U>(s: seq<T>, t: seq<U>, k: nat)
    requires |s| == |t|
    requires forall p, q :: 0 <= p < |s| && 0 <= q < |s| ==> (s[p] == s[q] <==> t[p] == t[q])
    requires forall b :: b in t ==> Count(t, b) == k
    ensures forall a :: a in s ==> Count(s, a) == k
  {
    forall a | a in s
      ensures Count(s, a) == k
    {
      var i :| 0 <= i < |s| && s[i] == a;
      CountPattern(s, t, i, |s|);
      assert s[..|s|] == s && t[..|s|] == t;
    }
  }

  function MapSeq<T, U>(g: T -> U, s: seq<T>): (r: seq<U>)
    ensures |r| == |s| && forall i :: 0 <= i < |s| ==> r[i] == g(s[i])
  {
    seq(|s|, i requires 0 <= i < |s| => g(s[i]))
  }

  lemma MapSeqConcat<T, U>(g: T -> U, a: seq<T>, b: seq<T>)
    ensures MapSeq(g, a + b) == MapSeq(g, a) + MapSeq(g, b)
  {
  }

  /** In a sequence without repetitions the first occurrence of `s[k]` is `k`. */
  lemma IndexOfDistinct<T>(s: seq<T>, k: nat)
    requires Distinct(s) && k < |s|
    ensures IndexOf(s, s[k]) == k
  {
  }

  /** Looking up an element of a prefix gives the same position in the whole. */
  lemma IndexOfPrefix<T>(s: seq<T>, t: seq<T>, x: T)
    requires |s| <= |t| && t[..|s|] == s && x in s
    ensures x in t && IndexOf(t, x) == IndexOf(s, x)
  {
    var i := IndexOf(s, x);
    assert t[i] == x;
    assert forall j :: 0 <= j < i ==> t[j] == s[j];
  }

  /** First positions are kept by an injective map. */
  lemma IndexOfMap<T, U>(g: T -> U, s: seq<T>, x: T)
    requires x in s
    requires forall i :: 0 <= i < |s| ==> g(s[i]) == g(x) ==> s[i] == x
    ensures g(x) in MapSeq(g, s) && IndexOf(MapSeq(g, s), g(x)) == IndexOf(s, x)
  {
    var i := IndexOf(s, x);
    assert MapSeq(g, s)[i] == g(x);
  }

  /** Deduplication commutes with a map that is injective on the elements. */
  /** `g` maps distinct elements of `s` to distinct values. */
  ghost predicate InjectiveOn<T, U>(g: T -> U, s: seq<T>) {
    forall i, j :: 0 <= i < |s| && 0 <= j < |s| && g(s[i]) == g(s[j]) ==> s[i] == s[j]
  }

  lemma InjectiveOnPrefix<T, U>(g: T -> U, s: seq<T>, n: nat)
    requires InjectiveOn(g, s) && n <= |s|
    ensures InjectiveOn(g, s[..n])
  {
    assert forall i :: 0 <= i < n ==> s[..n][i] == s[i];
  }

  lemma {:induction false} DedupMap<T, U>(g: T -> U, s: seq<T>)
    requires InjectiveOn(g, s)
    ensures Dedup(MapSeq(g, s)) == MapSeq(g, Dedup(s))
    decreases |s|
  {
    if |s| > 0 {
      var n := |s| - 1;
      var p, x := s[..n], s[n];
      assert s == p + [x];
      InjectiveOnPrefix(g, s, n);
      DedupMap(g, p);
      DedupMapStep(g, p, x);
    }
  }

  lemma DedupMapStep<T, U>(g: T -> U, p: seq<T>, x: T)
    requires InjectiveOn(g, p + [x])
    requires Dedup(MapSeq(g, p)) == MapSeq(g, Dedup(p))
    ensures Dedup(MapSeq(g, p + [x])) == MapSeq(g, Dedup(p + [x]))
  {
    var s := p + [x];
    var n := |p|;
    MapSeqConcat(g, p, [x]);
    if x in p {
      DedupAppendSeen(p, x);
      var i :| 0 <= i < n && p[i] == x;
      assert MapSeq(g, p)[i] == g(x);
      DedupAppendSeen(MapSeq(g, p), g(x));
    } else {
      DedupAppendNew(p, x);
      MapSeqConcat(g, Dedup(p), [x]);
      assert g(x) !in MapSeq(g, p) by {
        forall i | 0 <= i < n
          ensures MapSeq(g, p)[i] != g(x)
        {
          assert s[i] == p[i] && s[n] == x;
        }
      }
      DedupAppendNew(MapSeq(g, p), g(x));
    }
  }

  /** Sum of `values[i]` over the positions `i` whose key is `k`. */
  function SumFor<K(==)>(keys: seq<K>, values: seq<nat>, k: K): nat
    requires |keys| == |values|
    decreases |keys|
  {
    if |keys| == 0 then 0
    else SumFor(keys[..|keys| - 1], values[..|values| - 1], k)
         + (if keys[|keys| - 1] == k then values[|values| - 1] else 0)
  }

  function Sum(values: seq<nat>): nat
    decreases |values|
  {
    if |values| == 0 then 0 else Sum(values[..|values| - 1]) + values[|values| - 1]
  }

  /** For each distinct key, in first-occurrence order, the sum of its values. */
  function GroupSums<K(==)>(keys: seq<K>, values: seq<nat>): (sums: seq<nat>)
    requires |keys| == |values|
    ensures |sums| == |Dedup(keys)|
  {
    seq(|Dedup(keys)|, i requires 0 <= i < |Dedup(keys)| => SumFor(keys, values, Dedup(keys)[i]))
  }

  /**
   * One more key and value: the value is added to the sum of a key already
   * seen, and a new key gets a group of its own at the end.
   */
  lemma GroupSumsStep<K>(keys: seq<K>, values: seq<nat>, k: K, v: nat)
    requires |keys| == |values|
    ensures k in Dedup(keys) ==>
      GroupSums(keys + [k], values + [v])
        == GroupSums(keys, values)[IndexOf(Dedup(keys), k) := GroupSums(keys, values)[IndexOf(Dedup(keys), k)] + v]
    ensures k !in Dedup(keys) ==> GroupSums(keys + [k], values + [v]) == GroupSums(keys, values) + [v]
  {
    var d := Dedup(keys);
    DedupStep(keys, k, d);
    if k in d {
      SumsSeen(keys, values, k, v, keys + [k], values + [v], d, GroupSums(keys, values));
    } else {
      DedupMembers(keys);
      SumForAbsent(keys, values, k);
      SumsNew(keys, values, k, v, keys + [k], values + [v], d, GroupSums(keys, values));
    }
  }

  lemma SumsSeen<K>(keys: seq<K>, values: seq<nat>, k: K, v: nat, ks: seq<K>, vs: seq<nat>, d: seq<K>, g: seq<nat>)
    requires |keys| == |values| && ks == keys + [k] && vs == values + [v]
    requires d == Dedup(keys) && g == GroupSums(keys, values) && k in d && Dedup(ks) == d
    ensures GroupSums(ks, vs) == g[IndexOf(d, k) := g[IndexOf(d, k)] + v]
  {
    assert ks[..|keys|] == keys && vs[..|values|] == values;
    forall i | 0 <= i < |d|
      ensures GroupSums(ks, vs)[i] == g[IndexOf(d, k) := g[IndexOf(d, k)] + v][i]
    {
      SumForLast(ks, vs, d[i]);
    }
  }

  lemma SumsNew<K>(keys: seq<K>, values: seq<nat>, k: K, v: nat, ks: seq<K>, vs: seq<nat>, d: seq<K>, g: seq<nat>)
    requires |keys| == |values| && ks == keys + [k] && vs == values + [v]
    requires d == Dedup(keys) && g == GroupSums(keys, values) && Dedup(ks) == d + [k]
    requires SumFor(keys, values, k) == 0
    ensures GroupSums(ks, vs) == g + [v]
  {
    assert ks[..|keys|] == keys && vs[..|values|] == values;
    forall i | 0 <= i < |d| + 1
      ensures GroupSums(ks, vs)[i] == (g + [v])[i]
    {
      SumForLast(ks, vs, (d + [k])[i]);
    }
  }

  /** The last position's value counts towards its own key only. */
  lemma SumForLast<K>(keys: seq<K>, values: seq<nat>, x: K)
    requires |keys| == |values| > 0
    ensures SumFor(keys, values, x)
      == SumFor(keys[..|keys| - 1], values[..|values| - 1], x) + (if keys[|keys| - 1] == x then values[|values| - 1] else 0)
  {
  }

  /** Grouping by key and summing per group keeps the grand total. */
  lemma {:induction false} GroupSumsTotal<K>(keys: seq<K>, values: seq<nat>)
    requires |keys| == |values|
    ensures Sum(GroupSums(keys, values)) == Sum(values)
    decreases |keys|
  {
    if |keys| > 0 {
      var n := |keys| - 1;
      var kp, vp := keys[..n], values[..n];
      var x, v := keys[n], values[n];
      GroupSumsTotal(kp, vp);
      var sums, sp := GroupSums(keys, values), GroupSums(kp, vp);
      var dp := Dedup(kp);
      DedupMembers(kp);
      if x in dp {
        var j := IndexOf(dp, x);
        assert sums == sp[j := sp[j] + v];
        SumUpdate(sp, j, v);
      } else {
        SumForAbsent(kp, vp, x);
        assert sums == sp + [v];
        assert (sp + [v])[..|sp|] == sp;
      }
    }
  }

  lemma {:induction false} SumUpdate(s: seq<nat>, j: nat, v: nat)
    requires j < |s|
    ensures Sum(s[j := s[j] + v]) == Sum(s) + v
    decreases |s|
  {
    var n := |s| - 1;
    if j < n {
      SumUpdate(s[..n], j, v);
      assert s[j := s[j] + v][..n] == s[..n][j := s[j] + v];
    } else {
      assert s[j := s[j] + v][..n] == s[..n];
    }
  }

  lemma {:induction false} SumForAbsent<K>(keys: seq<K>, values: seq<nat>, k: K)
    requires |keys| == |values|
    requires k !in keys
    ensures SumFor(keys, values, k) == 0
    decreases |keys|
  {
    if |keys| > 0 {
      SumForAbsent(keys[..|keys| - 1], values[..|values| - 1], k);
    }
  }
}
