/**
 * `cal_same_comp` of the post-processor: complexes that came out of the
 * earlier stages identical (same bond count, same oriented and renumbered
 * strands) are merged into one entry whose amount is the sum of their
 * amounts. Entries are visited in order; an entry already handled is
 * overwritten with the marker `['x']` in the working copy, so that
 * `list.index` finds the entry being visited.
 */
module Merge {

  import opened Wrappers
  import opened Collections
  import opened Orientation

  /**
   * What `cal_same_comp` compares for one complex: the number of distinct
   * bonds `re_write` counted, and the strands with their orientation
   * (which fixes the marker `['5', '-', '3']` or `['3', '-', '5']`) and
   * tokens.
   */
  datatype Canon = Canon(bonds: nat, strands: seq<Oriented>)

  /**
   * The merge loop. `distinct` are the complexes in the order they first
   * occur, `amounts[j]` the summed amount of `distinct[j]` and
   * `strandCounts[j]` its number of strands (`n_ssDNAs`).
   */
  method MergeSame(keys: seq<Canon>, counts: seq<nat>)
    returns (distinct: seq<Canon>, amounts: seq<nat>, strandCounts: seq<nat>)
    requires |keys| == |counts|
    ensures distinct == Dedup(keys)
    ensures amounts == GroupSums(keys, counts)
    ensures |strandCounts| == |distinct|
    ensures forall j :: 0 <= j < |distinct| ==> strandCounts[j] == |distinct[j].strands|
  {
    // the working copy; `None` is the marker `['x']`
    var li: seq<Option<Canon>> := seq(|keys|, p requires 0 <= p < |keys| => Some(keys[p]));
    distinct, amounts, strandCounts := [], [], [];
    for i := 0 to |keys|
      invariant MergedSoFar(keys, counts, i, li, distinct, amounts, strandCounts)
    {
      var uu := keys[i];
      assert li[i] == Some(uu);
      FirstLive(li, i, uu);
      var at := IndexOf(li, Some(uu));
      ghost var li0, distinct0, amounts0, strandCounts0 := li, distinct, amounts, strandCounts;
      if uu !in distinct {
        distinct := distinct + [uu];
        strandCounts := strandCounts + [|uu.strands|];
        amounts := amounts + [counts[at]];
        li := li[at := None];
      } else {
        var k := IndexOf(distinct, uu);
        amounts := amounts[k := amounts[k] + counts[at]];
        li := li[at := None];
      }
      MergeLoopStep(keys, counts, i, li0, distinct0, amounts0, strandCounts0, li, distinct, amounts, strandCounts);
    }
    assert keys[..|keys|] == keys && counts[..|counts|] == counts;
  }

  /** `list.index` finds the entry being visited: every earlier entry is the marker. */
  /** The loop invariant of `cal_same_comp` after the first `i` keys. */
  predicate MergedSoFar(keys: seq<Canon>, counts: seq<nat>, i: nat, li: seq<Option<Canon>>,
                        distinct: seq<Canon>, amounts: seq<nat>, strandCounts: seq<nat>)
  {
    && i <= |keys| == |counts| == |li|
    && (forall p :: 0 <= p < i ==> li[p] == None)
    && (forall p :: i <= p < |keys| ==> li[p] == Some(keys[p]))
    && distinct == Dedup(keys[..i])
    && amounts == GroupSums(keys[..i], counts[..i])
    && |strandCounts| == |distinct|
    && (forall j :: 0 <= j < |distinct| ==> strandCounts[j] == |distinct[j].strands|)
  }

  /** One turn of the loop: key `i` is marked, and joins `distinct` or adds its count to its group. */
  lemma MergeLoopStep(keys: seq<Canon>, counts: seq<nat>, i: nat, li: seq<Option<Canon>>,
                      distinct: seq<Canon>, amounts: seq<nat>, strandCounts: seq<nat>,
                      li': seq<Option<Canon>>, distinct': seq<Canon>, amounts': seq<nat>, strandCounts': seq<nat>)
    requires i < |keys| && MergedSoFar(keys, counts, i, li, distinct, amounts, strandCounts)
    requires li' == li[i := None]
    requires keys[i] !in distinct ==>
      distinct' == distinct + [keys[i]] && strandCounts' == strandCounts + [|keys[i].strands|]
      && amounts' == amounts + [counts[i]]
    requires keys[i] in distinct ==>
      distinct' == distinct && strandCounts' == strandCounts
      && amounts' == amounts[IndexOf(distinct, keys[i]) := amounts[IndexOf(distinct, keys[i])] + counts[i]]
    ensures MergedSoFar(keys, counts, i + 1, li', distinct', amounts', strandCounts')
  {
    PrefixStep(keys, i);
    PrefixStep(counts, i);
    DedupStep(keys[..i], keys[i], distinct);
    GroupSumsStep(keys[..i], counts[..i], keys[i], counts[i]);
  }

  lemma FirstLive(li: seq<Option<Canon>>, i: nat, uu: Canon)
    requires i < |li| && li[i] == Some(uu)
    requires forall p :: 0 <= p < i ==> li[p] == None
    ensures Some(uu) in li && IndexOf(li, Some(uu)) == i
  {
  }

  /** `values[i]` is part of the sum over the positions with key `keys[i]`. */
  lemma {:induction false} SumForIncludes<K>(keys: seq<K>, values: seq<nat>, i: nat)
    requires |keys| == |values| && i < |keys|
    ensures SumFor(keys, values, keys[i]) >= values[i]
    decreases |keys|
  {
    var n := |keys| - 1;
    if i < n {
      SumForIncludes(keys[..n], values[..n], i);
    }
  }

  /** Two positions with the same key both count towards that key's sum. */
  lemma {:induction false} SumForIncludesBoth<K>(keys: seq<K>, values: seq<nat>, p: nat, q: nat)
    requires |keys| == |values| && p < q < |keys| && keys[p] == keys[q]
    ensures SumFor(keys, values, keys[p]) >= values[p] + values[q]
    decreases |keys|
  {
    var n := |keys| - 1;
    if q < n {
      SumForIncludesBoth(keys[..n], values[..n], p, q);
    } else {
      SumForIncludes(keys[..n], values[..n], p);
    }
  }

  /** Two equal complexes end up in the same merged entry, whose amount includes both of theirs. */
  lemma MergedTogether(keys: seq<Canon>, counts: seq<nat>, p: nat, q: nat)
    requires |keys| == |counts| && p < q < |keys| && keys[p] == keys[q]
    ensures keys[p] in Dedup(keys)
    ensures GroupSums(keys, counts)[IndexOf(Dedup(keys), keys[p])] >= counts[p] + counts[q]
  {
    DedupMembers(keys);
    SumForIncludesBoth(keys, counts, p, q);
  }

  /**
   * Every complex ends up in the merged entry equal to it, and that entry's
   * amount includes the complex's own amount.
   */
  lemma MergedInto(keys: seq<Canon>, counts: seq<nat>, i: nat)
    requires |keys| == |counts| && i < |keys|
    ensures keys[i] in Dedup(keys)
    ensures GroupSums(keys, counts)[IndexOf(Dedup(keys), keys[i])] >= counts[i]
  {
    DedupMembers(keys);
    SumForIncludes(keys, counts, i);
  }

  /** Merging loses no amount: the merged amounts add up to the amounts of all complexes. */
  lemma MergeKeepsTotal(keys: seq<Canon>, counts: seq<nat>)
    requires |keys| == |counts|
    ensures |GroupSums(keys, counts)| <= |keys|
    ensures Sum(GroupSums(keys, counts)) == Sum(counts)
  {
    GroupSumsTotal(keys, counts);
    DedupCardinality(keys);
    CardinalityBound(keys);
  }

  /** A sequence has no more distinct values than elements. */
  lemma {:induction false} CardinalityBound<T>(s: seq<T>)
    ensures |set x | x in s| <= |s|
    decreases |s|
  {
    if |s| > 0 {
      var p := s[..|s| - 1];
      CardinalityBound(p);
      assert (set x | x in s) == (set x | x in p) + {s[|s| - 1]} by {
        assert s == p + [s[|s| - 1]];
      }
    }
  }
}
