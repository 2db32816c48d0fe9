/**
 * The weight-balanced partitioner `get_split_complexes` (main.py).
 *
 * Every species `[complex, count]` is expanded into `count` unit copies
 * whose weight is the number of `.`-separated nucleotides of the complex.
 * The copies are ordered heaviest first (`reversed(sorted(...))`), the first
 * `k` of them are kept in that order and the rest is shuffled; then each copy
 * in turn goes to the basket whose accumulated weight is smallest, the lowest
 * basket winning ties. Empty baskets are dropped and every basket is
 * collapsed back to `(complex, count)` pairs with a `Counter`.
 *
 * Indices are 0-based here: copy id `i` is species `i + 1` of the source and
 * basket `b` is its thread `b + 1`. The thread count `k` is the global
 * `alternative_n_threads` and the shuffle's random draws are the parameter
 * `choices`.
 */
module Partition {

  import opened Text
  import opened Collections
  import opened Sorting

  /** One species: its complex text and `int(complex[1])`. */
  datatype Species = Species(complex: string, count: nat)

  /** A unit copy `[n, w, 1]`: the species it came from and its weight. */
  datatype Copy = Copy(id: nat, weight: nat)

  /** `len(complex.split('.'))`: the number of nucleotides of a complex. */
  function Weight(complex: string): (w: nat)
    ensures w >= 1
  {
    |Split(complex, ".")|
  }

  function Min(a: nat, b: nat): nat {
    if a <= b then a else b
  }

  function CopyWeight(c: Copy): nat {
    c.weight
  }

  function NatLess(a: nat, b: nat): bool {
    a < b
  }

  lemma NatLessIsStrictTotalOrder()
    ensures StrictTotalOrder(NatLess)
  {
  }

  /* ---------------- expansion into unit copies ---------------- */

  /** The list `expanded` built by the two nested loops. */
  function Expand(all: seq<Species>): seq<Copy>
    decreases |all|
  {
    if |all| == 0 then []
    else
      var n := |all| - 1;
      Expand(all[..n]) + seq(all[n].count, _ => Copy(n, Weight(all[n].complex)))
  }

  function TotalCount(all: seq<Species>): nat
    decreases |all|
  {
    if |all| == 0 then 0 else TotalCount(all[..|all| - 1]) + all[|all| - 1].count
  }

  /** A copy that names a species of `all` and carries that species' weight. */
  predicate CopyOf(all: seq<Species>, c: Copy) {
    c.id < |all| && c.weight == Weight(all[c.id].complex)
  }

  predicate CopiesOf(all: seq<Species>, copies: seq<Copy>) {
    forall j :: 0 <= j < |copies| ==> CopyOf(all, copies[j])
  }

  /** Number of copies of species `i`. */
  function IdCount(copies: seq<Copy>, i: nat): nat
    decreases |copies|
  {
    if |copies| == 0 then 0
    else IdCount(copies[..|copies| - 1], i) + (if copies[|copies| - 1].id == i then 1 else 0)
  }

  /** The nested loops over `complex_index`. */
  method ExpandSpecies(all: seq<Species>) returns (expanded: seq<Copy>)
    ensures expanded == Expand(all)
  {
    expanded := [];
    for n := 0 to |all|
      invariant expanded == Expand(all[..n])
    {
      var c := Copy(n, Weight(all[n].complex));
      var before := expanded;
      for m := 0 to all[n].count
        invariant expanded == before + seq(m, _ => c)
      {
        expanded := expanded + [c];
      }
      assert all[..n + 1][..n] == all[..n];
    }
    assert all[..|all|] == all;
  }

  lemma {:induction false} IdCountConcat(a: seq<Copy>, b: seq<Copy>, i: nat)
    ensures IdCount(a + b, i) == IdCount(a, i) + IdCount(b, i)
    decreases |b|
  {
    if |b| == 0 {
      assert a + b == a;
    } else {
      IdCountConcat(a, b[..|b| - 1], i);
      assert (a + b)[..|a + b| - 1] == a + b[..|b| - 1];
    }
  }

  /** Reordering the copies does not change how many there are of each species. */
  lemma {:induction false} IdCountPermutation(a: seq<Copy>, b: seq<Copy>, i: nat)
    requires multiset(a) == multiset(b)
    ensures IdCount(a, i) == IdCount(b, i)
    decreases |a|
  {
    if |a| == 0 {
      assert |b| == |multiset(b)| == 0;
    } else {
      var n := |a| - 1;
      var x := a[n];
      assert a == a[..n] + [x];
      assert x in multiset(b);
      var j :| 0 <= j < |b| && b[j] == x;
      var b' := b[..j] + b[j + 1..];
      assert b == b[..j] + [x] + b[j + 1..];
      assert multiset(b) == multiset(b[..j]) + multiset{x} + multiset(b[j + 1..]);
      assert multiset(a) == multiset(a[..n]) + multiset{x};
      assert multiset(b') == multiset(b[..j]) + multiset(b[j + 1..]);
      assert multiset(b') == multiset(b) - multiset{x};
      assert multiset(a[..n]) == multiset(a) - multiset{x};
      IdCountPermutation(a[..n], b', i);
      IdCountConcat(b[..j] + [x], b[j + 1..], i);
      IdCountConcat(b[..j], [x], i);
      IdCountConcat(b[..j], b[j + 1..], i);
      assert [x][..0] == [];
    }
  }

  lemma {:induction false} RepeatIdCount(c: Copy, m: nat, i: nat)
    ensures IdCount(seq(m, _ => c), i) == if c.id == i then m else 0
    decreases m
  {
    if m > 0 {
      RepeatIdCount(c, m - 1, i);
      assert seq(m, _ => c)[..m - 1] == seq(m - 1, _ => c);
    }
  }

  /** There are `count` copies of each species, each carrying its species' weight. */
  lemma {:induction false} ExpandFacts(all: seq<Species>, i: nat)
    ensures |Expand(all)| == TotalCount(all)
    ensures IdCount(Expand(all), i) == if i < |all| then all[i].count else 0
    ensures CopiesOf(all, Expand(all))
    decreases |all|
  {
    if |all| > 0 {
      var n := |all| - 1;
      var c := Copy(n, Weight(all[n].complex));
      var r := seq(all[n].count, _ => c);
      var p := Expand(all[..n]);
      ExpandFacts(all[..n], i);
      IdCountConcat(p, r, i);
      RepeatIdCount(c, all[n].count, i);
      forall j | 0 <= j < |p| + |r|
        ensures CopyOf(all, (p + r)[j])
      {
        if j < |p| {
          assert CopyOf(all[..n], p[j]);
          assert all[..n][p[j].id] == all[p[j].id];
        } else {
          assert (p + r)[j] == c;
        }
      }
    }
  }

  /* ---------------- ordering and shuffle ---------------- */

  function Swap(s: seq<Copy>, i: nat, j: nat): (r: seq<Copy>)
    requires i < |s| && j < |s|
    ensures multiset(r) == multiset(s) && |r| == |s|
  {
    s[i := s[j]][j := s[i]]
  }

  /** `choices[i]` is the draw `randbelow(i + 1)` made for position `i`. */
  predicate ValidChoices(choices: seq<nat>, n: nat) {
    |choices| == n && forall m :: 0 <= m < n ==> choices[m] <= m
  }

  /**
   * `random.shuffle` as CPython performs it: for `i` from the last position
   * down to 1 it swaps `x[i]` with `x[choices[i]]`.
   */
  function Shuffle(s: seq<Copy>, choices: seq<nat>): (r: seq<Copy>)
    requires ValidChoices(choices, |s|)
    ensures multiset(r) == multiset(s) && |r| == |s|
  {
    if |s| == 0 then s else FisherYates(s, choices, |s| - 1)
  }

  function FisherYates(s: seq<Copy>, choices: seq<nat>, i: nat): (r: seq<Copy>)
    requires ValidChoices(choices, |s|) && i < |s|
    ensures multiset(r) == multiset(s) && |r| == |s|
    decreases i
  {
    if i == 0 then s else FisherYates(Swap(s, i, choices[i]), choices, i - 1)
  }

  /** Number of copies left for the shuffle once the first `k` are set aside. */
  function RestLength(n: nat, k: nat): nat {
    if n > k then n - k else 0
  }

  /** The copies heaviest first: `reversed(sorted(expanded, key=weight))`. */
  function BySize(expanded: seq<Copy>): (r: seq<Copy>)
    ensures multiset(r) == multiset(expanded) && |r| == |expanded|
  {
    NatLessIsStrictTotalOrder();
    var asc := SortBy(expanded, CopyWeight, NatLess);
    ReversePermutes(asc);
    Reverse(asc)
  }

  /** Reversing the stable ascending sort gives non-increasing weights. */
  lemma BySizeDescending(expanded: seq<Copy>)
    ensures forall i, j :: 0 <= i < j < |BySize(expanded)| ==> BySize(expanded)[i].weight >= BySize(expanded)[j].weight
  {
    NatLessIsStrictTotalOrder();
    var asc := SortBy(expanded, CopyWeight, NatLess);
    ReverseSorted(asc, CopyWeight, NatLess);
  }

  /** `expanded_rearranged`: heaviest first, then the first `k` kept and the rest shuffled. */
  function Rearranged(expanded: seq<Copy>, k: nat, choices: seq<nat>): (r: seq<Copy>)
    requires ValidChoices(choices, RestLength(|expanded|, k))
    ensures multiset(r) == multiset(expanded) && |r| == |expanded|
  {
    var bySize := BySize(expanded);
    var m := Min(k, |bySize|);
    assert bySize == bySize[..m] + bySize[m..];
    bySize[..m] + Shuffle(bySize[m..], choices)
  }

  /**
   * The first `k` copies are the heaviest, in non-increasing weight, and none
   * of the shuffled ones is heavier than them.
   */
  lemma RearrangedHeaviestFirst(expanded: seq<Copy>, k: nat, choices: seq<nat>)
    requires ValidChoices(choices, RestLength(|expanded|, k))
    ensures forall i, j :: 0 <= i < j < Min(k, |expanded|) ==>
              Rearranged(expanded, k, choices)[i].weight >= Rearranged(expanded, k, choices)[j].weight
    ensures forall i, j :: 0 <= i < Min(k, |expanded|) <= j < |expanded| ==>
              Rearranged(expanded, k, choices)[i].weight >= Rearranged(expanded, k, choices)[j].weight
  {
    var bySize := BySize(expanded);
    BySizeDescending(expanded);
    var m := Min(k, |bySize|);
    var r := Rearranged(expanded, k, choices);
    var sh := Shuffle(bySize[m..], choices);
    assert r == bySize[..m] + sh;
    KeptHeavier(bySize, m, sh, r);
  }

  /**
   * The first `k` copies are those of the heaviest-first order, in place;
   * the copies after them are a reordering of the rest of that order.
   */
  lemma RearrangedKeepsHead(expanded: seq<Copy>, k: nat, choices: seq<nat>)
    requires ValidChoices(choices, RestLength(|expanded|, k))
    ensures Rearranged(expanded, k, choices)[..Min(k, |expanded|)] == BySize(expanded)[..Min(k, |expanded|)]
    ensures multiset(Rearranged(expanded, k, choices)[Min(k, |expanded|)..])
            == multiset(BySize(expanded)[Min(k, |expanded|)..])
  {
    var bySize := BySize(expanded);
    var m := Min(k, |bySize|);
    var sh := Shuffle(bySize[m..], choices);
    var r := Rearranged(expanded, k, choices);
    assert r == bySize[..m] + sh;
    assert r[..m] == bySize[..m];
    assert r[m..] == sh;
  }

  /** A reordering of the copies after position `m` of a heaviest-first sequence weighs no more than those before. */
  lemma KeptHeavier(bySize: seq<Copy>, m: nat, sh: seq<Copy>, r: seq<Copy>)
    requires m <= |bySize|
    requires forall i, j :: 0 <= i < j < |bySize| ==> bySize[i].weight >= bySize[j].weight
    requires multiset(sh) == multiset(bySize[m..]) && r == bySize[..m] + sh
    ensures |r| == |bySize|
    ensures forall i, j :: 0 <= i < j < m ==> r[i].weight >= r[j].weight
    ensures forall i, j :: 0 <= i < m <= j < |r| ==> r[i].weight >= r[j].weight
  {
    var rest := bySize[m..];
    assert |sh| == |multiset(sh)| == |multiset(rest)| == |rest|;
    forall i, j | 0 <= i < m <= j < |r|
      ensures r[i].weight >= r[j].weight
    {
      assert r[i] == bySize[i] && r[j] == sh[j - m];
      assert sh[j - m] in multiset(rest);
      var p :| 0 <= p < |rest| && rest[p] == sh[j - m];
      assert bySize[m + p] == sh[j - m];
    }
  }

  /* ---------------- the assignment loop ---------------- */

  /** Species ids of the copies assigned to basket `b`, in assignment order. */
  function IdsWhere(copies: seq<Copy>, assign: seq<nat>, b: nat): seq<nat>
    requires |assign| == |copies|
    decreases |copies|
  {
    if |copies| == 0 then []
    else
      var n := |copies| - 1;
      IdsWhere(copies[..n], assign[..n], b) + (if assign[n] == b then [copies[n].id] else [])
  }

  /** Weights of the copies assigned to basket `b`, in assignment order. */
  function WeightsWhere(copies: seq<Copy>, assign: seq<nat>, b: nat): seq<nat>
    requires |assign| == |copies|
    decreases |copies|
  {
    if |copies| == 0 then []
    else
      var n := |copies| - 1;
      WeightsWhere(copies[..n], assign[..n], b) + (if assign[n] == b then [copies[n].weight] else [])
  }

  /** The total weight of each of the `k` baskets once the first `j` copies are placed. */
  function LoadsAt(copies: seq<Copy>, assign: seq<nat>, k: nat, j: nat): (loads: seq<nat>)
    requires j <= |copies| && j <= |assign|
    ensures |loads| == k
  {
    seq(k, b requires 0 <= b < k => Sum(WeightsWhere(copies[..j], assign[..j], b)))
  }

  /** `m` is what `min(sizes, key=sizes.get)` returns over keys in order: the first smallest. */
  predicate IsFirstArgMin(sizes: seq<nat>, m: nat) {
    && m < |sizes|
    && (forall i :: 0 <= i < |sizes| ==> sizes[m] <= sizes[i])
    && (forall i :: 0 <= i < m ==> sizes[m] < sizes[i])
  }

  /** Each copy went to the first lightest basket of the moment. */
  predicate Greedy(copies: seq<Copy>, assign: seq<nat>, k: nat) {
    |assign| == |copies| &&
    forall j :: 0 <= j < |copies| ==> IsFirstArgMin(LoadsAt(copies, assign, k, j), assign[j])
  }

  /** Σ over the baskets of the number of copies of species `i`. */
  function SumCounts(ids: seq<seq<nat>>, i: nat): nat
    decreases |ids|
  {
    if |ids| == 0 then 0 else SumCounts(ids[..|ids| - 1], i) + Count(ids[|ids| - 1], i)
  }

  /** `min(basket_sizes, key=basket_sizes.get)`. */
  method SmallestBasket(sizes: seq<nat>) returns (m: nat)
    requires |sizes| >= 1
    ensures IsFirstArgMin(sizes, m)
  {
    m := 0;
    for i := 1 to |sizes|
      invariant m < i
      invariant forall p :: 0 <= p < i ==> sizes[m] <= sizes[p]
      invariant forall p :: 0 <= p < m ==> sizes[m] < sizes[p]
    {
      if sizes[i] < sizes[m] {
        m := i;
      }
    }
  }

  /** Assigning the next copy to basket `c` extends that basket's lists only. */
  lemma WhereStep(copies: seq<Copy>, assign: seq<nat>, c: nat, b: nat)
    requires |assign| < |copies|
    ensures IdsWhere(copies[..|assign| + 1], assign + [c], b)
            == IdsWhere(copies[..|assign|], assign, b) + (if c == b then [copies[|assign|].id] else [])
    ensures WeightsWhere(copies[..|assign| + 1], assign + [c], b)
            == WeightsWhere(copies[..|assign|], assign, b) + (if c == b then [copies[|assign|].weight] else [])
  {
    var j := |assign|;
    assert copies[..j + 1][..j] == copies[..j];
    assert (assign + [c])[..j] == assign;
  }

  /** Extending `assign` does not change the loads seen at earlier steps. */
  lemma LoadsAtExtend(copies: seq<Copy>, assign: seq<nat>, c: nat, k: nat, j: nat)
    requires j <= |assign| && j <= |copies|
    ensures LoadsAt(copies, assign + [c], k, j) == LoadsAt(copies, assign, k, j)
  {
    assert (assign + [c])[..j] == assign[..j];
  }

  lemma {:induction false} SumCountsEmpty(ids: seq<seq<nat>>)
    requires forall b :: 0 <= b < |ids| ==> ids[b] == []
    ensures forall i :: SumCounts(ids, i) == 0
    decreases |ids|
  {
    if |ids| > 0 {
      SumCountsEmpty(ids[..|ids| - 1]);
    }
  }

  lemma {:induction false} SumCountsUpdate(ids: seq<seq<nat>>, c: nat, x: nat, i: nat)
    requires c < |ids|
    ensures SumCounts(ids[c := ids[c] + [x]], i) == SumCounts(ids, i) + (if x == i then 1 else 0)
    decreases |ids|
  {
    var n := |ids| - 1;
    var ids' := ids[c := ids[c] + [x]];
    if c < n {
      SumCountsUpdate(ids[..n], c, x, i);
      assert ids'[..n] == ids[..n][c := ids[c] + [x]];
    } else {
      assert ids'[..n] == ids[..n];
      assert (ids[c] + [x])[..|ids[c]|] == ids[c];
    }
  }

  /** Placing the next copy in basket `c` keeps every basket's lists equal to their definitions. */
  lemma BasketsStep(copies: seq<Copy>, assign: seq<nat>, ids: seq<seq<nat>>, ws: seq<seq<nat>>, k: nat, c: nat,
                    ids': seq<seq<nat>>, ws': seq<seq<nat>>)
    requires |assign| < |copies| && |ids| == k && |ws| == k && c < k
    requires ids' == ids[c := ids[c] + [copies[|assign|].id]]
    requires ws' == ws[c := ws[c] + [copies[|assign|].weight]]
    requires forall b :: 0 <= b < k ==> ids[b] == IdsWhere(copies[..|assign|], assign, b)
    requires forall b :: 0 <= b < k ==> ws[b] == WeightsWhere(copies[..|assign|], assign, b)
    ensures forall b :: 0 <= b < k ==> ids'[b] == IdsWhere(copies[..|assign| + 1], assign + [c], b)
    ensures forall b :: 0 <= b < k ==> ws'[b] == WeightsWhere(copies[..|assign| + 1], assign + [c], b)
  {
    forall b | 0 <= b < k
      ensures ids'[b] == IdsWhere(copies[..|assign| + 1], assign + [c], b)
      ensures ws'[b] == WeightsWhere(copies[..|assign| + 1], assign + [c], b)
    {
      WhereStep(copies, assign, c, b);
    }
  }

  /** Placing copy `j` in basket `c` counts it once more for its species. */
  lemma SumCountsStep(copies: seq<Copy>, j: nat, ids: seq<seq<nat>>, c: nat, ids': seq<seq<nat>>)
    requires j < |copies| && c < |ids| && ids' == ids[c := ids[c] + [copies[j].id]]
    requires forall i :: SumCounts(ids, i) == IdCount(copies[..j], i)
    ensures forall i :: SumCounts(ids', i) == IdCount(copies[..j + 1], i)
  {
    forall i
      ensures SumCounts(ids', i) == IdCount(copies[..j + 1], i)
    {
      SumCountsUpdate(ids, c, copies[j].id, i);
      assert copies[..j + 1][..j] == copies[..j];
    }
  }

  /** Extending `assign` leaves the loads of all earlier steps as they were. */
  lemma LoadsKept(copies: seq<Copy>, assign: seq<nat>, c: nat, k: nat)
    requires |assign| <= |copies|
    ensures forall j' :: 0 <= j' <= |assign| ==> LoadsAt(copies, assign + [c], k, j') == LoadsAt(copies, assign, k, j')
  {
    forall j' | 0 <= j' <= |assign|
      ensures LoadsAt(copies, assign + [c], k, j') == LoadsAt(copies, assign, k, j')
    {
      LoadsAtExtend(copies, assign, c, k, j');
    }
  }

  /**
   * The loop of main.py that fills the baskets. The ghost `assign[j]` is the
   * basket copy `j` went to; the source keeps only each basket's two lists.
   * `ok` is false where the source raises, when there are copies but no
   * thread.
   */
  method AssignToBaskets(copies: seq<Copy>, k: nat)
    returns (ok: bool, ids: seq<seq<nat>>, ws: seq<seq<nat>>, ghost assign: seq<nat>)
    ensures ok <==> k >= 1 || |copies| == 0
    ensures ok ==> |ids| == k && |ws| == k
    ensures ok ==> Greedy(copies, assign, k)
    ensures ok ==> forall b :: 0 <= b < k ==> ids[b] == IdsWhere(copies, assign, b) && ws[b] == WeightsWhere(copies, assign, b)
    ensures ok ==> forall i :: SumCounts(ids, i) == IdCount(copies, i)
  {
    if k == 0 && |copies| > 0 {
      // With no thread there is no basket, and `baskets[current_basket]` raises `KeyError`.
      return false, [], [], [];
    }
    ok := true;
    ids := seq(k, _ => []);
    ws := seq(k, _ => []);
    assign := [];
    var current: nat := 0;
    SumCountsEmpty(ids);
    for j := 0 to |copies|
      invariant |ids| == k && |ws| == k && |assign| == j
      invariant forall b :: 0 <= b < k ==> ids[b] == IdsWhere(copies[..j], assign, b)
      invariant forall b :: 0 <= b < k ==> ws[b] == WeightsWhere(copies[..j], assign, b)
      invariant forall j' :: 0 <= j' < j ==> IsFirstArgMin(LoadsAt(copies, assign, k, j'), assign[j'])
      invariant k >= 1 ==> IsFirstArgMin(seq(k, b requires 0 <= b < k => Sum(ws[b])), current)
      invariant forall i :: SumCounts(ids, i) == IdCount(copies[..j], i)
    {
      ghost var sizes0 := seq(k, b requires 0 <= b < k => Sum(ws[b]));
      assert LoadsAt(copies, assign, k, j) == sizes0 by {
        assert assign[..j] == assign;
      }
      LoadsKept(copies, assign, current, k);
      ghost var ids0, ws0 := ids, ws;
      ids := ids[current := ids[current] + [copies[j].id]];
      ws := ws[current := ws[current] + [copies[j].weight]];
      SumCountsStep(copies, j, ids0, current, ids);
      BasketsStep(copies, assign, ids0, ws0, k, current, ids, ws);
      assign := assign + [current];
      var sizes := seq(k, b requires 0 <= b < k => Sum(ws[b]));
      current := SmallestBasket(sizes);
    }
    assert copies[..|copies|] == copies;
  }

  /* ---------------- what the greedy rule guarantees ---------------- */

  lemma LoadsStep(copies: seq<Copy>, assign: seq<nat>, k: nat, j: nat)
    requires |assign| == |copies| && j < |copies|
    ensures forall b :: 0 <= b < k ==>
              LoadsAt(copies, assign, k, j + 1)[b]
              == LoadsAt(copies, assign, k, j)[b] + (if assign[j] == b then copies[j].weight else 0)
  {
    forall b | 0 <= b < k
      ensures LoadsAt(copies, assign, k, j + 1)[b]
              == LoadsAt(copies, assign, k, j)[b] + (if assign[j] == b then copies[j].weight else 0)
    {
      WhereStep(copies, assign[..j], assign[j], b);
      assert assign[..j] + [assign[j]] == assign[..j + 1];
      var w := WeightsWhere(copies[..j], assign[..j], b);
      if assign[j] == b {
        assert (w + [copies[j].weight])[..|w|] == w;
      } else {
        assert w + [] == w;
      }
    }
  }

  /**
   * Balance: at every step no basket outweighs another by more than the
   * heaviest copy.
   */
  lemma {:induction false} GreedySpread(copies: seq<Copy>, assign: seq<nat>, k: nat, heaviest: nat, j: nat)
    requires Greedy(copies, assign, k) && j <= |copies|
    requires forall p :: 0 <= p < |copies| ==> copies[p].weight <= heaviest
    ensures forall a, b :: 0 <= a < k && 0 <= b < k ==>
              LoadsAt(copies, assign, k, j)[a] <= LoadsAt(copies, assign, k, j)[b] + heaviest
    decreases j
  {
    if j > 0 {
      GreedySpread(copies, assign, k, heaviest, j - 1);
      LoadsStep(copies, assign, k, j - 1);
      var before, after := LoadsAt(copies, assign, k, j - 1), LoadsAt(copies, assign, k, j);
      var c, w := assign[j - 1], copies[j - 1].weight;
      assert IsFirstArgMin(before, c);
      forall a, b | 0 <= a < k && 0 <= b < k
        ensures after[a] <= after[b] + heaviest
      {
        assert after[a] == before[a] + (if c == a then w else 0);
        assert after[b] == before[b] + (if c == b then w else 0);
        if a == c && b != c {
          assert before[c] <= before[b];
        }
      }
    }
  }

  /**
   * While fewer copies than baskets are placed, the next copy goes to the
   * first empty basket: the `k` heaviest copies seed one basket each.
   */
  lemma {:induction false} GreedySeeds(copies: seq<Copy>, assign: seq<nat>, k: nat, j: nat)
    requires Greedy(copies, assign, k) && j <= Min(k, |copies|)
    requires forall p :: 0 <= p < |copies| ==> copies[p].weight >= 1
    ensures forall p :: 0 <= p < j ==> assign[p] == p
    ensures forall b :: 0 <= b < k ==> (LoadsAt(copies, assign, k, j)[b] > 0 <==> b < j)
    decreases j
  {
    if j > 0 {
      GreedySeeds(copies, assign, k, j - 1);
      LoadsStep(copies, assign, k, j - 1);
      var before, after := LoadsAt(copies, assign, k, j - 1), LoadsAt(copies, assign, k, j);
      var c := assign[j - 1];
      assert IsFirstArgMin(before, c);
      assert before[j - 1] == 0;
      assert before[c] == 0;
      assert c == j - 1;
      forall b | 0 <= b < k
        ensures after[b] > 0 <==> b < j
      {
        assert after[b] == before[b] + (if c == b then copies[j - 1].weight else 0);
      }
    }
  }

  lemma {:induction false} LoadsGrow(copies: seq<Copy>, assign: seq<nat>, k: nat, j: nat, j2: nat)
    requires |assign| == |copies| && j <= j2 <= |copies|
    ensures forall b :: 0 <= b < k ==> LoadsAt(copies, assign, k, j)[b] <= LoadsAt(copies, assign, k, j2)[b]
    decreases j2 - j
  {
    if j < j2 {
      LoadsGrow(copies, assign, k, j, j2 - 1);
      LoadsStep(copies, assign, k, j2 - 1);
    }
  }

  /** Exactly the first `min(k, n)` baskets end up non-empty. */
  lemma GreedyFills(copies: seq<Copy>, assign: seq<nat>, k: nat)
    requires Greedy(copies, assign, k)
    requires forall p :: 0 <= p < |copies| ==> copies[p].weight >= 1
    ensures forall b :: 0 <= b < k ==> (LoadsAt(copies, assign, k, |copies|)[b] > 0 <==> b < Min(k, |copies|))
  {
    var m := Min(k, |copies|);
    GreedySeeds(copies, assign, k, m);
    LoadsGrow(copies, assign, k, m, |copies|);
  }

  /* ---------------- collapsing the baskets ---------------- */

  /** `Counter(s).items()`: the distinct ids in first-occurrence order with their counts. */
  function Tally(s: seq<nat>): (t: seq<(nat, nat)>)
    ensures |t| == |Dedup(s)|
  {
    seq(|Dedup(s)|, e requires 0 <= e < |Dedup(s)| => (Dedup(s)[e], Count(s, Dedup(s)[e])))
  }

  /** The count recorded for species `i` in one collapsed basket (0 when absent). */
  function Lookup(t: seq<(nat, nat)>, i: nat): nat
    decreases |t|
  {
    if |t| == 0 then 0
    else Lookup(t[..|t| - 1], i) + (if t[|t| - 1].0 == i then t[|t| - 1].1 else 0)
  }

  predicate DistinctKeys(t: seq<(nat, nat)>) {
    forall p, q :: 0 <= p < q < |t| ==> t[p].0 != t[q].0
  }

  lemma {:induction false} LookupFound(t: seq<(nat, nat)>, e: nat, i: nat)
    requires DistinctKeys(t) && e < |t| && t[e].0 == i
    ensures Lookup(t, i) == t[e].1
    decreases |t|
  {
    var n := |t| - 1;
    if e < n {
      LookupFound(t[..n], e, i);
    } else {
      LookupMissing(t[..n], i);
    }
  }

  lemma {:induction false} LookupMissing(t: seq<(nat, nat)>, i: nat)
    requires forall e :: 0 <= e < |t| ==> t[e].0 != i
    ensures Lookup(t, i) == 0
    decreases |t|
  {
    if |t| > 0 {
      LookupMissing(t[..|t| - 1], i);
    }
  }

  /** A `Counter` records exactly how often each id occurs. */
  lemma TallyCounts(s: seq<nat>, i: nat)
    ensures DistinctKeys(Tally(s))
    ensures Lookup(Tally(s), i) == Count(s, i)
    ensures forall e :: 0 <= e < |Tally(s)| ==> Tally(s)[e].0 in s && Tally(s)[e].1 >= 1
  {
    var t, d := Tally(s), Dedup(s);
    DedupMembers(s);
    forall e | 0 <= e < |t|
      ensures t[e].0 in s && t[e].1 >= 1
    {
      CountPositive(s, d[e]);
    }
    CountPositive(s, i);
    if i in s {
      LookupFound(t, IndexOf(d, i), i);
    } else {
      LookupMissing(t, i);
    }
  }

  /** Σ over the collapsed baskets of the count of species `i`. */
  function TallyTotal(tallies: seq<seq<(nat, nat)>>, i: nat): nat
    decreases |tallies|
  {
    if |tallies| == 0 then 0 else TallyTotal(tallies[..|tallies| - 1], i) + Lookup(tallies[|tallies| - 1], i)
  }

  /** `possible_thread_count`: how many baskets are not `[[], []]`. */
  function NonEmptyCount(ids: seq<seq<nat>>, ws: seq<seq<nat>>): nat
    requires |ids| == |ws|
    decreases |ids|
  {
    if |ids| == 0 then 0
    else
      var n := |ids| - 1;
      NonEmptyCount(ids[..n], ws[..n]) + (if ids[n] == [] && ws[n] == [] then 0 else 1)
  }

  lemma {:induction false} NonEmptyCountPrefix(ids: seq<seq<nat>>, ws: seq<seq<nat>>, m: nat)
    requires |ids| == |ws| && m <= |ids|
    requires forall b :: 0 <= b < |ids| ==> (!(ids[b] == [] && ws[b] == []) <==> b < m)
    ensures NonEmptyCount(ids, ws) == m
    decreases |ids|
  {
    if |ids| > 0 {
      var n := |ids| - 1;
      if m == |ids| {
        NonEmptyCountPrefix(ids[..n], ws[..n], n);
      } else {
        NonEmptyCountPrefix(ids[..n], ws[..n], m);
      }
    }
  }

  /** Weight of each entry of a collapsed basket: its species' weight times its count. */
  function EntryWeights(all: seq<Species>, t: seq<(nat, nat)>): seq<nat>
    requires forall e :: 0 <= e < |t| ==> t[e].0 < |all|
  {
    seq(|t|, e requires 0 <= e < |t| => Weight(all[t[e].0].complex) * t[e].1)
  }

  /** `items` is one collapsed basket, and `tally` the species ids behind it. */
  predicate Collapsed(all: seq<Species>, tally: seq<(nat, nat)>, items: seq<(string, nat)>) {
    && |tally| >= 1
    && |items| == |tally|
    && DistinctKeys(tally)
    && forall e :: 0 <= e < |tally| ==>
         tally[e].0 < |all| && tally[e].1 >= 1 && items[e] == (all[tally[e].0].complex, tally[e].1)
  }

  /** The weights a basket holds are those of the species whose ids it holds. */
  lemma {:induction false} WhereFacts(all: seq<Species>, copies: seq<Copy>, assign: seq<nat>, b: nat)
    requires |assign| == |copies| && CopiesOf(all, copies)
    ensures |IdsWhere(copies, assign, b)| == |WeightsWhere(copies, assign, b)|
    ensures forall p :: 0 <= p < |IdsWhere(copies, assign, b)| ==>
              IdsWhere(copies, assign, b)[p] < |all| &&
              WeightsWhere(copies, assign, b)[p] == Weight(all[IdsWhere(copies, assign, b)[p]].complex)
    decreases |copies|
  {
    if |copies| > 0 {
      var n := |copies| - 1;
      assert CopiesOf(all, copies[..n]) by {
        assert forall j :: 0 <= j < n ==> copies[..n][j] == copies[j];
      }
      WhereFacts(all, copies[..n], assign[..n], b);
      assert CopyOf(all, copies[n]);
    }
  }

  /** Summing a value that is the same `w` at every position of `x` gives `w` times the count of `x`. */
  lemma {:induction false} SumForConstant(ids: seq<nat>, ws: seq<nat>, x: nat, w: nat)
    requires |ids| == |ws|
    requires forall p :: 0 <= p < |ids| && ids[p] == x ==> ws[p] == w
    ensures SumFor(ids, ws, x) == w * Count(ids, x)
    decreases |ids|
  {
    if |ids| > 0 {
      var n := |ids| - 1;
      SumForConstant(ids[..n], ws[..n], x, w);
      var c := Count(ids[..n], x);
      if ids[n] == x {
        assert w * (c + 1) == w * c + w;
      }
    }
  }

  /** The weight of a basket equals the weight of its collapsed `(complex, count)` list. */
  lemma BasketWeight(all: seq<Species>, ids: seq<nat>, ws: seq<nat>)
    requires |ids| == |ws|
    requires forall p :: 0 <= p < |ids| ==> ids[p] < |all| && ws[p] == Weight(all[ids[p]].complex)
    ensures forall e :: 0 <= e < |Tally(ids)| ==> Tally(ids)[e].0 < |all|
    ensures Sum(ws) == Sum(EntryWeights(all, Tally(ids)))
  {
    var t, d := Tally(ids), Dedup(ids);
    DedupMembers(ids);
    forall e | 0 <= e < |t|
      ensures t[e].0 < |all|
    {
      var p :| 0 <= p < |ids| && ids[p] == d[e];
    }
    GroupSumsTotal(ids, ws);
    forall e | 0 <= e < |t|
      ensures EntryWeights(all, t)[e] == GroupSums(ids, ws)[e]
    {
      SumForConstant(ids, ws, d[e], Weight(all[d[e]].complex));
    }
    assert EntryWeights(all, t) == GroupSums(ids, ws);
  }

  /** A thread's species list: each tallied id replaced by its complex text, with the id's count. */
  function Items(all: seq<Species>, tally: seq<(nat, nat)>): (items: seq<(string, nat)>)
    requires forall e :: 0 <= e < |tally| ==> tally[e].0 < |all|
    ensures |items| == |tally|
  {
    seq(|tally|, e requires 0 <= e < |tally| => (all[tally[e].0].complex, tally[e].1))
  }

  /** Every id held by a basket names a species of `all`. */
  predicate IdsIn(all: seq<Species>, ids: seq<seq<nat>>) {
    forall b, p :: 0 <= b < |ids| && 0 <= p < |ids[b]| ==> ids[b][p] < |all|
  }

  lemma TallyKeysIn(all: seq<Species>, s: seq<nat>)
    requires forall p :: 0 <= p < |s| ==> s[p] < |all|
    ensures forall e :: 0 <= e < |Tally(s)| ==> Tally(s)[e].0 < |all|
  {
    DedupMembers(s);
    forall e | 0 <= e < |Tally(s)|
      ensures Tally(s)[e].0 < |all|
    {
      var p :| 0 <= p < |s| && s[p] == Dedup(s)[e];
    }
  }

  /** Thread `items` was collapsed from the non-empty basket `o`, with `tally` its `Counter`. */
  predicate ThreadOf(all: seq<Species>, ids: seq<seq<nat>>, ws: seq<seq<nat>>, o: nat,
                     tally: seq<(nat, nat)>, items: seq<(string, nat)>, load: nat)
  {
    && o < |ids| && o < |ws|
    && load == Sum(ws[o])
    && !(ids[o] == [] && ws[o] == [])
    && tally == Tally(ids[o])
    && KeysIn(all, tally)
    && items == Items(all, tally)
  }

  /** The loop invariant of `CollapseBaskets` after the first `b` baskets. */
  ghost predicate CollapsedSoFar(all: seq<Species>, ids: seq<seq<nat>>, ws: seq<seq<nat>>, b: nat,
                                 threads: seq<seq<(string, nat)>>, tallies: seq<seq<(nat, nat)>>,
                                 origin: seq<nat>, loads: seq<nat>)
    requires |ids| == |ws| && b <= |ids|
  {
    && |threads| == |tallies| == |origin| == |loads| == NonEmptyCount(ids[..b], ws[..b])
    && (forall t :: 0 <= t < |origin| ==> origin[t] < b && ThreadOf(all, ids, ws, origin[t], tallies[t], threads[t], loads[t]))
    && (forall t, u :: 0 <= t < u < |origin| ==> origin[t] < origin[u])
    && (forall i :: TallyTotal(tallies, i) == SumCounts(ids[..b], i))
  }

  /** One basket: an empty one is skipped, any other adds its thread. */
  lemma CollapseStep(all: seq<Species>, ids: seq<seq<nat>>, ws: seq<seq<nat>>, b: nat,
                     threads: seq<seq<(string, nat)>>, tallies: seq<seq<(nat, nat)>>, origin: seq<nat>, loads: seq<nat>,
                     tally: seq<(nat, nat)>, items: seq<(string, nat)>, load: nat,
                     threads': seq<seq<(string, nat)>>, tallies': seq<seq<(nat, nat)>>, origin': seq<nat>, loads': seq<nat>)
    requires |ids| == |ws| && b < |ids|
    requires CollapsedSoFar(all, ids, ws, b, threads, tallies, origin, loads)
    requires ids[b] == [] && ws[b] == [] ==>
      threads' == threads && tallies' == tallies && origin' == origin && loads' == loads
    requires !(ids[b] == [] && ws[b] == []) ==>
      && ThreadOf(all, ids, ws, b, tally, items, load)
      && threads' == threads + [items] && tallies' == tallies + [tally]
      && origin' == origin + [b] && loads' == loads + [load]
    ensures CollapsedSoFar(all, ids, ws, b + 1, threads', tallies', origin', loads')
  {
    PrefixStep(ids, b);
    PrefixStep(ws, b);
    assert ids[..b + 1][..b] == ids[..b] && ws[..b + 1][..b] == ws[..b];
    if !(ids[b] == [] && ws[b] == []) {
      forall i
        ensures TallyTotal(tallies', i) == SumCounts(ids[..b + 1], i)
      {
        TallyCounts(ids[b], i);
        assert tallies'[..|tallies|] == tallies;
      }
    } else {
      forall i
        ensures TallyTotal(tallies', i) == SumCounts(ids[..b + 1], i)
      {
        assert Count(ids[b], i) == 0;
      }
    }
  }

  /**
   * The loop over `baskets.items()` that builds `complexes_for_threads`.
   * The ghost `origin[t]` is the basket thread `t` was made from and
   * `loads[t]` that basket's weight.
   */
  method CollapseBaskets(all: seq<Species>, ids: seq<seq<nat>>, ws: seq<seq<nat>>)
    returns (threads: seq<seq<(string, nat)>>, ghost tallies: seq<seq<(nat, nat)>>,
             ghost origin: seq<nat>, ghost loads: seq<nat>)
    requires |ids| == |ws| && IdsIn(all, ids)
    ensures |threads| == NonEmptyCount(ids, ws)
    ensures |threads| == |tallies| == |origin| == |loads|
    ensures forall t :: 0 <= t < |origin| ==> ThreadOf(all, ids, ws, origin[t], tallies[t], threads[t], loads[t])
    ensures forall t, u :: 0 <= t < u < |origin| ==> origin[t] < origin[u]
    ensures forall i :: TallyTotal(tallies, i) == SumCounts(ids, i)
  {
    threads, tallies, origin, loads := [], [], [], [];
    for b := 0 to |ids|
      invariant CollapsedSoFar(all, ids, ws, b, threads, tallies, origin, loads)
    {
      ghost var threads0, tallies0, origin0, loads0 := threads, tallies, origin, loads;
      var tally: seq<(nat, nat)>, items: seq<(string, nat)>, load: nat := [], [], 0;
      if !(ids[b] == [] && ws[b] == []) {
        tally := Tally(ids[b]);
        TallyKeysIn(all, ids[b]);
        items := Items(all, tally);
        load := Sum(ws[b]);
        threads, tallies, origin, loads := threads + [items], tallies + [tally], origin + [b], loads + [load];
      }
      CollapseStep(all, ids, ws, b, threads0, tallies0, origin0, loads0, tally, items, load, threads, tallies, origin, loads);
    }
    assert ids[..|ids|] == ids && ws[..|ws|] == ws;
  }

  predicate KeysIn(all: seq<Species>, tally: seq<(nat, nat)>) {
    forall e :: 0 <= e < |tally| ==> tally[e].0 < |all|
  }

  lemma {:induction false} WeightsEmpty(copies: seq<Copy>, assign: seq<nat>, b: nat)
    requires |assign| == |copies|
    requires forall p :: 0 <= p < |copies| ==> copies[p].weight >= 1
    ensures WeightsWhere(copies, assign, b) == [] <==> Sum(WeightsWhere(copies, assign, b)) == 0
    decreases |copies|
  {
    if |copies| > 0 {
      var n := |copies| - 1;
      WeightsEmpty(copies[..n], assign[..n], b);
      var w := WeightsWhere(copies[..n], assign[..n], b);
      if assign[n] == b {
        assert (w + [copies[n].weight])[..|w|] == w;
      } else {
        assert w + [] == w;
      }
    }
  }

  /** The heaviest species weight: no copy weighs more. */
  function MaxWeight(all: seq<Species>): (w: nat)
    ensures forall i :: 0 <= i < |all| ==> Weight(all[i].complex) <= w
    decreases |all|
  {
    if |all| == 0 then 0
    else
      var w := MaxWeight(all[..|all| - 1]);
      var last := Weight(all[|all| - 1].complex);
      assert forall i :: 0 <= i < |all| - 1 ==> all[i] == all[..|all| - 1][i];
      if last > w then last else w
  }

  /** Baskets whose ids name species of `all` and whose weights are those species' weights. */
  predicate BasketsOf(all: seq<Species>, ids: seq<seq<nat>>, ws: seq<seq<nat>>) {
    && |ids| == |ws|
    && IdsIn(all, ids)
    && (forall b :: 0 <= b < |ids| ==> |ids[b]| == |ws[b]|)
    && (forall b, p :: 0 <= b < |ids| && 0 <= p < |ids[b]| ==> ws[b][p] == Weight(all[ids[b][p]].complex))
  }

  /** No basket outweighs another by more than `heaviest`. */
  predicate Balanced(ws: seq<seq<nat>>, heaviest: nat) {
    forall a, b :: 0 <= a < |ws| && 0 <= b < |ws| ==> Sum(ws[a]) <= Sum(ws[b]) + heaviest
  }

  /** The facts about one round of assignment that the top-level method needs. */
  lemma AssignmentFacts(all: seq<Species>, copies: seq<Copy>, assign: seq<nat>, k: nat,
                        ids: seq<seq<nat>>, ws: seq<seq<nat>>)
    requires CopiesOf(all, copies) && Greedy(copies, assign, k)
    requires |ids| == k && |ws| == k
    requires forall b :: 0 <= b < k ==> ids[b] == IdsWhere(copies, assign, b) && ws[b] == WeightsWhere(copies, assign, b)
    ensures BasketsOf(all, ids, ws)
    ensures NonEmptyCount(ids, ws) == Min(k, |copies|)
    ensures Balanced(ws, MaxWeight(all))
  {
    var n := |copies|;
    forall p | 0 <= p < n
      ensures copies[p].weight >= 1 && copies[p].weight <= MaxWeight(all)
    {
      assert CopyOf(all, copies[p]);
    }
    forall b | 0 <= b < k
      ensures |ids[b]| == |ws[b]|
      ensures forall p :: 0 <= p < |ids[b]| ==> ids[b][p] < |all| && ws[b][p] == Weight(all[ids[b][p]].complex)
      ensures ws[b] == [] <==> Sum(ws[b]) == 0
    {
      WhereFacts(all, copies, assign, b);
      WeightsEmpty(copies, assign, b);
    }
    GreedyFills(copies, assign, k);
    GreedySpread(copies, assign, k, MaxWeight(all), n);
    assert copies[..n] == copies && assign[..n] == assign;
    assert forall b :: 0 <= b < k ==> LoadsAt(copies, assign, k, n)[b] == Sum(ws[b]);
    NonEmptyCountPrefix(ids, ws, Min(k, n));
  }

  /** A collapsed basket lists each of its species once, with its complex and its count. */
  lemma CollapsedTally(all: seq<Species>, ids: seq<nat>, ws: seq<nat>)
    requires |ids| == |ws| && |ids| >= 1
    requires forall p :: 0 <= p < |ids| ==> ids[p] < |all| && ws[p] == Weight(all[ids[p]].complex)
    ensures KeysIn(all, Tally(ids))
    ensures Collapsed(all, Tally(ids), Items(all, Tally(ids)))
    ensures Sum(ws) == Sum(EntryWeights(all, Tally(ids)))
  {
    TallyKeysIn(all, ids);
    TallyCounts(ids, 0);
    DedupMembers(ids);
    BasketWeight(all, ids, ws);
  }

  /** Every thread is a well-formed collapsed basket whose weight is its load; the loads are balanced. */
  lemma ThreadsFacts(all: seq<Species>, ids: seq<seq<nat>>, ws: seq<seq<nat>>, tallies: seq<seq<(nat, nat)>>,
                     threads: seq<seq<(string, nat)>>, origin: seq<nat>, loads: seq<nat>)
    requires BasketsOf(all, ids, ws) && Balanced(ws, MaxWeight(all))
    requires |tallies| == |threads| == |origin| == |loads|
    requires forall t :: 0 <= t < |origin| ==> ThreadOf(all, ids, ws, origin[t], tallies[t], threads[t], loads[t])
    ensures forall t :: 0 <= t < |tallies| ==> Collapsed(all, tallies[t], threads[t])
    ensures forall t :: 0 <= t < |loads| ==> KeysIn(all, tallies[t]) && loads[t] == Sum(EntryWeights(all, tallies[t]))
    ensures forall t, u :: 0 <= t < |loads| && 0 <= u < |loads| ==> loads[t] <= loads[u] + MaxWeight(all)
  {
    forall t | 0 <= t < |tallies|
      ensures Collapsed(all, tallies[t], threads[t])
      ensures KeysIn(all, tallies[t]) && loads[t] == Sum(EntryWeights(all, tallies[t]))
    {
      var o := origin[t];
      assert ThreadOf(all, ids, ws, o, tallies[t], threads[t], loads[t]);
      CollapsedTally(all, ids[o], ws[o]);
    }
    forall t, u | 0 <= t < |loads| && 0 <= u < |loads|
      ensures loads[t] <= loads[u] + MaxWeight(all)
    {
      assert ThreadOf(all, ids, ws, origin[t], tallies[t], threads[t], loads[t]);
      assert ThreadOf(all, ids, ws, origin[u], tallies[u], threads[u], loads[u]);
    }
  }

  /** Every copy of every species ends up in exactly one thread's count. */
  lemma SplitCoverage(all: seq<Species>, rearranged: seq<Copy>, ids: seq<seq<nat>>, tallies: seq<seq<(nat, nat)>>)
    requires multiset(rearranged) == multiset(Expand(all))
    requires forall i :: SumCounts(ids, i) == IdCount(rearranged, i)
    requires forall i :: TallyTotal(tallies, i) == SumCounts(ids, i)
    ensures forall i :: 0 <= i < |all| ==> TallyTotal(tallies, i) == all[i].count
  {
    forall i | 0 <= i < |all|
      ensures TallyTotal(tallies, i) == all[i].count
    {
      ExpandFacts(all, i);
      IdCountPermutation(rearranged, Expand(all), i);
    }
  }

  lemma RearrangedCopies(all: seq<Species>, rearranged: seq<Copy>)
    requires multiset(rearranged) == multiset(Expand(all))
    ensures CopiesOf(all, rearranged)
  {
    ExpandFacts(all, 0);
    forall j | 0 <= j < |rearranged|
      ensures CopyOf(all, rearranged[j])
    {
      assert rearranged[j] in multiset(Expand(all));
    }
  }

  /**
   * `get_split_complexes`: `threads` is `complexes_for_threads` and
   * `possibleThreadCount` is `possible_thread_count`; `ok` is false where
   * the source raises `KeyError`. The ghost `tallies`
   * keep the species index behind every `(complex, count)` pair and `loads`
   * the total weight of every thread.
   */
  method GetSplitComplexes(all: seq<Species>, k: nat, choices: seq<nat>)
    returns (ok: bool, threads: seq<seq<(string, nat)>>, possibleThreadCount: nat,
             ghost tallies: seq<seq<(nat, nat)>>, ghost loads: seq<nat>)
    requires ValidChoices(choices, RestLength(TotalCount(all), k))
    ensures ok <==> k >= 1 || TotalCount(all) == 0
    ensures ok ==> possibleThreadCount == |threads| == Min(k, TotalCount(all))
    ensures ok ==> |tallies| == |threads| == |loads|
    ensures ok ==> forall t :: 0 <= t < |tallies| ==> Collapsed(all, tallies[t], threads[t])
    ensures ok ==> forall i :: 0 <= i < |all| ==> TallyTotal(tallies, i) == all[i].count
    ensures ok ==> forall t :: 0 <= t < |loads| ==> KeysIn(all, tallies[t]) && loads[t] == Sum(EntryWeights(all, tallies[t]))
    ensures ok ==> forall t, u :: 0 <= t < |loads| && 0 <= u < |loads| ==> loads[t] <= loads[u] + MaxWeight(all)
  {
    var expanded := ExpandSpecies(all);
    ExpandFacts(all, 0);
    var rearranged := Rearranged(expanded, k, choices);
    RearrangedCopies(all, rearranged);
    var ids, ws;
    ghost var assign;
    ok, ids, ws, assign := AssignToBaskets(rearranged, k);
    if !ok {
      return false, [], 0, [], [];
    }
    AssignmentFacts(all, rearranged, assign, k, ids, ws);
    possibleThreadCount := NonEmptyCount(ids, ws);
    ghost var origin;
    threads, tallies, origin, loads := CollapseBaskets(all, ids, ws);
    ThreadsFacts(all, ids, ws, tallies, threads, origin, loads);
    SplitCoverage(all, rearranged, ids, tallies);
  }
}
