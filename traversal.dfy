/**
 * `bind` and `look` of the post-processor: a breadth-first walk over the
 * sorted strands of one complex. The first strand is read 5'→3'; every
 * bonded token sends the walk to the first strand holding its partner
 * token (`look`), which is recorded once, with the orientation opposite to
 * the strand it was reached from. Strands are named by their position in
 * the sorted complex (their labels `<id>.<n>` are distinct, see
 * `StrandSort.StrandLabelsDistinct`).
 *
 * The source keeps the walk in `temp` (recorded labels, then `None`
 * padding), `q` (label/orientation pairs) and a counter `n`; here `order`
 * and `orient` are the recorded labels and their orientations. When `look`
 * finds nothing the token is skipped while `temp` still has padding, and
 * the source fails with a `TypeError` once it has none: that is `None`.
 */
module Traversal {

  import opened Wrappers
  import opened Collections
  import opened Tokens

  /** The direction a strand is written in: `'5'` (5'→3') or `'3'`. */
  datatype Orient = Five | Three

  /** `orie_dic`. */
  function Flip(o: Orient): (r: Orient)
    ensures r != o
  {
    if o == Five then Three else Five
  }

  /** `look`: the first strand holding the token `co`. */
  function Look(strands: seq<seq<string>>, co: string): (r: Option<nat>)
    ensures r.Some? ==> r.value < |strands| && co in strands[r.value]
    ensures r.Some? ==> forall j :: 0 <= j < r.value ==> co !in strands[j]
    ensures r.None? ==> forall j :: 0 <= j < |strands| ==> co !in strands[j]
    decreases |strands|
  {
    if |strands| == 0 then None
    else if co in strands[0] then Some(0)
    else
      match Look(strands[1..], co)
      case Some(j) =>
        assert forall i :: 0 <= i < j ==> strands[1..][i] == strands[i + 1];
        Some(j + 1)
      case None =>
        assert forall i :: 1 <= i < |strands| ==> strands[i] == strands[1..][i - 1];
        None
  }

  /** The strand a token leads to: the first holder of its partner. */
  function Reach(strands: seq<seq<string>>, u: string): (r: Option<nat>)
    ensures r.Some? ==> r.value < |strands|
  {
    match Partner(u)
    case Some(co) => Look(strands, co)
    case None => None
  }

  /** A bonded token whose partner no strand holds. */
  predicate Dangling(strands: seq<seq<string>>, u: string) {
    Partner(u).Some? && Look(strands, Partner(u).value).None?
  }

  ghost predicate Adjacent(strands: seq<seq<string>>, a: nat, b: nat) {
    a < |strands| && exists u :: u in strands[a] && Reach(strands, u) == Some(b)
  }

  /** `ll_1`: the recorded strands in discovery order, with their orientations. */
  datatype Traversed = Traversed(order: seq<nat>, orient: seq<Orient>)

  predicate Valid(strands: seq<seq<string>>, tr: Traversed) {
    && |tr.order| == |tr.orient|
    && |tr.order| <= |strands|
    && Distinct(tr.order)
    && (forall k :: 0 <= k < |tr.order| ==> tr.order[k] < |strands|)
  }

  /** `tr'` is `tr` with more strands recorded after it. */
  predicate Extends(tr': Traversed, tr: Traversed) {
    && |tr.order| <= |tr'.order| && tr'.order[..|tr.order|] == tr.order
    && |tr.orient| <= |tr'.orient| && tr'.orient[..|tr.orient|] == tr.orient
  }

  lemma ExtendsTransitive(a: Traversed, b: Traversed, c: Traversed)
    requires Extends(a, b) && Extends(b, c)
    ensures Extends(a, c)
  {
    assert a.order[..|c.order|] == a.order[..|b.order|][..|c.order|];
    assert a.orient[..|c.orient|] == a.orient[..|b.orient|][..|c.orient|];
  }

  lemma ExtendsChain(r: Option<Traversed>, next: Traversed, tr: Traversed)
    requires Extends(next, tr)
    ensures r.Some? && Extends(r.value, next) ==> Extends(r.value, tr)
  {
    if r.Some? && Extends(r.value, next) {
      ExtendsTransitive(r.value, next, tr);
    }
  }

  /** One token of the strand being visited, which has orientation `o`. */
  function DiscoverOne(strands: seq<seq<string>>, tr: Traversed, o: Orient, u: string): (r: Option<Traversed>)
    requires Valid(strands, tr)
    ensures r.Some? ==> Valid(strands, r.value) && Extends(r.value, tr)
    ensures r.None? <==> Dangling(strands, u) && |tr.order| == |strands|
  {
    match Partner(u)
    case None => Some(tr)
    case Some(co) =>
      match Look(strands, co)
      case Some(j) =>
        if j in tr.order then Some(tr)
        else
          DistinctBelow(tr.order, |strands|);
          assert (tr.order + [j])[..|tr.order|] == tr.order;
          assert (tr.orient + [Flip(o)])[..|tr.orient|] == tr.orient;
          Some(Traversed(tr.order + [j], tr.orient + [Flip(o)]))
      case None => if |tr.order| == |strands| then None else Some(tr)
  }

  /** All tokens of the visited strand, in order. */
  function Discover(strands: seq<seq<string>>, tr: Traversed, o: Orient, tokens: seq<string>): (r: Option<Traversed>)
    requires Valid(strands, tr)
    ensures r.Some? ==> Valid(strands, r.value) && Extends(r.value, tr)
    decreases |tokens|
  {
    if |tokens| == 0 then Some(tr)
    else
      match DiscoverOne(strands, tr, o, tokens[0])
      case None => None
      case Some(next) =>
        var r := Discover(strands, next, o, tokens[1..]);
        ExtendsChain(r, next, tr);
        r
  }

  /** Visit the recorded strands from position `p` on, until none is left or all are recorded. */
  function Bfs(strands: seq<seq<string>>, tr: Traversed, p: nat): (r: Option<Traversed>)
    requires Valid(strands, tr) && p <= |tr.order|
    ensures r.Some? ==> Valid(strands, r.value) && Extends(r.value, tr)
    decreases |strands| - p
  {
    if p == |tr.order| || |tr.order| == |strands| then Some(tr)
    else
      match Discover(strands, tr, tr.orient[p], strands[tr.order[p]])
      case None => None
      case Some(next) =>
        var r := Bfs(strands, next, p + 1);
        ExtendsChain(r, next, tr);
        r
  }

  /** The walk from the first strand, read 5'→3'. */
  function Traversal(strands: seq<seq<string>>): (r: Option<Traversed>)
    requires |strands| >= 1
    ensures r.Some? ==> Valid(strands, r.value) && |r.value.order| >= 1
    ensures r.Some? ==> r.value.order[0] == 0 && r.value.orient[0] == Five
  {
    var r := Bfs(strands, Traversed([0], [Five]), 0);
    if r.Some? then
      assert r.value.order[..1] == [0] && r.value.orient[..1] == [Five];
      r
    else r
  }

  /** `bind` for one complex. */
  method Bind(strands: seq<seq<string>>) returns (r: Option<Traversed>)
    requires |strands| >= 1
    ensures r == Traversal(strands)
  {
    var tr := Traversed([0], [Five]);
    var p := 0;
    while p < |tr.order| && |tr.order| < |strands|
      invariant Valid(strands, tr) && p <= |tr.order|
      invariant Bfs(strands, tr, p) == Traversal(strands)
      decreases |strands| - p
    {
      var t, o := tr.order[p], tr.orient[p];
      ghost var start := tr;
      var tokens := strands[t];
      for i := 0 to |tokens|
        invariant Valid(strands, tr) && Extends(tr, start)
        invariant Discover(strands, start, o, tokens) == Discover(strands, tr, o, tokens[i..])
      {
        var u := tokens[i];
        assert tokens[i..][0] == u && tokens[i..][1..] == tokens[i + 1..];
        ghost var before := tr;
        if |u| > 1 && Complement(u[0]).Some? {
          var co := [Complement(u[0]).value] + u[1..];
          var found := Look(strands, co);
          if found.Some? {
            var j := found.value;
            if j !in tr.order {
              tr := Traversed(tr.order + [j], tr.orient + [Flip(o)]);
            }
          } else if |tr.order| == |strands| {
            return None;
          }
        }
        assert DiscoverOne(strands, before, o, u) == Some(tr);
        ExtendsTransitive(tr, before, start);
      }
      assert tokens[|tokens|..] == [];
      p := p + 1;
    }
    return Some(tr);
  }

  /* ---------------- what the walk records ---------------- */

  /**
   * The `k`-th recorded strand was first reached from the `q`-th: `q` is
   * the earliest recorded strand adjacent to it, and the orientations are
   * opposite.
   */
  ghost predicate FirstReachedFrom(strands: seq<seq<string>>, tr: Traversed, k: nat, q: nat)
    requires Valid(strands, tr) && k < |tr.order|
  {
    && q < k
    && Adjacent(strands, tr.order[q], tr.order[k])
    && tr.orient[k] == Flip(tr.orient[q])
    && forall q' :: 0 <= q' < q ==> !Adjacent(strands, tr.order[q'], tr.order[k])
  }

  ghost predicate HasParent(strands: seq<seq<string>>, tr: Traversed, k: nat)
    requires Valid(strands, tr) && k < |tr.order|
  {
    exists q :: FirstReachedFrom(strands, tr, k, q)
  }

  ghost predicate Parents(strands: seq<seq<string>>, tr: Traversed)
    requires Valid(strands, tr)
  {
    forall k :: 1 <= k < |tr.order| ==> HasParent(strands, tr, k)
  }

  /** Every strand that a token of the first `p` recorded strands leads to is recorded. */
  ghost predicate ClosedBelow(strands: seq<seq<string>>, tr: Traversed, p: nat)
    requires Valid(strands, tr)
  {
    p <= |tr.order| &&
    forall q, u :: 0 <= q < p && u in strands[tr.order[q]] && Reach(strands, u).Some? ==> Reach(strands, u).value in tr.order
  }

  lemma ParentsExtended(strands: seq<seq<string>>, tr: Traversed, tr': Traversed, k: nat, q: nat)
    requires Valid(strands, tr) && Valid(strands, tr') && Extends(tr', tr)
    requires k < |tr.order| && FirstReachedFrom(strands, tr, k, q)
    ensures FirstReachedFrom(strands, tr', k, q)
  {
    assert tr'.order[k] == tr.order[k] && tr'.order[q] == tr.order[q];
    assert tr'.orient[k] == tr.orient[k] && tr'.orient[q] == tr.orient[q];
    forall q' | 0 <= q' < q
      ensures tr'.order[q'] == tr.order[q']
    {
      assert tr'.order[..|tr.order|][q'] == tr.order[q'];
    }
  }

  lemma DiscoverOneFacts(strands: seq<seq<string>>, tr: Traversed, p: nat, u: string)
    requires Valid(strands, tr) && p < |tr.order| && Parents(strands, tr) && ClosedBelow(strands, tr, p)
    requires u in strands[tr.order[p]]
    requires DiscoverOne(strands, tr, tr.orient[p], u).Some?
    ensures var r := DiscoverOne(strands, tr, tr.orient[p], u).value;
            Parents(strands, r) && ClosedBelow(strands, r, p)
            && (Reach(strands, u).Some? ==> Reach(strands, u).value in r.order)
  {
    var r := DiscoverOne(strands, tr, tr.orient[p], u).value;
    forall k | 1 <= k < |r.order|
      ensures HasParent(strands, r, k)
    {
      if k < |tr.order| {
        assert HasParent(strands, tr, k);
        var q :| FirstReachedFrom(strands, tr, k, q);
        ParentsExtended(strands, tr, r, k, q);
      } else {
        var j := r.order[k];
        assert r.order[p] == tr.order[p] && r.orient[p] == tr.orient[p];
        assert Reach(strands, u) == Some(j);
        assert Adjacent(strands, r.order[p], j);
        forall q' | 0 <= q' < p
          ensures !Adjacent(strands, r.order[q'], j)
        {
          assert r.order[q'] == tr.order[q'];
        }
        assert FirstReachedFrom(strands, r, k, p);
      }
    }
    forall q, w | 0 <= q < p && w in strands[r.order[q]] && Reach(strands, w).Some?
      ensures Reach(strands, w).value in r.order
    {
      assert r.order[q] == tr.order[q];
      assert Reach(strands, w).value in tr.order;
      assert tr.order == r.order[..|tr.order|];
    }
  }

  lemma {:induction false} DiscoverFacts(strands: seq<seq<string>>, tr: Traversed, p: nat, tokens: seq<string>)
    requires Valid(strands, tr) && p < |tr.order| && Parents(strands, tr) && ClosedBelow(strands, tr, p)
    requires forall i :: 0 <= i < |tokens| ==> tokens[i] in strands[tr.order[p]]
    requires Discover(strands, tr, tr.orient[p], tokens).Some?
    ensures var r := Discover(strands, tr, tr.orient[p], tokens).value;
            Parents(strands, r) && ClosedBelow(strands, r, p)
            && forall i :: 0 <= i < |tokens| && Reach(strands, tokens[i]).Some? ==> Reach(strands, tokens[i]).value in r.order
    decreases |tokens|
  {
    if |tokens| > 0 {
      var next := DiscoverOne(strands, tr, tr.orient[p], tokens[0]).value;
      DiscoverOneFacts(strands, tr, p, tokens[0]);
      assert next.orient[p] == tr.orient[p] && next.order[p] == tr.order[p];
      DiscoverFacts(strands, next, p, tokens[1..]);
      var r := Discover(strands, tr, tr.orient[p], tokens).value;
      assert r == Discover(strands, next, tr.orient[p], tokens[1..]).value;
      forall i | 0 <= i < |tokens| && Reach(strands, tokens[i]).Some?
        ensures Reach(strands, tokens[i]).value in r.order
      {
        if i == 0 {
          assert next.order == r.order[..|next.order|];
        } else {
          assert tokens[i] == tokens[1..][i - 1];
        }
      }
    }
  }

  lemma {:induction false} BfsFacts(strands: seq<seq<string>>, tr: Traversed, p: nat)
    requires Valid(strands, tr) && p <= |tr.order| && Parents(strands, tr) && ClosedBelow(strands, tr, p)
    requires Bfs(strands, tr, p).Some?
    ensures var r := Bfs(strands, tr, p).value;
            Parents(strands, r) && ClosedBelow(strands, r, |r.order|)
    decreases |strands| - p
  {
    if p == |tr.order| {
    } else if |tr.order| == |strands| {
      DistinctBelow(tr.order, |strands|);
    } else {
      var tokens := strands[tr.order[p]];
      DiscoverFacts(strands, tr, p, tokens);
      var next := Discover(strands, tr, tr.orient[p], tokens).value;
      assert next.order[p] == tr.order[p];
      forall q, u | 0 <= q < p + 1 && u in strands[next.order[q]] && Reach(strands, u).Some?
        ensures Reach(strands, u).value in next.order
      {
        if q == p {
          var i :| 0 <= i < |tokens| && tokens[i] == u;
        }
      }
      BfsFacts(strands, next, p + 1);
    }
  }

  /**
   * What `bind` records: distinct strands, the first one read 5'→3'; every
   * later one first reached from the earliest recorded strand adjacent to
   * it, with the opposite orientation; and every strand a recorded strand
   * leads to is recorded. So exactly the strands connected to the first
   * are recorded, and the rest are dropped.
   */
  lemma TraversalFacts(strands: seq<seq<string>>)
    requires |strands| >= 1 && Traversal(strands).Some?
    ensures var tr := Traversal(strands).value;
            Valid(strands, tr) && tr.order[0] == 0 && tr.orient[0] == Five
            && Parents(strands, tr)
            && ClosedBelow(strands, tr, |tr.order|)
  {
    var init := Traversed([0], [Five]);
    assert Parents(strands, init);
    BfsFacts(strands, init, 0);
  }

  /* ---------------- when the walk fails ---------------- */

  predicate NoDangling(strands: seq<seq<string>>) {
    forall j, u :: 0 <= j < |strands| && u in strands[j] ==> !Dangling(strands, u)
  }

  lemma {:induction false} DiscoverSucceeds(strands: seq<seq<string>>, tr: Traversed, o: Orient, tokens: seq<string>)
    requires Valid(strands, tr)
    requires forall i :: 0 <= i < |tokens| ==> !Dangling(strands, tokens[i])
    ensures Discover(strands, tr, o, tokens).Some?
    decreases |tokens|
  {
    if |tokens| > 0 {
      DiscoverSucceeds(strands, DiscoverOne(strands, tr, o, tokens[0]).value, o, tokens[1..]);
    }
  }

  lemma {:induction false} BfsSucceeds(strands: seq<seq<string>>, tr: Traversed, p: nat)
    requires Valid(strands, tr) && p <= |tr.order| && NoDangling(strands)
    ensures Bfs(strands, tr, p).Some?
    decreases |strands| - p
  {
    if p < |tr.order| && |tr.order| < |strands| {
      var tokens := strands[tr.order[p]];
      DiscoverSucceeds(strands, tr, tr.orient[p], tokens);
      BfsSucceeds(strands, Discover(strands, tr, tr.orient[p], tokens).value, p + 1);
    }
  }

  /** `bind` fails only on a complex with a bonded token whose partner is missing. */
  lemma TraversalFailsOnlyOnDangling(strands: seq<seq<string>>)
    requires |strands| >= 1 && NoDangling(strands)
    ensures Traversal(strands).Some?
  {
    BfsSucceeds(strands, Traversed([0], [Five]), 0);
  }

  /* ---------------- renaming bond numbers ---------------- */

  lemma {:induction false} LookRenamed(f: string -> string, strands: seq<seq<string>>, co: string)
    requires BondRenaming(f)
    ensures Look(RenameComplex(f, strands), RenameToken(f, co)) == Look(strands, co)
    decreases |strands|
  {
    if |strands| > 0 {
      RenamedMember(f, co, strands[0]);
      assert RenameComplex(f, strands)[1..] == RenameComplex(f, strands[1..]);
      LookRenamed(f, strands[1..], co);
    }
  }

  lemma ReachRenamed(f: string -> string, strands: seq<seq<string>>, u: string)
    requires BondRenaming(f)
    ensures Reach(RenameComplex(f, strands), RenameToken(f, u)) == Reach(strands, u)
  {
    PartnerRenamed(f, u);
    if Partner(u).Some? {
      LookRenamed(f, strands, Partner(u).value);
    }
  }

  lemma DiscoverOneRenamed(f: string -> string, strands: seq<seq<string>>, tr: Traversed, o: Orient, u: string)
    requires BondRenaming(f) && Valid(strands, tr)
    ensures DiscoverOne(RenameComplex(f, strands), tr, o, RenameToken(f, u)) == DiscoverOne(strands, tr, o, u)
  {
    PartnerRenamed(f, u);
    if Partner(u).Some? {
      LookRenamed(f, strands, Partner(u).value);
    }
  }

  lemma {:induction false} DiscoverRenamed(f: string -> string, strands: seq<seq<string>>, tr: Traversed, o: Orient, tokens: seq<string>)
    requires BondRenaming(f) && Valid(strands, tr)
    ensures Discover(RenameComplex(f, strands), tr, o, RenameStrand(f, tokens)) == Discover(strands, tr, o, tokens)
    decreases |tokens|
  {
    if |tokens| > 0 {
      var renamed := RenameStrand(f, tokens);
      DiscoverOneRenamed(f, strands, tr, o, tokens[0]);
      assert renamed[0] == RenameToken(f, tokens[0]);
      assert renamed[1..] == RenameStrand(f, tokens[1..]);
      var next := DiscoverOne(strands, tr, o, tokens[0]);
      if next.Some? {
        DiscoverRenamed(f, strands, next.value, o, tokens[1..]);
      }
    }
  }

  lemma {:induction false} BfsRenamed(f: string -> string, strands: seq<seq<string>>, tr: Traversed, p: nat)
    requires BondRenaming(f) && Valid(strands, tr) && p <= |tr.order|
    ensures Bfs(RenameComplex(f, strands), tr, p) == Bfs(strands, tr, p)
    decreases |strands| - p
  {
    if p < |tr.order| && |tr.order| < |strands| {
      var tokens := strands[tr.order[p]];
      DiscoverRenamed(f, strands, tr, tr.orient[p], tokens);
      match Discover(strands, tr, tr.orient[p], tokens)
      case None =>
      case Some(next) => BfsRenamed(f, strands, next, p + 1);
    }
  }

  /** The walk does not depend on the bond numbers, only on which tokens pair up. */
  lemma TraversalRenamed(f: string -> string, strands: seq<seq<string>>)
    requires BondRenaming(f) && |strands| >= 1
    ensures Traversal(RenameComplex(f, strands)) == Traversal(strands)
  {
    BfsRenamed(f, strands, Traversed([0], [Five]), 0);
  }
}
