/**
 * `complexes_post_process`: the stages of the post-processor put
 * together. Every complex of the final species file is sorted
 * (`id_data` … `re_id_data`), walked (`bind`), oriented (`set_orient` …
 * `comp_sort`) and renumbered (`re_write`); equal results are merged
 * (`cal_same_comp`) and written as BioNetGen text (`make_bngl`).
 *
 * The source runs each stage over all complexes before the next stage;
 * the stages of one complex do not look at the others, so here each
 * complex goes through all of them in turn. A walk that fails (a
 * `TypeError` in `bind`) stops the whole post-process: that is `None`.
 */
module PostProcess {

  import opened Wrappers
  import opened Text
  import opened Collections
  import opened Tokens
  import opened StrandSort
  import opened Traversal
  import opened Orientation
  import opened Renumber
  import opened Merge
  import opened Bngl

  /**
   * A complex as `extract_ssdna` hands it over: at least one strand, no
   * empty strand, every token a base letter with an optional bond number.
   */
  predicate ComplexInput(strands: seq<seq<string>>) {
    && |strands| >= 1
    && WellFormedComplex(strands)
    && forall j :: 0 <= j < |strands| ==> |strands[j]| > 0
  }

  predicate AllInput(ds: seq<seq<seq<string>>>) {
    forall i :: 0 <= i < |ds| ==> ComplexInput(ds[i])
  }

  /** What `cal_same_comp` compares for one complex, or `None` when its walk fails. */
  function CanonOf(strands: seq<seq<string>>): (r: Option<Canon>)
    requires ComplexInput(strands)
  {
    var sorted := LexSorted(strands);
    match Traversal.Traversal(sorted)
    case None => None
    case Some(tr) =>
      var xs := OrientStrands(sorted, tr);
      Some(Canon(|Numbering(xs)|, Renumbered(xs)))
  }

  /** The stages of one complex, from its id entry to its renumbered strands. */
  method CanonKey(id: nat, strands: seq<seq<string>>) returns (r: Option<Canon>)
    requires ComplexInput(strands)
    ensures r == CanonOf(strands)
  {
    forall j | 0 <= j < |strands|
      ensures StartsWithLetter(strands[j])
    {
      assert WellFormedToken(strands[j][0]);
    }
    IdSortsFirst(id, strands);
    var sorted := LexSorted(WithId(id, strands));
    var body := sorted[1..];
    assert body == LexSorted(strands);
    var tr := Bind(body);
    if tr.None? {
      return None;
    }
    var xs := OrientStrands(body, tr.value);
    var ys, n := ReWrite(xs);
    return Some(Canon(n, ys));
  }

  /** Every complex of the file walks through. */
  predicate AllWalk(ds: seq<seq<seq<string>>>)
    requires AllInput(ds)
  {
    forall i :: 0 <= i < |ds| ==> CanonOf(ds[i]).Some?
  }

  function Keys(ds: seq<seq<seq<string>>>): (keys: seq<Canon>)
    requires AllInput(ds) && AllWalk(ds)
    ensures |keys| == |ds|
  {
    seq(|ds|, i requires 0 <= i < |ds| => CanonOf(ds[i]).value)
  }

  /** The pairs `make_bngl` returns for merged complexes and their summed amounts. */
  function Written(distinct: seq<Canon>, amounts: seq<nat>): (r: seq<(string, string)>)
    requires |distinct| == |amounts|
    requires forall i :: 0 <= i < |distinct| ==> ComplexOk(distinct[i].strands)
    ensures |r| == |distinct|
  {
    seq(|distinct|, i requires 0 <= i < |distinct| => (ComplexText(distinct[i]), NatToString(amounts[i])))
  }

  /** The result of `complexes_post_process` on the complexes `ds` with amounts `amounts`. */
  function PostProcessed(ds: seq<seq<seq<string>>>, amounts: seq<nat>): (r: Option<seq<(string, string)>>)
    requires |ds| == |amounts| && AllInput(ds)
  {
    if AllWalk(ds) then
      var keys := Keys(ds);
      KeysWritable(ds);
      Some(Written(Dedup(keys), GroupSums(keys, amounts)))
    else None
  }

  method ComplexesPostProcess(ds: seq<seq<seq<string>>>, amounts: seq<nat>) returns (r: Option<seq<(string, string)>>)
    requires |ds| == |amounts| && AllInput(ds)
    ensures r == PostProcessed(ds, amounts)
  {
    var keys := CanonKeys(ds);
    if keys.None? {
      return None;
    }
    var distinct, sums, _ := MergeSame(keys.value, amounts);
    KeysWritable(ds);
    var comps := MakeBngl(distinct, sums);
    WrittenAre(distinct, sums, comps);
    return Some(comps);
  }

  /** The keys of all complexes, in file order, or `None` as soon as one walk fails. */
  method CanonKeys(ds: seq<seq<seq<string>>>) returns (r: Option<seq<Canon>>)
    requires AllInput(ds)
    ensures r.Some? <==> AllWalk(ds)
    ensures r.Some? ==> r.value == Keys(ds)
  {
    var keys: seq<Canon> := [];
    for i := 0 to |ds|
      invariant |keys| == i
      invariant forall p :: 0 <= p < i ==> CanonOf(ds[p]) == Some(keys[p])
    {
      var key := CanonKey(i + 1, ds[i]);
      if key.None? {
        WalkFails(ds, i);
        return None;
      }
      KeyStep(ds, keys, i, key.value);
      keys := keys + [key.value];
    }
    KeysAre(ds, keys);
    return Some(keys);
  }

  lemma WalkFails(ds: seq<seq<seq<string>>>, i: nat)
    requires AllInput(ds) && i < |ds| && CanonOf(ds[i]).None?
    ensures !AllWalk(ds)
  {
  }

  lemma KeyStep(ds: seq<seq<seq<string>>>, keys: seq<Canon>, i: nat, key: Canon)
    requires AllInput(ds) && i < |ds| && |keys| == i && CanonOf(ds[i]) == Some(key)
    requires forall p :: 0 <= p < i ==> CanonOf(ds[p]) == Some(keys[p])
    ensures forall p :: 0 <= p <= i ==> CanonOf(ds[p]) == Some((keys + [key])[p])
  {
  }

  lemma KeysAre(ds: seq<seq<seq<string>>>, keys: seq<Canon>)
    requires AllInput(ds) && |keys| == |ds|
    requires forall p :: 0 <= p < |ds| ==> CanonOf(ds[p]) == Some(keys[p])
    ensures AllWalk(ds) && keys == Keys(ds)
  {
  }

  lemma WrittenAre(distinct: seq<Canon>, amounts: seq<nat>, comps: seq<(string, string)>)
    requires |distinct| == |amounts| == |comps|
    requires forall i :: 0 <= i < |distinct| ==> ComplexOk(distinct[i].strands)
    requires forall i :: 0 <= i < |distinct| ==> comps[i] == (ComplexText(distinct[i]), NatToString(amounts[i]))
    ensures comps == Written(distinct, amounts)
  {
  }

  /* ---------------- what the stages keep ---------------- */

  /** Sorting keeps the strands, so every sorted strand is a nonempty list of nonempty tokens. */
  lemma SortedStrandOk(strands: seq<seq<string>>, j: nat)
    requires ComplexInput(strands) && j < |strands|
    ensures |LexSorted(strands)| == |strands|
    ensures StrandOk(LexSorted(strands)[j])
  {
    var s := LexSorted(strands)[j];
    assert s in multiset(LexSorted(strands));
    assert s in multiset(strands);
    var k :| 0 <= k < |strands| && strands[k] == s;
    assert WellFormedStrand(strands[k]);
  }

  /** Orienting a strand only reverses it, so it stays writable. */
  lemma OrientedStrandOk(sorted: seq<seq<string>>, tr: Traversed, k: nat)
    requires Valid(sorted, tr) && k < |tr.order|
    requires StrandOk(sorted[tr.order[k]])
    ensures StrandOk(OrientStrands(sorted, tr)[k].tokens)
  {
    var s := sorted[tr.order[k]];
    var t := OrientStrands(sorted, tr)[k].tokens;
    OrientedReadBack(sorted, tr, k);
    assert |t| == |s| by {
      assert |multiset(t)| == |multiset(s)|;
    }
    forall i | 0 <= i < |t|
      ensures |t[i]| > 0
    {
      assert t[i] in multiset(s);
    }
  }

  /** Renumbering keeps every token nonempty. */
  lemma RenumberedStrandOk(xs: seq<Oriented>, k: nat)
    requires k < |xs| && StrandOk(xs[k].tokens)
    ensures StrandOk(Renumbered(xs)[k].tokens)
  {
    RenumberedShape(xs, k, 0);
    forall i | 0 <= i < |xs[k].tokens|
      ensures |Renumbered(xs)[k].tokens[i]| > 0
    {
      RenumberedShape(xs, k, i);
    }
  }

  /** A renumbered, oriented complex can be written: no strand and no token is empty. */
  lemma CanonWritable(strands: seq<seq<string>>)
    requires ComplexInput(strands) && CanonOf(strands).Some?
    ensures ComplexOk(CanonOf(strands).value.strands)
  {
    var sorted := LexSorted(strands);
    var tr := Traversal.Traversal(sorted).value;
    var xs := OrientStrands(sorted, tr);
    forall k | 0 <= k < |xs|
      ensures StrandOk(Renumbered(xs)[k].tokens)
    {
      SortedStrandOk(strands, tr.order[k]);
      OrientedStrandOk(sorted, tr, k);
      RenumberedStrandOk(xs, k);
    }
  }

  lemma KeysWritable(ds: seq<seq<seq<string>>>)
    requires AllInput(ds) && AllWalk(ds)
    ensures forall i :: 0 <= i < |Dedup(Keys(ds))| ==> ComplexOk(Dedup(Keys(ds))[i].strands)
  {
    var keys := Keys(ds);
    DedupMembers(keys);
    forall i | 0 <= i < |Dedup(keys)|
      ensures ComplexOk(Dedup(keys)[i].strands)
    {
      var p := IndexOf(keys, Dedup(keys)[i]);
      CanonWritable(ds[p]);
    }
  }

  /* ---------------- what the key depends on ---------------- */

  lemma RenamedInput(f: string -> string, strands: seq<seq<string>>)
    requires BondRenaming(f) && ComplexInput(strands)
    ensures ComplexInput(RenameComplex(f, strands))
  {
    var rs := RenameComplex(f, strands);
    forall j, i | 0 <= j < |strands| && 0 <= i < |strands[j]|
      ensures WellFormedToken(rs[j][i])
    {
      assert WellFormedStrand(strands[j]);
      RenameKeepsWellFormed(f, strands[j][i]);
    }
  }

  /**
   * The key of a complex does not depend on the numbers its bonds carry in
   * the input: renaming them consistently gives the same key, or fails the
   * same way.
   */
  lemma CanonRenamed(f: string -> string, strands: seq<seq<string>>)
    requires BondRenaming(f) && ComplexInput(strands)
    ensures ComplexInput(RenameComplex(f, strands))
    ensures CanonOf(RenameComplex(f, strands)) == CanonOf(strands)
  {
    RenamedInput(f, strands);
    var sorted := LexSorted(strands);
    LexSortedRenamed(f, strands);
    TraversalRenamed(f, sorted);
    match Traversal.Traversal(sorted)
    case None =>
    case Some(tr) =>
      var xs := OrientStrands(sorted, tr);
      OrientRenamed(f, sorted, tr);
      RenumberedRenamed(f, xs);
      RenamedNumbering(f, xs);
  }

  /**
   * Two complexes of the input that differ only in their bond numbers get
   * the same key, so they are merged into one entry whose amount includes
   * both of theirs.
   */
  lemma RenamedComplexesMerge(f: string -> string, ds: seq<seq<seq<string>>>, amounts: seq<nat>, p: nat, q: nat)
    requires |ds| == |amounts| && AllInput(ds) && AllWalk(ds) && p < q < |ds|
    requires BondRenaming(f) && ds[q] == RenameComplex(f, ds[p])
    ensures Keys(ds)[p] == Keys(ds)[q]
    ensures Keys(ds)[p] in Dedup(Keys(ds))
    ensures GroupSums(Keys(ds), amounts)[IndexOf(Dedup(Keys(ds)), Keys(ds)[p])] >= amounts[p] + amounts[q]
  {
    var keys := Keys(ds);
    CanonRenamed(f, ds[p]);
    assert keys[p] == keys[q];
    MergedTogether(keys, amounts, p, q);
  }

  /** Two complexes share an entry of the output exactly when their keys are equal. */
  lemma SameEntryIff(ds: seq<seq<seq<string>>>, p: nat, q: nat)
    requires AllInput(ds) && AllWalk(ds) && p < |ds| && q < |ds|
    ensures Keys(ds)[p] in Dedup(Keys(ds)) && Keys(ds)[q] in Dedup(Keys(ds))
    ensures IndexOf(Dedup(Keys(ds)), Keys(ds)[p]) == IndexOf(Dedup(Keys(ds)), Keys(ds)[q])
      <==> CanonOf(ds[p]) == CanonOf(ds[q])
  {
    DedupMembers(Keys(ds));
  }

  /* ---------------- when the walk fails ---------------- */

  /** Whether a token has a partner somewhere does not depend on the order of the strands. */
  lemma NoDanglingSorted(strands: seq<seq<string>>)
    requires NoDangling(strands)
    ensures NoDangling(LexSorted(strands))
  {
    var sorted := LexSorted(strands);
    forall j, u | 0 <= j < |sorted| && u in sorted[j]
      ensures !Dangling(sorted, u)
    {
      assert sorted[j] in multiset(strands);
      var k :| 0 <= k < |strands| && strands[k] == sorted[j];
      if Partner(u).Some? {
        var co := Partner(u).value;
        assert u in strands[k] && !Dangling(strands, u);
        var m := Look(strands, co).value;
        assert strands[m] in multiset(sorted);
        var m' :| 0 <= m' < |sorted| && sorted[m'] == strands[m];
        assert co in sorted[m'];
      }
    }
  }

  /** A complex every bonded token of which has its partner in the complex always gets a key. */
  lemma CanonFailsOnlyOnDangling(strands: seq<seq<string>>)
    requires ComplexInput(strands) && NoDangling(strands)
    ensures CanonOf(strands).Some?
  {
    NoDanglingSorted(strands);
    TraversalFailsOnlyOnDangling(LexSorted(strands));
  }

  /** The post-process produces its text when no complex has a dangling bond. */
  lemma PostProcessSucceeds(ds: seq<seq<seq<string>>>, amounts: seq<nat>)
    requires |ds| == |amounts| && AllInput(ds)
    requires forall i :: 0 <= i < |ds| ==> NoDangling(ds[i])
    ensures PostProcessed(ds, amounts).Some?
  {
    forall i | 0 <= i < |ds|
      ensures CanonOf(ds[i]).Some?
    {
      CanonFailsOnlyOnDangling(ds[i]);
    }
  }
}
