/**
 * The first stages of `complexes_post_process`: every complex gets its
 * 1-based number as an id entry in front of its strands (`id_data`), the
 * entries are sorted by their token lists with bond numbers masked
 * (`lex_sorting`, `sorted_id`), and the sorted strands are labelled
 * `<id>.<n>` (`re_id_data`).
 */
module StrandSort {

  import opened Text
  import opened Collections
  import opened Sorting
  import opened Lex
  import opened Tokens

  /** `id_data`: the id entry `[str(id)]` in front of the strands. */
  function WithId(id: nat, strands: seq<seq<string>>): seq<seq<string>> {
    [[NatToString(id)]] + strands
  }

  /** `sorted(..., key=masked token list)`: a stable sort on masked strands. */
  function LexSorted(entries: seq<seq<string>>): (r: seq<seq<string>>)
    ensures multiset(r) == multiset(entries) && |r| == |entries|
    ensures forall i, j :: 0 <= i < j < |r| ==> !KeyLess(MaskStrand(r[j]), MaskStrand(r[i]))
    ensures forall k :: KeyFilter(r, MaskStrand, k) == KeyFilter(entries, MaskStrand, k)
  {
    KeyLessOrder();
    SortBy(entries, MaskStrand, KeyLess)
  }

  /** A strand whose first token starts with a letter. */
  predicate StartsWithLetter(s: seq<string>) {
    |s| > 0 && |s[0]| > 0 && IsAsciiLetter(s[0][0])
  }

  /**
   * Digits come before letters, so the id entry sorts in front of every
   * strand and the strands are sorted among themselves.
   */
  lemma IdSortsFirst(id: nat, strands: seq<seq<string>>)
    requires forall j :: 0 <= j < |strands| ==> StartsWithLetter(strands[j])
    ensures LexSorted(WithId(id, strands)) == WithId(id, LexSorted(strands))
  {
    KeyLessOrder();
    var d := NatToString(id);
    assert MaskStrand([d]) == [d];
    forall j | 0 <= j < |strands|
      ensures KeyLess(MaskStrand([d]), MaskStrand(strands[j]))
    {
      var m := MaskStrand(strands[j]);
      assert IsDigit(d[0]);
      assert m[0][0] == strands[j][0][0];
      assert CharLess(d[0], m[0][0]);
      assert StringLess(d, m[0]);
    }
    SortByMinFirst([d], strands, MaskStrand, KeyLess);
  }

  /** `re_id_data`: the label of the `n`-th sorted strand of complex `id`. */
  function StrandLabel(id: nat, n: nat): string {
    NatToString(id) + "." + NatToString(n)
  }

  /** Labels of one complex are pairwise distinct, so a strand can be named by its position. */
  lemma StrandLabelsDistinct(id: nat, a: nat, b: nat)
    requires StrandLabel(id, a) == StrandLabel(id, b)
    ensures a == b
  {
    var p := NatToString(id) + ".";
    assert StrandLabel(id, a)[|p|..] == NatToString(a);
    assert StrandLabel(id, b)[|p|..] == NatToString(b);
    NatToStringInjective(a, b);
  }

  /** The sorted order does not depend on the bond numbers: renaming them commutes with sorting. */
  lemma LexSortedRenamed(f: string -> string, strands: seq<seq<string>>)
    requires BondRenaming(f) && WellFormedComplex(strands)
    ensures LexSorted(RenameComplex(f, strands)) == RenameComplex(f, LexSorted(strands))
  {
    KeyLessOrder();
    var g := (s: seq<string>) => RenameStrand(f, s);
    forall j | 0 <= j < |strands|
      ensures MaskStrand(g(strands[j])) == MaskStrand(strands[j])
    {
      MaskStrandRenamed(f, strands[j]);
    }
    SortByMap(g, strands, MaskStrand, MaskStrand, KeyLess);
    assert MapSeq(g, strands) == RenameComplex(f, strands);
    assert MapSeq(g, LexSorted(strands)) == RenameComplex(f, LexSorted(strands));
  }
}
