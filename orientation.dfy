/**
 * `set_orient`, `ori_copy_dic` and `comp_sort` of the post-processor: every
 * strand of a complex is listed in the order the walk of `bind` recorded
 * it, tagged with the marker `['5', '-', '3']`, and a strand the walk
 * reached in the `'3'` orientation is written backwards with the marker
 * reversed as well.
 */
module Orientation {

  import opened Collections
  import opened Sorting
  import opened Tokens
  import opened Traversal

  /** One strand as `comp_sort` leaves it: its orientation and its tokens in the written direction. */
  datatype Oriented = Oriented(orient: Orient, tokens: seq<string>)

  /** The marker list of an orientation; the `'3'` marker is the `'5'` one reversed. */
  function Marker(o: Orient): (m: seq<string>)
    ensures |m| == 3 && m[1] == "-"
    ensures o == Five ==> m[0] == "5"
    ensures o == Three ==> m[0] == "3" && m == Reverse(["5", "-", "3"])
  {
    if o == Five then ["5", "-", "3"] else ["3", "-", "5"]
  }

  /** Tokens in the direction a strand of orientation `o` is written. */
  function Written(o: Orient, tokens: seq<string>): seq<string> {
    if o == Five then tokens else Reverse(tokens)
  }

  /** The strands of a complex in traversal order, each written in its orientation. */
  function OrientStrands(strands: seq<seq<string>>, tr: Traversed): (r: seq<Oriented>)
    requires Valid(strands, tr)
    ensures |r| == |tr.order|
  {
    seq(|tr.order|, k requires 0 <= k < |tr.order| =>
      Oriented(tr.orient[k], Written(tr.orient[k], strands[tr.order[k]])))
  }

  lemma {:induction false} ReverseReverse<T>(s: seq<T>)
    ensures Reverse(Reverse(s)) == s
  {
    var r := Reverse(Reverse(s));
    assert forall i :: 0 <= i < |s| ==> r[i] == s[i];
  }

  /** Reading a written strand back 5'→3'. */
  function ReadForward(x: Oriented): seq<string> {
    Written(x.orient, x.tokens)
  }

  /**
   * Each entry reads back as the strand the walk recorded at that position,
   * keeps its orientation, holds the same tokens, and a `'3'` strand starts
   * with that strand's last token.
   */
  lemma OrientedReadBack(strands: seq<seq<string>>, tr: Traversed, k: nat)
    requires Valid(strands, tr) && k < |tr.order|
    ensures OrientStrands(strands, tr)[k].orient == tr.orient[k]
    ensures ReadForward(OrientStrands(strands, tr)[k]) == strands[tr.order[k]]
    ensures multiset(OrientStrands(strands, tr)[k].tokens) == multiset(strands[tr.order[k]])
    ensures tr.orient[k] == Three && |strands[tr.order[k]]| > 0 ==>
      OrientStrands(strands, tr)[k].tokens[0] == strands[tr.order[k]][|strands[tr.order[k]]| - 1]
  {
    var s := strands[tr.order[k]];
    if tr.orient[k] == Three {
      ReverseReverse(s);
      ReversePermutes(s);
    }
  }

  /** A walk that recorded as many strands as the complex has recorded every one of them. */
  lemma CompleteWalk(strands: seq<seq<string>>, tr: Traversed)
    requires Valid(strands, tr) && |tr.order| == |strands|
    ensures forall j :: 0 <= j < |strands| ==> j in tr.order
  {
    DistinctBelow(tr.order, |strands|);
  }

  function RenameOriented(f: string -> string, xs: seq<Oriented>): (r: seq<Oriented>)
    ensures |r| == |xs|
  {
    seq(|xs|, k requires 0 <= k < |xs| => Oriented(xs[k].orient, RenameStrand(f, xs[k].tokens)))
  }

  /** Renaming bond numbers before or after orienting gives the same entries. */
  lemma OrientRenamed(f: string -> string, strands: seq<seq<string>>, tr: Traversed)
    requires Valid(strands, tr)
    ensures Valid(RenameComplex(f, strands), tr)
    ensures OrientStrands(RenameComplex(f, strands), tr) == RenameOriented(f, OrientStrands(strands, tr))
  {
    var rs := RenameComplex(f, strands);
    assert Valid(rs, tr);
    var a := OrientStrands(rs, tr);
    var b := RenameOriented(f, OrientStrands(strands, tr));
    forall k | 0 <= k < |tr.order|
      ensures a[k] == b[k]
    {
      var s := strands[tr.order[k]];
      assert rs[tr.order[k]] == RenameStrand(f, s);
      if tr.orient[k] == Three {
        assert Reverse(RenameStrand(f, s)) == RenameStrand(f, Reverse(s));
      }
    }
  }
}
