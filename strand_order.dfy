/**
 * A worked example of what the key computed for a complex depends on
 * besides its strands and bonds: `lex_sorting` sorts stably, so strands
 * whose masked tokens tie stay in the order `extract_ssdna` listed them,
 * and that order decides where the walk of `bind` starts and which bond
 * `re_write` numbers first. The same complex listed in two orders can
 * thus come out of the post-processor as two entries.
 */
module StrandOrder {

  import opened Wrappers
  import opened Text
  import opened Collections
  import opened Tokens
  import opened Sorting
  import opened Lex
  import opened StrandSort
  import opened Traversal
  import opened Orientation
  import opened Renumber
  import opened Merge
  import opened PostProcess

  /** The complex: `A1 C`, `A2 C` and `T1 T2` (bonds 1 and 2), listed in one of two orders. */
  function TieComplex(first: bool): seq<seq<string>> {
    var s1, s2, s3 := ["A1", "C"], ["A2", "C"], ["T1", "T2"];
    if first then [s1, s2, s3] else [s2, s1, s3]
  }

  /**
   * Both listings are the same three strands, both are well-formed input
   * and both walk through, yet their keys differ: the middle strand is
   * written `T2 T1` in one and `T1 T2` in the other.
   */
  lemma StrandOrderMatters(a: seq<seq<string>>, b: seq<seq<string>>)
    requires a == TieComplex(true) && b == TieComplex(false)
    ensures multiset(a) == multiset(b)
    ensures ComplexInput(a) && ComplexInput(b)
    ensures CanonOf(a).Some? && CanonOf(b).Some?
    ensures CanonOf(a) != CanonOf(b)
  {
    TieKey(a, true);
    TieKey(b, false);
    SwapFront(a, b);
    assert CanonOf(a).value.strands[1].tokens[0][1] != CanonOf(b).value.strands[1].tokens[0][1];
  }

  /** Swapping the first two of three elements keeps the multiset. */
  lemma SwapFront<T>(s: seq<T>, t: seq<T>)
    requires |s| == |t| == 3 && s[0] == t[1] && s[1] == t[0] && s[2] == t[2]
    ensures multiset(s) == multiset(t)
  {
    assert s == [s[0], s[1]] + [s[2]] && t == [t[0], t[1]] + [t[2]];
    assert multiset([s[0], s[1]]) == multiset{s[0], s[1]} == multiset([t[0], t[1]]);
  }

  /** The key of either listing, down to the first token of its middle strand. */
  lemma TieKey(a: seq<seq<string>>, first: bool)
    requires a == TieComplex(first)
    ensures ComplexInput(a)
    ensures CanonOf(a).Some?
    ensures var k := CanonOf(a).value;
      |k.strands| == 3 && |k.strands[1].tokens| == 2
      && |k.strands[1].tokens[0]| == 2 && k.strands[1].tokens[0][1] == (if first then '2' else '1')
  {
    var x, y := if first then "A1" else "A2", if first then "A2" else "A1";
    TieInput(x, y);
    SortedThree(["A1", "C"], ["A2", "C"], ["T1", "T2"]);
    assert LexSorted(a) == a;
    Walk(a, x, y);
    Middle(a, x, y);
    assert "T2"[1] == '2' && "T1"[1] == '1';
  }

  /** Every token of the example is a base letter with an optional bond number. */
  lemma TieInput(x: string, y: string)
    requires (x == "A1" && y == "A2") || (x == "A2" && y == "A1")
    ensures ComplexInput([[x, "C"], [y, "C"], ["T1", "T2"]])
  {
    assert x[1..] == [x[1]] && y[1..] == [y[1]] && "T1"[1..] == "1" && "T2"[1..] == "2";
    assert IsDigits("1") && IsDigits("2");
  }

  /** The masks of `A1 C` and `A2 C` tie and sort before `T1 T2`, so both listings are already sorted. */
  lemma SortedThree(s1: seq<string>, s2: seq<string>, s3: seq<string>)
    requires s1 == ["A1", "C"] && s2 == ["A2", "C"] && s3 == ["T1", "T2"]
    ensures LexSorted([s1, s2, s3]) == [s1, s2, s3]
    ensures LexSorted([s2, s1, s3]) == [s2, s1, s3]
  {
    KeyLessOrder();
    assert Mask("A1") == "Ax" && Mask("A2") == "Ax" && Mask("C") == "C";
    assert Mask("T1") == "Tx" && Mask("T2") == "Tx";
    assert MaskStrand(s1) == ["Ax", "C"] == MaskStrand(s2);
    assert MaskStrand(s3) == ["Tx", "Tx"];
    assert !KeyLess(["Ax", "C"], ["Ax", "C"]);
    assert !KeyLess(["Tx", "Tx"], ["Ax", "C"]);
    Ordered(s1, s2, s3);
    Ordered(s2, s1, s3);
  }

  /** Three strands whose masks never decrease come out of the stable sort unchanged. */
  lemma Ordered(x: seq<string>, y: seq<string>, z: seq<string>)
    requires StrictTotalOrder(KeyLess)
    requires !KeyLess(MaskStrand(y), MaskStrand(x))
    requires !KeyLess(MaskStrand(z), MaskStrand(x)) && !KeyLess(MaskStrand(z), MaskStrand(y))
    ensures LexSorted([x, y, z]) == [x, y, z]
  {
    var s := [x, y, z];
    assert SortedBy(s, MaskStrand, KeyLess) by {
      forall i, j | 0 <= i < j < 3 ensures !KeyLess(MaskStrand(s[j]), MaskStrand(s[i])) {
      }
    }
    SortBySorted(s, MaskStrand, KeyLess);
  }

  /** Either listing, with `x` the bonded token of its first strand and `y` that of its second. */
  predicate TieShape(a: seq<seq<string>>, x: string, y: string) {
    && a == [[x, "C"], [y, "C"], ["T1", "T2"]]
    && ((x == "A1" && y == "A2") || (x == "A2" && y == "A1"))
  }

  /** The partners of the bonded tokens, and the strand `look` finds each one in. */
  lemma Looks(a: seq<seq<string>>, x: string, y: string)
    requires TieShape(a, x, y)
    ensures Partner(x) == Some(if x == "A1" then "T1" else "T2")
    ensures Partner("C") == None
    ensures Partner("T1") == Some("A1") && Partner("T2") == Some("A2")
    ensures Look(a, "T1") == Some(2) && Look(a, "T2") == Some(2)
    ensures Look(a, "A1") == Some(if x == "A1" then 0 else 1)
    ensures Look(a, "A2") == Some(if x == "A2" then 0 else 1)
  {
    PartnerOf("A1", 'T', "T1");
    PartnerOf("A2", 'T', "T2");
    PartnerOf("T1", 'A', "A1");
    PartnerOf("T2", 'A', "A2");
    assert "T1"[0] == 'T' && "T2"[0] == 'T' && x[0] == 'A' && y[0] == 'A' && "C"[0] == 'C';
    assert "T1" !in a[0] && "T1" !in a[1] && "T1" in a[2];
    assert "T2" !in a[0] && "T2" !in a[1] && "T2" in a[2];
  }

  /** Visiting the first strand records `T1 T2` in the `'3'` orientation. */
  lemma FirstVisit(a: seq<seq<string>>, x: string, y: string)
    requires TieShape(a, x, y)
    ensures Bfs(a, Traversed([0], [Five]), 0) == Bfs(a, Traversed([0, 2], [Five, Three]), 1)
  {
    Looks(a, x, y);
    var t0 := Traversed([0], [Five]);
    var t1 := Traversed([0, 2], [Five, Three]);
    assert 2 !in t0.order && Flip(Five) == Three;
    assert t0.order + [2] == t1.order && t0.orient + [Three] == t1.orient;
    assert DiscoverOne(a, t0, Five, x) == Some(t1);
    assert DiscoverOne(a, t1, Five, "C") == Some(t1);
    assert [x, "C"][1..] == ["C"] && ["C"][1..] == [];
    assert Discover(a, t0, Five, [x, "C"]) == Some(t1);
  }

  /** Visiting `T1 T2` records the remaining strand in the `'5'` orientation; then every strand is recorded. */
  lemma SecondVisit(a: seq<seq<string>>, x: string, y: string)
    requires TieShape(a, x, y)
    ensures Bfs(a, Traversed([0, 2], [Five, Three]), 1) == Some(Traversed([0, 2, 1], [Five, Three, Five]))
  {
    var t1 := Traversed([0, 2], [Five, Three]);
    var t2 := Traversed([0, 2, 1], [Five, Three, Five]);
    var mid := if x == "A1" then t1 else t2;
    SecondSteps(a, x, y, t1, t2, mid);
    assert ["T1", "T2"][1..] == ["T2"] && ["T2"][1..] == [];
    assert Discover(a, t1, Three, ["T1", "T2"]) == Some(t2);
  }

  /** The two tokens of the strand `T1 T2`, reached in the `'3'` orientation. */
  lemma SecondSteps(a: seq<seq<string>>, x: string, y: string, t1: Traversed, t2: Traversed, mid: Traversed)
    requires TieShape(a, x, y)
    requires t1 == Traversed([0, 2], [Five, Three]) && t2 == Traversed([0, 2, 1], [Five, Three, Five])
    requires mid == if x == "A1" then t1 else t2
    ensures Valid(a, t1) && Valid(a, mid)
    ensures DiscoverOne(a, t1, Three, "T1") == Some(mid)
    ensures DiscoverOne(a, mid, Three, "T2") == Some(t2)
  {
    Looks(a, x, y);
    var j1 := if x == "A1" then 0 else 1;
    StepTo(a, t1, "T1", "A1", j1, mid);
    StepTo(a, mid, "T2", "A2", 1 - j1, t2);
  }

  /** One token of a strand visited in the `'3'` orientation whose partner lies in strand `j`. */
  lemma StepTo(a: seq<seq<string>>, tr: Traversed, u: string, co: string, j: nat, r: Traversed)
    requires Valid(a, tr) && Partner(u) == Some(co) && Look(a, co) == Some(j)
    requires j in tr.order ==> r == tr
    requires j !in tr.order ==> r == Traversed(tr.order + [j], tr.orient + [Five])
    ensures DiscoverOne(a, tr, Three, u) == Some(r)
  {
  }

  /** Both listings are walked in the order first, third, second strand. */
  lemma Walk(a: seq<seq<string>>, x: string, y: string)
    requires TieShape(a, x, y)
    ensures Traversal.Traversal(a) == Some(Traversed([0, 2, 1], [Five, Three, Five]))
  {
    FirstVisit(a, x, y);
    SecondVisit(a, x, y);
  }

  /** The partner of a two-character token. */
  lemma PartnerOf(u: string, c: char, p: string)
    requires |u| == 2 && Complement(u[0]) == Some(c) && p == [c, u[1]]
    ensures Partner(u) == Some(p)
  {
    assert [c] + u[1..] == p;
  }

  /** After orientation the middle strand reads `T2 T1`. */
  lemma Oriented3(a: seq<seq<string>>, x: string, y: string)
    requires TieShape(a, x, y)
    ensures OrientStrands(a, Traversed([0, 2, 1], [Five, Three, Five]))
      == [Oriented(Five, [x, "C"]), Oriented(Three, ["T2", "T1"]), Oriented(Five, [y, "C"])]
  {
    var xs := OrientStrands(a, Traversed([0, 2, 1], [Five, Three, Five]));
    assert xs[1].tokens == ["T2", "T1"];
  }

  /** The bond texts are met in the order `x`'s bond, 2, 1, `y`'s bond. */
  lemma Numbering3(xs: seq<Oriented>, x: string, y: string, bx: string, bY: string)
    requires |x| == 2 && |y| == 2 && x[1..] == bx && y[1..] == bY
    requires (bx == "1" && bY == "2") || (bx == "2" && bY == "1")
    requires xs == [Oriented(Five, [x, "C"]), Oriented(Three, ["T2", "T1"]), Oriented(Five, [y, "C"])]
    ensures Numbering(xs) == [bx, bY]
  {
    FlattenThree(xs);
    BondsConcat(xs[0].tokens + xs[1].tokens, xs[2].tokens);
    BondsConcat(xs[0].tokens, xs[1].tokens);
    assert "T2"[1..] == "2" && "T1"[1..] == "1" && |"C"| == 1;
    BondsOfTwo(x, "C", bx);
    BondsOfTwo("T2", "T1", "2");
    BondsOfTwo(y, "C", bY);
    assert Bonds(Flatten(xs)) == [bx, "2", "1", bY];
    assert "1" != "2";
    DedupFour([bx, "2", "1", bY], bx, bY);
  }

  /** The tokens of three strands, one after the other. */
  lemma FlattenThree(xs: seq<Oriented>)
    requires |xs| == 3
    ensures Flatten(xs) == xs[0].tokens + xs[1].tokens + xs[2].tokens
  {
    var r := xs[1..][1..];
    assert r == [xs[2]] && r[1..] == [];
    assert Flatten(r) == xs[2].tokens + Flatten([]);
    assert Flatten(xs[1..]) == xs[1].tokens + Flatten(r);
    assert xs[0].tokens + (xs[1].tokens + xs[2].tokens) == xs[0].tokens + xs[1].tokens + xs[2].tokens;
  }

  /** The bond texts of a two-token strand whose first token is bonded. */
  lemma BondsOfTwo(u: string, v: string, b: string)
    requires |u| == 2 && b == u[1..] && |v| <= 2
    ensures Bonds([u, v]) == [b] + (if |v| == 2 then [v[1..]] else [])
  {
    assert [u, v][1..] == [v] && [v][1..] == [];
    assert Bonds([v]) == (if |v| > 1 then [v[1..]] else []) + Bonds([]);
  }

  /** Two values, each met twice: `Dedup` keeps the one met first, then the other. */
  lemma DedupFour<T>(bs: seq<T>, p: T, q: T)
    requires |bs| == 4 && bs[0] == p && bs[3] == q && p != q
    requires (bs[1] == q && bs[2] == p) || (bs[1] == p && bs[2] == q)
    ensures Dedup(bs) == [p, q]
  {
    var s1, s2, s3 := bs[..1], bs[..2], bs[..3];
    assert s1 == [] + [p] && s2 == s1 + [bs[1]] && s3 == s2 + [bs[2]] && bs == s3 + [q];
    DedupAppendNew([], p);
    if bs[1] == q {
      DedupOrder(s1, s2, s3, bs, p, q, q, p);
    } else {
      DedupOrder(s1, s2, s3, bs, p, q, p, q);
    }
  }

  /** The three steps of `DedupFour` after the first element. */
  lemma DedupOrder<T>(s1: seq<T>, s2: seq<T>, s3: seq<T>, s4: seq<T>, p: T, q: T, b1: T, b2: T)
    requires Dedup(s1) == [p] && s1 == [p] && p != q
    requires s2 == s1 + [b1] && s3 == s2 + [b2] && s4 == s3 + [q]
    requires (b1 == q && b2 == p) || (b1 == p && b2 == q)
    ensures Dedup(s4) == [p, q]
  {
    DedupStep(s1, b1, [p]);
    var d2 := if b1 == q then [p, q] else [p];
    DedupStep(s2, b2, d2);
    DedupStep(s3, q, [p, q]);
  }

  /** After renumbering, the first token of the middle strand is `T2` for one listing and `T1` for the other. */
  lemma Middle(a: seq<seq<string>>, x: string, y: string)
    requires TieShape(a, x, y)
    ensures var xs := OrientStrands(a, Traversed([0, 2, 1], [Five, Three, Five]));
      |Renumbered(xs)| == 3 && |Renumbered(xs)[1].tokens| == 2
      && Renumbered(xs)[1].tokens[0] == (if x == "A1" then "T2" else "T1")
  {
    var xs := OrientStrands(a, Traversed([0, 2, 1], [Five, Three, Five]));
    Oriented3(a, x, y);
    var bx := if x == "A1" then "1" else "2";
    var bY := if x == "A1" then "2" else "1";
    assert x[1..] == bx && y[1..] == bY;
    Numbering3(xs, x, y, bx, bY);
    RenumberedMiddle(xs, [bx, bY]);
    NumberOfTwo([bx, bY]);
  }

  /** The first token of the middle strand, `T2`, renumbered. */
  lemma RenumberedMiddle(xs: seq<Oriented>, d: seq<string>)
    requires |xs| == 3 && |xs[1].tokens| == 2 && xs[1].tokens[0] == "T2" && Numbering(xs) == d
    ensures |Renumbered(xs)| == 3 && |Renumbered(xs)[1].tokens| == 2
    ensures Renumbered(xs)[1].tokens[0] == ['T'] + NumberOf(d, "2")
  {
    RenumberedWithAt(d, xs, 1);
    RenumberAllAt(d, xs[1].tokens, 0);
    assert "T2"[0] == 'T' && "T2"[1..] == "2";
  }

  /** Where the bond text `"2"` goes under either numbering. */
  lemma NumberOfTwo(d: seq<string>)
    requires d == ["1", "2"] || d == ["2", "1"]
    ensures NumberOf(d, "2") == if d == ["1", "2"] then "2" else "1"
  {
    assert "1" != "2";
    if d == ["1", "2"] {
      assert IndexOf(d, "2") == 1;
    } else {
      assert IndexOf(d, "2") == 0;
    }
  }

}
