/**
 * `re_write` of the post-processor: within one complex, the bond numbers
 * are renamed `1, 2, …` in the order their first token is met when the
 * oriented strands are read left to right. Tokens that share a bond number
 * keep sharing the new one, and single-letter tokens are kept as they are.
 * The source keeps the bond texts already seen in `q` (each followed by its
 * new number) and the count in `n`; here `q` holds the bond texts only,
 * and the number of `q[j]` is `j + 1`.
 */
module Renumber {

  import opened Text
  import opened Collections
  import opened Tokens
  import opened Orientation

  /** All tokens of the oriented strands, in written order. */
  function Flatten(xs: seq<Oriented>): seq<string>
    decreases |xs|
  {
    if |xs| == 0 then [] else xs[0].tokens + Flatten(xs[1..])
  }

  /** The bond texts (`e[1:]` of every token longer than one character), in order. */
  function Bonds(tokens: seq<string>): seq<string>
    decreases |tokens|
  {
    if |tokens| == 0 then []
    else (if |tokens[0]| > 1 then [tokens[0][1..]] else []) + Bonds(tokens[1..])
  }

  /** The distinct bond texts of a complex in the order they are first met. */
  function Numbering(xs: seq<Oriented>): seq<string> {
    Dedup(Bonds(Flatten(xs)))
  }

  /** The new number of bond text `b`: one more than its place in `d`. */
  function NumberOf(d: seq<string>, b: string): (r: string)
    ensures |b| > 0 ==> |r| > 0
  {
    if b in d then NatToString(IndexOf(d, b) + 1) else b
  }

  function RenumberToken(d: seq<string>, u: string): string {
    if |u| > 1 then [u[0]] + NumberOf(d, u[1..]) else u
  }

  /** The tokens of one strand, renumbered one by one. */
  function RenumberAll(d: seq<string>, toks: seq<string>): (r: seq<string>)
    ensures |r| == |toks|
    decreases |toks|
  {
    if |toks| == 0 then []
    else RenumberAll(d, toks[..|toks| - 1]) + [RenumberToken(d, toks[|toks| - 1])]
  }

  /** The strands of `xs` with every token renumbered through `d`. */
  function RenumberedWith(d: seq<string>, xs: seq<Oriented>): (r: seq<Oriented>)
    ensures |r| == |xs|
    decreases |xs|
  {
    if |xs| == 0 then []
    else
      var x := xs[|xs| - 1];
      RenumberedWith(d, xs[..|xs| - 1]) + [Oriented(x.orient, RenumberAll(d, x.tokens))]
  }

  /** The complex with its bond numbers rewritten as `re_write` does. */
  function Renumbered(xs: seq<Oriented>): (r: seq<Oriented>)
    ensures |r| == |xs|
  {
    RenumberedWith(Numbering(xs), xs)
  }

  lemma {:induction false} RenumberAllAt(d: seq<string>, toks: seq<string>, i: nat)
    requires i < |toks|
    ensures RenumberAll(d, toks)[i] == RenumberToken(d, toks[i])
    decreases |toks|
  {
    var n := |toks| - 1;
    if i < n {
      RenumberAllAt(d, toks[..n], i);
    }
  }

  lemma {:induction false} RenumberedWithAt(d: seq<string>, xs: seq<Oriented>, k: nat)
    requires k < |xs|
    ensures RenumberedWith(d, xs)[k] == Oriented(xs[k].orient, RenumberAll(d, xs[k].tokens))
    decreases |xs|
  {
    var n := |xs| - 1;
    if k < n {
      RenumberedWithAt(d, xs[..n], k);
    }
  }

  /* ---------------- the loop of re_write ---------------- */

  /**
   * One token of the loop: the token as rewritten, given the bond texts `q`
   * met so far, and `q` after it.
   */
  function Step(q: seq<string>, e: string): (string, seq<string>) {
    if |e| > 1 then
      var b := e[1..];
      if b !in q then ([e[0]] + NatToString(|q| + 1), q + [b])
      else ([e[0]] + NatToString(IndexOf(q, b) + 1), q)
    else (e, q)
  }

  /** The loop over the tokens of one strand, started with the bond texts `q0`. */
  function ScanTokens(q0: seq<string>, toks: seq<string>): (seq<string>, seq<string>)
    decreases |toks|
  {
    if |toks| == 0 then ([], q0)
    else
      var r := ScanTokens(q0, toks[..|toks| - 1]);
      var t := Step(r.1, toks[|toks| - 1]);
      (r.0 + [t.0], t.1)
  }

  /** The loop over the strands of one complex. */
  function ScanStrands(xs: seq<Oriented>): (seq<Oriented>, seq<string>)
    decreases |xs|
  {
    if |xs| == 0 then ([], [])
    else
      var r := ScanStrands(xs[..|xs| - 1]);
      var x := xs[|xs| - 1];
      var t := ScanTokens(r.1, x.tokens);
      (r.0 + [Oriented(x.orient, t.0)], t.1)
  }

  /**
   * `re_write` on one complex: returns the renumbered strands and `n`, the
   * number of distinct bond texts met.
   */
  method ReWrite(xs: seq<Oriented>) returns (ys: seq<Oriented>, n: nat)
    ensures ys == Renumbered(xs)
    ensures n == |Numbering(xs)|
  {
    var q: seq<string> := [];
    n := 0;
    ys := [];
    for a := 0 to |xs|
      invariant (ys, q) == ScanStrands(xs[..a]) && n == |q|
    {
      var toks := xs[a].tokens;
      var li: seq<string> := [];
      ghost var q0 := q;
      for i := 0 to |toks|
        invariant (li, q) == ScanTokens(q0, toks[..i]) && n == |q|
      {
        var e := toks[i];
        assert toks[..i + 1][..i] == toks[..i];
        if |e| > 1 {
          var b := e[1..];
          if b !in q {
            n := n + 1;
            li := li + [[e[0]] + NatToString(n)];
            q := q + [b];
          } else {
            li := li + [[e[0]] + NatToString(IndexOf(q, b) + 1)];
          }
        } else {
          li := li + [e];
        }
      }
      assert toks[..|toks|] == toks;
      assert xs[..a + 1][..a] == xs[..a];
      ys := ys + [Oriented(xs[a].orient, li)];
    }
    assert xs[..|xs|] == xs;
    ScanStrandsMeaning(xs, Numbering(xs));
  }

  /** `a` starts `d`. */
  predicate StartsWith(d: seq<string>, a: seq<string>) {
    |a| <= |d| && d[..|a|] == a
  }

  /**
   * Scanning `toks` after the tokens `pre` numbers every bond by its place
   * in any `d` that the bonds met so far start, and `q` ends as the bonds met.
   */
  lemma {:induction false} ScanTokensMeaning(pre: seq<string>, toks: seq<string>, d: seq<string>)
    requires StartsWith(d, Dedup(Bonds(pre + toks)))
    ensures ScanTokens(Dedup(Bonds(pre)), toks) == (RenumberAll(d, toks), Dedup(Bonds(pre + toks)))
    decreases |toks|
  {
    if |toks| == 0 {
      assert pre + toks == pre;
    } else {
      var n := |toks| - 1;
      var t', e := toks[..n], toks[n];
      assert pre + toks == (pre + t') + [e];
      BondsConcat(pre + t', [e]);
      assert Bonds([e]) == BondOf(e) + Bonds([]);
      DedupPrefix(Bonds(pre + t'), BondOf(e));
      ScanTokensMeaning(pre, t', d);
      BondStep(Bonds(pre + t'), e, d, Dedup(Bonds(pre + t')));
    }
  }

  /** The scan over all strands is `Renumbered` with the bonds it met as `q`. */
  lemma {:induction false} ScanStrandsMeaning(xs: seq<Oriented>, d: seq<string>)
    requires StartsWith(d, Dedup(Bonds(Flatten(xs))))
    ensures ScanStrands(xs) == (RenumberedWith(d, xs), Dedup(Bonds(Flatten(xs))))
    decreases |xs|
  {
    if |xs| == 0 {
    } else {
      var n := |xs| - 1;
      FlattenStep(xs, n);
      assert xs[..n + 1] == xs;
      var pre := Flatten(xs[..n]);
      BondsConcat(pre, xs[n].tokens);
      DedupPrefix(Bonds(pre), Bonds(xs[n].tokens));
      ScanStrandsMeaning(xs[..n], d);
      ScanTokensMeaning(pre, xs[n].tokens, d);
    }
  }


  /** The bond text a single token contributes. */
  function BondOf(e: string): seq<string> {
    if |e| > 1 then [e[1..]] else []
  }

  /**
   * One step of the loop after the bond texts `bs`: it rewrites token `e`
   * as `Renumbered` does and leaves `q` as the bond texts met, deduplicated.
   */
  lemma BondStep(bs: seq<string>, e: string, d: seq<string>, q: seq<string>)
    requires q == Dedup(bs)
    requires StartsWith(d, Dedup(bs + BondOf(e)))
    ensures Step(q, e) == (RenumberToken(d, e), Dedup(bs + BondOf(e)))
  {
    if |e| > 1 {
      var b := e[1..];
      assert BondOf(e) == [b];
      DedupStep(bs, b, q);
      if b in q {
        NumberSeen(q, b, d);
        assert Step(q, e) == ([e[0]] + NatToString(IndexOf(q, b) + 1), q);
      } else {
        NumberNew(q, b, d);
        assert Step(q, e) == ([e[0]] + NatToString(|q| + 1), q + [b]);
      }
    } else {
      assert bs + BondOf(e) == bs;
    }
  }

  lemma NumberSeen(q: seq<string>, b: string, d: seq<string>)
    requires b in q && |q| <= |d| && d[..|q|] == q
    ensures NumberOf(d, b) == NatToString(IndexOf(q, b) + 1)
  {
    IndexOfPrefix(q, d, b);
  }

  lemma NumberNew(q: seq<string>, b: string, d: seq<string>)
    requires b !in q && |q| + 1 <= |d| && d[..|q| + 1] == q + [b]
    ensures NumberOf(d, b) == NatToString(|q| + 1)
  {
    IndexOfPrefix(q + [b], d, b);
    assert (q + [b])[|q|] == b;
  }

  lemma {:induction false} BondsConcat(a: seq<string>, b: seq<string>)
    ensures Bonds(a + b) == Bonds(a) + Bonds(b)
    decreases |a|
  {
    if |a| == 0 {
      assert a + b == b;
    } else {
      assert (a + b)[0] == a[0];
      assert (a + b)[1..] == a[1..] + b;
      BondsConcat(a[1..], b);
    }
  }

  lemma {:induction false} FlattenSplit(xs: seq<Oriented>, a: nat)
    requires a <= |xs|
    ensures Flatten(xs) == Flatten(xs[..a]) + Flatten(xs[a..])
    decreases a
  {
    if a > 0 {
      FlattenSplit(xs[1..], a - 1);
      assert xs[1..][..a - 1] == xs[..a][1..];
      assert xs[1..][a - 1..] == xs[a..];
    }
  }

  lemma FlattenStep(xs: seq<Oriented>, a: nat)
    requires a < |xs|
    ensures Flatten(xs[..a + 1]) == Flatten(xs[..a]) + xs[a].tokens
  {
    FlattenSplit(xs[..a + 1], a);
    assert xs[..a + 1][..a] == xs[..a];
    assert xs[..a + 1][a..] == [xs[a]];
    assert Flatten([xs[a]]) == xs[a].tokens + Flatten([]);
  }

  /* ---------------- what the renumbering means ---------------- */

  /**
   * Renumbering keeps the strands, their orientations and lengths, the base
   * letter of every token and every single-letter token, and a bonded token
   * stays bonded.
   */
  lemma RenumberedShape(xs: seq<Oriented>, k: nat, i: nat)
    requires k < |xs| && i < |xs[k].tokens|
    ensures |Renumbered(xs)| == |xs|
    ensures Renumbered(xs)[k].orient == xs[k].orient
    ensures |Renumbered(xs)[k].tokens| == |xs[k].tokens|
    ensures var u, v := xs[k].tokens[i], Renumbered(xs)[k].tokens[i];
      && (|v| > 0 <==> |u| > 0)
      && (|u| > 0 ==> v[0] == u[0])
      && (|u| <= 1 ==> v == u)
      && (|u| > 1 ==> |v| > 1 && IsDigits(v[1..]))
  {
    var u := xs[k].tokens[i];
    RenumberedWithAt(Numbering(xs), xs, k);
    RenumberAllAt(Numbering(xs), xs[k].tokens, i);
    if |u| > 1 {
      TokenBond(xs, k, i);
      DedupMembers(Bonds(Flatten(xs)));
    }
  }

  /** The numbers `"1"`, `"2"`, …, `m` as text. */
  function Numerals(m: nat): (r: seq<string>)
    ensures |r| == m
  {
    seq(m, j requires 0 <= j < m => NatToString(j + 1))
  }

  /** `RenameToken` with `g` as a function on tokens. */
  function RenameFn(g: string -> string): string -> string {
    u => RenameToken(g, u)
  }

  /** `NumberOf` over `d` as a function on bond texts. */
  function NumberFn(d: seq<string>): string -> string {
    b => NumberOf(d, b)
  }

  /** Renumbering a token renames its bond text to its number. */
  lemma {:induction false} RenumberAllMap(d: seq<string>, toks: seq<string>)
    ensures RenumberAll(d, toks) == MapSeq(RenameFn(NumberFn(d)), toks)
    decreases |toks|
  {
    if |toks| > 0 {
      var n := |toks| - 1;
      RenumberAllMap(d, toks[..n]);
      assert toks == toks[..n] + [toks[n]];
      MapSeqConcat(RenameFn(NumberFn(d)), toks[..n], [toks[n]]);
    }
  }

  /** Renaming every token through `g` renames every bond text through `g`. */
  lemma {:induction false} BondsMap(g: string -> string, t: seq<string>)
    requires forall b :: |b| > 0 ==> |g(b)| > 0
    ensures Bonds(MapSeq(RenameFn(g), t)) == MapSeq(g, Bonds(t))
    decreases |t|
  {
    if |t| > 0 {
      var h := RenameFn(g);
      var u := t[0];
      assert MapSeq(h, t) == [h(u)] + MapSeq(h, t[1..]);
      BondsMap(g, t[1..]);
      if |u| > 1 {
        assert |g(u[1..])| > 0;
        assert h(u)[1..] == g(u[1..]);
        MapSeqConcat(g, [u[1..]], Bonds(t[1..]));
      }
    }
  }

  /** Mapping every token of every strand maps the flattened token list. */
  lemma {:induction false} FlattenMap(h: string -> string, xs: seq<Oriented>, ys: seq<Oriented>)
    requires |xs| == |ys|
    requires forall k :: 0 <= k < |xs| ==> ys[k].tokens == MapSeq(h, xs[k].tokens)
    ensures Flatten(ys) == MapSeq(h, Flatten(xs))
    decreases |xs|
  {
    if |xs| > 0 {
      FlattenMap(h, xs[1..], ys[1..]);
      MapSeqConcat(h, xs[0].tokens, Flatten(xs[1..]));
    }
  }

  /** The bonds of the renumbered complex are the old bonds, each replaced by its number. */
  lemma BondsRenumbered(xs: seq<Oriented>)
    ensures Bonds(Flatten(Renumbered(xs))) == MapSeq(NumberFn(Numbering(xs)), Bonds(Flatten(xs)))
  {
    var d := Numbering(xs);
    var ys := Renumbered(xs);
    forall k | 0 <= k < |xs|
      ensures ys[k].tokens == MapSeq(RenameFn(NumberFn(d)), xs[k].tokens)
    {
      RenumberedWithAt(d, xs, k);
      RenumberAllMap(d, xs[k].tokens);
    }
    FlattenMap(RenameFn(NumberFn(d)), xs, ys);
    BondsMap(NumberFn(d), Flatten(xs));
  }

  /** Numbering bonds by first occurrence is injective on the bonds met. */
  lemma NumberOfInjective(d: seq<string>, b: string, c: string)
    requires b in d && c in d
    requires NumberOf(d, b) == NumberOf(d, c)
    ensures b == c
  {
    NatToStringInjective(IndexOf(d, b) + 1, IndexOf(d, c) + 1);
  }

  /** Numbering by the deduplicated bonds is injective on the bonds. */
  lemma NumberInjectiveOn(bs: seq<string>)
    ensures InjectiveOn(NumberFn(Dedup(bs)), bs)
  {
    var d := Dedup(bs);
    DedupMembers(bs);
    forall i, j | 0 <= i < |bs| && 0 <= j < |bs| && NumberFn(d)(bs[i]) == NumberFn(d)(bs[j])
      ensures bs[i] == bs[j]
    {
      NumberOfInjective(d, bs[i], bs[j]);
    }
  }

  /** Numbering a sequence without repetitions by itself gives `"1"`, `"2"`, …. */
  lemma NumberDistinct(d: seq<string>)
    requires Distinct(d)
    ensures MapSeq(NumberFn(d), d) == Numerals(|d|)
  {
    forall j | 0 <= j < |d|
      ensures MapSeq(NumberFn(d), d)[j] == Numerals(|d|)[j]
    {
      IndexOfDistinct(d, j);
    }
  }

  /**
   * After renumbering, the bonds met in order are first `"1"`, then `"2"`,
   * and so on up to the number of distinct bond texts of the input.
   */
  lemma NumberingRenumbered(xs: seq<Oriented>)
    ensures Numbering(Renumbered(xs)) == Numerals(|Numbering(xs)|)
  {
    var bs := Bonds(Flatten(xs));
    var g := NumberFn(Dedup(bs));
    BondsRenumbered(xs);
    NumberInjectiveOn(bs);
    DedupMap(g, bs);
    NumberDistinct(Dedup(bs));
  }

  /** Two bonded tokens carry the same new number exactly when they carried the same old one. */
  lemma SameNumberIff(xs: seq<Oriented>, i: nat, j: nat)
    requires i < |Bonds(Flatten(xs))| && j < |Bonds(Flatten(xs))|
    ensures |Bonds(Flatten(Renumbered(xs)))| == |Bonds(Flatten(xs))|
    ensures Bonds(Flatten(Renumbered(xs)))[i] == Bonds(Flatten(Renumbered(xs)))[j]
        <==> Bonds(Flatten(xs))[i] == Bonds(Flatten(xs))[j]
  {
    var bs := Bonds(Flatten(xs));
    BondsRenumbered(xs);
    NumberInjectiveOn(bs);
  }

  /** The count `n` of `re_write` is the number of distinct bond texts of the complex. */
  lemma CountIsDistinctBonds(xs: seq<Oriented>)
    ensures |Numbering(xs)| == |set b | b in Bonds(Flatten(xs))|
  {
    DedupCardinality(Bonds(Flatten(xs)));
  }

  /** Renaming the bond numbers beforehand renames the bond texts met, in the same order. */
  lemma RenamedNumbering(f: string -> string, xs: seq<Oriented>)
    requires BondRenaming(f)
    ensures Numbering(RenameOriented(f, xs)) == MapSeq(f, Numbering(xs))
  {
    var rx := RenameOriented(f, xs);
    forall k | 0 <= k < |xs|
      ensures rx[k].tokens == MapSeq(RenameFn(f), xs[k].tokens)
    {
    }
    FlattenMap(RenameFn(f), xs, rx);
    BondsMap(f, Flatten(xs));
    DedupMap(f, Bonds(Flatten(xs)));
  }

  /** A renamed token gets the number its original had. */
  lemma RenumberTokenRenamed(f: string -> string, d: seq<string>, u: string)
    requires BondRenaming(f)
    requires |u| > 1 ==> u[1..] in d
    ensures RenumberToken(MapSeq(f, d), RenameToken(f, u)) == RenumberToken(d, u)
  {
    if |u| > 1 {
      var c := u[1..];
      assert RenameToken(f, u)[1..] == f(c);
      IndexOfMap(f, d, c);
    }
  }

  /** Renaming the bond numbers consistently beforehand does not change the result. */
  lemma RenumberedRenamed(f: string -> string, xs: seq<Oriented>)
    requires BondRenaming(f)
    ensures Renumbered(RenameOriented(f, xs)) == Renumbered(xs)
  {
    var rx := RenameOriented(f, xs);
    var d := Numbering(xs);
    RenamedNumbering(f, xs);
    DedupMembers(Bonds(Flatten(xs)));
    var a := Renumbered(rx);
    var b := Renumbered(xs);
    forall k | 0 <= k < |xs|
      ensures a[k] == b[k]
    {
      RenumberedWithAt(MapSeq(f, d), rx, k);
      RenumberedWithAt(d, xs, k);
      var toks := xs[k].tokens;
      forall i | 0 <= i < |toks|
        ensures RenumberAll(MapSeq(f, d), rx[k].tokens)[i] == RenumberAll(d, toks)[i]
      {
        RenumberAllAt(MapSeq(f, d), rx[k].tokens, i);
        RenumberAllAt(d, toks, i);
        if |toks[i]| > 1 {
          TokenBond(xs, k, i);
        }
        RenumberTokenRenamed(f, d, toks[i]);
      }
    }
  }

  /** The bond text of every bonded token is among the bonds of the complex. */
  lemma TokenBond(xs: seq<Oriented>, k: nat, i: nat)
    requires k < |xs| && i < |xs[k].tokens| && |xs[k].tokens[i]| > 1
    ensures xs[k].tokens[i][1..] in Bonds(Flatten(xs))
  {
    var toks := xs[k].tokens;
    var e := toks[i];
    FlattenSplit(xs, k);
    assert Flatten(xs[k..]) == toks + Flatten(xs[k + 1..]) by {
      assert xs[k..][1..] == xs[k + 1..];
    }
    assert toks == toks[..i] + [e] + toks[i + 1..];
    var p := Flatten(xs[..k]) + toks[..i];
    var rest := toks[i + 1..] + Flatten(xs[k + 1..]);
    assert Flatten(xs) == p + [e] + rest;
    BondsConcat(p + [e], rest);
    BondsConcat(p, [e]);
    assert Bonds([e]) == [e[1..]] + Bonds([]);
  }
}
