/**
 * `make_bngl` and its helper `convert` of the post-processor: every merged
 * complex is written as BioNetGen molecules `N(b~<base>,5…,3…,W…)`, one
 * per token, joined with `.`. The `5` and `3` sites carry backbone bonds
 * numbered from the complex's bond count `noc` upwards, the `W` site the
 * token's own (hybridisation) bond number. A strand written `'3'` first
 * has its backbone bonds mirrored. A strand of a single token is written
 * as two molecules, as the source's first-and-last handling does.
 */
module Bngl {

  import opened Wrappers
  import opened Text
  import opened Collections
  import opened Traversal
  import opened Orientation
  import opened Merge
  import Renumber

  /** The template `'N(b~{},5{},3{},W{})'` filled in. */
  function Molecule(base: char, five: string, three: string, w: string): string {
    "N(b~" + [base] + ",5" + five + ",3" + three + ",W" + w + ")"
  }

  /** The `W` part of a token: `'!' + tok[1:]` unless the token is one letter. */
  function WPart(tok: string): string {
    if |tok| == 1 then "" else if |tok| == 0 then "!" else "!" + tok[1..]
  }

  /** A token as `convert` needs it: its first character is the base letter. */
  type Token = t: string | |t| > 0 witness "A"

  /** One molecule: the token it writes and its 5' and 3' backbone bonds (`None` for a free end). */
  datatype Site = Site(token: Token, five: Option<nat>, three: Option<nat>)

  function BondText(b: Option<nat>): string {
    if b.Some? then "!" + NatToString(b.value) else ""
  }

  function Render(s: Site): string {
    Molecule(s.token[0], BondText(s.five), BondText(s.three), WPart(s.token))
  }

  /** The molecules rendered one by one. */
  function RenderAll(sites: seq<Site>): (r: seq<string>)
    ensures |r| == |sites|
  {
    seq(|sites|, i requires 0 <= i < |sites| => Render(sites[i]))
  }

  lemma RenderAllConcat(a: seq<Site>, b: seq<Site>)
    ensures RenderAll(a + b) == RenderAll(a) + RenderAll(b)
  {
  }

  lemma RenderAllSnoc(sites: seq<Site>, x: Site)
    ensures RenderAll(sites + [x]) == RenderAll(sites) + [Render(x)]
  {
  }

  lemma AppendAssoc<T>(x: seq<T>, y: seq<T>, z: seq<T>)
    ensures (x + y) + z == x + (y + z)
  {
  }

  /** A strand `convert` can write: at least one token, and no empty token. */
  predicate StrandOk(a: seq<string>) {
    |a| > 0 && forall i :: 0 <= i < |a| ==> |a[i]| > 0
  }

  predicate ComplexOk(xs: seq<Oriented>) {
    forall k :: 0 <= k < |xs| ==> StrandOk(xs[k].tokens)
  }

  /** Number of molecules written for a strand of `n` tokens. */
  function Span(n: nat): (k: nat)
    ensures k >= 2
  {
    if n < 2 then 2 else n
  }

  /** Molecule `k` of strand `a` read in orientation `o`, with the counter at `c`. */
  function SiteAt(o: Orient, a: seq<string>, c: nat, k: nat): Site
    requires StrandOk(a) && k < Span(|a|)
  {
    var tok := a[if k < |a| then k else |a| - 1];
    var left := if k == 0 then None else Some(c + k);
    var right := if k == Span(|a|) - 1 then None else Some(c + k + 1);
    if o == Five then Site(tok, left, right) else Site(tok, right, left)
  }

  /**
   * The molecules `convert` writes for strand `a` read in orientation `o`
   * with the counter at `c`: molecule `k` is bonded to molecule `k + 1` by
   * backbone bond `c + k + 1`, on its 3' site for `'5'` and on its 5' site
   * for `'3'`; the two ends are free.
   */
  function StrandSites(o: Orient, a: seq<string>, c: nat): (r: seq<Site>)
    requires StrandOk(a)
    ensures |r| == Span(|a|)
  {
    seq(Span(|a|), k requires 0 <= k < Span(|a|) => SiteAt(o, a, c, k))
  }

  /** The first `j` molecules of a strand, built one after the other as `convert` does. */
  function SitesUpTo(o: Orient, a: seq<string>, c: nat, j: nat): (r: seq<Site>)
    requires StrandOk(a) && j <= Span(|a|)
    ensures |r| == j
  {
    if j == 0 then [] else SitesUpTo(o, a, c, j - 1) + [SiteAt(o, a, c, j - 1)]
  }

  lemma {:induction false} SitesUpToPrefix(o: Orient, a: seq<string>, c: nat, j: nat)
    requires StrandOk(a) && j <= Span(|a|)
    ensures SitesUpTo(o, a, c, j) == StrandSites(o, a, c)[..j]
  {
    if j > 0 {
      SitesUpToPrefix(o, a, c, j - 1);
    }
  }

  /** Writing one more molecule extends the rendered prefix by that molecule's text. */
  lemma RenderStep(o: Orient, a: seq<string>, c: nat, j: nat)
    requires StrandOk(a) && j < Span(|a|)
    ensures RenderAll(SitesUpTo(o, a, c, j + 1)) == RenderAll(SitesUpTo(o, a, c, j)) + [Render(SiteAt(o, a, c, j))]
  {
    RenderAllSnoc(SitesUpTo(o, a, c, j), SiteAt(o, a, c, j));
  }

  /** After the last molecule the prefix is the whole strand. */
  lemma RenderWhole(o: Orient, a: seq<string>, c: nat, n: nat)
    requires StrandOk(a) && n == Span(|a|)
    ensures RenderAll(SitesUpTo(o, a, c, n)) == RenderAll(StrandSites(o, a, c))
  {
    SitesUpToPrefix(o, a, c, n);
    assert StrandSites(o, a, c)[..n] == StrandSites(o, a, c);
  }

  /** The first molecule: free on the side away from the strand. */
  lemma FirstSite(o: Orient, a: seq<string>, c: nat, first: Token, nr: nat)
    requires StrandOk(a) && first == a[0] && nr == c + 1
    ensures SiteAt(o, a, c, 0) == if o == Five then Site(first, None, Some(nr)) else Site(first, Some(nr), None)
  {
  }

  /** A middle molecule: bonded on both sides. */
  lemma MiddleSite(o: Orient, a: seq<string>, c: nat, j: nat, s: Token, nl: nat, nr: nat)
    requires StrandOk(a) && 1 <= j < |a| - 1
    requires s == a[j] && nl == c + j && nr == nl + 1
    ensures SiteAt(o, a, c, j) == if o == Five then Site(s, Some(nl), Some(nr)) else Site(s, Some(nr), Some(nl))
  {
  }

  /** The last molecule; for a one-token strand it repeats the token. */
  lemma LastSite(o: Orient, a: seq<string>, c: nat, j: nat, last: Token, nl: nat)
    requires StrandOk(a) && 1 <= j <= Span(|a|) - 1 && j >= |a| - 1
    requires last == a[|a| - 1] && nl == c + j
    ensures j + 1 == Span(|a|)
    ensures SiteAt(o, a, c, j) == if o == Five then Site(last, Some(nl), None) else Site(last, None, Some(nl))
  {
  }

  /** The text `convert` returns for strand `a` read in orientation `o` with the counter at `c`. */
  function StrandText(o: Orient, a: seq<string>, c: nat): string
    requires StrandOk(a)
  {
    Join(RenderAll(StrandSites(o, a, c)), ".")
  }

  /** `convert(o, a, n_o)`: the text of one strand and the counter it leaves in `n_o_c`. */
  method Convert(o: Orient, a: seq<string>, nO: nat) returns (text: string, next: nat)
    requires StrandOk(a)
    ensures text == StrandText(o, a, nO)
    ensures next == nO + Span(|a|) - 1
  {
    var nl := nO;
    var nr := nl + 1;
    var first := a[0];
    FirstSite(o, a, nO, first, nr);
    RenderStep(o, a, nO, 0);
    var bgl := [Render(if o == Five then Site(first, None, Some(nr)) else Site(first, Some(nr), None))];
    nl, nr := nl + 1, nr + 1;
    var j := 1;
    while j < |a| - 1
      invariant 1 <= j <= Span(|a|) - 1
      invariant nl == nO + j && nr == nl + 1
      invariant bgl == RenderAll(SitesUpTo(o, a, nO, j))
    {
      var s := a[j];
      MiddleSite(o, a, nO, j, s, nl, nr);
      RenderStep(o, a, nO, j);
      bgl := bgl + [Render(if o == Five then Site(s, Some(nl), Some(nr)) else Site(s, Some(nr), Some(nl)))];
      nl, nr := nl + 1, nr + 1;
      j := j + 1;
    }
    var last := a[|a| - 1];
    LastSite(o, a, nO, j, last, nl);
    RenderStep(o, a, nO, j);
    RenderWhole(o, a, nO, j + 1);
    bgl := bgl + [Render(if o == Five then Site(last, Some(nl), None) else Site(last, None, Some(nl)))];
    text := Join(bgl, ".");
    next := nl;
  }

  /**
   * The texts of strands `j ..` of a complex, the counter starting at `c`
   * for strand `j` and threaded from one strand to the next.
   */
  function TextsFrom(xs: seq<Oriented>, j: nat, c: nat): seq<string>
    requires ComplexOk(xs) && j <= |xs|
    decreases |xs| - j
  {
    if j == |xs| then []
    else [StrandText(xs[j].orient, xs[j].tokens, c)] + TextsFrom(xs, j + 1, c + Span(|xs[j].tokens|) - 1)
  }

  /** The text `make_bngl` writes for one merged complex, its counter starting at `noc`. */
  function ComplexText(x: Canon): string
    requires ComplexOk(x.strands)
  {
    Join(TextsFrom(x.strands, 0, x.bonds), ".")
  }

  lemma AppendStep<T>(done: seq<T>, rest: seq<T>, whole: seq<T>, t: T, rest2: seq<T>)
    requires done + rest == whole && rest == [t] + rest2
    ensures (done + [t]) + rest2 == whole
  {
    AppendAssoc(done, [t], rest2);
  }

  /** Strand `j`'s text comes first, then the rest with the counter moved on. */
  lemma TextsStep(xs: seq<Oriented>, j: nat, c: nat, t: string, c2: nat)
    requires ComplexOk(xs) && j < |xs|
    requires t == StrandText(xs[j].orient, xs[j].tokens, c)
    requires c2 == c + Span(|xs[j].tokens|) - 1
    ensures TextsFrom(xs, j, c) == [t] + TextsFrom(xs, j + 1, c2)
  {
  }

  /** The loop of `make_bngl` over the strands of a complex keeps its texts a prefix of the whole. */
  lemma WriteStep(xs: seq<Oriented>, c0: nat, j: nat, c: nat, texts: seq<string>, t: string, c2: nat)
    requires ComplexOk(xs) && j < |xs|
    requires texts + TextsFrom(xs, j, c) == TextsFrom(xs, 0, c0)
    requires t == StrandText(xs[j].orient, xs[j].tokens, c)
    requires c2 == c + Span(|xs[j].tokens|) - 1
    ensures (texts + [t]) + TextsFrom(xs, j + 1, c2) == TextsFrom(xs, 0, c0)
  {
    TextsStep(xs, j, c, t, c2);
    AppendStep(texts, TextsFrom(xs, j, c), TextsFrom(xs, 0, c0), t, TextsFrom(xs, j + 1, c2));
  }

  lemma PrependEmpty<T>(s: seq<T>)
    ensures [] + s == s
  {
  }

  /** Once every strand is written, the texts are the whole complex. */
  lemma TextsDone(xs: seq<Oriented>, c0: nat, texts: seq<string>, c: nat)
    requires ComplexOk(xs)
    requires texts + TextsFrom(xs, |xs|, c) == TextsFrom(xs, 0, c0)
    ensures texts == TextsFrom(xs, 0, c0)
  {
    assert texts + [] == texts;
  }

  /**
   * The text of one merged complex: its strands converted in order, the
   * counter starting at the complex's bond count `noc` and threaded through
   * `n_o_c` from one strand to the next.
   */
  method WriteComplex(x: Canon) returns (text: string)
    requires ComplexOk(x.strands)
    ensures text == ComplexText(x)
  {
    var counter := x.bonds;
    var texts: seq<string> := [];
    PrependEmpty(TextsFrom(x.strands, 0, x.bonds));
    for j := 0 to |x.strands|
      invariant texts + TextsFrom(x.strands, j, counter) == TextsFrom(x.strands, 0, x.bonds)
    {
      var t, next := Convert(x.strands[j].orient, x.strands[j].tokens, counter);
      WriteStep(x.strands, x.bonds, j, counter, texts, t, next);
      texts := texts + [t];
      counter := next;
    }
    TextsDone(x.strands, x.bonds, texts, counter);
    text := Join(texts, ".");
  }

  /** `make_bngl`: one `[text, str(amount)]` pair per merged complex. */
  method MakeBngl(distinct: seq<Canon>, amounts: seq<nat>) returns (comps: seq<(string, string)>)
    requires |distinct| == |amounts|
    requires forall i :: 0 <= i < |distinct| ==> ComplexOk(distinct[i].strands)
    ensures |comps| == |distinct|
    ensures forall i :: 0 <= i < |distinct| ==> comps[i] == (ComplexText(distinct[i]), NatToString(amounts[i]))
  {
    comps := [];
    for i := 0 to |distinct|
      invariant |comps| == i
      invariant forall p :: 0 <= p < i ==> comps[p] == (ComplexText(distinct[p]), NatToString(amounts[p]))
    {
      var text := WriteComplex(distinct[i]);
      comps := comps + [(text, NatToString(amounts[i]))];
    }
  }

  /* ---------------- what the molecules mean ---------------- */

  /** All molecules of strands `j ..` of a complex, strand after strand. */
  function SitesFrom(xs: seq<Oriented>, j: nat, c: nat): seq<Site>
    requires ComplexOk(xs) && j <= |xs|
    decreases |xs| - j
  {
    if j == |xs| then []
    else StrandSites(xs[j].orient, xs[j].tokens, c) + SitesFrom(xs, j + 1, c + Span(|xs[j].tokens|) - 1)
  }

  /** All molecules of a complex whose counter starts at `c`. */
  function ComplexSites(xs: seq<Oriented>, c: nat): seq<Site>
    requires ComplexOk(xs)
  {
    SitesFrom(xs, 0, c)
  }

  lemma SitesStep(xs: seq<Oriented>, j: nat, c: nat, s0: seq<Site>, c2: nat)
    requires ComplexOk(xs) && j < |xs|
    requires s0 == StrandSites(xs[j].orient, xs[j].tokens, c)
    requires c2 == c + Span(|xs[j].tokens|) - 1
    ensures SitesFrom(xs, j, c) == s0 + SitesFrom(xs, j + 1, c2)
  {
  }

  /** Strands `j ..` have texts exactly when they have molecules: when there are any. */
  lemma FromEmpty(xs: seq<Oriented>, j: nat, c: nat)
    requires ComplexOk(xs) && j <= |xs|
    ensures |TextsFrom(xs, j, c)| == 0 <==> j == |xs|
    ensures |SitesFrom(xs, j, c)| == 0 <==> j == |xs|
  {
    if j < |xs| {
      assert |StrandSites(xs[j].orient, xs[j].tokens, c)| >= 2;
    }
  }

  /** One strand's text in front of the rest, and its molecules in front of theirs, join alike. */
  lemma JoinFront(texts: seq<string>, t: string, ts: seq<string>, sites: seq<Site>, s0: seq<Site>, cs: seq<Site>)
    requires texts == [t] + ts && sites == s0 + cs
    requires t == Join(RenderAll(s0), ".") && |s0| > 0
    requires |ts| == 0 <==> |cs| == 0
    requires Join(ts, ".") == Join(RenderAll(cs), ".")
    ensures Join(texts, ".") == Join(RenderAll(sites), ".")
  {
    RenderAllConcat(s0, cs);
    if |ts| == 0 {
      assert texts == [t] && sites == s0 + [];
      assert s0 + [] == s0;
    } else {
      JoinConcat([t], ts, ".");
      JoinConcat(RenderAll(s0), RenderAll(cs), ".");
    }
  }

  /** The texts of strands `j ..` are their molecules, rendered and joined with `.`. */
  lemma {:induction false} TextsSitesFrom(xs: seq<Oriented>, j: nat, c: nat)
    requires ComplexOk(xs) && j <= |xs|
    ensures Join(TextsFrom(xs, j, c), ".") == Join(RenderAll(SitesFrom(xs, j, c)), ".")
    decreases |xs| - j
  {
    if j < |xs| {
      var c2 := c + Span(|xs[j].tokens|) - 1;
      var t := StrandText(xs[j].orient, xs[j].tokens, c);
      var s0 := StrandSites(xs[j].orient, xs[j].tokens, c);
      TextsSitesFrom(xs, j + 1, c2);
      TextsStep(xs, j, c, t, c2);
      SitesStep(xs, j, c, s0, c2);
      FromEmpty(xs, j + 1, c2);
      JoinFront(TextsFrom(xs, j, c), t, TextsFrom(xs, j + 1, c2), SitesFrom(xs, j, c), s0, SitesFrom(xs, j + 1, c2));
    }
  }

  /** The text of a complex is its molecules, rendered and joined with `.`. */
  lemma ComplexTextSites(x: Canon)
    requires ComplexOk(x.strands)
    ensures ComplexText(x) == Join(RenderAll(ComplexSites(x.strands, x.bonds)), ".")
  {
    TextsSitesFrom(x.strands, 0, x.bonds);
  }

  /** Number of backbone bonds of strands `j ..`: one fewer than their molecules, per strand. */
  function BackboneFrom(xs: seq<Oriented>, j: nat): nat
    requires j <= |xs|
    decreases |xs| - j
  {
    if j == |xs| then 0 else Span(|xs[j].tokens|) - 1 + BackboneFrom(xs, j + 1)
  }

  function FiveOf(s: Site): Option<nat> {
    s.five
  }

  function ThreeOf(s: Site): Option<nat> {
    s.three
  }

  /** `Some(lo), Some(lo + 1), …` (`m` of them). */
  function Run(lo: nat, m: nat): (r: seq<Option<nat>>)
    ensures |r| == m
    decreases m
  {
    if m == 0 then [] else Run(lo, m - 1) + [Some(lo + m - 1)]
  }

  lemma {:induction false} RunAt(lo: nat, m: nat, i: nat)
    requires i < m
    ensures Run(lo, m)[i] == Some(lo + i)
    decreases m
  {
    if i < m - 1 {
      RunAt(lo, m - 1, i);
    }
  }

  /** Every number of a run occurs in it once. */
  lemma {:induction false} RunCount(lo: nat, m: nat, n: nat)
    ensures Count(Run(lo, m), Some(n)) == if lo <= n < lo + m then 1 else 0
    decreases m
  {
    if m > 0 {
      RunCount(lo, m - 1, n);
      assert Run(lo, m)[..m - 1] == Run(lo, m - 1);
    }
  }

  /**
   * Within one strand, the 5' sites carry the backbone numbers `c + 1 ..`
   * once each with one free end, and so do the 3' sites, at the other end.
   */
  lemma StrandBackbone(o: Orient, a: seq<string>, c: nat)
    requires StrandOk(a)
    ensures o == Five ==> MapSeq(FiveOf, StrandSites(o, a, c)) == [None] + Run(c + 1, Span(|a|) - 1)
    ensures o == Five ==> MapSeq(ThreeOf, StrandSites(o, a, c)) == Run(c + 1, Span(|a|) - 1) + [None]
    ensures o != Five ==> MapSeq(FiveOf, StrandSites(o, a, c)) == Run(c + 1, Span(|a|) - 1) + [None]
    ensures o != Five ==> MapSeq(ThreeOf, StrandSites(o, a, c)) == [None] + Run(c + 1, Span(|a|) - 1)
  {
    var m := Span(|a|) - 1;
    var sites := StrandSites(o, a, c);
    var run := Run(c + 1, m);
    forall k | 0 <= k < m
      ensures run[k] == Some(c + 1 + k)
    {
      RunAt(c + 1, m, k);
    }
    var before := [None] + Run(c + 1, m);
    var after := Run(c + 1, m) + [None];
    if o == Five {
      assert MapSeq(FiveOf, sites) == before;
      assert MapSeq(ThreeOf, sites) == after;
    } else {
      assert MapSeq(FiveOf, sites) == after;
      assert MapSeq(ThreeOf, sites) == before;
    }
  }

  /** A number occurs once on the 5' and once on the 3' sites of a strand exactly when it is one of its backbone bonds. */
  lemma StrandPaired(o: Orient, a: seq<string>, c: nat, n: nat)
    requires StrandOk(a)
    ensures Count(MapSeq(FiveOf, StrandSites(o, a, c)), Some(n)) == if c < n <= c + Span(|a|) - 1 then 1 else 0
    ensures Count(MapSeq(ThreeOf, StrandSites(o, a, c)), Some(n)) == if c < n <= c + Span(|a|) - 1 then 1 else 0
  {
    StrandBackbone(o, a, c);
    RunPaired(c + 1, Span(|a|) - 1, n);
  }

  /** A run with a free end added at either side holds each of its numbers once. */
  lemma RunPaired(lo: nat, m: nat, n: nat)
    ensures Count([None] + Run(lo, m), Some(n)) == if lo <= n < lo + m then 1 else 0
    ensures Count(Run(lo, m) + [None], Some(n)) == if lo <= n < lo + m then 1 else 0
  {
    RunCount(lo, m, n);
    CountConcat([None], Run(lo, m), Some(n));
    CountConcat(Run(lo, m), [None], Some(n));
    var none: seq<Option<nat>> := [None];
    assert none[..0] == [];
  }

  lemma CountMapConcat<T, U>(g: T -> U, a: seq<T>, b: seq<T>, x: U)
    ensures Count(MapSeq(g, a + b), x) == Count(MapSeq(g, a), x) + Count(MapSeq(g, b), x)
  {
    MapSeqConcat(g, a, b);
    CountConcat(MapSeq(g, a), MapSeq(g, b), x);
  }

  /**
   * In the molecules of a complex whose counter starts at `c`, every
   * backbone bond number `c + 1 .. c + BackboneFrom(xs, 0)` sits on exactly
   * one 5' site and exactly one 3' site, and no other number appears on a
   * backbone site: each is a proper BNGL bond, and none can clash with the
   * hybridisation bonds numbered up to `c`.
   */
  lemma ComplexPaired(xs: seq<Oriented>, c: nat, n: nat)
    requires ComplexOk(xs)
    ensures Count(MapSeq(FiveOf, ComplexSites(xs, c)), Some(n)) == if c < n <= c + BackboneFrom(xs, 0) then 1 else 0
    ensures Count(MapSeq(ThreeOf, ComplexSites(xs, c)), Some(n)) == if c < n <= c + BackboneFrom(xs, 0) then 1 else 0
  {
    PairedFrom(xs, 0, c, n);
  }

  lemma {:induction false} PairedFrom(xs: seq<Oriented>, j: nat, c: nat, n: nat)
    requires ComplexOk(xs) && j <= |xs|
    ensures Count(MapSeq(FiveOf, SitesFrom(xs, j, c)), Some(n)) == if c < n <= c + BackboneFrom(xs, j) then 1 else 0
    ensures Count(MapSeq(ThreeOf, SitesFrom(xs, j, c)), Some(n)) == if c < n <= c + BackboneFrom(xs, j) then 1 else 0
    decreases |xs| - j
  {
    if j == |xs| {
      assert MapSeq(FiveOf, SitesFrom(xs, j, c)) == [];
      assert MapSeq(ThreeOf, SitesFrom(xs, j, c)) == [];
    } else {
      var c2 := c + Span(|xs[j].tokens|) - 1;
      var s0 := StrandSites(xs[j].orient, xs[j].tokens, c);
      SitesStep(xs, j, c, s0, c2);
      StrandPaired(xs[j].orient, xs[j].tokens, c, n);
      PairedFrom(xs, j + 1, c2, n);
      CountMapConcat(FiveOf, s0, SitesFrom(xs, j + 1, c2), Some(n));
      CountMapConcat(ThreeOf, s0, SitesFrom(xs, j + 1, c2), Some(n));
    }
  }

  /* ---------------- the W sites ---------------- */

  function TokenOf(s: Site): string {
    s.token
  }

  /** The tokens `convert` writes for strand `a`: a lone token twice, as first and last. */
  function MoleculeTokens(a: seq<string>): seq<string> {
    if |a| == 1 then [a[0], a[0]] else a
  }

  /** Molecule `k` of a strand carries the strand's token `k`. */
  lemma StrandTokens(o: Orient, a: seq<string>, c: nat)
    requires StrandOk(a)
    ensures MapSeq(TokenOf, StrandSites(o, a, c)) == MoleculeTokens(a)
  {
    var sites := StrandSites(o, a, c);
    var m := MoleculeTokens(a);
    assert |m| == |sites|;
    forall k | 0 <= k < |sites|
      ensures TokenOf(sites[k]) == m[k]
    {
      assert sites[k] == SiteAt(o, a, c, k);
    }
  }

  /** The tokens written for strands `j ..`, strand after strand. */
  function TokensFrom(xs: seq<Oriented>, j: nat): seq<string>
    requires j <= |xs|
    decreases |xs| - j
  {
    if j == |xs| then [] else MoleculeTokens(xs[j].tokens) + TokensFrom(xs, j + 1)
  }

  lemma {:induction false} SiteTokensFrom(xs: seq<Oriented>, j: nat, c: nat)
    requires ComplexOk(xs) && j <= |xs|
    ensures MapSeq(TokenOf, SitesFrom(xs, j, c)) == TokensFrom(xs, j)
    decreases |xs| - j
  {
    if j < |xs| {
      var c2 := c + Span(|xs[j].tokens|) - 1;
      var s0 := StrandSites(xs[j].orient, xs[j].tokens, c);
      SitesStep(xs, j, c, s0, c2);
      StrandTokens(xs[j].orient, xs[j].tokens, c);
      SiteTokensFrom(xs, j + 1, c2);
      MapSeqConcat(TokenOf, s0, SitesFrom(xs, j + 1, c2));
    } else {
      assert MapSeq(TokenOf, SitesFrom(xs, j, c)) == [];
    }
  }

  /** Strands of at least two tokens are written token for token. */
  lemma {:induction false} TokensFromFlatten(xs: seq<Oriented>, j: nat)
    requires j <= |xs| && forall k :: 0 <= k < |xs| ==> |xs[k].tokens| >= 2
    ensures TokensFrom(xs, j) == Renumber.Flatten(xs[j..])
    decreases |xs| - j
  {
    if j < |xs| {
      TokensFromFlatten(xs, j + 1);
      assert xs[j..][1..] == xs[j + 1..];
    } else {
      assert xs[j..] == [];
    }
  }

  /** The molecules of a complex whose strands have two tokens or more carry its tokens, in order. */
  lemma ComplexTokens(xs: seq<Oriented>, c: nat)
    requires ComplexOk(xs) && forall k :: 0 <= k < |xs| ==> |xs[k].tokens| >= 2
    ensures MapSeq(TokenOf, ComplexSites(xs, c)) == Renumber.Flatten(xs)
  {
    SiteTokensFrom(xs, 0, c);
    TokensFromFlatten(xs, 0);
    assert xs[0..] == xs;
  }

  /** The bond texts on the `W` sites of the molecules, in order. */
  function WBonds(sites: seq<Site>): seq<string> {
    Renumber.Bonds(MapSeq(TokenOf, sites))
  }

  /**
   * Writing a renumbered complex whose strands have two tokens or more:
   * when every bond of the input joins exactly two tokens, every number on
   * a `W` site occurs on exactly two of them, and it is one of `1 .. n`,
   * below the backbone numbers, which start at `n + 1`.
   */
  lemma WSitesPaired(xs: seq<Oriented>, c: nat)
    requires ComplexOk(xs) && forall k :: 0 <= k < |xs| ==> |xs[k].tokens| >= 2
    requires forall b :: b in Renumber.Bonds(Renumber.Flatten(xs)) ==> Count(Renumber.Bonds(Renumber.Flatten(xs)), b) == 2
    ensures ComplexOk(Renumber.Renumbered(xs))
    ensures forall b :: b in WBonds(ComplexSites(Renumber.Renumbered(xs), c)) ==>
              Count(WBonds(ComplexSites(Renumber.Renumbered(xs), c)), b) == 2
    ensures forall b :: b in WBonds(ComplexSites(Renumber.Renumbered(xs), c)) ==>
              b in Renumber.Numerals(|Renumber.Numbering(xs)|)
  {
    var ys := Renumber.Renumbered(xs);
    RenumberedLengths(xs);
    ComplexTokens(ys, c);
    var bs := Renumber.Bonds(Renumber.Flatten(xs));
    var bs' := Renumber.Bonds(Renumber.Flatten(ys));
    assert WBonds(ComplexSites(ys, c)) == bs';
    forall p, q | 0 <= p < |bs| && 0 <= q < |bs|
      ensures |bs'| == |bs| && (bs'[p] == bs'[q] <==> bs[p] == bs[q])
    {
      Renumber.SameNumberIff(xs, p, q);
    }
    Renumber.BondsRenumbered(xs);
    CountsCarry(bs', bs, 2);
    Renumber.NumberingRenumbered(xs);
    DedupMembers(bs');
  }

  /** Renumbering keeps every strand's length, so it keeps strands writable. */
  lemma RenumberedLengths(xs: seq<Oriented>)
    requires ComplexOk(xs)
    ensures |Renumber.Renumbered(xs)| == |xs|
    ensures forall k :: 0 <= k < |xs| ==> |Renumber.Renumbered(xs)[k].tokens| == |xs[k].tokens|
    ensures ComplexOk(Renumber.Renumbered(xs))
  {
    forall k, i | 0 <= k < |xs| && 0 <= i < |xs[k].tokens|
      ensures |Renumber.Renumbered(xs)[k].tokens| == |xs[k].tokens|
      ensures |Renumber.Renumbered(xs)[k].tokens[i]| > 0
    {
      Renumber.RenumberedShape(xs, k, i);
    }
    forall k | 0 <= k < |xs|
      ensures |Renumber.Renumbered(xs)[k].tokens| == |xs[k].tokens|
    {
      Renumber.RenumberedShape(xs, k, 0);
    }
  }
}
