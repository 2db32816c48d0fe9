/**
 * Tokens of a strand as `extract_ssdna` hands them to the post-processor:
 * a base letter, optionally followed by a bond number (`A`, `T12`). Two
 * tokens are bonded when they carry the same number on complementary
 * bases (A with T, G with C).
 */
module Tokens {

  import opened Wrappers
  import opened Text

  /** The grammar of a token: one letter, then an optional decimal bond number. */
  predicate WellFormedToken(u: string) {
    |u| >= 1 && IsAsciiLetter(u[0]) && (|u| == 1 || IsDigits(u[1..]))
  }

  predicate WellFormedStrand(s: seq<string>) {
    forall i :: 0 <= i < |s| ==> WellFormedToken(s[i])
  }

  predicate WellFormedComplex(strands: seq<seq<string>>) {
    forall j :: 0 <= j < |strands| ==> WellFormedStrand(strands[j])
  }

  /**
   * The mask of `lex_sorting`: a letter followed by digits becomes the
   * letter and `x`; anything else is kept. (Python fails on the empty
   * token; the model keeps it, and the post-processor requires tokens to
   * be non-empty.)
   */
  function Mask(u: string): (m: string)
    ensures WellFormedToken(u) && |u| > 1 ==> m == [u[0], 'x']
    ensures WellFormedToken(u) && |u| == 1 ==> m == u
  {
    if |u| > 0 && IsAsciiLetter(u[0]) && IsDigits(u[1..]) then [u[0], 'x'] else u
  }

  function MaskStrand(s: seq<string>): (m: seq<string>)
    ensures |m| == |s|
  {
    seq(|s|, i requires 0 <= i < |s| => Mask(s[i]))
  }

  /** `comp_dic`. */
  function Complement(c: char): Option<char> {
    match c
    case 'A' => Some('T')
    case 'T' => Some('A')
    case 'G' => Some('C')
    case 'C' => Some('G')
    case _ => None
  }

  /** `comp_dic[u[0]] + u[1:]`, for a token longer than one character whose base has a complement. */
  function Partner(u: string): (r: Option<string>)
    ensures r.Some? <==> |u| > 1 && Complement(u[0]).Some?
    ensures r.Some? ==> |r.value| == |u| && r.value[1..] == u[1..]
  {
    if |u| > 1 && Complement(u[0]).Some? then Some([Complement(u[0]).value] + u[1..]) else None
  }

  /** The partner of the partner is the token itself, and no token is its own partner. */
  lemma PartnerInvolution(u: string)
    requires Partner(u).Some?
    ensures Partner(Partner(u).value) == Some(u)
    ensures Partner(u).value != u
  {
    var p := Partner(u).value;
    assert p[0] != u[0];
    assert [u[0]] + u[1..] == u;
  }

  /* ---------------- consistent renaming of bond numbers ---------------- */

  /**
   * A renaming of bond numbers: injective, and mapping decimal numbers to
   * decimal numbers and non-empty text to non-empty text.
   */
  ghost predicate BondRenaming(f: string -> string) {
    && (forall a, b :: f(a) == f(b) ==> a == b)
    && (forall a :: IsDigits(a) ==> IsDigits(f(a)))
    && (forall a :: |a| > 0 ==> |f(a)| > 0)
  }

  function RenameToken(f: string -> string, u: string): string {
    if |u| > 1 then [u[0]] + f(u[1..]) else u
  }

  function RenameStrand(f: string -> string, s: seq<string>): (r: seq<string>)
    ensures |r| == |s|
  {
    seq(|s|, i requires 0 <= i < |s| => RenameToken(f, s[i]))
  }

  function RenameComplex(f: string -> string, strands: seq<seq<string>>): (r: seq<seq<string>>)
    ensures |r| == |strands|
  {
    seq(|strands|, j requires 0 <= j < |strands| => RenameStrand(f, strands[j]))
  }

  lemma RenameTokenInjective(f: string -> string, u: string, v: string)
    requires BondRenaming(f)
    requires RenameToken(f, u) == RenameToken(f, v)
    ensures u == v
  {
    var ru := RenameToken(f, u);
    if |u| > 1 && |v| > 1 {
      assert ru[0] == u[0] && ru[0] == v[0];
      assert ru[1..] == f(u[1..]) && ru[1..] == f(v[1..]);
      assert [u[0]] + u[1..] == u && [v[0]] + v[1..] == v;
    }
  }

  lemma RenameKeepsWellFormed(f: string -> string, u: string)
    requires BondRenaming(f) && WellFormedToken(u)
    ensures WellFormedToken(RenameToken(f, u))
  {
    if |u| > 1 {
      assert RenameToken(f, u)[1..] == f(u[1..]);
    }
  }

  /** Masking forgets the bond numbers, so renaming them leaves the mask unchanged. */
  lemma MaskRenamed(f: string -> string, u: string)
    requires BondRenaming(f) && WellFormedToken(u)
    ensures Mask(RenameToken(f, u)) == Mask(u)
  {
    RenameKeepsWellFormed(f, u);
  }

  lemma MaskStrandRenamed(f: string -> string, s: seq<string>)
    requires BondRenaming(f) && WellFormedStrand(s)
    ensures MaskStrand(RenameStrand(f, s)) == MaskStrand(s)
  {
    forall i | 0 <= i < |s|
      ensures MaskStrand(RenameStrand(f, s))[i] == MaskStrand(s)[i]
    {
      MaskRenamed(f, s[i]);
    }
  }

  /** Renaming commutes with taking the partner. */
  lemma PartnerRenamed(f: string -> string, u: string)
    requires BondRenaming(f)
    ensures Partner(RenameToken(f, u)).Some? <==> Partner(u).Some?
    ensures Partner(u).Some? ==> Partner(RenameToken(f, u)).value == RenameToken(f, Partner(u).value)
  {
    if |u| > 1 {
      assert |f(u[1..])| > 0;
      assert RenameToken(f, u)[1..] == f(u[1..]);
      if Partner(u).Some? {
        assert Partner(u).value[1..] == u[1..];
      }
    }
  }

  lemma RenamedMember(f: string -> string, u: string, s: seq<string>)
    requires BondRenaming(f)
    ensures RenameToken(f, u) in RenameStrand(f, s) <==> u in s
  {
    if RenameToken(f, u) in RenameStrand(f, s) {
      var i :| 0 <= i < |s| && RenameStrand(f, s)[i] == RenameToken(f, u);
      RenameTokenInjective(f, u, s[i]);
    }
    if u in s {
      var i :| 0 <= i < |s| && s[i] == u;
      assert RenameStrand(f, s)[i] == RenameToken(f, u);
    }
  }
}
