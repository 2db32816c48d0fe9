/**
 * The species-text transforms of main.py: `complexes_set_fg_state`, which
 * tags every nucleotide of the `e`-th complex of a thread with the state
 * `fg~e` and builds the thread's molecule-type line; the parser that reads
 * species lines back (dropping each nucleotide's last comma field); the
 * nucleotide total; and the lines of a step's result file.
 *
 * A complex is a `.`-separated list of nucleotides such as `N(b~A,5,3!1,W)`.
 * Lines are taken as `read_file` returns them, already stripped.
 */
module SpeciesLines {

  import opened Wrappers
  import opened Text
  import opened Collections
  import Partition

  /* ---------------- complexes_set_fg_state ---------------- */

  /** A nucleotide with its closing parenthesis replaced by the field `fg~e` and a new one. */
  function TagNucleotide(nuc: string, e: nat): string {
    DropLast(nuc) + ",fg~" + NatToString(e) + ")"
  }

  function TagAll(nucs: seq<string>, e: nat): (tagged: seq<string>)
    ensures |tagged| == |nucs|
  {
    seq(|nucs|, i requires 0 <= i < |nucs| => TagNucleotide(nucs[i], e))
  }

  /** The complex with every nucleotide in state `fg~e`. */
  function TaggedComplex(complex: string, e: nat): string {
    Join(TagAll(Split(complex, "."), e), ".")
  }

  /** One line of `complexes_all_split`: the tagged complex, two spaces, the count. */
  function FgLine(complex: string, count: nat, e: nat): string {
    TaggedComplex(complex, e) + "  " + NatToString(count)
  }

  /** `~0~1…~(m-1)`: the states listed by the molecule-type line. */
  function FgStates(m: nat): string
    decreases m
  {
    if m == 0 then "" else FgStates(m - 1) + "~" + NatToString(m - 1)
  }

  /** The `begin_molecule_state` line for a thread holding `m` complexes. */
  function MoleculeTypeLine(m: nat): string {
    "N(b~A~T~C~G,5,3,W,fg" + FgStates(m) + ")"
  }

  /**
   * `complexes_set_fg_state`: per thread, one line per complex (the `e`-th
   * complex in state `fg~e`) and the molecule-type line naming those states.
   */
  method ComplexesSetFgState(threads: seq<seq<(string, nat)>>) returns (allSplit: seq<seq<string>>, beginStates: seq<string>)
    ensures |allSplit| == |threads| && |beginStates| == |threads|
    ensures forall t :: 0 <= t < |threads| ==>
              |allSplit[t]| == |threads[t]| && beginStates[t] == MoleculeTypeLine(|threads[t]|)
    ensures forall t, e :: 0 <= t < |threads| && 0 <= e < |threads[t]| ==>
              allSplit[t][e] == FgLine(threads[t][e].0, threads[t][e].1, e)
  {
    allSplit, beginStates := [], [];
    for t := 0 to |threads|
      invariant |allSplit| == t && |beginStates| == t
      invariant forall t' :: 0 <= t' < t ==>
                  |allSplit[t']| == |threads[t']| && beginStates[t'] == MoleculeTypeLine(|threads[t']|)
      invariant forall t', e :: 0 <= t' < t && 0 <= e < |threads[t']| ==>
                  allSplit[t'][e] == FgLine(threads[t'][e].0, threads[t'][e].1, e)
    {
      var withState, beginLine := ThreadSetFgState(threads[t]);
      allSplit := allSplit + [withState];
      beginStates := beginStates + [beginLine];
    }
  }

  /** The body of `complexes_set_fg_state` for one thread. */
  method ThreadSetFgState(complex: seq<(string, nat)>) returns (withState: seq<string>, beginLine: string)
    ensures |withState| == |complex|
    ensures forall e :: 0 <= e < |complex| ==> withState[e] == FgLine(complex[e].0, complex[e].1, e)
    ensures beginLine == MoleculeTypeLine(|complex|)
  {
    withState := [];
    var head := "N(b~A~T~C~G,5,3,W,fg";
    var begin := head;
    for e := 0 to |complex|
      invariant |withState| == e
      invariant forall e' :: 0 <= e' < e ==> withState[e'] == FgLine(complex[e'].0, complex[e'].1, e')
      invariant begin == head + FgStates(e)
    {
      var line := TaggedComplex(complex[e].0, e) + "  " + NatToString(complex[e].1);
      LinesStep(complex, withState, e, line);
      withState := withState + [line];
      FgStatesStep(head, begin, e);
      begin := begin + "~" + NatToString(e);
    }
    beginLine := begin + ")";
  }

  lemma LinesStep(complex: seq<(string, nat)>, withState: seq<string>, e: nat, line: string)
    requires e < |complex| && |withState| == e
    requires forall e' :: 0 <= e' < e ==> withState[e'] == FgLine(complex[e'].0, complex[e'].1, e')
    requires line == TaggedComplex(complex[e].0, e) + "  " + NatToString(complex[e].1)
    ensures forall e' :: 0 <= e' <= e ==> (withState + [line])[e'] == FgLine(complex[e'].0, complex[e'].1, e')
  {
  }

  lemma FgStatesStep(head: string, begin: string, e: nat)
    requires begin == head + FgStates(e)
    ensures begin + "~" + NatToString(e) == head + FgStates(e + 1)
  {
  }

  /** Text with no two consecutive spaces breaks only where intended. */
  predicate SpaceFree(s: string) {
    ' ' !in s
  }

  /** A nucleotide as the simulator writes it: ends with `)`, no `.` and no space. */
  predicate WellFormedNucleotide(nuc: string) {
    |nuc| > 0 && nuc[|nuc| - 1] == ')' && '.' !in nuc && ' ' !in nuc
  }

  predicate WellFormedComplex(complex: string) {
    forall i :: 0 <= i < |Split(complex, ".")| ==> WellFormedNucleotide(Split(complex, ".")[i])
  }

  lemma {:induction false} JoinFree(parts: seq<string>, sep: string, c: char)
    requires c !in sep
    requires forall i :: 0 <= i < |parts| ==> c !in parts[i]
    ensures c !in Join(parts, sep)
    decreases |parts|
  {
    if |parts| > 1 {
      JoinFree(parts[1..], sep, c);
    }
  }

  lemma NatToStringChars(n: nat)
    ensures '.' !in NatToString(n) && ' ' !in NatToString(n) && ',' !in NatToString(n) && '~' !in NatToString(n)
  {
    var s := NatToString(n);
    assert forall i :: 0 <= i < |s| ==> IsDigit(s[i]);
  }

  /** The tagged nucleotides are exactly the `.`-fields of the tagged complex. */
  lemma TaggedNucleotides(complex: string, e: nat)
    ensures Split(TaggedComplex(complex, e), ".") == TagAll(Split(complex, "."), e)
    ensures |Split(TaggedComplex(complex, e), ".")| == Partition.Weight(complex)
    ensures WellFormedComplex(complex) ==> ' ' !in TaggedComplex(complex, e)
  {
    var nucs := Split(complex, ".");
    var tags := TagAll(nucs, e);
    SplitPiecesFree(complex, '.');
    NatToStringChars(e);
    forall i | 0 <= i < |tags|
      ensures '.' !in tags[i]
    {
      assert '.' !in DropLast(nucs[i]);
      assert tags[i] == DropLast(nucs[i]) + ",fg~" + NatToString(e) + ")";
    }
    SplitJoin(tags, '.');
    if WellFormedComplex(complex) {
      forall i | 0 <= i < |tags|
        ensures ' ' !in tags[i]
      {
        assert WellFormedNucleotide(nucs[i]);
        assert ' ' !in DropLast(nucs[i]);
        assert tags[i] == DropLast(nucs[i]) + ",fg~" + NatToString(e) + ")";
      }
      JoinFree(tags, ".", ' ');
    }
  }

  /** The state names `0`, …, `m - 1`. */
  function StateNames(m: nat): (names: seq<string>)
    ensures |names| == m
  {
    seq(m, i requires 0 <= i < m => NatToString(i))
  }

  /** The molecule-type line lists the states `0`, …, `m - 1`, in order. */
  lemma {:induction false} FgStatesList(m: nat)
    ensures Split(FgStates(m), "~") == [""] + StateNames(m)
    decreases m
  {
    if m > 0 {
      FgStatesList(m - 1);
      NatToStringChars(m - 1);
      StatesAppend(FgStates(m - 1), NatToString(m - 1), StateNames(m - 1));
      assert FgStates(m) == FgStates(m - 1) + ['~'] + NatToString(m - 1);
      assert StateNames(m) == StateNames(m - 1) + [NatToString(m - 1)];
    }
  }

  /** One more state name at the end of the list. */
  lemma StatesAppend(states: string, d: string, names: seq<string>)
    requires Split(states, "~") == [""] + names && '~' !in d
    ensures Split(states + ['~'] + d, "~") == [""] + (names + [d])
  {
    SplitAround(states, '~', d);
    SplitWithoutSeparator(d, '~');
  }

  /* ---------------- the species-line parser ---------------- */

  /** The nucleotide without its last comma field, closed again with a parenthesis. */
  function StripLastField(n: string): string {
    var fields := Split(n, ",");
    Join(fields[..|fields| - 1], ",") + ")"
  }

  /** The nucleotides of a species line, each stripped. */
  function StripAll(nucs: seq<string>): (stripped: seq<string>)
    ensures |stripped| == |nucs|
  {
    seq(|nucs|, i requires 0 <= i < |nucs| => StripLastField(nucs[i]))
  }

  /**
   * One element of `species_set`: the complex with every nucleotide
   * stripped, and the count text. A line without two consecutive spaces
   * raises `IndexError` in the source.
   */
  function ParseSpeciesLine(l: string): (r: Option<(string, string)>)
    ensures r.Some? <==> |Split(l, "  ")| >= 2
  {
    var halves := Split(l, "  ");
    if |halves| < 2 then None
    else
      var nucs := Split(halves[0], ".");
      Some((Join(StripAll(nucs), "."), halves[1]))
  }

  /** The lines the comprehension keeps: those starting with `N`. */
  function SpeciesLinesOf(lines: seq<string>): (kept: seq<string>)
    ensures forall i :: 0 <= i < |kept| ==> |kept[i]| > 0 && kept[i][0] == 'N'
    ensures forall x :: x in kept <==> x in lines && |x| > 0 && x[0] == 'N'
    ensures |kept| <= |lines|
    decreases |lines|
  {
    if |lines| == 0 then []
    else
      var rest := SpeciesLinesOf(lines[1..]);
      if |lines[0]| > 0 && lines[0][0] == 'N' then [lines[0]] + rest else rest
  }

  /** `species_set`: every kept line parsed, or `None` when one of them has no count. */
  function ParseSpeciesFile(lines: seq<string>): (r: Option<seq<(string, string)>>)
    ensures r.Some? ==> |r.value| == |SpeciesLinesOf(lines)|
    ensures r.Some? ==> forall i :: 0 <= i < |r.value| ==> ParseSpeciesLine(SpeciesLinesOf(lines)[i]) == Some(r.value[i])
    ensures r.Some? <==> AllParse(SpeciesLinesOf(lines))
  {
    ParseAll(SpeciesLinesOf(lines))
  }

  /** Every kept line has a count field. */
  predicate AllParse(kept: seq<string>) {
    forall i :: 0 <= i < |kept| ==> ParseSpeciesLine(kept[i]).Some?
  }

  function ParseAll(kept: seq<string>): (r: Option<seq<(string, string)>>)
    ensures r.Some? ==> |r.value| == |kept|
    ensures r.Some? ==> forall i :: 0 <= i < |kept| ==> ParseSpeciesLine(kept[i]) == Some(r.value[i])
    ensures r.Some? <==> AllParse(kept)
    decreases |kept|
  {
    if |kept| == 0 then Some([])
    else
      match (ParseSpeciesLine(kept[0]), ParseAll(kept[1..]))
      case (Some(x), Some(xs)) =>
        assert forall i :: 1 <= i < |kept| ==> kept[i] == kept[1..][i - 1];
        Some([x] + xs)
      case (_, r) =>
        assert r.None? ==> exists i :: 0 <= i < |kept[1..]| && ParseSpeciesLine(kept[1..][i]).None?;
        assert r.None? ==> !AllParse(kept);
        None
  }

  /** Stripping removes exactly the last comma field and closes the nucleotide. */
  lemma StripLastFieldOf(x: string, y: string)
    requires ',' !in y
    ensures StripLastField(x + "," + y) == x + ")"
  {
    SplitAround(x, ',', y);
    SplitWithoutSeparator(y, ',');
    assert x + "," + y == x + [','] + y;
    var fields := Split(x + "," + y, ",");
    assert fields[..|fields| - 1] == Split(x, ",");
    JoinSplit(x, ",");
  }

  /** Every nucleotide of a parsed line is the source nucleotide with its last field stripped. */
  lemma ParsedNucleotides(l: string)
    requires ParseSpeciesLine(l).Some?
    ensures Split(ParseSpeciesLine(l).value.0, ".") == StripAll(Split(Split(l, "  ")[0], "."))
  {
    var nucs := Split(Split(l, "  ")[0], ".");
    var stripped := StripAll(nucs);
    SplitPiecesFree(Split(l, "  ")[0], '.');
    forall i | 0 <= i < |stripped|
      ensures '.' !in stripped[i]
    {
      var fields := Split(nucs[i], ",");
      SplitPiecesFree(nucs[i], ',');
      JoinSplit(nucs[i], ",");
      PrefixJoinFree(fields, ",", '.');
    }
    SplitJoin(stripped, '.');
  }

  /** A character absent from a split string is absent from any re-join of a prefix of its pieces. */
  lemma PrefixJoinFree(fields: seq<string>, sep: string, c: char)
    requires |fields| >= 1 && c !in sep && c !in Join(fields, sep)
    ensures c !in Join(fields[..|fields| - 1], sep)
  {
    forall i | 0 <= i < |fields|
      ensures c !in fields[i]
    {
      if c in fields[i] {
        JoinContains(fields, sep, i, c);
      }
    }
    JoinFree(fields[..|fields| - 1], sep, c);
  }

  lemma {:induction false} JoinContains(parts: seq<string>, sep: string, i: nat, c: char)
    requires i < |parts| && c in parts[i]
    ensures c in Join(parts, sep)
    decreases |parts|
  {
    if |parts| > 1 && i > 0 {
      JoinContains(parts[1..], sep, i - 1, c);
    }
  }

  /** `sep` occurs in `s` starting at position `i`. */
  predicate MatchAt(s: string, sep: string, i: nat) {
    i + |sep| <= |s| && s[i..i + |sep|] == sep
  }

  /** No match of `sep` starts before position `n` of `s`. */
  predicate NoMatchBefore(s: string, sep: string, n: nat) {
    forall i: nat :: i < n ==> !MatchAt(s, sep, i)
  }

  lemma MatchAtTail(s: string, sep: string, i: nat)
    requires |s| > 0
    ensures MatchAt(s[1..], sep, i) <==> MatchAt(s, sep, i + 1)
  {
    if i + |sep| <= |s[1..]| {
      assert s[1..][i..i + |sep|] == s[i + 1..i + 1 + |sep|];
    }
  }

  lemma {:induction false} SplitAtFirst(a: string, sep: string, b: string)
    requires |sep| > 0 && NoMatchBefore(a + sep + b, sep, |a|)
    ensures Split(a + sep + b, sep) == [a] + Split(b, sep)
    decreases |a|
  {
    var s := a + sep + b;
    if |a| == 0 {
      assert s[..|sep|] == sep && s[|sep|..] == b;
    } else {
      assert !MatchAt(s, sep, 0);
      assert s[1..] == a[1..] + sep + b;
      forall i: nat | i < |a| - 1
        ensures !MatchAt(s[1..], sep, i)
      {
        MatchAtTail(s, sep, i);
      }
      SplitAtFirst(a[1..], sep, b);
      assert [a[0]] + a[1..] == a;
    }
  }

  lemma {:induction false} SplitNoMatch(s: string, sep: string)
    requires |sep| > 0 && NoMatchBefore(s, sep, |s|)
    ensures Split(s, sep) == [s]
    decreases |s|
  {
    if |s| >= |sep| {
      assert !MatchAt(s, sep, 0);
      forall i: nat | i < |s| - 1
        ensures !MatchAt(s[1..], sep, i)
      {
        MatchAtTail(s, sep, i);
      }
      SplitNoMatch(s[1..], sep);
      assert [s[0]] + s[1..] == s;
    }
  }

  /** A line of `complexes_all_split` splits at its two spaces into the tagged complex and the count. */
  lemma FgLineHalves(complex: string, count: nat, e: nat)
    requires WellFormedComplex(complex)
    ensures Split(FgLine(complex, count, e), "  ") == [TaggedComplex(complex, e), NatToString(count)]
  {
    var tagged := TaggedComplex(complex, e);
    var digits := NatToString(count);
    TaggedNucleotides(complex, e);
    NatToStringChars(count);
    var l := tagged + "  " + digits;
    forall i: nat | i < |tagged|
      ensures !MatchAt(l, "  ", i)
    {
      assert l[i] == tagged[i];
      NoSpaceNoMatch(l, i);
    }
    SplitAtFirst(tagged, "  ", digits);
    forall i: nat | i < |digits|
      ensures !MatchAt(digits, "  ", i)
    {
      NoSpaceNoMatch(digits, i);
    }
    SplitNoMatch(digits, "  ");
  }

  /** The two-space separator cannot start at a character that is not a space. */
  lemma NoSpaceNoMatch(s: string, i: nat)
    requires i < |s| && s[i] != ' '
    ensures !MatchAt(s, "  ", i)
  {
  }

  /** Stripping the last field of each tagged nucleotide gives back the nucleotides. */
  lemma StripTagged(nucs: seq<string>, e: nat)
    requires forall i :: 0 <= i < |nucs| ==> WellFormedNucleotide(nucs[i])
    ensures StripAll(TagAll(nucs, e)) == nucs
  {
    NatToStringChars(e);
    var field := "fg~" + NatToString(e) + ")";
    assert ',' !in field;
    forall i | 0 <= i < |nucs|
      ensures StripAll(TagAll(nucs, e))[i] == nucs[i]
    {
      var x := DropLast(nucs[i]);
      assert TagAll(nucs, e)[i] == x + "," + field;
      StripLastFieldOf(x, field);
      assert x + ")" == nucs[i];
    }
  }

  /**
   * The parser reads back what `complexes_set_fg_state` writes: stripping
   * the `fg~e` field restores the complex, and the count text is the count.
   */
  lemma ParseFgLine(complex: string, count: nat, e: nat)
    requires WellFormedComplex(complex)
    ensures ParseSpeciesLine(FgLine(complex, count, e)) == Some((complex, NatToString(count)))
    ensures ParseInt(NatToString(count)) == Some(count)
  {
    FgLineHalves(complex, count, e);
    TaggedNucleotides(complex, e);
    StripTagged(Split(complex, "."), e);
    JoinSplit(complex, ".");
    ParseIntToString(count);
  }

  /* ---------------- the nucleotide total ---------------- */

  /** The count of every species as `int()` reads it; `None` when one is not an integer. */
  function ReadCounts(species: seq<(string, string)>): (r: Option<seq<int>>)
    ensures r.Some? <==> forall i :: 0 <= i < |species| ==> ParseInt(species[i].1).Some?
    ensures r.Some? ==> |r.value| == |species|
    ensures r.Some? ==> forall i :: 0 <= i < |species| ==> ParseInt(species[i].1) == Some(r.value[i])
    decreases |species|
  {
    if |species| == 0 then Some([])
    else
      var n := |species| - 1;
      assert forall i :: 0 <= i < n ==> species[..n][i] == species[i];
      match (ReadCounts(species[..n]), ParseInt(species[n].1))
      case (Some(init), Some(count)) => Some(init + [count])
      case _ => None
  }

  /** Σ number of nucleotides × count, negative counts included. */
  function WeightedTotal(species: seq<(string, string)>, counts: seq<int>): int
    requires |counts| == |species|
    decreases |species|
  {
    if |species| == 0 then 0
    else
      var n := |species| - 1;
      WeightedTotal(species[..n], counts[..n]) + Partition.Weight(species[n].0) * counts[n]
  }

  /** `sum_nucleotides`; `None` when a count is not an integer, where the source raises. */
  function NucleotideTotal(species: seq<(string, string)>): (r: Option<int>)
    ensures r.Some? <==> forall i :: 0 <= i < |species| ==> ParseInt(species[i].1).Some?
  {
    match ReadCounts(species)
    case None => None
    case Some(counts) => Some(WeightedTotal(species, counts))
  }

  /** `len(range(v))`: the number of copies `get_split_complexes` makes of a species counted `v`. */
  function RangeLength(v: int): nat {
    if v < 0 then 0 else v
  }

  /** Each species with the number of copies its count makes. */
  function Copies(species: seq<(string, string)>, counts: seq<int>): (all: seq<Partition.Species>)
    requires |counts| == |species|
    ensures |all| == |species|
  {
    seq(|species|, i requires 0 <= i < |species| => Partition.Species(species[i].0, RangeLength(counts[i])))
  }

  /**
   * `int(complex[1])` on every species, as `get_split_complexes` does; each
   * species keeps the number of copies its count makes.
   */
  function CountsParsed(species: seq<(string, string)>): (r: Option<seq<Partition.Species>>)
    ensures r.Some? ==> |r.value| == |species|
    ensures r.Some? ==> forall i :: 0 <= i < |species| ==>
              && r.value[i].complex == species[i].0
              && ParseInt(species[i].1).Some?
              && r.value[i].count == RangeLength(ParseInt(species[i].1).value)
    ensures r.Some? <==> forall i :: 0 <= i < |species| ==> ParseInt(species[i].1).Some?
  {
    match ReadCounts(species)
    case None => None
    case Some(counts) => Some(Copies(species, counts))
  }

  /** Σ weight × count over the species. */
  function NucleotideSum(all: seq<Partition.Species>): nat
    decreases |all|
  {
    if |all| == 0 then 0
    else NucleotideSum(all[..|all| - 1]) + Partition.Weight(all[|all| - 1].complex) * all[|all| - 1].count
  }

  /**
   * The total agrees with the species the partitioner receives: it is at
   * most their weight, and equal to it exactly when no count is negative.
   */
  lemma NucleotideTotalIsSum(species: seq<(string, string)>)
    requires CountsParsed(species).Some?
    ensures NucleotideTotal(species).Some?
    ensures NucleotideTotal(species).value <= NucleotideSum(CountsParsed(species).value)
    ensures NucleotideTotal(species).value == NucleotideSum(CountsParsed(species).value)
            <==> forall i :: 0 <= i < |species| ==> ParseInt(species[i].1).value >= 0
  {
    var counts := ReadCounts(species).value;
    WeightedTotalBelow(species, counts);
  }

  /** The weighted total of signed counts against the weight of the copies they make. */
  lemma {:induction false} WeightedTotalBelow(species: seq<(string, string)>, counts: seq<int>)
    requires |counts| == |species|
    ensures WeightedTotal(species, counts) <= NucleotideSum(Copies(species, counts))
    ensures WeightedTotal(species, counts) == NucleotideSum(Copies(species, counts))
            <==> forall i :: 0 <= i < |counts| ==> counts[i] >= 0
    decreases |species|
  {
    if |species| > 0 {
      var n := |species| - 1;
      var all := Copies(species, counts);
      WeightedTotalBelow(species[..n], counts[..n]);
      assert all[..n] == Copies(species[..n], counts[..n]);
      var w, v := Partition.Weight(species[n].0), counts[n];
      WeighedCount(w, v);
      assert NucleotideSum(all) == NucleotideSum(all[..n]) + w * RangeLength(v);
      if v >= 0 {
        assert forall i :: 0 <= i < n ==> counts[..n][i] == counts[i];
      }
    }
  }

  /** A species' share of the total is at most its copies' weight, and equal to it unless the count is negative. */
  lemma WeighedCount(w: nat, v: int)
    requires w >= 1
    ensures w * v <= w * RangeLength(v)
    ensures w * v == w * RangeLength(v) <==> v >= 0
  {
    if v < 0 {
      assert w * v <= v;
    }
  }

  /** The nucleotide total is the total weight of the unit copies the partitioner makes. */
  lemma {:induction false} NucleotideSumIsCopyWeight(all: seq<Partition.Species>)
    ensures NucleotideSum(all) == CopyWeightSum(Partition.Expand(all))
    decreases |all|
  {
    if |all| > 0 {
      var n := |all| - 1;
      var c := Partition.Copy(n, Partition.Weight(all[n].complex));
      NucleotideSumIsCopyWeight(all[..n]);
      CopyWeightSumConcat(Partition.Expand(all[..n]), seq(all[n].count, _ => c));
      RepeatWeight(c, all[n].count);
    }
  }

  function CopyWeightSum(copies: seq<Partition.Copy>): nat
    decreases |copies|
  {
    if |copies| == 0 then 0 else CopyWeightSum(copies[..|copies| - 1]) + copies[|copies| - 1].weight
  }

  lemma {:induction false} CopyWeightSumConcat(a: seq<Partition.Copy>, b: seq<Partition.Copy>)
    ensures CopyWeightSum(a + b) == CopyWeightSum(a) + CopyWeightSum(b)
    decreases |b|
  {
    if |b| == 0 {
      assert a + b == a;
    } else {
      CopyWeightSumConcat(a, b[..|b| - 1]);
      assert (a + b)[..|a + b| - 1] == a + b[..|b| - 1];
    }
  }

  lemma {:induction false} RepeatWeight(c: Partition.Copy, m: nat)
    ensures CopyWeightSum(seq(m, _ => c)) == c.weight * m
    decreases m
  {
    if m > 0 {
      RepeatWeight(c, m - 1);
      assert seq(m, _ => c)[..m - 1] == seq(m - 1, _ => c);
      assert c.weight * m == c.weight * (m - 1) + c.weight;
    }
  }

  /* ---------------- the step result file ---------------- */

  /** The fifth character of every nucleotide, in order; `None` when a nucleotide is shorter than five characters. */
  function SequenceLetters(complex: string): (r: Option<string>)
    ensures r.Some? <==> LongEnough(Split(complex, "."))
    ensures r.Some? ==> |r.value| == Partition.Weight(complex)
    ensures r.Some? ==> forall i :: 0 <= i < |r.value| ==> r.value[i] == Split(complex, ".")[i][4]
  {
    LettersOf(Split(complex, "."))
  }

  /** Every nucleotide has a fifth character. */
  predicate LongEnough(nucs: seq<string>) {
    forall i :: 0 <= i < |nucs| ==> |nucs[i]| >= 5
  }

  function LettersOf(nucs: seq<string>): (r: Option<string>)
    ensures r.Some? <==> LongEnough(nucs)
    ensures r.Some? ==> |r.value| == |nucs| && forall i :: 0 <= i < |nucs| ==> r.value[i] == nucs[i][4]
    decreases |nucs|
  {
    if |nucs| == 0 then Some("")
    else if |nucs[0]| < 5 then None
    else
      match LettersOf(nucs[1..])
      case Some(rest) => Some([nucs[0][4]] + rest)
      case None => None
  }

  /** One element of `complexes_list_st_format`: a comment with the bases, then the species line. */
  function ResultLine(complex: string, count: string): (r: Option<string>)
    ensures r.Some? <==> SequenceLetters(complex).Some?
  {
    match SequenceLetters(complex)
    case Some(letters) => Some("# " + letters + ", 5' - 3'\n" + complex + "  " + count + "\n")
    case None => None
  }

  function ResultLines(species: seq<(string, string)>): (r: Option<seq<string>>)
    ensures r.Some? <==> forall i :: 0 <= i < |species| ==> ResultLine(species[i].0, species[i].1).Some?
    ensures r.Some? ==> |r.value| == |species|
    ensures r.Some? ==> forall i :: 0 <= i < |species| ==> Some(r.value[i]) == ResultLine(species[i].0, species[i].1)
    decreases |species|
  {
    if |species| == 0 then Some([])
    else
      match (ResultLine(species[0].0, species[0].1), ResultLines(species[1..]))
      case (Some(x), Some(xs)) =>
        assert forall i :: 1 <= i < |species| ==> species[i] == species[1..][i - 1];
        Some([x] + xs)
      case (_, r) =>
        assert r.None? ==> exists i :: 0 <= i < |species[1..]| && ResultLine(species[1..][i].0, species[1..][i].1).None?;
        None
  }
}
