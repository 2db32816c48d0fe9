# Distributed DNA multi-strand simulator — verified model of the core

This project models, in Dafny, the sequential logic that the simulation
driver runs between two rounds of parallel simulation of DNA strands:

* **The weight-balanced partitioner** `get_split_complexes` (`main.py`). It
  expands every species `[complex, count]` into unit copies weighted by
  their number of nucleotides. The copies are ordered heaviest first, the
  `k` heaviest are kept in front and the rest are shuffled. Each copy then
  goes, in turn, to the lightest basket of the moment. Empty baskets are
  dropped and each basket is collapsed back into `(complex, count)` pairs
  (module `Partition`).
* **The species-text transforms of `main.py`** (module `SpeciesLines`):
  - `complexes_set_fg_state`, which tags the `e`-th complex of a thread with
    the state `fg~e` and writes the molecule-type line;
  - the parser of input species lines, which drops the last comma field of
    every nucleotide;
  - the nucleotide total;
  - the lines of a step's result file.
* **The post-processor** `complexes_post_process`
  (`system_files/complexes_post_processor.py`). It takes the complexes a
  round produced, as lists of strands of tokens such as `A` or `T12`, with
  their amounts. It brings every complex into a key form and merges the
  complexes whose keys are equal, summing their amounts. It then writes
  each merged complex as BioNetGen molecules. One module per stage:
  - `StrandSort` (id entry, masked stable sort, labels);
  - `Traversal` (`bind`/`look`, the breadth-first walk over complementary
    tokens);
  - `Orientation` (`set_orient`, `ori_copy_dic`, `comp_sort`);
  - `Renumber` (`re_write`);
  - `Merge` (`cal_same_comp`);
  - `Bngl` (`make_bngl`/`convert`);
  - `PostProcess` for the whole pipeline.
* **The path escaper** `convert_link_address`
  (`system_files/shared_classes.py`), module `LinkAddress`.

The supporting modules are:
* `Text`: `str`, `int`, `strip`, `split` and `join`.
* `Collections`: deduplication in first-occurrence order, counts and
  grouped sums.
* `Sorting`: `sorted` as a stable insertion sort.
* `Lex`: Python's list and string ordering.
* `Tokens`: masking, complements and renaming of bond numbers.
* `Wrappers`: `Option`.

The loops of the source are methods, each proved against a specification
function:
* `ExpandSpecies`, `AssignToBaskets`, `SmallestBasket` and
  `CollapseBaskets` in `Partition`;
* `ComplexesSetFgState` in `SpeciesLines`;
* `Bind`, `ReWrite`, `MergeSame`, `Convert`, `WriteComplex` and
  `MakeBngl` in the post-processor modules;
* `ConvertLinkAddress`.

Comprehensions and sorts are functions. Lemmas state what the stages
promise.

### Modelling decisions

* **Indices are 0-based.** Copy id `i` is species `i + 1` of `main.py`, and
  basket `b` is its thread `b + 1`.
* **Parameters stand in for globals and randomness.** The thread count
  `alternative_n_threads` is the parameter `k`. The random draws of
  `random.shuffle` are the parameter `choices`, where `choices[i] <= i` is
  the draw made for position `i`. Every property holds for every choice.
* **Failures are `None`.** A complex whose walk meets a bonded token with
  no partner makes `bind` raise once its list is full. The model returns
  `None` for it, and `None` for the whole post-process. A species line
  without a two-space separator makes the parser raise `IndexError`, and
  a count that `int()` cannot read makes it raise `ValueError`; the model
  returns `None` for both. With copies to place but a thread count of zero,
  `get_split_complexes` raises `KeyError`; the model returns `ok` false.
* **Counts are read as `int()` reads them**: surrounding whitespace, a
  sign and underscores between digits are accepted. A negative count makes
  no copies, as `range` does, but still lowers the nucleotide total.
* **`isalpha`, `isdigit`, `isspace` and the digits `int()` reads are ASCII only.**
* **Strands unreachable from the first sorted strand are dropped**, as the
  code does (`complexes_post_processor.py:113-130`). Disconnected parts are
  not appended as further roots.
* **A strand of a single token is written as two molecules**, its first and
  last, as `convert` does.
* **Stage order.** The source runs each stage over all complexes before the
  next stage. The model runs all stages on one complex, then the next
  complex. The stages do not interact across complexes, so the result is
  the same.
* **What is stored.** The orientation marker `['5','-','3']` or
  `['3','-','5']` is represented by the orientation itself (`Marker` gives
  the list). `re_write`'s look-up list `q` alternates `'|b|'` texts and new
  numbers; the model keeps the sequence of distinct bond texts, whose
  position gives the new number.
* **The key depends on how strands are listed.** The sort on masked
  strands is stable, so two strands with equal masked token lists keep
  their input order. Listing the same strands in another order can
  therefore change the key. `StrandOrder.StrandOrderMatters` exhibits
  three strands for which it does. The model follows the code here. It
  proves the invariance that does hold: a consistent renaming of the bond
  numbers never changes the key (`PostProcess.CanonRenamed`).

## Model

| member | source | states |
|---|---|---|
| LinkAddress.ConvertLinkAddress | system_files/shared_classes.py:4-15 | the result is the escaped path with every `/` turned into `\`; its length is the input length plus one per escaped character; it holds no `/` |
| LinkAddress.EscapedLength | system_files/shared_classes.py:8-12 | escaping adds exactly one `^` per character outside letters, digits and `\ / _ : - .` |
| LinkAddress.UnescapeEscaped | system_files/shared_classes.py:8-12 | escaping is lossless: dropping each `^` prefix gives the input back, characters in order |
| LinkAddress.SafePathUnchanged | system_files/shared_classes.py:8-15 | a path made only of kept characters and without `/` is returned unchanged |
| LinkAddress.SlashesCollide | system_files/shared_classes.py:8-13 | two paths convert alike exactly when they agree once every `/` in them is read as `\`: the two slashes cannot be told apart afterwards, and no other two paths collide |
| Text.ParseIntDigits | main.py:186 | `int(s)` reads a plain digit string as its decimal value |
| Text.ParseIntPadded | main.py:186 | `int()` ignores whitespace on either side of its argument |
| Text.ParseIntSigned | main.py:186 | a `+` in front of a numeral leaves its value, a `-` negates it |
| Text.ParseIntUnderscore | main.py:186 | an underscore between two numerals is ignored, and the result is read as a number |
| Text.ParseIntAcceptsPadded | main.py:293-298 | the count texts ` 5` (a species line with three spaces before its count) and `5\n` are read as 5 |
| Text.ParseIntAcceptsSigned | main.py:186 | `+5` is read as 5 and `-3` as -3 |
| Text.ParseIntAcceptsUnderscore | main.py:186 | `1_0` is read as 10 |
| Text.ParseIntRejects | main.py:186 | the empty and all-space texts, a leading or doubled underscore, an inner space and a doubled sign are refused |
| Text.ParseIntToString | main.py:186 | `int(str(n)) == n` |
| Text.NatToStringInjective | system_files/complexes_post_processor.py:79 | two numbers print alike exactly when they are equal |
| Text.JoinSplit | main.py:277-278 | joining the pieces of a split with the same separator gives the string back |
| Text.SplitJoin | main.py:293-294 | splitting a join on a character that no piece holds gives the pieces back |
| Text.SplitLength | main.py:186 | `len(s.split(c))` is one more than the number of occurrences of `c` |
| Sorting.SortBy | system_files/complexes_post_processor.py:47 | `sorted` returns a permutation of its input (same multiset and length), sorted by the key, and stable: elements with equal keys keep their relative order |
| Sorting.ReverseSorted | main.py:201 | reversing an ascending sort puts every key at or above every later one |
| Lex.KeyLessOrder | system_files/complexes_post_processor.py:47 | Python's comparison of masked token lists is a strict total order |
| Tokens.Mask | system_files/complexes_post_processor.py:40-41 | a letter followed by digits becomes the letter and `x`; a single letter is kept |
| Tokens.Partner | system_files/complexes_post_processor.py:119-120 | a complement exists exactly for tokens longer than one character whose base is A, T, G or C; it keeps the length and the bond number |
| Tokens.PartnerInvolution | system_files/complexes_post_processor.py:92-120 | the complement of the complement is the token itself, and no token is its own complement |
| Tokens.MaskRenamed | system_files/complexes_post_processor.py:40-41 | renaming bond numbers leaves the mask unchanged |
| Tokens.PartnerRenamed | system_files/complexes_post_processor.py:119-121 | renaming bond numbers commutes with taking the complement |
| StrandSort.LexSorted | system_files/complexes_post_processor.py:34-60 | the strands come out as a permutation of the input, in non-decreasing masked order, with equal masked strands in input order |
| StrandSort.IdSortsFirst | system_files/complexes_post_processor.py:15-60 | the id entry `[str(id)]` sorts in front of every strand, so sorting the entry list is sorting the strands behind the id |
| StrandSort.StrandLabelsDistinct | system_files/complexes_post_processor.py:76-80 | labels `id.n` of one complex are pairwise distinct |
| StrandSort.LexSortedRenamed | system_files/complexes_post_processor.py:34-60 | the sorted order does not depend on bond numbers: renaming them commutes with the sort |
| Traversal.Look | system_files/complexes_post_processor.py:96-100 | `look` returns the first strand that holds the token, and fails exactly when no strand holds it |
| Traversal.DiscoverOne | system_files/complexes_post_processor.py:117-130 | one token keeps the walk valid and only extends it; it fails exactly when the token is bonded with no partner and every strand is already recorded |
| Traversal.Bind | system_files/complexes_post_processor.py:91-132 | the loop computes the traversal function on one complex |
| Traversal.TraversalFacts | system_files/complexes_post_processor.py:102-131 | the walk records distinct strands. The first is strand 0 read 5'. Every later strand was first reached from the earliest recorded strand adjacent to it, with the opposite orientation. Every strand adjacent to a recorded one is recorded, so exactly the strands connected to the first are kept |
| Traversal.TraversalFailsOnlyOnDangling | system_files/complexes_post_processor.py:118-122 | the walk succeeds on every complex in which each bonded token has its partner |
| Traversal.TraversalRenamed | system_files/complexes_post_processor.py:91-132 | the walk does not depend on bond numbers, only on which tokens pair up |
| Orientation.Marker | system_files/complexes_post_processor.py:144-190 | the marker has three entries with `-` in the middle; for `'3'` it is `['5','-','3']` reversed |
| Orientation.OrientedReadBack | system_files/complexes_post_processor.py:168-197 | entry `k` keeps the orientation the walk gave its strand. Read back in that orientation, it is the strand the walk recorded at position `k`, with the same tokens. A `'3'` strand starts with its strand's last token |
| Orientation.CompleteWalk | system_files/complexes_post_processor.py:102-131 | a walk that recorded as many strands as the complex has recorded every strand |
| Orientation.OrientRenamed | system_files/complexes_post_processor.py:168-197 | renaming bond numbers before or after orienting gives the same entries |
| Renumber.ReWrite | system_files/complexes_post_processor.py:202-237 | the loop returns the renumbered strands and, as `n`, the number of distinct bond texts met |
| Renumber.RenumberedShape | system_files/complexes_post_processor.py:209-234 | renumbering keeps strands, orientations, lengths and base letters; single-letter tokens are untouched; a bonded token gets a decimal number |
| Renumber.NumberingRenumbered | system_files/complexes_post_processor.py:214-235 | after renumbering, the bonds met in order are `1`, then `2`, … up to `n`: first-encounter numbering |
| Renumber.SameNumberIff | system_files/complexes_post_processor.py:218-232 | two bonded tokens share a new number exactly when they shared an old one |
| Renumber.CountIsDistinctBonds | system_files/complexes_post_processor.py:220-235 | `n` equals the number of distinct old bond texts |
| Renumber.RenumberedRenamed | system_files/complexes_post_processor.py:218-232 | a consistent renaming of bond numbers beforehand gives the same renumbered complex |
| Merge.MergeSame | system_files/complexes_post_processor.py:244-269 | the loop's keys are the input keys without repetition, in first-occurrence order. Each amount is the sum of the amounts of all equal keys. Each strand count is the key's number of strands |
| Merge.MergedTogether | system_files/complexes_post_processor.py:254-267 | two equal complexes land in one merged entry whose amount includes both of theirs |
| Merge.MergedInto | system_files/complexes_post_processor.py:254-267 | every complex lands in the entry equal to it, whose amount includes its own |
| Merge.MergeKeepsTotal | system_files/complexes_post_processor.py:253-269 | there are no more entries than complexes, and the merged amounts add up to the input amounts |
| Collections.DedupFirstOccurrenceOrder | system_files/complexes_post_processor.py:254-260 | the merged keys appear in the order of their first occurrence in the input |
| Collections.GroupSumsTotal | system_files/complexes_post_processor.py:253-269 | grouping by key and summing per group keeps the grand total |
| Bngl.Convert | system_files/complexes_post_processor.py:278-330 | `convert` returns the strand's molecules joined with `.` and leaves the counter at its start plus the strand's backbone bond count |
| Bngl.WriteComplex | system_files/complexes_post_processor.py:332-335 | one merged complex is written as its strands' texts in order, the counter starting at its bond count and threaded from strand to strand |
| Bngl.MakeBngl | system_files/complexes_post_processor.py:332-338 | one `[text, str(amount)]` pair per merged complex, in order |
| Bngl.ComplexTextSites | system_files/complexes_post_processor.py:335 | the text of a complex is its molecules, rendered and joined with `.` |
| Bngl.StrandBackbone | system_files/complexes_post_processor.py:278-330 | within a strand the 5' sites carry backbone numbers `c+1 …` in order with one free end, and the 3' sites the same numbers with the other end free; mirrored for `'3'` strands |
| Bngl.StrandPaired | system_files/complexes_post_processor.py:278-330 | a number occurs once on the 5' sites and once on the 3' sites of a strand exactly when it is one of its backbone numbers |
| Bngl.ComplexPaired | system_files/complexes_post_processor.py:332-335 | across a complex, every backbone number from `n + 1` on sits on exactly one 5' and one 3' site, and no other number, in particular none of the hybridisation bonds `1..n`, is on a backbone site |
| Bngl.StrandTokens | system_files/complexes_post_processor.py:282-330 | molecule `k` of a strand carries the strand's token `k`; a strand of one token is written as that token twice |
| Bngl.ComplexTokens | system_files/complexes_post_processor.py:332-335 | when every strand has two tokens or more, the molecules of a complex carry exactly its tokens, in order |
| Bngl.WSitesPaired | system_files/complexes_post_processor.py:283-335 | for a renumbered complex whose strands have two tokens or more, and whose input bonds each join exactly two tokens: every number on a `W` site occurs on exactly two sites and is one of `1 .. n`, so it cannot clash with the backbone numbers from `n + 1` on |
| PostProcess.CanonKey | system_files/complexes_post_processor.py:15-237 | the stages of one complex compute its key, or fail |
| PostProcess.CanonKeys | system_files/complexes_post_processor.py:15-237 | the keys of all complexes in file order, present exactly when every walk succeeds |
| PostProcess.ComplexesPostProcess | system_files/complexes_post_processor.py:7-340 | the post-process yields one `(text, amount)` pair per distinct key, or `None` when a walk fails |
| PostProcess.CanonRenamed | system_files/complexes_post_processor.py:34-237 | the key of a complex does not depend on its bond numbers: a consistent renaming gives the same key or the same failure |
| PostProcess.RenamedComplexesMerge | system_files/complexes_post_processor.py:244-269 | two complexes that differ only in bond numbers are merged into one entry whose amount includes both of theirs |
| PostProcess.SameEntryIff | system_files/complexes_post_processor.py:244-269 | two complexes share an output entry exactly when their keys are equal |
| PostProcess.NoDanglingSorted | system_files/complexes_post_processor.py:34-60 | sorting the strands does not change whether every bonded token has its partner |
| PostProcess.CanonFailsOnlyOnDangling | system_files/complexes_post_processor.py:91-132 | a complex in which every bonded token has its partner always gets a key |
| PostProcess.PostProcessSucceeds | system_files/complexes_post_processor.py:7-340 | the post-process produces its text when no complex has a dangling bond |
| StrandOrder.StrandOrderMatters | system_files/complexes_post_processor.py:34-60 | two listings of the same three strands, both well-formed and both walkable, get different keys |
| SpeciesLines.ThreadSetFgState | main.py:275-284 | line `e` of a thread is its `e`-th complex tagged `fg~e`, two spaces and the count; the header lists the states `0 … m-1` |
| SpeciesLines.ComplexesSetFgState | main.py:269-286 | one list of lines and one header per thread, each as for a single thread |
| SpeciesLines.TaggedNucleotides | main.py:277-278 | the tagged complex has the same number of nucleotides as the complex, each one tagged, and no space |
| SpeciesLines.FgStatesList | main.py:275-281 | the header's state list is exactly `0`, `1`, …, `m-1` |
| SpeciesLines.FgLineHalves | main.py:277-278 | a written line splits at its two spaces into the tagged complex and the count |
| SpeciesLines.ParseFgLine | main.py:293-295 | parsing a written line gives back the untagged complex and the count |
| SpeciesLines.StripTagged | main.py:293 | stripping the last comma field of tagged nucleotides gives the nucleotides back |
| SpeciesLines.ParseSpeciesLine | main.py:293-295 | a line parses exactly when it contains a two-space separator |
| SpeciesLines.SpeciesLinesOf | main.py:295 | a line is kept exactly when it starts with `N` |
| SpeciesLines.ParseSpeciesFile | main.py:293-295 | every kept line parsed, in order, present exactly when every kept line parses |
| SpeciesLines.StripLastFieldOf | main.py:293 | stripping removes exactly the last comma field and closes the nucleotide with `)` |
| SpeciesLines.ParsedNucleotides | main.py:293-294 | the nucleotides of a parsed line are the line's nucleotides, each stripped |
| SpeciesLines.ReadCounts | main.py:186 | every count is read by `int()`, in order; reading fails exactly when some count is not an integer |
| SpeciesLines.NucleotideTotal | main.py:298 | the total exists exactly when `int()` reads every count; otherwise the source raises |
| SpeciesLines.CountsParsed | main.py:184-196 | `int(complex[1])` succeeds on every species exactly when `int()` reads each count; each species then has as many copies as `range` of its count makes, none for a negative count |
| SpeciesLines.NucleotideTotalIsSum | main.py:298 | `sum_nucleotides` is at most the weight of the species the partitioner receives, and equal to it exactly when no count is negative |
| SpeciesLines.WeightedTotalBelow | main.py:194-198 | for any signed counts, the sum of weight times count is at most the weight of the copies `range` makes, with equality exactly when no count is negative |
| SpeciesLines.NucleotideSumIsCopyWeight | main.py:184-196 | that total is the total weight of the unit copies the partitioner makes |
| SpeciesLines.SequenceLetters | main.py:353 | the base letters are the fifth character of each nucleotide, one per nucleotide, or fail when a nucleotide is shorter |
| SpeciesLines.ResultLine | main.py:353-354 | a result line exists exactly when the complex's base letters do |
| SpeciesLines.ResultLines | main.py:353-354 | one result line per species, in order, present exactly when each is |
| Partition.Weight | main.py:186 | a complex weighs at least one nucleotide |
| Partition.ExpandSpecies | main.py:193-196 | the nested loops build the expansion of the species into unit copies |
| Partition.ExpandFacts | main.py:184-196 | there are exactly `count` copies of each species, each carrying its species' weight, and as many copies as the counts add up to |
| Partition.IdCountPermutation | main.py:201-207 | reordering the copies keeps the number of copies of each species |
| Partition.BySize | main.py:201 | ordering by size is a permutation of the copies |
| Partition.BySizeDescending | main.py:201 | `reversed(sorted(...))` orders the copies by non-increasing weight |
| Partition.Shuffle | main.py:205 | `shuffle` with any draws is a permutation |
| Partition.Rearranged | main.py:201-207 | `expanded_rearranged` is a permutation of the copies |
| Partition.RearrangedKeepsHead | main.py:201-207 | the first `k` copies are the heaviest-first ones, in place, and the rest is a reordering of the remaining ones |
| Partition.RearrangedHeaviestFirst | main.py:201-207 | the first `k` copies are in non-increasing weight and none of the shuffled ones is heavier than them |
| Partition.SmallestBasket | main.py:219-220 | `min(sizes, key=sizes.get)` is the first basket of least weight |
| Partition.AssignToBaskets | main.py:209-221 | it fails exactly when there are copies but no thread, where `baskets[current_basket]` raises `KeyError`; otherwise every copy goes to the first lightest basket of the moment, each basket's lists are the ids and weights of its copies, in order, and each species' copies are all placed |
| Partition.GreedySpread | main.py:212-221 | at every step no basket outweighs another by more than the heaviest copy |
| Partition.GreedySeeds | main.py:212-221 | while fewer copies than baskets are placed, copy `j` goes to basket `j`, so the `k` heaviest copies seed one basket each |
| Partition.GreedyFills | main.py:224 | exactly the first `min(k, copies)` baskets end up non-empty |
| Partition.Tally | main.py:229 | a `Counter` has one entry per distinct id |
| Partition.TallyCounts | main.py:229 | a `Counter` lists each id once, records exactly how often it occurs, and only ids that occur |
| Partition.BasketWeight | main.py:229-230 | the weight of a basket equals that of its collapsed `(complex, count)` list |
| Partition.Items | main.py:230 | one `(complex, count)` pair per `Counter` entry |
| Partition.CollapseBaskets | main.py:226-231 | one thread per non-empty basket, in ascending basket order, each the basket collapsed; the counts per species over all threads equal those over all baskets |
| Partition.CollapsedTally | main.py:229-230 | a collapsed basket lists each of its species once, with its complex and its count |
| Partition.SplitCoverage | main.py:215-231 | every copy of every species ends up in exactly one thread's count: the counts across threads add up to the input count |
| Partition.GetSplitComplexes | main.py:180-234 | it fails exactly when there are copies but no thread, where the source raises `KeyError`. Otherwise `possible_thread_count` equals the number of threads, which is `min(k, copies)`. Every thread lists each species at most once with its count. The counts across threads add up to each input count. No thread outweighs another by more than the heaviest complex |

## Left out

- Polling for the workers' results (`wait_for_process`, the re-reading loop of `attach_complexes`): file-system polling that synchronises with external processes.
- Process dispatch (`get_nfsim_run_command`, `run_simulation`, `joblib.Parallel`): external binaries and OS-level parallelism.
- Session directories and the JSON configuration (`setup_session_variables`, the module-level config load), and `read_file`/`write_file`: file I/O. Lines are taken as `read_file` returns them, already stripped.
- The test-suite loop, `move` and `delete_temp_files`: file-system side effects.
- Float arithmetic (the step count, run times, the k1 rescaling, progress percentages): floating point.
- `extract_ssdna` and `convert_dump_to_species`: their code is not part of this model. Their output, complexes as lists of strands of tokens with integer amounts, is the post-processor's input.
- The randomness of `shuffle`: the draws are a parameter (`choices`), so every property holds for every permutation the shuffle can produce.
- Unicode semantics of `isalpha` and `isdigit`: letters and digits are ASCII.
- Text.ParseInt: reads ASCII whitespace and ASCII digits only; the other Unicode whitespace and decimal digits that `int()` also accepts are not modelled.
- Partition.GetSplitComplexes: the thread count is a natural number. A negative `alternative_n_threads`, which the slices would count from the end, is not modelled.
- `convert_to_run_formats`, which only applies `convert_link_address` to three paths, is not modelled.
- Bngl.WSitesPaired: requires every strand to have two tokens or more. A strand of one token is written as two molecules that carry the same token, so a bond on that token shows up on three `W` sites. It also requires every input bond to join exactly two tokens, which the source does not check.
- PostProcess.CanonKey: requires at least one strand per complex, no empty strand, and every token a base letter with an optional bond number, as `extract_ssdna` produces them. On a complex with no strand, or with an empty strand (which sorts first), `re_id_data` raises `IndexError` at `c[0][0]`; the model excludes such complexes by precondition instead of modelling the exception.
- Partition.GetSplitComplexes: the unused `total_weight` accumulator and the `complexes_dictionary` map are not modelled separately. Species ids index the input list directly.
