# Column-deduplicating likelihood trees, worker splitting and SFF text parsing

This project models three files of PyCogent in Dafny and proves properties of the model.

- `cogent/evolve/likelihood_tree.py`. A phylogenetic likelihood tree in which equal alignment columns are stored once.
  - A leaf reduces a sequence to its distinct motifs and appends a synthetic gap motif with count 0.
  - An edge combines its children's per-column indices into tuples, reduces those tuples to their distinct values in the same way, and appends a gap tuple with count 0.
  - Likelihoods are then computed once per distinct tuple, as a product of the children's rows gathered through per-child index arrays.
  - Edges can be split into column shards for parallel workers and reassembled.
- `cogent/util/parallel.py`:
  - the rule that splits the current group of workers into `next` and `sub` groups;
  - the stack of current communicators;
  - the chunked parallel `map`;
  - a random number generator that gives each worker its own phase of one shared stream.
- `cogent/parse/flowgram_parser.py`. Reading the text form of 454 SFF files:
  - `key: value` header and summary lines;
  - selecting summary records by number, by name or all of them;
  - counting the flowgrams;
  - the index-matching loop that picks a random sample of flowgrams.

Modules:

- `Wrappers` (`wrappers.dfy`): the `Option` and `Result` types and small sequence facts.
  - `Collect` models a generator that raises at its first failing element.
- `ColumnIndex` (`column_index.dfy`): `_indexed`, as a specification function `Indexed` and as the loop `BuildIndexed`. The loop fills an index array and keeps a `seen` map.
- `LikelihoodTree` (`likelihood_tree.py`'s leaves): construction from motifs, `backward`, `selectColumns`, slicing and `getAmbiguousPositions`.
- `LikelihoodEdge`: the node datatype and edge construction.
  - Edges can be built from pre-aligned children or through an alignment map. `BuildAssignments` is the nested loop.
  - Also `selectColumns`, `getEdge` and `asLeaf`.
- `EdgeColumns`: what an entry stands for. `Content` is what a subtree holds at one column: per leaf, its motif and profile, nested as the tree is.
  - `EntryContent` is what a distinct entry stands for, and `ColumnAt` what a column holds in the leaves.
  - `Columnwise` says every edge of a tree is built from pre-aligned children. For such trees, and for every selection, a column's entry stands for what the column holds.
- `LikelihoodArrays`: `makePartialLikelihoodsArray`, `sumInputLikelihoods(R)` and `restrictMotif`, on `array2<real>`.
- `Sharding`: `parallelShare`, `parallelReconstructColumns` and `getFullLengthLikelihoods`.
  - A likelihood calculation is a parameter `L`, a function of what a distinct entry stands for. Each worker's array holds `L` of its local entries.
  - From that, the parts handed to the reconstruction are derived from the local copies, and so is the round trip from sharing to the full-length likelihoods.
- `Parallel`: `parallel.py`. It has a class for the communicator stack and a class for `ParaRandom`.
- `FlowgramParser`: `flowgram_parser.py`.

Records are given as a sequence of records, each a sequence of stripped lines. Likelihoods are `real`. Nodes are immutable datatypes, because nothing in the source changes a node once it is built. A communicator is a value: the fake one, the world with a rank and a size, or one half of a split of another communicator.

In five places the code does something that is easy to misread. The model follows the code in each:

- **All-gap column.** The comment "extra column for gap" (likelihood_tree.py:66-68) appends a gap tuple with count 0, but an alignment column that is a gap in every child does not resolve to it. The tuples of the real columns are reduced first, so such a column gets a real entry of its own that is equal to the gap tuple and counted at least once (`LikelihoodEdge.AllGapColumn`).
- **Reassembling shards.** The comment "pad so last local array is the same size as the rest" (likelihood_tree.py:128) expects only the last part to be short. The reassembly computes its share size differently from the sharing, so sharing and then reassembling does not reproduce every edge (see Findings).
- **`ParaRandom` stride.** The `ParaRandom` docstring (parallel.py:130-132) says that process n always gets the n-th random number of the series. `ParaRandom.random` skips `num_proc` draws after the one it returns, so the stride is `num_proc + 1`.
- **`ParaRandom` phases.** With ranks in `[0, num_proc)`, phase `num_proc` is never used. The phases stay disjoint (`Parallel.DrawsDisjoint`).
- **Empty `number_list`.** `getSummaries` tests `number_list` for truth, so an empty list counts as no selection by number.

## Model

| member | source | states |
|---|---|---|
| ColumnIndex.IndexedCorrect | cogent/evolve/likelihood_tree.py:227-244 | Every position maps back to its own key through the index. The distinct keys have no repeats and are in first-occurrence order. `counts[i]` is the number of positions with index `i`, and the counts add up to the number of values. |
| ColumnIndex.IndexedSameKeySameIndex | cogent/evolve/likelihood_tree.py:227-244 | Two positions get the same index exactly when they hold the same key. |
| ColumnIndex.IndexedOrderBack | cogent/evolve/likelihood_tree.py:234-242 | A distinct key that first occurs earlier in the values sits at a lower position of `unique`. |
| ColumnIndex.IndexedUniqueFromValues | cogent/evolve/likelihood_tree.py:238-241 | Every distinct key occurs among the values. |
| ColumnIndex.IndexedUniqueDistinct | cogent/evolve/likelihood_tree.py:235-242 | The distinct keys are pairwise different. |
| ColumnIndex.IndexedSnoc | cogent/evolve/likelihood_tree.py:234-243 | Indexing one more value is one more iteration of the loop. The value is either counted again at its recorded index or appended with count 1. |
| ColumnIndex.BuildIndexed | cogent/evolve/likelihood_tree.py:227-244 | The loop over the values fills the index array, the `unique` and `counts` lists and the `seen` map. It returns exactly the `Indexed` triple. |
| ColumnIndex.ScanKey | cogent/evolve/likelihood_tree.py:235-242 | One iteration keeps the loop invariant. The `seen` map sends each key already met to its index, and its keys are exactly the distinct keys so far. |
| ColumnIndex.IndexedCovers | cogent/evolve/likelihood_tree.py:234-242 | Every distinct key occurs among the values, and the index at its first occurrence is its own position in `unique`. |
| ColumnIndex.IndexedLabels | cogent/evolve/likelihood_tree.py:234-242 | The index numbers the distinct keys in order of first occurrence: every index below column `j`'s appears before column `j`. |
| ColumnIndex.IndexedCanon | cogent/evolve/likelihood_tree.py:227-244 | Indexing a canonical numbering from `lo` gives it back, shifted to start at 0, with the distinct labels `lo, lo + 1, ...`. |
| ColumnIndex.IndexedPattern | cogent/evolve/likelihood_tree.py:227-244 | Two sequences whose positions are equal in the same pairs get the same index and the same number of distinct keys. |
| LikelihoodTree.UniqMotifsKnown | cogent/evolve/likelihood_tree.py:256-267 | The alphabet knows every distinct motif plus the gap motif exactly when it knows every motif of the sequence and the gap motif. |
| LikelihoodTree.MakeLeafSucceeds | cogent/evolve/likelihood_tree.py:246-275 | A leaf is built exactly when every motif and the gap motif are in the alphabet. |
| LikelihoodTree.MakeLeafColumns | cogent/evolve/likelihood_tree.py:256-275 | Each column's entry is its own motif with that motif's profile, and every real index is below `len(uniq) - 1`. The last entry is the gap motif with count 0 and the gap profile. The leaf is well formed, with the alphabet's width. |
| LikelihoodTree.MakeLeafError | cogent/evolve/likelihood_tree.py:265-272 | On failure the error names the first unknown motif, the sequence's name and position `firstIndexOf(motif) * motif_len`, and every motif before that position is known. If only the gap motif is unknown, the error names it. |
| LikelihoodTree.ErrorBeforeFirstOccurrence | cogent/evolve/likelihood_tree.py:268-270 | For the motif the alphabet rejects, every motif before its first occurrence in the sequence is in the alphabet. |
| LikelihoodTree.BackwardReverses | cogent/evolve/likelihood_tree.py:296-300 | `backward` reverses the index, keeps `uniq`, the likelihoods, the counts and the name, keeps the leaf well formed, and undoes itself. |
| LikelihoodTree.BackwardValid | cogent/evolve/likelihood_tree.py:296-300 | Reversing a well-formed leaf gives a well-formed leaf. |
| LikelihoodTree.ReverseMultiset | cogent/evolve/likelihood_tree.py:297 | Reversing the index permutes it. |
| LikelihoodTree.PyIndexSpellings | cogent/evolve/likelihood_tree.py:325 | For `0 <= p < len`, exactly the two spellings `p` and `p - len` of a Python index resolve to position `p`; any other integer does not. |
| LikelihoodTree.LeafSelectColumnsSucceeds | cogent/evolve/likelihood_tree.py:324-334 | Selecting columns succeeds exactly when every column is a valid Python index of the leaf; otherwise it raises IndexError. |
| LikelihoodTree.LeafSelectColumnsColumns | cogent/evolve/likelihood_tree.py:324-334 | There are `len(cols)` columns, and `new.uniq[new.index[j]] == old.uniq[old.index[cols[j]]]`, and likewise for the likelihoods. The last entry is the old gap entry, with count 0. |
| LikelihoodTree.LeafSelectColumnsValid | cogent/evolve/likelihood_tree.py:324-334 | The selected leaf is well formed and keeps the width. |
| LikelihoodTree.SliceColumnsInRange | cogent/evolve/likelihood_tree.py:306 | `slice.indices` fails exactly on step 0. Otherwise every column of the range it describes lies in `[0, len)`. |
| LikelihoodTree.GetItemCorrect | cogent/evolve/likelihood_tree.py:305-307 | An integer key fails with AttributeError, because an integer has no `indices` method. A slice fails exactly on a zero step, with the error Python reports as ValueError. Any other slice is the selection of the columns of the range `slice.indices` describes. |
| LikelihoodTree.GetAmbiguousPositions | cogent/evolve/likelihood_tree.py:317-322 | Column `i` is a key exactly when its profile does not sum to 1.0. Its value is the column's motif. |
| LikelihoodEdge.TransposeTwice | cogent/evolve/likelihood_tree.py:73-75 | The per-child index arrays hold all of `uniq`: transposing them back gives the tuples again. |
| LikelihoodEdge.ZipAllTransposes | cogent/evolve/likelihood_tree.py:64 | `zip(*rows)` is the transpose of the rows cut to the shortest one. For rows of equal length, transposing the tuples back gives the rows again. |
| LikelihoodEdge.AssignOneOk | cogent/evolve/likelihood_tree.py:51-62 | One assignment succeeds exactly when the alignment entry is a gap, or is an in-range column whose index is a real entry. A gap gives the child's gap index and a column gives the child's index at that column. |
| LikelihoodEdge.AssignOneIndexError | cogent/evolve/likelihood_tree.py:54-61 | For a child whose real indices are below its gap index, the only failure is a column outside the child, which raises IndexError. |
| LikelihoodEdge.BuildAssignments | cogent/evolve/likelihood_tree.py:48-63 | The nested append loops give the `Assignments` result, including the first failure. |
| LikelihoodEdge.AssignmentsOk | cogent/evolve/likelihood_tree.py:48-63 | The assignments succeed exactly when every entry of the alignment fits its child. |
| LikelihoodEdge.AssignmentsEntry | cogent/evolve/likelihood_tree.py:48-63 | There is one row per child with one entry per alignment column, and each entry is that child's assignment at that column. |
| LikelihoodEdge.AssignmentsFailure | cogent/evolve/likelihood_tree.py:48-63 | The error raised is the first failing assignment in loop order, child by child and then column by column. |
| LikelihoodEdge.MakeEdgeSucceeds | cogent/evolve/likelihood_tree.py:31-64 | An edge is built exactly when there is a child, all children have the same width and the alignment (if any) fits. No children raises IndexError; unequal widths raise AssertionError. |
| LikelihoodEdge.MakeEdgeAlignmentError | cogent/evolve/likelihood_tree.py:48-63 | A failing alignment reports the first failing assignment. Over local children that is an IndexError. |
| LikelihoodEdge.EdgeFromTuplesValid | cogent/evolve/likelihood_tree.py:64-83 | Tuples within the children's ranges give a well-formed edge. |
| LikelihoodEdge.MakeEdgeValid | cogent/evolve/likelihood_tree.py:31-83 | A built edge is well formed and unshared, with its name and its children's width. |
| LikelihoodEdge.RowsFit | cogent/evolve/likelihood_tree.py:41-64 | Every assignment row entry is within its child's entries, and the edge is built from `zip(*assignments)`. |
| LikelihoodEdge.MakeEdgeColumns | cogent/evolve/likelihood_tree.py:41-64 | For pre-aligned children there are as many columns as the shortest child. `uniq[index[i]]` is the tuple of the children's indices at column `i`. |
| LikelihoodEdge.MakeEdgeAlignedColumns | cogent/evolve/likelihood_tree.py:44-64 | With an alignment map there is one column per alignment entry. `uniq[index[j]]` is the tuple of each child's gap index or its index at the mapped column. |
| LikelihoodEdge.EdgeFromTuplesColumns | cogent/evolve/likelihood_tree.py:64 | Each column's entry is its own tuple. |
| LikelihoodEdge.AllGapColumn | cogent/evolve/likelihood_tree.py:49-68 | A column that is a gap in every child sits at a real entry equal to the gap tuple, counted at least once, and not at the synthetic count-0 entry. |
| LikelihoodEdge.SelectColumns | cogent/evolve/likelihood_tree.py:112-117 | Selection on a tree succeeds exactly when every leaf has all the columns; otherwise it raises IndexError. The result is well formed, unshared and of the same kind, name and width, with `len(cols)` columns. What each selected column holds is stated by `EdgeColumns.SelectColumnsContent`. |
| LikelihoodEdge.SelectChildren | cogent/evolve/likelihood_tree.py:113-114 | The children's selections succeed exactly when each does, and are each child's own selection. |
| LikelihoodEdge.SelectChildrenValid | cogent/evolve/likelihood_tree.py:113-114 | Each selected child is well formed, unshared and of the edge's width, with `len(cols)` columns. |
| LikelihoodEdge.SelectedEdge | cogent/evolve/likelihood_tree.py:115-117 | Rebuilding the edge over pre-aligned selected children always succeeds, and keeps the name and width. |
| EdgeColumns.MakeEdgeColumnwise | cogent/evolve/likelihood_tree.py:31-83 | An edge built without an alignment map over children built the same way is itself built from pre-aligned children, all the way down. |
| EdgeColumns.SelectColumnsColumnwise | cogent/evolve/likelihood_tree.py:112-117 | Selecting columns of any tree gives a tree every edge of which is built from pre-aligned children. |
| EdgeColumns.ColumnwiseContent | cogent/evolve/likelihood_tree.py:64-75 | In a tree built from pre-aligned children, the distinct entry of column `i` stands for what every leaf holds at column `i`. |
| EdgeColumns.SelectColumnsColumnAt | cogent/evolve/likelihood_tree.py:112-117 | Column `j` of a selection holds, in every leaf, what column `cols[j]` of the original tree holds. |
| EdgeColumns.SelectColumnsContent | cogent/evolve/likelihood_tree.py:112-117 | The distinct entry of column `j` of a selection stands for what column `cols[j]` of the original tree holds. |
| EdgeColumns.SelectColumnsPattern | cogent/evolve/likelihood_tree.py:112-117 | In a tree built from pre-aligned children, two selected columns share an entry exactly when the original columns share one. |
| EdgeColumns.ColumnwiseLabels | cogent/evolve/likelihood_tree.py:64-68 | An edge built from pre-aligned children numbers its distinct tuples in order of first use, and every real distinct tuple is used by some column. |
| LikelihoodEdge.GetEdge | cogent/evolve/likelihood_tree.py:140-148 | A node found has the name looked for. |
| LikelihoodEdge.FirstNamed | cogent/evolve/likelihood_tree.py:140-148 | The first node of a sequence with the name, or none when no node has it. |
| LikelihoodEdge.GetEdgeIsFirstInPreorder | cogent/evolve/likelihood_tree.py:140-148 | `getEdge` returns the first node with the name in depth-first preorder, children in order (for a leaf, only itself). |
| LikelihoodEdge.AsLeafCorrect | cogent/evolve/likelihood_tree.py:158-161 | `asLeaf` succeeds exactly when there is one likelihood row per distinct tuple (else AssertionError). The leaf keeps the name, index and counts, and each column's profile is its tuple's row. |
| LikelihoodArrays.MakePartialLikelihoodsArray | cogent/evolve/likelihood_tree.py:150-151 | A fresh array of the edge's shape holding ones. |
| LikelihoodArrays.SumInputLikelihoodsR | cogent/evolve/likelihood_tree.py:173-177 | Afterwards `result[k, s]` is the product over children `c` of `likelihoods[c][indexes[c][k]][s]`. |
| LikelihoodArrays.SumInputLikelihoods | cogent/evolve/likelihood_tree.py:153-156 | A fresh array of the edge's shape holding the gathered products. |
| LikelihoodArrays.InputsFitGatherable | cogent/evolve/likelihood_tree.py:176-177 | Arrays shaped after the children can be gathered through every index array. |
| LikelihoodArrays.GatherIsTupleProduct | cogent/evolve/likelihood_tree.py:173-177 | The gathered product at tuple `k` is the product of each child's likelihood at entry `uniq[k][c]`. |
| LikelihoodArrays.SumInputPerColumn | cogent/evolve/likelihood_tree.py:153-177 | For pre-aligned children, column `i`'s product is the children's product at their own entries of column `i`. Removing duplicate columns changes no column's likelihood. |
| LikelihoodArrays.RestrictMotif | cogent/evolve/likelihood_tree.py:85-89 | In place: the `fixed_motif` column is unchanged and every other state becomes 0. A state outside the array raises IndexError and changes nothing. |
| Sharding.ShareSize | cogent/evolve/likelihood_tree.py:97 | `U // size + 1` is at least 1, and `size` shares of it cover `U`. |
| Sharding.SharesPartition | cogent/evolve/likelihood_tree.py:97-99 | Entry `x < U` is in the range `[share*r, min(U, share*(r+1)))` of exactly one rank `r`, namely `x // share`, and that rank is below `size`. |
| Sharding.LocalColumns | cogent/evolve/likelihood_tree.py:100-101 | The local columns are, in increasing order, exactly the columns whose entry lies in the range. |
| Sharding.ColumnsPartition | cogent/evolve/likelihood_tree.py:97-101 | Each column is local to exactly one rank. |
| Sharding.LocalCopy | cogent/evolve/likelihood_tree.py:100-108 | The local copy is well formed and keeps the name, the width and the global index. It records the communicator and the global `len(uniq)`, and fails only as selection fails. Which tuples it holds is stated by `Sharding.LocalCopyTuples`. |
| Sharding.ParallelShareCases | cogent/evolve/likelihood_tree.py:91-96 | No communicator, or a real one of size 1, returns the edge itself. The fake communicator has `Get_size` but no `size` attribute, so it raises AttributeError. Sharing an already shared edge again raises AssertionError. Otherwise the result is the local copy. |
| Sharding.ParallelShareCorrect | cogent/evolve/likelihood_tree.py:91-110 | Sharing an edge whose leaves all have its columns over several workers succeeds. The copy is well formed, keeps the global index, name and width and records the share. Which tuples it holds is stated by `Sharding.ParallelShareTuples`. |
| Sharding.LocalCopyTuples | cogent/evolve/likelihood_tree.py:97-108 | For an edge built from pre-aligned children, the local copy of rank `r` holds exactly the global distinct tuples `lo <= u < hi` of its range: it has `hi - lo` real tuples, and its tuple `k` stands for what global tuple `lo + k` stands for. |
| Sharding.ParallelShareTuples | cogent/evolve/likelihood_tree.py:91-110 | Sharing such an edge over several workers succeeds and gives a copy that holds the global tuples of the worker's range, as `LocalCopyTuples` states. |
| Sharding.SharedPartsFromLocalCopies | cogent/evolve/likelihood_tree.py:91-134 | When each worker of a group computes, per distinct tuple, a row that depends only on what the tuple stands for, the parts handed to the reconstruction are the global rows split by range, each followed by a gap row. |
| Sharding.DropGapRow | cogent/evolve/likelihood_tree.py:126 | `lh[:-1]` is everything but the last row. |
| Sharding.PadRows | cogent/evolve/likelihood_tree.py:127-131 | The padded buffer is a fresh array whose contents are the part followed by filler rows. |
| Sharding.RankPartAsWritten | cogent/evolve/likelihood_tree.py:126-132 | A rank fails exactly when its part without the gap row is shorter than the share and it is not the last rank, and then with AssertionError. Otherwise the result has at least `share` rows: the part followed by filler rows. |
| Sharding.ReconstructAsWrittenSound | cogent/evolve/likelihood_tree.py:119-134 | As written, when the reconstruction succeeds it returns the global rows; otherwise it fails with AssertionError. |
| Sharding.ReconstructAsWrittenRejectsValidShares | cogent/evolve/likelihood_tree.py:125 | With 5 global rows and 4 workers the code as written raises AssertionError, and the corrected version returns the global rows. |
| Sharding.ReconstructCorrectedRoundTrip | cogent/evolve/likelihood_tree.py:119-134 | With the sharing's share size and every short part padded, concatenating and truncating to `U` gives back exactly the global rows. |
| Sharding.ShareThenReconstruct | cogent/evolve/likelihood_tree.py:91-134 | Sharing, computing on the local copies and reassembling with the sharing's share size gives back the rows of all global distinct tuples. The code as written gives them too when it passes its assertion, and otherwise raises AssertionError. |
| Sharding.ShareThenReconstructAsWrittenRejects | cogent/evolve/likelihood_tree.py:119-134 | An edge with 5 real distinct tuples shared over 4 workers: the code as written raises AssertionError, and the corrected reassembly gives back the global rows. |
| Sharding.GetFullLengthLikelihoodsLocal | cogent/evolve/likelihood_tree.py:136-138 | With no communicator, `result[i] == lh[index[i]]` for every column. |
| Sharding.GetFullLengthLikelihoodsShared | cogent/evolve/likelihood_tree.py:119-138 | On a shared edge, column `i` gets the global row of its entry. |
| Sharding.ShareThenFullLength | cogent/evolve/likelihood_tree.py:91-138 | After sharing and computing on the local copies, `getFullLengthLikelihoods` on any worker, given its own array, gives, for every alignment column, the row computed from what that column holds in the leaves. |
| Parallel.ValidRankBelowSize | cogent/util/parallel.py:79 | Every communicator has its rank below its size. |
| Parallel.FakeIsOneProcess | cogent/util/parallel.py:22-39 | The fake communicator has rank 0 and size 1. Its `Split` returns itself twice, `allgather(v) == [v]`, and `allreduce` and `bcast` give back the value. |
| Parallel.SplitArithmetic | cogent/util/parallel.py:87-89 | Splitting by `rank // g` and by `rank % g` gives groups of sizes `g` and `size // g`, and the rank decomposes as `sub_rank * g + next_rank`. |
| Parallel.ParallelisationStack.constructor | cogent/util/parallel.py:62 | The stack starts with the one initial communicator. |
| Parallel.ParallelisationStack.GetSplitCommunicators | cogent/util/parallel.py:76-90 | The call asserts `jobs > 0`. The group count is the least divisor of `size` that is at least `min(jobs, size)`. `next` has that size, sizes multiply to `size`, and the rank decomposes. Count 1 gives a fake `next` and the current `sub`; count `size` (> 1) gives the current `next` and a fake `sub`. |
| Parallel.ParallelisationStack.Enter | cogent/util/parallel.py:93 | Entering pushes the communicator. |
| Parallel.ParallelisationStack.Exit | cogent/util/parallel.py:97-99 | Leaving pops the top. It raises AssertionError exactly when the top is not the communicator entered, and IndexError on an empty stack, which it leaves empty. |
| Parallel.ParallelisationStack.RunContext | cogent/util/parallel.py:92-99 | A `with mpi_context` block, nested blocks and all, leaves the stack as it found it, whether or not it raises. It raises exactly when some block inside does. |
| Parallel.ParallelisationStack.RunBody | cogent/util/parallel.py:94-96 | A block's body leaves the stack unchanged. It raises exactly when one of its blocks does. |
| Parallel.ParallelisationStack.Map | cogent/util/parallel.py:107-123 | `map(f, s)` returns `len(s)` results with `result[i] == f(s[i])` in order and restores the stack; an empty `s` fails the `jobs > 0` assertion. |
| Parallel.MapChunks | cogent/util/parallel.py:110-118 | The chunk loop, with `None` from idle ranks cut off, gives `f(s[i])` for every `i`, in order. |
| Parallel.ParaRandom.constructor | cogent/util/parallel.py:147-153 | Construction discards `rank` draws. |
| Parallel.ParaRandom.Random | cogent/util/parallel.py:155-161 | Call number `k` returns draw `rank + k*(num_proc + 1)` of the wrapped stream and moves on. |
| Parallel.ParaRandom.Seed | cogent/util/parallel.py:163-164 | Seeding restarts the wrapped stream at its first draw and leaves the count of calls as it was. |
| Parallel.DrawsDisjoint | cogent/util/parallel.py:147-161 | Generators of distinct ranks at most `num_proc` over the same stream never return the same draw. |
| Parallel.DrawPhase | cogent/util/parallel.py:155-161 | Every draw of a rank is that rank modulo `num_proc + 1`. |
| FlowgramParser.StripShape | cogent/parse/flowgram_parser.py:43 | `strip` removes the stripped characters from both ends, and what is left starts and ends with a kept character. |
| FlowgramParser.StripIdempotent | cogent/parse/flowgram_parser.py:43-44 | Stripping twice is stripping once. |
| FlowgramParser.SplitShape | cogent/parse/flowgram_parser.py:43 | `split(':')` gives one more piece than there are colons. No piece holds a colon, and joining with `:` gives back the line. |
| FlowgramParser.ParseLine | cogent/parse/flowgram_parser.py:43-44 | A line that cannot be unpacked raises ValueError. |
| FlowgramParser.ParseLineParts | cogent/parse/flowgram_parser.py:43-44 | A line parses exactly when its stripped form has one colon. The key is what precedes it, and the value is what follows it, stripped. |
| FlowgramParser.FillLines | cogent/parse/flowgram_parser.py:39-44 | Filling from lines fails, with ValueError, exactly when some line does not parse. |
| FlowgramParser.FillLookup | cogent/parse/flowgram_parser.py:43-44 | The filled dictionary has the keys of its lines. A key takes the value of its last line, so a later duplicate overwrites an earlier one. |
| FlowgramParser.UpToBlank | cogent/parse/flowgram_parser.py:39-41 | The header block is the prefix of lines before the first blank line. |
| FlowgramParser.HeaderIgnoresRest | cogent/parse/flowgram_parser.py:39-41 | `getHeaderInfo` does not read past the first blank line. The label line is skipped, and anything may follow the blank line. |
| FlowgramParser.GetHeaderInfo | cogent/parse/flowgram_parser.py:31-46 | The loop with its `break` computes the header dictionary of the lines after the label, up to the first blank line, or the first line's unpacking error. |
| FlowgramParser.SplitSummary | cogent/parse/flowgram_parser.py:95-104 | The loop computes the summary dictionary. |
| FlowgramParser.SummaryName | cogent/parse/flowgram_parser.py:99 | `Name` is the first line with `>` stripped from both ends, unless a later line sets `Name` again. |
| FlowgramParser.SummaryKey | cogent/parse/flowgram_parser.py:100-102 | Any other key is present exactly when some line after the first has it. |
| FlowgramParser.SummaryEntries | cogent/parse/flowgram_parser.py:97-104 | `Name` is always present and is the stripped label unless overwritten. Any other key comes from a line. |
| FlowgramParser.SelectionShape | cogent/parse/flowgram_parser.py:65-67 | The selected record numbers are increasing, and are exactly the wanted ones. |
| FlowgramParser.GetSummaries | cogent/parse/flowgram_parser.py:48-86 | By number: in file order, records `i` with `i - 1` in the list, at most `len(number_list)` of them. By name: the records whose stripped label is listed. `all_sums`: every record after the header. No mode raises ValueError, and conflicting modes fail the assertions. |
| FlowgramParser.SummariesByNumber | cogent/parse/flowgram_parser.py:62-70 | The loop with the `num` counter yields the first `len(number_list)` records `i` whose `i - 1` is listed, in file order. |
| FlowgramParser.NumberedSummaries | cogent/parse/flowgram_parser.py:62-70 | At most `len(number_list)` records are yielded. A listed record is yielded if fewer than that many came before it. |
| FlowgramParser.NumberedStop | cogent/parse/flowgram_parser.py:68-70 | Once `len(number_list)` records are yielded, nothing after them would be. |
| FlowgramParser.SummariesByName | cogent/parse/flowgram_parser.py:72-76 | The records whose label with `>` stripped is listed, in file order. An empty record raises IndexError. |
| FlowgramParser.SummariesAfterHeader | cogent/parse/flowgram_parser.py:78-84 | The loop with the `header` flag skips exactly the first record. |
| FlowgramParser.ParseFlowgram | cogent/parse/flowgram_parser.py:133-138 | A flowgram is made exactly when the summary parses, has a `Flowgram` entry, and the header has `Key Sequence` and `Flow Chars`. It carries the flowgram, the name and the other entries. |
| FlowgramParser.LazySffParser | cogent/parse/flowgram_parser.py:122-130 | One flowgram per record after the header. |
| FlowgramParser.LazySffSteps | cogent/parse/flowgram_parser.py:122-140 | The parser succeeds exactly when every record after the header yields a flowgram. Its error is the first record's error. |
| FlowgramParser.CountSff | cogent/parse/flowgram_parser.py:171-178 | The count is the number of records after the header, or the parser's error. |
| FlowgramParser.RandomFlows | cogent/parse/flowgram_parser.py:142-169 | The loop over `zip(range(size), flowgrams)` with its index `i` follows the selection function. |
| FlowgramParser.SampledFlowsCorrect | cogent/parse/flowgram_parser.py:158-169 | Given `num >= 1` sorted sample indices below `size`, the loop yields, in file order, exactly the flowgrams at those indices that the file has, at most `num` of them. |
| FlowgramParser.SampledFlowsNone | cogent/parse/flowgram_parser.py:161-169 | With `num == 0`, the first flowgram read raises IndexError. |

## Left out

- Floating point: likelihoods are reals, with no rounding or dtype conversion. The `ambig` row sums are exact sums (`RowSum`).
- `logDotReduce`, `getTotalLogLikelihood`, `getLogSumAcrossSites` and `getMotifCounts` (likelihood_tree.py:179-196, 309-315) are logarithms and floating-point division. They are not part of this model.
- The compiled `_PyxLikelihoodTreeEdge` and the version check that selects it are not part of this model. Only the pure-Python edge is modelled.
- `alphabet.fromAmbigToLikelihoods` is a map from motifs to profiles. It is taken to report the first unknown motif in the order of the distinct motifs.
- `sequence.getInMotifSize` is not modelled: a leaf is built from the motifs directly.
- `comm.gather(concat=True)` is the sequence of the ranks' parts, in rank order.
- The `print` statements before `RuntimeError` in the edge construction are not modelled. The `RuntimeError` itself is modelled; only a shared child, whose index is global, can raise it.
- Numpy arrays of integers and floats are sequences. Only `restrictMotif`, `makePartialLikelihoodsArray` and `sumInputLikelihoods(R)` work on `array2`.
- `GetFullLengthLikelihoods` uses the corrected reconstruction (see Findings).
- The MPI plumbing in `parallel.py` is not modelled:
  - `mpi4py` detection and the environment variables (parallel.py:45-66);
  - `sync_random`, `output_cpu` and `show_progress` printing.
- Real MPI is not modelled:
  - No messages are sent.
  - A communicator split is described by its resulting rank and size.
  - The two splits of `getSplitCommunicators` are the only splits.
- Parallel.ParallelisationStack.Map: only the caller's own rank is modelled. Every rank is taken to run the same calls, as collective operations require; a deadlock is not modelled.
- `Parallel.ParaRandom.Random`: the wrapped generator is a stream of draws given as a function. `seed` replaces that stream.
- Parallel.ParaRandom.Seed: it does not re-establish the rank's phase, just as the source does not. After it, `Valid()` no longer holds.
- These parts of the flowgram parser are not modelled:
  - the record finder (`LabeledRecordFinder`, `is_fasta_label`): records are given. `is_empty` is a whitespace-only line.
  - the `Flowgram` class: a record of its fields.
  - `SFFParser` and `SFFtoFasta`: file I/O.
- `random.sample` in `getRandomFlowsFromSFF` is not modelled: the sorted sample indices are an input. Counting the flowgrams when `size` is `None` is `CountSff`.
- Generators are modelled as the whole sequence they would yield, or the first error they would raise. Laziness is not modelled.
- LikelihoodArrays.SumInputLikelihoodsR: the IndexError that numpy raises for fewer input arrays than children, or for an index past an array's last row, is not modelled. Its requires demands one array per child shaped after that child, so extra arrays, which Python's `zip` would ignore, are excluded too.
- LikelihoodArrays.SumInputLikelihoods: the same IndexError paths are not modelled, and the same requires applies.
- Parallel.ParallelisationStack.Exit: compares the top of the stack with the communicator by value, while the source tests identity (`is`). Communicators are values in this model.
- LikelihoodTree.MakeLeaf: the alphabet and the sequence name are parameters. Their defaults, taken from the sequence object, are not modelled.
- FlowgramParser.RandomFlows: `size` is given. Its default `None`, which counts the flowgrams first, is `CountSff`.
- LikelihoodEdge.SelectColumns, Sharding.LocalCopy and Sharding.ParallelShareCorrect: their own contracts state shape only. What the selected columns and the local copies hold is stated by the `EdgeColumns` and `Sharding` tuple lemmas, and only for trees whose edges are built from pre-aligned children, not for edges built through an alignment map.

## Findings

| source | as written | input that shows it | evidently intended | confidence | as-written member | corrected member |
|---|---|---|---|---|---|---|
| cogent/evolve/likelihood_tree.py:125 | `parallelReconstructColumns` computes its share size as `(U-1)//size+1`, while `parallelShare` (line 97) uses `U//size+1`. It asserts that only the last rank's part is shorter than its share size. | `U = 5` real entries and 4 workers. Sharing gives parts of 2, 2, 1 and 0 rows. Reconstruction uses a share size of 2, so rank 2's 1-row part fails the assertion. | The same share size as `parallelShare`, with every short part padded. Concatenating and truncating then gives back the `U` rows. | not executed | Sharding.ReconstructAsWrittenRejectsValidShares | Sharding.ReconstructCorrectedRoundTrip |
