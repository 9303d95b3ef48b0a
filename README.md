# rPref preference evaluation core, in Dafny

This project models the C++ core of rPref, which evaluates preference
queries over a table of numeric scores:

- **The preference algebra.** A preference is a tree of score leaves, reverse
  nodes and the four binary combinators: Pareto, prioritised, intersection and
  union. Each node answers "tuple `i` is better than tuple `j`" (`Cmp`) and
  "`i` and `j` are equally good" (`Eq`).
- **Deserialisation.** `CreatePreference` rebuilds the tree from its serialised
  kind tags and assigns score columns through a running column id.
- **BNL.** The Block-Nested-Loop skyline (`bnl_internal`) and its recursive
  top-k variant (`bnl_topk_internal`), with the `pref_select_impl` dispatch.
- **Grouped evaluation** (`grouped_pref_sel_impl`). BNL or top-k BNL runs on
  every group, and the results are concatenated in group order.
- **The top-k drivers** (`pref_select_top_impl` and
  `grouped_pref_sel_top_impl`):
  - the partitioning of `0..ntuples-1` into contiguous parts of
    ceiling-division size;
  - the merge of the per-part results in part order;
  - the per-group concatenation;
  - the split of (level, index) pairs into two output columns.

The modules follow the source files:

| module | file | models |
|---|---|---|
| `Wrappers` | `wrappers.dfy` | `Option` and `Result`. |
| `Seqs` | `seqs.dfy` | Index vectors, ranges, concatenation of lists (`Flatten`) and subsequences. |
| `Prefs` | `prefs.dfy` | `src/pref-classes.h` and `src/pref-classes.cpp`: the `Pref` datatype, `Cmp`/`Eq`, the order laws, and deserialisation as written and as corrected. |
| `BnlSpec` | `bnl_spec.dfy` | What one BNL pass and the recursive top-k compute, as functions over the index sequence (`Scan`, `Pass`, `TopK`), plus the reference definition `Skyline`, and the lemmas relating them. |
| `Bnl` | `bnl.dfy` | `src/bnl.cpp` as imperative methods, each proved equal to the `BnlSpec` function it implements. |
| `Grouped` | `grouped.dfy` | `src/grouped.cpp`. |
| `ParTop` | `par_top.dfy` | `src/psel-par-top.cpp`. The sequential top-k engine `run_topk` is an uninterpreted function parameter. |

How the pieces fit together:

- **Proving the BNL methods.** The window is a `seq<int>` that the methods
  reassign as they erase and append. The residual buffer `new_v` of the top-k
  version is an `array<int>` written slot by slot. Each method's postcondition
  ties its result to `BnlSpec.Pass` or `BnlSpec.TopK`.
- **Properties that hold for every preference.** These are proved about the
  functions:
  - the window is never empty;
  - no window member dominates another;
  - the window is a subsequence of the input;
  - window and residual partition the input;
  - every tuple left out is dominated by some input tuple;
  - the top-k result has exactly `min(k, n)` tuples.
- **Properties that need a strict partial order.** When `Cmp` is a strict
  partial order, which holds for every tree without union nodes, the window is
  exactly the skyline, in input order.
- **Which deserialiser the drivers use.** The BNL drivers of `src/bnl.cpp`
  and `src/grouped.cpp` build the tree with `Prefs.CreatePreference`, the
  deserialiser as written. The top-k drivers of `src/psel-par-top.cpp` call a
  two-argument deserialiser declared in `scalagon.h`, which is modelled by
  `Prefs.CreatePreferenceFixed` started at column 0 (see "Left out").
- **When deserialisation succeeds.** A description is well-formed
  (`Prefs.WellFormed`) when every node carries a known tag and the children
  its kind reads. Both deserialisers succeed exactly on well-formed
  descriptions whose leaves, numbered as each version numbers them, name
  columns of the table. Every driver's result states this.

## Model

| member | source | states |
|---|---|---|
| `Prefs.ScoreTrichotomy` | src/pref-classes.cpp:15-21 | A score leaf orders two tuples totally: exactly one of better, worse and equal holds. |
| `Prefs.Eq` | src/pref-classes.cpp:19-21 | `eq` of a score leaf is equality of the two scores. A reverse node passes `eq` through, and a binary node needs `eq` in both children. Every tuple is equivalent to itself. |
| `Prefs.EqSymmetric` | src/pref-classes.cpp:19-48 | In every tree, `eq(i, j)` and `eq(j, i)` agree. |
| `Prefs.Cmp` | src/pref-classes.cpp:15-83 | `cmp` of the score leaf, reverse, prioritised, Pareto, intersection and union nodes. In every tree, unions included, `cmp(i, j)` excludes `eq(i, j)`, so no tuple dominates itself. |
| `Prefs.ProductSymmetric` | src/pref-classes.h:26-47 | The product combinators, Pareto and intersection, give the same `cmp` with their two children swapped. |
| `Prefs.PriorNotSymmetric` | src/pref-classes.cpp:52-58 | Prioritisation is not a product: with its two children swapped, a pair that was ordered is no longer ordered. |
| `Prefs.DoubleReverse` | src/pref-classes.cpp:30-36 | Reversing twice gives the inner preference's `cmp` and `eq` back. |
| `Prefs.InclusionChain` | src/pref-classes.cpp:55-83 | For the same two children, intersection `cmp` implies Pareto `cmp`, which implies prioritised `cmp`, which implies union `cmp`. |
| `Prefs.UnionCanCycle` | src/pref-classes.cpp:81-83 | A union of two opposite score columns makes each of two tuples better than the other, so a union is not in general an order. |
| `Prefs.OrderLaws` | src/pref-classes.cpp:15-76 | Without union nodes: `cmp` is irreflexive and transitive, `eq` is an equivalence, and `cmp` is compatible with `eq` on both sides. |
| `Prefs.Exclusive` | src/pref-classes.cpp:15-76 | Without union nodes, `cmp(i,j)` excludes both `cmp(j,i)` and `eq(i,j)`. |
| `Prefs.UnionFreeIsStrictPartialOrder` | src/pref-classes.cpp:15-76 | Without union nodes, `cmp` is a strict partial order on every set of valid tuples. |
| `Prefs.TagOp` | src/pref-classes.cpp:95-106 | Exactly the tags `*`, `&`, `\|` and `+` name a binary combinator, and each maps back to its own tag. |
| `Prefs.CreatePreference` | src/pref-classes.cpp:90-134 | As written: the built node has the kind its tag names, and any other tag gives the "Unexpected preference" error. Every score leaf reads the column its id names. A reverse node keeps `highest_id == 0`. |
| `Prefs.WellFormedTags` | src/pref-classes.cpp:95-131 | A well-formed description carries only the tags `*`, `&`, `\|`, `+`, `-` and `s`. |
| `Prefs.AsWrittenNumbering` | src/pref-classes.cpp:108-126 | As written, a successful build comes from a well-formed description. Its leaves read the columns numbered as the code numbers them, where a reverse node reports `highest_id` 0. These columns depend only on the shape of the description. |
| `Prefs.AsWrittenBuilds` | src/pref-classes.cpp:90-134 | As written, deserialisation succeeds exactly when every node has a known tag and the children it reads, and every leaf's column, numbered as the code numbers it, lies in the table. |
| `Prefs.LeafNumbering` | src/pref-classes.cpp:108-126 | As written, in a tree without reverse nodes the leaves read consecutive columns from `current_id`, left to right, and the root's `highest_id` is the last column read. |
| `Prefs.ReverseColumnClash` | src/pref-classes.cpp:114-118 | As written, the tree `*( -( *(s, s) ), s )` reads columns 0, 1 and 1, so two leaves share a column. |
| `Prefs.CreatePreferenceFixed` | src/pref-classes.cpp:90-134 | The corrected deserialiser keeps the same node kinds, the same error for unknown tags, and the same leaf-to-column link. |
| `Prefs.LeafNumberingFixed` | src/pref-classes.cpp:108-126 | Corrected: in every tree, including those with reverse nodes, the leaves read consecutive columns from `current_id`, and `highest_id` is the last one. |
| `Prefs.FixedBuilds` | src/pref-classes.cpp:90-134 | Corrected: deserialisation from column `c` succeeds exactly when the description is well-formed, `c >= 0`, and its leaves fit in columns `c..\|scores\|-1`. The root then reports the last of those columns. |
| `Prefs.UnexpectedNamesTag` | src/pref-classes.cpp:90-134 | As written, an "Unexpected preference" error names an unknown tag carried by a node the deserialiser visits. |
| `Prefs.UnexpectedNamesTagFixed` | src/pref-classes.cpp:90-134 | The same for the corrected deserialiser. |
| `Prefs.UnknownTagFails` | src/pref-classes.cpp:131 | In both versions, an "Unexpected preference" error names an unknown tag that some visited node carries. An unknown tag on any visited node makes deserialisation fail. A child slot that its node's tag does not read is never visited. |
| `Prefs.FixAgreesWithoutReverse` | src/pref-classes.cpp:90-134 | On trees without reverse nodes, the corrected deserialiser builds exactly what the code as written builds. |
| `Prefs.Serialize` | src/pref-classes.cpp:92-127 | The description written for a tree carries the tag of the root's kind. |
| `Prefs.SerializeWellFormed` | src/pref-classes.cpp:92-127 | The description written for a tree is well-formed and has one leaf per score leaf of the tree. |
| `Prefs.SerializeRoundTrip` | src/pref-classes.cpp:92-127 | Serialising a deserialised tree and reading it back with the same table and start id gives the same tree. |
| `Prefs.BuiltTreeValid` | src/pref-classes.cpp:124-126 | If every score column has `n` entries, every tuple `0..n-1` can be compared by a tree built over the table. |
| `Seqs.IndexVector` | src/bnl.cpp:22-23 | The loop fills the vector with `0..n-1` in ascending order. |
| `BnlSpec.Scan` | src/bnl.cpp:57-69 | One candidate's scan: the kept and erased members come from the window and together have its size. A dominated candidate leaves a non-empty window. |
| `BnlSpec.ScanFacts` | src/bnl.cpp:57-69 | The scan splits the window into kept and erased members, as multisets. A dominated candidate was beaten by a member still in the window. An undominated one is beaten by no member and beats no member kept. Every erased member is beaten by the candidate. |
| `BnlSpec.ScanSplit` | src/bnl.cpp:57-69 | The members kept and erased by one scan are, as multisets, exactly the window scanned. |
| `BnlSpec.ScanVerdict` | src/bnl.cpp:57-69 | A dominated candidate was beaten by a member still in the window. An undominated candidate is beaten by no member and beats no member kept. Every erased member is beaten by the candidate. |
| `BnlSpec.ScanSubseq` | src/bnl.cpp:58-69 | Erasing during the scan keeps the order of the members that stay. |
| `BnlSpec.ScanUndominated` | src/bnl.cpp:57-69 | A candidate that no member beats is not dominated, and the window keeps exactly the members the candidate does not beat. |
| `BnlSpec.ScanDominated` | src/bnl.cpp:59-61 | A candidate that some member beats, and that itself beats no member, leaves the window unchanged and is rejected. |
| `BnlSpec.Pass` | src/bnl.cpp:103-129 | One pass: the window is never empty, window and residual come from the input, and their sizes add up to the input's size. |
| `BnlSpec.PassPartition` | src/bnl.cpp:92-128 | Every input tuple ends in exactly one of the window and the residual buffer, as multisets. |
| `BnlSpec.PassPairwise` | src/bnl.cpp:55-73 | No window member dominates another window member or itself, for every preference, transitive or not. |
| `BnlSpec.PassSubseq` | src/bnl.cpp:50-71 | The window is a subsequence of the input, in arrival order. |
| `BnlSpec.PassCovers` | src/bnl.cpp:55-73 | Every input tuple ends in the window or is dominated by some input tuple. |
| `BnlSpec.PassIsSkyline` | src/bnl.cpp:55-76 | Under a strict partial order, the final window is exactly the input tuples that no input tuple dominates, in input order. |
| `BnlSpec.SkylineSound` | src/bnl.cpp:55-76 | Under a strict partial order, every tuple left out of the window is beaten by a member of the window. |
| `BnlSpec.MaxDominator` | src/bnl.cpp:55-76 | Under a strict partial order, a dominated tuple is dominated by an undominated one. |
| `BnlSpec.TopK` | src/bnl.cpp:84-141 | Top-k returns exactly `min(k, \|v\|)` tuples. |
| `BnlSpec.TopKSubMultiset` | src/bnl.cpp:133-140 | The top-k result takes each input tuple at most as often as it occurs. |
| `BnlSpec.TopKFirstLayer` | src/bnl.cpp:133-139 | For `k < \|v\|`, the result starts with the first window cut to `k`. If the window has fewer than `k` members, the result starts with the whole window. |
| `BnlSpec.TopKFirstLayerIsSkyline` | src/bnl.cpp:133-139 | Under a strict partial order, the result for `k < \|v\|` starts with the skyline cut to `k`. |
| `Bnl.ScanStop` | src/bnl.cpp:59-61 | A window member that beats the candidate ends the scan with the window as it stands, and the candidate is dominated. |
| `Bnl.ScanKeep` | src/bnl.cpp:58-69 | A member neither side beats is kept, and the scan moves past it. |
| `Bnl.ScanErase` | src/bnl.cpp:62-68 | A member the candidate beats is erased, and the scan continues with the next member at the same position. |
| `Bnl.ScanEnd` | src/bnl.cpp:58-70 | A scan that reaches the end of the window leaves the candidate undominated. |
| `Bnl.PassStep` | src/bnl.cpp:55-73 | The pass over `v[..i+1]` is the pass over `v[..i]` followed by the scan of `v[i]`, which is appended unless dominated. |
| `Bnl.ScanWindow` | src/bnl.cpp:57-69 | The in-place scan with erasure computes the window and the dominated flag of `BnlSpec.Scan`. |
| `Bnl.BnlInternal` | src/bnl.cpp:44-78 | For non-empty input, the window seeded with `v[0]` ends as `BnlSpec.Pass(v).window`. |
| `Bnl.ScanWindowInto` | src/bnl.cpp:105-128 | The top-k scan matches `BnlSpec.Scan`, keeps `wsize == \|window\|` and keeps `count + wsize` unchanged. The buffer gains exactly the erased members after its first `count` slots. |
| `Bnl.TopkAdvance` | src/bnl.cpp:103-128 | One iteration of the top-k loop takes the window and `new_v[0..count)` from the pass over `v[..i]` to the pass over `v[..i+1]`, and keeps `count + wsize == i + 1`. |
| `Bnl.TopkPass` | src/bnl.cpp:91-129 | After the pass, the window is `Pass(v).window` and `wsize` is its size. `new_v[0..count)` is exactly the residual, so every write stays below `\|v\|`. |
| `Bnl.TopKStep` | src/bnl.cpp:133-140 | For `k < \|v\|`, top-k cuts the window to `k` when it has at least `k` members. Otherwise it recurses on the residual with `k - wsize`. |
| `Bnl.BnlTopkInternal` | src/bnl.cpp:84-141 | The recursive method computes `BnlSpec.TopK(v, topk)`, and recursion on the strictly shorter residual terminates. |
| `Bnl.PrefSelect` | src/bnl.cpp:13-36 | The tree is built by the deserialiser as written. The result is an error exactly when deserialisation fails, which is exactly when the description is not well-formed or a leaf's column lies outside the table. Otherwise, on `0..n-1`: `topk == -1` gives the BNL window, which is the skyline when there is no union node; `topk >= n` gives every index in order; any other `topk` gives top-k with `min(topk, n)` tuples. |
| `Grouped.GroupResults` | src/grouped.cpp:28-43 | Entry `i` is `bnl_internal` of group `i` for `topk == -1`, else `bnl_topk_internal` of group `i` with the same `topk`. |
| `Grouped.GroupedPrefix` | src/grouped.cpp:30-34 | The result for the first `i + 1` groups is the result for the first `i` groups followed by group `i`'s result. |
| `Grouped.NoGroups` | src/grouped.cpp:23-24 | Zero groups give an empty result. |
| `Grouped.GroupedAppend` | src/grouped.cpp:28-43 | Groups are evaluated independently: the result for `a + b` is the result for `a` followed by the result for `b`. |
| `Grouped.GroupedSnoc` | src/grouped.cpp:38-42 | Appending a group appends that group's own result. |
| `Grouped.GroupResult` | src/grouped.cpp:30-34 | A group's contribution takes only that group's indices, each at most as often as it occurs. With `topk >= 0` it has exactly `min(topk, \|g\|)` of them. |
| `Grouped.GroupedWithin` | src/grouped.cpp:28-44 | The whole result is a sub-multiset of the concatenated groups. |
| `Grouped.GroupedSize` | src/grouped.cpp:38-43 | With `topk >= 0`, each group contributes exactly `min(topk, \|group\|)` indices. |
| `Grouped.GroupSkyline` | src/grouped.cpp:30-34 | Without union nodes, each group contributes exactly its own skyline. |
| `Grouped.BuiltGroupsValid` | src/grouped.cpp:26 | The one tree built over the table can compare every index of every group. |
| `Grouped.RunGroups` | src/grouped.cpp:28-43 | The per-group loop produces the per-group results concatenated in group order. |
| `Grouped.GroupedPrefSel` | src/grouped.cpp:20-46 | The tree is built by the deserialiser as written. The result is an error exactly when deserialisation fails, which is exactly when the description is not well-formed or a leaf's column lies outside the table. Otherwise the tree is built once, and the result is the concatenation of the per-group results. |
| `ParTop.CeilDiv` | src/psel-par-top.cpp:141 | `ceil(a / b)` is the least `q` with `a <= q * b`. |
| `ParTop.TuplesPart` | src/psel-par-top.cpp:141 | `tuples_part` is at least 1 when there is a tuple. |
| `ParTop.NParts` | src/psel-par-top.cpp:144 | `1 <= N_parts <= N`, and `N_parts` parts of `tuples_part` are just enough to hold every tuple. |
| `ParTop.PartSize` | src/psel-par-top.cpp:150-155 | Every part but the last has exactly `tuples_part` indices. The last has between 1 and `tuples_part`. |
| `ParTop.Partitions` | src/psel-par-top.cpp:147-162 | There are `N_parts` parts. |
| `ParTop.PartitionsPrefix` | src/psel-par-top.cpp:150-162 | The first `m` parts are consecutive and together cover `0..m*tuples_part-1`. |
| `ParTop.PartitionsCover` | src/psel-par-top.cpp:150-162 | The parts together are `0..ntuples-1`, each index once, in ascending order. |
| `ParTop.PartStep` | src/psel-par-top.cpp:150-161 | Each part starts where the previous one ended (the running `count`) and is a run of consecutive indices. |
| `ParTop.NumberFrom` | src/psel-par-top.cpp:157-161 | The inner loop writes `count, count+1, ...` into a part's `local_n` slots and advances `count` by `local_n`. |
| `ParTop.MakePartitions` | src/psel-par-top.cpp:140-162 | The partition loop builds exactly `Partitions(ntuples, N)`. |
| `ParTop.RunWorkers` | src/psel-par-top.cpp:164-166 | Slot `k` of the results holds worker `k`'s run on part `k`, run one part after another. |
| `ParTop.Splice` | src/psel-par-top.cpp:168-175 | Splicing lists onto an empty list concatenates them in order, keeping the order within each list. |
| `ParTop.MergedWithin` | src/psel-par-top.cpp:140-175 | If every worker returns a sub-multiset of its part, the merged part results hold each index of `0..ntuples-1` at most once. |
| `ParTop.EngineInput` | src/psel-par-top.cpp:130-176 | The engine receives `0..ntuples-1` in ascending order when `N == 1`. If every worker returns a sub-multiset of its part, it receives each index of `0..ntuples-1` at most once. |
| `ParTop.Output` | src/psel-par-top.cpp:179-196 | Without levels the table is the index list. With levels it has the two columns, of equal length, which zip back to the (level, index) list. |
| `ParTop.SplitLevels` | src/psel-par-top.cpp:183-192 | Position `c` gets the level from pair `c`'s first component and the index from its second. Zipping the two columns gives the pair list back. |
| `ParTop.PrefSelectTop` | src/psel-par-top.cpp:109-198 | `ntuples == 0` gives empty `.indices` and `.level` columns before any deserialisation. Otherwise the result is an error exactly when deserialisation fails, which is exactly when the description is not well-formed or has more leaves than the table has columns. On success the engine runs on `0..ntuples-1` for `N == 1`, or else on the worker results spliced in part order, and its result is returned as indices or as (index, level) columns. |
| `ParTop.EngineGroupsAppend` | src/psel-par-top.cpp:258-265 | In the sequential branch, groups are independent: the indices and the pairs for `a + b` are those for `a` followed by those for `b`. |
| `ParTop.GroupedWithin` | src/psel-par-top.cpp:245-265 | If every run returns a sub-multiset of its input, the grouped indices come from the groups. |
| `ParTop.RunEngineOnGroups` | src/psel-par-top.cpp:258-265 | The sequential loop splices each group's engine result (indices and pairs) in group order. |
| `ParTop.GroupedPrefSelTop` | src/psel-par-top.cpp:212-314 | Zero groups give empty `.indices` and `.level` columns. Otherwise the result is an error exactly when deserialisation fails, which is exactly when the description is not well-formed or has more leaves than the table has columns. On success the per-group results are spliced in group order, from the worker for `N > 1` and from the engine otherwise, as indices or as (index, level) columns split position by position. |

## Left out

- Concurrency. `Psel_worker_top`, `Psel_worker_top_level` and `parallelFor` are modelled by running the workers one part (or group) after another, with worker `k`'s result stored in slot `k`.
- `run_topk`, the scalagon algorithm, `get_sample`, `topk_setting`, `alpha` and the `top`, `at_least`, `toplevel` and `and_connected` settings, from `scalagon.h`. `scalagon.h` is not part of this model. The engine is a function parameter (`ParTop.Engine`). A worker is the engine applied with its part number (`ParTop.Worker`), which stands for that part's own random sample.
- ParTop.PrefSelectTop: does not claim that the `N > 1` result equals the `N == 1` result. The merge of part results is an approximation in the source too.
- Rcpp marshalling: `DataFrame`, `List` and `NumericVector` conversion, `as<>`, `wrap`, `DataFrame::create` and the `indices` attribute. Tables are `seq<seq<real>>` given column by column. Groups are `seq<seq<int>>`. A returned data frame is `ParTop.Frame`.
- Floating point:
  - Scores are `real`, so NaN is not modelled.
  - `std::ceil(1.0 * n / N)` is the integer `ParTop.CeilDiv`, which agrees with it for every 32-bit `n` and every `N >= 1`.
  - The integer width of `int` is not modelled, because indices and counts stay below the table size.
- The iterator step `++j; erase; --j` decrements `begin()` when the first window member is erased. The model continues with the next member, the evident intent, which is also what a circular list implementation does.
- Bnl.BnlTopkInternal: `v.clear()` on the caller's vector is not modelled. It only empties an argument that is not used afterwards and changes no result.
- Raw pointers and unreleased `new` allocations: trees are values.
- Bnl.BnlInternal: requires a non-empty input. The source reads `v[0]`, which is undefined on an empty vector.
- Bnl.PrefSelect: requires `topk >= -1`, and a non-empty table when `topk == -1`. The source calls `bnl_internal` on an empty vector in that case. A `topk` below -1 makes `window.resize` receive a negative size.
- Grouped.GroupedPrefSel: requires every group to be non-empty and to hold in-range indices, for the same reason as `Bnl.BnlInternal`.
- Grouped.GroupedPrefSel: requires `topk >= -1`. For a `topk` below -1 the source calls `bnl_topk_internal`, whose `window.resize` then receives a negative size.
- Grouped.GroupedPrefSel: requires a score table with at least one column. In the source, a table without columns fails inside `CreatePreference` when it reads the first column. The model does not state this error.
- Bnl.PrefSelect: requires a score table with at least one column. The source reads `scores[0]` to count the tuples, which fails on a table without columns. The model does not state this error.
- ParTop.PrefSelectTop: requires a score table with at least one column. The source reads `scores[0]` to count the tuples, which fails on a table without columns. The model does not state this error.
- The two-argument `CreatePreference(serial_pref, scores)` used in `src/psel-par-top.cpp` is declared in `scalagon.h`. It is modelled as the corrected deserialiser with start column 0.
- A column id outside the score table is reported as the error `MissingColumn`. A missing child list element is reported as the error `MissingChild`. The source lets Rcpp raise these.
- ParTop.RunWorkers: stores each worker's whole result rather than only `.first` (or `.second`). The drivers then read the component the source reads.

## Findings

| source | as written | input that shows it | evidently intended | confidence | as-written member | corrected member |
|---|---|---|---|---|---|---|
| src/pref-classes.cpp:114-118 | A reverse node never sets `highest_id`, so it stays 0 from `new reversepref()`. A sibling after a reverse subtree then restarts at column 1. | `*( -( *(s, s) ), s )` over three score columns: the leaves read columns 0, 1 and 1, so the third column is never read. | The reverse node takes its child's `highest_id`, so the leaves read consecutive columns 0, 1 and 2. | medium, not executed | `Prefs.ReverseColumnClash` (about `Prefs.CreatePreference`) | `Prefs.LeafNumberingFixed` and `Prefs.FixedBuilds` (about `Prefs.CreatePreferenceFixed`, which the top-k drivers use; the BNL drivers keep the code as written) |
