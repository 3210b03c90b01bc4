# Robust Random Cut Tree construction (a-h/rrcf), modelled in Dafny

This project models how the Go package `rrcf` builds a Robust Random Cut
Tree. The model covers four parts:

- the boolean-mask and float-vector algebra the build uses;
- the matrix operations: column extraction, row lookup, duplicate folding,
  row filtering, and column maxima and minima;
- the random cut: the range-weighted choice of a dimension, then a cut
  value drawn uniformly in that dimension's range;
- the recursive `_mktree` build, the `New` entry point, and the two
  top-down passes that fill in leaf counts and bounding boxes.

The model uses pure functions over immutable values. A Go panic becomes an
`Err` carrying a `Base.Error`. The random source is a sequence of draws in
[0, 1). A tree node is a value, so a node's parent pointer is written as
the left/right path from the root to its parent (`Nodes.Parent`).

Modules, one per file:

| file | module | what it holds |
|---|---|---|
| base.dfy | `Base` | `Option`, `Result` and the panic kinds |
| vectors.dfy | `Vectors` | BoolVector and FloatVector methods; `maxIntOrZero`, `npOnes`, `npBools` and `indicesOfValue` |
| matrices.dfy | `Matrices` | the `Matrix` methods the build calls |
| nodes.dfy | `Nodes` | `Branch` and `Leaf` with their getters and setters; leaves, completeness and placement of a tree |
| cuts.dfy | `Cuts` | `choose`, `uniform` and `_cut` |
| annotate.dfy | `Annotate` | `_count_all_top_down`, `_lr_branch_bbox` and `_get_bbox_top_down` |
| build.dfy | `Build` | `_mktree` and `New` as written |
| intended.dfy | `Intended` | the build corrected where it departs from its own comments (see Findings) |

The code as written has several defects, listed under Findings.
`Build.New` models the build as written, defects included. The properties a
finished tree has in the Python rrcf library this package ports are proved
of `Intended.NewIntended`:

- every input label is registered;
- every unique row sits in exactly one leaf, weighing as many input rows as equal it;
- counts add up;
- every box encloses its children's boxes.

## Model

| member | source | states |
|---|---|---|
| Vectors.Sum | rrcf.go:138-145 | the count of true entries is at most the length, and is zero exactly when no entry is true |
| Vectors.IndicesWhere | rrcf.go:104-111 | one index per true entry (as many as `Sum`), each a true position of the mask |
| Vectors.IndicesWherePositions | rrcf.go:104-111 | the indices are strictly increasing and include every true position (the exact `np.flatnonzero` set in order) |
| Vectors.IndicesWhereFirst | rrcf.go:104-111 | the first index is the first true position: no entry before it is true |
| Vectors.Where | rrcf.go:113-120 | keeps only entries the predicate accepts, exactly as many as there are accepted positions, and all of them when it accepts every entry |
| Vectors.WhereTrueIsSum | rrcf.go:99-120 | filtering a mask with `IsTrue` keeps `Sum` true entries: `Where` agrees with the mask's count |
| Vectors.And | rrcf.go:122-128 | same length as the receiver; entry k is true iff both inputs are true at k |
| Vectors.Not | rrcf.go:130-136 | same length; every entry negated |
| Vectors.SumNot | rrcf.go:130-145 | a mask's true entries plus its negation's true entries make up its length |
| Vectors.PartitionSum | rrcf.go:523-525 | when S1 and S2 split S, their true counts add up to S's |
| Vectors.PartitionIndices | rrcf.go:523-525 | when S1 and S2 split S, their true positions together are exactly S's true positions |
| Vectors.FloatWhere | rrcf.go:56-62 | entry k of the mask is the predicate applied to entry k of the vector |
| Vectors.Subtract | rrcf.go:64-70 | same length as the receiver; adding the other vector back recovers each entry |
| Vectors.DivideBy | rrcf.go:80-86 | same length; multiplying back by the scalar recovers each entry |
| Vectors.FloatSumZero | rrcf.go:88-93 | the sum of non-negative entries is non-negative, and it is zero iff every entry is zero |
| Vectors.MaxIntOrZero | rrcf.go:302-316 | 0 for an empty slice; otherwise an element of the slice that is no smaller than any element |
| Vectors.NpOnes | rrcf.go:318-324 | `count` entries, all 1 |
| Vectors.NpBools | rrcf.go:326-332 | `count` entries, all true, so `count` of them are true |
| Vectors.IndicesOfValue | rrcf.go:555-562 | the strictly increasing positions holding `value`: every such position, as many as `value` occurs, and nothing before the first is `value` |
| Vectors.OccurrencesAreMaskSum | rrcf.go:555-562 | the number of positions holding a value is its multiplicity in the slice |
| Vectors.Iota | rrcf.go:361-364 | the index labels 0..n-1: n entries, entry k equal to k |
| Vectors.IntSumIncrement | rrcf.go:218 | incrementing one count raises the total by one |
| Matrices.Column | rrcf.go:167-173 | one entry per row, entry k being row k's value in column q |
| Matrices.Round | rrcf.go:175-185 | succeeds iff no row is longer than `cols`; keeps the row count; every output row is `cols` wide and starts with the input row's values (zero-padded) |
| Matrices.RowEqual | rrcf.go:196-207 | true iff the stored row equals the given row; rows of different length are never equal |
| Matrices.IndexOf | rrcf.go:187-194 | -1 iff the row is absent; otherwise the first position holding the row |
| Matrices.Unique | rrcf.go:209-223 | as written: succeeds iff the rows are pairwise distinct (a repeat increments a nil counts slice); then it returns the rows themselves, inverse 0..n-1 and nil counts |
| Matrices.UniqueCounted | rrcf.go:209-223 | with counts allocated: distinct unique rows, inverse mapping every row to an equal unique row, counts equal to each index's multiplicity in the inverse and adding up to the row count, unique rows in first-seen order |
| Matrices.UniqueCountedScanInvariant | rrcf.go:211-222 | the scan loop's invariant holds after every prefix of the rows |
| Matrices.IncludeRows | rrcf.go:231-240 | the kept rows are exactly the selected rows, in input order |
| Matrices.Include | rrcf.go:231-240 | as many rows as the mask selects among the matrix's rows; row j is the row at the mask's j-th true position; the width and rectangularity are kept |
| Matrices.Max | rrcf.go:243-253 | each column's value bounds that column from above in every row, and is attained by some row |
| Matrices.Min | rrcf.go:256-266 | each column's value bounds that column from below in every row, and is attained by some row |
| Matrices.MinLeMax | rrcf.go:243-266 | the column minimum never exceeds the column maximum |
| Nodes.SetU | branch.go:23-29 | `GetU` returns the new parent; the node kind and every other field are unchanged (also leaf.go:21-27) |
| Nodes.SetN | branch.go:31-37 | `GetN` returns the new count; the node kind and every other field are unchanged (also leaf.go:29-35) |
| Nodes.SetB | branch.go:39-45 | `GetB` returns the new box; the node kind and every other field are unchanged (also leaf.go:37-43) |
| Nodes.LeafSettersKeepPoint | leaf.go:21-43 | a leaf after all three setters keeps its index, depth and point, and reads back what was set |
| Cuts.Pick | rrcf.go:430-437 | the winning product is non-negative and no smaller than any product; a positive winner is the first position where it occurs; no positive product gives index 0 |
| Cuts.Choose | rrcf.go:428-438 | consumes exactly one draw per probability (fails when there are too few); returns the first position of the largest positive draw-times-probability, and 0 when none is positive |
| Cuts.ChoosePositive | rrcf.go:428-438 | if some product is positive, the chosen dimension has positive probability |
| Cuts.Uniform | rrcf.go:507-509 | a draw in [0, 1) over a non-empty range lands in [from, to); an empty range gives `from` |
| Cuts.Ranges | rrcf.go:513-516 | one non-negative range per dimension, equal to the selected rows' column maximum minus their minimum |
| Cuts.RangesSpread | rrcf.go:513-516 | a dimension's range is positive iff two selected rows differ in it |
| Cuts.Split | rrcf.go:523-525 | S1 holds the selected rows at or below p in dimension q; S2 holds the selected rows not in S1 |
| Cuts.Cut | rrcf.go:511-531 | fails when no row is selected; on success it consumes one draw per dimension plus one; q is a dimension; S1 and S2 are as in `Split`; the new branch records q, p and its parent with no children |
| Cuts.CutPartitions | rrcf.go:523-525 | an accepted cut's S1 and S2 split S: disjoint, and together exactly S |
| Cuts.CutLeftNonEmpty | rrcf.go:521-523 | an accepted cut leaves at least one row in S1 |
| Cuts.CutRightNonEmpty | rrcf.go:521-525 | when the chosen dimension has spread, an accepted cut leaves at least one row in S2 |
| Cuts.CutValueInRange | rrcf.go:521 | p is at least the minimum of the chosen dimension, below its maximum when the range is positive, and equal to it when the range is zero |
| Cuts.CutChoice | rrcf.go:516-519 | the chosen dimension is `choose` over the ranges divided by their positive total |
| Cuts.CutStalls | rrcf.go:519-525 | if the chosen dimension has no spread, S1 is all of S and S2 is empty |
| Cuts.CutStallsOnZeroDraws | rrcf.go:519-525 | a dimension without spread is chosen only when every dimension with spread drew exactly 0 |
| Cuts.CutDegenerate | rrcf.go:513-517 | the 0/0 failure happens iff some row is selected and no dimension has spread |
| Cuts.CutDegenerateTotal | rrcf.go:516-517 | the 0/0 failure happens iff the ranges add up to zero |
| Annotate.CountAll | rrcf.go:484-503 | each branch's count becomes the total count of the leaves below it; leaves, cut fields and which children exist are unchanged |
| Annotate.CountAllAddsUp | rrcf.go:484-503 | after the pass, every branch's count is the sum of its children's counts (nil counts as 0); running the pass again changes nothing |
| Annotate.CountAllKeepsPlacement | rrcf.go:484-503 | the pass keeps every parent link and depth |
| Annotate.CountAllKeepsCompleteness | rrcf.go:484-503 | the pass neither adds nor removes children |
| Annotate.Span | rrcf.go:441-465 | the corrected merge (Dx seeded from Dx): the least box enclosing both children's boxes |
| Annotate.SpanAsWritten | rrcf.go:446-463 | the merge as written is the corrected merge applied with the left box's Dx replaced by its Dy; it still encloses the right box |
| Annotate.SpanAsWrittenMissesLeft | rrcf.go:449 | a left box with Dx 0 and Dy 1 is not enclosed by the as-written merge, but is enclosed by the corrected one |
| Annotate.LrBranchBbox | rrcf.go:441-465 | panics iff a child is nil (a nil right child explicitly, a nil left child through `GetB`); otherwise the merge of the children's boxes |
| Annotate.GetBboxTopDown | rrcf.go:468-481 | succeeds iff every branch has both children; leaves, cut fields and leaf order are unchanged |
| Annotate.GetBboxMerges | rrcf.go:468-481 | after a successful pass, every branch's box is the merge of its children's boxes |
| Annotate.GetBboxKeeps | rrcf.go:468-481 | the pass keeps the leaf counts and every parent link and depth |
| Annotate.SpanBoxesEnclose | rrcf.go:441-481 | with the corrected merge, every branch's box encloses both children's boxes |
| Build.RegisterKey | rrcf.go:588-597 | the registry label of a leaf: the label of its row without duplicates; with duplicates, the label of the first input row folded into it; none (an index panic) when no such label exists |
| Build.Register | rrcf.go:588-597 | adds exactly that one key, pointing at the leaf, and keeps every other entry |
| Build.LeafOf | rrcf.go:577-586 | fails iff the mask is empty; otherwise a leaf for the first selected row, carrying that row's point and count, one level deeper, whose parent is the branch |
| Build.MkTree | rrcf.go:564-630 | each accepted call consumes at least one draw (the measure under which the recursion ends) |
| Build.MkTreePlaced | rrcf.go:564-630 | an accepted build is a branch in which every parent link names the branch one step up and every leaf's depth is its number of ancestors |
| Build.MkTreeLeavesFrom | rrcf.go:577-614 | every leaf of the build holds a selected row, with that row's point and count |
| Build.MkTreeRegistry | rrcf.go:588-625 | every registry entry a build adds or overwrites is a leaf of the subtree it built, filed under an input label; other entries are untouched |
| Build.MkTreeStep | rrcf.go:564-630 | the three shapes of an accepted call: left subtree only; left leaf with a right subtree; left leaf twice |
| Build.New | rrcf.go:350-392 | no matrix gives the empty tree; a built tree has a root, dimension `cols` and labels 0..n-1 |
| Build.NewParts | rrcf.go:350-392 | an accepted `New` rounded its rows and built on all of them, each with count 1 |
| Build.NewOnDistinct | rrcf.go:366-389 | on distinct rows, `New` builds on every row with count 1 and no inverse |
| Build.Finish | rrcf.go:385-389 | a finished tree has a root and keeps the build's registry, the dimension and the labels |
| Build.FinishKeeps | rrcf.go:385-389 | finishing a complete branch succeeds; the root keeps the branch's leaves and has count equal to their total |
| Build.FinishShape | rrcf.go:385-389 | a finished root is placed, complete, with counts that add up and boxes merged |
| Build.NewRejectsDuplicates | rrcf.go:366-367 | `New` fails on any input with two equal rows, so a built tree always comes from distinct rows |
| Build.NewBuilds | rrcf.go:350-392 | a built tree's root is placed, complete, counted and boxed; each leaf holds one input row with count 1; every registry key is an input label pointing at a leaf of the tree |
| Build.NewNeedsSingleLeft | rrcf.go:570-572 | `New` succeeds only when its first cut leaves exactly one row in S1 |
| Build.NewDropsRightChild | rrcf.go:570-572 | three points 0, 1, 2 with draws 0.5, 0.75: the root gets no right child and `New` fails whatever the later draws |
| Build.NewLosesSecondPoint | rrcf.go:605-614 | two points 0 and 1 with draws 0.5, 0.5: both leaves hold point 0, and label 1 is never registered |
| Intended.Prepare | rrcf.go:366-377 | folding as intended (`Represents`): distinct rows of the input's width; each row's count is its multiplicity among the input rows and, with an inverse, the number of inverse entries naming it; without an inverse the rows are the input itself with counts of 1, which is the result whenever the input rows are distinct; every input row is found at its owner |
| Intended.PrepareIdempotent | rrcf.go:366-377 | preparing prepared rows again keeps them as they are, each with count 1 |
| Intended.RegisterAll | rrcf.go:588-597 | registers the leaf under the label of every input row folded into it, and no other key; fails iff one of those labels is missing |
| Intended.RegisterScan | rrcf.go:588-597 | after the first `count` inverse entries, exactly the labels claimed so far point at the leaf |
| Intended.RegisterFirstOnly | rrcf.go:590-595 | two input rows folded into one: the as-written registration files only label 0, the corrected one files 0 and 1 |
| Intended.MkTreeIntended | rrcf.go:564-630 | each accepted call consumes at least one draw |
| Intended.MkTreeIntendedShape | rrcf.go:564-630 | the build is a branch, placed at its address, with two children at every branch |
| Intended.MkTreeIntendedLeavesFrom | rrcf.go:577-614 | every leaf holds a selected row, with its point and count |
| Intended.MkTreeIntendedCovers | rrcf.go:564-630 | the leaves' rows are the selected rows, each exactly once |
| Intended.MkTreeIntendedWeight | rrcf.go:564-630 | the leaf counts add up to the selected rows' total count |
| Intended.MkTreeIntendedRegistry | rrcf.go:588-625 | with distinct labels, the build adds exactly the labels of the input rows folded into its selected rows, each at the leaf holding that row, and leaves other entries untouched |
| Intended.NewIntended | rrcf.go:350-392 | no matrix gives the empty tree; a built tree has a root, dimension `cols` and labels 0..n-1 |
| Intended.NewIntendedShape | rrcf.go:350-392 | the root is placed and complete, its counts add up, every box encloses its children's, and the root count is the number of input rows |
| Intended.NewIntendedLeaves | rrcf.go:350-392 | every unique row is in exactly one leaf, which carries its point and count; a leaf's count is the number of input rows equal to its point |
| Intended.NewIntendedRegistry | rrcf.go:361-392 | the registry keys are exactly the input labels, each pointing at a leaf of the tree that holds that row's point |

## Left out

- Printing: the `Println` calls at rrcf.go:470, 479, 494 and 498, `String`, and tree rendering produce output only.
- The random source: `rand.NewSource(time.Now().Unix())` becomes a sequence of draws in [0, 1). Each `Float64` call takes the next draw. Running out is the error `OutOfDraws`, so every build is finite.
- Rounding to 9 decimals (`round.ToEven`) is not modelled: `Matrices.Round` keeps every value. It keeps the output's shape: rows padded to `cols`, and a panic on a longer row.
- Floating point: values are exact reals. `RowEqual` compares exactly instead of within `tolerance.IsWithin`. NaN and infinities are not modelled.
- The 0/0 division in `_cut`, when every range is zero, yields NaN probabilities in Go. Here it is the error `DegenerateSubset`. With distinct rows this happens only on a one-row build. There Go goes on: every product in `choose` is NaN, so it returns 0; the cut value is the row's own coordinate, so the row goes to S1 and S2 is empty; the nested else at rrcf.go:603-611 then builds a second copy of the row's leaf as the right child, and the root's count is 2. The model stops with the error instead of building that tree.
- `Matrix.Skip`, `Matrix.Sum`, `Matrix.Subtract`, `Matrix.Divide` and `FloatVector.Divide` are unused by the build and are not modelled.
- The `cmd` program, the tests and the Python script are not part of this model.
- The leaf `b` field is never set by the Go code, so it stays the zero box (`Nodes.ZeroBox`). The Python rrcf library this package ports sets a leaf's box to its point. The Go code does not do that, and neither does the model.
- `Leaf.n` is documented as "1 if no duplicates". The model only states that a leaf's count is its row's entry in N (`Build.LeafOf`). That is 1 whenever `New` succeeds as written (`Build.NewBuilds`).
- `_cut` writes the new branch into its parent's field (rrcf.go:533-550). That is pointer mutation, so the model instead returns the branch by value, and `_mktree` hangs it on its parent.
- `BoolVector.IndicesWhere` is modelled with its only predicate in use, `IsTrue`.
- `BoundingBox` is not part of this model's source files. Only the four fields `_lr_branch_bbox` uses are modelled.
- Matrices.Max: requires a non-empty, rectangular matrix. Go panics on `Data[0]` of an empty matrix; `Cuts.Cut` turns that case into `EmptySubset` before calling it.
- Matrices.Min: same requirement and reason as `Matrices.Max`.
- Matrices.Include: requires the mask to cover every row. Go panics when the mask is shorter than the matrix.
- Vectors.And: requires the other mask to be at least as long as the receiver. Go's `&&` short-circuits, so Go panics only when a true receiver entry lies past the end of the other mask, and otherwise returns a result as long as the receiver. Both call sites (rrcf.go:523 and 525) pass masks of equal length.
- Vectors.Subtract: requires the other vector to be at least as long as the receiver. Go panics on `other[i]` otherwise (rrcf.go:67). Its one caller (rrcf.go:516) subtracts `Min` from `Max` of the same matrix, which have equal lengths.
- Vectors.DivideBy: requires a nonzero divisor. Go gives NaN or infinity otherwise, and its only caller rules that out (see `Cuts.CutDegenerateTotal`).
- Cuts.Cut: requires rectangular rows and a mask covering them. Go tolerates some ragged rows: `Max` and `Min` panic only on a selected row longer than the first, and `Column` only on a row shorter than `q + 1`. `New` only ever passes rectangular rows, because `Round` pads every row to `cols`.
- Build.MkTree: states only the termination measure about a single call. What the call builds is stated by `Build.MkTreeStep`, `Build.MkTreePlaced`, `Build.MkTreeLeavesFrom` and `Build.MkTreeRegistry`.

## Findings

Nothing was executed. Each row pairs a member that exhibits the code as
written with the corrected member that the intended build uses.

| source | as written | input that shows it | evidently intended | confidence | as-written member | corrected member |
|---|---|---|---|---|---|---|
| rrcf.go:209-223 | `counts` is never allocated, so the first repeated row increments a nil slice and panics; `New` can never fold duplicates | any input with two equal rows, e.g. `[[0,0],[0,0],[1,1]]` | counts start at 1 per new unique row and are incremented per repeat | high, not executed | Build.NewRejectsDuplicates | Intended.Prepare |
| rrcf.go:570-572 | when S1 holds more than one row, only the left side is built, and S2 is never attached | points 0, 1, 2 in one dimension, draws 0.5 then 0.75 | build both sides, each a subtree or a leaf | high, not executed | Build.NewDropsRightChild | Intended.NewIntendedShape |
| rrcf.go:605 | the right leaf is built from `S1` instead of `S2`, so S2's point is lost and S1's is stored twice | points 0 and 1, draws 0.5, 0.5 | the right leaf takes S2's row | high, not executed | Build.NewLosesSecondPoint | Intended.NewIntendedRegistry |
| rrcf.go:449 | the merged box's Dx is seeded from the left box's Dy | left box Dx 0, Dy 1; right box Dx 2, Dy 1 | seed Dx from the left box's Dx | high, not executed | Annotate.SpanAsWrittenMissesLeft | Annotate.SpanBoxesEnclose |
| rrcf.go:590-595 | only the first of the duplicate labels is registered (`indicesOfValue(I, i)[0]`), despite the comment "for all duplicate indices" | inverse `[0, 0]`, labels `[0, 1]` | register the leaf under every label folded into it | medium (unreachable while the counts panic stands), not executed | Intended.RegisterFirstOnly | Intended.RegisterAll |
