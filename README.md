# SPRAL ics: the supernodal node kernel

This project models the node kernel of SPRAL's supernodal Cholesky solver (ics):
class `Node<T>` in `src/ics/Node.hxx`. It covers one supernode of the assembly tree. The
node owns `m` rows, and the first `n` of them are its pivots. Its part of the factor L is a
column-major `m x n` block inside a shared array `lval`, starting at `loffset` with leading
dimension `ldl`. The node does four things:

- **factor**
  - adds the original matrix entries into its block (the `a_to_l` list);
  - factorises the diagonal block (potrf) and fails with NotPositiveDefinite when potrf reports an error;
  - when it has retained rows (`m > n`), takes two buffers from the workspace manager: the
    `(m - n) x (m - n)` generated element and a row map;
  - applies trsm to the rectangular part and forms the generated element with syrk;
  - hands the generated element to its ancestors one after the other. Each ancestor takes, through
    `add_contribution`, the leading columns it owns. The loop moves `row_start` and
    `contrib_ptr` (a pointer on the diagonal of the generated element) past them.
- **add_contribution** (private)
  - builds the ancestor's row map;
  - adds each leading column that the ancestor owns into the ancestor's block;
  - returns how many columns it used.
- **forward_solve**
  - solves with the diagonal block;
  - computes the retained rows' update in a workspace `xlocal` (gemm);
  - scatter-adds that update into the right-hand sides `x`.
- **backward_solve**
  - gathers the retained rows of `x` into `xlocal`;
  - applies the update with gemm;
  - solves with the transposed diagonal block.

The modules follow that structure.

- `ScatterAdd` (`scatter_add.dfy`):
  - the common shape of every loop in the kernel: a list of `Transfer(dest, src)` pairs applied in order as `l[dest] += v[src]`;
  - `Scatter` is what such a loop computes and `Received` is what one cell ends up receiving;
  - column-major addressing (`Cell(col, row, ld) = col * ld + row`).
- `Kernels` (`kernels.dfy`): potrf, trsm, syrk and gemm. Each is stated by the panel it may write.
- `Workspace` (`workspace.dfy`): the workspace manager. It has a stack of held buffers and a log of get/release events.
- `AssemblyTree` (`assembly_tree.dfy`): the tree node the kernel reads:
  - its sorted row list, pivot count and `a_to_l` entries;
  - `contains_column`;
  - `construct_row_map`.
- `Ics` (`node.dfy`):
  - the `Node` class with factor, add_contribution and the two solves, as methods over `array<int>`;
  - the functions that specify those methods: `Consumed`, `ExtendAddTransfers`, `Cursor`, `Share`, `Handed` and `Distribution`.
- `NodeProperties` (`node_properties.dfy`): what those scatter-adds mean cell by cell, and the two Findings.

Matrix values are modelled as `int` with exact addition. The properties proved here say
which entry is added into which cell. The cell values they state hold for exact addition,
not for rounded floating-point sums.

## Model

| member | source | states |
|---|---|---|
| Ics.Node.constructor | src/ics/Node.hxx:16-19 | The node keeps its tree node, `m` is the tree node's row count, `n` its column count, and `loffset`/`ldl` are stored as given. For a valid tree node, a nonnegative offset and `ldl >= m`, the node is valid. |
| Ics.Consumed | src/ics/Node.hxx:161-174 | The number of columns add_contribution uses is the length of the longest prefix of the rows that are all pivots of the ancestor: every row before it is a pivot, the row at it (if any) is not, and it never exceeds the number of rows. |
| Ics.ConsumedIs | src/ics/Node.hxx:161-174 | Any count with the prefix property of `Consumed` is `Consumed`: the used-column count is uniquely determined. |
| Ics.ConsumedNext | src/ics/Node.hxx:163-164 | At position i of the column loop, the row is a pivot of the ancestor exactly when i is below the final count, so the early `return cidx` happens exactly at `Consumed`. |
| Ics.Node.AssemblyInBlock | src/ics/Node.hxx:49-51 | Every `a_to_l` entry lands inside the node's block of `lval` and reads inside `aval`. |
| Ics.Node.AssembleA | src/ics/Node.hxx:49-52 | The assembly loop performs exactly the scatter-add of the `a_to_l` list. It only touches the node's own block. |
| Ics.Node.AssembleEntry | src/ics/Node.hxx:50-51 | One step of the assembly loop adds `aval[src]` of entry k into its cell, extending the scatter-add of the first k entries to the first k + 1. `aval` is unchanged. |
| NodeProperties.AssemblyReceived | src/ics/Node.hxx:49-52 | What the first p assembly steps deliver to a cell is the sum of `aval[src]` over the first p entries whose destination is that cell. |
| NodeProperties.AssembledCell | src/ics/Node.hxx:49-52 | After assembly every cell of `lval` equals its old value plus the sum of `aval[src]` over all entries aimed at it. Duplicated entries accumulate. |
| AssemblyTree.IndexOfAscending | src/ics/Node.hxx:165 | In a strictly ascending row list the position found for `rows[k]` is k, so a row's map entry is its local index. |
| AssemblyTree.ConstructRowMap | src/ics/Node.hxx:160 | After `construct_row_map` the map sends each of the node's rows to its local index. Every other map entry is unchanged. |
| Ics.Node.ColumnEntryFits | src/ics/Node.hxx:165-170 | For a pivot column j of the ancestor and any later row, the destination `loffset + col * ldl + row` is inside `lval` and the source is inside the contribution block. |
| Ics.Node.ColumnMappedByRowMap | src/ics/Node.hxx:160-170 | Once the row map is built, every pair visited for a pivot column j of the ancestor is addressed through the map and lies in bounds. |
| Ics.Node.MappedEntry | src/ics/Node.hxx:165-170 | The d-th step of the inner loop for column j adds `contrib[cptr + j*(ld+1) + d]` into `lval[loffset + map[rows[j]]*ldl + map[rows[j+d]]]`, and both indices are in bounds. |
| Ics.Node.AddColumn | src/ics/Node.hxx:165-171 | The inner loop of add_contribution performs exactly the scatter-add of column j: from its diagonal entry downwards, each entry is added into the ancestor's cell (row i, column j). |
| Ics.Node.AddEntry | src/ics/Node.hxx:169-170 | One inner-loop step extends the scatter-add of the column by exactly its next pair. It leaves the map and the contribution block untouched. |
| Ics.Node.AddColumns | src/ics/Node.hxx:161-174 | The outer loop returns `Consumed` (early return at the first non-pivot, or all rows) and performs exactly the scatter-add of the first `Consumed` columns. |
| Ics.Node.AddContribution | src/ics/Node.hxx:156-175 | add_contribution builds the row map and returns the number of leading pivot rows. `lval` becomes the scatter-add of exactly those columns of the contribution block. |
| Ics.Node.ExtendAddStep | src/ics/Node.hxx:161-172 | Adding column c after the first c columns gives the scatter-add of the first c + 1 columns. |
| NodeProperties.ExtendAddEntries | src/ics/Node.hxx:161-171 | A pair is handed over by add_contribution for c columns if and only if it reads entry (i, j), j < c and j <= i, of the contribution block and writes the ancestor's cell (rows[i], rows[j]). |
| NodeProperties.ExtendAddDistinct | src/ics/Node.hxx:165-170 | No two pairs of one add_contribution call write the same cell of L. |
| NodeProperties.ExtendAddCell | src/ics/Node.hxx:156-175 | After add_contribution, the ancestor's cell (rows[i], rows[j]) of each consumed column j and each row i >= j equals its old value plus `contrib[cptr + j*(ld+1) + (i-j)]`, added once. |
| NodeProperties.ExtendAddElsewhere | src/ics/Node.hxx:156-175 | Cells of `lval` that are not the ancestor's cell of a consumed column keep their value. |
| NodeProperties.ExtendAddReadsLower | src/ics/Node.hxx:166-170 | add_contribution reads only the lower triangle of the contribution block: every source is entry (i, j) with j <= i. |
| NodeProperties.ExtendAddReadsAscending | src/ics/Node.hxx:161-171 | The reads of add_contribution go strictly forward and stay between `cptr` and the diagonal entry of the first unused column. |
| Ics.Node.AncestorReady | src/ics/Node.hxx:73-79 | Before each call in the distribution loop the call's preconditions hold: the remaining rows are the ancestor's rows, the row map fits and `contrib_ptr` points inside the block. |
| Ics.Node.HandTo | src/ics/Node.hxx:76-81 | One iteration of the distribution loop hands ancestor k its share of the generated element. `row_start` advances by the columns it used, and `contrib_ptr` advances to the diagonal of the next column. |
| Ics.Node.HandingNext | src/ics/Node.hxx:75-82 | The distribution loop's invariant survives one iteration. |
| Ics.AdvanceDiagonal | src/ics/Node.hxx:81 | `contrib_ptr += used * (ldcontrib + 1)` moves from the diagonal entry of column s to that of column s + used. |
| Ics.DiagonalInside | src/ics/Node.hxx:66-81 | The diagonal entry of a retained column, and the rows below it, lie inside the `(m-n) x (m-n)` block. |
| Ics.Node.Distribute | src/ics/Node.hxx:73-82 | The whole loop over the ancestors performs exactly the scatter-add `Distribution` of the generated element. |
| NodeProperties.CursorMonotone | src/ics/Node.hxx:80 | `row_start` never moves backwards over the ancestors. |
| NodeProperties.Exhausted | src/ics/Node.hxx:75-82 | Once `row_start` reaches the end of the rows, every further ancestor uses no column and receives nothing. The loop not stopping early changes nothing. |
| NodeProperties.DistributionReadsOnce | src/ics/Node.hxx:73-82 | Over all ancestors the generated element is read strictly forward. No entry is handed to two ancestors or twice to one. |
| NodeProperties.Owner | src/ics/Node.hxx:75-80 | Every column handed out lies in the stretch of `row_start` of exactly one ancestor. |
| NodeProperties.OwnerReceives | src/ics/Node.hxx:76-79 | The ancestor whose stretch holds column j owns that column, and its share holds entry (i, j) aimed at its cell (rows[i], rows[j]). |
| NodeProperties.DistributionCovers | src/ics/Node.hxx:73-82 | When the ancestors use up every retained row, each lower entry (i, j) of the generated element reaches an ancestor that owns column rows[j], at its cell (rows[i], rows[j]). |
| Kernels.Potrf | src/ics/Node.hxx:55 | potrf writes only the `n x n` diagonal panel. |
| Kernels.Trsm | src/ics/Node.hxx:66 | trsm writes only the panel it overwrites. |
| Kernels.Gemm | src/ics/Node.hxx:106-107 | gemm writes only its `rows x cols` output panel. |
| Kernels.PanelsApart | src/ics/Node.hxx:141-142 | A panel of `rows` rows starting at row `off >= rows` of each column, with `off + rows <= ld`, shares no entry with the panel of the same shape at offset 0. |
| Ics.Node.FormGenerated | src/ics/Node.hxx:66-70 | trsm and syrk change nothing of `lval` outside the node's block. |
| Ics.Node.FormAndDistribute | src/ics/Node.hxx:66-82 | `lval` ends as the distribution of a generated element over the node's `lval`. That `lval` differs from the old one only inside the node's block. |
| Workspace.WorkspaceManager.Get | src/ics/Node.hxx:62-63 | `get` returns a fresh buffer of the requested size, pushes it on the held stack and logs the acquisition. |
| Workspace.WorkspaceManager.Release | src/ics/Node.hxx:85-86 | `release` must name the most recently acquired buffer with its kind and size. It pops it and logs the release. |
| Ics.Node.Update | src/ics/Node.hxx:59-87 | With retained rows, factor takes the generated element and the map, releases them in reverse order (the held stack is as before) and logs exactly that. It distributes the generated element. |
| Ics.Node.Factor | src/ics/Node.hxx:42-88 | factor fails with NotPositiveDefinite(info) exactly when potrf reports info != 0, and then changes nothing outside the node's block. Otherwise, with retained rows, `lval` is the distribution of a generated element over a copy that differs only inside the node's block. The workspace stack is balanced, and the log holds exactly the four get/release events when `m > n` and none otherwise. |
| Ics.Node.RhsPanelFits | src/ics/Node.hxx:96-97 | `xdiag = &x[rows[0]]` with ldx gives an `n x nrhs` panel inside `x`, and every row index of the node is below `ldx`. |
| Ics.Node.RhsInBounds | src/ics/Node.hxx:110-113 | Every pair of the retained-row scatter reads inside `xlocal` and writes inside `x`. |
| Ics.Node.RhsRowEntry | src/ics/Node.hxx:113 | The pair visited for retained row idx and right-hand side r is `x[r*ldx + rows[n+idx]] += xlocal[r*(m-n) + idx]`, in bounds. |
| Ics.Node.AddRow | src/ics/Node.hxx:112-113 | The inner loop over the right-hand sides extends the scatter-add by exactly one row's pairs. |
| Ics.Node.AddPair | src/ics/Node.hxx:113 | One step adds exactly the next pair of the row. |
| Ics.Node.ScatterRetained | src/ics/Node.hxx:110-113 | The distribution loop of forward_solve, over the retained rows, leaves `x` equal to the scatter-add of every retained pair `x[r*ldx + rows[n+q]] += xlocal[r*(m-n) + q]` over its old value. |
| Ics.Node.ForwardUpdate | src/ics/Node.hxx:99-117 | With retained rows the update leaves `x` equal to the scatter-add of the retained rows' pairs over `x` after gemm. The workspace is balanced and logged. |
| Ics.Node.ForwardSolve | src/ics/Node.hxx:90-118 | forward_solve changes `x` outside the scatter only inside the pivot panel at `xdiag`. It then adds `xlocal[r*(m-n)+q]` into `x[r*ldx + rows[n+q]]` for each retained row, and its get/release events balance. |
| NodeProperties.RhsDistinct | src/ics/Node.hxx:110-113 | No two pairs of the scatter write the same entry of `x`, because the node's rows are distinct and below `ldx`. |
| NodeProperties.ForwardCell | src/ics/Node.hxx:110-113 | After forward_solve each retained row's entry `x[r*ldx + rows[n+q]]` equals its value after gemm plus `xlocal[r*(m-n)+q]`, added once. |
| NodeProperties.ForwardElsewhere | src/ics/Node.hxx:110-113 | Entries of `x` that no retained row addresses are not touched by the scatter. |
| Ics.Node.GatherRow | src/ics/Node.hxx:136-137 | The inner gather loop copies row idx of every right-hand side into `xlocal`. Earlier rows stay gathered. |
| Ics.Node.GatherStep | src/ics/Node.hxx:137 | One gather assignment keeps the earlier rows gathered and adds one more right-hand side. |
| Ics.Node.RowGatheredAll | src/ics/Node.hxx:136-137 | Once all right-hand sides of row idx are copied, the first idx + 1 rows are gathered. |
| Ics.Node.GatherRetained | src/ics/Node.hxx:134-137 | The gather loop of backward_solve, over the retained rows, leaves every retained row of every right-hand side of `x` copied into its place in `xlocal`. |
| Ics.Node.GatheredRhs | src/ics/Node.hxx:134-137 | After the gather, every retained pair holds `xlocal[r*(m-n)+q] == x[r*ldx + rows[n+q]]`. |
| Ics.Node.BackwardSolve | src/ics/Node.hxx:120-150 | backward_solve gathers the retained rows' values of `x` as they were on entry and changes `x` only inside the pivot panel at `xdiag`. Its get/release events balance. |
| Ics.Node.AsWrittenRhs | src/ics/Node.hxx:110-113 | The pairs of the scatter and gather loops as written, where idx runs over all m rows from `row_begin` against a workspace of m - n rows. |
| NodeProperties.AsWrittenRhsOverruns | src/ics/Node.hxx:110-113 | As written, with a pivot, a retained row and a right-hand side, some pair reads outside `xlocal`. The first pair couples the first pivot row with `xlocal[0]`. |
| Ics.Node.PivotRowsApart | src/ics/Node.hxx:141-142 | When the first pivot row is at least n, the panel at the start of `x` fits in `x` and is disjoint from the pivot panel at `xdiag`. |
| Ics.Node.BackwardUpdateAsWritten | src/ics/Node.hxx:139-142 | gemm as written, writing to `x` rather than `xdiag`, leaves every entry of the pivot panel unchanged when `rows[0] >= n`. |
| NodeProperties.AsWrittenGemmMissesPivots | src/ics/Node.hxx:139-142 | For a concrete pivot (row `rows[0]`, first right-hand side) the entry lies in the pivot panel but not in the panel gemm writes as written. |
| ScatterAdd.ScatterAt | src/ics/Node.hxx:49-52 | After a scatter-add loop, every cell holds its old value plus the sum, with exact addition, of the sources of all pairs aimed at it. |
| ScatterAdd.ScatterMember | src/ics/Node.hxx:168-171 | When no two pairs share a destination, each destination ends with its old value plus its one source. |
| ScatterAdd.ScatterAppend | src/ics/Node.hxx:75-82 | Running two scatter-add loops one after the other is the scatter-add of their concatenation. |
| ScatterAdd.AddInto | src/ics/Node.hxx:51 | `a[i] += x` changes entry i to its old value plus x and nothing else. |

## Left out

- Kernels.Potrf, Kernels.Trsm, Kernels.Syrk, Kernels.Gemm: the dense kernels compute in floating point
  inside an external BLAS/LAPACK library. They are stated only by the panel they may write, and potrf's `info` is arbitrary.
- Kernels.Syrk: also states no footprint, since it writes the whole generated element it is given.
- Ics.Node.FormGenerated, Ics.Node.FormAndDistribute, Ics.Node.Update, Ics.Node.Factor,
  Ics.Node.ForwardSolve, Ics.Node.BackwardSolve:
  - they state the values the dense kernels produce (the generated element, the triangular solves) only as unconstrained values;
  - what they promise is where those values go, not what they are.
- `print` (src/ics/Node.hxx:28-39): output only.
- `get_parent_node_idx` and `get_idx` (src/ics/Node.hxx:21-26): they only read tree bookkeeping.
- AssemblyTree internals: `AssemblyTree.hxx` is not part of this model. The tree node is a value with
  these properties: sorted distinct rows, consecutive pivots, `a_to_l` entries inside the block and a maximum row index. `contains_column` and `construct_row_map` are stated by what they are used for.
- WorkspaceManager internals: `WorkspaceManager.hxx` is not part of this model. Buffers are fresh arrays. Releases
  must be last-in first-out, and the manager's bookkeeping is a ghost stack and log.
- `int`/`long` widths: offsets and sizes such as `(m-n)*ldcontrib` and `r*ldx + row` are unbounded integers, so overflow is not modelled.
- Iterators over rows and ancestors are sequence indices. Pointers into `lval`, `x` and the workspace are integer offsets into one array each.
- Contracts state addresses with `Stride`, `Cell` and `Diagonal`, which are defined by repeated addition. The methods compute the
  source's products (`col * ldl`, `cidx * (ldcontrib + 1)`) directly. `ScatterAdd.StrideIs`, `ScatterAdd.CellIs` and `Ics.DiagonalIs` prove the two forms equal.
- The distribution loop (src/ics/Node.hxx:75-82) visits every ancestor, even after the retained rows run out, and the
  model does the same. `NodeProperties.Exhausted` shows that those later calls use no column and deliver nothing.
- Ics.Node.ForwardSolve, Ics.Node.BackwardSolve, Ics.Node.ScatterRetained, Ics.Node.GatherRetained: they model the corrected loops, not the ones written at
  src/ics/Node.hxx:110-113 and 134-137, and the corrected gemm target. See Findings.
- Concurrency: locking of ancestor blocks and the order of visiting nodes belong to the traversal driver, which is not part of this model.

## Findings

| source | as written | input that shows it | evidently intended | confidence | as-written member | corrected member |
|---|---|---|---|---|---|---|
| src/ics/Node.hxx:110-113, 134-137 | The scatter (forward) and gather (backward) loops start `row` at `row_begin()`. idx runs over all m rows against `xlocal`, which holds `nrhs * (m - n)` values, and pivot rows are paired with workspace rows. | Any node with a pivot, a retained row and a right-hand side (n >= 1, m > n, nrhs >= 1). The last idx is m - 1 >= m - n, so `xlocal[(nrhs-1)*(m-n) + m - 1]` is out of bounds, and the first pair adds `xlocal[0]` into the first pivot row. | Start at `row_begin() + n` (as factor does at line 73), so idx runs over the m - n retained rows. | not executed | NodeProperties.AsWrittenRhsOverruns | Ics.Node.ForwardSolve |
| src/ics/Node.hxx:141-142 | The backward gemm accumulates into `x` (leading dimension ldx), the panel at row 0. | Any node whose first pivot row is at least n, e.g. rows = [5, 6], n = 1, nrhs = 1. The pivot entry x[5] lies outside the panel x[0..1) that gemm writes, so it never receives the update. | Accumulate into `xdiag`, the pivot rows' panel that the following trsm solves with. | not executed | Ics.Node.BackwardUpdateAsWritten | Ics.Node.BackwardSolve |
