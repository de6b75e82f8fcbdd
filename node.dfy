/**
 * One supernode of the supernodal Cholesky factorisation, bound to
 * its assembly-tree node and to its place (offset, leading dimension) in the
 * shared factor array. Values are exact integers; the dense floating-point
 * kernels are only footprints (module Kernels).
 */
module Ics {
  import opened ScatterAdd
  import opened AssemblyTree
  import opened Kernels
  import opened Workspace

  datatype Error = NotPositiveDefinite(info: int)

  datatype Outcome = Pass | Fail(error: Error)

  /**
   * The number of leading rows of `rows` that are pivot columns of `t`:
   * the columns add_contribution hands to that node before it stops.
   */
  function Consumed(t: TreeNode, rows: seq<int>): (c: int)
    requires 0 <= t.ncol <= |t.rows|
    ensures 0 <= c <= |rows|
    ensures forall q | 0 <= q < c :: ContainsColumn(t, rows[q])
    ensures c < |rows| ==> !ContainsColumn(t, rows[c])
    decreases |rows|
  {
    if rows == [] || !ContainsColumn(t, rows[0]) then 0
    else 1 + Consumed(t, rows[1..])
  }

  /** The contract of Consumed determines it: a prefix of pivots followed by a non-pivot or the end. */
  lemma ConsumedIs(t: TreeNode, rows: seq<int>, c: int)
    requires 0 <= t.ncol <= |t.rows|
    requires 0 <= c <= |rows|
    requires forall q | 0 <= q < c :: ContainsColumn(t, rows[q])
    requires c < |rows| ==> !ContainsColumn(t, rows[c])
    ensures Consumed(t, rows) == c
  {
  }

  /** Scanning rows from i <= Consumed on, row i is a pivot exactly when the scan has not reached Consumed. */
  lemma {:induction false} ConsumedNext(t: TreeNode, rows: seq<int>, i: int)
    requires 0 <= t.ncol <= |t.rows|
    requires 0 <= i <= Consumed(t, rows) && i < |rows|
    ensures ContainsColumn(t, rows[i]) <==> i < Consumed(t, rows)
  {
  }

  class Node {
    const tree: TreeNode
    const m: int
    const n: int
    const loffset: int
    const ldl: int

    constructor (tree: TreeNode, loffset: int, ldl: int)
      requires tree.Valid() && 0 <= loffset && |tree.rows| <= ldl
      ensures Valid()
      ensures this.tree == tree && m == |tree.rows| && n == tree.ncol
      ensures this.loffset == loffset && this.ldl == ldl
    {
      this.tree := tree;
      m := |tree.rows|;
      n := tree.ncol;
      this.loffset := loffset;
      this.ldl := ldl;
    }

    /** m rows, of which the first n are pivots; columns are ldl >= m apart. */
    predicate Valid()
    {
      tree.Valid() && m == |tree.rows| && n == tree.ncol && 0 <= loffset && m <= ldl
    }

    /** The node's m x n block (diagonal block above the rectangular block) lies inside the factor array. */
    predicate BlockIn(len: int)
    {
      PanelFits(len, loffset, m, n, ldl)
    }

    /** Index i of the factor array belongs to this node's m x n block. */
    predicate InBlock(i: int)
      requires Valid()
    {
      InPanel(i, loffset, m, n, ldl)
    }

    /** An ancestor whose block is inside the factor array and whose rows index the row map of this tree. */
    predicate AncestorFits(a: Node, len: int)
      requires Valid()
    {
      a.Valid() && a.BlockIn(len) && a.tree.rows[a.m - 1] < tree.maxRowIndex
    }

    /**
     * Elimination-tree property the extend-add relies on: once a retained
     * row of this node is a pivot of ancestor a, that row and all later
     * retained rows are rows of a.
     */
    predicate RetainedRowsNest(a: Node)
      requires Valid() && a.Valid()
    {
      forall p | n <= p < m && ContainsColumn(a.tree, tree.rows[p]) ::
        forall q | p <= q < m :: tree.rows[q] in a.tree.rows
    }

    // ---------------------------------------------------------------- assembly

    /** One transfer per a-to-l entry: aval[src] into entry (destRow, destCol) of the block. */
    function AssemblyTransfers(): seq<Transfer>
    {
      seq(|tree.aToL|, k requires 0 <= k < |tree.aToL| =>
        Transfer(loffset + Cell(tree.aToL[k].destCol, tree.aToL[k].destRow, ldl), tree.aToL[k].src))
    }

    /** Every assembly transfer writes inside this node's block and reads inside aval. */
    lemma {:induction false} AssemblyInBlock(lenL: int, lenA: int)
      requires Valid() && BlockIn(lenL)
      requires forall e | e in tree.aToL :: 0 <= e.src < lenA
      ensures Fits(AssemblyTransfers(), lenL, lenA)
      ensures forall t | t in AssemblyTransfers() :: InBlock(t.dest)
    {
      var ts := AssemblyTransfers();
      forall t | t in ts ensures 0 <= t.dest < lenL && 0 <= t.src < lenA && InBlock(t.dest) {
        var k :| 0 <= k < |ts| && ts[k] == t;
        var e := tree.aToL[k];
        assert e in tree.aToL;
        PanelCell(lenL, loffset, m, n, ldl, e.destCol, e.destRow);
      }
    }

    /** "Add A": scatter-add the original entries into the node's block (ldiag[dest] += aval[src]). */
    method AssembleA(aval: array<int>, lval: array<int>)
      requires Valid() && BlockIn(lval.Length)
      requires forall e | e in tree.aToL :: 0 <= e.src < aval.Length
      requires aval != lval
      modifies lval
      ensures Fits(AssemblyTransfers(), lval.Length, aval.Length)
      ensures lval[..] == Scatter(old(lval[..]), AssemblyTransfers(), aval[..])
      ensures forall i | 0 <= i < lval.Length && !InBlock(i) :: lval[i] == old(lval[i])
    {
      AssemblyInBlock(lval.Length, aval.Length);
      ghost var l0 := lval[..];
      ghost var v := aval[..];
      ghost var ts := AssemblyTransfers();
      var k := 0;
      while k < |tree.aToL|
        invariant 0 <= k <= |tree.aToL|
        invariant aval[..] == v
        invariant lval[..] == ScatterUpTo(l0, ts, v, k)
      {
        AssembleEntry(aval, lval, k, l0, ts);
        k := k + 1;
      }
      ScatterUpToAll(l0, ts, v, lval[..]);
      forall i | 0 <= i < lval.Length && !InBlock(i) ensures lval[i] == l0[i] {
        ScatterOutside(l0, ts, v, i);
      }
    }

    /** ldiag[dest] += aval[src] for entry k: the assembly done so far grows by one transfer. */
    method AssembleEntry(aval: array<int>, lval: array<int>, k: int, ghost l0: seq<int>, ghost ts: seq<Transfer>)
      requires Valid() && aval != lval && 0 <= k < |tree.aToL|
      requires ts == AssemblyTransfers() && |l0| == lval.Length && Fits(ts, |l0|, aval.Length)
      requires lval[..] == ScatterUpTo(l0, ts, aval[..], k)
      modifies lval
      ensures aval[..] == old(aval[..])
      ensures lval[..] == ScatterUpTo(l0, ts, aval[..], k + 1)
    {
      var e := tree.aToL[k];
      var dest := e.destCol * ldl + e.destRow;
      CellIs(e.destCol, e.destRow, ldl);
      assert ts[k] == Transfer(loffset + dest, e.src) && ts[k] in ts;
      ghost var before := lval[..];
      AddInto(lval, loffset + dest, aval[e.src]);
      ScatterUpToStep(l0, ts, aval[..], k, before, lval[..], loffset + dest, e.src);
    }

    // -------------------------------------------------------------- extend-add

    /** Position in this node's block of entry (row, colRow), rows given by global index. */
    ghost function Dest(colRow: int, row: int): int
    {
      loffset + Cell(IndexOf(tree.rows, colRow), IndexOf(tree.rows, row), ldl)
    }

    /**
     * Entry d below the diagonal of column j: contrib[cptr + j * (ld + 1) + d]
     * (the diagonal of column j is Diagonal(j, ld) past cptr) into entry
     * (rows[j + d], rows[j]).
     */
    ghost function ColumnEntry(rows: seq<int>, j: int, cptr: int, ld: int, d: int): Transfer
      requires 0 <= j && 0 <= d && j + d < |rows|
    {
      Transfer(Dest(rows[j], rows[j + d]), cptr + Diagonal(j, ld) + d)
    }

    /** Column j of the contribution block, from its diagonal to the last row. */
    ghost function ColumnTransfers(rows: seq<int>, j: int, cptr: int, ld: int): seq<Transfer>
      requires 0 <= j < |rows|
    {
      seq(|rows| - j, d requires 0 <= d < |rows| - j => ColumnEntry(rows, j, cptr, ld, d))
    }

    /** Transfer d of column j: its source entry and its destination in this node's block. */
    lemma {:induction false} ColumnEntryFits(rows: seq<int>, j: int, cptr: int, ld: int, d: int, lenL: int, lenC: int)
      requires Valid() && BlockIn(lenL)
      requires 0 <= j && 0 <= d && j + d < |rows|
      requires ContainsColumn(tree, rows[j]) && rows[j + d] in tree.rows
      requires 0 <= cptr && 0 <= ld && cptr + Diagonal(|rows| - 1, ld) < lenC
      ensures IndexOf(tree.rows, rows[j]) < n && IndexOf(tree.rows, rows[j + d]) < m
      ensures 0 <= ColumnEntry(rows, j, cptr, ld, d).dest
        == loffset + Cell(IndexOf(tree.rows, rows[j]), IndexOf(tree.rows, rows[j + d]), ldl) < lenL
      ensures 0 <= ColumnEntry(rows, j, cptr, ld, d).src < lenC
    {
      var q :| 0 <= q < n && tree.rows[q] == rows[j];
      IndexOfAscending(tree.rows, q);
      PanelCell(lenL, loffset, m, n, ldl, IndexOf(tree.rows, rows[j]), IndexOf(tree.rows, rows[j + d]));
      ColumnSourceBound(|rows|, j, j + d, ld);
      DiagonalIs(j, ld);
      DiagonalIs(|rows| - 1, ld);
    }

    /** The first c columns, in the order add_contribution visits them. */
    ghost function ExtendAddTransfers(rows: seq<int>, c: int, cptr: int, ld: int): seq<Transfer>
      requires 0 <= c <= |rows|
      decreases c
    {
      if c == 0 then []
      else ExtendAddTransfers(rows, c - 1, cptr, ld) + ColumnTransfers(rows, c - 1, cptr, ld)
    }

    /** Once the first retained row is a pivot here, every row of the range is a row of this node. */
    predicate RowsCovered(rows: seq<int>)
      requires Valid()
    {
      |rows| > 0 && ContainsColumn(tree, rows[0]) ==> forall r | r in rows :: r in tree.rows
    }

    /**
     * Every entry of column j goes, through the row map rm, to block entry
     * (rm[rows[j + d]], rm[rows[j]]), inside the factor array, and is read
     * from inside the contribution block.
     */
    ghost predicate ColumnMapped(rows: seq<int>, j: int, cptr: int, ld: int, rm: seq<int>, lenL: int, lenC: int)
      requires 0 <= j < |rows|
    {
      && 0 <= rows[j] < |rm|
      && forall d | 0 <= d < |rows| - j ::
           && 0 <= rows[j + d] < |rm|
           && ColumnEntry(rows, j, cptr, ld, d).dest == loffset + Cell(rm[rows[j]], rm[rows[j + d]], ldl)
           && 0 <= ColumnEntry(rows, j, cptr, ld, d).dest < lenL
           && 0 <= ColumnEntry(rows, j, cptr, ld, d).src == cptr + Diagonal(j, ld) + d < lenC
    }

    /** The row map of a valid node maps every column of a covered range to its place in the block. */
    lemma {:induction false} ColumnMappedByRowMap(rows: seq<int>, j: int, cptr: int, ld: int, rm: seq<int>, lenL: int, lenC: int)
      requires Valid() && BlockIn(lenL)
      requires 0 <= j < |rows| && ContainsColumn(tree, rows[j])
      requires forall r | r in rows :: r in tree.rows
      requires forall k | 0 <= k < m :: 0 <= tree.rows[k] < |rm| && rm[tree.rows[k]] == k
      requires 0 <= cptr && 0 <= ld && cptr + Diagonal(|rows| - 1, ld) < lenC
      ensures ColumnMapped(rows, j, cptr, ld, rm, lenL, lenC)
    {
      forall d | 0 <= d < |rows| - j
        ensures 0 <= rows[j + d] < |rm|
        ensures ColumnEntry(rows, j, cptr, ld, d).dest == loffset + Cell(rm[rows[j]], rm[rows[j + d]], ldl)
        ensures 0 <= ColumnEntry(rows, j, cptr, ld, d).dest < lenL
        ensures 0 <= ColumnEntry(rows, j, cptr, ld, d).src == cptr + Diagonal(j, ld) + d < lenC
      {
        var r := rows[j + d];
        assert r in rows;
        assert r in tree.rows;
        ColumnEntryFits(rows, j, cptr, ld, d, lenL, lenC);
      }
    }

    /**
     * One column of add_contribution: column j of the contribution block
     * (from its diagonal down) is added into block column map[rows[j]], each
     * entry at block row map[rows[j + d]].
     */
    method AddColumn(lval: array<int>, rows: seq<int>, j: int, contrib: array<int>, cptr: int,
                     ldcontrib: int, rowMap: array<int>)
      requires 0 <= j < |rows|
      requires ColumnMapped(rows, j, cptr, ldcontrib, rowMap[..], lval.Length, contrib.Length)
      requires lval != contrib && lval != rowMap
      modifies lval
      ensures Fits(ColumnTransfers(rows, j, cptr, ldcontrib), lval.Length, contrib.Length)
      ensures lval[..] == Scatter(old(lval[..]), ColumnTransfers(rows, j, cptr, ldcontrib), contrib[..])
    {
      ghost var l0 := lval[..];
      ghost var v := contrib[..];
      ghost var rm := rowMap[..];
      ghost var column := ColumnTransfers(rows, j, cptr, ldcontrib);
      MappedFits(rows, j, cptr, ldcontrib, rm, |l0|, |v|);
      var col := rowMap[rows[j]];
      var src := cptr + j * (ldcontrib + 1);
      var dest := loffset + col * ldl;
      DiagonalIs(j, ldcontrib);
      StrideIs(col, ldl);
      var srcRow := j;
      ghost var k := 0;
      while srcRow < |rows|
        invariant j <= srcRow <= |rows| && k == srcRow - j
        invariant src == cptr + Diagonal(j, ldcontrib) + k
        invariant rowMap[..] == rm && contrib[..] == v
        invariant lval[..] == ScatterUpTo(l0, column, v, k)
      {
        AddEntry(lval, rows, j, contrib, cptr, ldcontrib, rowMap, srcRow, k, src, dest, l0, column);
        src := src + 1;
        srcRow := srcRow + 1;
        k := k + 1;
      }
      ScatterUpToAll(l0, column, v, lval[..]);
    }

    /** lval[dest + map[rows[srcRow]]] += contrib[src]: entry k of the column is one more transfer. */
    method AddEntry(lval: array<int>, rows: seq<int>, j: int, contrib: array<int>, cptr: int, ldcontrib: int,
                    rowMap: array<int>, srcRow: int, ghost k: int, src: int, dest: int,
                    ghost l0: seq<int>, ghost column: seq<Transfer>)
      requires 0 <= j <= srcRow < |rows| && k == srcRow - j
      requires ColumnMapped(rows, j, cptr, ldcontrib, rowMap[..], lval.Length, contrib.Length)
      requires lval != contrib && lval != rowMap && |l0| == lval.Length
      requires column == ColumnTransfers(rows, j, cptr, ldcontrib) && Fits(column, |l0|, contrib.Length)
      requires src == cptr + Diagonal(j, ldcontrib) + k && dest == loffset + Stride(rowMap[rows[j]], ldl)
      requires lval[..] == ScatterUpTo(l0, column, contrib[..], k)
      modifies lval
      ensures rowMap[..] == old(rowMap[..]) && contrib[..] == old(contrib[..])
      ensures lval[..] == ScatterUpTo(l0, column, contrib[..], k + 1)
    {
      ghost var v := contrib[..];
      MappedEntry(rows, j, cptr, ldcontrib, rowMap[..], |l0|, |v|, srcRow, k);
      var row := rowMap[rows[srcRow]];
      var i := dest + row;
      ghost var before := lval[..];
      AddInto(lval, i, contrib[src]);
      ScatterUpToStep(l0, column, v, k, before, lval[..], i, src);
    }

    /** The entry of a mapped column at row i, read off ColumnMapped. */
    lemma {:induction false} MappedEntry(rows: seq<int>, j: int, cptr: int, ld: int, rm: seq<int>, lenL: int, lenC: int,
                                         i: int, d: int)
      requires 0 <= j < |rows| && ColumnMapped(rows, j, cptr, ld, rm, lenL, lenC)
      requires j <= i < |rows| && d == i - j
      ensures 0 <= rows[j] < |rm| && 0 <= rows[i] < |rm|
      ensures ColumnTransfers(rows, j, cptr, ld)[d]
           == Transfer(loffset + Stride(rm[rows[j]], ldl) + rm[rows[i]], cptr + Diagonal(j, ld) + d)
      ensures 0 <= loffset + Stride(rm[rows[j]], ldl) + rm[rows[i]] < lenL
      ensures 0 <= cptr + Diagonal(j, ld) + d < lenC
    {
      assert j + d == i && rows[j + d] == rows[i];
      assert ColumnTransfers(rows, j, cptr, ld)[d] == ColumnEntry(rows, j, cptr, ld, d);
    }

    /** A mapped column reads and writes inside its arrays. */
    lemma {:induction false} MappedFits(rows: seq<int>, j: int, cptr: int, ld: int, rm: seq<int>, lenL: int, lenC: int)
      requires 0 <= j < |rows| && ColumnMapped(rows, j, cptr, ld, rm, lenL, lenC)
      ensures Fits(ColumnTransfers(rows, j, cptr, ld), lenL, lenC)
    {
      var column := ColumnTransfers(rows, j, cptr, ld);
      forall t | t in column ensures 0 <= t.dest < lenL && 0 <= t.src < lenC {
        var d :| 0 <= d < |column| && column[d] == t;
        MappedEntry(rows, j, cptr, ld, rm, lenL, lenC, j + d, d);
      }
    }

    /** Entry d of column j read by add_contribution lies inside the last column's diagonal entry. */
    lemma {:induction false} ColumnSourceBound(count: int, j: int, row: int, ld: int)
      requires 0 <= j <= row < count && 0 <= ld
      ensures 0 <= j * (ld + 1) + (row - j) <= (count - 1) * (ld + 1)
    {
      MulAtLeast(count - 1, j, ld + 1);
      MulAtLeast(j, 0, ld + 1);
      assert (count - 1) * (ld + 1) - j * (ld + 1) == (count - 1 - j) * (ld + 1);
      MulAtLeast(count - 1 - j, row - j, ld + 1);
      MulAtLeast(row - j, 0, ld);
      assert (row - j) * (ld + 1) == (row - j) * ld + (row - j);
    }

    /** Through a row map built for this node, every column the node consumes is mapped. */
    lemma {:induction false} ConsumedColumnsMapped(rows: seq<int>, cptr: int, ld: int, rm: seq<int>, lenL: int, lenC: int)
      requires Valid() && BlockIn(lenL) && RowsCovered(rows)
      requires forall k | 0 <= k < m :: 0 <= tree.rows[k] < |rm| && rm[tree.rows[k]] == k
      requires 0 <= cptr && 0 <= ld && (|rows| > 0 ==> cptr + Diagonal(|rows| - 1, ld) < lenC)
      ensures forall j | 0 <= j < Consumed(tree, rows) :: ColumnMapped(rows, j, cptr, ld, rm, lenL, lenC)
    {
      forall j | 0 <= j < Consumed(tree, rows) ensures ColumnMapped(rows, j, cptr, ld, rm, lenL, lenC) {
        assert ContainsColumn(tree, rows[0]);
        ColumnMappedByRowMap(rows, j, cptr, ld, rm, lenL, lenC);
      }
    }

    /** Adding column c to the first c columns gives the first c + 1. */
    lemma {:induction false} ExtendAddStep(l0: seq<int>, rows: seq<int>, c: int, cptr: int, ld: int, v: seq<int>,
                        before: seq<int>, after: seq<int>)
      requires 0 <= c < |rows|
      requires Fits(ExtendAddTransfers(rows, c, cptr, ld), |l0|, |v|)
      requires before == Scatter(l0, ExtendAddTransfers(rows, c, cptr, ld), v)
      requires Fits(ColumnTransfers(rows, c, cptr, ld), |before|, |v|)
      requires after == Scatter(before, ColumnTransfers(rows, c, cptr, ld), v)
      ensures Fits(ExtendAddTransfers(rows, c + 1, cptr, ld), |l0|, |v|)
      ensures after == Scatter(l0, ExtendAddTransfers(rows, c + 1, cptr, ld), v)
    {
      ScatterAppend(l0, ExtendAddTransfers(rows, c, cptr, ld), ColumnTransfers(rows, c, cptr, ld), v);
    }

    /**
     * The column loop of add_contribution, once the row map is built: walk
     * the rows, stop at the first that is not a pivot here, and add each
     * pivot column of the contribution block into the node's block.
     */
    method AddColumns(lval: array<int>, rows: seq<int>, contrib: array<int>, cptr: int,
                      ldcontrib: int, rowMap: array<int>) returns (used: int)
      requires 0 <= tree.ncol <= |tree.rows|
      requires forall j | 0 <= j < Consumed(tree, rows) ::
        ColumnMapped(rows, j, cptr, ldcontrib, rowMap[..], lval.Length, contrib.Length)
      requires lval != contrib && lval != rowMap
      modifies lval
      ensures used == Consumed(tree, rows)
      ensures Fits(ExtendAddTransfers(rows, used, cptr, ldcontrib), lval.Length, contrib.Length)
      ensures lval[..] == Scatter(old(lval[..]), ExtendAddTransfers(rows, used, cptr, ldcontrib), contrib[..])
    {
      ghost var l0 := lval[..];
      ghost var v := contrib[..];
      ghost var rm := rowMap[..];
      ghost var c := Consumed(tree, rows);
      var cidx := 0;
      while cidx < |rows|
        invariant 0 <= cidx <= c
        invariant rowMap[..] == rm && contrib[..] == v && |l0| == lval.Length
        invariant Fits(ExtendAddTransfers(rows, cidx, cptr, ldcontrib), |l0|, |v|)
        invariant lval[..] == Scatter(l0, ExtendAddTransfers(rows, cidx, cptr, ldcontrib), v)
      {
        ConsumedNext(tree, rows, cidx);
        if !ContainsColumn(tree, rows[cidx]) {
          assert cidx == c;
          used := cidx;
          return;
        }
        ghost var before := lval[..];
        AddColumn(lval, rows, cidx, contrib, cptr, ldcontrib, rowMap);
        ExtendAddStep(l0, rows, cidx, cptr, ldcontrib, v, before, lval[..]);
        cidx := cidx + 1;
      }
      assert cidx == c;
      used := |rows|;
    }

    /**
     * add_contribution, called on the ancestor: build the row map, consume
     * the longest prefix of `rows` that are pivots here and scatter-add the
     * lower triangle of those columns of the contribution block into this
     * node's block. Returns the number of columns consumed.
     */
    method AddContribution(lval: array<int>, rows: seq<int>, contrib: array<int>, cptr: int,
                           ldcontrib: int, rowMap: array<int>) returns (used: int)
      requires Valid() && BlockIn(lval.Length)
      requires tree.rows[m - 1] < rowMap.Length
      requires RowsCovered(rows)
      requires 0 <= cptr && 0 <= ldcontrib
      requires |rows| > 0 ==> cptr + Diagonal(|rows| - 1, ldcontrib) < contrib.Length
      requires lval != contrib && lval != rowMap && contrib != rowMap
      modifies lval, rowMap
      ensures used == Consumed(tree, rows)
      ensures Fits(ExtendAddTransfers(rows, used, cptr, ldcontrib), lval.Length, contrib.Length)
      ensures lval[..] == Scatter(old(lval[..]), ExtendAddTransfers(rows, used, cptr, ldcontrib), contrib[..])
      ensures forall k | 0 <= k < m :: rowMap[tree.rows[k]] == k
    {
      ConstructRowMap(tree, rowMap);
      ghost var rm := rowMap[..];
      forall k | 0 <= k < m ensures 0 <= tree.rows[k] < |rm| && rm[tree.rows[k]] == k {
        assert tree.rows[0] <= tree.rows[k] <= tree.rows[m - 1];
      }
      ConsumedColumnsMapped(rows, cptr, ldcontrib, rm, lval.Length, contrib.Length);
      used := AddColumns(lval, rows, contrib, cptr, ldcontrib, rowMap);
    }

    // -------------------------------------------------------------- factorise

    /**
     * What add_contribution needs from an ancestor when the distribution loop
     * reaches retained row rowStart with the contribution pointer at its diagonal.
     */
    lemma {:induction false} AncestorReady(anc: Node, rowStart: int, s: int, rest: seq<int>, cptr: int, ld: int,
                        lenL: int, lenMap: int, lenC: int)
      requires Valid() && m > n && n <= rowStart <= m && rowStart == n + s && rest == tree.rows[rowStart..]
      requires anc.Valid() && AncestorFits(anc, lenL) && RetainedRowsNest(anc)
      requires lenMap == tree.maxRowIndex && ld == m - n && lenC == ld * ld
      requires cptr == Diagonal(s, ld)
      ensures anc.BlockIn(lenL) && anc.tree.rows[anc.m - 1] < lenMap
      ensures anc.RowsCovered(rest)
      ensures 0 <= cptr && 0 <= ld
      ensures |rest| > 0 ==> cptr + Diagonal(|rest| - 1, ld) < lenC
    {
      RetainedRowsCovered(anc, rowStart, rest);
      DiagonalInside(s, |rest|, ld);
    }

    /** The retained rows from rowStart on are covered by any ancestor whose pivot comes first among them. */
    lemma {:induction false} RetainedRowsCovered(anc: Node, rowStart: int, rest: seq<int>)
      requires Valid() && n <= rowStart <= m && rest == tree.rows[rowStart..]
      requires anc.Valid() && RetainedRowsNest(anc)
      ensures anc.RowsCovered(rest)
    {
      if |rest| > 0 && ContainsColumn(anc.tree, rest[0]) {
        assert tree.rows[rowStart] == rest[0];
        forall r | r in rest ensures r in anc.tree.rows {
          var q :| 0 <= q < |rest| && rest[q] == r;
          assert tree.rows[rowStart + q] == r;
        }
      }
    }

    /**
     * Where the distribution loop stands after k ancestors: the cursor s into the
     * retained rows is the rows they consumed, the pointer is on the diagonal of
     * column s of the contribution block, and the factor array is l0 with all
     * they received added in.
     */
    ghost predicate Handing(ancestors: seq<Node>, k: int, s: int, ptr: int, l0: seq<int>, lv: seq<int>, v: seq<int>)
      requires Valid()
      requires PivotCounts(ancestors)
      requires 0 <= k <= |ancestors|
    {
      && s == Cursor(ancestors, tree.rows[n..], k)
      && ptr == Diagonal(s, m - n)
      && Fits(Handed(ancestors, tree.rows[n..], k, m - n), |l0|, |v|)
      && lv == Scatter(l0, Handed(ancestors, tree.rows[n..], k, m - n), v)
    }

    /**
     * One turn of the distribution loop of factor: ancestor k receives, through
     * add_contribution, the columns it owns at the front of the retained rows
     * from rowStart on, reading the generated element from its diagonal entry.
     * The ghost s is rowStart - n, the cursor into the retained rows.
     */
    method HandTo(lval: array<int>, contrib: array<int>, ancestors: seq<Node>, rowMap: array<int>,
                  k: int, rowStart: int, contribPtr: int, ghost s: int, ghost l0: seq<int>)
      returns (used: int, nextPtr: int, ghost nextS: int)
      requires Valid() && m > n && 0 <= k < |ancestors|
      requires PivotCounts(ancestors)
      requires AncestorFits(ancestors[k], lval.Length) && RetainedRowsNest(ancestors[k])
      requires contrib.Length == (m - n) * (m - n) && rowMap.Length == tree.maxRowIndex
      requires lval != contrib && lval != rowMap && contrib != rowMap
      requires rowStart == n + s
      requires Handing(ancestors, k, s, contribPtr, l0, lval[..], contrib[..])
      modifies lval, rowMap
      ensures nextS == s + used
      ensures Handing(ancestors, k + 1, nextS, nextPtr, l0, lval[..], contrib[..])
    {
      assert s <= |tree.rows[n..]|;
      var ldcontrib := m - n;
      var anc := ancestors[k];
      var rest := tree.rows[rowStart..];
      assert rest == tree.rows[n..][s..];
      AncestorReady(anc, rowStart, s, rest, contribPtr, ldcontrib, lval.Length, rowMap.Length, contrib.Length);
      ghost var before := lval[..];
      used := anc.AddContribution(lval, rest, contrib, contribPtr, ldcontrib, rowMap);
      nextS := s + used;
      nextPtr := AdvanceDiagonal(contribPtr, s, used, nextS, ldcontrib);
      HandingNext(ancestors, k, s, contribPtr, l0, before, lval[..], contrib[..], rest, used, nextS, nextPtr);
    }

    /** After ancestor k has taken its share, the loop stands at ancestor k + 1. */
    lemma {:induction false} HandingNext(ancestors: seq<Node>, k: int, s: int, cptr: int, l0: seq<int>,
                                         before: seq<int>, after: seq<int>, v: seq<int>, rest: seq<int>,
                                         used: int, nextS: int, nextPtr: int)
      requires Valid() && PivotCounts(ancestors)
      requires 0 <= k < |ancestors| && ancestors[k].Valid() && 0 <= s <= m - n
      requires Handing(ancestors, k, s, cptr, l0, before, v)
      requires rest == tree.rows[n..][s..] && used == Consumed(ancestors[k].tree, rest)
      requires Fits(ancestors[k].ExtendAddTransfers(rest, used, cptr, m - n), |before|, |v|)
      requires after == Scatter(before, ancestors[k].ExtendAddTransfers(rest, used, cptr, m - n), v)
      requires nextS == s + used && nextPtr == Diagonal(nextS, m - n)
      ensures Handing(ancestors, k + 1, nextS, nextPtr, l0, after, v)
    {
      assert s == Cursor(ancestors, tree.rows[n..], k);
      assert Share(ancestors, tree.rows[n..], k, m - n) == ancestors[k].ExtendAddTransfers(rest, used, cptr, m - n);
      ScatterThen(l0, Handed(ancestors, tree.rows[n..], k, m - n), ancestors[k].ExtendAddTransfers(rest, used, cptr, m - n),
                  v, before, after);
    }

    /**
     * The distribution loop of factor: hand the generated element to each
     * ancestor in turn; each consumes a prefix of the remaining retained rows,
     * and the row cursor and the contribution pointer (kept on the diagonal)
     * advance by the columns it used.
     */
    method Distribute(lval: array<int>, contrib: array<int>, ancestors: seq<Node>, rowMap: array<int>)
      requires Valid() && m > n
      requires forall a | a in ancestors :: a.Valid() && AncestorFits(a, lval.Length) && RetainedRowsNest(a)
      requires PivotCounts(ancestors)
      requires contrib.Length == (m - n) * (m - n) && rowMap.Length == tree.maxRowIndex
      requires lval != contrib && lval != rowMap && contrib != rowMap
      modifies lval, rowMap
      ensures Fits(Distribution(ancestors, tree.rows[n..], m - n), lval.Length, contrib.Length)
      ensures lval[..] == Scatter(old(lval[..]), Distribution(ancestors, tree.rows[n..], m - n), contrib[..])
    {
      ghost var l0 := lval[..];
      var rowStart := n;
      var contribPtr := 0;
      ghost var s := 0;
      for k := 0 to |ancestors|
        invariant rowStart == n + s
        invariant Handing(ancestors, k, s, contribPtr, l0, lval[..], contrib[..])
      {
        assert ancestors[k] in ancestors;
        var used, nextPtr, nextS := HandTo(lval, contrib, ancestors, rowMap, k, rowStart, contribPtr, s, l0);
        rowStart := rowStart + used;
        contribPtr := nextPtr;
        s := nextS;
      }
    }

    /** Workspace calls of a successful factorisation that has a generated element. */
    function FactorEvents(): seq<Event>
    {
      [Acquired(Value, (m - n) * (m - n)), Acquired(Index, tree.maxRowIndex),
       Released(Index, tree.maxRowIndex), Released(Value, (m - n) * (m - n))]
    }

    /**
     * trsm then syrk: solve for the rectangular block of this node (inside
     * its block) and form the generated element in contrib.
     */
    method FormGenerated(lval: array<int>, contrib: array<int>)
      requires Valid() && BlockIn(lval.Length) && m > n
      requires contrib.Length == (m - n) * (m - n) && lval != contrib
      modifies lval, contrib
      ensures forall i | 0 <= i < lval.Length && !InBlock(i) :: lval[i] == old(lval[i])
    {
      var ldcontrib := m - n;
      CellIs(ldcontrib - 1, ldcontrib, ldcontrib);
      Trsm(lval, loffset, ldl, lval, loffset + n, m - n, n, ldl);
      forall i | 0 <= i < lval.Length && InPanel(i, loffset + n, m - n, n, ldl) ensures InBlock(i) {
        PanelBelow(i, loffset, n, m, n, ldl);
      }
      Syrk(lval, loffset + n, ldl, m - n, n, contrib);
    }

    /**
     * With both workspaces in hand: form the generated element in contrib,
     * then distribute it to the ancestors. pre is the factor array and g the
     * generated element as the distribution loop finds them.
     */
    method FormAndDistribute(lval: array<int>, contrib: array<int>, ancestors: seq<Node>, rowMap: array<int>)
      returns (ghost pre: seq<int>, ghost g: seq<int>)
      requires Valid() && BlockIn(lval.Length) && m > n
      requires forall a | a in ancestors :: a.Valid() && AncestorFits(a, lval.Length) && RetainedRowsNest(a)
      requires PivotCounts(ancestors)
      requires contrib.Length == (m - n) * (m - n) && rowMap.Length == tree.maxRowIndex
      requires lval != contrib && lval != rowMap && contrib != rowMap
      modifies lval, contrib, rowMap
      ensures |pre| == lval.Length && |g| == (m - n) * (m - n)
      ensures forall i | 0 <= i < lval.Length && !InBlock(i) :: pre[i] == old(lval[i])
      ensures Fits(Distribution(ancestors, tree.rows[n..], m - n), |pre|, |g|)
      ensures lval[..] == Scatter(pre, Distribution(ancestors, tree.rows[n..], m - n), g)
    {
      FormGenerated(lval, contrib);
      pre := lval[..];
      g := contrib[..];
      Distribute(lval, contrib, ancestors, rowMap);
    }

    /**
     * The part of factor below the diagonal block: solve for the rectangular
     * block, form the generated element in a workspace, and distribute it to
     * the ancestors with a row map as second workspace.
     */
    method Update(lval: array<int>, ancestors: seq<Node>, mem: WorkspaceManager)
      returns (ghost pre: seq<int>, ghost g: seq<int>)
      requires Valid() && BlockIn(lval.Length) && m > n
      requires forall a | a in ancestors :: a.Valid() && AncestorFits(a, lval.Length) && RetainedRowsNest(a)
      requires PivotCounts(ancestors)
      modifies lval, mem
      ensures mem.Stack == old(mem.Stack)
      ensures mem.Log == old(mem.Log) + FactorEvents()
      ensures |pre| == lval.Length && |g| == (m - n) * (m - n)
      ensures forall i | 0 <= i < lval.Length && !InBlock(i) :: pre[i] == old(lval[i])
      ensures Fits(Distribution(ancestors, tree.rows[n..], m - n), |pre|, |g|)
      ensures lval[..] == Scatter(pre, Distribution(ancestors, tree.rows[n..], m - n), g)
    {
      ghost var log0 := mem.Log;
      var contrib := mem.Get(Value, (m - n) * (m - n));
      var rowMap := mem.Get(Index, tree.maxRowIndex);
      pre, g := FormAndDistribute(lval, contrib, ancestors, rowMap);
      mem.Release(Index, rowMap, tree.maxRowIndex);
      mem.Release(Value, contrib, (m - n) * (m - n));
      LogOfFour(log0, Acquired(Value, (m - n) * (m - n)), Acquired(Index, tree.maxRowIndex),
                Released(Index, tree.maxRowIndex), Released(Value, (m - n) * (m - n)));
    }

    /**
     * factor: assemble, factorise the diagonal block, and when m > n form the
     * generated element and distribute it to the ancestors, nearest first.
     */
    method Factor(aval: array<int>, lval: array<int>, ancestors: seq<Node>, mem: WorkspaceManager)
      returns (r: Outcome, ghost info: int, ghost pre: seq<int>, ghost g: seq<int>)
      requires Valid() && BlockIn(lval.Length)
      requires forall e | e in tree.aToL :: 0 <= e.src < aval.Length
      requires aval != lval
      requires forall a | a in ancestors :: a.Valid() && AncestorFits(a, lval.Length) && RetainedRowsNest(a)
      requires PivotCounts(ancestors)
      modifies lval, mem
      ensures r == (if info == 0 then Pass else Fail(NotPositiveDefinite(info)))
      ensures mem.Stack == old(mem.Stack)
      ensures mem.Log == old(mem.Log) + (if r.Pass? && m > n then FactorEvents() else [])
      ensures r.Fail? || m == n ==>
        forall i | 0 <= i < lval.Length && !InBlock(i) :: lval[i] == old(lval[i])
      ensures r.Pass? && m > n ==>
        && |pre| == lval.Length && |g| == (m - n) * (m - n)
        && (forall i | 0 <= i < lval.Length && !InBlock(i) :: pre[i] == old(lval[i]))
        && Fits(Distribution(ancestors, tree.rows[n..], m - n), |pre|, |g|)
        && lval[..] == Scatter(pre, Distribution(ancestors, tree.rows[n..], m - n), g)
    {
      pre, g := [], [];
      AssembleA(aval, lval);
      var status := Potrf(lval, loffset, n, ldl);
      info := status;
      if status != 0 {
        r := Fail(NotPositiveDefinite(status));
        return;
      }
      r := Pass;
      if m - n > 0 {
        pre, g := Update(lval, ancestors, mem);
      }
    }

    // ------------------------------------------------------------------ solves

    /** Entries (row first+idx, rhs r) of x and (idx, r) of the local workspace, for r < nrhs. */
    function RhsRow(first: int, idx: int, nrhs: int, ldx: int, ld: int): seq<Transfer>
      requires Valid() && 0 <= first && 0 <= idx && first + idx < m && 0 <= nrhs
    {
      seq(nrhs, r requires 0 <= r < nrhs => Transfer(Cell(r, tree.rows[first + idx], ldx), Cell(r, idx, ld)))
    }

    /** The index pairs visited by a solve loop over rows first .. first+count-1, with the row loop outside and the right-hand-side loop inside. */
    function RhsTransfers(first: int, count: int, nrhs: int, ldx: int, ld: int): seq<Transfer>
      requires Valid() && 0 <= first && 0 <= count && first + count <= m && 0 <= nrhs
      decreases count
    {
      if count == 0 then []
      else RhsTransfers(first, count - 1, nrhs, ldx, ld) + RhsRow(first, count - 1, nrhs, ldx, ld)
    }

    /** The retained-row scatter of forward_solve (and gather of backward_solve), over rows n .. m-1. */
    function RetainedRhs(nrhs: int, ldx: int): seq<Transfer>
      requires Valid() && 0 <= nrhs
    {
      RhsTransfers(n, m - n, nrhs, ldx, m - n)
    }

    /** x has nrhs columns of leading dimension ldx and every row of this node is a row of x. */
    predicate RhsFits(nrhs: int, len: int, ldx: int)
      requires Valid()
    {
      0 <= nrhs && tree.rows[m - 1] < ldx && (nrhs > 0 ==> Cell(nrhs - 1, tree.rows[m - 1], ldx) < len)
    }

    /** Workspace calls of a solve: one buffer of nrhs*(m-n) values when m > n. */
    function SolveEvents(nrhs: int): seq<Event>
    {
      if m > n then [Acquired(Value, nrhs * (m - n)), Released(Value, nrhs * (m - n))] else []
    }

    /** The pivot rows' right-hand sides: rows rows[0] .. rows[0]+n-1 of all nrhs columns of x. */
    predicate InPivotRhs(i: int, nrhs: int, ldx: int)
      requires Valid() && RhsFits(nrhs, i + 1, ldx)
    {
      InPanel(i, tree.rows[0], n, nrhs, ldx)
    }

    lemma {:induction false} RhsPanelFits(nrhs: int, len: int, ldx: int)
      requires Valid() && RhsFits(nrhs, len, ldx)
      ensures PanelFits(len, tree.rows[0], n, nrhs, ldx)
      ensures forall q | 0 <= q < m :: 0 <= tree.rows[q] < ldx
    {
      assert forall q | 0 <= q < m :: tree.rows[0] <= tree.rows[q] <= tree.rows[m - 1];
      if n > 0 {
        assert tree.rows[n - 1] == tree.rows[0] + n - 1;
      }
    }

    /** Every pair a solve loop visits is (row first+idx, rhs r) of x with (idx, r) of the workspace. */
    lemma {:induction false} RhsMember(first: int, count: int, nrhs: int, ldx: int, ld: int, t: Transfer)
      requires Valid() && 0 <= first && 0 <= count && first + count <= m && 0 <= nrhs
      requires t in RhsTransfers(first, count, nrhs, ldx, ld)
      ensures exists idx, r :: (0 <= idx < count && 0 <= r < nrhs &&
        t == Transfer(Cell(r, tree.rows[first + idx], ldx), Cell(r, idx, ld)))
      decreases count
    {
      var front := RhsTransfers(first, count - 1, nrhs, ldx, ld);
      var line := RhsRow(first, count - 1, nrhs, ldx, ld);
      if t in front {
        RhsMember(first, count - 1, nrhs, ldx, ld, t);
      } else {
        assert t in line;
        var r :| 0 <= r < nrhs && line[r] == t;
        assert t == Transfer(Cell(r, tree.rows[first + (count - 1)], ldx), Cell(r, count - 1, ld));
      }
    }

    /** A solve loop over at most ld rows stays inside x and inside the nrhs x ld workspace. */
    lemma {:induction false} RhsInBounds(first: int, count: int, nrhs: int, ldx: int, ld: int, len: int)
      requires Valid() && RhsFits(nrhs, len, ldx)
      requires 0 <= first && 0 <= count && first + count <= m && count <= ld
      ensures Fits(RhsTransfers(first, count, nrhs, ldx, ld), len, nrhs * ld)
    {
      forall t | t in RhsTransfers(first, count, nrhs, ldx, ld)
        ensures 0 <= t.dest < len && 0 <= t.src < nrhs * ld
      {
        RhsMember(first, count, nrhs, ldx, ld, t);
        var idx, r :| 0 <= idx < count && 0 <= r < nrhs &&
          t == Transfer(Cell(r, tree.rows[first + idx], ldx), Cell(r, idx, ld));
        assert 0 <= tree.rows[first + idx] <= tree.rows[m - 1];
        CellInside(r, tree.rows[first + idx], nrhs, tree.rows[m - 1] + 1, ldx);
        CellInside(r, idx, nrhs, ld, ld);
      }
    }

    /**
     * Pair r of row idx of a solve loop: x[r * ldx + rows[n + idx]] and
     * xlocal[r * ld + idx], both inside their arrays.
     */
    lemma {:induction false} RhsRowEntry(idx: int, r: int, nrhs: int, ldx: int, ld: int, lenX: int, i: int, j: int)
      requires Valid() && RhsFits(nrhs, lenX, ldx) && 0 <= idx < m - n && ld == m - n && 0 <= r < nrhs
      requires i == r * ldx + tree.rows[n + idx] && j == r * ld + idx
      ensures i == Cell(r, tree.rows[n + idx], ldx) && j == Cell(r, idx, ld)
      ensures RhsRow(n, idx, nrhs, ldx, ld)[r] == Transfer(i, j)
      ensures 0 <= i < lenX && 0 <= j < nrhs * ld
    {
      RhsPanelFits(nrhs, lenX, ldx);
      assert tree.rows[n + idx] <= tree.rows[m - 1];
      CellIs(r, tree.rows[n + idx], ldx);
      CellIs(r, idx, ld);
      CellInside(r, tree.rows[n + idx], nrhs, tree.rows[m - 1] + 1, ldx);
      CellInside(r, idx, nrhs, ld, ld);
    }

    /**
     * One turn of the scatter loop of forward_solve: for every right-hand
     * side r, x at retained row n + idx receives xlocal row idx.
     */
    method AddRow(x: array<int>, xlocal: array<int>, idx: int, nrhs: int, ldx: int, ld: int, ghost mid: seq<int>)
      requires Valid() && RhsFits(nrhs, x.Length, ldx) && x != xlocal
      requires 0 <= idx < m - n && ld == m - n && xlocal.Length == nrhs * ld && |mid| == x.Length
      requires Fits(RhsTransfers(n, idx, nrhs, ldx, ld), |mid|, xlocal.Length)
      requires x[..] == Scatter(mid, RhsTransfers(n, idx, nrhs, ldx, ld), xlocal[..])
      modifies x
      ensures Fits(RhsTransfers(n, idx + 1, nrhs, ldx, ld), |mid|, xlocal.Length)
      ensures x[..] == Scatter(mid, RhsTransfers(n, idx + 1, nrhs, ldx, ld), xlocal[..])
    {
      ghost var done := RhsTransfers(n, idx, nrhs, ldx, ld);
      ghost var line := RhsRow(n, idx, nrhs, ldx, ld);
      ghost var v := xlocal[..];
      assert line[..0] == [] && done + [] == done;
      for r := 0 to nrhs
        invariant xlocal[..] == v
        invariant ScatteredPrefix(x[..], mid, done, line, r, v)
      {
        AddPair(x, xlocal, idx, r, nrhs, ldx, ld, mid, done, line);
      }
      assert line[..nrhs] == line;
    }

    /** x[r * ldx + rows[n + idx]] += xlocal[r * ld + idx]: pair r of row idx is one more transfer of RhsRow. */
    method AddPair(x: array<int>, xlocal: array<int>, idx: int, r: int, nrhs: int, ldx: int, ld: int,
                   ghost mid: seq<int>, ghost done: seq<Transfer>, ghost line: seq<Transfer>)
      requires Valid() && RhsFits(nrhs, x.Length, ldx) && x != xlocal
      requires 0 <= idx < m - n && ld == m - n && 0 <= r < nrhs && xlocal.Length == nrhs * ld && |mid| == x.Length
      requires line == RhsRow(n, idx, nrhs, ldx, ld)
      requires ScatteredPrefix(x[..], mid, done, line, r, xlocal[..])
      modifies x
      ensures ScatteredPrefix(x[..], mid, done, line, r + 1, xlocal[..])
    {
      var i := r * ldx + tree.rows[n + idx];
      var j := r * ld + idx;
      RhsRowEntry(idx, r, nrhs, ldx, ld, x.Length, i, j);
      ghost var v := xlocal[..];
      ghost var before := x[..];
      AddInto(x, i, xlocal[j]);
      ScatterPrefixStep(mid, done, line, r, v, before, x[..], i, j);
    }

    /**
     * The part of forward_solve below the diagonal block: form the update in
     * a workspace of nrhs x (m - n) values and scatter-add it into x at the
     * retained rows, row by row.
     */
    method ForwardUpdate(nrhs: int, x: array<int>, ldx: int, lval: array<int>, mem: WorkspaceManager, xdiag: int)
      returns (ghost xl: seq<int>)
      requires Valid() && RhsFits(nrhs, x.Length, ldx) && m > n && xdiag == tree.rows[0]
      modifies x, mem
      ensures mem.Stack == old(mem.Stack)
      ensures mem.Log == old(mem.Log) + SolveEvents(nrhs)
      ensures |xl| == nrhs * (m - n)
      ensures Fits(RetainedRhs(nrhs, ldx), x.Length, |xl|)
      ensures x[..] == Scatter(old(x[..]), RetainedRhs(nrhs, ldx), xl)
    {
      ghost var log0 := mem.Log;
      var ldxlocal := m - n;
      CellIs(nrhs - 1, ldxlocal, ldxlocal);
      var xlocal := mem.Get(Value, nrhs * ldxlocal);
      Gemm(lval, loffset + n, ldl, x, xdiag, ldx, xlocal, 0, m - n, nrhs, ldxlocal);
      xl := xlocal[..];
      ScatterRetained(x, xlocal, nrhs, ldx, ldxlocal);
      mem.Release(Value, xlocal, nrhs * ldxlocal);
      LogOfTwo(log0, Acquired(Value, nrhs * ldxlocal), Released(Value, nrhs * ldxlocal));
    }

    /** The distribution loop of forward_solve: scatter-add xlocal into x at every retained row. */
    method ScatterRetained(x: array<int>, xlocal: array<int>, nrhs: int, ldx: int, ld: int)
      requires Valid() && RhsFits(nrhs, x.Length, ldx) && x != xlocal
      requires m > n && ld == m - n && xlocal.Length == nrhs * ld
      modifies x
      ensures Fits(RetainedRhs(nrhs, ldx), x.Length, xlocal.Length)
      ensures x[..] == Scatter(old(x[..]), RetainedRhs(nrhs, ldx), xlocal[..])
    {
      ghost var mid := x[..];
      for idx := 0 to m - n
        invariant Fits(RhsTransfers(n, idx, nrhs, ldx, ld), |mid|, xlocal.Length)
        invariant x[..] == Scatter(mid, RhsTransfers(n, idx, nrhs, ldx, ld), xlocal[..])
      {
        AddRow(x, xlocal, idx, nrhs, ldx, ld, mid);
      }
    }

    /**
     * forward_solve: solve with the diagonal block, form the retained rows'
     * update in a workspace and scatter-add it into x at the retained rows.
     */
    method ForwardSolve(nrhs: int, x: array<int>, ldx: int, lval: array<int>, mem: WorkspaceManager)
      returns (ghost mid: seq<int>, ghost xl: seq<int>)
      requires Valid() && RhsFits(nrhs, x.Length, ldx)
      modifies x, mem
      ensures mem.Stack == old(mem.Stack)
      ensures mem.Log == old(mem.Log) + SolveEvents(nrhs)
      ensures |mid| == x.Length && |xl| == nrhs * (m - n)
      ensures forall i | 0 <= i < x.Length && !InPanel(i, tree.rows[0], n, nrhs, ldx) :: mid[i] == old(x[i])
      ensures Fits(RetainedRhs(nrhs, ldx), |mid|, |xl|)
      ensures x[..] == Scatter(mid, RetainedRhs(nrhs, ldx), xl)
    {
      RhsPanelFits(nrhs, x.Length, ldx);
      var xdiag := tree.rows[0];
      Trsm(lval, loffset, ldl, x, xdiag, n, nrhs, ldx);
      mid := x[..];
      if m - n > 0 {
        xl := ForwardUpdate(nrhs, x, ldx, lval, mem, xdiag);
      } else {
        xl := [];
      }
    }

    /** xl holds, at (r, q) of the workspace, the value xs has at retained row n + q of right-hand side r, for q < count. */
    ghost predicate Gathered(xl: seq<int>, xs: seq<int>, count: int, nrhs: int, ldx: int, ld: int)
      requires Valid() && 0 <= count <= m - n
    {
      forall q, r | 0 <= q < count && 0 <= r < nrhs ::
        && 0 <= Cell(r, q, ld) < |xl| && 0 <= Cell(r, tree.rows[n + q], ldx) < |xs|
        && xl[Cell(r, q, ld)] == xs[Cell(r, tree.rows[n + q], ldx)]
    }

    /**
     * One turn of the gather loop of backward_solve: for every right-hand
     * side r, xlocal row idx receives x at retained row n + idx.
     */
    method GatherRow(x: array<int>, xlocal: array<int>, idx: int, nrhs: int, ldx: int, ld: int)
      requires Valid() && RhsFits(nrhs, x.Length, ldx) && x != xlocal
      requires 0 <= idx < m - n && ld == m - n && xlocal.Length == nrhs * ld
      requires Gathered(xlocal[..], x[..], idx, nrhs, ldx, ld)
      modifies xlocal
      ensures Gathered(xlocal[..], x[..], idx + 1, nrhs, ldx, ld)
    {
      var row := tree.rows[n + idx];
      for r := 0 to nrhs
        invariant Gathered(xlocal[..], x[..], idx, nrhs, ldx, ld)
        invariant RowGathered(xlocal[..], x[..], idx, r, ldx, ld)
      {
        var i := r * ldx + row;
        var j := r * ld + idx;
        RhsRowEntry(idx, r, nrhs, ldx, ld, x.Length, i, j);
        ghost var before := xlocal[..];
        xlocal[j] := x[i];
        GatherStep(before, xlocal[..], x[..], idx, r, nrhs, ldx, ld, i, j);
      }
      RowGatheredAll(xlocal[..], x[..], idx, nrhs, ldx, ld);
    }

    /** xl holds, at (r', idx) of the workspace, the value xs has at retained row n + idx of right-hand side r', for r' < r. */
    ghost predicate RowGathered(xl: seq<int>, xs: seq<int>, idx: int, r: int, ldx: int, ld: int)
      requires Valid() && 0 <= idx < m - n
    {
      forall r' | 0 <= r' < r ::
        && 0 <= Cell(r', idx, ld) < |xl| && 0 <= Cell(r', tree.rows[n + idx], ldx) < |xs|
        && xl[Cell(r', idx, ld)] == xs[Cell(r', tree.rows[n + idx], ldx)]
    }

    /** Copying entry (r, row n + idx) of x into the workspace keeps the earlier rows and extends row idx by one. */
    lemma {:induction false} GatherStep(before: seq<int>, after: seq<int>, xs: seq<int>, idx: int, r: int, nrhs: int,
                                        ldx: int, ld: int, i: int, j: int)
      requires Valid() && 0 <= idx < m - n && ld == m - n && 0 <= r < nrhs && |before| == nrhs * ld
      requires i == Cell(r, tree.rows[n + idx], ldx) && j == Cell(r, idx, ld)
      requires 0 <= i < |xs| && 0 <= j < |before|
      requires Gathered(before, xs, idx, nrhs, ldx, ld) && RowGathered(before, xs, idx, r, ldx, ld)
      requires after == before[j := xs[i]]
      ensures Gathered(after, xs, idx, nrhs, ldx, ld) && RowGathered(after, xs, idx, r + 1, ldx, ld)
    {
      CellsApart(r, idx, nrhs, ld);
    }

    /** A workspace row gathered for every right-hand side completes the rows gathered so far. */
    lemma {:induction false} RowGatheredAll(xl: seq<int>, xs: seq<int>, idx: int, nrhs: int, ldx: int, ld: int)
      requires Valid() && 0 <= idx < m - n
      requires Gathered(xl, xs, idx, nrhs, ldx, ld) && RowGathered(xl, xs, idx, nrhs, ldx, ld)
      ensures Gathered(xl, xs, idx + 1, nrhs, ldx, ld)
    {
      forall q, r | 0 <= q < idx + 1 && 0 <= r < nrhs
        ensures 0 <= Cell(r, q, ld) < |xl| && 0 <= Cell(r, tree.rows[n + q], ldx) < |xs|
        ensures xl[Cell(r, q, ld)] == xs[Cell(r, tree.rows[n + q], ldx)]
      {
        if q == idx {
          assert 0 <= r < nrhs;
        }
      }
    }

    /**
     * backward_solve: gather x at the retained rows into a workspace, apply
     * the update to the pivot rows' right-hand sides, then solve with the
     * transposed diagonal block. Only the pivot rows of x change.
     */
    method BackwardSolve(nrhs: int, x: array<int>, ldx: int, lval: array<int>, mem: WorkspaceManager)
      returns (ghost xl: seq<int>)
      requires Valid() && RhsFits(nrhs, x.Length, ldx)
      modifies x, mem
      ensures mem.Stack == old(mem.Stack)
      ensures mem.Log == old(mem.Log) + SolveEvents(nrhs)
      ensures |xl| == nrhs * (m - n)
      ensures SourcesIn(RetainedRhs(nrhs, ldx), |xl|) && DestsIn(RetainedRhs(nrhs, ldx), x.Length)
      ensures forall t | t in RetainedRhs(nrhs, ldx) :: xl[t.src] == old(x[t.dest])
      ensures forall i | 0 <= i < x.Length && !InPanel(i, tree.rows[0], n, nrhs, ldx) :: x[i] == old(x[i])
    {
      RhsPanelFits(nrhs, x.Length, ldx);
      var xdiag := tree.rows[0];
      xl := [];
      if m - n > 0 {
        var ldxlocal := m - n;
        CellIs(nrhs - 1, ldxlocal, ldxlocal);
        ghost var log0 := mem.Log;
        var xlocal := mem.Get(Value, nrhs * ldxlocal);
        GatherRetained(x, xlocal, nrhs, ldx, ldxlocal);
        xl := xlocal[..];
        GatheredRhs(xl, x[..], nrhs, ldx, ldxlocal);
        Gemm(lval, loffset + n, ldl, xlocal, 0, ldxlocal, x, xdiag, n, nrhs, ldx);
        mem.Release(Value, xlocal, nrhs * ldxlocal);
        LogOfTwo(log0, Acquired(Value, nrhs * ldxlocal), Released(Value, nrhs * ldxlocal));
      }
      Trsm(lval, loffset, ldl, x, xdiag, n, nrhs, ldx);
    }

    /** The gather loop of backward_solve: copy x at every retained row into xlocal. */
    method GatherRetained(x: array<int>, xlocal: array<int>, nrhs: int, ldx: int, ld: int)
      requires Valid() && RhsFits(nrhs, x.Length, ldx) && x != xlocal
      requires m > n && ld == m - n && xlocal.Length == nrhs * ld
      modifies xlocal
      ensures Gathered(xlocal[..], x[..], m - n, nrhs, ldx, ld)
    {
      for idx := 0 to m - n
        invariant Gathered(xlocal[..], x[..], idx, nrhs, ldx, ld)
      {
        GatherRow(x, xlocal, idx, nrhs, ldx, ld);
      }
    }

    /**
     * The pairs the scatter loop of forward_solve and the gather loop of
     * backward_solve visit as written: idx runs over all m rows of the node,
     * from the first pivot on, against a workspace of m - n rows.
     */
    function AsWrittenRhs(nrhs: int, ldx: int): seq<Transfer>
      requires Valid() && 0 <= nrhs
    {
      RhsTransfers(0, m, nrhs, ldx, m - n)
    }

    /**
     * The update of backward_solve as written: gemm accumulates into the
     * n x nrhs panel at the start of x instead of the one at xdiag. Whenever
     * the first pivot row is at least n, the pivot rows of x do not see it.
     */
    method BackwardUpdateAsWritten(nrhs: int, x: array<int>, ldx: int, lval: array<int>, xlocal: array<int>)
      requires Valid() && RhsFits(nrhs, x.Length, ldx) && m > n && tree.rows[0] >= n
      requires xlocal.Length == nrhs * (m - n)
      modifies x
      ensures forall i | 0 <= i < x.Length && InPanel(i, tree.rows[0], n, nrhs, ldx) :: x[i] == old(x[i])
    {
      RhsPanelFits(nrhs, x.Length, ldx);
      PivotRowsApart(nrhs, x.Length, ldx);
      Gemm(lval, loffset + n, ldl, xlocal, 0, m - n, x, 0, n, nrhs, ldx);
    }

    /**
     * When the first pivot row is at least n, the panel of the pivot rows'
     * right-hand sides and the panel at the start of x share no entry, and
     * the latter fits in x too.
     */
    lemma {:induction false} PivotRowsApart(nrhs: int, len: int, ldx: int)
      requires Valid() && RhsFits(nrhs, len, ldx) && tree.rows[0] >= n
      ensures PanelFits(len, 0, n, nrhs, ldx)
      ensures forall i | InPanel(i, tree.rows[0], n, nrhs, ldx) :: !InPanel(i, 0, n, nrhs, ldx)
    {
      RhsPanelFits(nrhs, len, ldx);
      if n > 0 && nrhs > 0 {
        assert tree.rows[n - 1] == tree.rows[0] + n - 1 <= tree.rows[m - 1];
        CellIs(nrhs - 1, n, ldx);
        CellIs(nrhs - 1, tree.rows[m - 1], ldx);
      }
      if n > 0 {
        assert tree.rows[n - 1] == tree.rows[0] + n - 1 <= tree.rows[m - 1];
      }
      forall i | InPanel(i, tree.rows[0], n, nrhs, ldx) ensures !InPanel(i, 0, n, nrhs, ldx) {
        PanelsApart(i, tree.rows[0], n, nrhs, ldx);
      }
    }

    /** Once every retained row is gathered, every pair of the gather loop holds its x value. */
    lemma {:induction false} GatheredRhs(xl: seq<int>, xs: seq<int>, nrhs: int, ldx: int, ld: int)
      requires Valid() && 0 <= nrhs && ld == m - n
      requires Gathered(xl, xs, m - n, nrhs, ldx, ld)
      ensures SourcesIn(RetainedRhs(nrhs, ldx), |xl|) && DestsIn(RetainedRhs(nrhs, ldx), |xs|)
      ensures forall t | t in RetainedRhs(nrhs, ldx) :: xl[t.src] == xs[t.dest]
    {
      forall t | t in RetainedRhs(nrhs, ldx)
        ensures 0 <= t.src < |xl| && 0 <= t.dest < |xs| && xl[t.src] == xs[t.dest]
      {
        RhsMember(n, m - n, nrhs, ldx, ld, t);
      }
    }
  }

  // ------------------------------------------------------------ distribution

  /** Each ancestor has between 0 and its row count pivots: all Consumed asks of it. */
  ghost predicate PivotCounts(ancs: seq<Node>)
  {
    forall k | 0 <= k < |ancs| :: 0 <= ancs[k].tree.ncol <= |ancs[k].tree.rows|
  }

  /**
   * Rows of the generated element consumed by the first k ancestors of the
   * distribution loop in factor: the running sum of their used_cols, i.e. how
   * far row_start has advanced past the pivots.
   */
  ghost function Cursor(ancs: seq<Node>, rows: seq<int>, k: int): (s: int)
    requires PivotCounts(ancs)
    requires 0 <= k <= |ancs|
    ensures 0 <= s <= |rows|
    decreases k
  {
    if k == 0 then 0
    else
      var s := Cursor(ancs, rows, k - 1);
      s + Consumed(ancs[k - 1].tree, rows[s..])
  }

  /**
   * What ancestor k receives: the columns it owns at the front of the rows
   * still to be handed out, read from the contribution block at the diagonal
   * entry of the first of them.
   */
  ghost function Share(ancs: seq<Node>, rows: seq<int>, k: int, ld: int): seq<Transfer>
    requires PivotCounts(ancs)
    requires 0 <= k < |ancs|
  {
    var s := Cursor(ancs, rows, k);
    ancs[k].ExtendAddTransfers(rows[s..], Consumed(ancs[k].tree, rows[s..]), Diagonal(s, ld), ld)
  }

  /** Everything handed to the first k ancestors, in the order the loop hands it out. */
  ghost function Handed(ancs: seq<Node>, rows: seq<int>, k: int, ld: int): seq<Transfer>
    requires PivotCounts(ancs)
    requires 0 <= k <= |ancs|
    decreases k
  {
    if k == 0 then [] else Handed(ancs, rows, k - 1, ld) + Share(ancs, rows, k - 1, ld)
  }

  /** The transfers of the whole distribution loop in factor. */
  ghost function Distribution(ancs: seq<Node>, rows: seq<int>, ld: int): seq<Transfer>
    requires PivotCounts(ancs)
  {
    Handed(ancs, rows, |ancs|, ld)
  }

  /** Offset of the diagonal entry of column i in a block with leading dimension ld: i * (ld + 1). */
  function Diagonal(i: int, ld: int): int
  {
    Stride(i, ld + 1)
  }

  lemma {:induction false} DiagonalIs(i: int, ld: int)
    ensures Diagonal(i, ld) == i * (ld + 1)
  {
    StrideIs(i, ld + 1);
  }

  /** Moving down the diagonal by a and then by b is moving by a + b. */
  lemma {:induction false} DiagonalAdd(a: int, b: int, c: int, ld: int)
    requires 0 <= a && 0 <= b && c == a + b
    ensures Diagonal(c, ld) == Diagonal(a, ld) + Diagonal(b, ld)
  {
    StrideAdd(a, b, c, ld + 1);
  }

  /** Diagonal offsets are never negative. */
  lemma {:induction false} DiagonalNonneg(i: int, ld: int)
    requires 0 <= i && 0 <= ld
    ensures 0 <= Diagonal(i, ld)
  {
    DiagonalIs(i, ld);
    MulAtLeast(i, 0, ld + 1);
  }

  /**
   * In an ld x ld contribution block, the diagonal entry of column i is not
   * negative, and the last of the c rows from there on is inside the block.
   */
  lemma {:induction false} DiagonalInside(i: int, c: int, ld: int)
    requires 0 <= i && 0 <= c && i + c == ld
    ensures 0 <= Diagonal(i, ld)
    ensures c > 0 ==> Diagonal(i, ld) + Diagonal(c - 1, ld) < ld * ld
  {
    DiagonalIs(i, ld);
    MulAtLeast(i, 0, ld + 1);
    if c > 0 {
      DiagonalAdd(i, c - 1, ld - 1, ld);
      DiagonalIs(ld - 1, ld);
      assert (ld - 1) * (ld + 1) == ld * ld - 1;
    }
  }

  /**
   * The step of the distribution loop's read pointer: moving used columns
   * along the diagonal takes it from the diagonal entry of column s to that
   * of column t = s + used.
   */
  method AdvanceDiagonal(ptr: int, ghost s: int, used: int, ghost t: int, ld: int) returns (next: int)
    requires 0 <= s && 0 <= used && t == s + used && ptr == Diagonal(s, ld)
    ensures next == Diagonal(t, ld)
  {
    DiagonalIs(used, ld);
    next := ptr + used * (ld + 1);
    DiagonalAdd(s, used, t, ld);
  }

  /** In an nrhs x ld workspace, entry (r, idx) is at an address no other entry shares. */
  lemma {:induction false} CellsApart(r: int, idx: int, nrhs: int, ld: int)
    requires 0 <= idx < ld && 0 <= r < nrhs
    ensures forall q, r' | 0 <= q < ld && 0 <= r' < nrhs && (q != idx || r' != r) ::
      Cell(r', q, ld) != Cell(r, idx, ld)
  {
    forall q, r' | 0 <= q < ld && 0 <= r' < nrhs && Cell(r', q, ld) == Cell(r, idx, ld)
      ensures q == idx && r' == r
    {
      CellUnique(r', q, r, idx, ld);
    }
  }
}
