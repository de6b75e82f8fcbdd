/**
 * What the node kernel's scatter-adds mean, cell by cell: the assembly of the
 * original entries, one call of add_contribution on an ancestor, the
 * distribution of the generated element over the ancestors, and the retained
 * rows' update of forward_solve. Also the two places where the solves as
 * written disagree with their intent.
 */
module NodeProperties {
  import opened ScatterAdd
  import opened AssemblyTree
  import opened Kernels
  import opened Ics

  // ---------------------------------------------------------------- assembly

  /** Sum of a[e.src] over the entries e that land on cell k: loffset + e.destCol * ldl + e.destRow. */
  function EntrySum(entries: seq<Entry>, a: seq<int>, k: int, loffset: int, ldl: int): int
    requires forall e | e in entries :: 0 <= e.src < |a|
    decreases |entries|
  {
    if entries == [] then 0
    else
      var e := entries[|entries| - 1];
      assert e in entries;
      EntrySum(entries[..|entries| - 1], a, k, loffset, ldl)
        + (if loffset + e.destCol * ldl + e.destRow == k then a[e.src] else 0)
  }

  /** The first p assembly transfers send to cell k the sum over the first p entries. */
  lemma {:induction false} AssemblyReceived(node: Node, a: seq<int>, k: int, p: int)
    requires node.Valid() && forall e | e in node.tree.aToL :: 0 <= e.src < |a|
    requires 0 <= p <= |node.tree.aToL|
    ensures SourcesIn(node.AssemblyTransfers()[..p], |a|)
    ensures forall e | e in node.tree.aToL[..p] :: 0 <= e.src < |a|
    ensures Received(node.AssemblyTransfers()[..p], a, k) == EntrySum(node.tree.aToL[..p], a, k, node.loffset, node.ldl)
    decreases p
  {
    var ts := node.AssemblyTransfers();
    var es := node.tree.aToL;
    assert forall e | e in es[..p] :: e in es;
    forall t | t in ts[..p] ensures 0 <= t.src < |a| {
      var q :| 0 <= q < p && ts[..p][q] == t;
      assert es[q] in es;
    }
    if p > 0 {
      AssemblyReceived(node, a, k, p - 1);
      assert ts[..p][..p - 1] == ts[..p - 1];
      assert es[..p][..p - 1] == es[..p - 1];
      CellIs(es[p - 1].destCol, es[p - 1].destRow, node.ldl);
    }
  }

  /**
   * The assembly loop of factor leaves in every cell of the factor array its
   * old value plus aval[src] of every a-to-l entry that targets it; repeated
   * targets accumulate and a cell no entry targets keeps its value.
   */
  lemma {:induction false} AssembledCell(node: Node, l: seq<int>, a: seq<int>, k: int)
    requires node.Valid() && node.BlockIn(|l|)
    requires forall e | e in node.tree.aToL :: 0 <= e.src < |a|
    requires 0 <= k < |l|
    ensures Fits(node.AssemblyTransfers(), |l|, |a|)
    ensures Scatter(l, node.AssemblyTransfers(), a)[k] == l[k] + EntrySum(node.tree.aToL, a, k, node.loffset, node.ldl)
  {
    node.AssemblyInBlock(|l|, |a|);
    var ts := node.AssemblyTransfers();
    ScatterAt(l, ts, a, k);
    AssemblyReceived(node, a, k, |ts|);
    assert ts[..|ts|] == ts;
    assert node.tree.aToL[..|ts|] == node.tree.aToL;
  }

  // -------------------------------------------------------------- extend-add

  /** Entry d of column j, at row i = j + d. */
  lemma {:induction false} ColumnAt(anc: Node, rows: seq<int>, j: int, cptr: int, ld: int, d: int, i: int)
    requires 0 <= j && 0 <= d && i == j + d < |rows|
    ensures anc.ColumnTransfers(rows, j, cptr, ld)[d] == Transfer(anc.Dest(rows[j], rows[i]), cptr + Diagonal(j, ld) + d)
  {
  }

  /**
   * Every transfer of add_contribution over the first c columns is entry
   * (i, j), j < c, j <= i, of the contribution block, read from column j at
   * offset i - j below its diagonal and added into the ancestor's cell
   * (rows[i], rows[j]).
   */
  lemma {:induction false} ExtendAddMember(anc: Node, rows: seq<int>, c: int, cptr: int, ld: int, t: Transfer)
    returns (j: int, i: int)
    requires 0 <= c <= |rows| && t in anc.ExtendAddTransfers(rows, c, cptr, ld)
    ensures 0 <= j < c && j <= i < |rows|
    ensures t == Transfer(anc.Dest(rows[j], rows[i]), cptr + Diagonal(j, ld) + (i - j))
    decreases c
  {
    var last := c - 1;
    var col := anc.ColumnTransfers(rows, last, cptr, ld);
    assert anc.ExtendAddTransfers(rows, c, cptr, ld) == anc.ExtendAddTransfers(rows, last, cptr, ld) + col;
    if t in col {
      var d :| 0 <= d < |col| && col[d] == t;
      j, i := last, last + d;
      ColumnAt(anc, rows, j, cptr, ld, d, i);
    } else {
      j, i := ExtendAddMember(anc, rows, last, cptr, ld, t);
    }
  }

  /** Conversely, every entry (i, j), j < c, j <= i, is a transfer of add_contribution over the first c columns. */
  lemma {:induction false} ExtendAddHas(anc: Node, rows: seq<int>, c: int, cptr: int, ld: int, j: int, i: int)
    requires 0 <= j < c <= |rows| && j <= i < |rows|
    ensures Transfer(anc.Dest(rows[j], rows[i]), cptr + Diagonal(j, ld) + (i - j)) in anc.ExtendAddTransfers(rows, c, cptr, ld)
    decreases c
  {
    var last := c - 1;
    var col := anc.ColumnTransfers(rows, last, cptr, ld);
    assert anc.ExtendAddTransfers(rows, c, cptr, ld) == anc.ExtendAddTransfers(rows, last, cptr, ld) + col;
    if j < last {
      ExtendAddHas(anc, rows, last, cptr, ld, j, i);
    } else {
      var d := i - j;
      ColumnAt(anc, rows, j, cptr, ld, d, i);
      assert col[d] in col;
    }
  }

  /**
   * The transfers of add_contribution over the first c columns, both ways:
   * exactly the entries (i, j), j < c, j <= i, of the contribution block read
   * from column j at offset i - j below its diagonal, each into the ancestor's
   * cell (rows[i], rows[j]).
   */
  lemma {:induction false} ExtendAddEntries(anc: Node, rows: seq<int>, c: int, cptr: int, ld: int, t: Transfer)
    requires 0 <= c <= |rows|
    ensures t in anc.ExtendAddTransfers(rows, c, cptr, ld) <==>
      exists j, i | 0 <= j < c && j <= i < |rows| ::
        t == Transfer(anc.Dest(rows[j], rows[i]), cptr + Diagonal(j, ld) + (i - j))
  {
    if t in anc.ExtendAddTransfers(rows, c, cptr, ld) {
      var j, i := ExtendAddMember(anc, rows, c, cptr, ld, t);
    }
    if exists j, i | 0 <= j < c && j <= i < |rows| ::
         t == Transfer(anc.Dest(rows[j], rows[i]), cptr + Diagonal(j, ld) + (i - j)) {
      var j, i :| 0 <= j < c && j <= i < |rows| &&
        t == Transfer(anc.Dest(rows[j], rows[i]), cptr + Diagonal(j, ld) + (i - j));
      ExtendAddHas(anc, rows, c, cptr, ld, j, i);
    }
  }

  /** Two cells (rows[i], rows[j]) of an ancestor coincide only for the same i and j. */
  lemma {:induction false} DestApart(anc: Node, rows: seq<int>, j: int, i: int, j2: int, i2: int)
    requires anc.Valid() && Ascending(rows) && forall r | r in rows :: r in anc.tree.rows
    requires 0 <= j < |rows| && 0 <= i < |rows| && 0 <= j2 < |rows| && 0 <= i2 < |rows|
    requires anc.Dest(rows[j], rows[i]) == anc.Dest(rows[j2], rows[i2])
    ensures j == j2 && i == i2
  {
    assert rows[j] in rows && rows[i] in rows && rows[j2] in rows && rows[i2] in rows;
    CellUnique(IndexOf(anc.tree.rows, rows[j]), IndexOf(anc.tree.rows, rows[i]),
               IndexOf(anc.tree.rows, rows[j2]), IndexOf(anc.tree.rows, rows[i2]), anc.ldl);
    assert rows[j] == rows[j2] && rows[i] == rows[i2];
    if j < j2 || j2 < j || i < i2 || i2 < i {
      assert false;
    }
  }

  /** One column of add_contribution writes each of its cells once. */
  lemma {:induction false} ColumnDistinct(anc: Node, rows: seq<int>, j: int, cptr: int, ld: int)
    requires anc.Valid() && Ascending(rows) && forall r | r in rows :: r in anc.tree.rows
    requires 0 <= j < |rows|
    ensures DestsDistinct(anc.ColumnTransfers(rows, j, cptr, ld))
  {
    var col := anc.ColumnTransfers(rows, j, cptr, ld);
    forall p, q | 0 <= p < q < |col| ensures col[p].dest != col[q].dest {
      var ip, iq := j + p, j + q;
      ColumnAt(anc, rows, j, cptr, ld, p, ip);
      ColumnAt(anc, rows, j, cptr, ld, q, iq);
      if col[p].dest == col[q].dest {
        DestApart(anc, rows, j, ip, j, iq);
      }
    }
  }

  /** Column j of add_contribution writes no cell that an earlier column wrote. */
  lemma {:induction false} ColumnAfter(anc: Node, rows: seq<int>, j: int, cptr: int, ld: int, t: Transfer, u: Transfer)
    requires anc.Valid() && Ascending(rows) && forall r | r in rows :: r in anc.tree.rows
    requires 0 <= j < |rows|
    requires t in anc.ExtendAddTransfers(rows, j, cptr, ld) && u in anc.ColumnTransfers(rows, j, cptr, ld)
    ensures t.dest != u.dest
  {
    var j1, i1 := ExtendAddMember(anc, rows, j, cptr, ld, t);
    var col := anc.ColumnTransfers(rows, j, cptr, ld);
    var d :| 0 <= d < |col| && col[d] == u;
    var i2 := j + d;
    ColumnAt(anc, rows, j, cptr, ld, d, i2);
    if t.dest == u.dest {
      DestApart(anc, rows, j1, i1, j, i2);
    }
  }

  /** One call of add_contribution never writes a cell of the ancestor twice. */
  lemma {:induction false} ExtendAddDistinct(anc: Node, rows: seq<int>, c: int, cptr: int, ld: int)
    requires anc.Valid() && Ascending(rows) && forall r | r in rows :: r in anc.tree.rows
    requires 0 <= c <= |rows|
    ensures DestsDistinct(anc.ExtendAddTransfers(rows, c, cptr, ld))
    decreases c
  {
    if c > 0 {
      var j := c - 1;
      ExtendAddDistinct(anc, rows, j, cptr, ld);
      ColumnDistinct(anc, rows, j, cptr, ld);
      var front := anc.ExtendAddTransfers(rows, j, cptr, ld);
      var col := anc.ColumnTransfers(rows, j, cptr, ld);
      forall t, u | t in front && u in col ensures t.dest != u.dest {
        ColumnAfter(anc, rows, j, cptr, ld, t, u);
      }
      DestsDistinctAppend(front, col);
    }
  }

  /**
   * add_contribution on an ancestor that consumes c columns adds
   * contrib[cptr + j * (ld + 1) + (i - j)] into the ancestor's cell
   * (rows[i], rows[j]), exactly once, for every consumed column j and every
   * row i from j on.
   */
  lemma {:induction false} ExtendAddCell(anc: Node, l: seq<int>, rows: seq<int>, c: int, cptr: int, ld: int, v: seq<int>,
                                         j: int, i: int)
    requires anc.Valid() && Ascending(rows) && anc.RowsCovered(rows)
    requires 0 <= c <= Consumed(anc.tree, rows)
    requires Fits(anc.ExtendAddTransfers(rows, c, cptr, ld), |l|, |v|)
    requires 0 <= j < c && j <= i < |rows|
    ensures 0 <= anc.Dest(rows[j], rows[i]) < |l| && 0 <= cptr + j * (ld + 1) + (i - j) < |v|
    ensures Scatter(l, anc.ExtendAddTransfers(rows, c, cptr, ld), v)[anc.Dest(rows[j], rows[i])]
         == l[anc.Dest(rows[j], rows[i])] + v[cptr + j * (ld + 1) + (i - j)]
  {
    CoveredRows(anc, rows, c);
    var dest, src := ExtendAddCellAt(anc, l, rows, c, cptr, ld, v, j, i);
    DiagonalIs(j, ld);
    assert src == cptr + j * (ld + 1) + (i - j);
  }

  /** An ancestor that consumes a column of the retained rows holds all of them. */
  lemma {:induction false} CoveredRows(anc: Node, rows: seq<int>, c: int)
    requires anc.Valid() && anc.RowsCovered(rows)
    requires 0 < c <= Consumed(anc.tree, rows)
    ensures forall r | r in rows :: r in anc.tree.rows
  {
    assert ContainsColumn(anc.tree, rows[0]);
  }

  /** ExtendAddCell with the rows known to be the ancestor's and the source offset left as a diagonal. */
  lemma {:induction false} ExtendAddCellAt(anc: Node, l: seq<int>, rows: seq<int>, c: int, cptr: int, ld: int, v: seq<int>,
                                           j: int, i: int) returns (dest: int, src: int)
    requires anc.Valid() && Ascending(rows) && forall r | r in rows :: r in anc.tree.rows
    requires 0 <= j < c <= |rows| && j <= i < |rows|
    requires Fits(anc.ExtendAddTransfers(rows, c, cptr, ld), |l|, |v|)
    ensures dest == anc.Dest(rows[j], rows[i]) && src == cptr + Diagonal(j, ld) + (i - j)
    ensures 0 <= dest < |l| && 0 <= src < |v|
    ensures Scatter(l, anc.ExtendAddTransfers(rows, c, cptr, ld), v)[dest] == l[dest] + v[src]
  {
    dest, src := anc.Dest(rows[j], rows[i]), cptr + Diagonal(j, ld) + (i - j);
    var ts := anc.ExtendAddTransfers(rows, c, cptr, ld);
    ExtendAddHas(anc, rows, c, cptr, ld, j, i);
    ExtendAddDistinct(anc, rows, c, cptr, ld);
    ScatterMember(l, ts, v, Transfer(dest, src));
  }

  /** add_contribution changes no cell other than the cells (rows[i], rows[j]) of its consumed columns. */
  lemma {:induction false} ExtendAddElsewhere(anc: Node, l: seq<int>, rows: seq<int>, c: int, cptr: int, ld: int,
                                              v: seq<int>, k: int)
    requires 0 <= c <= |rows| && Fits(anc.ExtendAddTransfers(rows, c, cptr, ld), |l|, |v|) && 0 <= k < |l|
    requires forall j, i | 0 <= j < c && j <= i < |rows| :: anc.Dest(rows[j], rows[i]) != k
    ensures Scatter(l, anc.ExtendAddTransfers(rows, c, cptr, ld), v)[k] == l[k]
  {
    forall t | t in anc.ExtendAddTransfers(rows, c, cptr, ld) ensures t.dest != k {
      var j, i := ExtendAddMember(anc, rows, c, cptr, ld, t);
    }
    ScatterOutside(l, anc.ExtendAddTransfers(rows, c, cptr, ld), v, k);
  }

  /**
   * add_contribution reads the contribution block only on or below its
   * diagonal: every source is entry (i, j), j <= i, of the ld x ld block at cptr.
   */
  lemma {:induction false} ExtendAddReadsLower(anc: Node, rows: seq<int>, c: int, cptr: int, ld: int, t: Transfer)
    requires 0 <= c <= |rows| && t in anc.ExtendAddTransfers(rows, c, cptr, ld)
    ensures exists j, i | 0 <= j < c && j <= i < |rows| :: t.src == cptr + Cell(j, i, ld)
  {
    var j, i := ExtendAddMember(anc, rows, c, cptr, ld, t);
    DiagonalIs(j, ld);
    CellIs(j, i, ld);
  }

  // ------------------------------------------------------------ distribution

  /** row_start never moves back: the cursor after k1 ancestors is at most the cursor after k2 >= k1. */
  lemma {:induction false} CursorMonotone(ancs: seq<Node>, rows: seq<int>, k1: int, k2: int)
    requires PivotCounts(ancs)
    requires 0 <= k1 <= k2 <= |ancs|
    ensures Cursor(ancs, rows, k1) <= Cursor(ancs, rows, k2)
    decreases k2
  {
    if k1 < k2 {
      CursorMonotone(ancs, rows, k1, k2 - 1);
    }
  }

  /**
   * The distribution loop does not stop once the retained rows are used up:
   * every later ancestor is still called, on an empty range, consumes
   * nothing and receives nothing.
   */
  lemma {:induction false} Exhausted(ancs: seq<Node>, rows: seq<int>, k: int, k2: int, ld: int)
    requires PivotCounts(ancs)
    requires 0 <= k <= k2 <= |ancs| && Cursor(ancs, rows, k) == |rows|
    ensures Cursor(ancs, rows, k2) == |rows|
    ensures Handed(ancs, rows, k2, ld) == Handed(ancs, rows, k, ld)
    ensures k2 < |ancs| ==> Share(ancs, rows, k2, ld) == []
    decreases k2
  {
    if k < k2 {
      var prev := k2 - 1;
      Exhausted(ancs, rows, k, prev, ld);
      ShareAtEnd(ancs, rows, prev, ld);
      CursorNext(ancs, rows, prev, k2);
      HandedNext(ancs, rows, prev, k2, ld);
      assert Handed(ancs, rows, prev, ld) + [] == Handed(ancs, rows, prev, ld);
    }
    if k2 < |ancs| {
      ShareAtEnd(ancs, rows, k2, ld);
    }
  }

  /** An ancestor reached with the rows used up consumes nothing and receives nothing. */
  lemma {:induction false} ShareAtEnd(ancs: seq<Node>, rows: seq<int>, k: int, ld: int)
    requires PivotCounts(ancs)
    requires 0 <= k < |ancs| && Cursor(ancs, rows, k) == |rows|
    ensures Consumed(ancs[k].tree, rows[Cursor(ancs, rows, k)..]) == 0
    ensures Share(ancs, rows, k, ld) == []
  {
    assert rows[|rows|..] == [];
  }

  /** Column j handed out from cptr reads, in increasing order, the entries from its diagonal to the next one. */
  lemma {:induction false} ColumnReadsAscending(anc: Node, rows: seq<int>, j: int, cptr: int, ld: int)
    requires 0 <= j < |rows| <= ld
    ensures SourcesAscending(anc.ColumnTransfers(rows, j, cptr, ld))
    ensures SourcesWithin(anc.ColumnTransfers(rows, j, cptr, ld), cptr + Diagonal(j, ld), cptr + Diagonal(j + 1, ld))
  {
    DiagonalAdd(j, 1, j + 1, ld);
    assert Diagonal(1, ld) == ld + 1;
  }

  /** The first c columns handed out from cptr read, in increasing order, below cptr + Diagonal(c, ld). */
  lemma {:induction false} ExtendAddReadsAscending(anc: Node, rows: seq<int>, c: int, cptr: int, ld: int)
    requires 0 <= c <= |rows| <= ld
    ensures SourcesAscending(anc.ExtendAddTransfers(rows, c, cptr, ld))
    ensures SourcesWithin(anc.ExtendAddTransfers(rows, c, cptr, ld), cptr, cptr + Diagonal(c, ld))
    decreases c
  {
    if c > 0 {
      ExtendAddReadsAscending(anc, rows, c - 1, cptr, ld);
      ColumnReadsAscending(anc, rows, c - 1, cptr, ld);
      DiagonalAdd(c - 1, 1, c, ld);
      assert Diagonal(1, ld) == ld + 1;
      MulAtLeast(c - 1, 0, ld + 1);
      DiagonalIs(c - 1, ld);
      SourcesAscendingAppend(anc.ExtendAddTransfers(rows, c - 1, cptr, ld), anc.ColumnTransfers(rows, c - 1, cptr, ld),
                             cptr, cptr + Diagonal(c - 1, ld), cptr + Diagonal(c, ld));
    }
  }

  /** What the first k ancestors receive is read in increasing order from below the diagonal of column Cursor(k). */
  lemma {:induction false} HandedReadsAscending(ancs: seq<Node>, rows: seq<int>, k: int, ld: int)
    requires PivotCounts(ancs)
    requires 0 <= k <= |ancs| && |rows| <= ld
    ensures SourcesAscending(Handed(ancs, rows, k, ld))
    ensures SourcesWithin(Handed(ancs, rows, k, ld), 0, Diagonal(Cursor(ancs, rows, k), ld))
    decreases k
  {
    if k > 0 {
      HandedReadsAscending(ancs, rows, k - 1, ld);
      var s := Cursor(ancs, rows, k - 1);
      var rest := rows[s..];
      var used := Consumed(ancs[k - 1].tree, rest);
      var cptr := Diagonal(s, ld);
      var e := s + used;
      var h := Handed(ancs, rows, k - 1, ld);
      var sh := ancs[k - 1].ExtendAddTransfers(rest, used, cptr, ld);
      assert Handed(ancs, rows, k, ld) == h + sh;
      assert Cursor(ancs, rows, k) == e;
      ExtendAddReadsAscending(ancs[k - 1], rest, used, cptr, ld);
      DiagonalAdd(s, used, e, ld);
      DiagonalNonneg(s, ld);
      DiagonalNonneg(used, ld);
      SourcesAscendingAppend(h, sh, 0, cptr, Diagonal(e, ld));
    }
  }

  /**
   * The distribution loop reads each entry of the generated element at most
   * once: its sources strictly increase, and all lie before the diagonal
   * entry of the first column no ancestor consumed.
   */
  lemma {:induction false} DistributionReadsOnce(ancs: seq<Node>, rows: seq<int>, ld: int)
    requires PivotCounts(ancs)
    requires |rows| <= ld
    ensures SourcesAscending(Distribution(ancs, rows, ld))
    ensures SourcesWithin(Distribution(ancs, rows, ld), 0, Diagonal(Cursor(ancs, rows, |ancs|), ld))
  {
    HandedReadsAscending(ancs, rows, |ancs|, ld);
  }

  /**
   * The ancestor whose share holds column j: the cursor passes j during its
   * turn, and during no other ancestor's turn.
   */
  lemma {:induction false} Owner(ancs: seq<Node>, rows: seq<int>, bound: int, j: int) returns (k: int)
    requires PivotCounts(ancs)
    requires 0 <= bound <= |ancs| && 0 <= j < Cursor(ancs, rows, bound)
    ensures 0 <= k < bound && Cursor(ancs, rows, k) <= j < Cursor(ancs, rows, k + 1)
    ensures forall k2 | 0 <= k2 < bound && Cursor(ancs, rows, k2) <= j < Cursor(ancs, rows, k2 + 1) :: k2 == k
    decreases bound
  {
    assert Cursor(ancs, rows, 0) == 0;
    var prev := bound - 1;
    if Cursor(ancs, rows, prev) <= j {
      k := prev;
    } else {
      k := Owner(ancs, rows, prev, j);
    }
    forall k2 | 0 <= k2 < bound && Cursor(ancs, rows, k2) <= j < Cursor(ancs, rows, k2 + 1)
      ensures k2 == k
    {
      if k < k2 {
        CursorMonotone(ancs, rows, k + 1, k2);
      }
      if k2 < k {
        CursorMonotone(ancs, rows, k2 + 1, k);
      }
    }
  }

  /** One more turn of the distribution loop advances the cursor by what the next ancestor consumes. */
  lemma {:induction false} CursorNext(ancs: seq<Node>, rows: seq<int>, k: int, next: int)
    requires PivotCounts(ancs)
    requires 0 <= k < |ancs| && next == k + 1
    ensures Cursor(ancs, rows, next) == Cursor(ancs, rows, k) + Consumed(ancs[k].tree, rows[Cursor(ancs, rows, k)..])
  {
  }

  /** One more turn of the distribution loop appends the next share. */
  lemma {:induction false} HandedNext(ancs: seq<Node>, rows: seq<int>, k: int, next: int, ld: int)
    requires PivotCounts(ancs)
    requires 0 <= k < |ancs| && next == k + 1
    ensures Handed(ancs, rows, next, ld) == Handed(ancs, rows, k, ld) + Share(ancs, rows, k, ld)
  {
  }

  /** What the first a ancestors receive stays handed out as the loop goes on. */
  lemma {:induction false} HandedGrows(ancs: seq<Node>, rows: seq<int>, a: int, b: int, ld: int, t: Transfer)
    requires PivotCounts(ancs)
    requires 0 <= a <= b <= |ancs| && t in Handed(ancs, rows, a, ld)
    ensures t in Handed(ancs, rows, b, ld)
    decreases b
  {
    if a < b {
      var prev := b - 1;
      HandedGrows(ancs, rows, a, prev, ld, t);
      HandedNext(ancs, rows, prev, b, ld);
    }
  }

  /** What one ancestor receives is part of what the loop hands out. */
  lemma {:induction false} ShareHanded(ancs: seq<Node>, rows: seq<int>, k: int, bound: int, ld: int, t: Transfer)
    requires PivotCounts(ancs)
    requires 0 <= k < bound <= |ancs| && t in Share(ancs, rows, k, ld)
    ensures t in Handed(ancs, rows, bound, ld)
  {
    var next := k + 1;
    HandedNext(ancs, rows, k, next, ld);
    HandedGrows(ancs, rows, next, bound, ld, t);
  }

  /**
   * When the ancestors consume every retained row, each entry (i, j), j <= i,
   * of the generated element is delivered: the ancestor owning column rows[j]
   * receives it, from offset j * (ld + 1) + (i - j), at its cell (rows[i], rows[j]).
   */
  lemma {:induction false} DistributionCovers(ancs: seq<Node>, rows: seq<int>, ld: int, j: int, i: int)
    requires PivotCounts(ancs)
    requires Cursor(ancs, rows, |ancs|) == |rows| && 0 <= j <= i < |rows|
    ensures exists k | 0 <= k < |ancs| ::
      && ContainsColumn(ancs[k].tree, rows[j])
      && Transfer(ancs[k].Dest(rows[j], rows[i]), j * (ld + 1) + (i - j)) in Share(ancs, rows, k, ld)
    ensures exists a | a in ancs :: Transfer(a.Dest(rows[j], rows[i]), j * (ld + 1) + (i - j)) in Distribution(ancs, rows, ld)
  {
    var k := Owner(ancs, rows, |ancs|, j);
    var t := OwnerReceives(ancs, rows, ld, k, j, i);
    ShareHanded(ancs, rows, k, |ancs|, ld, t);
  }

  /** The ancestor whose turn passes column j owns it and receives entry (i, j). */
  lemma {:induction false} OwnerReceives(ancs: seq<Node>, rows: seq<int>, ld: int, k: int, j: int, i: int) returns (t: Transfer)
    requires PivotCounts(ancs)
    requires 0 <= k < |ancs| && Cursor(ancs, rows, k) <= j < Cursor(ancs, rows, k + 1) && j <= i < |rows|
    ensures t == Transfer(ancs[k].Dest(rows[j], rows[i]), j * (ld + 1) + (i - j))
    ensures ContainsColumn(ancs[k].tree, rows[j]) && t in Share(ancs, rows, k, ld)
  {
    var s := Cursor(ancs, rows, k);
    var rest := rows[s..];
    var used := Consumed(ancs[k].tree, rest);
    var cptr := Diagonal(s, ld);
    assert Cursor(ancs, rows, k + 1) == s + used;
    var jj, ii := j - s, i - s;
    assert rest[jj] == rows[j] && rest[ii] == rows[i];
    DiagonalAdd(s, jj, j, ld);
    DiagonalIs(j, ld);
    t := Transfer(ancs[k].Dest(rest[jj], rest[ii]), cptr + Diagonal(jj, ld) + (ii - jj));
    ExtendAddHas(ancs[k], rest, used, cptr, ld, jj, ii);
    assert Share(ancs, rows, k, ld) == ancs[k].ExtendAddTransfers(rest, used, cptr, ld);
  }

  // ------------------------------------------------------------------ solves

  /** Every pair (row first+idx, rhs r) of x with (idx, r) of the workspace is visited by a solve loop. */
  lemma {:induction false} RhsHas(node: Node, first: int, count: int, nrhs: int, ldx: int, ld: int, idx: int, r: int)
    requires node.Valid() && 0 <= first && 0 <= count && first + count <= node.m && 0 <= nrhs
    requires 0 <= idx < count && 0 <= r < nrhs
    ensures Transfer(Cell(r, node.tree.rows[first + idx], ldx), Cell(r, idx, ld)) in node.RhsTransfers(first, count, nrhs, ldx, ld)
    decreases count
  {
    if idx < count - 1 {
      RhsHas(node, first, count - 1, nrhs, ldx, ld, idx, r);
    } else {
      assert node.RhsRow(first, idx, nrhs, ldx, ld)[r] == Transfer(Cell(r, node.tree.rows[first + idx], ldx), Cell(r, idx, ld));
    }
  }

  /** A solve loop never visits the same entry of x twice. */
  lemma {:induction false} RhsDistinct(node: Node, first: int, count: int, nrhs: int, ldx: int, ld: int)
    requires node.Valid() && 0 <= first && 0 <= count && first + count <= node.m && 0 <= nrhs
    requires node.tree.rows[node.m - 1] < ldx
    ensures DestsDistinct(node.RhsTransfers(first, count, nrhs, ldx, ld))
    decreases count
  {
    if count > 0 {
      RhsDistinct(node, first, count - 1, nrhs, ldx, ld);
      var front := node.RhsTransfers(first, count - 1, nrhs, ldx, ld);
      var line := node.RhsRow(first, count - 1, nrhs, ldx, ld);
      var row := node.tree.rows[first + count - 1];
      assert 0 <= node.tree.rows[0] <= row <= node.tree.rows[node.m - 1];
      forall p, q | 0 <= p < q < |line| ensures line[p].dest != line[q].dest {
        if line[p].dest == line[q].dest {
          CellUnique(p, row, q, row, ldx);
        }
      }
      forall t, u | t in front && u in line ensures t.dest != u.dest {
        node.RhsMember(first, count - 1, nrhs, ldx, ld, t);
        var idx, r :| 0 <= idx < count - 1 && 0 <= r < nrhs &&
          t == Transfer(Cell(r, node.tree.rows[first + idx], ldx), Cell(r, idx, ld));
        var r2 :| 0 <= r2 < nrhs && line[r2] == u;
        assert 0 <= node.tree.rows[0] <= node.tree.rows[first + idx] < row;
        if t.dest == u.dest {
          CellUnique(r, node.tree.rows[first + idx], r2, row, ldx);
        }
      }
      DestsDistinctAppend(front, line);
    }
  }

  /**
   * forward_solve adds xlocal[r * (m - n) + q], once, into x[r * ldx + rows[n + q]]
   * for every retained row q and right-hand side r.
   */
  lemma {:induction false} ForwardCell(node: Node, mid: seq<int>, xl: seq<int>, nrhs: int, ldx: int, q: int, r: int)
    requires node.Valid() && node.RhsFits(nrhs, |mid|, ldx) && |xl| == nrhs * (node.m - node.n)
    requires 0 <= q < node.m - node.n && 0 <= r < nrhs
    ensures Fits(node.RetainedRhs(nrhs, ldx), |mid|, |xl|)
    ensures 0 <= r * ldx + node.tree.rows[node.n + q] < |mid| && 0 <= r * (node.m - node.n) + q < |xl|
    ensures Scatter(mid, node.RetainedRhs(nrhs, ldx), xl)[r * ldx + node.tree.rows[node.n + q]]
         == mid[r * ldx + node.tree.rows[node.n + q]] + xl[r * (node.m - node.n) + q]
  {
    var ld := node.m - node.n;
    node.RhsInBounds(node.n, ld, nrhs, ldx, ld, |mid|);
    RhsHas(node, node.n, ld, nrhs, ldx, ld, q, r);
    RhsDistinct(node, node.n, ld, nrhs, ldx, ld);
    var t := Transfer(Cell(r, node.tree.rows[node.n + q], ldx), Cell(r, q, ld));
    ScatterMember(mid, node.RetainedRhs(nrhs, ldx), xl, t);
    CellIs(r, node.tree.rows[node.n + q], ldx);
    CellIs(r, q, ld);
  }

  /** forward_solve's update changes no entry of x outside the retained rows' right-hand sides. */
  lemma {:induction false} ForwardElsewhere(node: Node, mid: seq<int>, xl: seq<int>, nrhs: int, ldx: int, k: int)
    requires node.Valid() && node.RhsFits(nrhs, |mid|, ldx) && |xl| == nrhs * (node.m - node.n)
    requires 0 <= k < |mid|
    requires forall q, r | node.n <= q < node.m && 0 <= r < nrhs :: Cell(r, node.tree.rows[q], ldx) != k
    ensures Fits(node.RetainedRhs(nrhs, ldx), |mid|, |xl|)
    ensures Scatter(mid, node.RetainedRhs(nrhs, ldx), xl)[k] == mid[k]
  {
    var ld := node.m - node.n;
    node.RhsInBounds(node.n, ld, nrhs, ldx, ld, |mid|);
    forall t | t in node.RetainedRhs(nrhs, ldx) ensures t.dest != k {
      node.RhsMember(node.n, ld, nrhs, ldx, ld, t);
      var q, r :| 0 <= q < ld && 0 <= r < nrhs &&
        t == Transfer(Cell(r, node.tree.rows[node.n + q], ldx), Cell(r, q, ld));
      assert Cell(r, node.tree.rows[node.n + q], ldx) != k;
    }
    ScatterOutside(mid, node.RetainedRhs(nrhs, ldx), xl, k);
  }

  // ----------------------------------------------------------- as written

  /**
   * The solve loops as written run idx over all m rows against a workspace
   * of nrhs x (m - n) entries. With a pivot and a right-hand side, the last
   * pair reads past the workspace, and the workspace row of the first
   * retained row is paired with the first pivot row of x.
   */
  lemma {:induction false} AsWrittenRhsOverruns(node: Node, nrhs: int, ldx: int)
    requires node.Valid() && node.n > 0 && node.m > node.n && nrhs > 0
    ensures !SourcesIn(node.AsWrittenRhs(nrhs, ldx), nrhs * (node.m - node.n))
    ensures Transfer(Cell(0, node.tree.rows[0], ldx), Cell(0, 0, node.m - node.n)) in node.AsWrittenRhs(nrhs, ldx)
    ensures ContainsColumn(node.tree, node.tree.rows[0])
  {
    var ld := node.m - node.n;
    var m := node.m;
    RhsHas(node, 0, m, nrhs, ldx, ld, m - 1, nrhs - 1);
    var t := Transfer(Cell(nrhs - 1, node.tree.rows[m - 1], ldx), Cell(nrhs - 1, m - 1, ld));
    CellIs(nrhs - 1, m - 1, ld);
    assert (nrhs - 1) * ld + (m - 1) >= nrhs * ld;
    assert !(0 <= t.src < nrhs * ld);
    RhsHas(node, 0, m, nrhs, ldx, ld, 0, 0);
    assert node.tree.rows[..node.n][0] == node.tree.rows[0];
  }

  /**
   * backward_solve as written: when the first pivot row is at least n, the
   * panel gemm accumulates into and the pivot rows' panel at xdiag are
   * disjoint, so the update from the retained rows never reaches the pivots.
   */
  lemma {:induction false} AsWrittenGemmMissesPivots(node: Node, nrhs: int, len: int, ldx: int)
    requires node.Valid() && node.RhsFits(nrhs, len, ldx) && node.tree.rows[0] >= node.n
    requires node.n > 0 && nrhs > 0
    ensures InPanel(node.tree.rows[0], node.tree.rows[0], node.n, nrhs, ldx)
    ensures !InPanel(node.tree.rows[0], 0, node.n, nrhs, ldx)
  {
    node.RhsPanelFits(nrhs, len, ldx);
    node.PivotRowsApart(nrhs, len, ldx);
    DivModCell(0, 0, ldx);
    assert Cell(0, 0, ldx) == 0;
  }
}
