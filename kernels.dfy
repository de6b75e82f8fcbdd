/**
 * Dense numerical kernels (LAPACK potrf, BLAS trsm, syrk, gemm).
 *
 * They compute in floating point and their bodies belong to an external
 * library, so only what they may write is modelled: a column-major panel of
 * `rows` x `cols` entries starting at `off` with leading dimension `ld`.
 * Callers learn nothing about the new values inside the panel and are told
 * that nothing outside it changes.
 */
module Kernels {
  import opened ScatterAdd

  /** Index i lies in the rows x cols panel that starts at `off` with leading dimension ld. */
  predicate InPanel(i: int, off: int, rows: int, cols: int, ld: int)
    requires ld > 0
  {
    off <= i && (i - off) / ld < cols && (i - off) % ld < rows
  }

  /** The panel is a well-formed column-major block lying inside an array of length len. */
  predicate PanelFits(len: int, off: int, rows: int, cols: int, ld: int)
  {
    0 <= off && 0 <= rows <= ld && 0 <= cols && 0 < ld &&
    (rows > 0 && cols > 0 ==> off + Cell(cols - 1, rows, ld) <= len)
  }

  lemma {:induction false} DivModCell(c: int, r: int, ld: int)
    requires 0 <= c && 0 <= r < ld
    ensures Cell(c, r, ld) / ld == c && Cell(c, r, ld) % ld == r
  {
    var x := Cell(c, r, ld);
    var q, s := x / ld, x % ld;
    CellIs(q, s, ld);
    CellIs(c, r, ld);
    assert Cell(q, s, ld) == x;
    CellUnique(q, s, c, r, ld);
  }

  /** Entry (r, c) of a fitting panel is addressable and belongs to the panel. */
  lemma {:induction false} PanelCell(len: int, off: int, rows: int, cols: int, ld: int, c: int, r: int)
    requires PanelFits(len, off, rows, cols, ld)
    requires 0 <= c < cols && 0 <= r < rows
    ensures 0 <= off + Cell(c, r, ld) < len
    ensures InPanel(off + Cell(c, r, ld), off, rows, cols, ld)
  {
    CellInside(c, r, cols, rows, ld);
    DivModCell(c, r, ld);
  }

  /** A panel that starts `shift` rows lower, inside the same columns, is part of the larger panel. */
  lemma {:induction false} PanelBelow(i: int, off: int, shift: int, rows: int, cols: int, ld: int)
    requires 0 < ld && 0 <= shift <= rows <= ld
    requires InPanel(i, off + shift, rows - shift, cols, ld)
    ensures InPanel(i, off, rows, cols, ld)
  {
    var x := i - off - shift;
    var q, s := x / ld, x % ld;
    CellIs(q, s, ld);
    CellIs(q, s + shift, ld);
    assert Cell(q, s, ld) == x;
    assert q >= 0;
    DivModCell(q, s + shift, ld);
    assert i - off == Cell(q, s + shift, ld);
  }

  /**
   * A panel of `rows` rows that starts at row `off` of each column, with
   * rows <= off and off + rows <= ld, shares no entry with the panel of the
   * same shape at the start of the array.
   */
  lemma {:induction false} PanelsApart(i: int, off: int, rows: int, cols: int, ld: int)
    requires 0 < ld && 0 <= rows <= off && off + rows <= ld
    requires InPanel(i, off, rows, cols, ld)
    ensures !InPanel(i, 0, rows, cols, ld)
  {
    var c, s := (i - off) / ld, (i - off) % ld;
    CellIs(c, s, ld);
    CellIs(c, off + s, ld);
    DivModCell(c, off + s, ld);
    assert i == Cell(c, off + s, ld);
  }

  /** potrf('L', n, a[off..], ld): Cholesky factorisation of the n x n diagonal panel; info != 0 on failure. */
  method Potrf(a: array<int>, off: int, n: int, ld: int) returns (info: int)
    requires PanelFits(a.Length, off, n, n, ld)
    modifies a
    ensures forall i | 0 <= i < a.Length && !InPanel(i, off, n, n, ld) :: a[i] == old(a[i])
  {
    info := *;
  }

  /**
   * trsm: triangular solve with the factor held at a[aoff..] (only read),
   * overwriting the rows x cols panel of b at boff.
   */
  method Trsm(a: array<int>, aoff: int, lda: int, b: array<int>, boff: int, rows: int, cols: int, ldb: int)
    requires PanelFits(b.Length, boff, rows, cols, ldb)
    modifies b
    ensures forall i | 0 <= i < b.Length && !InPanel(i, boff, rows, cols, ldb) :: b[i] == old(b[i])
  {
  }

  /** syrk('L', 'N', rows, k, -1, a, lda, 0, c, rows): generated element c = -A A^T (lower triangle). */
  method Syrk(a: array<int>, aoff: int, lda: int, rows: int, k: int, c: array<int>)
    requires PanelFits(c.Length, 0, rows, rows, rows) || rows == 0
    modifies c
  {
  }

  /**
   * gemm: c := alpha op(A) op(B) + beta c over the rows x cols panel of c at coff
   * (A and B are only read).
   */
  method Gemm(a: array<int>, aoff: int, lda: int, b: array<int>, boff: int, ldb: int,
              c: array<int>, coff: int, rows: int, cols: int, ldc: int)
    requires PanelFits(c.Length, coff, rows, cols, ldc)
    modifies c
    ensures forall i | 0 <= i < c.Length && !InPanel(i, coff, rows, cols, ldc) :: c[i] == old(c[i])
  {
  }
}
