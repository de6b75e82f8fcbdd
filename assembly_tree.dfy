/**
 * The assembly-tree node the kernel is bound to. Its construction is outside
 * this model; only the parts the kernel reads are represented: the ordered
 * row list, the pivot count, the assembly (a-to-l) list, and the tree-wide
 * bound on row indices that sizes the row map.
 */
module AssemblyTree {

  /** Original value aval[src] goes to entry (destRow, destCol) of the node's block. */
  datatype Entry = Entry(src: int, destRow: int, destCol: int)

  datatype TreeNode = TreeNode(rows: seq<int>, ncol: int, aToL: seq<Entry>, maxRowIndex: int)
  {
    /**
     * Rows are ascending, non-negative and below the tree-wide bound; the
     * first ncol rows are the pivots and are consecutive (a supernode);
     * assembly entries land in the node's m x n block.
     */
    predicate Valid()
    {
      && 0 < |rows|
      && 0 <= ncol <= |rows|
      && Ascending(rows)
      && 0 <= rows[0]
      && rows[|rows| - 1] < maxRowIndex
      && (forall k | 0 <= k < ncol :: rows[k] == rows[0] + k)
      && (forall e | e in aToL :: 0 <= e.destRow < |rows| && 0 <= e.destCol < ncol)
    }
  }

  predicate Ascending(s: seq<int>)
  {
    forall p, q | 0 <= p < q < |s| :: s[p] < s[q]
  }

  /** contains_column: the row is one of the node's pivot columns. */
  predicate ContainsColumn(t: TreeNode, row: int)
    requires 0 <= t.ncol <= |t.rows|
  {
    row in t.rows[..t.ncol]
  }

  /**
   * Position of x in s, or |s| when x is absent. Rows of a node are
   * ascending, so there the position is unique (IndexOfAscending).
   */
  ghost function IndexOf(s: seq<int>, x: int): (k: int)
    ensures 0 <= k <= |s|
    ensures k < |s| ==> s[k] == x
    ensures k == |s| <==> x !in s
  {
    if x in s then var k :| 0 <= k < |s| && s[k] == x; k else |s|
  }

  /** In an ascending sequence, the position of s[k] is k. */
  lemma {:induction false} IndexOfAscending(s: seq<int>, k: int)
    requires Ascending(s) && 0 <= k < |s|
    ensures IndexOf(s, s[k]) == k
  {
    assert s[k] in s;
    assert s[IndexOf(s, s[k])] == s[k];
  }

  /**
   * construct_row_map: map[rows[k]] := k for every row of the node, so that a
   * global row index is translated to its local row (or, for a pivot, column)
   * in the node's block. Other entries are left as they were.
   */
  method ConstructRowMap(t: TreeNode, rowMap: array<int>)
    requires t.Valid() && t.rows[|t.rows| - 1] < rowMap.Length
    modifies rowMap
    ensures forall k | 0 <= k < |t.rows| :: rowMap[t.rows[k]] == k
    ensures forall r | 0 <= r < rowMap.Length && r !in t.rows :: rowMap[r] == old(rowMap[r])
  {
    var k := 0;
    while k < |t.rows|
      invariant 0 <= k <= |t.rows|
      invariant forall q | 0 <= q < k :: rowMap[t.rows[q]] == q
      invariant forall r | 0 <= r < rowMap.Length && r !in t.rows[..k] :: rowMap[r] == old(rowMap[r])
    {
      rowMap[t.rows[k]] := k;
      assert t.rows[..k + 1] == t.rows[..k] + [t.rows[k]];
      k := k + 1;
    }
    assert t.rows[..k] == t.rows;
  }
}
