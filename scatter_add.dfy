/**
 * Exact scatter-add algebra.
 *
 * Every loop of the node kernel that does `dest[..] += src[..]` is described
 * by a list of transfers: each transfer adds `v[src]` into `l[dest]`.
 * Values are unbounded integers, so additions are exact and the order in
 * which transfers are applied does not change the result (ScatterAt).
 */
module ScatterAdd {

  /** Add the source value at index `src` into the destination cell `dest`. */
  datatype Transfer = Transfer(dest: int, src: int)

  /**
   * Offset of column col in a column-major block of leading dimension ld,
   * col * ld, built up one column at a time (StrideIs), so that addresses
   * stay linear terms for the solver.
   */
  function Stride(col: int, ld: int): int
    decreases if col < 0 then -col else col
  {
    if col == 0 then 0
    else if col > 0 then Stride(col - 1, ld) + ld
    else Stride(col + 1, ld) - ld
  }

  lemma {:induction false} StrideIs(col: int, ld: int)
    ensures Stride(col, ld) == col * ld
    decreases if col < 0 then -col else col
  {
    if col > 0 {
      StrideIs(col - 1, ld);
    } else if col < 0 {
      StrideIs(col + 1, ld);
    }
  }

  lemma {:induction false} StrideAdd(a: int, b: int, c: int, ld: int)
    requires 0 <= a && 0 <= b && c == a + b
    ensures Stride(c, ld) == Stride(a, ld) + Stride(b, ld)
    decreases b
  {
    if b > 0 {
      StrideAdd(a, b - 1, c - 1, ld);
    }
  }

  /** Column-major address of entry (row, col) in a block of leading dimension ld. */
  function Cell(col: int, row: int, ld: int): int
  {
    Stride(col, ld) + row
  }

  lemma {:induction false} CellIs(col: int, row: int, ld: int)
    ensures Cell(col, row, ld) == col * ld + row
  {
    StrideIs(col, ld);
  }

  predicate DestsIn(ts: seq<Transfer>, destLen: int)
  {
    forall t | t in ts :: 0 <= t.dest < destLen
  }

  predicate SourcesIn(ts: seq<Transfer>, srcLen: int)
  {
    forall t | t in ts :: 0 <= t.src < srcLen
  }

  /** Every transfer reads and writes inside its arrays. */
  predicate Fits(ts: seq<Transfer>, destLen: int, srcLen: int)
  {
    DestsIn(ts, destLen) && SourcesIn(ts, srcLen)
  }

  /** Apply the transfers to `l` in order, reading values from `v`. */
  function Scatter(l: seq<int>, ts: seq<Transfer>, v: seq<int>): (r: seq<int>)
    requires Fits(ts, |l|, |v|)
    ensures |r| == |l|
    decreases |ts|
  {
    if ts == [] then l
    else
      var t := ts[|ts| - 1];
      assert t in ts;
      var p := Scatter(l, ts[..|ts| - 1], v);
      p[t.dest := p[t.dest] + v[t.src]]
  }

  /** The first k transfers of ts applied to l: the state of a scatter-add loop after k steps. */
  function ScatterUpTo(l: seq<int>, ts: seq<Transfer>, v: seq<int>, k: int): (r: seq<int>)
    requires Fits(ts, |l|, |v|) && 0 <= k <= |ts|
    ensures |r| == |l|
    decreases k
  {
    if k == 0 then l
    else
      var t := ts[k - 1];
      assert t in ts;
      var p := ScatterUpTo(l, ts, v, k - 1);
      p[t.dest := p[t.dest] + v[t.src]]
  }

  /** Sum of the values that the transfers add into cell k. */
  function Received(ts: seq<Transfer>, v: seq<int>, k: int): int
    requires SourcesIn(ts, |v|)
    decreases |ts|
  {
    if ts == [] then 0
    else
      var t := ts[|ts| - 1];
      assert t in ts;
      Received(ts[..|ts| - 1], v, k) + (if t.dest == k then v[t.src] else 0)
  }

  /** Source indices strictly increase along the list: no source is read twice. */
  predicate SourcesAscending(ts: seq<Transfer>)
  {
    forall p, q | 0 <= p < q < |ts| :: ts[p].src < ts[q].src
  }

  /** All source indices lie in [lo, hi). */
  predicate SourcesWithin(ts: seq<Transfer>, lo: int, hi: int)
  {
    forall t | t in ts :: lo <= t.src < hi
  }

  /** A scattered cell holds its old value plus everything sent to it, in any order. */
  lemma {:induction false} ScatterAt(l: seq<int>, ts: seq<Transfer>, v: seq<int>, k: int)
    requires Fits(ts, |l|, |v|)
    requires 0 <= k < |l|
    ensures Scatter(l, ts, v)[k] == l[k] + Received(ts, v, k)
    decreases |ts|
  {
    if ts != [] {
      var front := ts[..|ts| - 1];
      assert Fits(front, |l|, |v|) by {
        forall t | t in front ensures t in ts { }
      }
      ScatterAt(l, front, v, k);
    }
  }

  /** Cells that no transfer names receive nothing. */
  lemma {:induction false} ReceivedNone(ts: seq<Transfer>, v: seq<int>, k: int)
    requires SourcesIn(ts, |v|)
    requires forall t | t in ts :: t.dest != k
    ensures Received(ts, v, k) == 0
    decreases |ts|
  {
    if ts != [] {
      var front := ts[..|ts| - 1];
      assert forall t | t in front :: t in ts;
      ReceivedNone(front, v, k);
      assert ts[|ts| - 1] in ts;
    }
  }

  /** A cell named by exactly one transfer receives exactly that transfer's value. */
  lemma {:induction false} ReceivedOne(ts: seq<Transfer>, v: seq<int>, p: int)
    requires SourcesIn(ts, |v|)
    requires 0 <= p < |ts|
    requires forall q | 0 <= q < |ts| && q != p :: ts[q].dest != ts[p].dest
    ensures Received(ts, v, ts[p].dest) == v[ts[p].src]
    decreases |ts|
  {
    var front := ts[..|ts| - 1];
    assert forall t | t in front :: t in ts;
    if p == |ts| - 1 {
      forall t | t in front ensures t.dest != ts[p].dest {
        var q :| 0 <= q < |front| && front[q] == t;
        assert ts[q] == t;
      }
      ReceivedNone(front, v, ts[p].dest);
    } else {
      ReceivedOne(front, v, p);
    }
  }

  /** No two transfers write the same cell. */
  predicate DestsDistinct(ts: seq<Transfer>)
  {
    forall p, q | 0 <= p < q < |ts| :: ts[p].dest != ts[q].dest
  }

  /** When no two transfers share a cell, a transfer's cell receives exactly that transfer's value. */
  lemma {:induction false} ReceivedMember(ts: seq<Transfer>, v: seq<int>, t: Transfer)
    requires SourcesIn(ts, |v|) && DestsDistinct(ts) && t in ts
    ensures 0 <= t.src < |v| && Received(ts, v, t.dest) == v[t.src]
  {
    var p :| 0 <= p < |ts| && ts[p] == t;
    forall q | 0 <= q < |ts| && q != p ensures ts[q].dest != ts[p].dest {
      if q < p {
        assert ts[q].dest != ts[p].dest;
      }
    }
    ReceivedOne(ts, v, p);
  }

  /** Two lists without repeated cells, writing disjoint cells, concatenate to one without repeated cells. */
  lemma {:induction false} DestsDistinctAppend(a: seq<Transfer>, b: seq<Transfer>)
    requires DestsDistinct(a) && DestsDistinct(b)
    requires forall t, u | t in a && u in b :: t.dest != u.dest
    ensures DestsDistinct(a + b)
  {
    forall p, q | 0 <= p < q < |a + b| ensures (a + b)[p].dest != (a + b)[q].dest {
      if q < |a| {
        assert (a + b)[p] == a[p] && (a + b)[q] == a[q];
      } else if p < |a| {
        assert (a + b)[p] == a[p] && a[p] in a;
        assert (a + b)[q] == b[q - |a|] && b[q - |a|] in b;
      } else {
        assert (a + b)[p] == b[p - |a|] && (a + b)[q] == b[q - |a|];
      }
    }
  }

  /**
   * The cellwise meaning of a scatter-add without repeated cells: a cell that
   * a transfer writes ends up with its old value plus that transfer's value.
   */
  lemma {:induction false} ScatterMember(l: seq<int>, ts: seq<Transfer>, v: seq<int>, t: Transfer)
    requires Fits(ts, |l|, |v|) && DestsDistinct(ts) && t in ts
    ensures 0 <= t.dest < |l| && 0 <= t.src < |v|
    ensures Scatter(l, ts, v)[t.dest] == l[t.dest] + v[t.src]
  {
    ScatterAt(l, ts, v, t.dest);
    ReceivedMember(ts, v, t);
  }

  /** Scatter-adding a concatenation is scatter-adding one list after the other. */
  lemma {:induction false} ScatterAppend(l: seq<int>, a: seq<Transfer>, b: seq<Transfer>, v: seq<int>)
    requires Fits(a, |l|, |v|) && Fits(b, |l|, |v|)
    ensures Fits(a + b, |l|, |v|)
    ensures Scatter(l, a + b, v) == Scatter(Scatter(l, a, v), b, v)
    decreases |b|
  {
    if b == [] {
      assert a + b == a;
    } else {
      var front := b[..|b| - 1];
      assert Fits(front, |l|, |v|) by {
        forall t | t in front ensures t in b { }
      }
      ScatterAppend(l, a, front, v);
      assert (a + b)[..|a + b| - 1] == a + front;
    }
  }

  /** A scatter-add of b after a scatter-add of a is a scatter-add of a + b. */
  lemma {:induction false} ScatterThen(l: seq<int>, a: seq<Transfer>, b: seq<Transfer>, v: seq<int>, mid: seq<int>, after: seq<int>)
    requires Fits(a, |l|, |v|) && mid == Scatter(l, a, v)
    requires Fits(b, |mid|, |v|) && after == Scatter(mid, b, v)
    ensures Fits(a + b, |l|, |v|)
    ensures after == Scatter(l, a + b, v)
  {
    ScatterAppend(l, a, b, v);
  }

  /** Two source-ascending lists over adjacent ranges concatenate to a source-ascending list. */
  lemma {:induction false} SourcesAscendingAppend(a: seq<Transfer>, b: seq<Transfer>, lo: int, mid: int, hi: int)
    requires lo <= mid <= hi
    requires SourcesAscending(a) && SourcesWithin(a, lo, mid)
    requires SourcesAscending(b) && SourcesWithin(b, mid, hi)
    ensures SourcesAscending(a + b) && SourcesWithin(a + b, lo, hi)
  {
    forall p, q | 0 <= p < q < |a + b| ensures (a + b)[p].src < (a + b)[q].src {
      if q < |a| {
      } else if p < |a| {
        assert a[p] in a;
        assert b[q - |a|] in b;
      } else {
      }
    }
    forall t | t in a + b ensures lo <= t.src < hi {
      if t in a {
      } else {
        assert t in b;
      }
    }
  }

  /** Appending one transfer that fits keeps the list fitting. */
  lemma {:induction false} FitsSnoc(ts: seq<Transfer>, t: Transfer, destLen: int, srcLen: int)
    requires Fits(ts, destLen, srcLen)
    requires 0 <= t.dest < destLen && 0 <= t.src < srcLen
    ensures Fits(ts + [t], destLen, srcLen)
  {
    assert forall u | u in ts + [t] :: u in ts || u == t;
  }

  /** One more step of a scatter-add loop: add v[ts[k].src] into cell ts[k].dest. */
  lemma {:induction false} ScatterUpToStep(l: seq<int>, ts: seq<Transfer>, v: seq<int>, k: int, before: seq<int>, after: seq<int>,
                                           i: int, j: int)
    requires Fits(ts, |l|, |v|) && 0 <= k < |ts| && ts[k] == Transfer(i, j)
    requires before == ScatterUpTo(l, ts, v, k)
    requires 0 <= i < |before| && 0 <= j < |v|
    requires after == before[i := before[i] + v[j]]
    ensures after == ScatterUpTo(l, ts, v, k + 1)
  {
  }

  /** After k steps a scatter-add loop has applied exactly the first k transfers. */
  lemma {:induction false} ScatterUpToPrefix(l: seq<int>, ts: seq<Transfer>, v: seq<int>, k: int)
    requires Fits(ts, |l|, |v|) && 0 <= k <= |ts|
    ensures Fits(ts[..k], |l|, |v|)
    ensures ScatterUpTo(l, ts, v, k) == Scatter(l, ts[..k], v)
    decreases k
  {
    assert forall t | t in ts[..k] :: t in ts;
    if k > 0 {
      ScatterUpToPrefix(l, ts, v, k - 1);
      assert ts[..k][..k - 1] == ts[..k - 1];
    }
  }

  /** A scatter-add loop that has run over every transfer has done the whole scatter. */
  lemma {:induction false} ScatterUpToAll(l: seq<int>, ts: seq<Transfer>, v: seq<int>, now: seq<int>)
    requires Fits(ts, |l|, |v|) && now == ScatterUpTo(l, ts, v, |ts|)
    ensures now == Scatter(l, ts, v)
  {
    ScatterUpToPrefix(l, ts, v, |ts|);
    assert ts[..|ts|] == ts;
  }

  /** Scatter-adding one more transfer adds one more value into one cell. */
  lemma {:induction false} ScatterSnoc(l: seq<int>, ts: seq<Transfer>, t: Transfer, v: seq<int>)
    requires Fits(ts, |l|, |v|)
    requires 0 <= t.dest < |l| && 0 <= t.src < |v|
    ensures Fits(ts + [t], |l|, |v|)
    ensures Scatter(l, ts + [t], v) == Scatter(l, ts, v)[t.dest := Scatter(l, ts, v)[t.dest] + v[t.src]]
  {
    FitsSnoc(ts, t, |l|, |v|);
    var w := ts + [t];
    assert w[|w| - 1] == t && w[..|w| - 1] == ts;
  }

  /** `now` is `l` after the transfers `done` and the first r pairs of `line`, all of them inside l and v. */
  ghost predicate ScatteredPrefix(now: seq<int>, l: seq<int>, done: seq<Transfer>, line: seq<Transfer>, r: int, v: seq<int>)
    requires 0 <= r <= |line|
  {
    Fits(done + line[..r], |l|, |v|) && now == Scatter(l, done + line[..r], v)
  }

  /** A loop over the pairs of `line`, after `done`: one more pair is one more transfer. */
  lemma {:induction false} ScatterPrefixStep(l: seq<int>, done: seq<Transfer>, line: seq<Transfer>, r: int, v: seq<int>,
                          before: seq<int>, after: seq<int>, i: int, j: int)
    requires 0 <= r < |line| && line[r] == Transfer(i, j) && 0 <= i < |l| && 0 <= j < |v|
    requires ScatteredPrefix(before, l, done, line, r, v)
    requires after == before[i := before[i] + v[j]]
    ensures ScatteredPrefix(after, l, done, line, r + 1, v)
  {
    PrefixSnoc(done, line, r);
    ScatterSnoc(l, done + line[..r], line[r], v);
  }

  /** Extending a prefix of `line` by one element, behind `done`. */
  lemma {:induction false} PrefixSnoc<T>(done: seq<T>, line: seq<T>, r: int)
    requires 0 <= r < |line|
    ensures done + line[..r + 1] == (done + line[..r]) + [line[r]]
  {
    assert line[..r + 1] == line[..r] + [line[r]];
  }

  /** One scatter-add step on an array: a[i] += x. */
  method AddInto(a: array<int>, i: int, x: int)
    requires 0 <= i < a.Length
    modifies a
    ensures a[..] == old(a[..])[i := old(a[i]) + x]
  {
    a[i] := a[i] + x;
  }

  /** A cell that no transfer names keeps its value. */
  lemma {:induction false} ScatterOutside(l: seq<int>, ts: seq<Transfer>, v: seq<int>, k: int)
    requires Fits(ts, |l|, |v|)
    requires 0 <= k < |l|
    requires forall t | t in ts :: t.dest != k
    ensures Scatter(l, ts, v)[k] == l[k]
  {
    ScatterAt(l, ts, v, k);
    ReceivedNone(ts, v, k);
  }

  /** Entry (r, c) of a cols x rows block (rows <= ld) lies at or before entry (rows - 1, cols - 1). */
  lemma {:induction false} CellInside(c: int, r: int, cols: int, rows: int, ld: int)
    requires 0 <= c < cols && 0 <= r < rows <= ld
    ensures 0 <= Cell(c, r, ld) <= Cell(cols - 1, rows - 1, ld)
    ensures Cell(cols - 1, rows, ld) == cols * ld - ld + rows
  {
    CellIs(c, r, ld);
    CellIs(cols - 1, rows - 1, ld);
    CellIs(cols - 1, rows, ld);
    MulAtLeast(cols - 1, c, ld);
    MulAtLeast(c, 0, ld);
  }

  /** Uniqueness of column-major addresses inside one block. */
  lemma {:induction false} CellUnique(c1: int, r1: int, c2: int, r2: int, ld: int)
    requires 0 <= r1 < ld && 0 <= r2 < ld
    requires Cell(c1, r1, ld) == Cell(c2, r2, ld)
    ensures c1 == c2 && r1 == r2
  {
    CellIs(c1, r1, ld);
    CellIs(c2, r2, ld);
    assert (c1 - c2) * ld == r2 - r1;
    MulSign(c1 - c2, ld);
  }

  lemma {:induction false} MulSign(d: int, ld: int)
    requires ld > 0
    ensures d >= 1 ==> d * ld >= ld
    ensures d <= -1 ==> d * ld <= -ld
  {
    if d >= 1 {
      MulAtLeast(d, 1, ld);
    } else if d <= -1 {
      MulAtLeast(-1, d, ld);
    }
  }

  lemma {:induction false} MulAtLeast(a: int, b: int, ld: int)
    requires a >= b && ld >= 0
    ensures a * ld >= b * ld
  {
    assert a * ld - b * ld == (a - b) * ld;
  }
}
