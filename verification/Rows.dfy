/** Compressed sparse rows: `off[v]..off[v + 1]` slices the column array. */
module Rows {
  import opened Graphs

  ghost predicate ValidRows(n: nat, off: seq<nat>, cols: seq<nat>) {
    && |off| == n + 1
    && off[n] == |cols|
    && (forall v, w :: 0 <= v <= w <= n ==> off[v] <= off[w])
    && (forall k :: 0 <= k < |cols| ==> cols[k] < n)
  }

  /** `c` is listed in row `v`. */
  ghost predicate InRow(n: nat, off: seq<nat>, cols: seq<nat>, v: nat, c: nat)
    requires ValidRows(n, off, cols)
  {
    v < n && exists k :: off[v] <= k < off[v + 1] && cols[k] == c
  }

  /** The digraph whose rows list successors. */
  ghost function RowEdges(n: nat, off: seq<nat>, cols: seq<nat>): (E: Edges)
    requires ValidRows(n, off, cols)
    ensures forall u: nat, v: nat :: (u, v) in E <==> InRow(n, off, cols, u, v)
    ensures Bounded(E, n)
  {
    set u, v | u in Below(n) && v in Below(n) && InRow(n, off, cols, u, v) :: (u, v)
  }

  /** The digraph whose rows list predecessors. */
  ghost function ColumnEdges(n: nat, off: seq<nat>, cols: seq<nat>): (E: Edges)
    requires ValidRows(n, off, cols)
    ensures forall u: nat, v: nat :: (u, v) in E <==> InRow(n, off, cols, v, u)
    ensures Bounded(E, n)
  {
    set u, v | u in Below(n) && v in Below(n) && InRow(n, off, cols, v, u) :: (u, v)
  }
}
