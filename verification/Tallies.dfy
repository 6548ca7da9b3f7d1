/** Maps from labels to accumulated weight, and what a row adds to them. */
module Tallies {
  import opened Modularity
  import opened Sums

  type Tally = map<nat, real>

  /** An absent label has weight zero. */
  function At(m: Tally, k: nat): real {
    if k in m then m[k] else 0.0
  }

  /** The listed weight of a row towards nodes labelled `k`. */
  ghost function RowTo(row: Row, c: seq<nat>, k: nat): real {
    if row == [] then 0.0
    else
      var last := row[|row| - 1];
      RowTo(row[..|row| - 1], c, k) + if last.0 < |c| && c[last.0] == k then last.1 else 0.0
  }

  ghost predicate RowValid(row: Row, n: nat) {
    forall k :: 0 <= k < |row| ==> row[k].0 < n
  }

  ghost predicate TallyNonNegative(m: Tally) {
    forall k :: k in m ==> m[k] >= 0.0
  }

  /** The labels a row lists. */
  ghost predicate Lists(row: Row, c: seq<nat>, k: nat) {
    exists e: nat :: e < |row| && row[e].0 < |c| && c[row[e].0] == k
  }

  /** The weight listed towards a label is the matrix row summed over that label's nodes. */
  lemma {:induction false} RowToSum(row: Row, c: seq<nat>, k: nat)
    requires RowValid(row, |c|)
    ensures RowTo(row, c, k) == Sum(|c|, (j: nat) => if j < |c| && c[j] == k then RowWeight(row, j) else 0.0)
  {
    var f := (j: nat) => if j < |c| && c[j] == k then RowWeight(row, j) else 0.0;
    if row == [] {
      SumZero(|c|, f);
    } else {
      var front, last := row[..|row| - 1], row[|row| - 1];
      var g := (j: nat) => if j < |c| && c[j] == k then RowWeight(front, j) else 0.0;
      RowToSum(front, c, k);
      SumChange(|c|, g, f, last.0);
    }
  }

  lemma RowToCommunity(adj: Adj, c: seq<nat>, x: nat, k: nat)
    requires |c| == |adj| && x < |adj| && RowValid(adj[x], |adj|)
    ensures RowTo(adj[x], c, k) == ToCommunity(Weights(adj), c, x, k)
  {
    RowToSum(adj[x], c, k);
    var f := (j: nat) => if j < |c| && c[j] == k then RowWeight(adj[x], j) else 0.0;
    forall j: nat | j < |c|
      ensures f(j) == Labelled(c, Weights(adj), x, k)(j)
    {
      LabelledAt(c, Weights(adj), x, k, j);
    }
    SumEq(|c|, f, Labelled(c, Weights(adj), x, k));
  }

  lemma ListsPush(row: Row, c: seq<nat>, e: nat)
    requires e < |row| && RowValid(row, |c|)
    ensures forall k :: Lists(row[..e + 1], c, k) <==> Lists(row[..e], c, k) || k == c[row[e].0]
  {
    forall k
      ensures Lists(row[..e + 1], c, k) <==> Lists(row[..e], c, k) || k == c[row[e].0]
    {
      if Lists(row[..e], c, k) {
        var d: nat :| d < e && row[d].0 < |c| && c[row[d].0] == k;
        assert row[..e + 1][d] == row[d];
      }
      assert row[..e + 1][e] == row[e];
    }
  }

  /** Adds every entry of a row to the tally of its neighbour's label. */
  method Accumulate(row: Row, c: seq<nat>, start: Tally) returns (tally: Tally)
    requires RowValid(row, |c|)
    ensures forall k: nat :: At(tally, k) == At(start, k) + RowTo(row, c, k)
    ensures forall k: nat :: k in tally <==> k in start || Lists(row, c, k)
    ensures RowNonNegative(row) && TallyNonNegative(start) ==> TallyNonNegative(tally)
  {
    tally := start;
    for e := 0 to |row|
      invariant forall k: nat :: At(tally, k) == At(start, k) + RowTo(row[..e], c, k)
      invariant forall k: nat :: k in tally <==> k in start || Lists(row[..e], c, k)
      invariant RowNonNegative(row) && TallyNonNegative(start) ==> TallyNonNegative(tally)
    {
      var (j, w) := row[e];
      assert row[..e + 1][..e] == row[..e];
      ListsPush(row, c, e);
      tally := tally[c[j] := At(tally, c[j]) + w];
    }
    assert row[..|row|] == row;
  }
}
