/** HyperLogLog reachability: in-place propagation of register-wise maxima along edges. */
module Hll {
  import opened Graphs
  import opened Masks

  const B: nat := 12
  const M: nat := 4096
  const MAX_ROUNDS: nat := 64

  function TrailingZeros(x: nat): nat
    requires x > 0
  {
    if x % 2 == 1 then 0 else 1 + TrailingZeros(x / 2)
  }

  /** At least `k` trailing zeros make a multiple of two to the power `k`. */
  lemma {:induction false} ZerosDivide(x: nat, k: nat)
    requires x > 0
    ensures TrailingZeros(x) >= k <==> x % Pow2(k) == 0
  {
    if k > 0 {
      HalveRemainder(x, Pow2(k - 1), Pow2(k));
      if x % 2 == 0 {
        ZerosDivide(x / 2, k - 1);
      }
    }
  }

  /** The register of a hash. */
  function Index(hash: nat): (i: nat)
    ensures i == hash % 4096
  {
    MaskIsRemainder(hash, B);
    Power12();
    And(hash, M - 1)
  }

  /** The register value of a 64-bit hash: one more than the trailing zeros of its upper bits. */
  function Rho(hash: nat): nat {
    var remaining := hash / M;
    if remaining == 0 then 64 - B + 1 else TrailingZeros(remaining) + 1
  }

  /** A 64-bit hash gives the value `r` exactly when its upper bits are a multiple of two to the power
      `r - 1` and not of the next power, and 53 exactly when its upper bits are zero. */
  lemma RhoRange(hash: nat, r: nat)
    requires hash < 0x1_0000_0000_0000_0000 && r > 0
    ensures 1 <= Rho(hash) <= 53 && (Rho(hash) == 53 <==> hash < 4096)
    ensures r <= 52 ==> (Rho(hash) == r <==> hash / 4096 % Pow2(r - 1) == 0 && hash / 4096 % Pow2(r) != 0)
  {
    var upper := hash / 4096;
    if upper > 0 {
      UpperBits(upper);
      ZerosDivide(upper, r - 1);
      ZerosDivide(upper, r);
    }
  }

  lemma UpperBits(upper: nat)
    requires 0 < upper < 0x10_0000_0000_0000
    ensures TrailingZeros(upper) < 52
  {
    var k := Power52();
    SmallRemainder(upper, Pow2(k));
    ZerosDivide(upper, k);
  }

  lemma Power12()
    ensures Pow2(12) == 4096
  {
    assert Pow2(4) == 16;
    PowersMultiply(4, 4);
    PowersMultiply(4, 8);
  }

  lemma PowerSum(i: nat, j: nat, p: nat, q: nat) returns (k: nat)
    requires Pow2(i) == p && Pow2(j) == q
    ensures k == i + j && Pow2(k) == p * q
  {
    PowersMultiply(i, j);
    k := i + j;
  }

  lemma Power52() returns (k: nat)
    ensures k == 52 && Pow2(k) == 0x10_0000_0000_0000
  {
    Power12();
    assert Pow2(4) == 16;
    var a := PowerSum(12, 12, 4096, 4096);
    var b := PowerSum(a, a, 0x100_0000, 0x100_0000);
    k := PowerSum(b, 4, 0x1_0000_0000_0000, 16);
  }

  lemma SmallRemainder(x: nat, p: nat)
    requires x < p
    ensures x % p == x
  {
  }

  /** The hash lifts register `i` above `k`: it is `i` modulo 4096, and its upper bits are a multiple of
      two to the power `k`, where zero counts as no more than 52 zeros. */
  ghost predicate Lifts(hash: nat, i: nat, k: nat) {
    hash % 4096 == i && hash / 4096 % Pow2(k) == 0 && (hash < 4096 ==> k <= 52)
  }

  lemma RhoLifts(hash: nat, i: nat, k: nat)
    ensures Lifts(hash, i, k) <==> i == Index(hash) && Rho(hash) > k
  {
    if hash >= 4096 {
      ZerosDivide(hash / 4096, k);
    }
  }

  /** Register-wise maximum. */
  ghost predicate Joined(a: seq<nat>, b: seq<nat>, r: seq<nat>) {
    && |a| == |b| == |r| == M
    && forall i :: 0 <= i < M ==> r[i] == if b[i] > a[i] then b[i] else a[i]
  }

  ghost predicate Leq(a: seq<nat>, b: seq<nat>) {
    |a| == |b| == M && forall i :: 0 <= i < M ==> a[i] <= b[i]
  }

  /** `regs` is the sketch of the nodes `S`: a register exceeds `k` exactly when one of them lifts it. */
  ghost predicate IsSketch(hash: nat -> nat, S: set<nat>, regs: seq<nat>) {
    && |regs| == 4096
    && forall i: nat, k: nat {:trigger Lifted(hash, S, i, k)} ::
         i < 4096 ==> (regs[i] > k <==> Lifted(hash, S, i, k))
  }

  ghost predicate Lifted(hash: nat -> nat, S: set<nat>, i: nat, k: nat) {
    exists x: nat :: x in S && Lifts(hash(x), i, k)
  }

  class HllSketch {
    var registers: seq<nat>

    constructor ()
      ensures registers == seq(M, _ => 0)
    {
      registers := seq(M, _ => 0);
    }

    constructor Clone(other: HllSketch)
      ensures registers == other.registers
    {
      registers := other.registers;
    }

    /** Add one element by its hash. */
    method AddHash(hash: nat)
      requires |registers| == M
      modifies this
      ensures |registers| == M
      ensures forall i: nat, k: nat {:trigger Lifts(hash, i, k)} :: i < M ==>
                (registers[i] > k <==> old(registers[i]) > k || Lifts(hash, i, k))
    {
      var idx, rho := Index(hash), Rho(hash);
      forall i: nat, k: nat
        ensures Lifts(hash, i, k) <==> i == idx && rho > k
      {
        RhoLifts(hash, i, k);
      }
      if rho > registers[idx] {
        registers := registers[idx := rho];
      }
    }

    /** Union with another sketch; reports whether any register grew. */
    method Merge(other: HllSketch) returns (changed: bool)
      requires other != this && |registers| == M == |other.registers|
      modifies this
      ensures Joined(old(registers), other.registers, registers)
      ensures changed <==> registers != old(registers)
    {
      changed := false;
      var i := 0;
      while i < M
        invariant 0 <= i <= M && |registers| == M
        invariant forall j :: 0 <= j < i ==>
                    registers[j] ==
                    if other.registers[j] > old(registers)[j] then other.registers[j] else old(registers)[j]
        invariant forall j :: i <= j < M ==> registers[j] == old(registers)[j]
        invariant changed <==> exists j :: 0 <= j < i && other.registers[j] > old(registers)[j]
      {
        if other.registers[i] > registers[i] {
          registers := registers[i := other.registers[i]];
          changed := true;
        }
        i := i + 1;
      }
    }
  }

  // ---------------------------------------------------------------- sketches of sets

  lemma SketchMonotone(hash: nat -> nat, S: set<nat>, T: set<nat>, a: seq<nat>, b: seq<nat>)
    requires IsSketch(hash, S, a) && IsSketch(hash, T, b) && S <= T
    ensures Leq(a, b)
  {
    forall i: nat | i < M
      ensures a[i] <= b[i]
    {
      assert !Lifted(hash, T, i, b[i]);
      assert !Lifted(hash, S, i, b[i]);
    }
  }

  /** A set has one sketch. */
  lemma SketchUnique(hash: nat -> nat, S: set<nat>, a: seq<nat>, b: seq<nat>)
    requires IsSketch(hash, S, a) && IsSketch(hash, S, b)
    ensures a == b
  {
    SketchMonotone(hash, S, S, a, b);
    SketchMonotone(hash, S, S, b, a);
  }

  /** Merging sketches is sketching the union. */
  lemma SketchUnion(hash: nat -> nat, S: set<nat>, T: set<nat>, a: seq<nat>, b: seq<nat>, r: seq<nat>)
    requires IsSketch(hash, S, a) && IsSketch(hash, T, b) && Joined(a, b, r)
    ensures IsSketch(hash, S + T, r)
  {
    forall i: nat, k: nat | i < M
      ensures r[i] > k <==> Lifted(hash, S + T, i, k)
    {
      assert r[i] > k <==> Lifted(hash, S, i, k) || Lifted(hash, T, i, k);
      if Lifted(hash, S, i, k) {
        var x: nat :| x in S && Lifts(hash(x), i, k);
        assert x in S + T;
      }
      if Lifted(hash, T, i, k) {
        var x: nat :| x in T && Lifts(hash(x), i, k);
        assert x in S + T;
      }
    }
  }

  lemma SingletonSketch(hash: nat -> nat, v: nat, regs: seq<nat>)
    requires |regs| == M
    requires forall i: nat, k: nat {:trigger Lifts(hash(v), i, k)} :: i < M ==> (regs[i] > k <==> Lifts(hash(v), i, k))
    ensures IsSketch(hash, {v}, regs)
  {
    forall i: nat, k: nat | i < M
      ensures Lifted(hash, {v}, i, k) <==> Lifts(hash(v), i, k)
    {
      assert v in {v};
    }
  }

  // ---------------------------------------------------------------- propagation

  /** Rows of neighbours, all inside the graph. */
  ghost predicate ValidAdjacency(adj: seq<seq<nat>>) {
    forall i, k :: 0 <= i < |adj| && 0 <= k < |adj[i]| ==> adj[i][k] < |adj|
  }

  ghost function AdjEdges(adj: seq<seq<nat>>): (E: Edges)
    requires ValidAdjacency(adj)
    ensures forall u: nat, v: nat :: (u, v) in E <==> u < |adj| && v in adj[u]
    ensures Bounded(E, |adj|)
  {
    set u, v | u in Below(|adj|) && v in Below(|adj|) && v in adj[u] :: (u, v)
  }

  /** Each node's registers are the sketch of a set of nodes it reaches, itself included. */
  ghost predicate Sketched(E: Edges, hash: nat -> nat, regs: seq<seq<nat>>, S: seq<set<nat>>) {
    && |regs| == |S|
    && forall v: nat {:trigger S[v]} :: v < |S| ==>
         IsSketch(hash, S[v], regs[v]) && v in S[v] && forall x: nat :: x in S[v] ==> Reach(E, v, x)
  }

  ghost predicate Grown(S: seq<set<nat>>, T: seq<set<nat>>) {
    |S| == |T| && forall v :: 0 <= v < |S| ==> S[v] <= T[v]
  }

  lemma MergeSketched(E: Edges, hash: nat -> nat, regs: seq<seq<nat>>, S: seq<set<nat>>, i: nat, j: nat, r: seq<nat>)
    requires Sketched(E, hash, regs, S) && i < |S| && j < |S| && (i, j) in E
    requires Joined(regs[i], regs[j], r)
    ensures Sketched(E, hash, regs[i := r], S[i := S[i] + S[j]])
    ensures Grown(S, S[i := S[i] + S[j]])
    ensures Leq(regs[j], r) && (r == regs[i] ==> Leq(regs[j], regs[i]))
  {
    SketchUnion(hash, S[i], S[j], regs[i], regs[j], r);
    ReachEdge(E, i, j);
    forall x: nat | x in S[j]
      ensures Reach(E, i, x)
    {
      ReachTrans(E, i, j, x);
    }
  }

  /** The sketches as values. */
  ghost predicate Holds(fwd: seq<HllSketch>, regs: seq<seq<nat>>)
    reads fwd
  {
    |fwd| == |regs| && forall v :: 0 <= v < |fwd| ==> fwd[v].registers == regs[v]
  }

  /** What a round has done so far: sets only grew; without a change, nothing moved and the
      edges seen so far leave nothing to merge. `i` rows are complete, `k` entries of row `i`. */
  ghost predicate Rounding(adj: seq<seq<nat>>, regs0: seq<seq<nat>>, S0: seq<set<nat>>,
                           regs: seq<seq<nat>>, S: seq<set<nat>>, changed: bool, i: nat, k: nat)
    requires ValidAdjacency(adj)
  {
    && |regs0| == |S0| == |regs| == |S| == |adj| && Grown(S0, S)
    && (forall u: nat, c: nat {:trigger adj[u][c]} :: Seen(adj, u, c, i, k) ==> S0[adj[u][c]] <= S[u])
    && (!changed ==> regs == regs0 && forall u: nat, c: nat {:trigger adj[u][c]} :: Seen(adj, u, c, i, k) ==>
        Leq(regs[adj[u][c]], regs[u]))
  }

  ghost predicate Seen(adj: seq<seq<nat>>, u: nat, c: nat, i: nat, k: nat) {
    u < |adj| && c < |adj[u]| && (u < i || (u == i && c < k))
  }

  lemma RoundingStep(adj: seq<seq<nat>>, regs0: seq<seq<nat>>, S0: seq<set<nat>>,
                     regs: seq<seq<nat>>, S: seq<set<nat>>, changed: bool, i: nat, k: nat, r: seq<nat>)
    requires ValidAdjacency(adj) && i < |adj| && k < |adj[i]|
    requires Rounding(adj, regs0, S0, regs, S, changed, i, k)
    requires r == regs[i] ==> Leq(regs[adj[i][k]], regs[i])
    ensures Rounding(adj, regs0, S0, regs[i := r], S[i := S[i] + S[adj[i][k]]], changed || r != regs[i], i, k + 1)
  {
    var j := adj[i][k];
    var S' := S[i := S[i] + S[j]];
    forall u: nat, c: nat | Seen(adj, u, c, i, k + 1)
      ensures S0[adj[u][c]] <= S'[u]
    {
      if Seen(adj, u, c, i, k) {
        assert S[u] <= S'[u];
      } else {
        assert u == i && c == k;
      }
    }
    if !(changed || r != regs[i]) {
      assert regs[i := r] == regs;
    }
  }

  /** No register fell, and some rose exactly when the flag says so. */
  ghost predicate Rising(regs0: seq<seq<nat>>, regs: seq<seq<nat>>, changed: bool) {
    && |regs0| == |regs| && (forall v: nat {:trigger regs[v]} :: v < |regs| ==> Leq(regs0[v], regs[v]))
    && (changed <==> regs != regs0)
  }

  /** Rising twice is rising, unless nothing moved. */
  lemma RiseTwice(a: seq<nat>, b: seq<nat>, c: seq<nat>)
    requires Leq(a, b) && Leq(b, c)
    ensures Leq(a, c) && (a == c <==> a == b && b == c)
  {
    if a == c {
      forall i: nat | i < M
        ensures a[i] == b[i]
      {
        assert a[i] <= b[i] <= c[i];
      }
      assert a == b;
    }
  }

  lemma RisingStep(regs0: seq<seq<nat>>, regs: seq<seq<nat>>, changed: bool, i: nat, r: seq<nat>)
    requires i < |regs| && Rising(regs0, regs, changed) && Leq(regs[i], r)
    ensures Rising(regs0, regs[i := r], changed || r != regs[i])
  {
    var next := regs[i := r];
    RiseTwice(regs0[i], regs[i], r);
    if changed {
      var v :| 0 <= v < |regs| && regs[v] != regs0[v];
      assert next[v] != regs0[v];
    } else if r == regs[i] {
      assert next == regs;
    } else {
      assert next[i] != regs0[i];
    }
  }

  method MergeOne(fwd: seq<HllSketch>, i: nat, j: nat, ghost regs: seq<seq<nat>>)
      returns (changed: bool, ghost r: seq<nat>)
    requires Distinct(fwd) && i < |fwd| && j < |fwd| && Holds(fwd, regs)
    requires |regs[i]| == M == |regs[j]|
    modifies fwd[i]
    ensures Joined(regs[i], regs[j], r) && Holds(fwd, regs[i := r]) && (changed <==> r != regs[i])
  {
    var target := new HllSketch.Clone(fwd[j]);
    changed := fwd[i].Merge(target);
    r := fwd[i].registers;
  }

  /** Merge the neighbours of every node into it, in place, one node after another. */
  method Round(adj: seq<seq<nat>>, ghost hash: nat -> nat, fwd: seq<HllSketch>, ghost regs0: seq<seq<nat>>,
      ghost S0: seq<set<nat>>)
    returns (changed: bool, ghost regs: seq<seq<nat>>, ghost S: seq<set<nat>>)
    requires ValidAdjacency(adj) && |fwd| == |adj| && Distinct(fwd) && Holds(fwd, regs0)
    requires |S0| == |adj| && Sketched(AdjEdges(adj), hash, regs0, S0)
    modifies fwd
    ensures Holds(fwd, regs) && Sketched(AdjEdges(adj), hash, regs, S)
    ensures Rounding(adj, regs0, S0, regs, S, changed, |adj|, 0) && (changed <==> regs != regs0)
  {
    changed, regs, S := false, regs0, S0;
    assert forall v: nat :: v < |S0| ==> IsSketch(hash, S0[v], regs0[v]);
    var i := 0;
    while i < |adj|
      invariant 0 <= i <= |adj| && Holds(fwd, regs) && Sketched(AdjEdges(adj), hash, regs, S)
      invariant Rounding(adj, regs0, S0, regs, S, changed, i, 0) && Rising(regs0, regs, changed)
    {
      var k := 0;
      while k < |adj[i]|
        invariant 0 <= k <= |adj[i]| && Holds(fwd, regs) && Sketched(AdjEdges(adj), hash, regs, S)
        invariant Rounding(adj, regs0, S0, regs, S, changed, i, k) && Rising(regs0, regs, changed)
      {
        var j := adj[i][k];
        assert IsSketch(hash, S[i], regs[i]) && IsSketch(hash, S[j], regs[j]);
        var grew; ghost var r;
        grew, r := MergeOne(fwd, i, j, regs);
        MergeSketched(AdjEdges(adj), hash, regs, S, i, j, r);
        RoundingStep(adj, regs0, S0, regs, S, changed, i, k, r);
        RisingStep(regs0, regs, changed, i, r);
        changed := changed || grew;
        regs, S := regs[i := r], S[i := S[i] + S[j]];
        k := k + 1;
      }
      NextRow(adj, regs0, S0, regs, S, changed, i);
      i := i + 1;
    }
  }

  lemma NextRow(adj: seq<seq<nat>>, regs0: seq<seq<nat>>, S0: seq<set<nat>>,
                regs: seq<seq<nat>>, S: seq<set<nat>>, changed: bool, i: nat)
    requires ValidAdjacency(adj) && i < |adj| && Rounding(adj, regs0, S0, regs, S, changed, i, |adj[i]|)
    ensures Rounding(adj, regs0, S0, regs, S, changed, i + 1, 0)
  {
    assert forall u: nat, c: nat :: Seen(adj, u, c, i + 1, 0) ==> Seen(adj, u, c, i, |adj[i]|);
  }

  // ---------------------------------------------------------------- rounds

  /** Each set holds every node within `k` edges. */
  ghost predicate Covers(E: Edges, S: seq<set<nat>>, k: nat) {
    forall v: nat, x: nat :: v < |S| && Within(E, v, x, k) ==> x in S[v]
  }

  /** One round reaches at least one edge farther. */
  lemma RoundCovers(adj: seq<seq<nat>>, hash: nat -> nat, regs0: seq<seq<nat>>, S0: seq<set<nat>>,
                    regs: seq<seq<nat>>, S: seq<set<nat>>, changed: bool, k: nat)
    requires ValidAdjacency(adj) && Rounding(adj, regs0, S0, regs, S, changed, |adj|, 0)
    requires Sketched(AdjEdges(adj), hash, regs, S) && Covers(AdjEdges(adj), S0, k)
    ensures Covers(AdjEdges(adj), S, k + 1)
  {
    var E := AdjEdges(adj);
    forall v: nat, x: nat | v < |S| && Within(E, v, x, k + 1)
      ensures x in S[v]
    {
      assert v in S[v];
      if v != x {
        var w := WithinFirst(E, v, x, k);
        var c: nat :| c < |adj[v]| && adj[v][c] == w;
        assert Seen(adj, v, c, |adj|, 0);
        assert x in S0[w];
      }
    }
  }

  /** A round that changed nothing leaves every edge's target below its source. */
  ghost predicate Settled(E: Edges, regs: seq<seq<nat>>) {
    forall u: nat, v: nat :: (u, v) in E && u < |regs| && v < |regs| ==> Leq(regs[v], regs[u])
  }

  lemma UnchangedSettled(adj: seq<seq<nat>>, regs0: seq<seq<nat>>, S0: seq<set<nat>>, regs: seq<seq<nat>>,
      S: seq<set<nat>>)
    requires ValidAdjacency(adj) && Rounding(adj, regs0, S0, regs, S, false, |adj|, 0)
    ensures Settled(AdjEdges(adj), regs)
  {
    forall u: nat, v: nat | (u, v) in AdjEdges(adj) && u < |regs| && v < |regs|
      ensures Leq(regs[v], regs[u])
    {
      var c: nat :| c < |adj[u]| && adj[u][c] == v;
      assert Seen(adj, u, c, |adj|, 0);
    }
  }

  lemma {:induction false} SettledAlong(E: Edges, regs: seq<seq<nat>>, p: seq<nat>)
    requires Settled(E, regs) && Bounded(E, |regs|) && IsPath(E, p) && p[0] < |regs|
    requires forall v :: 0 <= v < |regs| ==> |regs[v]| == M
    ensures p[|p| - 1] < |regs| && Leq(regs[p[|p| - 1]], regs[p[0]])
    decreases |p|
  {
    if |p| > 1 {
      PathPrefix(E, p, |p| - 2);
      SettledAlong(E, regs, p[..|p| - 1]);
      assert (p[|p| - 2], p[|p| - 2 + 1]) in E;
    }
  }

  ghost function ReachSet(E: Edges, n: nat, v: nat): set<nat> {
    set x | x in Below(n) && Reach(E, v, x)
  }

  /** At a fixpoint each node's registers are the sketch of everything it reaches. */
  lemma SettledExact(E: Edges, hash: nat -> nat, regs: seq<seq<nat>>, S: seq<set<nat>>, v: nat)
    requires Bounded(E, |regs|) && Sketched(E, hash, regs, S) && Settled(E, regs) && v < |S|
    ensures IsSketch(hash, ReachSet(E, |regs|, v), regs[v])
  {
    assert v in S[v];
    forall u: nat | u < |regs|
      ensures |regs[u]| == M
    {
      assert u in S[u];
    }
    forall i: nat, k: nat | i < M
      ensures regs[v][i] > k <==> Lifted(hash, ReachSet(E, |regs|, v), i, k)
    {
      if x: nat :| x in ReachSet(E, |regs|, v) && Lifts(hash(x), i, k) {
        var p :| PathFromTo(E, p, v, x);
        SettledAlong(E, regs, p);
        assert x in S[x] && IsSketch(hash, S[x], regs[x]);
        assert Lifted(hash, S[x], i, k);
      }
      if Lifted(hash, S[v], i, k) {
        var x: nat :| x in S[v] && Lifts(hash(x), i, k);
        ReachBounded(E, |regs|, v, x);
        assert x in ReachSet(E, |regs|, v);
      }
    }
  }

  /** When every reachable node is within the rounds run, the bound costs nothing. */
  lemma CoveredExact(E: Edges, hash: nat -> nat, regs: seq<seq<nat>>, S: seq<set<nat>>, k: nat, v: nat)
    requires Bounded(E, |regs|) && Sketched(E, hash, regs, S) && Covers(E, S, k) && v < |S|
    requires forall x: nat :: Reach(E, v, x) ==> Within(E, v, x, k)
    ensures IsSketch(hash, ReachSet(E, |regs|, v), regs[v])
  {
    assert v in S[v];
    forall x: nat
      ensures x in S[v] <==> x in ReachSet(E, |regs|, v)
    {
      if Reach(E, v, x) {
        ReachBounded(E, |regs|, v, x);
      }
      if x in S[v] {
        assert Reach(E, v, x);
        ReachBounded(E, |regs|, v, x);
      }
    }
    assert S[v] == ReachSet(E, |regs|, v);
  }

  /** Some node reaches another, but not within `k` edges. */
  ghost predicate FarApart(E: Edges, n: nat, k: nat) {
    exists v: nat, x: nat :: v < n && Reach(E, v, x) && !Within(E, v, x, k)
  }

  /** A round changes something only where a node reaches another beyond those covered. */
  lemma ChangedFar(E: Edges, hash: nat -> nat, regs0: seq<seq<nat>>, S0: seq<set<nat>>, regs: seq<seq<nat>>,
                   S: seq<set<nat>>, k: nat)
    requires Sketched(E, hash, regs0, S0) && Sketched(E, hash, regs, S) && Grown(S0, S) && Covers(E, S0, k)
    requires regs != regs0
    ensures FarApart(E, |regs|, k)
  {
    var v: nat :| v < |regs| && regs[v] != regs0[v];
    assert IsSketch(hash, S[v], regs[v]) && IsSketch(hash, S0[v], regs0[v]);
    if S[v] == S0[v] {
      SketchUnique(hash, S[v], regs[v], regs0[v]);
    }
    var x: nat :| x in S[v] && x !in S0[v];
    assert Reach(E, v, x) && !Within(E, v, x, k);
  }

  /** Propagation makes at most one round more than the largest distance has edges: an earlier round that
      changed something shows that some node reaches another only farther away. */
  ghost predicate Prompt(E: Edges, n: nat, rounds: nat, converged: bool) {
    && (rounds >= 2 ==> FarApart(E, n, rounds - 2))
    && (rounds >= 1 && !converged ==> FarApart(E, n, rounds - 1))
  }

  /** What propagation computes. The registers are the sketch of a set between the ball of
      `rounds` edges and the reachable set, and of exactly the reachable set if the last round
      changed nothing. */
  ghost predicate Propagated(E: Edges, hash: nat -> nat, regs: seq<seq<nat>>, S: seq<set<nat>>, rounds: nat,
      converged: bool) {
    && Sketched(E, hash, regs, S) && Covers(E, S, rounds)
    && (converged || rounds == 64)
    && (converged ==> forall v: nat :: v < |regs| ==> IsSketch(hash, ReachSet(E, |regs|, v), regs[v]))
  }

  /** The sketch of a node alone. */
  method OwnSketch(v: nat, hash: nat -> nat) returns (s: HllSketch)
    ensures fresh(s) && IsSketch(hash, {v}, s.registers)
  {
    s := new HllSketch();
    s.AddHash(hash(v));
    SingletonSketch(hash, v, s.registers);
  }

  method OwnSketches(n: nat, hash: nat -> nat)
      returns (fwd: seq<HllSketch>, ghost regs: seq<seq<nat>>, ghost S: seq<set<nat>>)
    ensures |fwd| == n == |regs| == |S| && Distinct(fwd) && Holds(fwd, regs) && forall v :: 0 <= v < n ==> fresh(fwd[v])
    ensures forall E :: Sketched(E, hash, regs, S)
    ensures forall v :: 0 <= v < n ==> S[v] == {v}
  {
    fwd, regs, S := [], [], [];
    var i := 0;
    while i < n
      invariant 0 <= i <= n && |fwd| == i == |regs| == |S|
      invariant forall v :: 0 <= v < i ==> fresh(fwd[v])
      invariant Distinct(fwd) && Holds(fwd, regs)
      invariant forall v: nat :: v < i ==> IsSketch(hash, S[v], regs[v]) && S[v] == {v}
    {
      var s := OwnSketch(i, hash);
      fwd, regs, S := fwd + [s], regs + [s.registers], S + [{i}];
      i := i + 1;
    }
    OwnSketched(hash, regs, S);
  }

  lemma OwnSketched(hash: nat -> nat, regs: seq<seq<nat>>, S: seq<set<nat>>)
    requires |regs| == |S| && forall v: nat :: v < |S| ==> IsSketch(hash, S[v], regs[v]) && S[v] == {v}
    ensures forall E :: Sketched(E, hash, regs, S)
  {
    forall E, v: nat | v < |S|
      ensures Reach(E, v, v)
    {
      PathRefl(E, v);
    }
  }

  /** Descendant sketches along `adj`; with the incoming rows instead, ancestor sketches. */
  method Propagate(adj: seq<seq<nat>>, hash: nat -> nat)
    returns (fwd: seq<HllSketch>, rounds: nat, converged: bool, ghost regs: seq<seq<nat>>, ghost S: seq<set<nat>>)
    requires ValidAdjacency(adj)
    ensures |fwd| == |adj| == |regs| && Holds(fwd, regs) && rounds <= MAX_ROUNDS
    ensures Propagated(AdjEdges(adj), hash, regs, S, rounds, converged)
    ensures Prompt(AdjEdges(adj), |adj|, rounds, converged)
  {
    fwd, regs, S := OwnSketches(|adj|, hash);
    rounds, converged := 0, false;
    forall v: nat, x: nat | v < |S| && Within(AdjEdges(adj), v, x, 0)
      ensures x in S[v]
    {
      WithinUnfold(AdjEdges(adj), v, x, 0);
    }
    while rounds < MAX_ROUNDS && !converged
      invariant rounds <= MAX_ROUNDS && |fwd| == |adj| == |regs| == |S|
      invariant forall v :: 0 <= v < |fwd| ==> fresh(fwd[v])
      invariant Distinct(fwd) && Holds(fwd, regs) && Sketched(AdjEdges(adj), hash, regs, S)
      invariant Covers(AdjEdges(adj), S, rounds)
      invariant converged ==> Settled(AdjEdges(adj), regs)
      invariant Prompt(AdjEdges(adj), |adj|, rounds, converged)
    {
      ghost var regs0, S0 := regs, S;
      var changed;
      changed, regs, S := Round(adj, hash, fwd, regs0, S0);
      RoundCovers(adj, hash, regs0, S0, regs, S, changed, rounds);
      if changed {
        ChangedFar(AdjEdges(adj), hash, regs0, S0, regs, S, rounds);
      } else {
        UnchangedSettled(adj, regs0, S0, regs, S);
      }
      rounds, converged := rounds + 1, !changed;
    }
    if converged {
      forall v: nat | v < |regs|
        ensures IsSketch(hash, ReachSet(AdjEdges(adj), |regs|, v), regs[v])
      {
        SettledExact(AdjEdges(adj), hash, regs, S, v);
      }
    }
  }

  ghost function AncestorSet(E: Edges, n: nat, v: nat): set<nat> {
    set x | x in Below(n) && Reach(E, x, v)
  }

  /** Ancestors are descendants in the reversed graph. */
  lemma AncestorsReversed(E: Edges, n: nat, v: nat)
    ensures ReachSet(Reversed(E), n, v) == AncestorSet(E, n, v)
  {
    forall x: nat
      ensures Reach(Reversed(E), v, x) <==> Reach(E, x, v)
    {
      ReachReversed(E, x, v);
    }
  }

  /** Everything `v` reaches is within the round bound. */
  ghost predicate NearAll(E: Edges, v: nat) {
    forall x: nat :: Reach(E, v, x) ==> Within(E, v, x, 64)
  }

  lemma ExactWhen(E: Edges, hash: nat -> nat, regs: seq<seq<nat>>, S: seq<set<nat>>, rounds: nat, converged: bool,
      v: nat)
    requires Bounded(E, |regs|) && v < |regs| && Propagated(E, hash, regs, S, rounds, converged)
    requires converged || NearAll(E, v)
    ensures IsSketch(hash, ReachSet(E, |regs|, v), regs[v])
  {
    if !converged {
      CoveredExact(E, hash, regs, S, rounds, v);
    }
  }

  /** The registers sketch a set between the nodes within `rounds` edges of `v` and all it reaches. */
  ghost predicate Between(E: Edges, n: nat, hash: nat -> nat, v: nat, rounds: nat, registers: seq<nat>) {
    exists s: set<nat> ::
      && (forall x: nat :: Within(E, v, x, rounds) ==> x in s)
      && s <= ReachSet(E, n, v) && IsSketch(hash, s, registers)
  }

  lemma PropagatedBetween(E: Edges, hash: nat -> nat, regs: seq<seq<nat>>, S: seq<set<nat>>, rounds: nat,
      converged: bool, v: nat)
    requires Bounded(E, |regs|) && v < |regs| && Propagated(E, hash, regs, S, rounds, converged)
    ensures Between(E, |regs|, hash, v, rounds, regs[v])
  {
    assert v in S[v];
    forall x: nat | x in S[v]
      ensures x in ReachSet(E, |regs|, v)
    {
      assert Reach(E, v, x);
      ReachBounded(E, |regs|, v, x);
    }
    assert IsSketch(hash, S[v], regs[v]);
  }

  /** What the sketches of one direction say: for every node a set between its ball and its reachable
      set, and exactly the latter when the rounds settled or everything it reaches is near. */
  ghost predicate Estimates(E: Edges, hash: nat -> nat, sketches: seq<HllSketch>, rounds: nat, settled: bool)
    reads sketches
  {
    && rounds <= 64 && (settled || rounds == 64) && Prompt(E, |sketches|, rounds, settled)
    && (forall v: nat :: v < |sketches| ==> Between(E, |sketches|, hash, v, rounds, sketches[v].registers))
    && (forall v: nat :: v < |sketches| && (settled || NearAll(E, v)) ==>
          IsSketch(hash, ReachSet(E, |sketches|, v), sketches[v].registers))
  }

  /** One direction of the estimate. */
  method Direction(adj: seq<seq<nat>>, hash: nat -> nat)
    returns (sketches: seq<HllSketch>, rounds: nat, settled: bool)
    requires ValidAdjacency(adj)
    ensures |sketches| == |adj| && Estimates(AdjEdges(adj), hash, sketches, rounds, settled)
  {
    ghost var regs, S;
    sketches, rounds, settled, regs, S := Propagate(adj, hash);
    forall v: nat | v < |adj|
      ensures Between(AdjEdges(adj), |adj|, hash, v, rounds, regs[v])
      ensures settled || NearAll(AdjEdges(adj), v) ==> IsSketch(hash, ReachSet(AdjEdges(adj), |adj|, v), regs[v])
    {
      PropagatedBetween(AdjEdges(adj), hash, regs, S, rounds, settled, v);
      if settled || NearAll(AdjEdges(adj), v) {
        ExactWhen(AdjEdges(adj), hash, regs, S, rounds, settled, v);
      }
    }
  }

  /** Descendants along outgoing rows, ancestors along incoming rows, of the same graph. */
  method ApproximateReachability(outgoing: seq<seq<nat>>, incoming: seq<seq<nat>>, hash: nat -> nat)
    returns (fwd: seq<HllSketch>, bwd: seq<HllSketch>, fwdRounds: nat, bwdRounds: nat, fwdSettled: bool,
             bwdSettled: bool)
    requires ValidAdjacency(outgoing) && ValidAdjacency(incoming) && |incoming| == |outgoing|
    requires AdjEdges(incoming) == Reversed(AdjEdges(outgoing))
    ensures |fwd| == |outgoing| == |bwd|
    ensures Estimates(AdjEdges(outgoing), hash, fwd, fwdRounds, fwdSettled)
    ensures Estimates(Reversed(AdjEdges(outgoing)), hash, bwd, bwdRounds, bwdSettled)
    ensures forall v: nat :: v < |bwd| && (bwdSettled || NearAll(Reversed(AdjEdges(outgoing)), v)) ==>
              IsSketch(hash, AncestorSet(AdjEdges(outgoing), |bwd|, v), bwd[v].registers)
  {
    fwd, fwdRounds, fwdSettled := Direction(outgoing, hash);
    bwd, bwdRounds, bwdSettled := Direction(incoming, hash);
    forall v: nat | v < |bwd|
      ensures ReachSet(Reversed(AdjEdges(outgoing)), |bwd|, v) == AncestorSet(AdjEdges(outgoing), |bwd|, v)
    {
      AncestorsReversed(AdjEdges(outgoing), |bwd|, v);
    }
  }
}
