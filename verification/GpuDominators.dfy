/** Parallel Cooper-Harvey-Kennedy: whole sweeps over a double-buffered idom array.

    Early sweeps may point a node at one with a larger reverse-postorder number, so the
    proof follows shortest distances instead: along `idom` the distance from the root
    strictly falls. */
module GpuDominators {
  import opened Graphs
  import opened Rows
  import opened Dominance
  import opened Wrappers

  const UNDEF: nat := 0xffff_ffff

  /** The kernel's read-only inputs: predecessor rows, numbering, root. */
  datatype Input = Input(n: nat, root: nat, predOff: seq<nat>, pred: seq<nat>, rpo: seq<nat>) {
    ghost predicate Valid() {
      && root < n <= UNDEF
      && ValidRows(n, predOff, pred)
      && OrdersDominators(E(), n, root, rpo, UNDEF)
    }

    ghost function E(): Edges
      requires ValidRows(n, predOff, pred)
    {
      ColumnEdges(n, predOff, pred)
    }
  }

  // ---------------------------------------------------------------- idom chains

  /** `w` is `k` idom steps above `v`. */
  ghost predicate Up(idom: seq<nat>, root: nat, v: nat, w: nat, k: nat)
    decreases k
  {
    if k == 0 then v == w
    else v < |idom| && v != root && idom[v] != UNDEF && Up(idom, root, idom[v], w, k - 1)
  }

  /** `w` is on the idom chain that starts at `v`. */
  ghost predicate OnChain(idom: seq<nat>, root: nat, w: nat, v: nat) {
    exists k: nat :: Up(idom, root, v, w, k)
  }

  lemma ChainSelf(idom: seq<nat>, root: nat, v: nat)
    ensures OnChain(idom, root, v, v)
  {
    assert Up(idom, root, v, v, 0);
  }

  lemma ChainUnfold(idom: seq<nat>, root: nat, w: nat, v: nat)
    requires v < |idom| && v != root && idom[v] != UNDEF
    ensures OnChain(idom, root, w, v) <==> w == v || OnChain(idom, root, w, idom[v])
  {
    ChainSelf(idom, root, v);
    if k: nat :| Up(idom, root, v, w, k) {
      if k > 0 {
        assert Up(idom, root, idom[v], w, k - 1);
      }
    }
    if k: nat :| Up(idom, root, idom[v], w, k) {
      assert Up(idom, root, v, w, k + 1);
    }
  }

  lemma {:induction false} UpTransitive(idom: seq<nat>, root: nat, u: nat, v: nat, w: nat, j: nat, k: nat)
    requires Up(idom, root, u, v, j) && Up(idom, root, v, w, k)
    ensures Up(idom, root, u, w, j + k)
    decreases j
  {
    if j > 0 {
      UpTransitive(idom, root, idom[u], v, w, j - 1, k);
    }
  }

  lemma ChainTransitive(idom: seq<nat>, root: nat, u: nat, v: nat, w: nat)
    requires OnChain(idom, root, v, u) && OnChain(idom, root, w, v)
    ensures OnChain(idom, root, w, u)
  {
    var j: nat :| Up(idom, root, u, v, j);
    var k: nat :| Up(idom, root, v, w, k);
    UpTransitive(idom, root, u, v, w, j, k);
  }

  // ---------------------------------------------------------------- what every sweep keeps

  /** After `t` sweeps exactly the nodes within `t` steps are defined, and each points
      at a node strictly nearer to the root. */
  ghost predicate Levels(g: Input, idom: seq<nat>, t: nat)
    requires g.Valid()
  {
    && |idom| == g.n
    && idom[g.root] == g.root
    && (forall v: nat :: v < g.n ==> (idom[v] != UNDEF <==> Within(g.E(), g.root, v, t)))
    && (forall v: nat :: v < g.n && v != g.root && idom[v] != UNDEF ==>
                      idom[v] < g.n && Nearer(g, idom[v], v))
  }

  ghost predicate Nearer(g: Input, u: nat, v: nat)
    requires g.Valid()
  {
    && Reach(g.E(), g.root, u) && Reach(g.E(), g.root, v)
    && Dist(g.E(), g.root, u) < Dist(g.E(), g.root, v)
  }

  /** No strict dominator is skipped: it dominates the node pointed at. */
  ghost predicate KeepsDominators(g: Input, idom: seq<nat>)
    requires g.Valid() && |idom| == g.n
  {
    forall d: nat, v: nat ::
      v < g.n && v != g.root && idom[v] != UNDEF && StrictlyDominates(g.E(), g.root, d, v)
      ==> Dominates(g.E(), g.root, d, idom[v])
  }

  /** Every chain node lies on every path of at most `t` edges. */
  ghost predicate CutsPaths(g: Input, idom: seq<nat>, t: nat)
    requires g.Valid()
  {
    forall p, v: nat, w: nat :: PathFromTo(g.E(), p, g.root, v) && |p| <= t + 1 && OnChain(idom, g.root, w, v) ==>
        w in p
  }

  ghost predicate Inv(g: Input, idom: seq<nat>, t: nat)
    requires g.Valid()
  {
    Levels(g, idom, t) && KeepsDominators(g, idom) && CutsPaths(g, idom, t)
  }

  lemma DefinedReachable(g: Input, idom: seq<nat>, t: nat, v: nat)
    requires g.Valid() && Levels(g, idom, t) && v < g.n && idom[v] != UNDEF
    ensures Reach(g.E(), g.root, v) && g.rpo[v] != UNDEF
    ensures Dist(g.E(), g.root, v) <= t
    ensures idom[v] < g.n && idom[idom[v]] != UNDEF
  {
    WithinMonotone(g.E(), g.root, v, t, t);
    DistanceWithin(g.E(), g.root, v, Dist(g.E(), g.root, v), t);
    if v != g.root {
      DistanceWithin(g.E(), g.root, idom[v], Dist(g.E(), g.root, idom[v]), t);
    }
  }

  /** Chain nodes are defined and no farther than where the chain starts. */
  lemma {:induction false} UpDefined(g: Input, idom: seq<nat>, t: nat, v: nat, w: nat, k: nat)
    requires g.Valid() && Levels(g, idom, t) && v < g.n && idom[v] != UNDEF
    requires Up(idom, g.root, v, w, k)
    ensures w < g.n && idom[w] != UNDEF && Reach(g.E(), g.root, w) && Reach(g.E(), g.root, v)
    ensures Dist(g.E(), g.root, w) <= Dist(g.E(), g.root, v)
    decreases k
  {
    DefinedReachable(g, idom, t, v);
    if k > 0 {
      UpDefined(g, idom, t, idom[v], w, k - 1);
    }
  }

  lemma ChainDefined(g: Input, idom: seq<nat>, t: nat, w: nat, v: nat)
    requires g.Valid() && Levels(g, idom, t) && v < g.n && idom[v] != UNDEF
    requires OnChain(idom, g.root, w, v)
    ensures w < g.n && idom[w] != UNDEF && Reach(g.E(), g.root, w) && Reach(g.E(), g.root, v)
    ensures Dist(g.E(), g.root, w) <= Dist(g.E(), g.root, v)
  {
    var k: nat :| Up(idom, g.root, v, w, k);
    UpDefined(g, idom, t, v, w, k);
  }

  // ---------------------------------------------------------------- intersect

  /** One finger step never passes a common dominator. */
  lemma FingerStep(g: Input, idom: seq<nat>, t: nat, a: nat, b: nat)
    requires g.Valid() && Levels(g, idom, t) && KeepsDominators(g, idom)
    requires a < g.n && b < g.n && idom[a] != UNDEF && idom[b] != UNDEF
    requires g.rpo[a] > g.rpo[b]
    ensures a != g.root && idom[a] < g.n && idom[idom[a]] != UNDEF && Nearer(g, idom[a], a)
    ensures OnChain(idom, g.root, idom[a], a)
    ensures forall d :: Dominates(g.E(), g.root, d, a) && Dominates(g.E(), g.root, d, b)
                        ==> Dominates(g.E(), g.root, d, idom[a])
  {
    DefinedReachable(g, idom, t, a);
    DefinedReachable(g, idom, t, b);
    RootDominates(g.E(), g.root, b);
    assert a != g.root;
    ChainSelf(idom, g.root, idom[a]);
    ChainUnfold(idom, g.root, idom[a], a);
    forall d | Dominates(g.E(), g.root, d, a) && Dominates(g.E(), g.root, d, b)
      ensures Dominates(g.E(), g.root, d, idom[a])
    {
      if d == a {
        assert StrictlyDominates(g.E(), g.root, a, b);
        assert false;
      }
    }
  }

  /** The finger walk stops, at a chain node of both arguments that all their
      common dominators dominate. */
  ghost predicate Meets(g: Input, idom: seq<nat>, a: nat, b: nat, r: nat)
    requires g.Valid()
  {
    && OnChain(idom, g.root, r, a) && OnChain(idom, g.root, r, b)
    && forall d :: Dominates(g.E(), g.root, d, a) && Dominates(g.E(), g.root, d, b)
                   ==> Dominates(g.E(), g.root, d, r)
  }

  ghost predicate Fingers(g: Input, idom: seq<nat>, a0: nat, b0: nat, a: nat, b: nat)
    requires g.Valid()
  {
    && a < g.n && b < g.n && |idom| == g.n && idom[a] != UNDEF && idom[b] != UNDEF
    && Reach(g.E(), g.root, a) && Reach(g.E(), g.root, b)
    && OnChain(idom, g.root, a, a0) && OnChain(idom, g.root, b, b0)
    && forall d :: Dominates(g.E(), g.root, d, a0) && Dominates(g.E(), g.root, d, b0)
                   ==> Dominates(g.E(), g.root, d, a) && Dominates(g.E(), g.root, d, b)
  }

  ghost function Apart(g: Input, a: nat, b: nat): nat
    requires g.Valid() && Reach(g.E(), g.root, a) && Reach(g.E(), g.root, b)
  {
    Dist(g.E(), g.root, a) + Dist(g.E(), g.root, b)
  }

  method Intersect(g: Input, idom: array<nat>, a0: nat, b0: nat, ghost t: nat) returns (r: nat)
    requires g.Valid() && Levels(g, idom[..], t) && KeepsDominators(g, idom[..])
    requires a0 < g.n && b0 < g.n && idom[a0] != UNDEF && idom[b0] != UNDEF
    ensures r < g.n && Meets(g, idom[..], a0, b0, r)
  {
    ghost var s := idom[..];
    var a, b := a0, b0;
    ChainSelf(s, g.root, a);
    ChainSelf(s, g.root, b);
    DefinedReachable(g, s, t, a);
    DefinedReachable(g, s, t, b);
    while a != b
      invariant Fingers(g, s, a0, b0, a, b)
      decreases Apart(g, a, b)
    {
      ghost var before := Apart(g, a, b);
      ghost var moved := false;
      DefinedReachable(g, s, t, a);
      DefinedReachable(g, s, t, b);
      while g.rpo[a] > g.rpo[b]
        invariant Fingers(g, s, a0, b0, a, b)
        invariant Apart(g, a, b) <= before && (moved ==> Apart(g, a, b) < before)
        invariant !moved ==> g.rpo[a] != g.rpo[b]
        decreases Apart(g, a, b)
      {
        FingerStep(g, s, t, a, b);
        ChainTransitive(s, g.root, a0, a, s[a]);
        a, moved := idom[a], true;
      }
      while g.rpo[b] > g.rpo[a]
        invariant Fingers(g, s, a0, b0, a, b)
        invariant Apart(g, a, b) <= before && (moved ==> Apart(g, a, b) < before)
        invariant !moved ==> g.rpo[b] > g.rpo[a]
        decreases Apart(g, a, b)
      {
        FingerStep(g, s, t, b, a);
        ChainTransitive(s, g.root, b0, b, s[b]);
        b, moved := idom[b], true;
      }
    }
    r := a;
  }

  // ---------------------------------------------------------------- one sweep

  /** `x` is the fold of the predecessors of `b` listed before row position `k`. */
  ghost predicate Folded(g: Input, idom: seq<nat>, b: nat, k: nat, x: nat)
    requires g.Valid() && |idom| == g.n && b < g.n && g.predOff[b] <= k <= g.predOff[b + 1]
  {
    if x == UNDEF then
      forall j :: g.predOff[b] <= j < k ==> idom[g.pred[j]] == UNDEF
    else
      && x < g.n && idom[x] != UNDEF
      && (exists j :: g.predOff[b] <= j < k && idom[g.pred[j]] != UNDEF)
      && (forall j :: g.predOff[b] <= j < k && idom[g.pred[j]] != UNDEF ==> OnChain(idom, g.root, x, g.pred[j]))
      && (forall d :: DominatesFolded(g, idom, b, k, d) ==> Dominates(g.E(), g.root, d, x))
  }

  ghost predicate DominatesFolded(g: Input, idom: seq<nat>, b: nat, k: nat, d: nat)
    requires g.Valid() && |idom| == g.n && b < g.n && g.predOff[b] <= k <= g.predOff[b + 1]
  {
    forall j :: g.predOff[b] <= j < k && idom[g.pred[j]] != UNDEF ==> Dominates(g.E(), g.root, d, g.pred[j])
  }

  /** What thread `b` writes. */
  ghost predicate ThreadWrites(g: Input, idomIn: seq<nat>, b: nat, x: nat)
    requires g.Valid() && |idomIn| == g.n && b < g.n
  {
    if b == g.root || g.rpo[b] == UNDEF then x == idomIn[b]
    else Folded(g, idomIn, b, g.predOff[b + 1], x)
  }

  ghost predicate Sweep(g: Input, idomIn: seq<nat>, idomOut: seq<nat>)
    requires g.Valid() && |idomIn| == g.n == |idomOut|
  {
    forall b: nat :: b < g.n ==> ThreadWrites(g, idomIn, b, idomOut[b])
  }

  lemma FoldSkip(g: Input, idom: seq<nat>, b: nat, k: nat, x: nat)
    requires g.Valid() && |idom| == g.n && b < g.n && g.predOff[b] <= k < g.predOff[b + 1]
    requires Folded(g, idom, b, k, x) && idom[g.pred[k]] == UNDEF
    ensures Folded(g, idom, b, k + 1, x)
  {
    forall d | DominatesFolded(g, idom, b, k + 1, d)
      ensures DominatesFolded(g, idom, b, k, d)
    {
    }
  }

  lemma FoldFirst(g: Input, idom: seq<nat>, b: nat, k: nat)
    requires g.Valid() && |idom| == g.n && b < g.n && g.predOff[b] <= k < g.predOff[b + 1]
    requires Folded(g, idom, b, k, UNDEF) && idom[g.pred[k]] != UNDEF
    ensures Folded(g, idom, b, k + 1, g.pred[k])
  {
    ChainSelf(idom, g.root, g.pred[k]);
  }

  lemma MeetOnChain(g: Input, idom: seq<nat>, b: nat, k: nat, x: nat, r: nat, j: nat)
    requires g.Valid() && |idom| == g.n && b < g.n && g.predOff[b] <= k < g.predOff[b + 1]
    requires x != UNDEF && Folded(g, idom, b, k, x) && OnChain(idom, g.root, r, g.pred[k])
        && OnChain(idom, g.root, r, x)
    requires g.predOff[b] <= j < k + 1 && idom[g.pred[j]] != UNDEF
    ensures OnChain(idom, g.root, r, g.pred[j])
  {
    if j < k {
      ChainTransitive(idom, g.root, g.pred[j], x, r);
    }
  }

  lemma FoldMeet(g: Input, idom: seq<nat>, b: nat, k: nat, x: nat, t: nat, r: nat)
    requires g.Valid() && Levels(g, idom, t) && b < g.n && g.predOff[b] <= k < g.predOff[b + 1]
    requires x != UNDEF && Folded(g, idom, b, k, x) && idom[g.pred[k]] != UNDEF
    requires r < g.n && Meets(g, idom, g.pred[k], x, r)
    ensures Folded(g, idom, b, k + 1, r)
  {
    ChainDefined(g, idom, t, r, g.pred[k]);
    forall j | g.predOff[b] <= j < k + 1 && idom[g.pred[j]] != UNDEF
      ensures OnChain(idom, g.root, r, g.pred[j])
    {
      MeetOnChain(g, idom, b, k, x, r, j);
    }
    forall d | DominatesFolded(g, idom, b, k + 1, d)
      ensures Dominates(g.E(), g.root, d, r)
    {
      assert DominatesFolded(g, idom, b, k, d);
    }
  }

  /** What a fold over the predecessors before `k` may end with. */
  ghost function Folds(g: Input, idom: seq<nat>, b: nat, k: nat): iset<nat>
    requires g.Valid() && |idom| == g.n && b < g.n && g.predOff[b] <= k <= g.predOff[b + 1]
  {
    iset x: nat | Folded(g, idom, b, k, x)
  }

  method FoldOne(g: Input, b: nat, k: nat, x: nat, idomIn: array<nat>, ghost idom: seq<nat>, ghost t: nat)
    returns (y: nat)
    requires g.Valid() && idomIn[..] == idom && b < g.n && g.predOff[b] <= k < g.predOff[b + 1]
    requires Levels(g, idom, t) && KeepsDominators(g, idom) && x in Folds(g, idom, b, k)
    ensures y in Folds(g, idom, b, k + 1)
  {
    var p := g.pred[k];
    if idomIn[p] == UNDEF {
      FoldSkip(g, idom, b, k, x);
      y := x;
    } else if x == UNDEF {
      FoldFirst(g, idom, b, k);
      y := p;
    } else {
      y := Intersect(g, idomIn, p, x, t);
      FoldMeet(g, idom, b, k, x, t, y);
    }
  }

  method FoldPredecessors(g: Input, b: nat, idomIn: array<nat>, ghost t: nat) returns (newIdom: nat)
    requires g.Valid() && idomIn.Length == g.n && b < g.n
    requires Levels(g, idomIn[..], t) && KeepsDominators(g, idomIn[..])
    ensures Folded(g, idomIn[..], b, g.predOff[b + 1], newIdom)
  {
    newIdom := UNDEF;
    ghost var idom := idomIn[..];
    for k := g.predOff[b] to g.predOff[b + 1]
      invariant newIdom in Folds(g, idom, b, k)
    {
      newIdom := FoldOne(g, b, k, newIdom, idomIn, idom, t);
    }
  }

  method DomThread(g: Input, b: nat, idomIn: array<nat>, idomOut: array<nat>, ghost t: nat) returns (moved: bool)
    requires g.Valid() && idomIn != idomOut && idomIn.Length == g.n == idomOut.Length && b < g.n
    requires Levels(g, idomIn[..], t) && KeepsDominators(g, idomIn[..])
    modifies idomOut
    ensures forall v :: 0 <= v < g.n && v != b ==> idomOut[v] == old(idomOut[v])
    ensures ThreadWrites(g, idomIn[..], b, idomOut[b])
    ensures moved <==> idomOut[b] != idomIn[b]
  {
    if b == g.root || g.rpo[b] == UNDEF {
      idomOut[b] := idomIn[b];
      moved := false;
    } else {
      var newIdom := FoldPredecessors(g, b, idomIn, t);
      idomOut[b] := newIdom;
      moved := newIdom != idomIn[b];
    }
  }

  /** One launch: the threads run in any order. */
  method LaunchSweep(g: Input, idomIn: array<nat>, idomOut: array<nat>, ghost t: nat) returns (changed: bool)
    requires g.Valid() && idomIn != idomOut && idomIn.Length == g.n == idomOut.Length
    requires Levels(g, idomIn[..], t) && KeepsDominators(g, idomIn[..])
    modifies idomOut
    ensures Sweep(g, idomIn[..], idomOut[..])
    ensures changed <==> idomOut[..] != idomIn[..]
  {
    changed := false;
    var pending := Below(g.n);
    while pending != {}
      invariant forall b: nat :: b in pending ==> b < g.n
      invariant forall b: nat :: b < g.n && b !in pending ==> ThreadWrites(g, idomIn[..], b, idomOut[b])
      invariant !changed ==> forall b: nat :: b < g.n && b !in pending ==> idomOut[b] == idomIn[b]
      invariant changed ==> exists b: nat :: b < g.n && b !in pending && idomOut[b] != idomIn[b]
    {
      var b :| b in pending;
      var moved := DomThread(g, b, idomIn, idomOut, t);
      changed := changed || moved;
      pending := pending - {b};
    }
  }

  // ---------------------------------------------------------------- the invariant, sweep by sweep

  ghost predicate Start(g: Input, idom: seq<nat>)
    requires g.Valid()
  {
    |idom| == g.n && forall v :: 0 <= v < g.n ==> idom[v] == if v == g.root then g.root else UNDEF
  }

  lemma StartInv(g: Input, idom: seq<nat>)
    requires g.Valid() && Start(g, idom)
    ensures Inv(g, idom, 0)
  {
    forall v: nat | v < g.n
      ensures idom[v] != UNDEF <==> Within(g.E(), g.root, v, 0)
    {
      WithinUnfold(g.E(), g.root, v, 0);
    }
  }

  /** A swept node is defined exactly when some predecessor was. */
  lemma SweptDefined(g: Input, idomIn: seq<nat>, x: nat, t: nat, v: nat)
    requires g.Valid() && Levels(g, idomIn, t) && v < g.n && v != g.root
    requires ThreadWrites(g, idomIn, v, x)
    ensures x != UNDEF <==> Within(g.E(), g.root, v, t + 1)
  {
    var E := g.E();
    WithinUnfold(E, g.root, v, t);
    if Within(E, g.root, v, t + 1) {
      WithinMonotone(E, g.root, v, t + 1, t + 1);
      var u := WithinLast(E, g.root, v, t);
      var j :| g.predOff[v] <= j < g.predOff[v + 1] && g.pred[j] == u;
      assert idomIn[g.pred[j]] != UNDEF;
    }
    if x != UNDEF {
      if g.rpo[v] == UNDEF {
        DefinedReachable(g, idomIn, t, v);
      } else {
        var j :| g.predOff[v] <= j < g.predOff[v + 1] && idomIn[g.pred[j]] != UNDEF;
        assert InRow(g.n, g.predOff, g.pred, v, g.pred[j]);
        assert (g.pred[j], v) in E;
      }
    }
  }

  /** The node a thread writes is strictly nearer to the root. */
  lemma SweptNearer(g: Input, idomIn: seq<nat>, x: nat, t: nat, v: nat)
    requires g.Valid() && Levels(g, idomIn, t) && v < g.n && v != g.root && g.rpo[v] != UNDEF
    requires Folded(g, idomIn, v, g.predOff[v + 1], x) && x != UNDEF
    ensures x < g.n && Nearer(g, x, v)
  {
    var E := g.E();
    SweptDefined(g, idomIn, x, t, v);
    var d := Dist(E, g.root, v);
    DistanceWithin(E, g.root, v, d, t + 1);
    WithinUnfold(E, g.root, v, 0);
    var e: nat := d - 1;
    var u := WithinLast(E, g.root, v, e);
    WithinMonotone(E, g.root, u, e, t);
    DistanceWithin(E, g.root, u, Dist(E, g.root, u), e);
    var j :| g.predOff[v] <= j < g.predOff[v + 1] && g.pred[j] == u;
    assert idomIn[g.pred[j]] != UNDEF;
    ChainDefined(g, idomIn, t, x, u);
  }

  lemma SweepKeepsLevels(g: Input, idomIn: seq<nat>, idomOut: seq<nat>, t: nat)
    requires g.Valid() && Levels(g, idomIn, t) && |idomOut| == g.n && Sweep(g, idomIn, idomOut)
    ensures Levels(g, idomOut, t + 1)
  {
    forall v: nat | v < g.n
      ensures idomOut[v] != UNDEF <==> Within(g.E(), g.root, v, t + 1)
      ensures v != g.root && idomOut[v] != UNDEF ==> idomOut[v] < g.n && Nearer(g, idomOut[v], v)
    {
      assert ThreadWrites(g, idomIn, v, idomOut[v]);
      if v == g.root {
        WithinUnfold(g.E(), g.root, v, 0);
        WithinMonotone(g.E(), g.root, v, 0, t + 1);
      } else {
        SweptDefined(g, idomIn, idomOut[v], t, v);
        if idomOut[v] != UNDEF {
          WithinMonotone(g.E(), g.root, v, t + 1, t + 1);
          SweptNearer(g, idomIn, idomOut[v], t, v);
        }
      }
    }
    assert ThreadWrites(g, idomIn, g.root, idomOut[g.root]);
  }

  lemma SweepKeepsDominators(g: Input, idomIn: seq<nat>, idomOut: seq<nat>, t: nat)
    requires g.Valid() && Levels(g, idomIn, t) && |idomOut| == g.n && Sweep(g, idomIn, idomOut)
    ensures KeepsDominators(g, idomOut)
  {
    var E := g.E();
    forall d: nat, v: nat | v < g.n && v != g.root && idomOut[v] != UNDEF && StrictlyDominates(E, g.root, d, v)
      ensures Dominates(E, g.root, d, idomOut[v])
    {
      assert ThreadWrites(g, idomIn, v, idomOut[v]);
      SweptDefined(g, idomIn, idomOut[v], t, v);
      WithinMonotone(E, g.root, v, t + 1, t + 1);
      forall j | g.predOff[v] <= j < g.predOff[v + 1] && idomIn[g.pred[j]] != UNDEF
        ensures Dominates(E, g.root, d, g.pred[j])
      {
        assert InRow(g.n, g.predOff, g.pred, v, g.pred[j]);
        DominatesPredecessor(E, g.root, d, g.pred[j], v);
      }
      assert DominatesFolded(g, idomIn, v, g.predOff[v + 1], d);
    }
  }

  /** The node a sweep writes lies on every covered path, before its last node. */
  lemma SweptOnPath(g: Input, idomIn: seq<nat>, idomOut: seq<nat>, t: nat, p: seq<nat>, v: nat)
    requires g.Valid() && Levels(g, idomIn, t) && CutsPaths(g, idomIn, t)
    requires |idomOut| == g.n && Sweep(g, idomIn, idomOut)
    requires PathFromTo(g.E(), p, g.root, v) && |p| <= t + 2 && v < g.n && v != g.root && idomOut[v] != UNDEF
    ensures idomOut[v] in p[..|p| - 1]
  {
    var u, j := LastPredecessor(g, p, v, t);
    assert ThreadWrites(g, idomIn, v, idomOut[v]);
    assert Reach(g.E(), g.root, v);
    assert OnChain(idomIn, g.root, idomOut[v], g.pred[j]);
  }

  /** The last edge of a path, and its place among the predecessors. */
  lemma LastPredecessor(g: Input, p: seq<nat>, v: nat, t: nat) returns (u: nat, j: nat)
    requires g.Valid() && PathFromTo(g.E(), p, g.root, v) && |p| <= t + 2 && v < g.n && v != g.root
    ensures g.predOff[v] <= j < g.predOff[v + 1] && g.pred[j] == u
    ensures PathFromTo(g.E(), p[..|p| - 1], g.root, u) && Within(g.E(), g.root, u, t)
  {
    u := p[|p| - 2];
    PathPrefix(g.E(), p, |p| - 2);
    assert (p[|p| - 2], p[|p| - 2 + 1]) in g.E();
    j :| g.predOff[v] <= j < g.predOff[v + 1] && g.pred[j] == u;
  }

  /** Chains of the new array stay on every path one edge longer: the written node is on the
      path by the old array, and its own new chain is on the path cut short there. */
  lemma {:induction false} SweepCutsPath(
      g: Input, idomIn: seq<nat>, idomOut: seq<nat>, t: nat, p: seq<nat>, v: nat, w: nat)
    requires g.Valid() && Levels(g, idomIn, t) && CutsPaths(g, idomIn, t)
    requires |idomOut| == g.n && Sweep(g, idomIn, idomOut)
    requires PathFromTo(g.E(), p, g.root, v) && |p| <= t + 2 && OnChain(idomOut, g.root, w, v)
    ensures w in p
    decreases |p|
  {
    assert p[|p| - 1] == v;
    PathBounded(g.E(), g.n, p);
    if w != v && v != g.root {
      assert idomOut[v] != UNDEF;
      ChainUnfold(idomOut, g.root, w, v);
      SweptOnPath(g, idomIn, idomOut, t, p, v);
      var r, q := idomOut[v], p[..|p| - 1];
      var i :| 0 <= i < |q| && q[i] == r;
      PathPrefix(g.E(), p, i);
      SweepCutsPath(g, idomIn, idomOut, t, p[..i + 1], r, w);
    }
  }

  lemma SweepKeepsInv(g: Input, idomIn: seq<nat>, idomOut: seq<nat>, t: nat)
    requires g.Valid() && Inv(g, idomIn, t) && |idomOut| == g.n && Sweep(g, idomIn, idomOut)
    ensures Inv(g, idomOut, t + 1)
  {
    SweepKeepsLevels(g, idomIn, idomOut, t);
    SweepKeepsDominators(g, idomIn, idomOut, t);
    forall p, v: nat, w: nat | PathFromTo(g.E(), p, g.root, v) && |p| <= t + 2 && OnChain(idomOut, g.root, w, v)
      ensures w in p
    {
      SweepCutsPath(g, idomIn, idomOut, t, p, v, w);
    }
  }

  lemma {:induction false} FixpointKeepsInv(g: Input, idom: seq<nat>, t: nat, k: nat)
    requires g.Valid() && Inv(g, idom, t) && Sweep(g, idom, idom)
    ensures Inv(g, idom, t + k)
    decreases k
  {
    if k > 0 {
      SweepKeepsInv(g, idom, idom, t);
      FixpointKeepsInv(g, idom, t + 1, k - 1);
    }
  }

  // ---------------------------------------------------------------- the limit

  ghost predicate Solved(g: Input, idom: seq<nat>)
    requires g.Valid()
  {
    && |idom| == g.n
    && idom[g.root] == g.root
    && forall v: nat :: v < g.n && v != g.root ==>
         if Reach(g.E(), g.root, v) then idom[v] < g.n && ImmediatelyDominates(g.E(), g.root, idom[v], v)
         else idom[v] == UNDEF
  }

  /** From `n - 1` sweeps on, simple paths are all covered and the map is the dominator tree. */
  lemma LimitSolved(g: Input, idom: seq<nat>, t: nat)
    requires g.Valid() && Inv(g, idom, t) && t >= g.n - 1
    ensures Solved(g, idom)
  {
    var E := g.E();
    forall v: nat | v < g.n && v != g.root
      ensures if Reach(E, g.root, v) then idom[v] < g.n && ImmediatelyDominates(E, g.root, idom[v], v)
              else idom[v] == UNDEF
    {
      if Reach(E, g.root, v) {
        ReachWithin(E, g.n, g.root, v);
        WithinMonotone(E, g.root, v, g.n - 1, t);
        assert idom[v] != UNDEF;
        ChainSelf(idom, g.root, idom[v]);
        ChainUnfold(idom, g.root, idom[v], v);
        forall p | PathFromTo(E, p, g.root, v)
          ensures idom[v] in p
        {
          PathBounded(E, g.n, p);
          var q := SimplePath(E, g.n, p);
          assert idom[v] in q;
        }
      } else if idom[v] != UNDEF {
        DefinedReachable(g, idom, t, v);
      }
    }
  }

  /** A solved map is unique, so a further sweep changes nothing. */
  lemma SolvedUnique(g: Input, a: seq<nat>, b: seq<nat>)
    requires g.Valid() && Solved(g, a) && Solved(g, b)
    ensures a == b
  {
    forall v: nat | v < g.n
      ensures a[v] == b[v]
    {
      if v != g.root && Reach(g.E(), g.root, v) {
        ImmediateUnique(g.E(), g.root, a[v], b[v], v);
      }
    }
  }

  // ---------------------------------------------------------------- host loop

  /** A sweep count at which everything reachable is defined reaches every distance. */
  lemma DefinedWithin(g: Input, idom: seq<nat>, t: nat)
    requires g.Valid() && Levels(g, idom, t) && Solved(g, idom)
    ensures forall v: nat, k: nat :: v < g.n && Distance(g.E(), g.root, v, k) ==> k <= t
  {
    forall v: nat, k: nat | v < g.n && Distance(g.E(), g.root, v, k)
      ensures k <= t
    {
      WithinMonotone(g.E(), g.root, v, k, k);
      DistanceWithin(g.E(), g.root, v, k, t);
    }
  }

  /** Once the sweeps cover every path, a further one changes nothing. */
  lemma LimitStops(g: Input, before: seq<nat>, after: seq<nat>, t: nat)
    requires g.Valid() && t >= g.n - 1 && Inv(g, before, t) && Inv(g, after, t + 1)
    ensures before == after
  {
    LimitSolved(g, before, t);
    LimitSolved(g, after, t + 1);
    SolvedUnique(g, before, after);
  }

  lemma FixpointSolved(g: Input, idom: seq<nat>, t: nat)
    requires g.Valid() && t > 0 && Inv(g, idom, t) && Sweep(g, idom, idom) && Levels(g, idom, t - 1)
    ensures Solved(g, idom)
    ensures forall v: nat, k: nat :: v < g.n && Distance(g.E(), g.root, v, k) ==> k < t
  {
    FixpointKeepsInv(g, idom, t, g.n);
    LimitSolved(g, idom, t + g.n);
    DefinedWithin(g, idom, t - 1);
  }

  /** The bounded loop of sweeps: it always stops because a sweep changed nothing, after more sweeps
      than the distance of any reachable node from the root. */
  method SweepToFixpoint(g: Input) returns (idom: array<nat>, sweeps: nat, changed: bool)
    requires g.Valid()
    ensures fresh(idom) && Solved(g, idom[..])
    ensures 1 <= sweeps <= g.n + 1 && !changed
    ensures forall v: nat, k: nat :: v < g.n && Distance(g.E(), g.root, v, k) ==> k < sweeps
  {
    var dIn := new nat[g.n](v => UNDEF);
    dIn[g.root] := g.root;
    var dOut := new nat[g.n](v requires 0 <= v < g.n reads dIn => dIn[v]);
    StartInv(g, dIn[..]);
    sweeps, changed := 0, true;
    while sweeps < g.n + 1 && changed
      invariant sweeps <= g.n + 1 && (sweeps == 0 ==> changed)
      invariant fresh(dIn) && fresh(dOut) && dIn != dOut && dIn.Length == g.n == dOut.Length
      invariant Inv(g, dIn[..], sweeps)
      invariant !changed ==> Sweep(g, dIn[..], dIn[..]) && Levels(g, dIn[..], sweeps - 1)
      invariant changed ==> sweeps <= g.n
    {
      ghost var before := dIn[..];
      changed := LaunchSweep(g, dIn, dOut, sweeps);
      SweepKeepsInv(g, before, dOut[..], sweeps);
      if sweeps >= g.n - 1 {
        LimitStops(g, before, dOut[..], sweeps);
      }
      dIn, dOut := dOut, dIn;
      sweeps := sweeps + 1;
    }
    FixpointSolved(g, dIn[..], sweeps);
    idom := dIn;
  }

  /** The immediate-dominator map: `UNDEF` for the root and the unreachable nodes, the unique
      immediate dominator for every other node. */
  method DominatorsGpu(g: Input) returns (result: Option<seq<nat>>)
    requires g.n == 0 || g.n > UNDEF || g.Valid()
    ensures result.None? <==> g.n > UNDEF
    ensures g.n == 0 ==> result == Some([])
    ensures 0 < g.n <= UNDEF ==>
              && |result.value| == g.n
              && (forall v: nat :: v < g.n ==>
                    if v != g.root && Reach(g.E(), g.root, v)
                    then ImmediatelyDominates(g.E(), g.root, result.value[v], v)
                    else result.value[v] == UNDEF)
  {
    if g.n == 0 {
      return Some([]);
    }
    if g.n > UNDEF {
      return None;
    }
    var idom, sweeps, changed := SweepToFixpoint(g);
    ghost var solved := idom[..];
    idom[g.root] := UNDEF;
    var v := 0;
    while v < g.n
      invariant 0 <= v <= g.n
      invariant forall w :: 0 <= w < v ==>
                  idom[w] == if w == g.root || g.rpo[w] == UNDEF then UNDEF else solved[w]
      invariant forall w :: v <= w < g.n ==> idom[w] == if w == g.root then UNDEF else solved[w]
    {
      if g.rpo[v] == UNDEF {
        idom[v] := UNDEF;
      }
      v := v + 1;
    }
    result := Some(idom[..]);
  }
}
