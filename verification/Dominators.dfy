/** The dominator and post-dominator query interface over a flat immediate-dominator map. */
module Dominators {
  import opened Graphs
  import opened Rows
  import opened Dominance
  import opened Wrappers
  import DfsNumbering
  import GpuDominators

  /** The map holds exactly the reachable non-root nodes, each with its immediate dominator. */
  ghost predicate IdomMap(E: Edges, root: nat, idom: map<nat, nat>) {
    && (forall v: nat :: v in idom <==> v != root && Reach(E, root, v))
    && (forall v :: v in idom ==> ImmediatelyDominates(E, root, idom[v], v))
  }

  /** The answer `Dominates` gives: reflexive, and false for another node when the target
      cannot be reached. */
  ghost predicate Answers(E: Edges, root: nat, a: nat, b: nat) {
    a == b || (Reach(E, root, b) && Dominance.Dominates(E, root, a, b))
  }

  lemma ParentReachable(E: Edges, root: nat, idom: map<nat, nat>, v: nat)
    requires IdomMap(E, root, idom) && v in idom
    ensures Reach(E, root, v) && Reach(E, root, idom[v])
    ensures Dist(E, root, idom[v]) < Dist(E, root, v)
    ensures idom[v] == root || idom[v] in idom
  {
    var u := idom[v];
    DominatorReachable(E, root, u, v);
    var d := Dist(E, root, v);
    var p :| PathFromTo(E, p, root, v) && |p| <= d + 1;
    var i :| 0 <= i < |p| && p[i] == u;
    PathPrefix(E, p, i);
    assert |p[..i + 1]| <= i + 1 && i < d;
    assert Within(E, root, u, i);
    DistanceWithin(E, root, u, Dist(E, root, u), i);
  }

  /** Dominating `v` is being `v` or dominating its parent. */
  lemma AnswersUnfold(E: Edges, root: nat, idom: map<nat, nat>, a: nat, v: nat)
    requires IdomMap(E, root, idom)
    ensures v in idom ==> (Answers(E, root, a, v) <==> a == v || Answers(E, root, a, idom[v]))
    ensures v !in idom ==> (Answers(E, root, a, v) <==> a == v)
  {
    DominatesSelf(E, root, v);
    if v in idom {
      ParentReachable(E, root, idom, v);
      DominatesSelf(E, root, idom[v]);
      if a != v && Dominance.Dominates(E, root, a, idom[v]) {
        DominatesTransitive(E, root, a, idom[v], v);
      }
    } else if v == root && a != v {
      RootHasNoStrictDominator(E, root, a);
    }
  }

  /** One step up a chain, the next node strictly dominates everything below. */
  ghost predicate ChainOf(E: Edges, root: nat, b: nat, chain: seq<nat>) {
    && (forall i :: 0 <= i < |chain| ==> ImmediatelyDominates(E, root, chain[i], if i == 0 then b else chain[i - 1]))
    && (forall i :: 0 <= i < |chain| ==> StrictlyDominates(E, root, chain[i], b))
    && (forall i, j :: 0 <= i < j < |chain| ==> StrictlyDominates(E, root, chain[j], chain[i]))
  }

  ghost function Height(E: Edges, root: nat, v: nat): nat {
    if Reach(E, root, v) then Dist(E, root, v) else 0
  }

  lemma {:induction false} ChainExtends(E: Edges, root: nat, b: nat, chain: seq<nat>, n: nat)
    requires ChainOf(E, root, b, chain) && Reach(E, root, b)
    requires ImmediatelyDominates(E, root, n, if chain == [] then b else chain[|chain| - 1])
    ensures ChainOf(E, root, b, chain + [n])
  {
    if chain == [] {
      ChainAppends(E, root, b, chain, n);
    } else {
      var last := chain[|chain| - 1];
      DominatorReachable(E, root, last, b);
      StrictlyAbove(E, root, n, last, b);
      forall i | 0 <= i < |chain|
        ensures StrictlyDominates(E, root, n, chain[i])
      {
        DominatorReachable(E, root, chain[i], b);
        if i < |chain| - 1 {
          StrictlyAbove(E, root, n, last, chain[i]);
        }
      }
      ChainAppends(E, root, b, chain, n);
    }
  }

  lemma ChainAppends(E: Edges, root: nat, b: nat, chain: seq<nat>, n: nat)
    requires ChainOf(E, root, b, chain)
    requires ImmediatelyDominates(E, root, n, if chain == [] then b else chain[|chain| - 1])
    requires StrictlyDominates(E, root, n, b)
    requires forall i :: 0 <= i < |chain| ==> StrictlyDominates(E, root, n, chain[i])
    ensures ChainOf(E, root, b, chain + [n])
  {
  }

  /** A strict dominator of a strict dominator. */
  lemma StrictlyAbove(E: Edges, root: nat, n: nat, last: nat, v: nat)
    requires Reach(E, root, last) && Reach(E, root, v)
    requires StrictlyDominates(E, root, n, last) && StrictlyDominates(E, root, last, v)
    ensures StrictlyDominates(E, root, n, v)
  {
    DominatesTransitive(E, root, n, last, v);
    if n == v {
      DominatesAntisymmetric(E, root, last, v);
    }
  }

  /** A chain from `b` up to `last`: every node that answers for `b` is on it, or answers for `last`. */
  ghost predicate ChainTo(E: Edges, root: nat, b: nat, chain: seq<nat>, last: nat) {
    && ChainOf(E, root, b, chain) && last == (if chain == [] then b else chain[|chain| - 1])
    && (chain != [] ==> Reach(E, root, b))
    && forall a: nat :: Answers(E, root, a, b) <==> a == b || a in chain || Answers(E, root, a, last)
  }

  lemma ChainSteps(E: Edges, root: nat, idom: map<nat, nat>, b: nat, chain: seq<nat>, last: nat)
    requires IdomMap(E, root, idom) && ChainTo(E, root, b, chain, last) && last in idom
    ensures ChainTo(E, root, b, chain + [idom[last]], idom[last])
    ensures Height(E, root, idom[last]) < Height(E, root, last)
  {
    ParentReachable(E, root, idom, last);
    ChainExtends(E, root, b, chain, idom[last]);
    forall a: nat
      ensures Answers(E, root, a, last) <==> a == last || Answers(E, root, a, idom[last])
    {
      AnswersUnfold(E, root, idom, a, last);
    }
  }

  lemma ChainEnds(E: Edges, root: nat, idom: map<nat, nat>, b: nat, chain: seq<nat>, last: nat)
    requires IdomMap(E, root, idom) && ChainTo(E, root, b, chain, last) && last !in idom
    ensures forall a: nat :: Answers(E, root, a, b) <==> a == b || a in chain
    ensures Distinct(chain)
  {
    forall a: nat
      ensures Answers(E, root, a, last) <==> a == last
    {
      AnswersUnfold(E, root, idom, a, last);
    }
  }

  datatype Dominators = Dominators(idom: map<nat, nat>, root: nat) {
    ghost predicate Valid(E: Edges) {
      IdomMap(E, root, idom)
    }

    function ImmediateDominator(node: nat): Option<nat> {
      if node in idom then Some(idom[node]) else None
    }

    /** Walk from `node` to the root. */
    method DominatorsChain(node: nat, ghost E: Edges) returns (chain: seq<nat>)
      requires Valid(E)
      ensures ChainOf(E, root, node, chain)
      ensures forall a: nat :: a in chain <==> Reach(E, root, node) && StrictlyDominates(E, root, a, node)
      ensures chain != [] ==> chain[|chain| - 1] == root
      ensures chain == [] <==> node == root || !Reach(E, root, node)
      ensures Distinct(chain)
    {
      chain := [];
      var cursor := ImmediateDominator(node);
      ghost var last := node;
      while cursor.Some?
        invariant ChainTo(E, root, node, chain, last) && cursor == ImmediateDominator(last)
        invariant chain != [] && cursor.None? ==> last == root
        decreases Height(E, root, last)
      {
        var n := cursor.value;
        ParentReachable(E, root, idom, last);
        ChainSteps(E, root, idom, node, chain, last);
        chain := chain + [n];
        last := n;
        if n == root {
          break;
        }
        cursor := ImmediateDominator(n);
      }
      ChainEnds(E, root, idom, node, chain, last);
    }

    /** Whether `a` lies on every path from the root to `b`. */
    method Dominates(a: nat, b: nat, ghost E: Edges) returns (r: bool)
      requires Valid(E)
      ensures r <==> Answers(E, root, a, b)
    {
      AnswersUnfold(E, root, idom, a, b);
      if a == b {
        return true;
      }
      var cursor := ImmediateDominator(b);
      if b in idom {
        ParentReachable(E, root, idom, b);
      }
      while cursor.Some?
        invariant cursor.Some? ==> cursor.value == root || cursor.value in idom
        invariant cursor.Some? ==> (Answers(E, root, a, b) <==> Answers(E, root, a, cursor.value))
        invariant cursor.None? ==> !Answers(E, root, a, b)
        decreases cursor.Some?, if cursor.Some? then Height(E, root, cursor.value) else 0
      {
        var n := cursor.value;
        AnswersUnfold(E, root, idom, a, n);
        if n == a {
          return true;
        }
        if n == root {
          return n == a;
        }
        ParentReachable(E, root, idom, n);
        cursor := ImmediateDominator(n);
      }
      r := false;
    }
  }

  // ---------------------------------------------------------------- building the map

  /** The nodes whose parent is `n`, in some order. */
  method ImmediatelyDominatedBy(tree: map<nat, nat>, n: nat) returns (children: seq<nat>)
    ensures Distinct(children)
    ensures forall v :: v in children <==> v in tree && tree[v] == n
  {
    children := [];
    var left := tree.Keys;
    while left != {}
      invariant left <= tree.Keys
      invariant Distinct(children)
      invariant forall v :: v in children <==> v in tree && v !in left && tree[v] == n
    {
      var v :| v in left;
      if tree[v] == n {
        DistinctSnoc(children, v);
        children := children + [v];
      }
      left := left - {v};
    }
  }

  lemma DistinctConcat(a: seq<nat>, b: seq<nat>)
    requires Distinct(a) && Distinct(b) && forall x :: x in b ==> x !in a
    ensures Distinct(a + b)
  {
    var c := a + b;
    forall i, j | 0 <= i < j < |c|
      ensures c[i] != c[j]
    {
      if i < |a| <= j {
        assert b[j - |a|] in b;
        assert a[i] in a;
      }
    }
  }

  /** Every tree node is found from the root, nearest first. */
  lemma {:induction false} TreeCovered(E: Edges, root: nat, tree: map<nat, nat>, done: set<nat>, v: nat)
    requires IdomMap(E, root, tree) && v in tree
    requires forall w :: w in tree && (tree[w] == root || tree[w] in done) ==> w in done
    ensures v in done
    decreases Height(E, root, v)
  {
    ParentReachable(E, root, tree, v);
    if tree[v] != root {
      TreeCovered(E, root, tree, done, tree[v]);
    }
  }

  /** `frontier` lists, once each, the nodes whose parent is done and which are not. */
  ghost predicate Fringe(tree: map<nat, nat>, entry: nat, frontier: seq<nat>, done: set<nat>) {
    && Distinct(frontier)
    && done <= tree.Keys
    && (forall v :: v in frontier <==> v in tree && v !in done && (tree[v] == entry || tree[v] in done))
    && (forall v :: v in done ==> tree[v] == entry || tree[v] in done)
  }

  /** The number of nodes still to be recorded. */
  ghost function Unbuilt(tree: map<nat, nat>, done: set<nat>): nat {
    |tree.Keys - done|
  }

  lemma FringeStep(E: Edges, tree: map<nat, nat>, entry: nat, frontier: seq<nat>, children: seq<nat>, done: set<nat>)
    requires IdomMap(E, entry, tree) && frontier != [] && Fringe(tree, entry, frontier, done)
    requires Distinct(children) && forall v :: v in children <==> v in tree && tree[v] == frontier[|frontier| - 1]
    ensures Fringe(tree, entry, frontier[..|frontier| - 1] + children, done + {frontier[|frontier| - 1]})
    ensures frontier[|frontier| - 1] in tree && Unbuilt(tree, done + {frontier[|frontier| - 1]}) < Unbuilt(tree, done)
  {
    var rest, n := frontier[..|frontier| - 1], frontier[|frontier| - 1];
    SplitLast(frontier);
    FringeGrows(E, tree, entry, rest, n, children, done);
  }

  lemma FringeGrows(E: Edges, tree: map<nat, nat>, entry: nat, rest: seq<nat>, n: nat, children: seq<nat>,
      done: set<nat>)
    requires IdomMap(E, entry, tree) && Fringe(tree, entry, rest + [n], done)
    requires Distinct(children) && forall v :: v in children <==> v in tree && tree[v] == n
    ensures Fringe(tree, entry, rest + children, done + {n})
    ensures n in tree && Unbuilt(tree, done + {n}) < Unbuilt(tree, done)
  {
    assert forall v :: v in rest + [n] <==> v in rest || v == n;
    DistinctSnoc(rest, n);
    assert n in tree && n != entry && n !in done;
    assert tree.Keys - (done + {n}) == tree.Keys - done - {n};
    forall v | v in children
      ensures v !in rest && v !in done && v != n
    {
      ParentReachable(E, entry, tree, v);
    }
    DistinctConcat(rest, children);
  }

  lemma FringeEmpty(E: Edges, tree: map<nat, nat>, entry: nat, done: set<nat>)
    requires IdomMap(E, entry, tree) && Fringe(tree, entry, [], done)
    ensures done == tree.Keys
  {
    forall v | v in tree
      ensures v in done
    {
      var none: seq<nat> := [];
      assert forall w :: w in tree && (tree[w] == entry || tree[w] in done) && w !in done ==> w in none;
      TreeCovered(E, entry, tree, done, v);
    }
  }

  lemma AllBuilt(E: Edges, tree: map<nat, nat>, entry: nat, idom: map<nat, nat>)
    requires IdomMap(E, entry, tree) && Fringe(tree, entry, [], idom.Keys) && Agrees(idom, tree)
    ensures idom == tree
  {
    FringeEmpty(E, tree, entry, idom.Keys);
  }

  function Record(tree: map<nat, nat>, n: nat, idom: map<nat, nat>): (r: map<nat, nat>)
    ensures n in tree && Agrees(idom, tree) ==> r.Keys == idom.Keys + {n} && Agrees(r, tree)
  {
    if n in tree then idom[n := tree[n]] else idom
  }

  /** Pop one node: record its parent and stack its children. */
  method BuildStep(tree: map<nat, nat>, entry: nat, frontier0: seq<nat>, idom0: map<nat, nat>, ghost E: Edges)
    returns (frontier: seq<nat>, idom: map<nat, nat>)
    requires IdomMap(E, entry, tree) && frontier0 != [] && Fringe(tree, entry, frontier0, idom0.Keys)
    requires Agrees(idom0, tree)
    ensures Fringe(tree, entry, frontier, idom.Keys) && Agrees(idom, tree)
    ensures Unbuilt(tree, idom.Keys) < Unbuilt(tree, idom0.Keys)
  {
    var n := frontier0[|frontier0| - 1];
    var children := ImmediatelyDominatedBy(tree, n);
    FringeStep(E, tree, entry, frontier0, children, idom0.Keys);
    idom := Record(tree, n, idom0);
    frontier := frontier0[..|frontier0| - 1] + children;
  }

  ghost predicate Agrees(idom: map<nat, nat>, tree: map<nat, nat>) {
    forall v :: v in idom ==> v in tree && idom[v] == tree[v]
  }

  /** Copy the dominator tree below `entry` into a flat map, walking down from the entry. */
  method Build(tree: map<nat, nat>, entry: nat, ghost E: Edges) returns (d: Dominators)
    requires IdomMap(E, entry, tree)
    ensures d == Dominators(tree, entry) && d.Valid(E)
  {
    var idom: map<nat, nat> := map[];
    var frontier := ImmediatelyDominatedBy(tree, entry);
    while frontier != []
      invariant Fringe(tree, entry, frontier, idom.Keys) && Agrees(idom, tree)
      decreases Unbuilt(tree, idom.Keys)
    {
      frontier, idom := BuildStep(tree, entry, frontier, idom, E);
    }
    AllBuilt(E, tree, entry, idom);
    d := Dominators(idom, entry);
  }

  // ---------------------------------------------------------------- post-dominators

  /** `a` lies on every path from `b` to `exit`, of which there is one, or `a` is `b`. */
  ghost predicate PostAnswers(E: Edges, exit: nat, a: nat, b: nat) {
    a == b || (Reach(E, b, exit) && forall p :: PathFromTo(E, p, b, exit) ==> a in p)
  }

  /** Dominance in the reversed graph is post-dominance. */
  lemma PostIsReversed(E: Edges, exit: nat, a: nat, b: nat)
    ensures Answers(Reversed(E), exit, a, b) <==> PostAnswers(E, exit, a, b)
  {
    ReachReversed(E, b, exit);
    if a != b && Answers(Reversed(E), exit, a, b) {
      forall p | PathFromTo(E, p, b, exit)
        ensures a in p
      {
        var q := ReversePath(E, p);
      }
    }
    if a != b && PostAnswers(E, exit, a, b) {
      ReversedTwice(E);
      forall p | PathFromTo(Reversed(E), p, exit, b)
        ensures a in p
      {
        var q := ReversePath(Reversed(E), p);
      }
    }
  }

  datatype PostDominators = PostDominators(inner: Dominators) {
    ghost predicate Valid(E: Edges) {
      inner.Valid(Reversed(E))
    }

    method PostDominates(a: nat, b: nat, ghost E: Edges) returns (r: bool)
      requires Valid(E)
      ensures r <==> PostAnswers(E, inner.root, a, b)
    {
      r := inner.Dominates(a, b, Reversed(E));
      PostIsReversed(E, inner.root, a, b);
    }

    method PostDominatorsChain(node: nat, ghost E: Edges) returns (chain: seq<nat>)
      requires Valid(E)
      ensures forall a: nat :: a in chain <==> a != node && PostAnswers(E, inner.root, a, node)
      ensures Distinct(chain) && (chain != [] ==> chain[|chain| - 1] == inner.root)
      ensures ChainOf(Reversed(E), inner.root, node, chain)
    {
      chain := inner.DominatorsChain(node, Reversed(E));
      forall a: nat
        ensures a in chain <==> a != node && PostAnswers(E, inner.root, a, node)
      {
        PostIsReversed(E, inner.root, a, node);
      }
    }
  }

  method BuildPost(tree: map<nat, nat>, exit: nat, ghost E: Edges) returns (d: PostDominators)
    requires IdomMap(Reversed(E), exit, tree)
    ensures d.Valid(E) && d.inner.root == exit
  {
    var inner := Build(tree, exit, Reversed(E));
    d := PostDominators(inner);
  }

  // ---------------------------------------------------------------- from the kernel to the queries

  /** Numbering, sweeps and query map composed: for every digraph given as successor and
      predecessor rows, no assumption about the numbering is left. */
  method BuildByKernel(n: nat, root: nat, succOff: seq<nat>, succ: seq<nat>, predOff: seq<nat>, pred: seq<nat>)
    returns (d: Dominators)
    requires root < n <= GpuDominators.UNDEF
    requires ValidRows(n, succOff, succ) && ValidRows(n, predOff, pred)
    requires ColumnEdges(n, predOff, pred) == RowEdges(n, succOff, succ)
    ensures d.root == root && d.Valid(RowEdges(n, succOff, succ))
  {
    ghost var E := RowEdges(n, succOff, succ);
    var rpo := DfsNumbering.ReversePostOrder(n, succOff, succ, root, GpuDominators.UNDEF);
    var result := GpuDominators.DominatorsGpu(GpuDominators.Input(n, root, predOff, pred, rpo));
    var idom := result.value;
    var tree := map v | v in Below(n) && idom[v] != GpuDominators.UNDEF :: idom[v];
    forall v: nat
      ensures v in tree <==> v != root && Reach(E, root, v)
    {
      if Reach(E, root, v) {
        ReachBounded(E, n, root, v);
        if v != root {
          KernelValueDefined(E, n, root, idom[v], v);
        }
      }
    }
    d := Build(tree, root, E);
  }

  lemma KernelValueDefined(E: Edges, n: nat, root: nat, u: nat, v: nat)
    requires Bounded(E, n) && root < n <= GpuDominators.UNDEF && Reach(E, root, v)
    requires ImmediatelyDominates(E, root, u, v)
    ensures u != GpuDominators.UNDEF
  {
    DominatorReachable(E, root, u, v);
    ReachBounded(E, n, root, u);
  }
}
