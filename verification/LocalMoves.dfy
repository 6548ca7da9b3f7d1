/** The local-move phase: nodes in shuffled order move to neighbouring communities. */
module LocalMoves {
  import opened Modularity
  import opened Shuffle
  import opened Sorting
  import opened Sums
  import opened Tallies

  const MAX_PASSES: nat := 10

  /** The machine epsilon of 64-bit floats. */
  const EPSILON: real := 1.0 / 4503599627370496.0

  function Abs(x: real): real {
    if x < 0.0 then -x else x
  }

  // ---------------------------------------------------------------- choosing a community

  /** `t` has the largest gain, and the smallest label among the largest. */
  ghost predicate IsBest(candidates: set<nat>, g: nat -> real, t: nat) {
    && t in candidates
    && forall u: nat {:trigger g(u)} :: u in candidates ==> g(u) <= g(t) && (u < t ==> g(u) < g(t))
  }

  /** Some candidate gains, or loses at most epsilon and has a smaller label. */
  ghost predicate Attracts(candidates: set<nat>, g: nat -> real, own: nat, t: nat) {
    t in candidates && (g(t) > 0.0 || (t < own && g(t) >= -EPSILON))
  }

  ghost predicate Attracted(candidates: set<nat>, g: nat -> real, own: nat) {
    exists t: nat :: Attracts(candidates, g, own, t)
  }

  ghost predicate Chosen(candidates: set<nat>, g: nat -> real, own: nat, best: nat) {
    if best == own then !Attracted(candidates, g, own)
    else Attracted(candidates, g, own) && IsBest(candidates, g, best)
  }

  /** The candidates seen among the first `k` keys. */
  ghost function Seen(keys: seq<nat>, k: nat, own: nat): set<nat>
    requires k <= |keys|
  {
    set t | t in keys[..k] && t != own
  }

  lemma SeenPush(keys: seq<nat>, k: nat, own: nat)
    requires k < |keys| && Ascending(keys)
    ensures Seen(keys, k + 1, own) == Seen(keys, k, own) + if keys[k] == own then {} else {keys[k]}
    ensures forall u: nat :: u in Seen(keys, k, own) ==> u < keys[k]
  {
    assert keys[..k + 1] == keys[..k] + [keys[k]];
  }

  /** One step of the selection keeps the choice correct for the candidates seen. */
  lemma ChoiceStep(seen: set<nat>, g: nat -> real, own: nat, best: nat, bestGain: real, t: nat)
    requires own !in seen && t != own && forall u: nat :: u in seen ==> u < t
    requires Chosen(seen, g, own, best) && bestGain == if best == own then 0.0 else g(best)
    ensures Chosen(seen + {t}, g, own,
                   if g(t) > bestGain || (Abs(g(t) - bestGain) <= EPSILON && t < best) then t else best)
  {
    var now := seen + {t};
    if best == own {
      forall u: nat | u in seen
        ensures g(u) <= 0.0 && (u < own ==> g(u) < -EPSILON)
      {
        assert !Attracts(seen, g, own, u);
      }
      if g(t) > 0.0 || (Abs(g(t)) <= EPSILON && t < own) {
        assert Attracts(now, g, own, t);
      } else {
        assert forall u: nat :: !Attracts(now, g, own, u);
      }
    } else {
      var f: nat :| Attracts(seen, g, own, f);
      assert Attracts(now, g, own, f);
    }
  }

  /** Scans the candidates in ascending label order, as the source does. */
  method Choose(weights: Tally, keys: seq<nat>, own: nat, kOut: real, sigma: seq<real>, k: real, m: real,
                gamma: real, ghost g: nat -> real) returns (best: nat)
    requires m != 0.0 && own < |sigma| && Ascending(keys)
    requires forall t :: t in keys ==> t in weights && t < |sigma|
    requires forall t: nat {:trigger g(t)} :: t in keys && t != own ==>
               g(t) == Gain(At(weights, t), kOut, sigma[t], sigma[own], k, m, gamma)
    ensures best == own || best in keys
    ensures Chosen(Seen(keys, |keys|, own), g, own, best)
  {
    var removeCost := kOut / m - gamma * (sigma[own] - k) * k / (2.0 * m * m);
    var bestGain := 0.0;
    best := own;
    for i := 0 to |keys|
      invariant best == own || best in keys
      invariant bestGain == if best == own then 0.0 else g(best)
      invariant Chosen(Seen(keys, i, own), g, own, best)
    {
      var t := keys[i];
      SeenPush(keys, i, own);
      if t != own {
        var insertGain := weights[t] / m - gamma * sigma[t] * k / (2.0 * m * m);
        var gain := insertGain - removeCost;
        assert gain == g(t);
        ChoiceStep(Seen(keys, i, own), g, own, best, bestGain, t);
        if gain > bestGain || (Abs(gain - bestGain) <= EPSILON && t < best) {
          bestGain := gain;
          best := t;
        }
        assert Seen(keys, i + 1, own) == Seen(keys, i, own) + {t};
      } else {
        assert Seen(keys, i + 1, own) == Seen(keys, i, own);
      }
    }
  }

  // ---------------------------------------------------------------- visiting one node

  /** The neighbouring communities other than the node's own. */
  ghost function Candidates(adj: Adj, c: seq<nat>, x: nat): set<nat>
    requires x < |adj| && x < |c|
  {
    set e: nat | e < |adj[x]| && adj[x][e].0 < |c| && c[adj[x][e].0] != c[x] :: c[adj[x][e].0]
  }

  /** The gain of moving `x`, as a function of the target. */
  ghost function Gains(adj: Adj, c: seq<nat>, gamma: real, x: nat): nat -> real
    requires TotalWeight(adj) != 0.0 && x < |c|
  {
    (t: nat) => MoveGain(adj, c, gamma, x, t)
  }

  ghost predicate Restless(adj: Adj, c: seq<nat>, gamma: real, x: nat)
    requires TotalWeight(adj) != 0.0 && x < |c| == |adj|
  {
    Attracted(Candidates(adj, c, x), Gains(adj, c, gamma, x), c[x])
  }

  /** `t` is the neighbouring community that `x` moves to. */
  ghost predicate Target(adj: Adj, c: seq<nat>, gamma: real, x: nat, t: nat)
    requires TotalWeight(adj) != 0.0 && x < |c| == |adj|
  {
    IsBest(Candidates(adj, c, x), Gains(adj, c, gamma, x), t)
  }

  /** What the phase maintains: degrees, total weight and community totals are exact. */
  ghost predicate Exact(adj: Adj, c: seq<nat>, degree: seq<real>, sigma: seq<real>, m: real) {
    && ValidAdj(adj)
    && |c| == |adj| == |degree|
    && m == TotalWeight(adj)
    && (forall i: nat :: i < |c| ==> c[i] < |sigma|)
    && (forall i: nat :: i < |adj| ==> degree[i] == Degree(adj, i))
    && (forall k: nat :: k < |sigma| ==> sigma[k] == Sigma(adj, c, k))
  }

  lemma RowIsValid(adj: Adj, x: nat)
    requires ValidAdj(adj) && x < |adj|
    ensures RowValid(adj[x], |adj|)
  {
  }

  lemma CandidatesAreKeys(adj: Adj, c: seq<nat>, x: nat, keys: seq<nat>)
    requires x < |adj| && x < |c|
    requires forall k: nat :: k in keys <==> Lists(adj[x], c, k)
    ensures Seen(keys, |keys|, c[x]) == Candidates(adj, c, x)
  {
    assert keys[..|keys|] == keys;
    forall k: nat
      ensures k in Seen(keys, |keys|, c[x]) <==> k in Candidates(adj, c, x)
    {
      assert k in Candidates(adj, c, x) <==> Lists(adj[x], c, k) && k != c[x];
    }
  }

  /** The weights a visit tallies are the sums over communities. */
  method NeighbourWeights(adj: Adj, c: seq<nat>, x: nat) returns (weights: Tally)
    requires ValidAdj(adj) && |c| == |adj| && x < |adj|
    ensures forall k: nat :: At(weights, k) == ToCommunity(Weights(adj), c, x, k)
    ensures forall k: nat :: k in weights <==> Lists(adj[x], c, k)
  {
    RowIsValid(adj, x);
    weights := Accumulate(adj[x], c, map[]);
    forall k: nat
      ensures At(weights, k) == ToCommunity(Weights(adj), c, x, k)
    {
      RowToCommunity(adj, c, x, k);
    }
  }

  /** Where one node goes: to its best neighbouring community when attracted, nowhere otherwise. */
  method Decide(adj: Adj, c: seq<nat>, degree: seq<real>, sigma: seq<real>, m: real, gamma: real, x: nat)
    returns (best: nat)
    requires Exact(adj, c, degree, sigma, m) && m != 0.0 && x < |adj|
    ensures best < |sigma|
    ensures (best != c[x]) == Restless(adj, c, gamma, x)
    ensures best != c[x] ==> Target(adj, c, gamma, x, best)
  {
    var weights := NeighbourWeights(adj, c, x);
    var keys := AscendingOf(weights.Keys);
    ghost var g := Gains(adj, c, gamma, x);
    forall t | t in keys
      ensures t < |sigma|
    {
      assert Lists(adj[x], c, t);
    }
    forall t: nat | t in keys && t != c[x]
      ensures g(t) == Gain(At(weights, t), At(weights, c[x]), sigma[t], sigma[c[x]], degree[x], m, gamma)
    {
      assert sigma[t] == Sigma(adj, c, t);
    }
    best := Choose(weights, keys, c[x], At(weights, c[x]), sigma, degree[x], m, gamma, g);
    CandidatesAreKeys(adj, c, x, keys);
  }

  /** The totals after `x` leaves its community for `t`. */
  ghost function MovedTotals(sigma: seq<real>, s: nat, t: nat, k: real): seq<real>
    requires s < |sigma| && t < |sigma|
  {
    sigma[s := sigma[s] - k][t := sigma[t] + k]
  }

  lemma ExactMove(adj: Adj, c: seq<nat>, degree: seq<real>, sigma: seq<real>, m: real, x: nat, t: nat)
    requires Exact(adj, c, degree, sigma, m) && x < |adj| && t < |sigma| && t != c[x]
    ensures Exact(adj, c[x := t], degree, MovedTotals(sigma, c[x], t, degree[x]), m)
  {
    var next := MovedTotals(sigma, c[x], t, degree[x]);
    forall k: nat | k < |sigma|
      ensures next[k] == Sigma(adj, c[x := t], k)
    {
      SigmaMove(adj, c, x, t, k);
    }
  }

  /** Moves a node: its degree leaves one total and joins another. */
  method Move(community: array<nat>, sigma: array<real>, x: nat, best: nat, k: real)
    requires x < community.Length && community[x] < sigma.Length && best < sigma.Length && best != community[x]
    modifies community, sigma
    ensures community[..] == old(community[..])[x := best]
    ensures sigma[..] == MovedTotals(old(sigma[..]), old(community[x]), best, k)
  {
    var own := community[x];
    sigma[own] := sigma[own] - k;
    sigma[best] := sigma[best] + k;
    community[x] := best;
  }

  /** A visit leaves everything alone, or moves the node to its target and keeps totals exact. */
  method Visit(adj: Adj, community: array<nat>, degree: seq<real>, sigma: array<real>, m: real, gamma: real, x: nat)
    returns (moved: bool)
    requires Exact(adj, community[..], degree, sigma[..], m) && m != 0.0 && x < |adj|
    modifies community, sigma
    ensures Exact(adj, community[..], degree, sigma[..], m)
    ensures moved == Restless(adj, old(community[..]), gamma, x)
    ensures !moved ==> community[..] == old(community[..])
    ensures moved ==> community[x] != old(community[x]) && Target(adj, old(community[..]), gamma, x, community[x])
    ensures moved ==> community[..] == old(community[..])[x := community[x]]
  {
    ghost var c, s := community[..], sigma[..];
    var best := Decide(adj, community[..], degree, sigma[..], m, gamma, x);
    moved := best != community[x];
    if moved {
      ExactMove(adj, c, degree, s, m, x, best);
      Move(community, sigma, x, best, degree[x]);
    }
  }

  // ---------------------------------------------------------------- what a move does

  /** The gain of an accepted move is at least minus epsilon. */
  lemma AcceptedGain(adj: Adj, c: seq<nat>, gamma: real, x: nat, t: nat)
    requires TotalWeight(adj) != 0.0 && x < |c| == |adj|
    requires Restless(adj, c, gamma, x) && Target(adj, c, gamma, x, t)
    ensures MoveGain(adj, c, gamma, x, t) >= -EPSILON
    ensures t != c[x] && exists e: nat :: e < |adj[x]| && adj[x][e].0 < |c| && c[adj[x][e].0] == t
  {
    var g := Gains(adj, c, gamma, x);
    var f: nat :| Attracts(Candidates(adj, c, x), g, c[x], f);
    assert g(t) == MoveGain(adj, c, gamma, x, t);
    assert g(f) <= g(t);
  }

  /** An accepted move raises modularity, up to epsilon and the node's self-loop. */
  lemma AcceptedMove(adj: Adj, c: seq<nat>, gamma: real, x: nat, t: nat)
    requires ValidAdj(adj) && TotalWeight(adj) != 0.0 && x < |c| == |adj|
    requires Restless(adj, c, gamma, x) && Target(adj, c, gamma, x, t)
    ensures Quality(adj, c[x := t], gamma) >=
            Quality(adj, c, gamma) - EPSILON + Weights(adj)(x, x) / TotalWeight(adj)
    ensures MoveGain(adj, c, gamma, x, t) > 0.0 ==>
              Quality(adj, c[x := t], gamma) > Quality(adj, c, gamma) + Weights(adj)(x, x) / TotalWeight(adj)
    ensures LoopsHelp(adj) ==> Weights(adj)(x, x) / TotalWeight(adj) >= 0.0
  {
    AcceptedGain(adj, c, gamma, x, t);
    MoveChange(adj, c, gamma, x, t);
  }

  /** No candidate raises modularity, where a move adds `s` to its gain, and some candidate above gains
      more than all below. */
  ghost predicate DriftsBy(candidates: set<nat>, g: nat -> real, own: nat, s: real) {
    && (forall u: nat {:trigger g(u)} :: u in candidates ==> g(u) + s <= 0.0)
    && (exists u: nat {:trigger g(u)} :: u in candidates && u > own
          && forall t: nat {:trigger g(t)} :: t in candidates && t < own ==> g(t) < g(u))
  }

  /** No candidate comes within epsilon of the modularity there was. */
  ghost predicate SinksBy(candidates: set<nat>, g: nat -> real, s: real) {
    forall u: nat {:trigger g(u)} :: u in candidates ==> g(u) + s < -EPSILON
  }

  /** Exactly when an accepted move fails to raise modularity without lowering the label, and exactly
      when it does not even do so at a loss of at most epsilon. */
  lemma LabelRises(adj: Adj, c: seq<nat>, gamma: real, x: nat, t: nat)
    requires ValidAdj(adj) && TotalWeight(adj) != 0.0 && x < |c| == |adj|
    requires Restless(adj, c, gamma, x) && Target(adj, c, gamma, x, t)
    ensures var s := Weights(adj)(x, x) / TotalWeight(adj);
            var before, after := Quality(adj, c, gamma), Quality(adj, c[x := t], gamma);
            && (after > before || t < c[x] <==> !DriftsBy(Candidates(adj, c, x), Gains(adj, c, gamma, x), c[x], s))
            && (after > before || (t < c[x] && after >= before - EPSILON) <==>
                  !DriftsBy(Candidates(adj, c, x), Gains(adj, c, gamma, x), c[x], s)
                  && !SinksBy(Candidates(adj, c, x), Gains(adj, c, gamma, x), s))
  {
    AcceptedGain(adj, c, gamma, x, t);
    MoveChange(adj, c, gamma, x, t);
    var s := Weights(adj)(x, x) / TotalWeight(adj);
    BestDecides(Candidates(adj, c, x), Gains(adj, c, gamma, x), c[x], s, t);
  }

  /** The best candidate decides for all. */
  lemma BestDecides(candidates: set<nat>, g: nat -> real, own: nat, s: real, t: nat)
    requires IsBest(candidates, g, t) && t != own
    ensures g(t) + s > 0.0 || t < own <==> !DriftsBy(candidates, g, own, s)
    ensures g(t) + s < -EPSILON <==> SinksBy(candidates, g, s)
  {
    if g(t) + s <= 0.0 && t > own {
      forall u: nat | u in candidates
        ensures g(u) <= g(t) && (u < own ==> g(u) < g(t))
      {
      }
      assert DriftsBy(candidates, g, own, s);
    }
    if DriftsBy(candidates, g, own, s) {
      var u: nat :| u in candidates && u > own
          && forall v: nat {:trigger g(v)} :: v in candidates && v < own ==> g(v) < g(u);
      assert g(u) <= g(t);
    }
  }

  // ---------------------------------------------------------------- runs of visits

  /** No node has a neighbouring community it would move to. */
  ghost predicate Settled(adj: Adj, c: seq<nat>, gamma: real)
    requires TotalWeight(adj) != 0.0 && |c| == |adj|
  {
    forall x: nat :: x < |adj| ==> !Restless(adj, c, gamma, x)
  }

  ghost predicate LabelsFrom(c: seq<nat>, start: seq<nat>) {
    forall i: nat :: i < |c| ==> c[i] in start
  }

  /** At most `moves` epsilons below `q`, unless a self-loop weighs against the total. */
  ghost predicate AtLeast(adj: Adj, c: seq<nat>, gamma: real, q: real, moves: nat)
    requires TotalWeight(adj) != 0.0
  {
    LoopsHelp(adj) ==> Quality(adj, c, gamma) >= q - moves as real * EPSILON
  }

  /** What one visit may do: nothing to a settled node, the move to its target otherwise. */
  ghost predicate Visited(adj: Adj, gamma: real, x: nat, c: seq<nat>, next: seq<nat>)
    requires TotalWeight(adj) != 0.0 && x < |c| == |adj|
  {
    if Restless(adj, c, gamma, x) then exists t: nat :: Target(adj, c, gamma, x, t) && next == c[x := t]
    else next == c
  }

  /** The visits of one pass, in order; `moved` says whether some node moved. */
  ghost predicate PassOf(adj: Adj, gamma: real, order: seq<nat>, c: seq<nat>, next: seq<nat>, moved: bool)
    requires TotalWeight(adj) != 0.0 && forall k :: 0 <= k < |order| ==> order[k] < |adj|
  {
    if order == [] then next == c && !moved
    else
      exists mid: seq<nat>, m: bool {:trigger PassOf(adj, gamma, order[..|order| - 1], c, mid, m)} ::
        && PassOf(adj, gamma, order[..|order| - 1], c, mid, m)
        && |mid| == |adj| && Visited(adj, gamma, order[|order| - 1], mid, next)
        && moved == (m || Restless(adj, mid, gamma, order[|order| - 1]))
  }

  /** Between these two points of a trace lies one pass in which some node moved. */
  ghost predicate MovesAt(adj: Adj, gamma: real, order: seq<nat>, trace: seq<seq<nat>>, i: nat)
    requires TotalWeight(adj) != 0.0 && forall k :: 0 <= k < |order| ==> order[k] < |adj|
  {
    i + 1 < |trace| && PassOf(adj, gamma, order, trace[i], trace[i + 1], true)
  }

  /** The communities after each of a run of passes, in all of which some node moved. */
  ghost predicate Chain(adj: Adj, gamma: real, order: seq<nat>, c: seq<nat>, next: seq<nat>, trace: seq<seq<nat>>)
    requires TotalWeight(adj) != 0.0 && forall k :: 0 <= k < |order| ==> order[k] < |adj|
  {
    && |trace| > 0 && trace[0] == c && trace[|trace| - 1] == next
    && forall i: nat {:trigger MovesAt(adj, gamma, order, trace, i)} :: i + 1 < |trace| ==>
        MovesAt(adj, gamma, order, trace, i)
  }

  /** A run that stopped: at the limit, or with every node settled. */
  ghost predicate Stopped(adj: Adj, gamma: real, next: seq<nat>, passes: nat)
    requires TotalWeight(adj) != 0.0 && |next| == |adj|
  {
    passes <= 10 && (passes < 10 ==> Settled(adj, next, gamma))
  }

  /** The outcome of the phase on nodes visited in the given order: passes until one moves nothing
      or the limit is reached. */
  ghost predicate PhaseOf(adj: Adj, gamma: real, order: seq<nat>, c: seq<nat>, next: seq<nat>, improved: bool) {
    if TotalWeight(adj) != 0.0 then
      && |c| == |next| == |adj| == |order| && (forall k :: 0 <= k < |order| ==> order[k] < |adj|)
      && exists trace: seq<seq<nat>> :: Chain(adj, gamma, order, c, next, trace)
           && Stopped(adj, gamma, next, |trace| - 1) && improved == (|trace| > 1)
    else next == c && !improved
  }

  lemma PassGrows(adj: Adj, gamma: real, order: seq<nat>, k: nat, c: seq<nat>, mid: seq<nat>, m: bool, next: seq<nat>)
    requires TotalWeight(adj) != 0.0 && k < |order| && |mid| == |adj| && forall k :: 0 <= k < |order| ==>
        order[k] < |adj|
    requires PassOf(adj, gamma, order[..k], c, mid, m) && Visited(adj, gamma, order[k], mid, next)
    ensures PassOf(adj, gamma, order[..k + 1], c, next, m || Restless(adj, mid, gamma, order[k]))
  {
    assert order[..k + 1][..k] == order[..k] && order[..k + 1][k] == order[k];
  }

  // ---------------------------------------------------------------- determinism

  lemma VisitedUnique(adj: Adj, gamma: real, x: nat, c: seq<nat>, a: seq<nat>, b: seq<nat>)
    requires TotalWeight(adj) != 0.0 && x < |c| == |adj|
    requires Visited(adj, gamma, x, c, a) && Visited(adj, gamma, x, c, b)
    ensures a == b && |a| == |adj|
  {
    if Restless(adj, c, gamma, x) {
      var t: nat :| Target(adj, c, gamma, x, t) && a == c[x := t];
      var u: nat :| Target(adj, c, gamma, x, u) && b == c[x := u];
      var g := Gains(adj, c, gamma, x);
      assert g(t) <= g(u) && g(u) <= g(t);
    }
  }

  lemma {:induction false} PassUnique(adj: Adj, gamma: real, order: seq<nat>, c: seq<nat>,
                                      a: seq<nat>, ma: bool, b: seq<nat>, mb: bool)
    requires TotalWeight(adj) != 0.0 && |c| == |adj| && forall k :: 0 <= k < |order| ==> order[k] < |adj|
    requires PassOf(adj, gamma, order, c, a, ma) && PassOf(adj, gamma, order, c, b, mb)
    ensures a == b && ma == mb && |a| == |adj|
  {
    if order != [] {
      var front, x := order[..|order| - 1], order[|order| - 1];
      var d: seq<nat>, m: bool :| PassOf(adj, gamma, front, c, d, m) && |d| == |adj| && Visited(adj, gamma, x, d, a)
                                  && ma == (m || Restless(adj, d, gamma, x));
      var e: seq<nat>, n: bool :| PassOf(adj, gamma, front, c, e, n) && |e| == |adj| && Visited(adj, gamma, x, e, b)
                                  && mb == (n || Restless(adj, e, gamma, x));
      PassUnique(adj, gamma, front, c, d, m, e, n);
      VisitedUnique(adj, gamma, x, d, a, b);
    }
  }

  /** Two runs from one start agree as long as both last. */
  lemma {:induction false} ChainsAgree(adj: Adj, gamma: real, order: seq<nat>, c: seq<nat>, a: seq<nat>,
      ta: seq<seq<nat>>,
                                       b: seq<nat>, tb: seq<seq<nat>>, i: nat)
    requires TotalWeight(adj) != 0.0 && |c| == |adj| && forall k :: 0 <= k < |order| ==> order[k] < |adj|
    requires Chain(adj, gamma, order, c, a, ta) && Chain(adj, gamma, order, c, b, tb) && i < |ta| && i < |tb|
    ensures ta[i] == tb[i] && |ta[i]| == |adj|
  {
    if i > 0 {
      ChainsAgree(adj, gamma, order, c, a, ta, b, tb, i - 1);
      assert MovesAt(adj, gamma, order, ta, i - 1) && MovesAt(adj, gamma, order, tb, i - 1);
      PassUnique(adj, gamma, order, ta[i - 1], ta[i], true, tb[i], true);
    }
  }

  /** A pass over settled nodes moves nothing. */
  lemma {:induction false} SettledPass(adj: Adj, gamma: real, order: seq<nat>, c: seq<nat>, next: seq<nat>, moved: bool)
    requires TotalWeight(adj) != 0.0 && |c| == |adj| && forall k :: 0 <= k < |order| ==> order[k] < |adj|
    requires Settled(adj, c, gamma) && PassOf(adj, gamma, order, c, next, moved)
    ensures !moved && next == c
  {
    if order != [] {
      var front, x := order[..|order| - 1], order[|order| - 1];
      var d: seq<nat>, m: bool :| PassOf(adj, gamma, front, c, d, m) && |d| == |adj| && Visited(adj, gamma, x, d, next)
                                  && moved == (m || Restless(adj, d, gamma, x));
      SettledPass(adj, gamma, front, c, d, m);
    }
  }

  /** No run goes on from settled nodes. */
  lemma NoLonger(adj: Adj, gamma: real, order: seq<nat>, c: seq<nat>, a: seq<nat>, ta: seq<seq<nat>>, b: seq<nat>,
      tb: seq<seq<nat>>)
    requires TotalWeight(adj) != 0.0 && |c| == |a| == |adj| && forall k :: 0 <= k < |order| ==> order[k] < |adj|
    requires Chain(adj, gamma, order, c, a, ta) && Chain(adj, gamma, order, c, b, tb)
    requires Stopped(adj, gamma, a, |ta| - 1) && |tb| - 1 <= MAX_PASSES
    ensures |tb| <= |ta|
  {
    if |tb| > |ta| {
      var i := |ta| - 1;
      ChainsAgree(adj, gamma, order, c, a, ta, b, tb, i);
      assert MovesAt(adj, gamma, order, tb, i);
      SettledPass(adj, gamma, order, tb[i], tb[i + 1], true);
    }
  }

  /** Over the reals the phase has one outcome for each visiting order, hence for each seed. */
  lemma PhaseDeterministic(adj: Adj, gamma: real, order: seq<nat>, c: seq<nat>, a: seq<nat>, ia: bool, b: seq<nat>,
      ib: bool)
    requires PhaseOf(adj, gamma, order, c, a, ia) && PhaseOf(adj, gamma, order, c, b, ib)
    ensures a == b && ia == ib
  {
    if TotalWeight(adj) != 0.0 {
      var ta: seq<seq<nat>> :| Chain(adj, gamma, order, c, a, ta) && Stopped(adj, gamma, a, |ta| - 1)
          && ia == (|ta| > 1);
      var tb: seq<seq<nat>> :| Chain(adj, gamma, order, c, b, tb) && Stopped(adj, gamma, b, |tb| - 1)
          && ib == (|tb| > 1);
      NoLonger(adj, gamma, order, c, a, ta, b, tb);
      NoLonger(adj, gamma, order, c, b, tb, a, ta);
      ChainsAgree(adj, gamma, order, c, a, ta, b, tb, |ta| - 1);
    }
  }

  // ---------------------------------------------------------------- the phase

  lemma LabelsAfterMove(adj: Adj, c: seq<nat>, gamma: real, x: nat, t: nat, start: seq<nat>)
    requires TotalWeight(adj) != 0.0 && x < |c| == |adj| && LabelsFrom(c, start)
    requires Restless(adj, c, gamma, x) && Target(adj, c, gamma, x, t)
    ensures LabelsFrom(c[x := t], start)
  {
    AcceptedGain(adj, c, gamma, x, t);
  }

  /** A visit loses at most epsilon and uses only labels in use. */
  lemma VisitKeeps(adj: Adj, gamma: real, x: nat, c: seq<nat>, next: seq<nat>, q: real, moves: nat, start: seq<nat>)
    requires ValidAdj(adj) && TotalWeight(adj) != 0.0 && x < |c| == |adj| && Visited(adj, gamma, x, c, next)
    requires AtLeast(adj, c, gamma, q, moves) && LabelsFrom(c, start)
    ensures AtLeast(adj, next, gamma, q, moves + 1) && LabelsFrom(next, start)
  {
    if Restless(adj, c, gamma, x) {
      var t: nat :| Target(adj, c, gamma, x, t) && next == c[x := t];
      AcceptedMove(adj, c, gamma, x, t);
      LabelsAfterMove(adj, c, gamma, x, t, start);
    }
  }

  /** What holds after the first `k` visits of a pass from `c0`. */
  ghost predicate PassSoFar(adj: Adj, gamma: real, order: seq<nat>, k: nat, c0: seq<nat>, c: seq<nat>, moved: bool,
                            q: real, moves: nat, start: seq<nat>)
    requires TotalWeight(adj) != 0.0 && forall i :: 0 <= i < |order| ==> order[i] < |adj|
    requires k <= |order|
  {
    && |c| == |adj| && PassOf(adj, gamma, order[..k], c0, c, moved)
    && AtLeast(adj, c, gamma, q, moves + k) && LabelsFrom(c, start)
    && (!moved ==> c == c0 && forall h: nat :: h < k ==> !Restless(adj, c, gamma, order[h]))
  }

  lemma PassSteps(adj: Adj, gamma: real, order: seq<nat>, k: nat, c0: seq<nat>, c: seq<nat>, moved: bool,
                  next: seq<nat>, step: bool, q: real, moves: nat, start: seq<nat>)
    requires ValidAdj(adj) && TotalWeight(adj) != 0.0 && forall i :: 0 <= i < |order| ==> order[i] < |adj|
    requires k < |order| && PassSoFar(adj, gamma, order, k, c0, c, moved, q, moves, start) && |next| == |adj|
    requires Visited(adj, gamma, order[k], c, next) && step == Restless(adj, c, gamma, order[k])
    ensures PassSoFar(adj, gamma, order, k + 1, c0, next, moved || step, q, moves, start)
  {
    PassGrows(adj, gamma, order, k, c0, c, moved, next);
    VisitKeeps(adj, gamma, order[k], c, next, q, moves + k, start);
  }

  /** One pass over the nodes loses at most epsilon a node, and settles them all if none moves. */
  method Pass(adj: Adj, community: array<nat>, degree: seq<real>, sigma: array<real>, m: real, gamma: real,
              order: seq<nat>, ghost q: real, ghost moves: nat, ghost start: seq<nat>) returns (moved: bool)
    requires community != sigma as object
    requires Exact(adj, community[..], degree, sigma[..], m) && m != 0.0
    requires forall k: nat :: k < |order| ==> order[k] < |adj|
    requires AtLeast(adj, community[..], gamma, q, moves) && LabelsFrom(community[..], start)
    modifies community, sigma
    ensures PassOf(adj, gamma, order, old(community[..]), community[..], moved)
    ensures Exact(adj, community[..], degree, sigma[..], m)
    ensures AtLeast(adj, community[..], gamma, q, moves + |order|) && LabelsFrom(community[..], start)
    ensures !moved ==> community[..] == old(community[..])
    ensures !moved ==> forall k: nat :: k < |order| ==> !Restless(adj, community[..], gamma, order[k])
  {
    moved := false;
    ghost var c0 := community[..];
    for k := 0 to |order|
      invariant Exact(adj, community[..], degree, sigma[..], m)
      invariant PassSoFar(adj, gamma, order, k, c0, community[..], moved, q, moves, start)
    {
      ghost var c := community[..];
      var step := Visit(adj, community, degree, sigma, m, gamma, order[k]);
      PassSteps(adj, gamma, order, k, c0, c, moved, community[..], step, q, moves, start);
      if step {
        moved := true;
      }
    }
    assert order[..|order|] == order;
  }

  /** The listed weight of one row. */
  method RowSumOf(row: Row) returns (d: real)
    ensures d == RowTotal(row)
  {
    d := 0.0;
    for e := 0 to |row|
      invariant d == RowTotal(row[..e])
    {
      assert row[..e + 1][..e] == row[..e];
      d := d + row[e].1;
    }
    assert row[..|row|] == row;
  }

  /** Node degrees and half the listed weight. */
  method Measure(adj: Adj) returns (degree: seq<real>, m: real)
    ensures |degree| == |adj| && forall i: nat :: i < |adj| ==> degree[i] == Degree(adj, i)
    ensures m == TotalWeight(adj)
  {
    degree := [];
    var total := 0.0;
    for i := 0 to |adj|
      invariant |degree| == i && forall h: nat :: h < i ==> degree[h] == Degree(adj, h)
      invariant total == Sum(i, (h: nat) => Degree(adj, h))
    {
      var d := RowSumOf(adj[i]);
      degree := degree + [d];
      total := total + d;
    }
    m := total / 2.0;
  }

  /** The total degree of every community. */
  method Totals(adj: Adj, c: seq<nat>, degree: seq<real>) returns (sigma: array<real>)
    requires |c| == |adj| == |degree| && forall i: nat :: i < |adj| ==> degree[i] == Degree(adj, i)
    ensures fresh(sigma)
    ensures forall i: nat :: i < |c| ==> c[i] < sigma.Length
    ensures forall k: nat :: k < sigma.Length ==> sigma[k] == Sigma(adj, c, k)
  {
    var max: nat := 0;
    for i := 0 to |c|
      invariant forall h: nat :: h < i ==> c[h] <= max
    {
      if c[i] > max {
        max := c[i];
      }
    }
    sigma := new real[max + 1](_ => 0.0);
    for i := 0 to |c|
      invariant forall k: nat :: k < sigma.Length ==>
                  sigma[k] == Sum(i, (h: nat) => if h < |c| && c[h] == k then Degree(adj, h) else 0.0)
    {
      sigma[c[i]] := sigma[c[i]] + degree[i];
    }
  }

  lemma AllVisited(adj: Adj, c: seq<nat>, gamma: real, order: seq<nat>)
    requires TotalWeight(adj) != 0.0 && |c| == |adj| && forall x: nat :: x < |adj| ==> x in order
    requires forall k: nat :: k < |order| ==> order[k] < |adj| && !Restless(adj, c, gamma, order[k])
    ensures Settled(adj, c, gamma)
  {
    forall x: nat | x < |adj|
      ensures !Restless(adj, c, gamma, x)
    {
      assert x in order;
      var k: int :| 0 <= k < |order| && order[k] == x;
      var visited: nat := k;
      assert !Restless(adj, c, gamma, order[visited]);
    }
  }

  method VisitOrder(n: nat, seed: nat) returns (order: seq<nat>)
    ensures order == Shuffled(Identity(n), seed)
    ensures |order| == n && (forall k :: 0 <= k < |order| ==> order[k] < n) && forall x: nat :: x < n ==> x in order
  {
    var a := new nat[n](i => i);
    assert a[..] == Identity(n);
    ShuffleWithSeed(a, seed);
    order := a[..];
    ShuffledPermutes(Identity(n), seed);
    forall x: nat
      ensures x in order <==> x < n
    {
      EveryNodeVisited(n, seed, x);
    }
    assert forall k :: 0 <= k < |order| ==> order[k] in order;
  }

  lemma PhaseEnds(adj: Adj, gamma: real, order: seq<nat>, c: seq<nat>, next: seq<nat>, trace: seq<seq<nat>>)
    requires TotalWeight(adj) != 0.0 && |c| == |next| == |adj| == |order|
    requires forall k :: 0 <= k < |order| ==> order[k] < |adj|
    requires Chain(adj, gamma, order, c, next, trace) && Stopped(adj, gamma, next, |trace| - 1)
    ensures PhaseOf(adj, gamma, order, c, next, |trace| > 1)
  {
  }

  lemma ChainGrows(adj: Adj, gamma: real, order: seq<nat>, c: seq<nat>, mid: seq<nat>, trace: seq<seq<nat>>,
      next: seq<nat>)
    requires TotalWeight(adj) != 0.0 && forall k :: 0 <= k < |order| ==> order[k] < |adj|
    requires Chain(adj, gamma, order, c, mid, trace) && PassOf(adj, gamma, order, mid, next, true)
    ensures Chain(adj, gamma, order, c, next, trace + [next])
  {
    forall i: nat | i + 1 < |trace| + 1
      ensures MovesAt(adj, gamma, order, trace + [next], i)
    {
      assert i + 1 < |trace| ==> MovesAt(adj, gamma, order, trace, i);
    }
  }

  /** A run of passes so far: its trace, its labels, and its loss. */
  ghost predicate SoFar(adj: Adj, gamma: real, order: seq<nat>, start: seq<nat>, c: seq<nat>, trace: seq<seq<nat>>,
      q: real)
    requires TotalWeight(adj) != 0.0 && forall k :: 0 <= k < |order| ==> order[k] < |adj|
  {
    && Chain(adj, gamma, order, start, c, trace) && LabelsFrom(c, start)
    && AtLeast(adj, c, gamma, q, (|trace| - 1) * |order|)
  }

  lemma SoFarGrows(adj: Adj, gamma: real, order: seq<nat>, start: seq<nat>, mid: seq<nat>, trace: seq<seq<nat>>,
                   next: seq<nat>, q: real)
    requires TotalWeight(adj) != 0.0 && forall k :: 0 <= k < |order| ==> order[k] < |adj|
    requires SoFar(adj, gamma, order, start, mid, trace, q) && PassOf(adj, gamma, order, mid, next, true)
    requires LabelsFrom(next, start) && AtLeast(adj, next, gamma, q, (|trace| - 1) * |order| + |order|)
    ensures SoFar(adj, gamma, order, start, next, trace + [next], q)
  {
    ChainGrows(adj, gamma, order, start, mid, trace, next);
    OneMore(|trace| - 1, |order|);
    assert |trace + [next]| - 1 == |trace| - 1 + 1;
  }

  /** The runs of passes from `start` to `c`. */
  ghost function Runs(adj: Adj, gamma: real, order: seq<nat>, start: seq<nat>, c: seq<nat>, q: real):
      iset<seq<seq<nat>>>
    requires TotalWeight(adj) != 0.0 && forall k :: 0 <= k < |order| ==> order[k] < |adj|
  {
    iset trace: seq<seq<nat>> | SoFar(adj, gamma, order, start, c, trace, q)
  }

  /** One more pass: it goes on, or every node is settled and nothing changed. */
  method NextPass(adj: Adj, community: array<nat>, degree: seq<real>, sigma: array<real>, m: real, gamma: real,
                  order: seq<nat>, ghost start: seq<nat>, ghost trace: seq<seq<nat>>, ghost q: real)
                      returns (moved: bool, ghost next: seq<seq<nat>>)
    requires community != sigma as object && Exact(adj, community[..], degree, sigma[..], m) && m != 0.0
    requires (forall k :: 0 <= k < |order| ==> order[k] < |adj|) && forall x: nat :: x < |adj| ==> x in order
    requires trace in Runs(adj, gamma, order, start, community[..], q)
    modifies community, sigma
    ensures Exact(adj, community[..], degree, sigma[..], m)
    ensures next == (if moved then trace + [community[..]] else trace)
    ensures next in Runs(adj, gamma, order, start, community[..], q)
    ensures !moved ==> community[..] == old(community[..]) && Settled(adj, community[..], gamma)
  {
    ghost var mid, moves := community[..], (|trace| - 1) * |order|;
    moved := Pass(adj, community, degree, sigma, m, gamma, order, q, moves, start);
    next := if moved then trace + [community[..]] else trace;
    if moved {
      SoFarGrows(adj, gamma, order, start, mid, trace, community[..], q);
    } else {
      AllVisited(adj, community[..], gamma, order);
    }
  }

  /** Passes until nothing moves or the limit is reached. */
  method Passes(adj: Adj, community: array<nat>, degree: seq<real>, sigma: array<real>, m: real, gamma: real,
                order: seq<nat>, ghost q: real) returns (improved: bool)
    requires community != sigma as object && |order| == |adj|
    requires Exact(adj, community[..], degree, sigma[..], m) && m != 0.0
    requires (forall k :: 0 <= k < |order| ==> order[k] < |adj|) && forall x: nat :: x < |adj| ==> x in order
    requires q == Quality(adj, community[..], gamma)
    modifies community, sigma
    ensures PhaseOf(adj, gamma, order, old(community[..]), community[..], improved)
    ensures LabelsFrom(community[..], old(community[..]))
    ensures AtLeast(adj, community[..], gamma, q, MAX_PASSES * |adj|)
    ensures !improved ==> community[..] == old(community[..]) && Settled(adj, community[..], gamma)
  {
    ghost var start := community[..];
    improved := false;
    var pass := 0;
    ghost var trace := [start];
    var moved := true;
    while pass < MAX_PASSES && moved
      invariant pass <= MAX_PASSES && |trace| - 1 <= pass && (moved ==> |trace| - 1 == pass)
      invariant Exact(adj, community[..], degree, sigma[..], m)
      invariant trace in Runs(adj, gamma, order, start, community[..], q)
      invariant improved == (|trace| > 1) && (!improved ==> community[..] == start)
      invariant !moved ==> Settled(adj, community[..], gamma)
    {
      moved, trace := NextPass(adj, community, degree, sigma, m, gamma, order, start, trace, q);
      if moved {
        improved := true;
      }
      pass := pass + 1;
    }
    PhaseEnds(adj, gamma, order, start, community[..], trace);
    MoreSlack(adj, community[..], gamma, q, |trace| - 1, |order|);
  }

  /** The phase never costs more than epsilon a visit; when it reports no improvement nothing
      changed, and unless the graph has no weight every node is settled. */
  method Run(adj: Adj, community: array<nat>, gamma: real, seed: nat) returns (improved: bool)
    requires ValidAdj(adj) && community.Length == |adj|
    modifies community
    ensures PhaseOf(adj, gamma, Shuffled(Identity(|adj|), seed), old(community[..]), community[..], improved)
    ensures LabelsFrom(community[..], old(community[..]))
    ensures TotalWeight(adj) != 0.0 ==>
              AtLeast(adj, community[..], gamma, Quality(adj, old(community[..]), gamma), 10 * |adj|)
    ensures !improved ==> community[..] == old(community[..])
    ensures !improved && TotalWeight(adj) != 0.0 ==> Settled(adj, community[..], gamma)
    ensures improved ==> TotalWeight(adj) != 0.0
  {
    if |adj| == 0 {
      return false;
    }
    var degree, m := Measure(adj);
    if m == 0.0 {
      return false;
    }
    var sigma := Totals(adj, community[..], degree);
    var order := VisitOrder(|adj|, seed);
    improved := Passes(adj, community, degree, sigma, m, gamma, order, Quality(adj, community[..], gamma));
  }

  lemma OneMore(pass: nat, n: nat)
    ensures (pass + 1) * n == pass * n + n
  {
  }

  lemma MoreSlack(adj: Adj, c: seq<nat>, gamma: real, q: real, passes: nat, n: nat)
    requires TotalWeight(adj) != 0.0 && AtLeast(adj, c, gamma, q, passes * n) && passes <= MAX_PASSES
    ensures AtLeast(adj, c, gamma, q, MAX_PASSES * n)
  {
    assert passes * n <= MAX_PASSES * n;
  }
}
