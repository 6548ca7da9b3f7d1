/** Level-synchronous multi-source BFS: one launch per level, edge steps in any order.

    A thread's visit of one row entry is two steps: marking the target reached and exchanging
    its visited flag, then, if it won the exchange, queueing the target for the next level.
    Steps of different threads interleave freely. */
module GpuBfs {
  import opened Wrappers
  import opened Graphs
  import opened Rows
  import opened MultiSource

  const U32_MAX: nat := 0xffff_ffff

  datatype Input = Input(n: nat, offsets: seq<nat>, neighbors: seq<nat>, seeds: seq<nat>) {
    ghost predicate Valid() {
      ValidRows(n, offsets, neighbors)
    }

    ghost function E(): Edges
      requires Valid()
    {
      RowEdges(n, offsets, neighbors)
    }

    /** Seeds outside the graph are ignored. */
    function SeedSet(): set<nat> {
      set s | s in seeds && s < n
    }
  }

  /** The row positions the frontier's threads visit. */
  function Visits(g: Input, frontier: set<nat>): (ks: set<nat>)
    requires g.Valid()
    ensures forall k :: k in ks ==> k < |g.neighbors|
  {
    set k | k in Below(|g.neighbors|) && exists u :: u in frontier && u < g.n && g.offsets[u] <= k < g.offsets[u + 1]
  }

  lemma VisitsSuccessors(g: Input, frontier: set<nat>, v: nat)
    requires g.Valid()
    ensures Successor(g.E(), frontier, v) <==> exists k :: k in Visits(g, frontier) && g.neighbors[k] == v
  {
    if Successor(g.E(), frontier, v) {
      var k := SuccessorVisited(g, frontier, v);
    }
    if k :| k in Visits(g, frontier) && g.neighbors[k] == v {
      var u :| u in frontier && u < g.n && g.offsets[u] <= k < g.offsets[u + 1];
      assert (u, v) in g.E();
    }
  }

  lemma SuccessorVisited(g: Input, frontier: set<nat>, v: nat) returns (k: nat)
    requires g.Valid() && Successor(g.E(), frontier, v)
    ensures k in Visits(g, frontier) && g.neighbors[k] == v
  {
    var u: nat :| u in frontier && (u, v) in g.E();
    var i :| g.offsets[u] <= i < g.offsets[u + 1] && g.neighbors[i] == v;
    k := i;
  }

  /** The bitmap as a set. */
  ghost function Bits(a: seq<bool>): set<nat> {
    set v | v in Below(|a|) && a[v]
  }

  lemma BitsSet(a: seq<bool>, v: nat)
    requires v < |a|
    ensures Bits(a[v := true]) == Bits(a) + {v}
  {
  }

  /** Targets of a set of row positions. */
  ghost function Targets(g: Input, ks: set<nat>): set<nat>
    requires forall k :: k in ks ==> k < |g.neighbors|
  {
    set k | k in ks :: g.neighbors[k]
  }

  /** A launch in progress: `done` entries have been visited, `won` of them still have to queue
      their target. */
  ghost predicate Level(g: Input, visited0: set<nat>, reached0: set<nat>,
                        visited: set<nat>, reached: set<nat>, next: set<nat>, changed: bool, done: set<nat>,
                            won: set<nat>)
    requires forall k :: k in done ==> k < |g.neighbors|
  {
    && won <= done
    && visited == visited0 + Targets(g, done)
    && reached == reached0 + Targets(g, done)
    && next + Targets(g, won) == visited - visited0
    && next <= visited - visited0
    && (changed <==> next != {})
  }

  lemma TargetsSnoc(g: Input, ks: set<nat>, k: nat)
    requires k < |g.neighbors| && forall j :: j in ks ==> j < |g.neighbors|
    ensures Targets(g, ks + {k}) == Targets(g, ks) + {g.neighbors[k]}
  {
  }

  lemma VisitStep(g: Input, visited0: set<nat>, reached0: set<nat>,
                  visited: set<nat>, reached: set<nat>, next: set<nat>, changed: bool, done: set<nat>, won: set<nat>,
                      k: nat)
    requires k < |g.neighbors| && forall j :: j in done ==> j < |g.neighbors|
    requires Level(g, visited0, reached0, visited, reached, next, changed, done, won)
    ensures var v := g.neighbors[k];
            Level(g, visited0, reached0, visited + {v}, reached + {v}, next, changed, done + {k},
                  if v in visited then won else won + {k})
  {
    TargetsSnoc(g, done, k);
    TargetsSnoc(g, won, k);
    var v := g.neighbors[k];
    if v in visited {
      assert visited + {v} == visited;
    } else {
      assert (visited + {v}) - visited0 == (visited - visited0) + {v};
    }
  }

  lemma QueueStep(g: Input, visited0: set<nat>, reached0: set<nat>,
                  visited: set<nat>, reached: set<nat>, next: set<nat>, changed: bool, done: set<nat>, won: set<nat>,
                      k: nat)
    requires k in won && forall j :: j in done ==> j < |g.neighbors|
    requires Level(g, visited0, reached0, visited, reached, next, changed, done, won)
    ensures Level(g, visited0, reached0, visited, reached, next + {g.neighbors[k]}, true, done, won - {k})
  {
    TargetsSnoc(g, won - {k}, k);
    assert won - {k} + {k} == won;
  }

  lemma FinishedLevel(g: Input, frontier: set<nat>, visited0: set<nat>, reached0: set<nat>,
                      visited: set<nat>, reached: set<nat>, next: set<nat>, changed: bool)
    requires g.Valid() && Level(g, visited0, reached0, visited, reached, next, changed, Visits(g, frontier), {})
    ensures forall v: nat :: v in visited <==> v in visited0 || Successor(g.E(), frontier, v)
    ensures forall v: nat :: v in reached <==> v in reached0 || Successor(g.E(), frontier, v)
    ensures next == visited - visited0 && (changed <==> visited != visited0)
  {
    NothingWon(visited0, visited, next, Targets(g, {}), changed);
    TargetsAreSuccessors(g, frontier, Targets(g, Visits(g, frontier)));
  }

  lemma NothingWon(visited0: set<nat>, visited: set<nat>, next: set<nat>, owed: set<nat>, changed: bool)
    requires visited0 <= visited && owed == {} && next + owed == visited - visited0 && (changed <==> next != {})
    ensures next == visited - visited0 && (changed <==> visited != visited0)
  {
    assert next + {} == next;
    if visited != visited0 {
      var v :| v in visited && v !in visited0;
      assert v in next;
    }
  }

  lemma TargetsAreSuccessors(g: Input, frontier: set<nat>, targets: set<nat>)
    requires g.Valid() && targets == Targets(g, Visits(g, frontier))
    ensures forall v: nat :: v in targets <==> Successor(g.E(), frontier, v)
  {
    forall v: nat
      ensures v in targets <==> Successor(g.E(), frontier, v)
    {
      VisitsSuccessors(g, frontier, v);
    }
  }

  /** Step 1 of a visit: mark the target reached, exchange its visited flag. */
  method Visit(v: nat, visited: array<bool>, reached: array<bool>) returns (won: bool)
    requires visited != reached && v < visited.Length == reached.Length
    modifies visited, reached
    ensures Bits(visited[..]) == old(Bits(visited[..])) + {v}
    ensures Bits(reached[..]) == old(Bits(reached[..])) + {v}
    ensures won <==> v !in old(Bits(visited[..]))
  {
    BitsSet(visited[..], v);
    BitsSet(reached[..], v);
    ghost var vs, rs := visited[..], reached[..];
    reached[v] := true;
    won := !visited[v];
    visited[v] := true;
    assert visited[..] == vs[v := true] && reached[..] == rs[v := true];
  }

  /** Step 2, for the winner: queue the target. */
  method Queue(v: nat, next: array<bool>)
    requires v < next.Length
    modifies next
    ensures Bits(next[..]) == old(Bits(next[..])) + {v}
  {
    BitsSet(next[..], v);
    ghost var ns := next[..];
    next[v] := true;
    assert next[..] == ns[v := true];
  }

  lemma SetMove(done: set<nat>, pending: set<nat>, k: nat)
    requires k in pending
    ensures (done + {k}) + (pending - {k}) == done + pending
  {
  }

  method VisitThread(g: Input, ghost visited0: set<nat>, ghost reached0: set<nat>,
                     visited: array<bool>, reached: array<bool>, ghost next: set<nat>,
                     won0: set<nat>, ghost changed: bool, ghost done: set<nat>, k: nat)
    returns (won: set<nat>)
    requires g.Valid() && visited != reached && visited.Length == g.n == reached.Length
    requires k < |g.neighbors| && done <= Below(|g.neighbors|)
    requires Level(g, visited0, reached0, Bits(visited[..]), Bits(reached[..]), next, changed, done, won0)
    modifies visited, reached
    ensures Level(g, visited0, reached0, Bits(visited[..]), Bits(reached[..]), next, changed, done + {k}, won)
  {
    VisitStep(g, visited0, reached0, Bits(visited[..]), Bits(reached[..]), next, changed, done, won0, k);
    var first := Visit(g.neighbors[k], visited, reached);
    won := if first then won0 + {k} else won0;
  }

  method QueueThread(g: Input, ghost visited0: set<nat>, ghost reached0: set<nat>,
                     ghost visited: set<nat>, ghost reached: set<nat>, next: array<bool>,
                     won: set<nat>, ghost changed: bool, ghost done: set<nat>, k: nat)
    requires g.Valid() && next.Length == g.n && k in won && done <= Below(|g.neighbors|)
    requires Level(g, visited0, reached0, visited, reached, Bits(next[..]), changed, done, won)
    modifies next
    ensures Level(g, visited0, reached0, visited, reached, Bits(next[..]), true, done, won - {k})
  {
    QueueStep(g, visited0, reached0, visited, reached, Bits(next[..]), changed, done, won, k);
    Queue(g.neighbors[k], next);
  }

  /** Any step of any thread. */
  method LaunchStep(g: Input, ghost visited0: set<nat>, ghost reached0: set<nat>,
                    visited: array<bool>, reached: array<bool>, next: array<bool>,
                    pending0: set<nat>, won0: set<nat>, changed0: bool, ghost done0: set<nat>)
    returns (pending: set<nat>, won: set<nat>, changed: bool, ghost done: set<nat>)
    requires g.Valid() && visited != reached && next != visited && next != reached
    requires next.Length == g.n == visited.Length && reached.Length == g.n
    requires pending0 + won0 != {} && pending0 <= Below(|g.neighbors|) && done0 <= Below(|g.neighbors|)
    requires Level(g, visited0, reached0, Bits(visited[..]), Bits(reached[..]), Bits(next[..]), changed0, done0, won0)
    modifies visited, reached, next
    ensures done <= Below(|g.neighbors|) && done + pending == done0 + pending0
    ensures Level(g, visited0, reached0, Bits(visited[..]), Bits(reached[..]), Bits(next[..]), changed, done, won)
    ensures pending < pending0 || (pending == pending0 && won < won0)
  {
    pending, won, changed, done := pending0, won0, changed0, done0;
    var k :| k in pending + won;
    if k in pending {
      won := VisitThread(g, visited0, reached0, visited, reached, Bits(next[..]), won, changed, done, k);
      SetMove(done, pending, k);
      pending, done := pending - {k}, done + {k};
    } else {
      QueueThread(g, visited0, reached0, Bits(visited[..]), Bits(reached[..]), next, won, changed, done, k);
      won, changed := won - {k}, true;
    }
  }

  /** One `bfs_step` launch from `frontier`, under any interleaving. */
  method Launch(g: Input, frontier: array<bool>, visited: array<bool>, reached: array<bool>)
    returns (next: array<bool>, changed: bool)
    requires g.Valid() && visited != reached && frontier != visited && frontier != reached
    requires frontier.Length == g.n == visited.Length && reached.Length == g.n
    modifies visited, reached
    ensures fresh(next) && next.Length == g.n
    ensures Expanded(g, Bits(frontier[..]), old(Bits(visited[..])), old(Bits(reached[..])),
                     Bits(visited[..]), Bits(reached[..]), Bits(next[..]), changed)
  {
    next := new bool[g.n](_ => false);
    var active := set u | u in Below(g.n) && frontier[u];
    assert active == Bits(frontier[..]);
    changed := RunThreads(g, active, visited, reached, next);
    FinishedLevel(g, active, old(Bits(visited[..])), old(Bits(reached[..])),
                  Bits(visited[..]), Bits(reached[..]), Bits(next[..]), changed);
  }

  /** Run the threads of a launch to the end. */
  method RunThreads(g: Input, active: set<nat>, visited: array<bool>, reached: array<bool>, next: array<bool>)
      returns (changed: bool)
    requires g.Valid() && visited != reached && next != visited && next != reached
    requires next.Length == g.n == visited.Length && reached.Length == g.n && Bits(next[..]) == {}
    modifies visited, reached, next
    ensures Level(g, old(Bits(visited[..])), old(Bits(reached[..])),
                  Bits(visited[..]), Bits(reached[..]), Bits(next[..]), changed, Visits(g, active), {})
  {
    ghost var visited0, reached0 := Bits(visited[..]), Bits(reached[..]);
    changed := false;
    var pending := Visits(g, active);
    var won: set<nat> := {};
    ghost var done: set<nat> := {};
    while pending + won != {}
      invariant done <= Below(|g.neighbors|) && done + pending == Visits(g, active)
      invariant Level(g, visited0, reached0, Bits(visited[..]), Bits(reached[..]), Bits(next[..]), changed, done, won)
      decreases pending, won
    {
      pending, won, changed, done := LaunchStep(g, visited0, reached0, visited, reached, next, pending, won, changed,
          done);
    }
    assert done == Visits(g, active) && won == {};
  }

  /** What a launch does, whatever the interleaving. */
  ghost predicate Expanded(g: Input, frontier: set<nat>, visited0: set<nat>, reached0: set<nat>,
                           visited: set<nat>, reached: set<nat>, next: set<nat>, changed: bool)
    requires g.Valid()
  {
    && (forall v: nat :: v in visited <==> v in visited0 || Successor(g.E(), frontier, v))
    && (forall v: nat :: v in reached <==> v in reached0 || Successor(g.E(), frontier, v))
    && next == visited - visited0
    && (changed <==> visited != visited0)
  }

  /** The frontier is the part of the visited set not yet expanded, and `reached` is what the
      expanded part leads to. */
  ghost predicate Frontiers(g: Input, visited: set<nat>, reached: set<nat>, frontier: set<nat>)
    requires g.Valid()
  {
    && g.SeedSet() <= visited && frontier <= visited && reached <= visited
    && (forall v: nat :: v in visited ==> FromSeeds(g.E(), g.SeedSet(), v))
    && (forall v: nat :: v in reached <==> Successor(g.E(), visited - frontier, v))
  }

  lemma FrontiersStep(g: Input, visited0: set<nat>, reached0: set<nat>, frontier: set<nat>,
                      visited: set<nat>, reached: set<nat>, next: set<nat>, changed: bool)
    requires g.Valid() && Frontiers(g, visited0, reached0, frontier)
    requires Expanded(g, frontier, visited0, reached0, visited, reached, next, changed)
    ensures Frontiers(g, visited, reached, next)
  {
    assert visited - next == visited0;
    forall v: nat | v in visited
      ensures FromSeeds(g.E(), g.SeedSet(), v)
    {
      if v !in visited0 {
        var u: nat :| u in frontier && (u, v) in g.E();
        FromSeedsStep(g.E(), g.SeedSet(), u, v);
      }
    }
    forall v: nat
      ensures v in reached <==> Successor(g.E(), visited0, v)
    {
      if u: nat :| u in visited0 && (u, v) in g.E() {
        if u in frontier {
          assert Successor(g.E(), frontier, v);
        } else {
          assert u in visited0 - frontier;
        }
      }
    }
  }

  lemma FrontiersStart(g: Input)
    requires g.Valid()
    ensures Frontiers(g, g.SeedSet(), {}, g.SeedSet())
  {
    SeedsReached(g.E(), g.SeedSet());
  }

  lemma FrontiersEnd(g: Input, visited: set<nat>, reached: set<nat>)
    requires g.Valid() && Frontiers(g, visited, reached, {})
    ensures forall v: nat :: v in reached <==> ViaEdge(g.E(), g.SeedSet(), v)
  {
    assert visited - {} == visited;
    forall e | e in g.E() && e.0 in visited
      ensures e.1 in visited
    {
      assert e == (e.0, e.1);
      assert Successor(g.E(), visited, e.1);
    }
    forall v: nat
      ensures v in reached <==> ViaEdge(g.E(), g.SeedSet(), v)
    {
      ClosedIsReached(g.E(), g.SeedSet(), visited, v);
    }
  }

  method SeedBitmaps(g: Input) returns (visited: array<bool>, frontier: array<bool>)
    ensures fresh(visited) && fresh(frontier) && visited != frontier && visited.Length == g.n == frontier.Length
    ensures Bits(visited[..]) == g.SeedSet() == Bits(frontier[..])
  {
    visited := new bool[g.n](_ => false);
    frontier := new bool[g.n](_ => false);
    var i := 0;
    while i < |g.seeds|
      invariant 0 <= i <= |g.seeds|
      invariant forall v :: 0 <= v < g.n ==> (visited[v] <==> v in g.seeds[..i]) && (frontier[v] <==> v in g.seeds[..i])
    {
      if g.seeds[i] < g.n {
        visited[g.seeds[i]], frontier[g.seeds[i]] := true, true;
      }
      i := i + 1;
    }
    assert g.seeds[..i] == g.seeds;
  }

  /** Reachable set: exactly the nodes a seed reaches over one or more edges. */
  method ReachableGpu(g: Input) returns (r: Option<seq<bool>>)
    requires g.Valid()
    ensures r.None? <==> g.n > U32_MAX
    ensures r.Some? ==>
              && |r.value| == g.n
              && forall v: nat :: v < g.n ==> (r.value[v] <==> ViaEdge(g.E(), g.SeedSet(), v))
  {
    if g.n > U32_MAX {
      return None;
    }
    var visited, frontier := SeedBitmaps(g);
    var reached := new bool[g.n](_ => false);
    assert Bits(reached[..]) == {};
    FrontiersStart(g);
    var changed := true;
    while changed
      invariant fresh(visited) && fresh(reached) && fresh(frontier) && visited != reached && frontier != visited
          && frontier != reached
      invariant frontier.Length == g.n == visited.Length && reached.Length == g.n
      invariant Frontiers(g, Bits(visited[..]), Bits(reached[..]), if changed then Bits(frontier[..]) else {})
      decreases Unvisited(g, Bits(visited[..])), changed
    {
      frontier, changed := AdvanceFrontier(g, frontier, visited, reached);
    }
    FrontiersEnd(g, Bits(visited[..]), Bits(reached[..]));
    r := Some(reached[..]);
    BitsMembers(reached[..]);
  }

  method AdvanceFrontier(g: Input, frontier: array<bool>, visited: array<bool>, reached: array<bool>)
    returns (next: array<bool>, changed: bool)
    requires g.Valid() && visited != reached && frontier != visited && frontier != reached
    requires frontier.Length == g.n == visited.Length && reached.Length == g.n
    requires Frontiers(g, Bits(visited[..]), Bits(reached[..]), Bits(frontier[..]))
    modifies visited, reached
    ensures fresh(next) && next.Length == g.n
    ensures Frontiers(g, Bits(visited[..]), Bits(reached[..]), if changed then Bits(next[..]) else {})
    ensures Unvisited(g, Bits(visited[..])) <= Unvisited(g, old(Bits(visited[..])))
    ensures changed ==> Unvisited(g, Bits(visited[..])) < Unvisited(g, old(Bits(visited[..])))
  {
    ghost var vs, rs, fs := Bits(visited[..]), Bits(reached[..]), Bits(frontier[..]);
    next, changed := Launch(g, frontier, visited, reached);
    FrontiersStep(g, vs, rs, fs, Bits(visited[..]), Bits(reached[..]), Bits(next[..]), changed);
    VisitedGrows(g, vs, Bits(visited[..]));
  }

  lemma BitsMembers(a: seq<bool>)
    ensures forall v: nat :: v < |a| ==> (a[v] <==> v in Bits(a))
  {
  }

  ghost function Unvisited(g: Input, visited: set<nat>): set<nat> {
    Below(g.n) - visited
  }

  lemma VisitedGrows(g: Input, before: set<nat>, after: set<nat>)
    requires before <= after <= Below(g.n)
    ensures Unvisited(g, after) <= Unvisited(g, before)
    ensures after != before ==> Unvisited(g, after) < Unvisited(g, before)
  {
    if after != before {
      assert !(after <= before);
      var v :| v in after && v !in before;
      assert v in Below(g.n) - before && v !in Below(g.n) - after;
    }
  }

  // ---------------------------------------------------------------- bounded depth

  /** After `k` levels the visited set is the ball of radius `k` round the seeds. */
  ghost predicate Ball(g: Input, visited: set<nat>, k: nat)
    requires g.Valid()
  {
    forall v: nat :: v in visited <==> WithinSeeds(g.E(), g.SeedSet(), v, k)
  }

  /** Nodes outside the frontier have had their edges followed. */
  ghost predicate Settled(g: Input, visited: set<nat>, frontier: set<nat>)
    requires g.Valid()
  {
    frontier <= visited && forall e :: e in g.E() && e.0 in visited - frontier ==> e.1 in visited
  }

  lemma BallStep(g: Input, k: nat, visited0: set<nat>, reached0: set<nat>, frontier: set<nat>,
                 visited: set<nat>, reached: set<nat>, next: set<nat>, changed: bool)
    requires g.Valid() && Ball(g, visited0, k) && Settled(g, visited0, frontier)
    requires Expanded(g, frontier, visited0, reached0, visited, reached, next, changed)
    ensures Ball(g, visited, k + 1) && Settled(g, visited, next)
  {
    forall v: nat
      ensures v in visited <==> WithinSeeds(g.E(), g.SeedSet(), v, k + 1)
    {
      WithinSeedsUnfold(g.E(), g.SeedSet(), v, k);
      if u: nat :| WithinSeeds(g.E(), g.SeedSet(), u, k) && (u, v) in g.E() {
        var e := (u, v);
        assert e.0 in visited0;
        assert u in frontier ==> Successor(g.E(), frontier, v);
      }
    }
    forall e | e in g.E() && e.0 in visited - next
      ensures e.1 in visited
    {
      assert e == (e.0, e.1);
      assert e.0 in frontier ==> Successor(g.E(), frontier, e.1);
    }
  }

  lemma {:induction false} BallStable(g: Input, visited: set<nat>, k: nat, j: nat)
    requires g.Valid() && Ball(g, visited, k) && Settled(g, visited, {})
    ensures Ball(g, visited, k + j)
    decreases j
  {
    if j > 0 {
      forall v: nat
        ensures v in visited <==> WithinSeeds(g.E(), g.SeedSet(), v, k + 1)
      {
        WithinSeedsUnfold(g.E(), g.SeedSet(), v, k);
        if u: nat :| WithinSeeds(g.E(), g.SeedSet(), u, k) && (u, v) in g.E() {
          var e := (u, v);
          assert e.0 in visited - {};
        }
      }
      BallStable(g, visited, k + 1, j - 1);
    }
  }

  lemma BallStart(g: Input)
    requires g.Valid()
    ensures Ball(g, g.SeedSet(), 0) && Settled(g, g.SeedSet(), g.SeedSet())
  {
    forall v: nat
      ensures v in g.SeedSet() <==> WithinSeeds(g.E(), g.SeedSet(), v, 0)
    {
      WithinSeedsUnfold(g.E(), g.SeedSet(), v, 0);
    }
  }

  /** Bounded slice: exactly the nodes at most `maxDepth` edges from a seed, seeds included. */
  method ReachableBounded(g: Input, maxDepth: nat) returns (r: Option<seq<bool>>)
    requires g.Valid()
    ensures r.None? <==> g.n > U32_MAX
    ensures r.Some? ==>
              && |r.value| == g.n
              && forall v: nat :: v < g.n ==> (r.value[v] <==> WithinSeeds(g.E(), g.SeedSet(), v, maxDepth))
  {
    if g.n > U32_MAX {
      return None;
    }
    var visited, frontier := SeedBitmaps(g);
    var reached := new bool[g.n](_ => false);
    BallStart(g);
    var level, changed := 0, true;
    while level < maxDepth && changed
      invariant level <= maxDepth
      invariant fresh(visited) && fresh(reached) && fresh(frontier) && visited != reached && frontier != visited
          && frontier != reached
      invariant frontier.Length == g.n == visited.Length && reached.Length == g.n
      invariant Ball(g, Bits(visited[..]), level)
      invariant Settled(g, Bits(visited[..]), if changed then Bits(frontier[..]) else {})
    {
      ghost var vs, rs, fs := Bits(visited[..]), Bits(reached[..]), Bits(frontier[..]);
      var next, more := Launch(g, frontier, visited, reached);
      BallStep(g, level, vs, rs, fs, Bits(visited[..]), Bits(reached[..]), Bits(next[..]), more);
      level, changed := level + 1, more;
      if changed {
        frontier := next;
      }
    }
    if level < maxDepth {
      BallStable(g, Bits(visited[..]), level, maxDepth - level);
    }
    r := Some(visited[..]);
    BitsMembers(visited[..]);
  }
}
