/** Breadth-first relabelling: slots are numbered component by component, each outwards from its
    seed. */
module Relabel {
  import opened Graphs
  import opened Sorting
  import opened StoredGraph

  /** The edges followed in either direction. */
  ghost function Undirected(edges: seq<Edge>): (E: Edges)
    ensures forall u: nat, v: nat :: (u, v) in E <==> Adjacent(edges, u, v)
  {
    (set e | e in edges :: (e.src, e.dst)) + set e | e in edges :: (e.dst, e.src)
  }

  ghost predicate Adjacent(edges: seq<Edge>, u: nat, v: nat) {
    exists e :: e in edges && ((e.src == u && e.dst == v) || (e.dst == u && e.src == v))
  }

  /** The distance from `s`, for nodes it reaches. */
  ghost function Depth(E: Edges, s: nat, v: nat): nat {
    if Reach(E, s, v) then Dist(E, s, v) else 0
  }

  lemma DepthWithin(E: Edges, s: nat, v: nat, k: nat)
    requires Reach(E, s, v)
    ensures Within(E, s, v, k) <==> Depth(E, s, v) <= k
  {
    DistanceWithin(E, s, v, Depth(E, s, v), k);
  }

  // ---------------------------------------------------------------- one component

  /** Nodes reached from `s`, each once, `s` first, in order of distance. */
  ghost predicate Outwards(E: Edges, s: nat, all: seq<nat>) {
    && Distinct(all) && all != [] && all[0] == s
    && (forall x :: x in all ==> Reach(E, s, x))
    && forall i, j :: 0 <= i < j < |all| ==> Depth(E, s, all[i]) <= Depth(E, s, all[j])
  }

  /** All nodes within distance `d` are listed, and none beyond `d + 1`. */
  ghost predicate Frontal(E: Edges, s: nat, all: seq<nat>, d: nat) {
    && (forall x: nat :: Within(E, s, x, d) ==> x in all)
    && forall x: nat :: x in all ==> Depth(E, s, x) <= d + 1
  }

  /** The neighbours of `part` are listed. */
  ghost predicate Followed(E: Edges, part: seq<nat>, all: seq<nat>) {
    forall x: nat, y: nat :: x in part && (x, y) in E ==> y in all
  }

  /** Between two nodes: `block` is numbered, `queue` waits. */
  ghost predicate Waiting(E: Edges, s: nat, block: seq<nat>, queue: seq<nat>) {
    && Outwards(E, s, block + queue) && Followed(E, block, block + queue)
    && (queue != [] ==> Frontal(E, s, block + queue, Depth(E, s, queue[0])))
  }

  /** While the neighbours of `u` are queued. */
  ghost predicate Expanding(E: Edges, s: nat, front: seq<nat>, u: nat, queue: seq<nat>) {
    var all := front + [u] + queue;
    Outwards(E, s, all) && Followed(E, front, all) && Frontal(E, s, all, Depth(E, s, u))
  }

  lemma StartsWaiting(E: Edges, s: nat)
    ensures Waiting(E, s, [], [s])
  {
    assert [] + [s] == [s];
    PathRefl(E, s);
    DepthWithin(E, s, s, 0);
    forall x: nat
      ensures Within(E, s, x, 0) <==> x == s
    {
      WithinUnfold(E, s, x, 0);
    }
  }

  lemma Dequeue(E: Edges, s: nat, block: seq<nat>, queue: seq<nat>)
    requires Waiting(E, s, block, queue) && queue != []
    ensures Expanding(E, s, block, queue[0], queue[1..])
  {
    assert block + queue == block + [queue[0]] + queue[1..];
  }

  /** A neighbour not yet listed is one edge farther than the node expanded. */
  lemma NewDepth(E: Edges, s: nat, all: seq<nat>, u: nat, y: nat)
    requires Reach(E, s, u) && (u, y) in E && y !in all && Frontal(E, s, all, Depth(E, s, u))
    ensures Reach(E, s, y) && Depth(E, s, y) == Depth(E, s, u) + 1
  {
    var d := Depth(E, s, u);
    DepthWithin(E, s, u, d);
    WithinStep(E, s, u, y, d);
    WithinMonotone(E, s, y, d + 1, d + 1);
    DepthWithin(E, s, y, d);
    DepthWithin(E, s, y, d + 1);
  }

  lemma Enqueued(E: Edges, s: nat, front: seq<nat>, u: nat, queue: seq<nat>, y: nat)
    requires Expanding(E, s, front, u, queue) && (u, y) in E && y !in front + [u] + queue
    ensures Expanding(E, s, front, u, queue + [y])
  {
    var all := front + [u] + queue;
    assert all[|front|] == u && u in all;
    NewDepth(E, s, all, u, y);
    assert front + [u] + (queue + [y]) == all + [y];
    DistinctSnoc(all, y);
    forall i | 0 <= i < |all|
      ensures Depth(E, s, all[i]) <= Depth(E, s, y)
    {
      assert all[i] in all;
    }
  }

  /** The next node in the queue is no nearer than the one before, and all nodes as near are listed. */
  lemma NextFrontal(E: Edges, s: nat, block: seq<nat>, u: nat, queue: seq<nat>)
    requires Outwards(E, s, block + queue) && Followed(E, block, block + queue) && queue != []
    requires Frontal(E, s, block + queue, Depth(E, s, u)) && u in block
    ensures Frontal(E, s, block + queue, Depth(E, s, queue[0]))
  {
    var all, d, h := block + queue, Depth(E, s, u), Depth(E, s, queue[0]);
    assert all[|block|] == queue[0] && queue[0] in all;
    var i :| 0 <= i < |block| && block[i] == u;
    assert all[i] == u;
    assert d <= h <= d + 1;
    forall x: nat | Within(E, s, x, h)
      ensures x in all
    {
      if h == d + 1 {
        NextListed(E, s, block, queue, d, x);
      }
    }
  }

  /** Queued nodes are no nearer than the first of them. */
  lemma QueueFar(E: Edges, s: nat, block: seq<nat>, queue: seq<nat>, y: nat)
    requires Outwards(E, s, block + queue) && queue != []
    ensures y in queue ==> Depth(E, s, queue[0]) <= Depth(E, s, y)
  {
    var all := block + queue;
    if y in queue {
      var k :| 0 <= k < |queue| && queue[k] == y;
      assert all[|block|] == queue[0] && all[|block| + k] == y;
    }
  }

  lemma NextListed(E: Edges, s: nat, block: seq<nat>, queue: seq<nat>, d: nat, x: nat)
    requires Outwards(E, s, block + queue) && Followed(E, block, block + queue) && queue != []
    requires Frontal(E, s, block + queue, d) && Depth(E, s, queue[0]) == d + 1 && Within(E, s, x, d + 1)
    ensures x in block + queue
  {
    var all := block + queue;
    if x != s {
      var y := WithinLast(E, s, x, d);
      assert y in all;
      DepthWithin(E, s, y, d);
      QueueFar(E, s, block, queue, y);
    }
  }

  lemma Expanded(E: Edges, s: nat, front: seq<nat>, u: nat, queue: seq<nat>)
    requires Expanding(E, s, front, u, queue) && Followed(E, [u], front + [u] + queue)
    ensures Waiting(E, s, front + [u], queue)
  {
    var block := front + [u];
    assert block[|front|] == u && u in block;
    forall x: nat, y: nat | x in block && (x, y) in E
      ensures y in block + queue
    {
      assert x in front || x in [u];
    }
    if queue != [] {
      NextFrontal(E, s, block, u, queue);
    }
  }

  /** A run of numbers: everything reached from its first slot, once each, by distance. */
  ghost predicate IsBlock(E: Edges, block: seq<nat>) {
    && block != [] && Outwards(E, block[0], block)
    && forall v: nat :: v in block <==> Reach(E, block[0], v)
  }

  lemma BlockDone(E: Edges, s: nat, block: seq<nat>)
    requires Waiting(E, s, block, [])
    ensures IsBlock(E, block) && block[0] == s
  {
    assert block + [] == block;
    forall v: nat | Reach(E, s, v)
      ensures v in block
    {
      ReachInvariant(E, Members(block), s, v);
    }
  }

  // ---------------------------------------------------------------- the numbering

  /** `order` and then `queue` list the visited slots once each. */
  ghost predicate Listed(g: CodeGraph, order: seq<nat>, queue: seq<nat>, visited: set<nat>) {
    && Distinct(order + queue)
    && (forall v :: v in order + queue <==> v in visited)
    && forall v :: v in visited ==> v in g.nodes
  }

  lemma ListedPush(g: CodeGraph, order: seq<nat>, queue: seq<nat>, visited: set<nat>, v: nat)
    requires Listed(g, order, queue, visited) && v !in visited && v in g.nodes
    ensures Listed(g, order, queue + [v], visited + {v})
  {
    assert order + (queue + [v]) == (order + queue) + [v];
    DistinctSnoc(order + queue, v);
  }

  lemma ListedBound(g: CodeGraph, order: seq<nat>, queue: seq<nat>, visited: set<nat>)
    requires Listed(g, order, queue, visited)
    ensures |order| + |queue| <= |g.nodes|
  {
    var all := order + queue;
    DistinctCard(all);
    DistinctCard(g.nodes);
    assert Members(all) <= Members(g.nodes);
    SubsetCard(Members(all), Members(g.nodes));
  }

  /** No edge leaves `visited`. */
  ghost predicate Closed(E: Edges, visited: set<nat>) {
    forall x: nat, y: nat :: x in visited && (x, y) in E ==> y in visited
  }

  /** The state while one component is numbered after `order0`. */
  ghost predicate Numbering(g: CodeGraph, s: nat, order0: seq<nat>, block: seq<nat>, u: nat, queue: seq<nat>,
                            visited: set<nat>) {
    && Listed(g, order0 + block + [u], queue, visited)
    && Closed(Undirected(g.edges), Members(order0))
    && Expanding(Undirected(g.edges), s, block, u, queue)
  }

  lemma NeighbourNew(g: CodeGraph, s: nat, order0: seq<nat>, block: seq<nat>, u: nat, queue: seq<nat>,
                     visited: set<nat>, y: nat)
    requires Numbering(g, s, order0, block, u, queue, visited) && Adjacent(g.edges, u, y)
    ensures y in visited <==> y in block + [u] + queue
  {
    var order := order0 + block + [u];
    assert order + queue == order0 + (block + [u] + queue);
    assert y in order + queue <==> y in order0 || y in block + [u] + queue;
    assert (block + [u] + queue)[|block|] == u;
    Apart(order0, block + [u] + queue, u);
    EarlierApart(g, order0, u, y);
  }

  lemma EarlierApart(g: CodeGraph, order0: seq<nat>, u: nat, y: nat)
    requires Closed(Undirected(g.edges), Members(order0)) && Adjacent(g.edges, u, y) && u !in order0
    ensures y !in order0
  {
    assert Adjacent(g.edges, y, u) && (y, u) in Undirected(g.edges);
    assert y in Members(order0) ==> u in Members(order0);
  }

  lemma Apart(a: seq<nat>, b: seq<nat>, u: nat)
    requires Distinct(a + b) && u in b
    ensures u !in a
  {
    var j :| 0 <= j < |b| && b[j] == u;
    assert (a + b)[|a| + j] == u;
    forall i | 0 <= i < |a|
      ensures a[i] != u
    {
      assert (a + b)[i] == a[i];
    }
  }

  lemma NumberingPush(g: CodeGraph, s: nat, order0: seq<nat>, block: seq<nat>, u: nat, queue: seq<nat>,
                      visited: set<nat>, y: nat)
    requires Numbering(g, s, order0, block, u, queue, visited) && Adjacent(g.edges, u, y)
    requires y in g.nodes && y !in visited
    ensures Numbering(g, s, order0, block, u, queue + [y], visited + {y})
  {
    NeighbourNew(g, s, order0, block, u, queue, visited, y);
    Enqueued(Undirected(g.edges), s, block, u, queue, y);
    ListedPush(g, order0 + block + [u], queue, visited, y);
  }

  /** Queue a neighbour of `u` unless it is visited. */
  method EnqueueOne(g: CodeGraph, ghost s: nat, ghost order0: seq<nat>, ghost block: seq<nat>, ghost u: nat,
                    queue0: seq<nat>, visited0: set<nat>, y: nat) returns (queue: seq<nat>, visited: set<nat>)
    requires Numbering(g, s, order0, block, u, queue0, visited0) && y in g.nodes && Adjacent(g.edges, u, y)
    ensures Numbering(g, s, order0, block, u, queue, visited) && visited == visited0 + {y}
  {
    queue, visited := queue0, visited0;
    if y !in visited0 {
      NumberingPush(g, s, order0, block, u, queue0, visited0, y);
      queue, visited := queue0 + [y], visited0 + {y};
    }
    assert visited == visited0 + {y};
  }

  /** Queue the unvisited slots among the neighbours `next` of `u`. */
  method Enqueue(g: CodeGraph, ghost s: nat, ghost order0: seq<nat>, ghost block: seq<nat>, ghost u: nat,
                 queue0: seq<nat>, visited0: set<nat>, next: seq<nat>)
    returns (queue: seq<nat>, visited: set<nat>)
    requires Numbering(g, s, order0, block, u, queue0, visited0)
    requires forall k :: 0 <= k < |next| ==> next[k] in g.nodes && Adjacent(g.edges, u, next[k])
    ensures Numbering(g, s, order0, block, u, queue, visited) && visited == visited0 + Members(next)
  {
    queue, visited := queue0, visited0;
    for i := 0 to |next|
      invariant Numbering(g, s, order0, block, u, queue, visited) && visited == visited0 + Members(next[..i])
    {
      MembersUpTo(next, i);
      queue, visited := EnqueueOne(g, s, order0, block, u, queue, visited, next[i]);
    }
    assert next[..|next|] == next;
  }

  lemma MembersUpTo(s: seq<nat>, i: nat)
    requires i < |s|
    ensures Members(s[..i + 1]) == Members(s[..i]) + {s[i]}
  {
    assert s[..i + 1] == s[..i] + [s[i]];
  }

  lemma EndsAdjacent(g: CodeGraph, u: nat, side: Side)
    requires g.Valid()
    ensures var vs := FarEnds(g.edges, u, side);
            forall k :: 0 <= k < |vs| ==> vs[k] in g.nodes && Adjacent(g.edges, u, vs[k])
  {
    var vs := FarEnds(g.edges, u, side);
    forall k | 0 <= k < |vs|
      ensures vs[k] in g.nodes && Adjacent(g.edges, u, vs[k])
    {
      FarEndsMembers(g.edges, u, side, vs[k]);
    }
  }

  lemma AllFollowed(g: CodeGraph, s: nat, order0: seq<nat>, block: seq<nat>, u: nat, queue: seq<nat>,
                    visited: set<nat>)
    requires Numbering(g, s, order0, block, u, queue, visited)
    requires Members(FarEnds(g.edges, u, Out)) + Members(FarEnds(g.edges, u, In)) <= visited
    ensures Waiting(Undirected(g.edges), s, block + [u], queue)
  {
    forall x: nat, y: nat | x in [u] && (x, y) in Undirected(g.edges)
      ensures y in block + [u] + queue
    {
      FarEndsMembers(g.edges, u, Out, y);
      FarEndsMembers(g.edges, u, In, y);
      NeighbourNew(g, s, order0, block, u, queue, visited, y);
    }
    Expanded(Undirected(g.edges), s, block, u, queue);
  }

  /** Between two nodes of a component numbered after `order0`. */
  ghost predicate Numbered(g: CodeGraph, s: nat, order0: seq<nat>, block: seq<nat>, queue: seq<nat>,
                           visited: set<nat>) {
    && Listed(g, order0 + block, queue, visited) && Closed(Undirected(g.edges), Members(order0))
    && Waiting(Undirected(g.edges), s, block, queue)
  }

  lemma NumberedStart(g: CodeGraph, order0: seq<nat>, visited0: set<nat>, seed: nat)
    requires Listed(g, order0, [], visited0) && seed in g.nodes && seed !in visited0
    requires Closed(Undirected(g.edges), visited0)
    ensures Numbered(g, seed, order0, [], [seed], visited0 + {seed})
  {
    assert order0 + [] == order0 && [] + [seed] == [seed];
    ListedAll(g, order0, visited0);
    ListedPush(g, order0, [], visited0, seed);
    StartsWaiting(Undirected(g.edges), seed);
  }

  lemma NumberingStart(g: CodeGraph, s: nat, order0: seq<nat>, block: seq<nat>, queue: seq<nat>, visited: set<nat>)
    requires Numbered(g, s, order0, block, queue, visited) && queue != []
    ensures Numbering(g, s, order0, block, queue[0], queue[1..], visited)
  {
    assert order0 + block + queue == (order0 + block + [queue[0]]) + queue[1..];
    Dequeue(Undirected(g.edges), s, block, queue);
  }

  lemma NumberingEnd(g: CodeGraph, s: nat, order0: seq<nat>, block: seq<nat>, u: nat, queue: seq<nat>,
                     visited: set<nat>)
    requires Numbering(g, s, order0, block, u, queue, visited)
    requires Members(FarEnds(g.edges, u, Out)) + Members(FarEnds(g.edges, u, In)) <= visited
    ensures Numbered(g, s, order0, block + [u], queue, visited)
  {
    AllFollowed(g, s, order0, block, u, queue, visited);
    assert order0 + (block + [u]) == order0 + block + [u];
  }

  /** Number the head of the queue and queue its neighbours, those along outgoing edges first. */
  method Visit(g: CodeGraph, ghost s: nat, ghost order0: seq<nat>, ghost block: seq<nat>, queue0: seq<nat>,
               visited0: set<nat>) returns (curr: nat, queue: seq<nat>, visited: set<nat>)
    requires g.Valid() && queue0 != [] && Numbered(g, s, order0, block, queue0, visited0)
    ensures Numbered(g, s, order0, block + [curr], queue, visited)
  {
    curr, queue, visited := queue0[0], queue0[1..], visited0;
    NumberingStart(g, s, order0, block, queue0, visited0);
    EndsAdjacent(g, curr, Out);
    queue, visited := Enqueue(g, s, order0, block, curr, queue, visited, FarEnds(g.edges, curr, Out));
    EndsAdjacent(g, curr, In);
    queue, visited := Enqueue(g, s, order0, block, curr, queue, visited, FarEnds(g.edges, curr, In));
    NumberingEnd(g, s, order0, block, curr, queue, visited);
  }

  ghost function Remaining(g: CodeGraph, order: seq<nat>): int {
    |g.nodes| - |order|
  }

  lemma RemainingFalls(g: CodeGraph, s: nat, order0: seq<nat>, block: seq<nat>, queue: seq<nat>, visited: set<nat>)
    requires Numbered(g, s, order0, block, queue, visited) && queue != []
    ensures Remaining(g, order0 + block) > 0
    ensures forall v: nat :: Remaining(g, order0 + block + [v]) == Remaining(g, order0 + block) - 1
  {
    ListedBound(g, order0 + block, queue, visited);
  }

  lemma NumberedEnd(g: CodeGraph, s: nat, order0: seq<nat>, block: seq<nat>, visited: set<nat>)
    requires Numbered(g, s, order0, block, [], visited)
    ensures Listed(g, order0 + block, [], visited) && IsBlock(Undirected(g.edges), block) && block[0] == s
  {
    BlockDone(Undirected(g.edges), s, block);
  }

  /** Number every slot reached from `seed` over edges in either direction. */
  method RelabelFrom(g: CodeGraph, order0: seq<nat>, visited0: set<nat>, seed: nat)
    returns (order: seq<nat>, visited: set<nat>, ghost block: seq<nat>)
    requires g.Valid() && Listed(g, order0, [], visited0) && seed in g.nodes && seed !in visited0
    requires Closed(Undirected(g.edges), visited0)
    ensures order == order0 + block && Listed(g, order, [], visited)
    ensures IsBlock(Undirected(g.edges), block) && block[0] == seed
  {
    NumberedStart(g, order0, visited0, seed);
    var queue := [seed];
    order, visited, block := order0, visited0 + {seed}, [];
    while queue != []
      invariant order == order0 + block && Numbered(g, seed, order0, block, queue, visited)
      decreases Remaining(g, order)
    {
      RemainingFalls(g, seed, order0, block, queue, visited);
      var curr;
      curr, queue, visited := Visit(g, seed, order0, block, queue, visited);
      order := order + [curr];
      block := block + [curr];
      assert order == order0 + block;
    }
    NumberedEnd(g, seed, order0, block, visited);
  }

  function TotalDegree(g: CodeGraph, v: nat): nat {
    |FarEnds(g.edges, v, Out)| + |FarEnds(g.edges, v, In)|
  }

  /** How many ends of edges lie at slot `v`: two for an edge from it to itself. */
  ghost function EdgeEnds(edges: seq<Edge>, v: nat): nat {
    if edges == [] then 0
    else
      var last := edges[|edges| - 1];
      EdgeEnds(edges[..|edges| - 1], v) + (if last.src == v then 1 else 0) + if last.dst == v then 1 else 0
  }

  lemma {:induction false} IncidentEnds(edges: seq<Edge>, v: nat)
    ensures |Incident(edges, v, Out)| + |Incident(edges, v, In)| == EdgeEnds(edges, v)
  {
    if edges != [] {
      IncidentEnds(edges[..|edges| - 1], v);
    }
  }

  /** The degree of a slot counts the ends of edges at it. */
  lemma DegreeIsEnds(g: CodeGraph, v: nat)
    ensures TotalDegree(g, v) == EdgeEnds(g.edges, v)
  {
    IncidentEnds(g.edges, v);
  }

  /** Sorts the highest degree first. */
  function DegreeKey(g: CodeGraph): nat -> int {
    (v: nat) => var d: int := TotalDegree(g, v); -d
  }

  ghost function Flat(blocks: seq<seq<nat>>): seq<nat> {
    if blocks == [] then [] else Flat(blocks[..|blocks| - 1]) + blocks[|blocks| - 1]
  }

  /** At no slot outside the first `b` blocks lie more ends of edges than at the first of block `b`. */
  ghost predicate Hub(g: CodeGraph, blocks: seq<seq<nat>>, b: nat)
    requires b < |blocks|
  {
    && blocks[b] != []
    && forall v :: v in g.nodes && v !in Flat(blocks[..b]) ==> EdgeEnds(g.edges, v) <= EdgeEnds(g.edges, blocks[b][0])
  }

  /** The numbering runs through whole components, each outwards from a slot of the highest degree
      left. */
  ghost predicate Layout(g: CodeGraph, order: seq<nat>, blocks: seq<seq<nat>>) {
    && order == Flat(blocks)
    && forall b: nat {:trigger blocks[b]} :: b < |blocks| ==>
         IsBlock(Undirected(g.edges), blocks[b]) && Hub(g, blocks, b)
  }

  lemma LayoutPush(g: CodeGraph, order: seq<nat>, blocks: seq<seq<nat>>, block: seq<nat>)
    requires Layout(g, order, blocks) && IsBlock(Undirected(g.edges), block)
    requires forall v :: v in g.nodes && v !in order ==> EdgeEnds(g.edges, v) <= EdgeEnds(g.edges, block[0])
    ensures Layout(g, order + block, blocks + [block])
  {
    var more := blocks + [block];
    assert more[..|blocks|] == blocks;
    forall b: nat | b < |more|
      ensures IsBlock(Undirected(g.edges), more[b]) && Hub(g, more, b)
    {
      if b < |blocks| {
        assert more[..b] == blocks[..b] && more[b] == blocks[b];
        assert Hub(g, blocks, b);
      }
    }
  }

  lemma BlockCloses(E: Edges, order: seq<nat>, block: seq<nat>)
    requires Closed(E, Members(order)) && IsBlock(E, block)
    ensures Closed(E, Members(order + block))
  {
    forall x: nat, y: nat | x in Members(order + block) && (x, y) in E
      ensures y in Members(order + block)
    {
      if x in block {
        ReachEdge(E, x, y);
        ReachTrans(E, block[0], x, y);
        assert y in block;
      } else {
        assert x in Members(order) && y in Members(order);
      }
    }
  }

  /** Seeds are taken by falling degree, so an unvisited one has the highest degree left. */
  lemma SeedIsHub(g: CodeGraph, seeds: seq<nat>, i: nat, order: seq<nat>)
    requires SortedBy(DegreeKey(g), seeds) && multiset(seeds) == multiset(g.nodes) && i < |seeds|
    requires forall j :: 0 <= j < i ==> seeds[j] in order
    ensures forall v :: v in g.nodes && v !in order ==> EdgeEnds(g.edges, v) <= EdgeEnds(g.edges, seeds[i])
  {
    forall v | v in g.nodes && v !in order
      ensures EdgeEnds(g.edges, v) <= EdgeEnds(g.edges, seeds[i])
    {
      DegreeIsEnds(g, v);
      DegreeIsEnds(g, seeds[i]);
      assert v in multiset(seeds);
      var j :| 0 <= j < |seeds| && seeds[j] == v;
      assert DegreeKey(g)(seeds[i]) <= DegreeKey(g)(seeds[j]) || j == i;
    }
  }

  /** The first `i` seeds are numbered, with their components. */
  ghost predicate Progress(g: CodeGraph, seeds: seq<nat>, i: nat, order: seq<nat>, visited: set<nat>,
                           blocks: seq<seq<nat>>)
    requires i <= |seeds|
  {
    && Listed(g, order, [], visited) && Closed(Undirected(g.edges), visited)
    && Layout(g, order, blocks) && forall j :: 0 <= j < i ==> seeds[j] in order
  }

  ghost predicate ByDegree(g: CodeGraph, seeds: seq<nat>) {
    SortedBy(DegreeKey(g), seeds) && multiset(seeds) == multiset(g.nodes)
  }

  /** The members listed without a queue are those visited. */
  lemma ListedAll(g: CodeGraph, order: seq<nat>, visited: set<nat>)
    requires Listed(g, order, [], visited)
    ensures Members(order) == visited
  {
    assert order + [] == order;
  }

  lemma ProgressStart(g: CodeGraph, seeds: seq<nat>)
    ensures Progress(g, seeds, 0, [], {}, [])
  {
  }

  lemma ProgressSkip(g: CodeGraph, seeds: seq<nat>, i: nat, order: seq<nat>, visited: set<nat>,
                     blocks: seq<seq<nat>>)
    requires i < |seeds| && Progress(g, seeds, i, order, visited, blocks) && seeds[i] in visited
    ensures Progress(g, seeds, i + 1, order, visited, blocks)
  {
    ListedAll(g, order, visited);
    assert seeds[i] in Members(order);
  }

  lemma ProgressAdd(g: CodeGraph, seeds: seq<nat>, i: nat, order: seq<nat>, visited: set<nat>,
                    blocks: seq<seq<nat>>, block: seq<nat>, visited': set<nat>)
    requires ByDegree(g, seeds) && i < |seeds| && Progress(g, seeds, i, order, visited, blocks)
    requires IsBlock(Undirected(g.edges), block) && block[0] == seeds[i] && Listed(g, order + block, [], visited')
    ensures Progress(g, seeds, i + 1, order + block, visited', blocks + [block])
  {
    ListedAll(g, order, visited);
    ListedAll(g, order + block, visited');
    SeedIsHub(g, seeds, i, order);
    LayoutPush(g, order, blocks, block);
    BlockCloses(Undirected(g.edges), order, block);
    assert block[0] in block;
  }

  /** One seed: nothing when it is numbered, else its component. */
  method FromSeed(g: CodeGraph, seeds: seq<nat>, i: nat, order0: seq<nat>, visited0: set<nat>,
                  ghost blocks0: seq<seq<nat>>)
    returns (order: seq<nat>, visited: set<nat>, ghost blocks: seq<seq<nat>>)
    requires g.Valid() && ByDegree(g, seeds) && i < |seeds| && Progress(g, seeds, i, order0, visited0, blocks0)
    ensures Progress(g, seeds, i + 1, order, visited, blocks)
  {
    order, visited, blocks := order0, visited0, blocks0;
    if seeds[i] in visited0 {
      ProgressSkip(g, seeds, i, order0, visited0, blocks0);
    } else {
      assert seeds[i] in multiset(seeds);
      ghost var block;
      order, visited, block := RelabelFrom(g, order0, visited0, seeds[i]);
      ProgressAdd(g, seeds, i, order0, visited0, blocks0, block, visited);
      blocks := blocks0 + [block];
    }
  }

  lemma ProgressEnd(g: CodeGraph, seeds: seq<nat>, order: seq<nat>, visited: set<nat>, blocks: seq<seq<nat>>)
    requires g.Valid() && ByDegree(g, seeds) && Progress(g, seeds, |seeds|, order, visited, blocks)
    ensures Distinct(order) && (forall v :: v in order <==> v in g.nodes) && |order| == |g.nodes|
    ensures Layout(g, order, blocks)
  {
    assert order + [] == order;
    forall v | v in g.nodes
      ensures v in order
    {
      assert v in multiset(seeds);
      var j :| 0 <= j < |seeds| && seeds[j] == v;
    }
    SameMembersSameLength(order, g.nodes);
  }

  /** The relabelling is a permutation of the live slots that runs through the undirected components
      one after another, each by distance from a slot of the highest degree left. */
  method BfsRelabel(g: CodeGraph) returns (order: seq<nat>, ghost blocks: seq<seq<nat>>)
    requires g.Valid()
    ensures Distinct(order) && (forall v :: v in order <==> v in g.nodes) && |order| == |g.nodes|
    ensures Layout(g, order, blocks)
  {
    var seeds := SortByKey(DegreeKey(g), g.nodes);
    SortByKeySorted(DegreeKey(g), g.nodes);
    order, blocks := [], [];
    var visited: set<nat> := {};
    ProgressStart(g, seeds);
    for i := 0 to |seeds|
      invariant Progress(g, seeds, i, order, visited, blocks)
    {
      order, visited, blocks := FromSeed(g, seeds, i, order, visited, blocks);
    }
    ProgressEnd(g, seeds, order, visited, blocks);
  }

  lemma SameMembersSameLength(a: seq<nat>, b: seq<nat>)
    requires Distinct(a) && Distinct(b) && forall v :: v in a <==> v in b
    ensures |a| == |b|
  {
    DistinctCard(a);
    DistinctCard(b);
    assert Members(a) == Members(b);
  }
}
