/** The host's reverse-postorder numbering: an explicit-stack depth-first search.
    It meets the conditions the dominator kernel needs of its numbering. */
module DfsNumbering {
  import opened Graphs
  import opened Rows
  import opened Dominance

  /** A stack entry: a node, and whether it is waiting to be finished. */
  datatype Entry = Entry(node: nat, processed: bool)

  /** The nodes waiting to be finished, oldest first. */
  ghost function Grays(stack: seq<Entry>): seq<nat> {
    if stack == [] then []
    else
      var rest, top := stack[..|stack| - 1], stack[|stack| - 1];
      Grays(rest) + if top.processed then [top.node] else []
  }

  /** Every entry was pushed by the latest unfinished node below it. */
  ghost predicate Linked(E: Edges, root: nat, stack: seq<Entry>) {
    stack == [] ||
    var rest, top := stack[..|stack| - 1], stack[|stack| - 1];
    var grays := Grays(rest);
    Linked(E, root, rest) && if grays == [] then top.node == root else (grays[|grays| - 1], top.node) in E
  }

  lemma Popped(E: Edges, root: nat, rest: seq<Entry>, top: Entry)
    ensures Grays(rest + [top]) == Grays(rest) + if top.processed then [top.node] else []
    ensures Linked(E, root, rest + [top]) <==>
              Linked(E, root, rest) &&
              if Grays(rest) == [] then top.node == root else (Grays(rest)[|Grays(rest)| - 1], top.node) in E
  {
    assert (rest + [top])[..|rest + [top]| - 1] == rest;
  }

  lemma {:induction false} GrayPath(E: Edges, root: nat, stack: seq<Entry>)
    requires Linked(E, root, stack) && Grays(stack) != []
    ensures IsPath(E, Grays(stack)) && Grays(stack)[0] == root
  {
    var rest, top := stack[..|stack| - 1], stack[|stack| - 1];
    assert stack == rest + [top];
    Popped(E, root, rest, top);
    if Grays(rest) != [] {
      GrayPath(E, root, rest);
      if top.processed {
        PathSnoc(E, Grays(rest), root, Grays(rest)[|Grays(rest)| - 1], top.node);
      }
    }
  }

  /** The unfinished nodes below an entry, with the entry itself, are a path from the root. */
  lemma EntryPath(E: Edges, root: nat, rest: seq<Entry>, top: Entry)
    requires Linked(E, root, rest + [top])
    ensures PathFromTo(E, Grays(rest) + [top.node], root, top.node)
  {
    Popped(E, root, rest, top);
    if Grays(rest) == [] {
      PathRefl(E, root);
      assert Grays(rest) + [top.node] == [root];
    } else {
      GrayPath(E, root, rest);
      PathSnoc(E, Grays(rest), root, Grays(rest)[|Grays(rest)| - 1], top.node);
    }
  }

  /** No finished node strictly dominates a node finished after it. */
  ghost predicate DominatorsFinishLater(E: Edges, root: nat, post: seq<nat>) {
    forall i, j :: 0 <= i < j < |post| ==> !StrictlyDominates(E, root, post[i], post[j])
  }

  ghost predicate Search(E: Edges, n: nat, root: nat, visited: seq<bool>, stack: seq<Entry>, post: seq<nat>) {
    && |visited| == n
    && Linked(E, root, stack)
    && Distinct(post) && Distinct(Grays(stack))
    && (forall v :: v in post ==> v !in Grays(stack))
    && (forall e :: e in stack ==> e.node < n)
    && (forall v: nat :: (v < n && visited[v]) <==> v in post || v in Grays(stack))
    && (forall v :: v in post ==> Reach(E, root, v))
    && DominatorsFinishLater(E, root, post)
  }

  /** Every edge out of a visited node leads to a visited or stacked node, except
      the edges to `open`. */
  ghost predicate Covered(E: Edges, n: nat, visited: seq<bool>, stack: seq<Entry>, u: nat, open: set<nat>)
    requires |visited| == n && Bounded(E, n)
  {
    forall v: nat, w: nat :: (v, w) in E && visited[v] && !(v == u && w in open) ==>
        visited[w] || Entry(w, false) in stack
  }

  lemma Finish(E: Edges, n: nat, root: nat, visited: seq<bool>, rest: seq<Entry>, u: nat, post: seq<nat>)
    requires Search(E, n, root, visited, rest + [Entry(u, true)], post)
    ensures Search(E, n, root, visited, rest, post + [u])
  {
    var top := Entry(u, true);
    var grays := Grays(rest);
    Popped(E, root, rest, top);
    EntryPath(E, root, rest, top);
    assert u in grays + [u];
    DistinctSnoc(grays, u);
    DistinctSnoc(post, u);
    assert forall e :: e in rest ==> e in rest + [top];
    var post' := post + [u];
    forall i, j | 0 <= i < j < |post'|
      ensures !StrictlyDominates(E, root, post'[i], post'[j])
    {
      if j == |post| {
        assert post[i] in post;
        assert post[i] !in grays + [u];
      }
    }
  }

  lemma Discard(E: Edges, n: nat, root: nat, visited: seq<bool>, rest: seq<Entry>, u: nat, post: seq<nat>)
    requires Search(E, n, root, visited, rest + [Entry(u, false)], post)
    ensures Search(E, n, root, visited, rest, post)
  {
    Popped(E, root, rest, Entry(u, false));
    assert Grays(rest) + [] == Grays(rest);
    assert forall e :: e in rest ==> e in rest + [Entry(u, false)];
  }

  lemma Visit(E: Edges, n: nat, root: nat, visited: seq<bool>, rest: seq<Entry>, u: nat, post: seq<nat>)
    requires Search(E, n, root, visited, rest + [Entry(u, false)], post) && u < n && !visited[u]
    ensures Search(E, n, root, visited[u := true], rest + [Entry(u, true)], post)
  {
    Popped(E, root, rest, Entry(u, false));
    Popped(E, root, rest, Entry(u, true));
    assert forall e :: e in rest ==> e in rest + [Entry(u, false)];
    var grays := Grays(rest);
    assert forall v :: v in grays + [u] <==> v in grays || v == u;
    assert grays + [] == grays;
    DistinctSnoc(grays, u);
  }

  lemma Push(E: Edges, n: nat, root: nat, visited: seq<bool>, stack: seq<Entry>, u: nat, w: nat, post: seq<nat>)
    requires Search(E, n, root, visited, stack, post) && (u, w) in E && w < n
    requires Grays(stack) != [] && Grays(stack)[|Grays(stack)| - 1] == u
    ensures Search(E, n, root, visited, stack + [Entry(w, false)], post)
    ensures Grays(stack + [Entry(w, false)]) == Grays(stack)
  {
    Popped(E, root, stack, Entry(w, false));
    assert Grays(stack) + [] == Grays(stack);
  }

  lemma CoveredPop(E: Edges, n: nat, visited: seq<bool>, rest: seq<Entry>, top: Entry)
    requires |visited| == n && Bounded(E, n) && top.node < n && visited[top.node]
    requires Covered(E, n, visited, rest + [top], 0, {})
    ensures Covered(E, n, visited, rest, 0, {})
  {
    assert forall e :: e in rest + [top] <==> e in rest || e == top;
  }

  /** A successor that is visited or pushed is no longer owed. */
  lemma CoveredClose(E: Edges, n: nat, visited: seq<bool>, stack: seq<Entry>, u: nat, open: set<nat>, w: nat)
    requires |visited| == n && Bounded(E, n) && w < n && Covered(E, n, visited, stack, u, open)
    ensures visited[w] ==> Covered(E, n, visited, stack, u, open - {w})
    ensures Covered(E, n, visited, stack + [Entry(w, false)], u, open - {w})
  {
    var pushed := stack + [Entry(w, false)];
    assert pushed[|stack|] == Entry(w, false);
    forall e | e in stack
      ensures e in pushed
    {
    }
  }

  lemma CoveredVisit(E: Edges, n: nat, visited: seq<bool>, rest: seq<Entry>, u: nat)
    requires |visited| == n && Bounded(E, n) && u < n
    requires Covered(E, n, visited, rest + [Entry(u, false)], 0, {})
    ensures Covered(E, n, visited[u := true], rest + [Entry(u, true)], u, Below(n))
  {
    assert forall e :: e in rest + [Entry(u, false)] <==> e in rest || e == Entry(u, false);
    assert forall e :: e in rest + [Entry(u, true)] <==> e in rest || e == Entry(u, true);
  }

  lemma PrefixMembers(base: seq<Entry>, stack: seq<Entry>)
    requires base <= stack
    ensures forall e :: e in base ==> e in stack
  {
    forall i | 0 <= i < |base|
      ensures base[i] in stack
    {
      assert base[i] == stack[i];
    }
  }

  lemma VisitShrinks(visited: seq<bool>, u: nat)
    requires u < |visited| && !visited[u]
    ensures |Unvisited(visited[u := true])| < |Unvisited(visited)|
  {
    assert Unvisited(visited[u := true]) == Unvisited(visited) - {u};
    assert u in Unvisited(visited);
  }

  ghost function Unvisited(visited: seq<bool>): set<nat> {
    set v | v in Below(|visited|) && !visited[v]
  }

  /** The stacks of a search in which the edges of `u` into `open` are still to be followed. */
  ghost function Stacks(E: Edges, n: nat, root: nat, visited: seq<bool>, post: seq<nat>, u: nat, open: set<nat>):
      iset<seq<Entry>>
    requires |visited| == n && Bounded(E, n)
  {
    iset stack: seq<Entry> | Search(E, n, root, visited, stack, post) && Covered(E, n, visited, stack, u, open)
  }

  /** Push one successor of `u` unless it is visited. */
  method PushSuccessor(ghost E: Edges, n: nat, ghost root: nat, visited: array<bool>, stack: seq<Entry>, ghost u: nat,
                       w: nat, ghost post: seq<nat>, ghost open: set<nat>) returns (next: seq<Entry>)
    requires visited.Length == n && w < n && Bounded(E, n) && (u, w) in E
    requires stack in Stacks(E, n, root, visited[..], post, u, open)
    requires Grays(stack) != [] && Grays(stack)[|Grays(stack)| - 1] == u
    ensures next in Stacks(E, n, root, visited[..], post, u, open - {w})
    ensures Grays(next) == Grays(stack) && stack <= next
  {
    CoveredClose(E, n, visited[..], stack, u, open, w);
    if visited[w] {
      next := stack;
    } else {
      Push(E, n, root, visited[..], stack, u, w, post);
      next := stack + [Entry(w, false)];
    }
  }

  /** Push the unvisited nodes of a row of successors. */
  method PushRow(ghost E: Edges, n: nat, ghost root: nat, visited: array<bool>, base: seq<Entry>, ghost u: nat,
                 row: seq<nat>, ghost post: seq<nat>) returns (stack: seq<Entry>)
    requires visited.Length == n && Bounded(E, n) && forall k :: 0 <= k < |row| ==> row[k] < n && (u, row[k]) in E
    requires base in Stacks(E, n, root, visited[..], post, u, Below(n))
    requires Grays(base) != [] && Grays(base)[|Grays(base)| - 1] == u
    ensures stack in Stacks(E, n, root, visited[..], post, u, Below(n) - Members(row))
    ensures base <= stack
  {
    stack := base;
    assert Left(n, row, 0) == Below(n);
    for k := 0 to |row|
      invariant stack in Stacks(E, n, root, visited[..], post, u, Left(n, row, k))
      invariant Grays(stack) == Grays(base) && base <= stack
    {
      LeftStep(n, row, k);
      stack := PushSuccessor(E, n, root, visited, stack, u, row[k], post, Left(n, row, k));
    }
    assert row[..|row|] == row;
  }

  /** The nodes not among the first `k` of a row. */
  ghost function Left(n: nat, row: seq<nat>, k: nat): set<nat>
    requires k <= |row|
  {
    Below(n) - Members(row[..k])
  }

  lemma LeftStep(n: nat, row: seq<nat>, k: nat)
    requires k < |row|
    ensures Left(n, row, k + 1) == Left(n, row, k) - {row[k]}
  {
    assert row[..k + 1] == row[..k] + [row[k]];
  }

  /** Push the unvisited successors of `u`, whose row is `succ[off[u]..off[u + 1]]`. */
  method PushSuccessors(n: nat, off: seq<nat>, succ: seq<nat>, ghost root: nat, u: nat,
                        visited: array<bool>, base: seq<Entry>, ghost post: seq<nat>)
    returns (stack: seq<Entry>)
    requires ValidRows(n, off, succ) && u < n && visited.Length == n && visited[u]
    requires Search(RowEdges(n, off, succ), n, root, visited[..], base, post)
    requires Grays(base) != [] && Grays(base)[|Grays(base)| - 1] == u
    requires Covered(RowEdges(n, off, succ), n, visited[..], base, u, Below(n))
    ensures Search(RowEdges(n, off, succ), n, root, visited[..], stack, post)
    ensures Covered(RowEdges(n, off, succ), n, visited[..], stack, u, {})
    ensures forall e :: e in base ==> e in stack
  {
    var row := succ[off[u]..off[u + 1]];
    forall k | 0 <= k < |row|
      ensures row[k] < n && (u, row[k]) in RowEdges(n, off, succ)
    {
      assert succ[off[u] + k] == row[k];
      assert InRow(n, off, succ, u, row[k]);
    }
    stack := PushRow(RowEdges(n, off, succ), n, root, visited, base, u, row, post);
    PrefixMembers(base, stack);
    RowCovered(n, off, succ, visited[..], stack, u, row);
  }

  /** Once the whole row is closed, nothing is owed for `u`. */
  lemma RowCovered(n: nat, off: seq<nat>, succ: seq<nat>, vis: seq<bool>, stack: seq<Entry>, u: nat, row: seq<nat>)
    requires ValidRows(n, off, succ) && u < n && |vis| == n && row == succ[off[u]..off[u + 1]]
    requires Covered(RowEdges(n, off, succ), n, vis, stack, u, Below(n) - Members(row))
    ensures Covered(RowEdges(n, off, succ), n, vis, stack, u, {})
  {
    forall v: nat, w: nat | (v, w) in RowEdges(n, off, succ) && vis[v]
      ensures vis[w] || Entry(w, false) in stack
    {
      if v == u {
        assert InRow(n, off, succ, u, w);
        var j :| off[u] <= j < off[u + 1] && succ[j] == w;
        assert row[j - off[u]] == w;
      }
    }
  }

  /** Mark `u` visited, leave it on the stack to be finished, and push its successors. */
  method VisitNode(n: nat, off: seq<nat>, succ: seq<nat>, ghost root: nat,
                   visited: array<bool>, rest: seq<Entry>, u: nat, ghost post: seq<nat>)
    returns (stack: seq<Entry>)
    requires ValidRows(n, off, succ) && visited.Length == n && u < n && !visited[u]
    requires Search(RowEdges(n, off, succ), n, root, visited[..], rest + [Entry(u, false)], post)
    requires Covered(RowEdges(n, off, succ), n, visited[..], rest + [Entry(u, false)], 0, {})
    modifies visited
    ensures Search(RowEdges(n, off, succ), n, root, visited[..], stack, post)
    ensures Covered(RowEdges(n, off, succ), n, visited[..], stack, 0, {})
    ensures visited[..] == old(visited[..])[u := true]
    ensures forall e :: e in rest ==> e in stack
  {
    ghost var E := RowEdges(n, off, succ);
    ghost var vis := visited[..];
    Visit(E, n, root, vis, rest, u, post);
    CoveredVisit(E, n, vis, rest, u);
    Popped(E, root, rest, Entry(u, true));
    visited[u] := true;
    assert visited[..] == vis[u := true];
    var base := rest + [Entry(u, true)];
    assert forall e :: e in rest ==> e in base;
    stack := PushSuccessors(n, off, succ, root, u, visited, base, post);
  }

  /** Pop one entry: finish it, skip it, or visit it and push its successors. */
  method SearchStep(n: nat, off: seq<nat>, succ: seq<nat>, ghost root: nat,
                    visited: array<bool>, stack0: seq<Entry>, post0: seq<nat>)
    returns (stack: seq<Entry>, post: seq<nat>)
    requires ValidRows(n, off, succ) && visited.Length == n && stack0 != []
    requires Search(RowEdges(n, off, succ), n, root, visited[..], stack0, post0)
    requires Covered(RowEdges(n, off, succ), n, visited[..], stack0, 0, {})
    modifies visited
    ensures Search(RowEdges(n, off, succ), n, root, visited[..], stack, post)
    ensures Covered(RowEdges(n, off, succ), n, visited[..], stack, 0, {})
    ensures forall v :: 0 <= v < n && old(visited[v]) ==> visited[v]
    ensures forall e :: e in stack0 && e.node < n && !visited[e.node] ==> e in stack
    ensures || |Unvisited(visited[..])| < old(|Unvisited(visited[..])|)
            || (visited[..] == old(visited[..]) && |stack| < |stack0|)
  {
    ghost var E := RowEdges(n, off, succ);
    ghost var vis := visited[..];
    var rest, top := stack0[..|stack0| - 1], stack0[|stack0| - 1];
    assert stack0 == rest + [top];
    assert forall e :: e in stack0 <==> e in rest || e == top;
    var u := top.node;
    stack, post := rest, post0;
    if top.processed {
      Popped(E, root, rest, top);
      assert u in Grays(rest) + [u];
      Finish(E, n, root, vis, rest, u, post);
      CoveredPop(E, n, vis, rest, top);
      post := post + [u];
    } else if visited[u] {
      Discard(E, n, root, vis, rest, u, post);
      CoveredPop(E, n, vis, rest, top);
    } else {
      VisitShrinks(vis, u);
      stack := VisitNode(n, off, succ, root, visited, rest, u, post);
    }
  }

  /** Depth-first postorder of the nodes reachable from `root`. */
  method PostOrder(n: nat, off: seq<nat>, succ: seq<nat>, root: nat) returns (post: seq<nat>)
    requires ValidRows(n, off, succ) && root < n
    ensures Distinct(post)
    ensures forall v: nat :: v in post <==> Reach(RowEdges(n, off, succ), root, v)
    ensures DominatorsFinishLater(RowEdges(n, off, succ), root, post)
  {
    ghost var E := RowEdges(n, off, succ);
    var visited := new bool[n](_ => false);
    post := [];
    var stack := [Entry(root, false)];
    assert [] + [Entry(root, false)] == stack;
    Popped(E, root, [], Entry(root, false));
    while stack != []
      invariant Search(E, n, root, visited[..], stack, post)
      invariant Covered(E, n, visited[..], stack, 0, {})
      invariant visited[root] || Entry(root, false) in stack
      decreases |Unvisited(visited[..])|, |stack|
    {
      stack, post := SearchStep(n, off, succ, root, visited, stack, post);
    }
    forall v: nat | Reach(E, root, v)
      ensures v in post
    {
      ReachInvariant(E, (set w | w in Below(n) && visited[w]), root, v);
    }
  }

  /** Number the nodes in reverse postorder, `undef` for the unreachable ones. */
  method ReversePostOrder(n: nat, off: seq<nat>, succ: seq<nat>, root: nat, undef: nat) returns (rpo: seq<nat>)
    requires ValidRows(n, off, succ) && root < n <= undef
    ensures OrdersDominators(RowEdges(n, off, succ), n, root, rpo, undef)
  {
    ghost var E := RowEdges(n, off, succ);
    var post := PostOrder(n, off, succ, root);
    forall i | 0 <= i < |post|
      ensures post[i] < n
    {
      assert post[i] in post;
      ReachBounded(E, n, root, post[i]);
    }
    DistinctBelow(post, n);
    var order := seq(|post|, i requires 0 <= i < |post| => post[|post| - 1 - i]);
    var a := new nat[n](_ => undef);
    var i := 0;
    while i < |order|
      invariant 0 <= i <= |order|
      invariant forall j :: 0 <= j < i ==> a[order[j]] == j
      invariant forall v :: 0 <= v < n ==> a[v] == undef || (a[v] < i && order[a[v]] == v)
    {
      a[order[i]] := i;
      i := i + 1;
    }
    rpo := a[..];
    NumberedInReverse(E, n, root, undef, post, order, rpo);
  }

  lemma NumberedInReverse(E: Edges, n: nat, root: nat, undef: nat, post: seq<nat>, order: seq<nat>, rpo: seq<nat>)
    requires n <= undef && |rpo| == n && Bounded(E, n) && root < n && |post| <= n
    requires |order| == |post| && forall i :: 0 <= i < |post| ==> order[i] == post[|post| - 1 - i]
    requires forall i :: 0 <= i < |order| ==> order[i] < n && rpo[order[i]] == i
    requires forall v :: 0 <= v < n ==> rpo[v] == undef || (rpo[v] < |order| && order[rpo[v]] == v)
    requires forall v: nat :: v in post <==> Reach(E, root, v)
    requires DominatorsFinishLater(E, root, post)
    ensures OrdersDominators(E, n, root, rpo, undef)
  {
    forall v: nat | v < n
      ensures rpo[v] != undef <==> Reach(E, root, v)
    {
      if Reach(E, root, v) {
        var k :| 0 <= k < |post| && post[k] == v;
        assert order[|post| - 1 - k] == v;
      } else {
        assert v !in post;
        assert forall i :: 0 <= i < |order| ==> order[i] in post;
      }
    }
    forall d: nat, v: nat | d < n && v < n && rpo[v] != undef && StrictlyDominates(E, root, d, v)
      ensures rpo[d] < rpo[v]
    {
      DominatorReachable(E, root, d, v);
      var i, j := |post| - 1 - rpo[d], |post| - 1 - rpo[v];
      assert post[i] == d && post[j] == v;
    }
  }
}
