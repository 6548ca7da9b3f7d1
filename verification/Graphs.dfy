/** Finite digraphs over natural numbers: paths, reachability, distance.
    Every traversal and kernel in this project is specified against these definitions. */
module Graphs {
  type Edges = set<(nat, nat)>

  /** A path is a nonempty node sequence whose neighbours are joined by edges. */
  ghost predicate IsPath(E: Edges, p: seq<nat>) {
    && |p| >= 1
    && forall i :: 0 <= i < |p| - 1 ==> (p[i], p[i + 1]) in E
  }

  ghost predicate PathFromTo(E: Edges, p: seq<nat>, u: nat, v: nat) {
    IsPath(E, p) && p[0] == u && p[|p| - 1] == v
  }

  /** `v` can be reached from `u` by zero or more edges. */
  ghost predicate Reach(E: Edges, u: nat, v: nat) {
    exists p :: PathFromTo(E, p, u, v)
  }

  /** `v` can be reached from `u` by at most `k` edges. */
  ghost predicate Within(E: Edges, u: nat, v: nat, k: nat) {
    exists p :: PathFromTo(E, p, u, v) && |p| <= k + 1
  }

  /** The shortest path from `u` to `v` has exactly `k` edges. */
  ghost predicate Distance(E: Edges, u: nat, v: nat, k: nat) {
    Within(E, u, v, k) && (k == 0 || !Within(E, u, v, k - 1))
  }

  /** Every edge joins nodes below `n`. */
  ghost predicate Bounded(E: Edges, n: nat) {
    forall e :: e in E ==> e.0 < n && e.1 < n
  }

  ghost function Reversed(E: Edges): Edges {
    set e | e in E :: (e.1, e.0)
  }

  ghost predicate Distinct<T>(s: seq<T>) {
    forall i, j :: 0 <= i < j < |s| ==> s[i] != s[j]
  }

  // ---------------------------------------------------------------- paths

  lemma PathRefl(E: Edges, u: nat)
    ensures PathFromTo(E, [u], u, u) && Reach(E, u, u) && Within(E, u, u, 0)
  {
    assert PathFromTo(E, [u], u, u);
  }

  lemma PathSnoc(E: Edges, p: seq<nat>, u: nat, v: nat, w: nat)
    requires PathFromTo(E, p, u, v) && (v, w) in E
    ensures PathFromTo(E, p + [w], u, w)
  {
    var q := p + [w];
    forall i | 0 <= i < |q| - 1
      ensures (q[i], q[i + 1]) in E
    {
      if i < |p| - 1 {
        assert q[i] == p[i] && q[i + 1] == p[i + 1];
      }
    }
  }

  lemma PathPrefix(E: Edges, p: seq<nat>, i: nat)
    requires IsPath(E, p) && i < |p|
    ensures PathFromTo(E, p[..i + 1], p[0], p[i])
  {
    var q := p[..i + 1];
    forall j | 0 <= j < |q| - 1
      ensures (q[j], q[j + 1]) in E
    {
      assert q[j] == p[j] && q[j + 1] == p[j + 1];
    }
  }

  lemma PathSuffix(E: Edges, p: seq<nat>, i: nat)
    requires IsPath(E, p) && i < |p|
    ensures PathFromTo(E, p[i..], p[i], p[|p| - 1])
  {
    var q := p[i..];
    forall j | 0 <= j < |q| - 1
      ensures (q[j], q[j + 1]) in E
    {
      assert q[j] == p[i + j] && q[j + 1] == p[i + j + 1];
    }
  }

  lemma PathJoin(E: Edges, p: seq<nat>, q: seq<nat>, u: nat, v: nat, w: nat)
    requires PathFromTo(E, p, u, v) && PathFromTo(E, q, v, w)
    ensures PathFromTo(E, p + q[1..], u, w)
  {
    var r := p + q[1..];
    forall i | 0 <= i < |r| - 1
      ensures (r[i], r[i + 1]) in E
    {
      if i < |p| - 1 {
        assert r[i] == p[i] && r[i + 1] == p[i + 1];
      } else {
        var j := i - (|p| - 1);
        assert r[i] == q[j] && r[i + 1] == q[j + 1];
      }
    }
  }

  lemma PathBounded(E: Edges, n: nat, p: seq<nat>)
    requires Bounded(E, n) && IsPath(E, p) && p[0] < n
    ensures forall i :: 0 <= i < |p| ==> p[i] < n
  {
    forall i | 0 <= i < |p|
      ensures p[i] < n
    {
      if i > 0 {
        assert (p[i - 1], p[i - 1 + 1]) in E;
      }
    }
  }

  // ---------------------------------------------------------------- reachability

  lemma ReachTrans(E: Edges, u: nat, v: nat, w: nat)
    requires Reach(E, u, v) && Reach(E, v, w)
    ensures Reach(E, u, w)
  {
    var p :| PathFromTo(E, p, u, v);
    var q :| PathFromTo(E, q, v, w);
    PathJoin(E, p, q, u, v, w);
  }

  lemma ReachEdge(E: Edges, u: nat, v: nat)
    requires (u, v) in E
    ensures Reach(E, u, v)
  {
    PathRefl(E, u);
    PathSnoc(E, [u], u, u, v);
  }

  lemma ReachMonotone(E: Edges, F: Edges, u: nat, v: nat)
    requires E <= F && Reach(E, u, v)
    ensures Reach(F, u, v)
  {
    var p :| PathFromTo(E, p, u, v);
    assert PathFromTo(F, p, u, v);
  }

  lemma ReachBounded(E: Edges, n: nat, u: nat, v: nat)
    requires Bounded(E, n) && Reach(E, u, v)
    ensures u < n ==> v < n
    ensures v < n ==> u < n
  {
    var p :| PathFromTo(E, p, u, v);
    if u < n {
      PathBounded(E, n, p);
    }
    if |p| >= 2 {
      assert (p[0], p[0 + 1]) in E;
    }
  }

  /** A set that holds `u` and is closed under edges holds everything `u` reaches. */
  lemma ReachInvariant(E: Edges, S: set<nat>, u: nat, v: nat)
    requires u in S && Reach(E, u, v)
    requires forall e :: e in E && e.0 in S ==> e.1 in S
    ensures v in S
  {
    var p :| PathFromTo(E, p, u, v);
    PathInvariant(E, S, p);
  }

  lemma {:induction false} PathInvariant(E: Edges, S: set<nat>, p: seq<nat>)
    requires IsPath(E, p) && p[0] in S
    requires forall e :: e in E && e.0 in S ==> e.1 in S
    ensures p[|p| - 1] in S
  {
    if |p| > 1 {
      PathPrefix(E, p, |p| - 2);
      PathInvariant(E, S, p[..|p| - 1]);
      assert (p[|p| - 2], p[|p| - 2 + 1]) in E;
    }
  }

  // ---------------------------------------------------------------- distance

  lemma WithinMonotone(E: Edges, u: nat, v: nat, j: nat, k: nat)
    requires j <= k && Within(E, u, v, j)
    ensures Within(E, u, v, k) && Reach(E, u, v)
  {
    var p :| PathFromTo(E, p, u, v) && |p| <= j + 1;
    assert |p| <= k + 1;
  }

  lemma WithinStep(E: Edges, u: nat, v: nat, w: nat, k: nat)
    requires Within(E, u, v, k) && (v, w) in E
    ensures Within(E, u, w, k + 1)
  {
    var p :| PathFromTo(E, p, u, v) && |p| <= k + 1;
    PathSnoc(E, p, u, v, w);
    assert |p + [w]| <= k + 2;
  }

  /** The last edge of a nonempty path: its source is one step nearer. */
  lemma WithinLast(E: Edges, u: nat, w: nat, k: nat) returns (v: nat)
    requires Within(E, u, w, k + 1) && u != w
    ensures Within(E, u, v, k) && (v, w) in E
  {
    var p :| PathFromTo(E, p, u, w) && |p| <= k + 2;
    v := p[|p| - 2];
    PathPrefix(E, p, |p| - 2);
    assert |p[..|p| - 1]| <= k + 1;
    assert (p[|p| - 2], p[|p| - 2 + 1]) in E;
  }

  /** The first edge of a nonempty path: its target is one step nearer to the end. */
  lemma WithinFirst(E: Edges, u: nat, w: nat, k: nat) returns (v: nat)
    requires Within(E, u, w, k + 1) && u != w
    ensures (u, v) in E && Within(E, v, w, k)
  {
    var p :| PathFromTo(E, p, u, w) && |p| <= k + 2;
    v := p[1];
    assert (p[0], p[0 + 1]) in E;
    PathSuffix(E, p, 1);
    assert |p[1..]| <= k + 1;
  }

  /** Unfolding `Within` by its last edge, in both directions. */
  lemma WithinUnfold(E: Edges, u: nat, w: nat, k: nat)
    ensures Within(E, u, w, 0) <==> u == w
    ensures Within(E, u, w, k + 1) <==>
            Within(E, u, w, k) || exists v: nat :: Within(E, u, v, k) && (v, w) in E
  {
    if u == w {
      PathRefl(E, u);
      WithinMonotone(E, u, w, 0, k);
    }
    if Within(E, u, w, k + 1) && u != w {
      var v := WithinLast(E, u, w, k);
    }
    if Within(E, u, w, k) {
      WithinMonotone(E, u, w, k, k + 1);
    }
    if v: nat :| Within(E, u, v, k) && (v, w) in E {
      WithinStep(E, u, v, w, k);
    }
  }

  /** Distances exist for reachable nodes and are unique. */
  lemma DistanceExists(E: Edges, u: nat, v: nat) returns (d: nat)
    requires Reach(E, u, v)
    ensures Distance(E, u, v, d)
  {
    var p :| PathFromTo(E, p, u, v);
    d := |p| - 1;
    assert |p| <= d + 1;
    while d > 0 && Within(E, u, v, d - 1)
      invariant Within(E, u, v, d)
    {
      d := d - 1;
    }
  }

  /** The length of a shortest path from `u` to `v`. */
  ghost function Dist(E: Edges, u: nat, v: nat): (d: nat)
    requires Reach(E, u, v)
    ensures Distance(E, u, v, d)
  {
    assert exists d: nat :: Distance(E, u, v, d) by {
      var d := DistanceExists(E, u, v);
    }
    var d: nat :| Distance(E, u, v, d);
    d
  }

  lemma DistanceWithin(E: Edges, u: nat, v: nat, d: nat, k: nat)
    requires Distance(E, u, v, d)
    ensures Within(E, u, v, k) <==> d <= k
  {
    if d <= k {
      WithinMonotone(E, u, v, d, k);
    } else {
      var e: nat := d - 1;
      if Within(E, u, v, k) {
        WithinMonotone(E, u, v, k, e);
      }
    }
  }

  // ---------------------------------------------------------------- short paths

  lemma SplitLast<T>(s: seq<T>)
    requires s != []
    ensures s == s[..|s| - 1] + [s[|s| - 1]]
  {
  }

  lemma DistinctSnoc<T>(s: seq<T>, x: T)
    ensures Distinct(s + [x]) <==> Distinct(s) && x !in s
  {
    var t := s + [x];
    if Distinct(t) {
      assert forall i :: 0 <= i < |s| ==> t[i] == s[i];
      assert t[|s|] == x;
    }
    if Distinct(s) && x !in s {
      assert forall i :: 0 <= i < |s| ==> s[i] in s;
    }
  }

  lemma {:induction false} DistinctBelow(s: seq<nat>, n: nat)
    requires Distinct(s) && forall i :: 0 <= i < |s| ==> s[i] < n
    ensures |s| <= n
  {
    DistinctCard(s);
    assert Members(s) <= Below(n);
    SubsetCard(Members(s), Below(n));
  }

  /** The nodes `0..n`. */
  function Below(n: nat): (s: set<nat>)
    ensures forall i: nat :: i in s <==> i < n
    ensures |s| == n
  {
    if n == 0 then {} else Below(n - 1) + {n - 1}
  }

  /** The elements of a sequence. */
  ghost function Members<T>(s: seq<T>): set<T> {
    set x | x in s
  }

  lemma MembersPush<T>(s: seq<T>, x: T)
    ensures Members(s + [x]) == Members(s) + {x}
  {
  }

  lemma {:induction false} DistinctCard<T>(s: seq<T>)
    ensures |Members(s)| <= |s|
    ensures Distinct(s) ==> |Members(s)| == |s|
  {
    if |s| > 0 {
      var t := s[..|s| - 1];
      DistinctCard(t);
      SplitLast(s);
      assert Members(s) == Members(t) + {s[|s| - 1]};
    }
  }

  lemma {:induction false} SubsetCard<T>(a: set<T>, b: set<T>)
    requires a <= b
    ensures |a| <= |b|
    ensures |a| == |b| ==> a == b
  {
    assert b == a + (b - a);
    assert |b| == |a| + |b - a|;
  }

  /** Loops can be cut out: a path has a simple sub-path, through no new nodes,
      with at most `n` nodes. */
  lemma {:induction false} SimplePath(E: Edges, n: nat, p: seq<nat>) returns (q: seq<nat>)
    requires IsPath(E, p) && forall i :: 0 <= i < |p| ==> p[i] < n
    ensures PathFromTo(E, q, p[0], p[|p| - 1]) && |q| <= n
    ensures forall x :: x in q ==> x in p
    decreases |p|
  {
    if Distinct(p) {
      DistinctBelow(p, n);
      q := p;
    } else {
      var i, j :| 0 <= i < j < |p| && p[i] == p[j];
      PathPrefix(E, p, i);
      PathSuffix(E, p, j);
      PathJoin(E, p[..i + 1], p[j..], p[0], p[i], p[|p| - 1]);
      var r := p[..i + 1] + p[j..][1..];
      assert p[j..][1..] == p[j + 1..];
      assert forall x :: x in r ==> x in p;
      q := SimplePath(E, n, r);
    }
  }

  lemma ReachWithin(E: Edges, n: nat, u: nat, v: nat)
    requires Bounded(E, n) && u < n && Reach(E, u, v)
    ensures Within(E, u, v, n - 1)
  {
    var p :| PathFromTo(E, p, u, v);
    PathBounded(E, n, p);
    var q := SimplePath(E, n, p);
  }

  // ---------------------------------------------------------------- reversal

  lemma {:induction false} ReversePath(E: Edges, p: seq<nat>) returns (q: seq<nat>)
    requires IsPath(E, p)
    ensures PathFromTo(Reversed(E), q, p[|p| - 1], p[0]) && |q| == |p|
    ensures forall x :: x in q <==> x in p
  {
    if |p| == 1 {
      q := p;
    } else {
      PathSuffix(E, p, 1);
      var r := ReversePath(E, p[1..]);
      assert (p[0], p[0 + 1]) in E;
      assert (p[1], p[0]) in Reversed(E);
      PathSnoc(Reversed(E), r, p[|p| - 1], p[1], p[0]);
      q := r + [p[0]];
      assert p == [p[0]] + p[1..];
    }
  }

  lemma ReversedTwice(E: Edges)
    ensures Reversed(Reversed(E)) == E
  {
    forall e | e in E
      ensures e in Reversed(Reversed(E))
    {
      assert (e.1, e.0) in Reversed(E);
    }
  }

  lemma ReachReversed(E: Edges, u: nat, v: nat)
    ensures Reach(E, u, v) <==> Reach(Reversed(E), v, u)
  {
    if p :| PathFromTo(E, p, u, v) {
      var q := ReversePath(E, p);
    }
    if p :| PathFromTo(Reversed(E), p, v, u) {
      var q := ReversePath(Reversed(E), p);
      ReversedTwice(E);
    }
  }
}
