/** Strongly connected components by colouring, with racing kernel threads.

    An edge thread reads, decides and writes in separate steps, and any thread may run
    between two steps of another, so a thread may act on a stale colour. */
module GpuScc {
  import opened Graphs
  import opened Components

  datatype Input = Input(n: nat, src: seq<nat>, dst: seq<nat>) {
    ghost predicate Valid() {
      && |src| == |dst|
      && forall e :: 0 <= e < |src| ==> src[e] < n && dst[e] < n
    }

    ghost function E(): (E: Edges)
      requires Valid()
      ensures Bounded(E, n)
    {
      set e | e in Below(|src|) :: (src[e], dst[e])
    }
  }

  ghost function ActiveSet(active: seq<bool>): (A: set<nat>)
    ensures forall v: nat :: v in A <==> v < |active| && active[v]
  {
    set v | v in Below(|active|) && active[v]
  }

  /** The edge is in the active subgraph. */
  predicate EdgeActive(g: Input, active: seq<bool>, e: nat)
    requires g.Valid() && |active| == g.n && e < |g.src|
  {
    active[g.src[e]] && active[g.dst[e]]
  }

  lemma ActiveEdge(g: Input, active: seq<bool>, e: nat)
    requires g.Valid() && |active| == g.n && e < |g.src|
    ensures EdgeActive(g, active, e) <==> (g.src[e], g.dst[e]) in Sub(g.E(), ActiveSet(active))
  {
    var edge := (g.src[e], g.dst[e]);
    assert edge in g.E();
  }

  // ---------------------------------------------------------------- forward colours

  /** Every colour is an active node that reaches its holder through active nodes. */
  ghost predicate Coloured(g: Input, active: seq<bool>, color: seq<nat>)
    requires g.Valid()
  {
    && |active| == g.n == |color|
    && (forall v :: 0 <= v < g.n ==> color[v] < g.n)
    && forall v: nat {:trigger color[v]} :: v < g.n && active[v] ==> v <= color[v] && Carries(g, active, color[v], v)
  }

  /** `c` is an active node that reaches `v` in the active subgraph. */
  ghost predicate Carries(g: Input, active: seq<bool>, c: nat, v: nat)
    requires g.Valid()
  {
    c < g.n == |active| && active[c] && Reach(Sub(g.E(), ActiveSet(active)), c, v)
  }

  ghost predicate ForwardClosed(g: Input, active: seq<bool>, color: seq<nat>)
    requires g.Valid() && |active| == g.n == |color|
  {
    forall e: nat {:trigger Calm(g, active, color, e)} :: e < |g.src| ==> Calm(g, active, color, e)
  }

  ghost predicate Raised(before: seq<nat>, after: seq<nat>) {
    |before| == |after| && forall v :: 0 <= v < |before| ==> before[v] <= after[v]
  }

  /** The threads of one `fwd_max` launch: not started, holding a colour read from their
      source, or about to store it. */
  datatype Forward = Forward(start: set<nat>, loaded: map<nat, nat>, storing: map<nat, nat>)

  ghost predicate ForwardPool(g: Input, active: seq<bool>, color0: seq<nat>, color: seq<nat>, t: Forward, changed: bool)
    requires g.Valid()
  {
    && Coloured(g, active, color) && Raised(color0, color)
    && t.start <= Below(|g.src|) && Holding(g, active, t.loaded) && Holding(g, active, t.storing)
    && if changed then color != color0 else color == color0 && Fresh(g, active, color, t)
  }

  /** Every held colour is an active node that reaches the source of its edge. */
  ghost predicate Holding(g: Input, active: seq<bool>, held: map<nat, nat>)
    requires g.Valid()
  {
    && |active| == g.n
    && forall e :: e in held ==>
         e < |g.src| && EdgeActive(g, active, e) && Carries(g, active, held[e], g.src[e])
  }

  /** Before the first store nothing read is stale, and finished threads saw nothing to do. */
  ghost predicate Fresh(g: Input, active: seq<bool>, color: seq<nat>, t: Forward)
    requires g.Valid() && |active| == g.n == |color|
    requires Holding(g, active, t.loaded) && Holding(g, active, t.storing)
  {
    && (forall e {:trigger t.loaded[e]} :: e in t.loaded ==> t.loaded[e] == color[g.src[e]])
    && (forall e {:trigger t.storing[e]} :: e in t.storing ==> t.storing[e] > color[g.dst[e]])
    && Rested(g, active, color, t)
  }

  /** Finished threads left nothing to hand on. */
  ghost predicate Rested(g: Input, active: seq<bool>, color: seq<nat>, t: Forward)
    requires g.Valid() && |active| == g.n == |color|
  {
    forall e: nat {:trigger Calm(g, active, color, e)} ::
      e < |g.src| && e !in t.start && e !in t.loaded && e !in t.storing ==> Calm(g, active, color, e)
  }

  /** The edge has no colour left to hand on. */
  ghost predicate Calm(g: Input, active: seq<bool>, color: seq<nat>, e: nat)
    requires g.Valid() && |active| == g.n == |color| && e < |g.src|
  {
    EdgeActive(g, active, e) ==> color[g.src[e]] <= color[g.dst[e]]
  }

  lemma CarriesOver(g: Input, active: seq<bool>, c: nat, e: nat)
    requires g.Valid() && |active| == g.n && e < |g.src|
    requires EdgeActive(g, active, e) && Carries(g, active, c, g.src[e])
    ensures Carries(g, active, c, g.dst[e])
  {
    var S := Sub(g.E(), ActiveSet(active));
    ActiveEdge(g, active, e);
    ReachEdge(S, g.src[e], g.dst[e]);
    ReachTrans(S, c, g.src[e], g.dst[e]);
  }

  function Max(a: nat, b: nat): nat {
    if a > b then a else b
  }

  /** The steps a pool has left, as a termination measure. */
  ghost predicate Fewer(t: Forward, t0: Forward) {
    || t.start < t0.start
    || (t.start == t0.start && t.loaded.Keys < t0.loaded.Keys)
    || (t.start == t0.start && t.loaded.Keys == t0.loaded.Keys && t.storing.Keys < t0.storing.Keys)
  }

  /** Step 1: read the flags and the source's colour. */
  function Load(g: Input, active: seq<bool>, color: seq<nat>, t: Forward, e: nat): (r: Forward)
    requires g.Valid() && |active| == g.n == |color| && e < |g.src|
    ensures e in t.start ==> Fewer(r, t)
  {
    if EdgeActive(g, active, e) then t.(start := t.start - {e}, loaded := t.loaded[e := color[g.src[e]]])
    else t.(start := t.start - {e})
  }

  lemma HoldOne(g: Input, active: seq<bool>, held: map<nat, nat>, e: nat, c: nat)
    requires g.Valid() && Holding(g, active, held)
    requires e < |g.src| && EdgeActive(g, active, e) && Carries(g, active, c, g.src[e])
    ensures Holding(g, active, held[e := c])
  {
  }

  lemma LoadHolds(g: Input, active: seq<bool>, color: seq<nat>, t: Forward, e: nat)
    requires g.Valid() && Coloured(g, active, color) && e < |g.src|
    requires Holding(g, active, t.loaded)
    ensures Holding(g, active, Load(g, active, color, t, e).loaded)
  {
    if EdgeActive(g, active, e) {
      assert Carries(g, active, color[g.src[e]], g.src[e]);
      HoldOne(g, active, t.loaded, e, color[g.src[e]]);
    }
  }

  lemma LoadFresh(g: Input, active: seq<bool>, color: seq<nat>, t: Forward, e: nat)
    requires g.Valid() && |active| == g.n == |color| && e < |g.src|
    requires Holding(g, active, t.loaded) && Holding(g, active, t.storing) && Fresh(g, active, color, t)
    requires Holding(g, active, Load(g, active, color, t, e).loaded)
    ensures Fresh(g, active, color, Load(g, active, color, t, e))
  {
  }

  lemma LoadKeepsPool(g: Input, active: seq<bool>, color0: seq<nat>, color: seq<nat>, t: Forward, changed: bool, e: nat)
    requires g.Valid() && ForwardPool(g, active, color0, color, t, changed) && e in t.start
    ensures ForwardPool(g, active, color0, color, Load(g, active, color, t, e), changed)
  {
    LoadHolds(g, active, color, t, e);
    if !changed {
      LoadFresh(g, active, color, t, e);
    }
  }

  /** Step 2: compare the colour read earlier with the target's colour now. */
  function Decide(g: Input, color: seq<nat>, t: Forward, e: nat): (r: Forward)
    requires g.Valid() && |color| == g.n && e in t.loaded && e < |g.src|
    ensures Fewer(r, t)
  {
    if t.loaded[e] > color[g.dst[e]] then t.(loaded := t.loaded - {e}, storing := t.storing[e := t.loaded[e]])
    else t.(loaded := t.loaded - {e})
  }

  lemma DecideHolds(g: Input, active: seq<bool>, color: seq<nat>, t: Forward, e: nat)
    requires g.Valid() && |color| == g.n && e in t.loaded && e < |g.src|
    requires Holding(g, active, t.loaded) && Holding(g, active, t.storing)
    ensures Holding(g, active, Decide(g, color, t, e).loaded) && Holding(g, active, Decide(g, color, t, e).storing)
  {
    HoldOne(g, active, t.storing, e, t.loaded[e]);
  }

  lemma DecideFresh(g: Input, active: seq<bool>, color: seq<nat>, t: Forward, e: nat)
    requires g.Valid() && |active| == g.n == |color| && e in t.loaded && e < |g.src|
    requires Holding(g, active, t.loaded) && Holding(g, active, t.storing) && Fresh(g, active, color, t)
    requires Holding(g, active, Decide(g, color, t, e).loaded) && Holding(g, active, Decide(g, color, t, e).storing)
    ensures Fresh(g, active, color, Decide(g, color, t, e))
  {
    assert t.loaded[e] == color[g.src[e]];
    DecideRests(g, active, color, t, e);
  }

  lemma DecideRests(g: Input, active: seq<bool>, color: seq<nat>, t: Forward, e: nat)
    requires g.Valid() && |active| == g.n == |color| && e in t.loaded && e < |g.src|
    requires t.loaded[e] == color[g.src[e]] && Rested(g, active, color, t)
    ensures Rested(g, active, color, Decide(g, color, t, e))
  {
    var d := Decide(g, color, t, e);
    forall f: nat | f < |g.src| && f !in d.start && f !in d.loaded && f !in d.storing
      ensures Calm(g, active, color, f)
    {
      assert f == e || f !in t.loaded;
    }
  }

  lemma DecideKeepsPool(g: Input, active: seq<bool>, color0: seq<nat>, color: seq<nat>, t: Forward, changed: bool,
      e: nat)
    requires g.Valid() && ForwardPool(g, active, color0, color, t, changed) && e in t.loaded
    ensures ForwardPool(g, active, color0, color, Decide(g, color, t, e), changed)
  {
    DecideHolds(g, active, color, t, e);
    if !changed {
      DecideFresh(g, active, color, t, e);
    }
  }

  /** Step 3: the atomic maximum, and the changed flag. */
  lemma StoreKeepsPool(g: Input, active: seq<bool>, color0: seq<nat>, color: seq<nat>, t: Forward, changed: bool,
      e: nat)
    requires g.Valid() && ForwardPool(g, active, color0, color, t, changed) && e in t.storing
    ensures ForwardPool(g, active, color0, color[g.dst[e] := Max(color[g.dst[e]], t.storing[e])],
                        t.(storing := t.storing - {e}), true)
  {
    CarriesOver(g, active, t.storing[e], e);
    var v, c := g.dst[e], t.storing[e];
    var color' := color[v := Max(color[v], c)];
    RaiseOne(g, active, color, v, c);
    assert Raised(color0, color');
    if changed {
      var w :| 0 <= w < g.n && color[w] != color0[w];
      assert color'[w] > color0[w];
    } else {
      assert color'[v] > color0[v];
    }
    assert Holding(g, active, t.storing - {e});
  }

  lemma RaiseOne(g: Input, active: seq<bool>, color: seq<nat>, v: nat, c: nat)
    requires g.Valid() && Coloured(g, active, color) && v < g.n && Carries(g, active, c, v)
    ensures Coloured(g, active, color[v := Max(color[v], c)])
  {
  }

  /** The threads with a step left. */
  function Unfinished(t: Forward): set<nat> {
    t.start + t.loaded.Keys + t.storing.Keys
  }

  predicate Live(t: Forward) {
    Unfinished(t) != {}
  }

  /** One step of any unfinished edge thread. */
  method ForwardStep(g: Input, active: array<bool>, color: array<nat>, t0: Forward, changed0: bool,
      ghost color0: seq<nat>)
    returns (t: Forward, changed: bool)
    requires g.Valid() && ForwardPool(g, active[..], color0, color[..], t0, changed0)
    requires Live(t0)
    modifies color
    ensures ForwardPool(g, active[..], color0, color[..], t, changed)
    ensures Fewer(t, t0)
  {
    var e :| e in Unfinished(t0);
    changed := changed0;
    if e in t0.start {
      LoadKeepsPool(g, active[..], color0, color[..], t0, changed, e);
      t := Load(g, active[..], color[..], t0, e);
    } else if e in t0.loaded {
      DecideKeepsPool(g, active[..], color0, color[..], t0, changed, e);
      t := Decide(g, color[..], t0, e);
    } else {
      StoreKeepsPool(g, active[..], color0, color[..], t0, changed, e);
      ghost var was := color[..];
      color[g.dst[e]] := Max(color[g.dst[e]], t0.storing[e]);
      assert color[..] == was[g.dst[e] := Max(was[g.dst[e]], t0.storing[e])];
      t, changed := t0.(storing := t0.storing - {e}), true;
    }
  }

  /** One `fwd_max` launch, under any interleaving of its threads' steps. */
  method ForwardLaunch(g: Input, active: array<bool>, color: array<nat>) returns (changed: bool)
    requires g.Valid() && Coloured(g, active[..], color[..])
    modifies color
    ensures Coloured(g, active[..], color[..])
    ensures Raised(old(color[..]), color[..])
    ensures if changed then color[..] != old(color[..]) else ForwardClosed(g, active[..], color[..])
  {
    ghost var color0 := color[..];
    var t := Forward(Below(|g.src|), map[], map[]);
    changed := false;
    while Live(t)
      invariant ForwardPool(g, active[..], color0, color[..], t, changed)
      decreases t.start, t.loaded.Keys, t.storing.Keys
    {
      t, changed := ForwardStep(g, active, color, t, changed, color0);
    }
  }

  /** Colours still above those held: shrinks whenever a colour rises. */
  ghost function Headroom(n: nat, color: seq<nat>): set<(nat, nat)>
    requires |color| == n
  {
    set v, c | v in Below(n) && c in Below(n) && color[v] < c :: (v, c)
  }

  lemma HeadroomShrinks(n: nat, before: seq<nat>, after: seq<nat>)
    requires Raised(before, after) && |before| == n && after != before
    requires forall v :: 0 <= v < n ==> after[v] < n
    ensures Headroom(n, after) < Headroom(n, before)
  {
    var v :| 0 <= v < n && after[v] != before[v];
    assert (v, after[v]) in Headroom(n, before) && (v, after[v]) !in Headroom(n, after);
  }

  method ForwardFixpoint(g: Input, active: array<bool>, color: array<nat>)
    requires g.Valid() && Coloured(g, active[..], color[..])
    modifies color
    ensures Coloured(g, active[..], color[..]) && ForwardClosed(g, active[..], color[..])
  {
    var changed := true;
    while changed
      invariant Coloured(g, active[..], color[..])
      invariant !changed ==> ForwardClosed(g, active[..], color[..])
      decreases Headroom(g.n, color[..]), changed
    {
      ghost var before := color[..];
      changed := ForwardLaunch(g, active, color);
      if changed {
        HeadroomShrinks(g.n, before, color[..]);
      } else {
        HeadroomKept(g.n, before, color[..]);
      }
    }
  }

  lemma HeadroomKept(n: nat, before: seq<nat>, after: seq<nat>)
    requires Raised(before, after) && |before| == n
    requires forall v :: 0 <= v < n ==> after[v] < n
    ensures Headroom(n, after) <= Headroom(n, before)
  {
  }

  // ---------------------------------------------------------------- what a colour fixpoint means

  /** Along active paths colours rise. */
  lemma {:induction false} ColoursRise(g: Input, active: seq<bool>, color: seq<nat>, p: seq<nat>)
    requires g.Valid() && Coloured(g, active, color) && ForwardClosed(g, active, color)
    requires IsPath(Sub(g.E(), ActiveSet(active)), p) && p[0] < g.n
    ensures p[|p| - 1] < g.n && color[p[0]] <= color[p[|p| - 1]]
    decreases |p|
  {
    var S := Sub(g.E(), ActiveSet(active));
    if |p| > 1 {
      PathPrefix(S, p, |p| - 2);
      ColoursRise(g, active, color, p[..|p| - 1]);
      EdgeColours(g, active, color, p[|p| - 2], p[|p| - 2 + 1]);
    }
  }

  lemma EdgeColours(g: Input, active: seq<bool>, color: seq<nat>, u: nat, v: nat)
    requires g.Valid() && |active| == g.n == |color| && ForwardClosed(g, active, color)
    requires (u, v) in Sub(g.E(), ActiveSet(active))
    ensures u < g.n && v < g.n && color[u] <= color[v]
  {
    var e :| e in Below(|g.src|) && (u, v) == (g.src[e], g.dst[e]);
    assert Calm(g, active, color, e);
  }

  /** At the fixpoint the colour of `v` is the largest active node that reaches it. */
  lemma ColourIsMax(g: Input, active: seq<bool>, color: seq<nat>, v: nat, w: nat)
    requires g.Valid() && Coloured(g, active, color) && ForwardClosed(g, active, color)
    requires v < g.n && active[v] && Carries(g, active, w, v)
    ensures w <= color[w] <= color[v] && Carries(g, active, color[v], v)
  {
    var p :| PathFromTo(Sub(g.E(), ActiveSet(active)), p, w, v);
    ColoursRise(g, active, color, p);
    assert w <= color[w];
  }

  /** A colour is its own root. */
  lemma ColourIsRoot(g: Input, active: seq<bool>, color: seq<nat>, v: nat)
    requires g.Valid() && Coloured(g, active, color) && ForwardClosed(g, active, color)
    requires v < g.n && active[v]
    ensures color[v] < g.n && active[color[v]] && color[color[v]] == color[v]
  {
    var c := color[v];
    assert Carries(g, active, c, v);
    ColourIsMax(g, active, color, v, c);
  }

  // ---------------------------------------------------------------- backward marks

  /** Every mark is an active node that reaches its colour. */
  ghost predicate Marked(g: Input, active: seq<bool>, color: seq<nat>, found: seq<bool>)
    requires g.Valid()
  {
    && |active| == g.n == |color| && |found| == g.n
    && forall v: nat {:trigger found[v]} :: v < g.n && active[v] && found[v] ==> Returns(g, active, v, color[v])
  }

  ghost predicate Returns(g: Input, active: seq<bool>, v: nat, c: nat)
    requires g.Valid() && |active| == g.n
  {
    Reach(Sub(g.E(), ActiveSet(active)), v, c)
  }

  /** The edge has no mark left to hand back. */
  ghost predicate Quiet(g: Input, active: seq<bool>, color: seq<nat>, found: seq<bool>, e: nat)
    requires g.Valid() && |active| == g.n == |color| && |found| == g.n && e < |g.src|
  {
    EdgeActive(g, active, e) && color[g.src[e]] == color[g.dst[e]] && found[g.dst[e]] ==> found[g.src[e]]
  }

  ghost predicate BackwardClosed(g: Input, active: seq<bool>, color: seq<nat>, found: seq<bool>)
    requires g.Valid() && |active| == g.n == |color| && |found| == g.n
  {
    forall e: nat {:trigger Quiet(g, active, color, found, e)} :: e < |g.src| ==> Quiet(g, active, color, found, e)
  }

  ghost predicate MoreFound(before: seq<bool>, after: seq<bool>) {
    |before| == |after| && forall v :: 0 <= v < |before| && before[v] ==> after[v]
  }

  /** The threads of one `bwd_found` launch: not started, having seen the target's mark, or
      about to mark the source. */
  datatype Backward = Backward(start: set<nat>, loaded: set<nat>, storing: set<nat>)

  /** Edges of the active subgraph inside one colour whose target is marked. */
  ghost predicate Ready(g: Input, active: seq<bool>, color: seq<nat>, found: seq<bool>, held: set<nat>)
    requires g.Valid() && |active| == g.n == |color| && |found| == g.n
  {
    forall e {:trigger e in held} :: e in held ==>
      e < |g.src| && EdgeActive(g, active, e) && color[g.src[e]] == color[g.dst[e]] && found[g.dst[e]]
  }

  ghost predicate BackwardPool(g: Input, active: seq<bool>, color: seq<nat>, found0: seq<bool>, found: seq<bool>,
      t: Backward, changed: bool)
    requires g.Valid()
  {
    && Marked(g, active, color, found) && MoreFound(found0, found)
    && t.start <= Below(|g.src|) && Ready(g, active, color, found, t.loaded)
        && Ready(g, active, color, found, t.storing)
    && if changed then found != found0 else found == found0 && Unmarked(g, active, color, found, t)
  }

  ghost predicate Unmarked(g: Input, active: seq<bool>, color: seq<nat>, found: seq<bool>, t: Backward)
    requires g.Valid() && |active| == g.n == |color| && |found| == g.n
    requires Ready(g, active, color, found, t.storing)
  {
    && (forall e {:trigger e in t.storing} :: e in t.storing ==> !found[g.src[e]])
    && Idle(g, active, color, found, t)
  }

  /** Finished threads left no mark to hand back. */
  ghost predicate Idle(g: Input, active: seq<bool>, color: seq<nat>, found: seq<bool>, t: Backward)
    requires g.Valid() && |active| == g.n == |color| && |found| == g.n
  {
    forall e: nat {:trigger Quiet(g, active, color, found, e)} ::
      e < |g.src| && e !in t.start && e !in t.loaded && e !in t.storing ==> Quiet(g, active, color, found, e)
  }

  ghost predicate FewerBack(t: Backward, t0: Backward) {
    || t.start < t0.start
    || (t.start == t0.start && t.loaded < t0.loaded)
    || (t.start == t0.start && t.loaded == t0.loaded && t.storing < t0.storing)
  }

  /** Step 1: check activity and colours, read the target's mark. */
  function LoadMark(g: Input, active: seq<bool>, color: seq<nat>, found: seq<bool>, t: Backward, e: nat): (r: Backward)
    requires g.Valid() && |active| == g.n == |color| && |found| == g.n && e < |g.src|
    ensures e in t.start ==> FewerBack(r, t)
  {
    if EdgeActive(g, active, e) && color[g.src[e]] == color[g.dst[e]] && found[g.dst[e]]
    then t.(start := t.start - {e}, loaded := t.loaded + {e})
    else t.(start := t.start - {e})
  }

  /** Step 2: read the source's mark. */
  function DecideMark(g: Input, found: seq<bool>, t: Backward, e: nat): (r: Backward)
    requires g.Valid() && |found| == g.n && e < |g.src|
    ensures e in t.loaded ==> FewerBack(r, t)
  {
    if found[g.src[e]] then t.(loaded := t.loaded - {e})
    else t.(loaded := t.loaded - {e}, storing := t.storing + {e})
  }

  lemma LoadMarkKeepsPool(g: Input, active: seq<bool>, color: seq<nat>, found0: seq<bool>, found: seq<bool>,
      t: Backward, changed: bool, e: nat)
    requires g.Valid() && BackwardPool(g, active, color, found0, found, t, changed) && e in t.start
    ensures BackwardPool(g, active, color, found0, found, LoadMark(g, active, color, found, t, e), changed)
  {
  }

  lemma DecideMarkKeepsPool(g: Input, active: seq<bool>, color: seq<nat>, found0: seq<bool>, found: seq<bool>,
      t: Backward, changed: bool, e: nat)
    requires g.Valid() && BackwardPool(g, active, color, found0, found, t, changed) && e in t.loaded
    ensures BackwardPool(g, active, color, found0, found, DecideMark(g, found, t, e), changed)
  {
    DecideReady(g, active, color, found, t, e);
    if !changed {
      DecideIdles(g, active, color, found, t, e);
    }
  }

  lemma DecideReady(g: Input, active: seq<bool>, color: seq<nat>, found: seq<bool>, t: Backward, e: nat)
    requires g.Valid() && |active| == g.n == |color| && |found| == g.n && e in t.loaded && e < |g.src|
    requires Ready(g, active, color, found, t.loaded) && Ready(g, active, color, found, t.storing)
    ensures Ready(g, active, color, found, DecideMark(g, found, t, e).loaded)
    ensures Ready(g, active, color, found, DecideMark(g, found, t, e).storing)
  {
  }

  lemma DecideIdles(g: Input, active: seq<bool>, color: seq<nat>, found: seq<bool>, t: Backward, e: nat)
    requires g.Valid() && |active| == g.n == |color| && |found| == g.n && e in t.loaded && e < |g.src|
    requires Idle(g, active, color, found, t)
    ensures Idle(g, active, color, found, DecideMark(g, found, t, e))
  {
    var d := DecideMark(g, found, t, e);
    forall f: nat | f < |g.src| && f !in d.start && f !in d.loaded && f !in d.storing
      ensures Quiet(g, active, color, found, f)
    {
      assert f == e || f !in t.loaded;
    }
  }

  lemma HandBack(g: Input, active: seq<bool>, color: seq<nat>, e: nat)
    requires g.Valid() && |active| == g.n == |color| && e < |g.src| && EdgeActive(g, active, e)
    requires Returns(g, active, g.dst[e], color[g.dst[e]]) && color[g.src[e]] == color[g.dst[e]]
    ensures Returns(g, active, g.src[e], color[g.src[e]])
  {
    var S := Sub(g.E(), ActiveSet(active));
    ActiveEdge(g, active, e);
    ReachEdge(S, g.src[e], g.dst[e]);
    ReachTrans(S, g.src[e], g.dst[e], color[g.dst[e]]);
  }

  /** Step 3: mark the source. */
  lemma StoreMarkKeepsPool(g: Input, active: seq<bool>, color: seq<nat>, found0: seq<bool>, found: seq<bool>,
      t: Backward, changed: bool, e: nat)
    requires g.Valid() && BackwardPool(g, active, color, found0, found, t, changed) && e in t.storing
    ensures BackwardPool(g, active, color, found0, found[g.src[e] := true], t.(storing := t.storing - {e}), true)
  {
    assert found[g.dst[e]];
    HandBack(g, active, color, e);
    var u := g.src[e];
    var found' := found[u := true];
    if changed {
      var w :| 0 <= w < g.n && found[w] != found0[w];
      assert found'[w] != found0[w];
    } else {
      assert found'[u] != found0[u];
    }
  }

  method BackwardStep(g: Input, active: array<bool>, color: array<nat>, found: array<bool>, t0: Backward,
      changed0: bool, ghost found0: seq<bool>)
    returns (t: Backward, changed: bool)
    requires g.Valid() && active != found && BackwardPool(g, active[..], color[..], found0, found[..], t0, changed0)
    requires t0.start + t0.loaded + t0.storing != {}
    modifies found
    ensures BackwardPool(g, active[..], color[..], found0, found[..], t, changed)
    ensures FewerBack(t, t0)
  {
    var e :| e in t0.start + t0.loaded + t0.storing;
    changed := changed0;
    if e in t0.start {
      LoadMarkKeepsPool(g, active[..], color[..], found0, found[..], t0, changed, e);
      t := LoadMark(g, active[..], color[..], found[..], t0, e);
    } else if e in t0.loaded {
      DecideMarkKeepsPool(g, active[..], color[..], found0, found[..], t0, changed, e);
      t := DecideMark(g, found[..], t0, e);
    } else {
      StoreMarkKeepsPool(g, active[..], color[..], found0, found[..], t0, changed, e);
      ghost var was := found[..];
      found[g.src[e]] := true;
      assert found[..] == was[g.src[e] := true];
      t, changed := t0.(storing := t0.storing - {e}), true;
    }
  }

  /** One `bwd_found` launch, under any interleaving of its threads' steps. */
  method BackwardLaunch(g: Input, active: array<bool>, color: array<nat>, found: array<bool>) returns (changed: bool)
    requires g.Valid() && active != found && Marked(g, active[..], color[..], found[..])
    modifies found
    ensures Marked(g, active[..], color[..], found[..]) && MoreFound(old(found[..]), found[..])
    ensures if changed then found[..] != old(found[..]) else BackwardClosed(g, active[..], color[..], found[..])
  {
    ghost var found0 := found[..];
    var t := Backward(Below(|g.src|), {}, {});
    changed := false;
    while t.start + t.loaded + t.storing != {}
      invariant BackwardPool(g, active[..], color[..], found0, found[..], t, changed)
      decreases t.start, t.loaded, t.storing
    {
      t, changed := BackwardStep(g, active, color, found, t, changed, found0);
    }
  }

  lemma UnfoundShrinks(before: seq<bool>, after: seq<bool>)
    requires MoreFound(before, after)
    ensures before != after ==> ActiveSet(before) < ActiveSet(after) <= Below(|before|)
    ensures ActiveSet(before) <= ActiveSet(after)
  {
    if before != after {
      var v :| 0 <= v < |before| && before[v] != after[v];
      assert v in ActiveSet(after) && v !in ActiveSet(before);
    }
  }

  method BackwardFixpoint(g: Input, active: array<bool>, color: array<nat>, found: array<bool>)
    requires g.Valid() && active != found && Marked(g, active[..], color[..], found[..])
    modifies found
    ensures Marked(g, active[..], color[..], found[..]) && MoreFound(old(found[..]), found[..])
    ensures BackwardClosed(g, active[..], color[..], found[..])
  {
    var changed := true;
    while changed
      invariant Marked(g, active[..], color[..], found[..]) && MoreFound(old(found[..]), found[..])
      invariant !changed ==> BackwardClosed(g, active[..], color[..], found[..])
      decreases Below(g.n) - ActiveSet(found[..]), changed
    {
      ghost var before := found[..];
      changed := BackwardLaunch(g, active, color, found);
      UnfoundShrinks(before, found[..]);
    }
  }

  // ---------------------------------------------------------------- what a round retires

  /** A path whose nodes share one colour carries the mark back from its end. */
  lemma {:induction false} MarkedBack(g: Input, active: seq<bool>, color: seq<nat>, found: seq<bool>, p: seq<nat>)
    requires g.Valid() && Coloured(g, active, color) && ForwardClosed(g, active, color)
    requires |found| == g.n && BackwardClosed(g, active, color, found)
    requires IsPath(Sub(g.E(), ActiveSet(active)), p) && p[0] < g.n && p[|p| - 1] < g.n
    requires found[p[|p| - 1]] && color[p[0]] == color[p[|p| - 1]]
    ensures found[p[0]]
    decreases |p|
  {
    var S := Sub(g.E(), ActiveSet(active));
    if |p| > 1 {
      var edge := (p[0], p[0 + 1]);
      assert edge in S;
      EdgeColours(g, active, color, p[0], p[1]);
      PathSuffix(S, p, 1);
      ColoursRise(g, active, color, p[1..]);
      MarkedBack(g, active, color, found, p[1..]);
      var e :| e in Below(|g.src|) && edge == (g.src[e], g.dst[e]);
      ActiveEdge(g, active, e);
      assert Quiet(g, active, color, found, e);
    }
  }

  /** The state at the end of a round's two fixpoints, roots marked. */
  ghost predicate RoundDone(g: Input, active: seq<bool>, color: seq<nat>, found: seq<bool>)
    requires g.Valid()
  {
    && Coloured(g, active, color) && ForwardClosed(g, active, color)
    && Marked(g, active, color, found) && BackwardClosed(g, active, color, found)
    && forall v :: 0 <= v < g.n && active[v] && color[v] == v ==> found[v]
  }

  /** A node is marked exactly when it is in its root's component. */
  lemma MarkedIsComponent(g: Input, active: seq<bool>, color: seq<nat>, found: seq<bool>, v: nat)
    requires g.Valid() && RoundDone(g, active, color, found) && v < g.n && active[v]
    ensures found[v] <==> SameComponent(Sub(g.E(), ActiveSet(active)), v, color[v])
  {
    var S := Sub(g.E(), ActiveSet(active));
    var c := color[v];
    assert Carries(g, active, c, v);
    ColourIsRoot(g, active, color, v);
    if Reach(S, v, c) {
      var p :| PathFromTo(S, p, v, c);
      MarkedBack(g, active, color, found, p);
    }
  }

  /** A marked node's colour is its final label, in the whole graph. */
  lemma MarkedIsLabelled(g: Input, active: seq<bool>, color: seq<nat>, found: seq<bool>, v: nat)
    requires g.Valid() && RoundDone(g, active, color, found) && Whole(g.E(), g.n, ActiveSet(active))
    requires v < g.n && active[v] && found[v]
    ensures IsLabel(g.E(), g.n, v, color[v])
  {
    var E, A := g.E(), ActiveSet(active);
    MarkedIsComponent(g, active, color, found, v);
    SubComponents(E, g.n, A, v, color[v]);
    forall w: nat | w < g.n && SameComponent(E, v, w)
      ensures w <= color[v]
    {
      SubComponents(E, g.n, A, v, w);
      assert w in A;
      ColourIsMax(g, active, color, v, w);
    }
  }

  /** What stays active is again a union of whole components. */
  lemma RemainderWhole(g: Input, active: seq<bool>, color: seq<nat>, found: seq<bool>, rest: seq<bool>)
    requires g.Valid() && RoundDone(g, active, color, found) && Whole(g.E(), g.n, ActiveSet(active))
    requires |rest| == g.n && forall v :: 0 <= v < g.n ==> rest[v] == (active[v] && !found[v])
    ensures Whole(g.E(), g.n, ActiveSet(rest))
  {
    var E, A := g.E(), ActiveSet(active);
    forall u: nat, v: nat | u < g.n && v < g.n && SameComponent(E, u, v) && u in ActiveSet(rest)
      ensures v in ActiveSet(rest)
    {
      assert u in A && v in A;
      SubComponents(E, g.n, A, u, v);
      if found[v] {
        MarkedTogether(g, active, color, found, u, v);
      }
    }
  }

  /** The nodes of one component share a colour and a mark. */
  lemma MarkedTogether(g: Input, active: seq<bool>, color: seq<nat>, found: seq<bool>, u: nat, v: nat)
    requires g.Valid() && RoundDone(g, active, color, found)
    requires u < g.n && v < g.n && active[u] && active[v] && found[v]
    requires SameComponent(Sub(g.E(), ActiveSet(active)), u, v)
    ensures found[u]
  {
    ColourNotLess(g, active, color, found, u, v);
    ColourNotLess(g, active, color, found, v, u);
    MarkedIsComponent(g, active, color, found, v);
    SameComponentEquivalence(Sub(g.E(), ActiveSet(active)), u, v, color[v]);
    MarkedIsComponent(g, active, color, found, u);
  }

  /** A node has at least the colour of the nodes that reach it. */
  lemma ColourNotLess(g: Input, active: seq<bool>, color: seq<nat>, found: seq<bool>, u: nat, v: nat)
    requires g.Valid() && RoundDone(g, active, color, found)
    requires u < g.n && v < g.n && active[u] && active[v] && Reach(Sub(g.E(), ActiveSet(active)), u, v)
    ensures color[u] <= color[v]
  {
    assert Carries(g, active, color[u], u);
    ReachTrans(Sub(g.E(), ActiveSet(active)), color[u], u, v);
    ColourIsMax(g, active, color, v, color[u]);
  }

  /** A round with active nodes retires at least one: the largest active node is a root. */
  lemma {:induction false} SomeRoot(g: Input, active: seq<bool>, color: seq<nat>, found: seq<bool>, k: nat)
    requires g.Valid() && RoundDone(g, active, color, found)
    requires k < g.n && active[k]
    ensures exists v: nat :: v < g.n && active[v] && found[v]
    decreases g.n - k
  {
    if color[k] == k {
      assert found[k];
    } else {
      assert Carries(g, active, color[k], k) && k < color[k];
      SomeRoot(g, active, color, found, color[k]);
    }
  }

  // ---------------------------------------------------------------- vertex kernels

  /** `init_round`: every active vertex takes its own colour and drops its mark, the others keep both. */
  method InitRound(g: Input, active: array<bool>, color: array<nat>, found: array<bool>)
    requires g.Valid() && active.Length == g.n == color.Length && found.Length == g.n && active != found
    requires forall v :: 0 <= v < g.n ==> color[v] < g.n
    modifies color, found
    ensures Coloured(g, active[..], color[..])
    ensures forall v: nat {:trigger found[v]} :: v < g.n ==> found[v] == (old(found[v]) && !active[v])
    ensures forall v: nat {:trigger color[v]} :: v < g.n ==> color[v] == if active[v] then v else old(color[v])
  {
    var pending := Below(g.n);
    while pending != {}
      invariant forall v :: 0 <= v < g.n ==> color[v] < g.n
      invariant forall v: nat {:trigger color[v]} ::
                  v < g.n ==> color[v] == if v !in pending && active[v] then v else old(color[v])
      invariant forall v: nat {:trigger found[v]} ::
                  v < g.n ==> found[v] == (old(found[v]) && (v in pending || !active[v]))
    {
      var v :| v in pending;
      if v < g.n && active[v] {
        color[v], found[v] := v, false;
      }
      pending := pending - {v};
    }
    forall v: nat | v < g.n && active[v]
      ensures color[v] == v && Carries(g, active[..], v, v)
    {
      PathRefl(Sub(g.E(), ActiveSet(active[..])), v);
    }
  }

  /** `mark_roots`: every active vertex whose colour is its own id is marked, and no other. */
  method MarkRoots(g: Input, active: array<bool>, color: array<nat>, found: array<bool>)
    requires g.Valid() && active != found && Marked(g, active[..], color[..], found[..])
    modifies found
    ensures Marked(g, active[..], color[..], found[..])
    ensures forall v: nat {:trigger found[v]} ::
              v < g.n ==> (found[v] <==> old(found[v]) || (active[v] && color[v] == v))
  {
    var pending := Below(g.n);
    while pending != {}
      invariant Marked(g, active[..], color[..], found[..])
      invariant forall v: nat {:trigger found[v]} ::
                  v < g.n ==> (found[v] <==> old(found[v]) || (v !in pending && active[v] && color[v] == v))
    {
      var v :| v in pending;
      if v < g.n && active[v] && color[v] == v {
        ghost var was := found[..];
        PathRefl(Sub(g.E(), ActiveSet(active[..])), v);
        assert Returns(g, active[..], v, v);
        found[v] := true;
        assert found[..] == was[v := true];
      }
      pending := pending - {v};
    }
  }

  /** Retired vertices hold the largest node of their component. */
  ghost predicate Labelled(g: Input, active: seq<bool>, labels: seq<nat>)
    requires g.Valid()
  {
    && |active| == g.n == |labels|
    && forall v: nat :: v < g.n && !active[v] ==> IsLabel(g.E(), g.n, v, labels[v])
  }

  /** The vertices outside `pending` that stay active. */
  ghost function Kept(n: nat, was: seq<bool>, found: seq<bool>, pending: set<nat>): set<nat>
    requires |was| == n == |found|
  {
    set v | v in Below(n) && v !in pending && was[v] && !found[v]
  }

  lemma KeptStep(n: nat, was: seq<bool>, found: seq<bool>, pending: set<nat>, v: nat)
    requires |was| == n == |found| && v in pending && v < n
    ensures |Kept(n, was, found, pending - {v})| ==
            |Kept(n, was, found, pending)| + if was[v] && !found[v] then 1 else 0
  {
    var before, after := Kept(n, was, found, pending), Kept(n, was, found, pending - {v});
    assert after == before + if was[v] && !found[v] then {v} else {};
  }

  /** The vertices outside `pending` are labelled and retired when marked; the others are untouched. */
  ghost predicate Finalized(n: nat, pending: set<nat>, was: seq<bool>, labels0: seq<nat>, color: seq<nat>,
                            found: seq<bool>, active: seq<bool>, labels: seq<nat>) {
    && |was| == |labels0| == |color| == |found| == |active| == |labels| == n
    && forall v: nat {:trigger active[v]} {:trigger labels[v]} :: v < n ==>
         && active[v] == (was[v] && (v in pending || !found[v]))
         && labels[v] == if v !in pending && was[v] && found[v] then color[v] else labels0[v]
  }

  /** One vertex of `finalize_round`; `kept` is one when it stays active. */
  method FinalizeOne(n: nat, active: array<bool>, color: array<nat>, found: array<bool>, labels: array<nat>, v: nat,
                     ghost pending: set<nat>, ghost was: seq<bool>, ghost labels0: seq<nat>) returns (kept: nat)
    requires active != found && color != labels && v in pending && v < n
    requires Finalized(n, pending, was, labels0, color[..], found[..], active[..], labels[..])
    modifies active, labels
    ensures Finalized(n, pending - {v}, was, labels0, color[..], found[..], active[..], labels[..])
    ensures kept == if was[v] && !found[v] then 1 else 0
  {
    kept := 0;
    if active[v] {
      if found[v] {
        labels[v], active[v] := color[v], false;
      } else {
        kept := 1;
      }
    }
  }

  /** `finalize_round`: label and retire the marked vertices, count the rest. */
  method FinalizeRound(g: Input, active: array<bool>, color: array<nat>, found: array<bool>, labels: array<nat>)
    returns (remaining: nat)
    requires active != found && color != labels
    requires active.Length == g.n == color.Length && found.Length == g.n == labels.Length
    modifies active, labels
    ensures forall v :: 0 <= v < g.n ==> active[v] == (old(active[v]) && !found[v])
    ensures forall v :: 0 <= v < g.n ==> labels[v] == if old(active[v]) && found[v] then color[v] else old(labels[v])
    ensures remaining == |ActiveSet(active[..])|
  {
    ghost var was, labels0 := active[..], labels[..];
    var pending := Below(g.n);
    remaining := 0;
    assert Kept(g.n, was, found[..], pending) == {};
    while pending != {}
      invariant pending <= Below(g.n)
      invariant Finalized(g.n, pending, was, labels0, color[..], found[..], active[..], labels[..])
      invariant remaining == |Kept(g.n, was, found[..], pending)|
    {
      var v :| v in pending;
      KeptStep(g.n, was, found[..], pending, v);
      var kept := FinalizeOne(g.n, active, color, found, labels, v, pending, was, labels0);
      remaining := remaining + kept;
      pending := pending - {v};
    }
    AllFinalized(g.n, was, labels0, color[..], found[..], active[..], labels[..]);
  }

  lemma AllFinalized(n: nat, was: seq<bool>, labels0: seq<nat>, color: seq<nat>, found: seq<bool>, active: seq<bool>,
                     labels: seq<nat>)
    requires Finalized(n, {}, was, labels0, color, found, active, labels)
    ensures forall v: nat :: v < n ==> active[v] == (was[v] && !found[v])
    ensures forall v: nat :: v < n ==> labels[v] == if was[v] && found[v] then color[v] else labels0[v]
    ensures Kept(n, was, found, {}) == ActiveSet(active)
  {
    assert forall v: nat :: v < n ==> active[v] == (was[v] && !found[v]);
  }

  // ---------------------------------------------------------------- rounds

  ghost predicate RoundsInv(g: Input, active: seq<bool>, labels: seq<nat>)
    requires g.Valid()
  {
    Labelled(g, active, labels) && Whole(g.E(), g.n, ActiveSet(active))
  }

  lemma RoundRetires(g: Input, active: seq<bool>, color: seq<nat>, found: seq<bool>, labels: seq<nat>,
                     rest: seq<bool>, labels': seq<nat>)
    requires g.Valid() && RoundsInv(g, active, labels) && RoundDone(g, active, color, found)
    requires |rest| == g.n == |labels'|
    requires forall v :: 0 <= v < g.n ==> rest[v] == (active[v] && !found[v])
    requires forall v :: 0 <= v < g.n ==> labels'[v] == if active[v] && found[v] then color[v] else labels[v]
    ensures RoundsInv(g, rest, labels')
    ensures ActiveSet(active) != {} ==> |ActiveSet(rest)| < |ActiveSet(active)|
  {
    RemainderWhole(g, active, color, found, rest);
    forall v: nat | v < g.n && !rest[v]
      ensures IsLabel(g.E(), g.n, v, labels'[v])
    {
      if active[v] {
        MarkedIsLabelled(g, active, color, found, v);
      }
    }
    if k: nat :| k in ActiveSet(active) {
      SomeRoot(g, active, color, found, k);
      var v: nat :| v < g.n && active[v] && found[v];
      assert v in ActiveSet(active) && v !in ActiveSet(rest);
      SubsetCard(ActiveSet(rest), ActiveSet(active));
    }
  }

  /** One round: colour, mark, retire. */
  method Round(g: Input, active: array<bool>, color: array<nat>, found: array<bool>, labels: array<nat>)
    returns (remaining: nat)
    requires g.Valid() && active != found && color != labels
    requires active.Length == g.n == color.Length && found.Length == g.n == labels.Length
    requires RoundsInv(g, active[..], labels[..]) && forall v :: 0 <= v < g.n ==> color[v] < g.n
    modifies active, color, found, labels
    ensures RoundsInv(g, active[..], labels[..]) && forall v :: 0 <= v < g.n ==> color[v] < g.n
    ensures remaining == |ActiveSet(active[..])|
    ensures old(ActiveSet(active[..])) != {} ==> remaining < old(|ActiveSet(active[..])|)
  {
    ghost var was, labels0 := active[..], labels[..];
    InitRound(g, active, color, found);
    ForwardFixpoint(g, active, color);
    ghost var colors := color[..];
    assert Marked(g, was, colors, found[..]);
    MarkRoots(g, active, color, found);
    BackwardFixpoint(g, active, color, found);
    remaining := FinalizeRound(g, active, color, found, labels);
    RoundRetires(g, was, colors, found[..], labels0, active[..], labels[..]);
  }

  /** Every node's label is the largest node of its component. The round bound is never
      what ends the run. */
  method SccGpu(g: Input) returns (labels: array<nat>, remaining: nat, rounds: nat)
    requires g.Valid()
    ensures fresh(labels) && labels.Length == g.n
    ensures forall v: nat :: v < g.n ==> IsLabel(g.E(), g.n, v, labels[v])
    ensures forall u: nat, v: nat :: u < g.n && v < g.n ==> (labels[u] == labels[v] <==> SameComponent(g.E(), u, v))
    ensures remaining == 0 && rounds <= g.n
  {
    labels := new nat[g.n](v => v);
    remaining, rounds := 0, 0;
    if g.n > 0 {
      var active := new bool[g.n](_ => true);
      var color := new nat[g.n](_ => 0);
      var found := new bool[g.n](_ => false);
      AllActive(g, active[..], labels[..]);
      remaining := g.n;
      while rounds < g.n + 1 && remaining != 0
        invariant rounds + remaining <= g.n && remaining == |ActiveSet(active[..])|
        invariant RoundsInv(g, active[..], labels[..]) && forall v :: 0 <= v < g.n ==> color[v] < g.n
      {
        remaining := Round(g, active, color, found, labels);
        rounds := rounds + 1;
      }
      AllRetired(g, active[..], labels[..]);
    }
    AllDecide(g, labels[..]);
  }

  lemma AllActive(g: Input, active: seq<bool>, labels: seq<nat>)
    requires g.Valid() && |active| == g.n == |labels| && forall v :: 0 <= v < g.n ==> active[v]
    ensures RoundsInv(g, active, labels) && |ActiveSet(active)| == g.n
  {
    assert ActiveSet(active) == Below(g.n);
  }

  lemma AllRetired(g: Input, active: seq<bool>, labels: seq<nat>)
    requires g.Valid() && RoundsInv(g, active, labels) && |ActiveSet(active)| == 0
    ensures forall v: nat :: v < g.n ==> IsLabel(g.E(), g.n, v, labels[v])
  {
    forall v: nat | v < g.n
      ensures !active[v]
    {
      assert v !in ActiveSet(active);
    }
  }

  lemma AllDecide(g: Input, labels: seq<nat>)
    requires g.Valid() && |labels| == g.n && forall v: nat :: v < g.n ==> IsLabel(g.E(), g.n, v, labels[v])
    ensures forall u: nat, v: nat :: u < g.n && v < g.n ==> (labels[u] == labels[v] <==> SameComponent(g.E(), u, v))
  {
    forall u: nat, v: nat | u < g.n && v < g.n
      ensures labels[u] == labels[v] <==> SameComponent(g.E(), u, v)
    {
      LabelsDecide(g.E(), g.n, u, v, labels[u], labels[v]);
    }
  }
}
