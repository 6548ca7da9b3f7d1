/** How much rank travels: what one node sends, what a round adds up to, and a round worked out. */
module PagerankFlow {
  import opened GpuPagerank
  import opened Sums
  import opened Wrappers

  // ---------------------------------------------------------------- shares

  /** What a node of rank one sends: `edge` of it along each of its edges, `even` of it to every node when
      it has no successors, `jump` of it to every other node when it has some. */
  datatype Shares = Shares(edge: nat -> real, even: real, jump: real)

  /** A damped rank is divided by the out-degree along edges and by the node count otherwise; what
      damping leaves is divided by the node count. */
  ghost predicate SharesOf(g: Links, d: real, s: Shares)
    requires g.Valid()
  {
    && s.even * g.n as real == d
    && s.jump * g.n as real == 1.0 - d
    && forall w: nat {:trigger s.edge(w)} :: w < g.n && g.outDeg[w] != 0.0 ==> s.edge(w) * g.outDeg[w] == d
  }

  lemma Divides(a: real, b: real)
    requires b != 0.0
    ensures a / b * b == a
  {
  }

  /** Every graph with a node has its shares. */
  lemma SharesExist(g: Links, d: real) returns (s: Shares)
    requires g.Valid() && g.n > 0
    ensures SharesOf(g, d, s)
  {
    s := Shares((w: nat) => if w < |g.outDeg| && g.outDeg[w] != 0.0 then d / g.outDeg[w] else 0.0,
                d / g.n as real, (1.0 - d) / g.n as real);
    Divides(d, g.n as real);
    Divides(1.0 - d, g.n as real);
    forall w: nat | w < g.n && g.outDeg[w] != 0.0
      ensures s.edge(w) * g.outDeg[w] == d
    {
      Divides(d, g.outDeg[w]);
    }
  }

  /** The share of its rank that `w` sends to `v`. */
  ghost function ShareAt(g: Links, s: Shares, w: nat, v: nat): real
    requires g.Valid() && w < g.n && v < g.n
  {
    if g.outDeg[w] == 0.0 then s.even else if w in g.Row(v) then s.edge(w) else s.jump
  }

  // ---------------------------------------------------------------- one node

  /** The shares sent to `v`, by sender. */
  ghost function SharesTo(g: Links, s: Shares, v: nat): nat -> real
    requires g.Valid() && v < g.n
  {
    (w: nat) => if w < g.n && g.Valid() then ShareAt(g, s, w, v) else 0.0
  }

  /** What the nodes of ranks `r` send to `v`. */
  ghost function SentBy(g: Links, s: Shares, r: seq<real>, v: nat): nat -> real
    requires g.Valid() && |r| == g.n && v < g.n
  {
    (w: nat) => if w < g.n && g.Valid() then r[w] * ShareAt(g, s, w, v) else 0.0
  }

  lemma Scaled(a: real, b: real, p: real, x: real)
    requires a * b == p
    ensures x * a * b == p * x
  {
    assert x * a * b == x * (a * b);
  }

  lemma SharesAreSent(g: Links, d: real, s: Shares, r: seq<real>, v: nat)
    requires g.Valid() && |r| == g.n && v < g.n && SharesOf(g, d, s)
    ensures SentTo(g, d, r, v, SentBy(g, s, r, v))
  {
    forall w: nat | w < g.n
      ensures SendsAmount(w in g.Row(v), d, r[w], g.outDeg[w], g.n as real, SentBy(g, s, r, v)(w))
    {
      ShareFits(g, d, s, v, w);
      SentFits(g, d, s, r, v, w);
    }
  }

  /** A share times the out-degree or the node count is what is shared out. */
  ghost predicate Fits(edge: bool, d: real, out: real, n: real, share: real) {
    if edge then share * out == d else share * n == if out == 0.0 then d else 1.0 - d
  }

  lemma ShareFits(g: Links, d: real, s: Shares, v: nat, w: nat)
    requires g.Valid() && v < g.n && w < g.n && SharesOf(g, d, s)
    ensures Fits(w in g.Row(v), d, g.outDeg[w], g.n as real, ShareAt(g, s, w, v))
  {
    ListedHasDegree(g, w, v);
  }

  lemma SentFits(g: Links, d: real, s: Shares, r: seq<real>, v: nat, w: nat)
    requires g.Valid() && |r| == g.n && v < g.n && w < g.n
    requires Fits(w in g.Row(v), d, g.outDeg[w], g.n as real, ShareAt(g, s, w, v))
    ensures SendsAmount(w in g.Row(v), d, r[w], g.outDeg[w], g.n as real, SentBy(g, s, r, v)(w))
  {
    ShareIsSent(w in g.Row(v), d, r[w], g.outDeg[w], g.n as real, ShareAt(g, s, w, v));
  }

  lemma ShareIsSent(edge: bool, d: real, x: real, out: real, n: real, share: real)
    requires Fits(edge, d, out, n, share)
    ensures SendsAmount(edge, d, x, out, n, x * share)
  {
    if edge {
      Scaled(share, out, d, x);
    } else {
      Scaled(share, n, if out == 0.0 then d else 1.0 - d, x);
    }
  }

  lemma UpdateIsSent(g: Links, d: real, s: Shares, r: seq<real>, v: nat)
    requires g.Valid() && |r| == g.n && v < g.n && SharesOf(g, d, s)
    ensures Pi(g, d, r, v) == Sum(g.n, SentBy(g, s, r, v))
  {
    SharesAreSent(g, d, s, r, v);
    PiAddsUp(g, d, r, v, SentBy(g, s, r, v));
  }

  /** More rank at one node raises the update of a node by the share it sends there. */
  lemma OneNodeSends(g: Links, d: real, s: Shares, r: seq<real>, w: nat, x: real, v: nat, share: real)
    requires g.Valid() && |r| == g.n && w < g.n && v < g.n && SharesOf(g, d, s)
    requires share == if g.outDeg[w] == 0.0 then s.even else if w in g.Row(v) then s.edge(w) else s.jump
    ensures Pi(g, d, r[w := r[w] + x], v) - Pi(g, d, r, v) == x * share
  {
    UpdateIsSent(g, d, s, r, v);
    UpdateIsSent(g, d, s, r[w := r[w] + x], v);
    SentRaised(g, s, r, w, x, v, share);
  }

  lemma SentRaised(g: Links, s: Shares, r: seq<real>, w: nat, x: real, v: nat, share: real)
    requires g.Valid() && |r| == g.n && w < g.n && v < g.n && share == SharesTo(g, s, v)(w)
    ensures Sum(g.n, SentBy(g, s, r[w := r[w] + x], v)) - Sum(g.n, SentBy(g, s, r, v)) == x * share
  {
    var r' := r[w := r[w] + x];
    SentIsShare(g, s, r, v);
    SentIsShare(g, s, r', v);
    OneRaised(g.n, SharesTo(g, s, v), r, r', w, x, SentBy(g, s, r, v), SentBy(g, s, r', v));
  }

  lemma SentIsShare(g: Links, s: Shares, r: seq<real>, v: nat)
    requires g.Valid() && |r| == g.n && v < g.n
    ensures Products(g.n, r, SharesTo(g, s, v), SentBy(g, s, r, v))
  {
  }

  ghost predicate Products(n: nat, r: seq<real>, share: nat -> real, f: nat -> real)
    requires |r| == n
  {
    forall i: nat {:trigger f(i)} :: i < n ==> f(i) == r[i] * share(i)
  }

  lemma OneRaised(n: nat, share: nat -> real, r: seq<real>, r': seq<real>, w: nat, x: real, f: nat -> real,
                  h: nat -> real)
    requires |r| == n == |r'| && w < n && r'[w] == r[w] + x
    requires forall i: nat :: i < n && i != w ==> r'[i] == r[i]
    requires Products(n, r, share, f) && Products(n, r', share, h)
    ensures Sum(n, h) - Sum(n, f) == x * share(w)
  {
    SumChange(n, f, h, w);
    Raised(r[w], x, share(w));
  }

  lemma Raised(a: real, x: real, b: real)
    ensures (a + x) * b - a * b == x * b
  {
  }

  // ---------------------------------------------------------------- what one node sends in all

  /** One for every row that lists `w`. */
  ghost function Listed(g: Links, w: nat): nat -> real
    requires g.Valid()
  {
    (v: nat) => if v < g.n && g.Valid() && w in g.Row(v) then 1.0 else 0.0
  }

  /** How many rows list `w`. */
  ghost function Listings(g: Links, w: nat): real
    requires g.Valid()
  {
    Sum(g.n, Listed(g, w))
  }

  /** The shares `w` sends, by target. */
  ghost function SharesFrom(g: Links, s: Shares, w: nat): nat -> real
    requires g.Valid() && w < g.n
  {
    (v: nat) => if v < g.n && g.Valid() then ShareAt(g, s, w, v) else 0.0
  }

  /** A sum of two values, counted out. */
  lemma TwoValues(n: nat, f: nat -> real, first: nat -> real, a: real, b: real)
    requires forall v: nat :: v < n ==> (first(v) == 1.0 && f(v) == a) || (first(v) == 0.0 && f(v) == b)
    ensures Sum(n, f) == Split(a, Sum(n, first), b, n as real)
  {
    var second, ones := (v: nat) => 1.0 - first(v), (v: nat) => 1.0;
    forall v: nat | v < n
      ensures f(v) == a * first(v) + b * second(v)
    {
      OneOf(a, first(v), b, f(v));
    }
    SumCombination(n, a, first, b, second, f);
    SumAdd(n, first, second, ones);
    ConstantSum(n, ones, 1.0);
    Rest(a, Sum(n, first), b, Sum(n, second), n as real);
  }

  lemma OneOf(a: real, first: real, b: real, f: real)
    requires (first == 1.0 && f == a) || (first == 0.0 && f == b)
    ensures f == a * first + b * (1.0 - first)
  {
  }

  lemma Rest(a: real, c: real, b: real, rest: real, n: real)
    requires c + rest == n
    ensures a * c + b * rest == Split(a, c, b, n)
  {
  }

  /** `c` times the first value and the second for the rest. */
  ghost function Split(a: real, c: real, b: real, n: real): real {
    a * c + b * (n - c)
  }

  /** A node of rank one sends in all the damping when it has no successors; otherwise a share for each
      row that lists it and a random jump for each other node. */
  lemma SharesAddUp(g: Links, d: real, s: Shares, w: nat)
    requires g.Valid() && w < g.n && SharesOf(g, d, s)
    ensures Sum(g.n, SharesFrom(g, s, w)) ==
            if g.outDeg[w] == 0.0 then d else Split(s.edge(w), Listings(g, w), s.jump, g.n as real)
  {
    forall v: nat | v < g.n
      ensures g.outDeg[w] == 0.0 ==> w !in g.Row(v)
    {
      ListedHasDegree(g, w, v);
    }
    if g.outDeg[w] == 0.0 {
      ConstantSum(g.n, SharesFrom(g, s, w), s.even);
    } else {
      TwoValues(g.n, SharesFrom(g, s, w), Listed(g, w), s.edge(w), s.jump);
    }
  }

  /** Without parallel edges a node with successors sends all of its damped rank along its edges. */
  lemma SimpleEdges(g: Links, d: real, s: Shares, w: nat)
    requires g.Valid() && w < g.n && SharesOf(g, d, s) && g.outDeg[w] == Listings(g, w)
    ensures g.outDeg[w] != 0.0 ==> s.edge(w) * Listings(g, w) == d
    ensures g.outDeg[w] != 0.0 ==>
              Split(s.edge(w), Listings(g, w), s.jump, g.n as real) == d + s.jump * (g.n as real - Listings(g, w))
  {
    if g.outDeg[w] != 0.0 {
      AllShares(d, g.outDeg[w], Listings(g, w), s.edge(w), s.jump, g.n as real);
    }
  }

  lemma AllShares(d: real, out: real, c: real, edge: real, jump: real, n: real)
    requires edge * out == d && c == out
    ensures edge * c == d && Split(edge, c, jump, n) == d + jump * (n - c)
  {
  }

  // ---------------------------------------------------------------- a whole round

  /** What every node sends everywhere, targets first. */
  ghost function Flow(g: Links, s: Shares, r: seq<real>): Matrix
    requires g.Valid() && |r| == g.n
  {
    (v: nat, w: nat) => if v < g.n && g.Valid() then SentBy(g, s, r, v)(w) else 0.0
  }

  lemma FlowIn(g: Links, d: real, s: Shares, r: seq<real>, v: nat)
    requires g.Valid() && |r| == g.n && v < g.n && SharesOf(g, d, s)
    ensures RowSum(g.n, Flow(g, s, r), v) == Pi(g, d, r, v)
  {
    UpdateIsSent(g, d, s, r, v);
    forall w: nat | w < g.n
      ensures Flow(g, s, r)(v, w) == SentBy(g, s, r, v)(w)
    {
    }
    SumEq(g.n, SentBy(g, s, r, v), (w: nat) => Flow(g, s, r)(v, w));
  }

  /** A column of `F` is `f`, scaled by `a`. */
  ghost predicate Scales(n: nat, F: Matrix, w: nat, a: real, f: nat -> real) {
    forall v: nat {:trigger F(v, w)} :: v < n ==> F(v, w) == a * f(v)
  }

  lemma FlowScales(g: Links, s: Shares, r: seq<real>, w: nat)
    requires g.Valid() && |r| == g.n && w < g.n
    ensures Scales(g.n, Flow(g, s, r), w, r[w], SharesFrom(g, s, w))
  {
    forall v: nat | v < g.n
      ensures Flow(g, s, r)(v, w) == r[w] * SharesFrom(g, s, w)(v)
    {
      assert Flow(g, s, r)(v, w) == SentBy(g, s, r, v)(w);
    }
  }

  lemma ColumnScaled(n: nat, F: Matrix, w: nat, a: real, f: nat -> real, total: real)
    requires Sum(n, f) == total && Scales(n, F, w, a, f)
    ensures RowSum(n, Transpose(F), w) == a * total
  {
    forall v: nat | v < n
      ensures Transpose(F)(w, v) == a * f(v)
    {
      assert Transpose(F)(w, v) == F(v, w);
    }
    SumScale(n, a, f, (v: nat) => Transpose(F)(w, v));
  }

  lemma FlowOut(g: Links, s: Shares, r: seq<real>, w: nat, total: real)
    requires g.Valid() && |r| == g.n && w < g.n && total == Sum(g.n, SharesFrom(g, s, w))
    ensures RowSum(g.n, Transpose(Flow(g, s, r)), w) == r[w] * total
  {
    FlowScales(g, s, r, w);
    ColumnScaled(g.n, Flow(g, s, r), w, r[w], SharesFrom(g, s, w), total);
  }

  /** `passed` says what each node sends in all for each unit of its rank. */
  ghost predicate PassedBy(g: Links, d: real, s: Shares, passed: nat -> real)
    requires g.Valid()
  {
    forall w: nat {:trigger passed(w)} :: w < g.n ==>
      passed(w) == if g.outDeg[w] == 0.0 then d else Split(s.edge(w), Listings(g, w), s.jump, g.n as real)
  }

  ghost function Scale(r: seq<real>, passed: nat -> real): nat -> real {
    (w: nat) => if w < |r| then r[w] * passed(w) else 0.0
  }

  /** The total before normalisation, by the nodes that send it. */
  lemma TotalPassedOn(g: Links, d: real, s: Shares, r: seq<real>, passed: nat -> real)
    requires g.Valid() && |r| == g.n && SharesOf(g, d, s) && PassedBy(g, d, s, passed)
    ensures PiTotal(g, d, r) == Sum(g.n, Scale(r, passed))
  {
    forall w: nat | w < g.n
      ensures RowSum(g.n, Transpose(Flow(g, s, r)), w) == Scale(r, passed)(w)
    {
      SharesAddUp(g, d, s, w);
      FlowOut(g, s, r, w, passed(w));
    }
    SumEq(g.n, Scale(r, passed), (w: nat) => RowSum(g.n, Transpose(Flow(g, s, r)), w));
    TotalIsFlow(g, d, s, r);
    SumSwap(g.n, g.n, Flow(g, s, r));
  }

  lemma TotalIsFlow(g: Links, d: real, s: Shares, r: seq<real>)
    requires g.Valid() && |r| == g.n && SharesOf(g, d, s)
    ensures PiTotal(g, d, r) == Sum2(g.n, g.n, Flow(g, s, r))
  {
    forall v: nat | v < g.n
      ensures RowSum(g.n, Flow(g, s, r), v) == Pi(g, d, r, v)
    {
      FlowIn(g, d, s, r, v);
    }
    SumEq(g.n, (v: nat) => if v < g.n then Pi(g, d, r, v) else 0.0, (v: nat) => RowSum(g.n, Flow(g, s, r), v));
  }

  // ---------------------------------------------------------------- rounds

  /** `F(v, w)` is what `w` sends to `v`. */
  ghost predicate SentIn(g: Links, d: real, r: seq<real>, F: Matrix)
    requires g.Valid() && |r| == g.n
  {
    forall v: nat {:trigger At(F, v)} :: v < g.n ==> SentTo(g, d, r, v, At(F, v))
  }

  /** A row of a matrix. */
  ghost function At(F: Matrix, v: nat): nat -> real {
    (w: nat) => F(v, w)
  }

  /** Ranks start even. */
  lemma RanksStart(g: Links, d: real, v: nat)
    requires g.Valid() && v < g.n
    ensures Ranks(g, d, 0).Some? && Ranks(g, d, 0).value[v] * g.n as real == 1.0
  {
    Divides(1.0, g.n as real);
  }

  lemma RoundAddsUp(g: Links, d: real, r: seq<real>, F: Matrix)
    requires g.Valid() && |r| == g.n && SentIn(g, d, r, F)
    ensures PiTotal(g, d, r) == Sum2(g.n, g.n, F)
    ensures forall v: nat :: v < g.n ==> Pi(g, d, r, v) == RowSum(g.n, F, v)
  {
    forall v: nat | v < g.n
      ensures RowSum(g.n, F, v) == Pi(g, d, r, v)
    {
      PiAddsUp(g, d, r, v, At(F, v));
      SumEq(g.n, At(F, v), (w: nat) => F(v, w));
    }
    SumEq(g.n, (v: nat) => if v < g.n then Pi(g, d, r, v) else 0.0, (v: nat) => RowSum(g.n, F, v));
  }

  /** A round adds up what is sent to each node and divides it by all that is sent; it is undefined when
      that is nothing. */
  lemma RanksNext(g: Links, d: real, k: nat, F: Matrix)
    requires g.Valid() && g.n > 0 && Ranks(g, d, k).Some? && SentIn(g, d, Ranks(g, d, k).value, F)
    ensures Ranks(g, d, k + 1).Some? <==> Sum2(g.n, g.n, F) != 0.0
    ensures Ranks(g, d, k + 1).Some? ==> forall v: nat :: v < g.n ==>
              Ranks(g, d, k + 1).value[v] == RowSum(g.n, F, v) / Sum2(g.n, g.n, F)
  {
    RoundAddsUp(g, d, Ranks(g, d, k).value, F);
  }

  // ---------------------------------------------------------------- a round worked out

  /** Node 0 with edges to nodes 1 and 2, and one edge back from each. */
  const HUB: Links := Links(3, [0, 2, 3, 4], [1, 2, 0, 0], [2.0, 1.0, 1.0])

  lemma HubRows()
    ensures HUB.Row(0) == [1, 2] && HUB.Row(1) == [0] && HUB.Row(2) == [0]
  {
  }

  lemma HubValid()
    ensures HUB.Valid()
  {
    var g := HUB;
    HubRows();
    assert 0 in g.Row(1) && 1 in g.Row(0) && 2 in g.Row(0);
  }

  /** What its nodes send in the first round with damping 0.85. */
  ghost function HubFlow(): Matrix {
    (v: nat, w: nat) =>
      if v == 0 && w != 0 then 17.0 / 60.0 else if v != 0 && w == 0 then 17.0 / 120.0 else 1.0 / 60.0
  }

  lemma HubSends(r: seq<real>)
    requires HUB.Valid() && r == [1.0 / 3.0, 1.0 / 3.0, 1.0 / 3.0]
    requires HUB.Row(0) == [1, 2] && HUB.Row(1) == [0] && HUB.Row(2) == [0]
    ensures SentIn(HUB, 0.85, r, HubFlow())
  {
    forall v: nat, w: nat | v < 3 && w < 3
      ensures SendsAmount(w in HUB.Row(v), 0.85, r[w], HUB.outDeg[w], 3.0, HubFlow()(v, w))
    {
    }
    forall v: nat | v < HUB.n
      ensures SentTo(HUB, 0.85, r, v, At(HubFlow(), v))
    {
      assert forall w: nat :: w < 3 ==> At(HubFlow(), v)(w) == HubFlow()(v, w);
    }
  }

  lemma Sum3(f: nat -> real)
    ensures Sum(3, f) == f(0) + f(1) + f(2)
  {
    assert Sum(1, f) == f(0);
    assert Sum(2, f) == f(0) + f(1);
  }

  lemma HubTotals()
    ensures RowSum(3, HubFlow(), 0) == 7.0 / 12.0
    ensures RowSum(3, HubFlow(), 1) == RowSum(3, HubFlow(), 2) == 7.0 / 40.0
    ensures Sum2(3, 3, HubFlow()) == 14.0 / 15.0
  {
    var F := HubFlow();
    forall v: nat
      ensures RowSum(3, F, v) == F(v, 0) + F(v, 1) + F(v, 2)
    {
      Sum3((w: nat) => F(v, w));
    }
    Sum3((v: nat) => RowSum(3, F, v));
  }

  /** One round with damping 0.85 gives the node with two successors five eighths of the rank. */
  lemma HubRanks()
    ensures HUB.Valid() && Ranks(HUB, 0.85, 1) == Some([0.625, 0.1875, 0.1875])
  {
    HubRows();
    HubValid();
    assert Ranks(HUB, 0.85, 0).value == [1.0 / 3.0, 1.0 / 3.0, 1.0 / 3.0];
    HubSends(Ranks(HUB, 0.85, 0).value);
    HubTotals();
    RanksNext(HUB, 0.85, 0, HubFlow());
    assert Ranks(HUB, 0.85, 1).value == [0.625, 0.1875, 0.1875];
  }
}
