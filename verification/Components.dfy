/** Strongly connected components of a digraph and of its active part. */
module Components {
  import opened Graphs

  ghost predicate SameComponent(E: Edges, u: nat, v: nat) {
    Reach(E, u, v) && Reach(E, v, u)
  }

  /** `l` is the largest node of the component of `v`. */
  ghost predicate IsLabel(E: Edges, n: nat, v: nat, l: nat) {
    && l < n
    && SameComponent(E, v, l)
    && forall w: nat :: w < n && SameComponent(E, v, w) ==> w <= l
  }

  /** The edges with both ends in `A`. */
  ghost function Sub(E: Edges, A: set<nat>): Edges {
    set e | e in E && e.0 in A && e.1 in A
  }

  /** `A` is a union of whole components. */
  ghost predicate Whole(E: Edges, n: nat, A: set<nat>) {
    && A <= Below(n)
    && forall u: nat, v: nat :: u < n && v < n && SameComponent(E, u, v) && u in A ==> v in A
  }

  lemma SameComponentEquivalence(E: Edges, u: nat, v: nat, w: nat)
    ensures SameComponent(E, u, u)
    ensures SameComponent(E, u, v) ==> SameComponent(E, v, u)
    ensures SameComponent(E, u, v) && SameComponent(E, v, w) ==> SameComponent(E, u, w)
  {
    PathRefl(E, u);
    if SameComponent(E, u, v) && SameComponent(E, v, w) {
      ReachTrans(E, u, v, w);
      ReachTrans(E, w, v, u);
    }
  }

  /** Equal labels are the same component: labels decide the partition. */
  lemma LabelsDecide(E: Edges, n: nat, u: nat, v: nat, lu: nat, lv: nat)
    requires u < n && v < n && IsLabel(E, n, u, lu) && IsLabel(E, n, v, lv)
    ensures lu == lv <==> SameComponent(E, u, v)
  {
    SameComponentEquivalence(E, u, lu, v);
    SameComponentEquivalence(E, v, lv, u);
    if SameComponent(E, u, v) {
      SameComponentEquivalence(E, v, u, lu);
      SameComponentEquivalence(E, u, v, lv);
    }
  }

  /** Paths inside a component never leave an active set made of whole components. */
  lemma ReachInside(E: Edges, n: nat, A: set<nat>, u: nat, v: nat)
    requires Bounded(E, n) && Whole(E, n, A) && u in A && SameComponent(E, u, v)
    ensures Reach(Sub(E, A), u, v)
  {
    var p :| PathFromTo(E, p, u, v);
    PathBounded(E, n, p);
    forall i | 0 <= i < |p|
      ensures p[i] in A
    {
      PathPrefix(E, p, i);
      PathSuffix(E, p, i);
      assert Reach(E, u, p[i]) && Reach(E, p[i], v);
      ReachTrans(E, p[i], v, u);
    }
    forall i | 0 <= i < |p| - 1
      ensures (p[i], p[i + 1]) in Sub(E, A)
    {
      var e := (p[i], p[i + 1]);
      assert e.0 in A && e.1 in A;
    }
    assert PathFromTo(Sub(E, A), p, u, v);
  }

  /** Inside such a set, components of the active part are components of the whole graph. */
  lemma SubComponents(E: Edges, n: nat, A: set<nat>, u: nat, v: nat)
    requires Bounded(E, n) && Whole(E, n, A) && u in A && v < n
    ensures SameComponent(Sub(E, A), u, v) <==> SameComponent(E, u, v)
  {
    if SameComponent(Sub(E, A), u, v) {
      ReachMonotone(Sub(E, A), E, u, v);
      ReachMonotone(Sub(E, A), E, v, u);
    }
    if SameComponent(E, u, v) {
      ReachInside(E, n, A, u, v);
      SameComponentEquivalence(E, u, v, u);
      ReachInside(E, n, A, v, u);
    }
  }
}
