/** Hybrid vertex set: an insertion-ordered list while small, a bitmap once dense. */
module Frontier {
  import opened Graphs
  import opened Sorting

  const DENSE_THRESHOLD_NUMER: nat := 1
  const DENSE_THRESHOLD_DENOM: nat := 16
  const USIZE_MAX: nat := 0xffff_ffff_ffff_ffff

  datatype FrontierInner = Sparse(list: seq<nat>) | Dense(bits: set<nat>)

  function Saturating(x: nat): nat {
    if x > USIZE_MAX then USIZE_MAX else x
  }

  ghost function SumOver(deg: nat -> nat, vs: seq<nat>): nat {
    if vs == [] then 0 else SumOver(deg, vs[..|vs| - 1]) + deg(vs[|vs| - 1])
  }

  /** The sum of the degrees of a set's elements, each taken once, or the largest 64-bit number. */
  ghost predicate IsWorkload(deg: nat -> nat, S: set<nat>, total: nat) {
    exists vs: seq<nat> ::
      && Distinct(vs) && (forall v :: v in vs <==> v in S)
      && if SumOver(deg, vs) < 0x1_0000_0000_0000_0000 then total == SumOver(deg, vs) else total == USIZE_MAX
  }

  function Threshold(n: nat): nat {
    Saturating(n * DENSE_THRESHOLD_NUMER) / DENSE_THRESHOLD_DENOM
  }

  /** `k` nodes are more than a sixteenth of a graph of `n`. */
  ghost predicate Crowded(k: nat, n: nat) {
    n > 0 && k > (if n < 0x1_0000_0000_0000_0000 then n else 0xffff_ffff_ffff_ffff) / 16
  }

  class Frontier {
    const n: nat
    var inner: FrontierInner

    ghost predicate Valid()
      reads this
    {
      inner.Sparse? ==> Distinct(inner.list)
    }

    /** The vertices held, whichever the representation. */
    ghost function Contents(): set<nat>
      reads this
    {
      match inner
      case Sparse(list) => Members(list)
      case Dense(bits) => bits
    }

    constructor New(n: nat)
      ensures Valid() && this.n == n && Contents() == {} && inner.Sparse?
    {
      this.n := n;
      inner := Sparse([]);
    }

    constructor Singleton(n: nat, v: nat)
      ensures Valid() && this.n == n && Contents() == {v} && inner.Sparse?
    {
      this.n := n;
      inner := Sparse([v]);
    }

    predicate Contains(v: nat)
      reads this
      ensures Contains(v) <==> v in Contents()
    {
      match inner
      case Sparse(list) => v in list
      case Dense(bits) => v in bits
    }

    function Len(): (k: nat)
      requires Valid()
      reads this
      ensures k == |Contents()|
    {
      match inner
      case Sparse(list) => DistinctCard(list); |list|
      case Dense(bits) => |bits|
    }

    predicate IsEmpty()
      reads this
      ensures IsEmpty() <==> Contents() == {}
    {
      match inner
      case Sparse(list) =>
        assert list != [] ==> list[0] in Contents();
        list == []
      case Dense(bits) => bits == {}
    }

    /** Add `v`; a list longer than a sixteenth of the graph becomes a bitmap. */
    method Insert(v: nat)
      requires Valid()
      modifies this
      ensures Valid() && Contents() == old(Contents()) + {v}
      ensures inner.Dense? <==> old(inner.Dense?) || Crowded(|Contents()|, n)
      ensures inner.Sparse? ==> inner.list == old(inner.list) + if v in old(Contents()) then [] else [v]
    {
      match inner {
        case Sparse(list) =>
          if v !in list {
            DistinctSnoc(list, v);
            inner := Sparse(list + [v]);
          }
        case Dense(bits) =>
          inner := Dense(bits + {v});
      }
      assert Contents() == old(Contents()) + {v};
      MaybePromote();
    }

    method MaybePromote()
      requires Valid()
      modifies this
      ensures Valid() && Contents() == old(Contents())
      ensures inner.Dense? <==> old(inner.Dense?) || Crowded(|Contents()|, n)
      ensures inner.Sparse? ==> inner == old(inner)
    {
      if inner.Sparse? {
        DistinctCard(inner.list);
        if |inner.list| > Threshold(n) && n > 0 {
          PromoteToDense();
        }
      }
    }

    method PromoteToDense()
      requires Valid()
      modifies this
      ensures Valid() && inner.Dense? && Contents() == old(Contents())
    {
      if inner.Sparse? {
        var bits: set<nat> := {};
        var i := 0;
        while i < |inner.list|
          invariant 0 <= i <= |inner.list|
          invariant bits == set v | v in inner.list[..i]
        {
          bits := bits + {inner.list[i]};
          i := i + 1;
        }
        assert inner.list[..i] == inner.list;
        inner := Dense(bits);
      }
    }

    method Clear()
      modifies this
      ensures Valid() && Contents() == {} && (inner.Dense? <==> old(inner.Dense?))
    {
      inner := if inner.Sparse? then Sparse([]) else Dense({});
    }

    /** Each vertex once: in insertion order from a list, ascending from a bitmap. */
    method Iter() returns (vs: seq<nat>)
      requires Valid()
      ensures Distinct(vs) && forall v :: v in vs <==> v in Contents()
      ensures if inner.Sparse? then vs == inner.list else Ascending(vs)
    {
      match inner
      case Sparse(list) => vs := list;
      case Dense(bits) => vs := AscendingOf(bits);
    }

    /** The summed degrees of the frontier, saturating. */
    method PushWorkload(deg: nat -> nat) returns (total: nat)
      requires Valid()
      ensures IsWorkload(deg, Contents(), total)
    {
      var vs := Iter();
      total := 0;
      var i := 0;
      while i < |vs|
        invariant 0 <= i <= |vs|
        invariant total == Saturating(SumOver(deg, vs[..i]))
      {
        assert vs[..i + 1][..i] == vs[..i];
        total := Saturating(total + deg(vs[i]));
        i := i + 1;
      }
      assert vs[..i] == vs;
    }
  }
}
