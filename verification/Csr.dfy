/** Read-optimised CSR snapshots: two halves, outgoing and incoming, of one graph. */
module Csr {
  import opened Rows
  import opened StoredGraph

  datatype Tag = TCalls | TUnresolvedCall | TUsesType | TReferences | TContains | TImplements
               | TExternalCall | TExtends | TReturns | TTypeOf

  /** The kinds of edge a tag stands for. */
  ghost predicate Tags(t: Tag, k: EdgeKind) {
    match t
    case TCalls => k.Calls?
    case TUnresolvedCall => k.UnresolvedCall?
    case TUsesType => k.UsesType?
    case TReferences => k.References?
    case TContains => k.Contains?
    case TImplements => k.Implements?
    case TExternalCall => k.ExternalCall?
    case TExtends => k.Extends?
    case TReturns => k.Returns?
    case TTypeOf => k.TypeOf?
  }

  function TagOf(k: EdgeKind): (tag: Tag)
    ensures forall t :: Tags(t, k) <==> t == tag
  {
    match k
    case Calls => TCalls
    case UnresolvedCall(_) => TUnresolvedCall
    case UsesType => TUsesType
    case References => TReferences
    case Contains => TContains
    case Implements => TImplements
    case ExternalCall(_, _) => TExternalCall
    case Extends => TExtends
    case Returns => TReturns
    case TypeOf => TTypeOf
  }

  /** Row pointers with two parallel arrays: neighbour and edge kind. */
  datatype Half = Half(ptrs: seq<nat>, cols: seq<nat>, kinds: seq<Tag>) {
    ghost predicate Valid(n: nat) {
      ValidRows(n, ptrs, cols) && |kinds| == |cols|
    }

    function Neighbours(v: nat): seq<nat>
      requires v + 1 < |ptrs| && ptrs[v] <= ptrs[v + 1] <= |cols|
    {
      cols[ptrs[v]..ptrs[v + 1]]
    }

    function Kinds(v: nat): seq<Tag>
      requires v + 1 < |ptrs| && ptrs[v] <= ptrs[v + 1] <= |kinds|
    {
      kinds[ptrs[v]..ptrs[v + 1]]
    }

    function Degree(v: nat): nat
      requires v + 1 < |ptrs| && ptrs[v] <= ptrs[v + 1]
    {
      ptrs[v + 1] - ptrs[v]
    }

    /** Row `v` lists neighbour `c` with kind `k`. */
    ghost predicate Lists(n: nat, v: nat, c: nat, k: Tag)
      requires Valid(n)
    {
      v < n && exists i :: 0 <= i < |Neighbours(v)| && Neighbours(v)[i] == c && Kinds(v)[i] == k
    }
  }

  /** An edge of the relabelled graph: source, target, kind. */
  datatype Triple = Triple(src: nat, dst: nat, kind: Tag)

  datatype CsrSnapshot = CsrSnapshot(
    n: nat, m: nat, outgoing: Half, incoming: Half,
    vertexToId: seq<nat>, idToVertex: map<nat, nat>, sourceRevision: nat)
  {
    /** Both halves slice correctly and hold the same edges, kinds included. */
    ghost predicate Valid() {
      outgoing.Valid(n) && incoming.Valid(n) && Transposed()
    }

    ghost predicate Transposed()
      requires outgoing.Valid(n) && incoming.Valid(n)
    {
      forall u: nat, v: nat, k: Tag :: outgoing.Lists(n, u, v, k) <==> incoming.Lists(n, v, u, k)
    }
  }
}
