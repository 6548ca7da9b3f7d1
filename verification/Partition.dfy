/** The canonical form of a labelling: the classes in order of their smallest members. */
module Partition {
  import opened Components
  import GpuScc
  import opened Graphs
  import opened Sorting

  /** The positions with label `l`, ascending. */
  function ClassOf(labels: seq<nat>, l: nat): (s: seq<nat>)
    ensures forall i :: i in s ==> i < |labels|
  {
    if labels == [] then []
    else ClassOf(labels[..|labels| - 1], l) + if labels[|labels| - 1] == l then [|labels| - 1] else []
  }

  lemma {:induction false} ClassMembers(labels: seq<nat>, l: nat, i: nat)
    ensures i in ClassOf(labels, l) <==> i < |labels| && labels[i] == l
  {
    if labels != [] {
      ClassMembers(labels[..|labels| - 1], l, i);
    }
  }

  /** The classes, in order of first appearance of their label. */
  function Classes(labels: seq<nat>, k: nat): (parts: seq<seq<nat>>)
    requires k <= |labels|
  {
    if k == 0 then []
    else Classes(labels, k - 1) + if labels[k - 1] in labels[..k - 1] then [] else [ClassOf(labels, labels[k - 1])]
  }

  function PartitionOf(labels: seq<nat>): (parts: seq<seq<nat>>) {
    Classes(labels, |labels|)
  }

  ghost predicate SameKernel(a: seq<nat>, b: seq<nat>) {
    |a| == |b| && forall i: nat, j: nat :: i < |a| && j < |a| ==> (a[i] == a[j] <==> b[i] == b[j])
  }

  lemma Met(labels: seq<nat>, k: nat)
    requires k < |labels|
    ensures labels[k] in labels[..k] <==> exists i: nat :: i < k && labels[i] == labels[k]
  {
    if labels[k] in labels[..k] {
      var i: int :| 0 <= i < k && labels[..k][i] == labels[k];
      var h: nat := i;
      assert labels[h] == labels[k];
    }
    if i: nat :| i < k && labels[i] == labels[k] {
      assert labels[..k][i] == labels[k];
    }
  }

  /** Every node's class is listed, and every class listed is a node's. */
  lemma {:induction false} ClassFound(labels: seq<nat>, k: nat, i: nat)
    requires i < k <= |labels|
    ensures ClassOf(labels, labels[i]) in Classes(labels, k)
  {
    if i < k - 1 {
      ClassFound(labels, k - 1, i);
    } else if labels[i] in labels[..i] {
      Met(labels, i);
      var h: nat :| h < i && labels[h] == labels[i];
      ClassFound(labels, k - 1, h);
    }
  }

  lemma {:induction false} ClassIndex(labels: seq<nat>, k: nat, part: seq<nat>) returns (i: nat)
    requires k <= |labels| && part in Classes(labels, k)
    ensures i < k && part == ClassOf(labels, labels[i])
  {
    if part in Classes(labels, k - 1) {
      i := ClassIndex(labels, k - 1, part);
    } else {
      i := k - 1;
    }
  }

  /** Two nodes share a class exactly when they share a label. */
  lemma ShareClass(labels: seq<nat>, i: nat, j: nat)
    requires i < |labels| && j < |labels|
    ensures labels[i] == labels[j] <==> exists part :: part in PartitionOf(labels) && i in part && j in part
  {
    ClassFound(labels, |labels|, i);
    ClassMembers(labels, labels[i], i);
    ClassMembers(labels, labels[i], j);
    if part :| part in PartitionOf(labels) && i in part && j in part {
      var h := ClassIndex(labels, |labels|, part);
      ClassMembers(labels, labels[h], i);
      ClassMembers(labels, labels[h], j);
    }
  }

  lemma {:induction false} SameClass(a: seq<nat>, b: seq<nat>, l: nat, r: nat)
    requires |a| == |b| && forall i: nat :: i < |a| ==> (a[i] == l <==> b[i] == r)
    ensures ClassOf(a, l) == ClassOf(b, r)
  {
    if a != [] {
      SameClass(a[..|a| - 1], b[..|b| - 1], l, r);
    }
  }

  lemma {:induction false} SameClasses(a: seq<nat>, b: seq<nat>, k: nat)
    requires SameKernel(a, b) && k <= |a|
    ensures Classes(a, k) == Classes(b, k)
  {
    if k > 0 {
      SameClasses(a, b, k - 1);
      SameClass(a, b, a[k - 1], b[k - 1]);
      Met(a, k - 1);
      Met(b, k - 1);
    }
  }

  /** The form is canonical: two labellings of the same nodes have it in common exactly when they
      group the nodes alike, whatever labels they use. */
  lemma Canonical(a: seq<nat>, b: seq<nat>)
    requires |a| == |b|
    ensures PartitionOf(a) == PartitionOf(b) <==> SameKernel(a, b)
  {
    if SameKernel(a, b) {
      SameClasses(a, b, |a|);
    }
    if PartitionOf(a) == PartitionOf(b) {
      forall i: nat, j: nat | i < |a| && j < |a|
        ensures a[i] == a[j] <==> b[i] == b[j]
      {
        ShareClass(a, i, j);
        ShareClass(b, i, j);
      }
    }
  }

  /** Labels are equal exactly for mutually reachable nodes. */
  ghost predicate Decides(E: Edges, labels: seq<nat>) {
    forall i: nat, j: nat {:trigger SameComponent(E, i, j)} :: i < |labels| && j < |labels| ==>
      (labels[i] == labels[j] <==> SameComponent(E, i, j))
  }

  /** From such labels the parts are the components. */
  lemma PartsAreComponents(E: Edges, labels: seq<nat>, u: nat, v: nat)
    requires u < |labels| && v < |labels| && Decides(E, labels)
    ensures SameComponent(E, u, v) <==> exists part :: part in PartitionOf(labels) && u in part && v in part
  {
    ShareClass(labels, u, v);
  }

  /** All such labellings have one partition. */
  lemma DecidesCanonical(E: Edges, a: seq<nat>, b: seq<nat>)
    requires |a| == |b| && Decides(E, a) && Decides(E, b)
    ensures PartitionOf(a) == PartitionOf(b)
  {
    forall i: nat, j: nat | i < |a| && j < |a|
      ensures a[i] == a[j] <==> b[i] == b[j]
    {
      assert a[i] == a[j] <==> SameComponent(E, i, j);
    }
    Canonical(a, b);
  }

  // ---------------------------------------------------------------- grouping and sorting

  /** A part's smallest member decides its place: parts are disjoint and ascend. */
  function First(part: seq<nat>): int {
    if part == [] then -1 else part[0]
  }

  lemma {:induction false} ClassAscends(labels: seq<nat>, l: nat)
    ensures StrictlyBy(Number, ClassOf(labels, l))
  {
    if labels != [] {
      ClassAscends(labels[..|labels| - 1], l);
      var front := ClassOf(labels[..|labels| - 1], l);
      assert forall i :: 0 <= i < |front| ==> front[i] in front;
    }
  }

  lemma {:induction false} FirstOfClass(labels: seq<nat>, i: nat)
    requires i < |labels| && labels[i] !in labels[..i]
    ensures First(ClassOf(labels, labels[i])) == i
  {
    var part := ClassOf(labels, labels[i]);
    ClassMembers(labels, labels[i], i);
    ClassAscends(labels, labels[i]);
    assert part[0] in part;
    ClassMembers(labels, labels[i], part[0]);
    Met(labels, i);
    var j :| 0 <= j < |part| && part[j] == i;
    assert Number(part[0]) <= Number(part[j]);
  }

  /** The classes ascend by their smallest members. */
  lemma {:induction false} ClassesAscend(labels: seq<nat>, k: nat)
    requires k <= |labels|
    ensures StrictlyBy(First, Classes(labels, k))
    ensures forall part :: part in Classes(labels, k) ==> First(part) < k
  {
    if k > 0 {
      ClassesAscend(labels, k - 1);
      if labels[k - 1] !in labels[..k - 1] {
        FirstOfClass(labels, k - 1);
        AscendPush(Classes(labels, k - 1), ClassOf(labels, labels[k - 1]), k - 1);
      }
    }
  }

  lemma AscendPush(parts: seq<seq<nat>>, part: seq<nat>, k: nat)
    requires StrictlyBy(First, parts) && (forall p :: p in parts ==> First(p) < k) && First(part) == k
    ensures StrictlyBy(First, parts + [part]) && forall p :: p in parts + [part] ==> First(p) < k + 1
  {
    assert forall i :: 0 <= i < |parts| ==> parts[i] in parts;
  }

  /** Every label met so far has its class. */
  ghost predicate Grouped(groups: map<nat, seq<nat>>, labels: seq<nat>) {
    && (forall l: nat :: l in groups <==> l in labels)
    && forall l: nat :: l in groups ==> groups[l] == ClassOf(labels, l)
  }

  method GroupLabels(labels: seq<nat>) returns (groups: map<nat, seq<nat>>)
    ensures Grouped(groups, labels)
  {
    groups := map[];
    for i := 0 to |labels|
      invariant Grouped(groups, labels[..i])
    {
      var l := labels[i];
      assert labels[..i + 1] == labels[..i] + [l];
      GroupedPush(groups, labels[..i], l);
      groups := groups[l := (if l in groups then groups[l] else []) + [i]];
    }
    assert labels[..|labels|] == labels;
  }

  lemma GroupedPush(groups: map<nat, seq<nat>>, labels: seq<nat>, l: nat)
    requires Grouped(groups, labels)
    ensures Grouped(groups[l := (if l in groups then groups[l] else []) + [|labels|]], labels + [l])
  {
    var more := labels + [l];
    assert more[..|labels|] == labels;
    AbsentClass(labels, l);
  }

  lemma {:induction false} AbsentClass(labels: seq<nat>, l: nat)
    ensures l !in labels ==> ClassOf(labels, l) == []
  {
    if labels != [] {
      AbsentClass(labels[..|labels| - 1], l);
      SplitLast(labels);
    }
  }

  /** `parts` lists the class of each of `ls`, once. */
  ghost predicate ListsClasses(labels: seq<nat>, ls: set<nat>, parts: seq<seq<nat>>) {
    && (forall part {:trigger part in parts} :: part in parts <==> exists l: nat ::
        l in ls && part == ClassOf(labels, l))
    && forall i, j :: 0 <= i < j < |parts| ==> parts[i] != parts[j]
  }

  lemma AddClass(labels: seq<nat>, ls: set<nat>, parts: seq<seq<nat>>, l: nat)
    requires ListsClasses(labels, ls, parts) && l in labels && l !in ls
    ensures ListsClasses(labels, ls + {l}, parts + [ClassOf(labels, l)])
  {
    NewPart(labels, ls, l);
    var own := ClassOf(labels, l);
    assert own !in parts;
    forall part
      ensures part in parts + [own] <==> exists m: nat :: m in ls + {l} && part == ClassOf(labels, m)
    {
      if part in parts {
        var m: nat :| m in ls && part == ClassOf(labels, m);
        assert m in ls + {l};
      }
      if part == own {
        assert l in ls + {l};
      }
    }
  }

  lemma NewPart(labels: seq<nat>, done: set<nat>, l: nat)
    requires l in labels && l !in done
    ensures forall m: nat :: m in done ==> ClassOf(labels, m) != ClassOf(labels, l)
  {
    var i :| 0 <= i < |labels| && labels[i] == l;
    ClassMembers(labels, l, i);
    forall m: nat | m in done
      ensures ClassOf(labels, m) != ClassOf(labels, l)
    {
      ClassMembers(labels, m, i);
    }
  }

  ghost predicate Apart(all: set<nat>, done: set<nat>, rest: set<nat>) {
    done + rest == all && done !! rest
  }

  lemma TakeLabel(all: set<nat>, done: set<nat>, rest: set<nat>, l: nat)
    requires Apart(all, done, rest) && l in rest
    ensures Apart(all, done + {l}, rest - {l}) && l in all && l !in done
  {
  }

  lemma SortedGroup(groups: map<nat, seq<nat>>, labels: seq<nat>, l: nat)
    requires Grouped(groups, labels) && l in labels
    ensures l in groups && SortByKey(Number, groups[l]) == ClassOf(labels, l)
  {
    ClassAscends(labels, l);
    SortSorted(Number, groups[l]);
  }

  /** The groups as a list of sorted parts, in any order. */
  method Parts(groups: map<nat, seq<nat>>, labels: seq<nat>) returns (parts: seq<seq<nat>>)
    requires Grouped(groups, labels)
    ensures ListsClasses(labels, Members(labels), parts)
  {
    parts := [];
    var rest := groups.Keys;
    ghost var done: set<nat> := {};
    while rest != {}
      invariant Apart(Members(labels), done, rest) && ListsClasses(labels, done, parts)
      decreases rest
    {
      var l :| l in rest;
      TakeLabel(Members(labels), done, rest, l);
      SortedGroup(groups, labels, l);
      AddClass(labels, done, parts, l);
      parts := parts + [SortByKey(Number, groups[l])];
      rest, done := rest - {l}, done + {l};
    }
  }

  /** Group positions by label, sort each group, sort the groups. */
  method ComputePartition(labels: seq<nat>) returns (parts: seq<seq<nat>>)
    ensures parts == PartitionOf(labels)
  {
    var groups := GroupLabels(labels);
    var unsorted := Parts(groups, labels);
    parts := SortByKey(First, unsorted);
    SortedParts(labels, unsorted, parts);
  }

  /** The kernels' labels, grouped: two nodes share a part exactly when they reach each other, and any
      other labelling that decides this, however computed, has the same partition. */
  method ComponentPartition(g: GpuScc.Input) returns (parts: seq<seq<nat>>)
    requires g.Valid()
    ensures forall u: nat, v: nat :: u < g.n && v < g.n ==>
              (SameComponent(g.E(), u, v) <==> exists part :: part in parts && u in part && v in part)
    ensures forall labels: seq<nat> :: |labels| == g.n && Decides(g.E(), labels) ==> parts == PartitionOf(labels)
  {
    var labels, _, _ := GpuScc.SccGpu(g);
    parts := ComputePartition(labels[..]);
    forall u: nat, v: nat | u < g.n && v < g.n
      ensures SameComponent(g.E(), u, v) <==> exists part :: part in parts && u in part && v in part
    {
      PartsAreComponents(g.E(), labels[..], u, v);
    }
    forall other: seq<nat> | |other| == g.n && Decides(g.E(), other)
      ensures parts == PartitionOf(other)
    {
      DecidesCanonical(g.E(), labels[..], other);
    }
  }

  lemma SortedParts(labels: seq<nat>, unsorted: seq<seq<nat>>, parts: seq<seq<nat>>)
    requires parts == SortByKey(First, unsorted) && ListsClasses(labels, Members(labels), unsorted)
    ensures parts == PartitionOf(labels)
  {
    SortByKeySorted(First, unsorted);
    ClassesAscend(labels, |labels|);
    forall part
      ensures part in parts <==> part in PartitionOf(labels)
    {
      SameParts(labels, unsorted, parts, part);
    }
    DistinctFirsts(labels, unsorted, parts);
    SameAscending(First, parts, PartitionOf(labels));
  }

  lemma SameParts(labels: seq<nat>, unsorted: seq<seq<nat>>, parts: seq<seq<nat>>, part: seq<nat>)
    requires multiset(parts) == multiset(unsorted) && ListsClasses(labels, Members(labels), unsorted)
    ensures part in parts <==> part in PartitionOf(labels)
  {
    assert part in parts <==> part in multiset(parts);
    assert part in unsorted <==> part in multiset(unsorted);
    if part in unsorted {
      var l: nat :| l in Members(labels) && part == ClassOf(labels, l);
      var i :| 0 <= i < |labels| && labels[i] == l;
      ClassFound(labels, |labels|, i);
    }
    if part in PartitionOf(labels) {
      var h := ClassIndex(labels, |labels|, part);
      assert labels[h] in Members(labels);
    }
  }

  /** Different parts have different smallest members, so sorting them leaves no ties. */
  lemma DistinctFirsts(labels: seq<nat>, unsorted: seq<seq<nat>>, parts: seq<seq<nat>>)
    requires SortedBy(First, parts) && multiset(parts) == multiset(unsorted)
    requires forall i, j :: 0 <= i < j < |unsorted| ==> unsorted[i] != unsorted[j]
    requires forall part :: part in parts ==> part in PartitionOf(labels)
    ensures StrictlyBy(First, parts)
  {
    ClassesAscend(labels, |labels|);
    forall i, j | 0 <= i < j < |parts|
      ensures First(parts[i]) < First(parts[j])
    {
      NoRepeats(unsorted, parts, i, j);
      assert parts[i] in parts && parts[j] in parts;
      var all := PartitionOf(labels);
      var a :| 0 <= a < |all| && all[a] == parts[i];
      var b :| 0 <= b < |all| && all[b] == parts[j];
      assert First(parts[i]) <= First(parts[j]);
      assert a < b || b < a;
    }
  }
}
