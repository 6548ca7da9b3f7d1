/** Stable sorting by a key, ascending lists, and dropping repetitions. */
module Sorting {
  import opened Graphs

  ghost predicate SortedBy<T(!new)>(key: T -> int, s: seq<T>) {
    forall i, j :: 0 <= i < j < |s| ==> key(s[i]) <= key(s[j])
  }

  /** Place `x` after every element whose key is not larger. */
  function InsertByKey<T>(key: T -> int, s: seq<T>, x: T): seq<T> {
    if s == [] || key(s[|s| - 1]) <= key(x) then s + [x]
    else InsertByKey(key, s[..|s| - 1], x) + [s[|s| - 1]]
  }

  function SortByKey<T>(key: T -> int, s: seq<T>): seq<T> {
    if s == [] then [] else InsertByKey(key, SortByKey(key, s[..|s| - 1]), s[|s| - 1])
  }

  lemma {:induction false} InsertByKeyElements<T>(key: T -> int, s: seq<T>, x: T)
    ensures multiset(InsertByKey(key, s, x)) == multiset(s) + multiset{x}
  {
    if s != [] && key(s[|s| - 1]) > key(x) {
      InsertByKeyElements(key, s[..|s| - 1], x);
      SplitLast(s);
    }
  }

  lemma {:induction false} InsertByKeySorted<T(!new)>(key: T -> int, s: seq<T>, x: T)
    requires SortedBy(key, s)
    ensures SortedBy(key, InsertByKey(key, s, x))
  {
    if s != [] && key(s[|s| - 1]) > key(x) {
      var rest, last := s[..|s| - 1], s[|s| - 1];
      InsertByKeySorted(key, rest, x);
      InsertByKeyElements(key, rest, x);
      var r := InsertByKey(key, rest, x);
      forall i | 0 <= i < |r|
        ensures key(r[i]) <= key(last)
      {
        assert r[i] in multiset(r);
        assert r[i] == x || r[i] in multiset(rest);
      }
    }
  }

  lemma {:induction false} SortByKeySorted<T(!new)>(key: T -> int, s: seq<T>)
    ensures SortedBy(key, SortByKey(key, s))
    ensures multiset(SortByKey(key, s)) == multiset(s)
  {
    if s != [] {
      SortByKeySorted(key, s[..|s| - 1]);
      InsertByKeySorted(key, SortByKey(key, s[..|s| - 1]), s[|s| - 1]);
      InsertByKeyElements(key, SortByKey(key, s[..|s| - 1]), s[|s| - 1]);
      SplitLast(s);
    }
  }

  function Number(x: nat): int {
    x
  }

  ghost predicate StrictlyBy<T(!new)>(key: T -> int, s: seq<T>) {
    forall i, j :: 0 <= i < j < |s| ==> key(s[i]) < key(s[j])
  }

  /** Sorting what is sorted changes nothing. */
  lemma {:induction false} SortSorted<T(!new)>(key: T -> int, s: seq<T>)
    requires SortedBy(key, s)
    ensures SortByKey(key, s) == s
  {
    if s != [] {
      SortSorted(key, s[..|s| - 1]);
      if |s| > 1 {
        assert key(s[|s| - 2]) <= key(s[|s| - 1]);
      }
      SplitLast(s);
    }
  }

  lemma BelowLast<T(!new)>(key: T -> int, s: seq<T>, y: T)
    requires StrictlyBy(key, s) && s != []
    ensures y in s[..|s| - 1] <==> y in s && y != s[|s| - 1]
  {
    var front, last := s[..|s| - 1], s[|s| - 1];
    assert s == front + [last];
    if y in front {
      var i :| 0 <= i < |front| && front[i] == y;
      assert key(s[i]) < key(last);
    }
  }

  lemma EmptyAlike<T(!new)>(a: seq<T>, b: seq<T>)
    requires forall x :: x in a <==> x in b
    ensures a == [] <==> b == []
  {
    if a != [] {
      assert a[0] in b;
    }
    if b != [] {
      assert b[0] in a;
    }
  }

  /** Strictly ascending lists of the same elements are the same list. */
  lemma {:induction false} SameAscending<T(!new)>(key: T -> int, a: seq<T>, b: seq<T>)
    requires StrictlyBy(key, a) && StrictlyBy(key, b) && forall x :: x in a <==> x in b
    ensures a == b
  {
    EmptyAlike(a, b);
    if a != [] {
      var x := a[|a| - 1];
      assert x in a;
      var j :| 0 <= j < |b| && b[j] == x;
      assert b[|b| - 1] in b;
      assert key(b[j]) <= key(b[|b| - 1]) <= key(x);
      assert b[|b| - 1] == x;
      var ra, rb := a[..|a| - 1], b[..|b| - 1];
      forall y
        ensures y in ra <==> y in rb
      {
        BelowLast(key, a, y);
        BelowLast(key, b, y);
      }
      SameAscending(key, ra, rb);
    }
  }

  // ---------------------------------------------------------------- ascending numbers

  ghost predicate Ascending(s: seq<nat>) {
    forall i, j :: 0 <= i < j < |s| ==> s[i] < s[j]
  }

  predicate IsLeast(s: set<nat>, m: nat) {
    m in s && forall x :: x in s ==> m <= x
  }

  lemma {:induction false} LeastExists(s: set<nat>)
    requires s != {}
    ensures exists m :: IsLeast(s, m)
  {
    var m :| m in s;
    var rest := s - {m};
    if rest == {} {
      assert s == {m};
      assert IsLeast(s, m);
    } else {
      LeastExists(rest);
      var k :| IsLeast(rest, k);
      AddLeast(s, m, k);
    }
  }

  lemma AddLeast(s: set<nat>, m: nat, k: nat)
    requires m in s && IsLeast(s - {m}, k)
    ensures IsLeast(s, if k < m then k else m)
  {
    forall x | x in s
      ensures m <= x || k <= x
    {
      assert x == m || x in s - {m};
    }
  }

  /** `vs` lists the members of `s` below those `left`, ascending. */
  ghost predicate Listed(s: set<nat>, left: set<nat>, vs: seq<nat>) {
    && Ascending(vs)
    && (forall v :: v in s <==> v in vs || v in left)
    && forall v, w :: v in vs && w in left ==> v < w
  }

  lemma ListLeast(s: set<nat>, left: set<nat>, vs: seq<nat>, m: nat)
    requires Listed(s, left, vs) && IsLeast(left, m)
    ensures Listed(s, left - {m}, vs + [m])
  {
    assert forall i :: 0 <= i < |vs| ==> vs[i] in vs;
  }

  /** The members of a set in ascending order. */
  method AscendingOf(s: set<nat>) returns (vs: seq<nat>)
    ensures Ascending(vs)
    ensures forall v :: v in vs <==> v in s
  {
    vs := [];
    var left := s;
    while left != {}
      invariant Listed(s, left, vs)
      decreases left
    {
      LeastExists(left);
      var m :| m in left && IsLeast(left, m);
      ListLeast(s, left, vs, m);
      vs, left := vs + [m], left - {m};
    }
  }

  lemma SameMembers(a: seq<nat>, b: seq<nat>)
    requires multiset(a) == multiset(b)
    ensures Members(a) == Members(b)
  {
    forall x
      ensures x in a <==> x in b
    {
      assert x in a <==> x in multiset(a);
      assert x in b <==> x in multiset(b);
    }
  }

  /** Drop repeats of equal neighbours. */
  function Dedup(s: seq<nat>): seq<nat> {
    if |s| <= 1 then s
    else if s[|s| - 2] == s[|s| - 1] then Dedup(s[..|s| - 1])
    else Dedup(s[..|s| - 1]) + [s[|s| - 1]]
  }

  lemma {:induction false} DedupMembers(s: seq<nat>)
    ensures Members(Dedup(s)) == Members(s)
    ensures s != [] ==> Dedup(s) != [] && Dedup(s)[|Dedup(s)| - 1] == s[|s| - 1]
  {
    if |s| > 1 {
      var rest, last := s[..|s| - 1], s[|s| - 1];
      DedupMembers(rest);
      SplitLast(s);
      MembersPush(rest, last);
      if s[|s| - 2] == last {
        assert rest[|rest| - 1] == last;
        assert last in rest;
      } else {
        MembersPush(Dedup(rest), last);
      }
    }
  }

  lemma {:induction false} DedupSorted(s: seq<nat>)
    requires SortedBy(Number, s)
    ensures Ascending(Dedup(s))
  {
    if |s| > 1 {
      var rest, last := s[..|s| - 1], s[|s| - 1];
      assert forall i, j :: 0 <= i < j < |rest| ==>
          Number(rest[i]) == Number(s[i]) && Number(rest[j]) == Number(s[j]);
      DedupSorted(rest);
      DedupMembers(rest);
      var d := Dedup(rest);
      forall i | 0 <= i < |d|
        ensures s[|s| - 2] != last ==> d[i] < last
      {
        assert d[i] <= d[|d| - 1];
        assert Number(s[|s| - 2]) <= Number(last);
      }
    }
  }

  /** Sorting and dropping repeats lists every member once, ascending. */
  lemma SortDedup(s: seq<nat>)
    ensures Ascending(Dedup(SortByKey(Number, s))) && Members(Dedup(SortByKey(Number, s))) == Members(s)
  {
    var sorted := SortByKey(Number, s);
    SortByKeySorted(Number, s);
    SameMembers(sorted, s);
    DedupSorted(sorted);
    DedupMembers(sorted);
  }

  /** Sorting distinct numbers makes them ascend. */
  lemma SortDistinct(s: seq<nat>)
    requires Distinct(s)
    ensures Ascending(SortByKey(Number, s)) && multiset(SortByKey(Number, s)) == multiset(s)
  {
    var sorted := SortByKey(Number, s);
    SortByKeySorted(Number, s);
    forall i, j | 0 <= i < j < |sorted|
      ensures sorted[i] < sorted[j]
    {
      assert Number(sorted[i]) <= Number(sorted[j]);
      NoRepeats(s, sorted, i, j);
    }
  }

  lemma NoRepeats<T>(s: seq<T>, t: seq<T>, i: nat, j: nat)
    requires multiset(s) == multiset(t) && i < j < |t|
    requires forall a, b :: 0 <= a < b < |s| ==> s[a] != s[b]
    ensures t[i] != t[j]
  {
    if t[i] == t[j] {
      TwiceCounts(t, i, j);
      OnceCounts(s, t[i]);
      assert false;
    }
  }

  lemma TwiceCounts<T>(t: seq<T>, i: nat, j: nat)
    requires i < j < |t| && t[i] == t[j]
    ensures multiset(t)[t[i]] >= 2
  {
    assert t == t[..j] + [t[j]] + t[j + 1..];
    assert t[..j][i] == t[i];
    assert t[i] in multiset(t[..j]);
  }

  lemma {:induction false} OnceCounts<T>(s: seq<T>, x: T)
    requires forall a, b :: 0 <= a < b < |s| ==> s[a] != s[b]
    ensures multiset(s)[x] <= 1
  {
    if s != [] {
      var front, last := s[..|s| - 1], s[|s| - 1];
      assert s == front + [last];
      OnceCounts(front, x);
      if x == last {
        assert x !in front;
      }
    }
  }
}
