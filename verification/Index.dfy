/** Derived lookup indices over the live nodes of a code graph. */
module Index {
  import opened ModulePaths

  datatype NodeKind =
    | Function | Struct | Enum | Module | Trait | EnumVariant | Field | TypeAlias | Constant | Interface

  type NodeId = nat

  datatype NodeData = NodeData(id: NodeId, kind: NodeKind, name: string, qualifiedName: string,
                               metadata: map<string, string>)

  type Key = (NodeKind, string)
  type KindNames = map<Key, seq<NodeId>>
  type Buckets = map<string, set<NodeId>>

  /** The live nodes, by id. */
  type Live = map<NodeId, NodeData>

  ghost predicate ValidLive(live: Live) {
    forall id :: id in live ==> live[id].id == id
  }

  function KeyOf(d: NodeData): Key {
    (d.kind, d.name)
  }

  function ModuleOf(d: NodeData): string {
    ModulePathOf(d.qualifiedName)
  }

  function ListAt(kn: KindNames, key: Key): seq<NodeId> {
    if key in kn then kn[key] else []
  }

  function SetAt(b: Buckets, k: string): set<NodeId> {
    if k in b then b[k] else {}
  }

  // ---------------------------------------------------------------- what the indices should hold

  ghost predicate NamedIn(live: Live, key: Key, id: NodeId) {
    id in live && KeyOf(live[id]) == key
  }

  ghost predicate TaggedIn(live: Live, k: string, id: NodeId) {
    id in live && k in live[id].metadata
  }

  ghost predicate PlacedIn(live: Live, path: string, id: NodeId) {
    id in live && ModuleOf(live[id]) == path
  }

  /** Each live node is listed once, under its kind and name; no list is empty. */
  ghost predicate KindNamesFit(kn: KindNames, live: Live) {
    && (forall key {:trigger key in kn} :: key in kn ==> kn[key] != [])
    && forall key, id {:trigger NamedIn(live, key, id)} ::
         multiset(ListAt(kn, key))[id] == if NamedIn(live, key, id) then 1 else 0
  }

  ghost predicate MetadataFits(mk: Buckets, live: Live) {
    && (forall k {:trigger k in mk} :: k in mk ==> mk[k] != {})
    && forall k, id {:trigger TaggedIn(live, k, id)} :: id in SetAt(mk, k) <==> TaggedIn(live, k, id)
  }

  ghost predicate ModulesFit(mp: Buckets, live: Live) {
    && (forall k {:trigger k in mp} :: k in mp ==> mp[k] != {})
    && forall k, id {:trigger PlacedIn(live, k, id)} :: id in SetAt(mp, k) <==> PlacedIn(live, k, id)
  }

  /** The three indices describe the live nodes. */
  ghost predicate Fits(kn: KindNames, mk: Buckets, mp: Buckets, live: Live) {
    ValidLive(live) && KindNamesFit(kn, live) && MetadataFits(mk, live) && ModulesFit(mp, live)
  }

  /** The same lists under the same keys, up to their order. */
  ghost predicate SameLists(kn: KindNames, kn': KindNames) {
    kn.Keys == kn'.Keys && forall key :: key in kn ==> multiset(kn[key]) == multiset(kn'[key])
  }

  /** Indices that describe the same nodes are the same, up to the order within a list. */
  lemma FitsDetermines(kn: KindNames, mk: Buckets, mp: Buckets, kn': KindNames, mk': Buckets, mp': Buckets, live: Live)
    requires Fits(kn, mk, mp, live) && Fits(kn', mk', mp', live)
    ensures mk == mk' && mp == mp'
    ensures SameLists(kn, kn')
  {
    forall k: string
      ensures SetAt(mk, k) == SetAt(mk', k) && SetAt(mp, k) == SetAt(mp', k)
    {
      forall id: NodeId
        ensures id in SetAt(mk, k) <==> id in SetAt(mk', k)
        ensures id in SetAt(mp, k) <==> id in SetAt(mp', k)
      {
        assert TaggedIn(live, k, id) || !TaggedIn(live, k, id);
        assert PlacedIn(live, k, id) || !PlacedIn(live, k, id);
      }
    }
    SameBuckets(mk, mk');
    SameBuckets(mp, mp');
    forall key: Key
      ensures multiset(ListAt(kn, key)) == multiset(ListAt(kn', key))
    {
      forall id: NodeId
        ensures multiset(ListAt(kn, key))[id] == multiset(ListAt(kn', key))[id]
      {
        assert NamedIn(live, key, id) || !NamedIn(live, key, id);
      }
    }
    ListsAgree(kn, kn');
  }

  lemma SameBuckets(b: Buckets, b': Buckets)
    requires forall k: string :: SetAt(b, k) == SetAt(b', k)
    requires (forall k :: k in b ==> b[k] != {}) && (forall k :: k in b' ==> b'[k] != {})
    ensures b == b'
  {
    forall k: string
      ensures k in b <==> k in b'
      ensures k in b && k in b' ==> b[k] == b'[k]
    {
      assert SetAt(b, k) == SetAt(b', k);
    }
  }

  lemma ListsAgree(kn: KindNames, kn': KindNames)
    requires forall key: Key :: multiset(ListAt(kn, key)) == multiset(ListAt(kn', key))
    requires (forall key :: key in kn ==> kn[key] != []) && (forall key :: key in kn' ==> kn'[key] != [])
    ensures kn.Keys == kn'.Keys && forall key :: key in kn ==> multiset(kn[key]) == multiset(kn'[key])
  {
    forall key: Key
      ensures key in kn <==> key in kn'
    {
      assert multiset(ListAt(kn, key)) == multiset(ListAt(kn', key));
      assert |multiset(ListAt(kn, key))| == |ListAt(kn, key)|;
      assert |multiset(ListAt(kn', key))| == |ListAt(kn', key)|;
    }
    forall key | key in kn
      ensures multiset(kn[key]) == multiset(kn'[key])
    {
      assert multiset(ListAt(kn, key)) == multiset(ListAt(kn', key));
    }
  }

  // ---------------------------------------------------------------- effects

  function Without(ids: seq<NodeId>, id: NodeId): (r: seq<NodeId>) {
    if ids == [] then []
    else Without(ids[..|ids| - 1], id) + if ids[|ids| - 1] == id then [] else [ids[|ids| - 1]]
  }

  lemma {:induction false} WithoutCounts(ids: seq<NodeId>, id: NodeId, other: NodeId)
    ensures multiset(Without(ids, id))[other] == if other == id then 0 else multiset(ids)[other]
  {
    if ids != [] {
      var front, last := ids[..|ids| - 1], ids[|ids| - 1];
      assert ids == front + [last];
      WithoutCounts(front, id, other);
    }
  }

  function KindNameInsert(kn: KindNames, d: NodeData): KindNames {
    kn[KeyOf(d) := ListAt(kn, KeyOf(d)) + [d.id]]
  }

  function KindNameRemove(kn: KindNames, d: NodeData): KindNames {
    if KeyOf(d) !in kn then kn
    else
      var bucket := Without(kn[KeyOf(d)], d.id);
      if bucket == [] then kn - {KeyOf(d)} else kn[KeyOf(d) := bucket]
  }

  function BucketInsert(b: Buckets, k: string, id: NodeId): Buckets {
    b[k := SetAt(b, k) + {id}]
  }

  function BucketRemove(b: Buckets, k: string, id: NodeId): Buckets {
    if k !in b then b
    else if b[k] - {id} == {} then b - {k}
    else b[k := b[k] - {id}]
  }

  /** Adds `id` under each of `keys`. */
  ghost predicate InsertedUnder(b: Buckets, b': Buckets, keys: set<string>, id: NodeId) {
    && (forall k: string {:trigger k in b'} :: k in b' <==> k in b || k in keys)
    && forall k: string {:trigger SetAt(b', k)} :: SetAt(b', k) == SetAt(b, k) + if k in keys then {id} else {}
  }

  /** Drops `id` under each of `keys`, and the buckets that leaves empty. */
  ghost predicate RemovedUnder(b: Buckets, b': Buckets, keys: set<string>, id: NodeId) {
    && (forall k: string {:trigger SetAt(b', k)} :: SetAt(b', k) == SetAt(b, k) - if k in keys then {id} else {})
    && (forall k: string {:trigger k in b'} :: k in b' <==> k in b && (k in keys ==> b[k] - {id} != {}))
  }

  lemma KindNameInsertFits(kn: KindNames, live: Live, d: NodeData)
    requires KindNamesFit(kn, live) && d.id !in live
    ensures KindNamesFit(KindNameInsert(kn, d), live[d.id := d])
  {
    var kn', live' := KindNameInsert(kn, d), live[d.id := d];
    forall key, id: NodeId
      ensures multiset(ListAt(kn', key))[id] == if NamedIn(live', key, id) then 1 else 0
    {
      KindNameInsertAt(kn, d, key, id);
      NamedInsert(live, d, key, id);
      assert multiset(ListAt(kn, key))[id] == if NamedIn(live, key, id) then 1 else 0;
    }
  }

  lemma KindNameInsertAt(kn: KindNames, d: NodeData, key: Key, id: NodeId)
    ensures multiset(ListAt(KindNameInsert(kn, d), key))[id] ==
            multiset(ListAt(kn, key))[id] + if key == KeyOf(d) && id == d.id then 1 else 0
  {
    var list := ListAt(kn, KeyOf(d));
    var more := list + [d.id];
    assert multiset(more) == multiset(list) + multiset{d.id};
  }

  lemma NamedInsert(live: Live, d: NodeData, key: Key, id: NodeId)
    requires d.id !in live
    ensures NamedIn(live[d.id := d], key, id) <==> NamedIn(live, key, id) || (key == KeyOf(d) && id == d.id)
    ensures !NamedIn(live, key, d.id)
  {
  }

  lemma KindNameRemoveAt(kn: KindNames, d: NodeData, key: Key, id: NodeId)
    ensures multiset(ListAt(KindNameRemove(kn, d), key))[id] ==
            if key == KeyOf(d) && id == d.id then 0 else multiset(ListAt(kn, key))[id]
  {
    if KeyOf(d) in kn {
      WithoutCounts(kn[KeyOf(d)], d.id, id);
    }
  }

  lemma KindNameRemoveFits(kn: KindNames, live: Live, d: NodeData)
    requires KindNamesFit(kn, live) && d.id in live && live[d.id] == d
    ensures KindNamesFit(KindNameRemove(kn, d), live - {d.id})
  {
    forall key, id: NodeId
      ensures multiset(ListAt(KindNameRemove(kn, d), key))[id] == if NamedIn(live - {d.id}, key, id) then 1 else 0
    {
      KindNameRemoveAt(kn, d, key, id);
      assert multiset(ListAt(kn, key))[id] == if NamedIn(live, key, id) then 1 else 0;
    }
  }

  lemma MetadataInsertFits(mk: Buckets, mk': Buckets, live: Live, d: NodeData)
    requires MetadataFits(mk, live) && d.id !in live && InsertedUnder(mk, mk', d.metadata.Keys, d.id)
    ensures MetadataFits(mk', live[d.id := d])
  {
    InsertedNonEmpty(mk, mk', d.metadata.Keys, d.id);
    forall k, id: NodeId
      ensures id in SetAt(mk', k) <==> TaggedIn(live[d.id := d], k, id)
    {
      assert id in SetAt(mk, k) <==> TaggedIn(live, k, id);
    }
  }

  lemma InsertedNonEmpty(b: Buckets, b': Buckets, keys: set<string>, id: NodeId)
    requires InsertedUnder(b, b', keys, id) && forall k :: k in b ==> b[k] != {}
    ensures forall k :: k in b' ==> b'[k] != {}
  {
    forall k | k in b'
      ensures b'[k] != {}
    {
      assert SetAt(b', k) == SetAt(b, k) + if k in keys then {id} else {};
      if k in keys {
        assert id in b'[k];
      }
    }
  }

  lemma MetadataRemoveFits(mk: Buckets, mk': Buckets, live: Live, d: NodeData)
    requires MetadataFits(mk, live) && d.id in live && live[d.id] == d && RemovedUnder(mk, mk', d.metadata.Keys, d.id)
    ensures MetadataFits(mk', live - {d.id})
  {
    RemovedNonEmpty(mk, mk', d.metadata.Keys, d.id);
    forall k, id: NodeId
      ensures id in SetAt(mk', k) <==> TaggedIn(live - {d.id}, k, id)
    {
      assert id in SetAt(mk, k) <==> TaggedIn(live, k, id);
    }
  }

  lemma RemovedNonEmpty(b: Buckets, b': Buckets, keys: set<string>, id: NodeId)
    requires RemovedUnder(b, b', keys, id) && forall k :: k in b ==> b[k] != {}
    ensures forall k :: k in b' ==> b'[k] != {}
  {
    forall k | k in b'
      ensures b'[k] != {}
    {
      assert SetAt(b', k) == SetAt(b, k) - if k in keys then {id} else {};
    }
  }

  lemma ModuleInsertFits(mp: Buckets, live: Live, d: NodeData)
    requires ModulesFit(mp, live) && d.id !in live
    ensures ModulesFit(BucketInsert(mp, ModuleOf(d), d.id), live[d.id := d])
  {
    var mp' := BucketInsert(mp, ModuleOf(d), d.id);
    InsertedNonEmpty(mp, mp', {ModuleOf(d)}, d.id);
    forall k, id: NodeId
      ensures id in SetAt(mp', k) <==> PlacedIn(live[d.id := d], k, id)
    {
      assert id in SetAt(mp, k) <==> PlacedIn(live, k, id);
    }
  }

  lemma ModuleRemoveFits(mp: Buckets, live: Live, d: NodeData)
    requires ModulesFit(mp, live) && d.id in live && live[d.id] == d
    ensures ModulesFit(BucketRemove(mp, ModuleOf(d), d.id), live - {d.id})
  {
    var mp' := BucketRemove(mp, ModuleOf(d), d.id);
    forall k, id: NodeId
      ensures id in SetAt(mp', k) <==> PlacedIn(live - {d.id}, k, id)
    {
      assert id in SetAt(mp, k) <==> PlacedIn(live, k, id);
    }
  }

  /** Inserting a node that is not live. */
  lemma InsertKeepsFit(kn: KindNames, mk: Buckets, mp: Buckets, live: Live, d: NodeData)
    requires Fits(kn, mk, mp, live) && d.id !in live
    ensures forall mk' {:trigger InsertedUnder(mk, mk', d.metadata.Keys, d.id)} ::
              InsertedUnder(mk, mk', d.metadata.Keys, d.id) ==>
                Fits(KindNameInsert(kn, d), mk', BucketInsert(mp, ModuleOf(d), d.id), live[d.id := d])
  {
    KindNameInsertFits(kn, live, d);
    ModuleInsertFits(mp, live, d);
    forall mk' | InsertedUnder(mk, mk', d.metadata.Keys, d.id)
      ensures MetadataFits(mk', live[d.id := d])
    {
      MetadataInsertFits(mk, mk', live, d);
    }
  }

  /** Removing a live node, given the data it was inserted with. */
  lemma RemoveKeepsFit(kn: KindNames, mk: Buckets, mp: Buckets, live: Live, d: NodeData)
    requires Fits(kn, mk, mp, live) && d.id in live && live[d.id] == d
    ensures forall mk' {:trigger RemovedUnder(mk, mk', d.metadata.Keys, d.id)} ::
              RemovedUnder(mk, mk', d.metadata.Keys, d.id) ==>
                Fits(KindNameRemove(kn, d), mk', BucketRemove(mp, ModuleOf(d), d.id), live - {d.id})
  {
    KindNameRemoveFits(kn, live, d);
    ModuleRemoveFits(mp, live, d);
    forall mk' | RemovedUnder(mk, mk', d.metadata.Keys, d.id)
      ensures MetadataFits(mk', live - {d.id})
    {
      MetadataRemoveFits(mk, mk', live, d);
    }
  }

  /** Repeating an insert leaves the two set indices alone and lists the node a second time. */
  lemma RepeatedInsert(kn: KindNames, mp: Buckets, d: NodeData)
    ensures BucketInsert(BucketInsert(mp, ModuleOf(d), d.id), ModuleOf(d), d.id) == BucketInsert(mp, ModuleOf(d), d.id)
    ensures forall mk: Buckets, once: Buckets, twice: Buckets ::
              InsertedUnder(mk, once, d.metadata.Keys, d.id) && InsertedUnder(once, twice, d.metadata.Keys, d.id) ==>
                  once == twice
    ensures multiset(ListAt(KindNameInsert(KindNameInsert(kn, d), d), KeyOf(d)))[d.id] ==
            multiset(ListAt(KindNameInsert(kn, d), KeyOf(d)))[d.id] + 1
    ensures KindNameInsert(KindNameInsert(kn, d), d) != KindNameInsert(kn, d)
  {
    var one, two := KindNameInsert(kn, d), KindNameInsert(KindNameInsert(kn, d), d);
    assert multiset(ListAt(two, KeyOf(d))) == multiset(ListAt(one, KeyOf(d))) + multiset{d.id};
    forall mk: Buckets, once: Buckets, twice: Buckets
      | InsertedUnder(mk, once, d.metadata.Keys, d.id) && InsertedUnder(once, twice, d.metadata.Keys, d.id)
      ensures once == twice
    {
      InsertedTwice(mk, once, twice, d.metadata.Keys, d.id);
    }
  }

  lemma InsertedTwice(mk: Buckets, once: Buckets, twice: Buckets, keys: set<string>, id: NodeId)
    requires InsertedUnder(mk, once, keys, id) && InsertedUnder(once, twice, keys, id)
    ensures once == twice
  {
    forall k | k in once
      ensures k in twice && once[k] == twice[k]
    {
      assert SetAt(twice, k) == SetAt(once, k) + if k in keys then {id} else {};
      assert SetAt(once, k) == SetAt(mk, k) + if k in keys then {id} else {};
    }
  }

  // ---------------------------------------------------------------- bucket loops

  lemma TakeKey(keys: set<string>, done: set<string>, rest: set<string>, k: string)
    requires done + rest == keys && done !! rest && k in rest
    ensures (done + {k}) + (rest - {k}) == keys && (done + {k}) !! (rest - {k})
  {
  }

  lemma AddStep(b: Buckets, b': Buckets, done: set<string>, k: string, id: NodeId)
    requires InsertedUnder(b, b', done, id)
    ensures InsertedUnder(b, BucketInsert(b', k, id), done + {k}, id)
  {
    var b'' := BucketInsert(b', k, id);
    forall l: string
      ensures SetAt(b'', l) == SetAt(b, l) + if l in done + {k} then {id} else {}
    {
      assert SetAt(b', l) == SetAt(b, l) + if l in done then {id} else {};
    }
  }

  /** Adds `id` to the bucket of each key, in any order. */
  method AddUnder(b: Buckets, keys: set<string>, id: NodeId) returns (b': Buckets)
    ensures InsertedUnder(b, b', keys, id)
  {
    b' := b;
    var rest := keys;
    ghost var done: set<string> := {};
    while rest != {}
      invariant done + rest == keys && done !! rest && InsertedUnder(b, b', done, id)
      decreases |rest|
    {
      var k :| k in rest;
      TakeKey(keys, done, rest, k);
      AddStep(b, b', done, k, id);
      b' := BucketInsert(b', k, id);
      rest, done := rest - {k}, done + {k};
    }
    assert done == keys;
  }

  /** Removes `id` from one bucket, and the bucket when that empties it. */
  method DropFrom(b: Buckets, k: string, id: NodeId) returns (b': Buckets)
    ensures b' == BucketRemove(b, k, id)
  {
    b' := b;
    if k in b {
      var bucket := b[k] - {id};
      if bucket == {} {
        b' := b - {k};
      } else {
        b' := b[k := bucket];
      }
    }
  }

  lemma DropStep(b: Buckets, b': Buckets, done: set<string>, k: string, id: NodeId)
    requires RemovedUnder(b, b', done, id) && k !in done
    ensures RemovedUnder(b, BucketRemove(b', k, id), done + {k}, id)
  {
    var b'' := BucketRemove(b', k, id);
    forall l: string
      ensures SetAt(b'', l) == SetAt(b, l) - if l in done + {k} then {id} else {}
      ensures l in b'' <==> l in b && (l in done + {k} ==> b[l] - {id} != {})
    {
      assert SetAt(b', l) == SetAt(b, l) - if l in done then {id} else {};
    }
  }

  method DropUnder(b: Buckets, keys: set<string>, id: NodeId) returns (b': Buckets)
    ensures RemovedUnder(b, b', keys, id)
  {
    b' := b;
    var rest := keys;
    ghost var done: set<string> := {};
    while rest != {}
      invariant done + rest == keys && done !! rest && RemovedUnder(b, b', done, id)
      decreases |rest|
    {
      var k :| k in rest;
      TakeKey(keys, done, rest, k);
      DropStep(b, b', done, k, id);
      b' := DropFrom(b', k, id);
      rest, done := rest - {k}, done + {k};
    }
    assert done == keys;
  }

  // ---------------------------------------------------------------- the index object

  class Indices {
    var byKindName: KindNames
    var byMetadataKey: Buckets
    var byModulePath: Buckets

    /** The indices describe exactly these live nodes. */
    ghost predicate Describes(live: Live)
      reads this
    {
      Fits(byKindName, byMetadataKey, byModulePath, live)
    }

    constructor ()
      ensures byKindName == map[] && byMetadataKey == map[] && byModulePath == map[]
      ensures Describes(map[])
    {
      byKindName, byMetadataKey, byModulePath := map[], map[], map[];
    }

    /** Lists the node once more under its kind and name, and puts it in its metadata and module
        buckets. */
    method InsertNode(d: NodeData)
      modifies this
      ensures byKindName == KindNameInsert(old(byKindName), d)
      ensures InsertedUnder(old(byMetadataKey), byMetadataKey, d.metadata.Keys, d.id)
      ensures byModulePath == BucketInsert(old(byModulePath), ModuleOf(d), d.id)
    {
      byKindName := byKindName[KeyOf(d) := ListAt(byKindName, KeyOf(d)) + [d.id]];
      byMetadataKey := AddUnder(byMetadataKey, d.metadata.Keys, d.id);
      byModulePath := byModulePath[ModuleOf(d) := SetAt(byModulePath, ModuleOf(d)) + {d.id}];
    }

    /** Drops the node from every bucket its data names, and the buckets left empty. */
    method RemoveNode(d: NodeData)
      modifies this
      ensures byKindName == KindNameRemove(old(byKindName), d)
      ensures RemovedUnder(old(byMetadataKey), byMetadataKey, d.metadata.Keys, d.id)
      ensures byModulePath == BucketRemove(old(byModulePath), ModuleOf(d), d.id)
    {
      if KeyOf(d) in byKindName {
        var bucket := Without(byKindName[KeyOf(d)], d.id);
        if bucket == [] {
          byKindName := byKindName - {KeyOf(d)};
        } else {
          byKindName := byKindName[KeyOf(d) := bucket];
        }
      }
      byMetadataKey := DropUnder(byMetadataKey, d.metadata.Keys, d.id);
      byModulePath := DropFrom(byModulePath, ModuleOf(d), d.id);
    }

    /** Inserting a node that is not live keeps the description. */
    method InsertNew(d: NodeData, ghost live: Live)
      requires Describes(live) && d.id !in live
      modifies this
      ensures Describes(live[d.id := d])
    {
      InsertKeepsFit(byKindName, byMetadataKey, byModulePath, live, d);
      InsertNode(d);
    }

    /** Clears everything and inserts every live node, in any order. */
    method Rebuild(live: Live)
      requires ValidLive(live)
      modifies this
      ensures Describes(live)
    {
      byKindName, byMetadataKey, byModulePath := map[], map[], map[];
      var rest := live.Keys;
      ghost var done: Live := map[];
      while rest != {}
        invariant rest <= live.Keys
        invariant done == map id | id in live && id !in rest :: live[id]
        invariant Describes(done)
        decreases |rest|
      {
        var id :| id in rest;
        InsertNew(live[id], done);
        rest := rest - {id};
        done := done[id := live[id]];
      }
      assert done == live;
    }
  }

  // ---------------------------------------------------------------- the graph's mutations

  /** The node store with its indices. */
  class CodeGraph {
    var live: Live
    const indices: Indices

    ghost predicate Valid()
      reads this, indices
    {
      indices.Describes(live)
    }

    constructor ()
      ensures Valid() && live == map[] && fresh(indices)
    {
      live := map[];
      indices := new Indices();
    }

    /** Adds a node; a node with the same id is overwritten: removed, then inserted. */
    method AddNode(d: NodeData)
      requires Valid()
      modifies this, indices
      ensures Valid() && live == old(live)[d.id := d]
    {
      if d.id in live {
        var previous := live[d.id];
        RemoveKeepsFit(indices.byKindName, indices.byMetadataKey, indices.byModulePath, live, previous);
        indices.RemoveNode(previous);
        live := live - {d.id};
        indices.InsertNew(d, live);
        live := live[d.id := d];
        assert live == old(live)[d.id := d];
      } else {
        indices.InsertNew(d, live);
        live := live[d.id := d];
      }
    }

    method RemoveNode(id: NodeId) returns (found: bool)
      requires Valid()
      modifies this, indices
      ensures Valid() && live == old(live) - {id} && found == (id in old(live))
    {
      found := id in live;
      if found {
        RemoveKeepsFit(indices.byKindName, indices.byMetadataKey, indices.byModulePath, live, live[id]);
        indices.RemoveNode(live[id]);
        live := live - {id};
      } else {
        assert live == live - {id};
      }
    }

    /** Replaces a node's metadata; the old keys are evicted first. */
    method UpdateMetadata(id: NodeId, metadata: map<string, string>) returns (found: bool)
      requires Valid()
      modifies this, indices
      ensures Valid() && found == (id in old(live))
      ensures live == if found then old(live)[id := old(live)[id].(metadata := metadata)] else old(live)
    {
      found := id in live;
      if found {
        AddNode(live[id].(metadata := metadata));
      }
    }

    /** Recomputes the indices; on maintained indices no query can tell, up to the order within a
        list. */
    method RebuildIndices()
      requires ValidLive(live)
      modifies indices
      ensures Valid()
      ensures old(Valid()) ==> indices.byMetadataKey == old(indices.byMetadataKey)
      ensures old(Valid()) ==> indices.byModulePath == old(indices.byModulePath)
      ensures old(Valid()) ==> SameLists(indices.byKindName, old(indices.byKindName))
    {
      ghost var kn, mk, mp := indices.byKindName, indices.byMetadataKey, indices.byModulePath;
      indices.Rebuild(live);
      if Fits(kn, mk, mp, live) {
        FitsDetermines(indices.byKindName, indices.byMetadataKey, indices.byModulePath, kn, mk, mp, live);
      }
    }
  }

  datatype Change = Add(data: NodeData) | Remove(id: NodeId) | Retag(id: NodeId, metadata: map<string, string>)

  /** The live nodes after one change. */
  function After(live: Live, change: Change): Live {
    match change
    case Add(d) => live[d.id := d]
    case Remove(id) => live - {id}
    case Retag(id, metadata) => if id in live then live[id := live[id].(metadata := metadata)] else live
  }

  function AfterAll(changes: seq<Change>): Live {
    if changes == [] then map[] else After(AfterAll(changes[..|changes| - 1]), changes[|changes| - 1])
  }

  /** After any sequence of changes the maintained maps are those of a rebuild, up to the order
      within a list. */
  method Replay(changes: seq<Change>) returns (g: CodeGraph, kn: KindNames, mk: Buckets, mp: Buckets)
    ensures g.Valid() && g.live == AfterAll(changes)
    ensures mk == g.indices.byMetadataKey && mp == g.indices.byModulePath && SameLists(g.indices.byKindName, kn)
    ensures Fits(kn, mk, mp, g.live)
  {
    g := new CodeGraph();
    for i := 0 to |changes|
      invariant fresh(g) && fresh(g.indices)
      invariant g.Valid() && g.live == AfterAll(changes[..i])
    {
      assert changes[..i + 1][..i] == changes[..i];
      match changes[i] {
        case Add(d) =>
          g.AddNode(d);
        case Remove(id) =>
          var _ := g.RemoveNode(id);
        case Retag(id, metadata) =>
          var _ := g.UpdateMetadata(id, metadata);
      }
    }
    assert changes[..|changes|] == changes;
    kn, mk, mp := g.indices.byKindName, g.indices.byMetadataKey, g.indices.byModulePath;
    g.RebuildIndices();
  }

  // ---------------------------------------------------------------- lookups

  /** `path` is the module `prefix` or a descendant of it. */
  ghost predicate Inside(path: string, prefix: string) {
    path == prefix || StartsWith(path, prefix + SEPARATOR)
  }

  ghost predicate NodeInside(live: Live, prefix: string, id: NodeId) {
    id in live && Inside(ModuleOf(live[id]), prefix)
  }

  /** The ids of a bucket, each once. */
  method ListSet(ids: set<NodeId>) returns (s: seq<NodeId>)
    ensures multiset(s) == multiset(ids)
  {
    s := [];
    var rest := ids;
    while rest != {}
      invariant rest <= ids && multiset(s) == multiset(ids - rest)
      decreases |rest|
    {
      var id :| id in rest;
      s := s + [id];
      assert ids - (rest - {id}) == (ids - rest) + {id};
      rest := rest - {id};
    }
    assert ids - rest == ids;
  }

  /** The nodes collected from the buckets of `paths`. */
  ghost predicate Collected(out: seq<NodeId>, live: Live, paths: set<string>) {
    forall id: NodeId {:trigger multiset(out)[id]} ::
      multiset(out)[id] == if id in live && ModuleOf(live[id]) in paths then 1 else 0
  }

  lemma CollectBucket(mp: Buckets, live: Live, out: seq<NodeId>, paths: set<string>, path: string, ids: seq<NodeId>)
    requires ModulesFit(mp, live) && Collected(out, live, paths) && path !in paths
    requires multiset(ids) == multiset(SetAt(mp, path))
    ensures Collected(out + ids, live, paths + {path})
  {
    forall id: NodeId
      ensures multiset(out + ids)[id] == if id in live && ModuleOf(live[id]) in paths + {path} then 1 else 0
    {
      assert id in SetAt(mp, path) <==> PlacedIn(live, path, id);
      assert multiset(out)[id] == if id in live && ModuleOf(live[id]) in paths then 1 else 0;
    }
  }

  /** Appends the buckets of some paths, in any order. */
  method CollectPaths(mp: Buckets, ghost live: Live, start: seq<NodeId>, ghost taken0: set<string>, paths: set<string>)
    returns (out: seq<NodeId>)
    requires ModulesFit(mp, live) && Collected(start, live, taken0) && paths <= mp.Keys && paths !! taken0
    ensures Collected(out, live, taken0 + paths)
  {
    out := start;
    var rest := paths;
    ghost var taken := taken0;
    while rest != {}
      invariant rest <= mp.Keys && rest !! taken && taken + rest == taken0 + paths
      invariant Collected(out, live, taken)
      decreases |rest|
    {
      var path :| path in rest;
      var ids := ListSet(mp[path]);
      CollectBucket(mp, live, out, taken, path, ids);
      out, taken, rest := out + ids, taken + {path}, rest - {path};
    }
    assert taken == taken0 + paths;
  }

  /** Every live node's module has a bucket, and lies inside the prefix exactly when it is scanned. */
  lemma ScanCovers(mp: Buckets, live: Live, prefix: string, range: set<string>, id: NodeId)
    requires ModulesFit(mp, live) && range == set path | path in mp && InRange(path, prefix)
    ensures id in live && ModuleOf(live[id]) in {prefix} + range <==> NodeInside(live, prefix, id)
  {
    if id in live {
      RangeIsDescendants(prefix, ModuleOf(live[id]));
      assert PlacedIn(live, ModuleOf(live[id]), id);
      assert id in SetAt(mp, ModuleOf(live[id]));
    }
  }

  /** The exact bucket, then the buckets whose path lies in the descendants' range: each live node
      inside the module exactly once. */
  method NodesInModule(indices: Indices, prefix: string, ghost live: Live) returns (out: seq<NodeId>)
    requires indices.Describes(live)
    ensures forall id: NodeId :: multiset(out)[id] == if NodeInside(live, prefix, id) then 1 else 0
  {
    var mp := indices.byModulePath;
    var exact := ListSet(SetAt(mp, prefix));
    CollectBucket(mp, live, [], {}, prefix, exact);
    assert [] + exact == exact && {} + {prefix} == {prefix};
    var range := set path | path in mp && InRange(path, prefix);
    RangeIsDescendants(prefix, prefix);
    out := CollectPaths(mp, live, exact, {prefix}, range);
    forall id: NodeId
      ensures multiset(out)[id] == if NodeInside(live, prefix, id) then 1 else 0
    {
      ScanCovers(mp, live, prefix, range, id);
    }
  }

  /** Ids with exactly this kind and name, each once. */
  lemma KindNameLookup(kn: KindNames, live: Live, kind: NodeKind, name: string)
    requires KindNamesFit(kn, live)
    ensures forall id: NodeId :: multiset(ListAt(kn, (kind, name)))[id] ==
              if id in live && live[id].kind == kind && live[id].name == name then 1 else 0
  {
    forall id: NodeId
      ensures multiset(ListAt(kn, (kind, name)))[id] ==
              if id in live && live[id].kind == kind && live[id].name == name then 1 else 0
    {
      assert NamedIn(live, (kind, name), id) <==> id in live && live[id].kind == kind && live[id].name == name;
    }
  }

  /** The empty prefix selects top-level nodes and paths that begin with a separator; a node in
      module `crate` is not among them. */
  lemma EmptyPrefix(path: string)
    ensures Inside(path, "") <==> path == "" || StartsWith(path, SEPARATOR)
    ensures !Inside("crate", "") && ModulePathOf("crate::App") == "crate"
  {
    assert "" + SEPARATOR == SEPARATOR;
    assert "crate" + SEPARATOR + "App" == "crate::App";
    ModuleOfMember("crate", "App");
  }
}
