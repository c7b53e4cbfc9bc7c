/** A collection of persisted objects with its secondary indexes. `Persist`
    inserts a new object at the end or replaces the object with the same ID
    in place, `Destroy` removes the object with an ID, and `All` lists the
    objects in the order they were first persisted. Every index definition
    files each object that passes its predicate under the key it computes; a
    unique index refuses to bind one key to two objects. */
module Collections {
  import opened Wrappers
  import opened CompoundKeys
  import opened OrderedIndex

  /** A persisted object: its ID and its properties in declaration order. */
  datatype Obj = Obj(id: int, props: seq<Component>)

  /** The `i`-th property; an object without it reads as null. */
  function Prop(o: Obj, i: nat): Component
  {
    if i < |o.props| then o.props[i] else Null
  }

  /** An index definition: the (compound) key it files an object under, the
      predicate deciding whether the object is indexed at all, and whether
      the index is unique. */
  datatype IndexDefinition = IndexDefinition(value: Obj -> Key, guard: Obj -> bool, unique: bool)

  /** The `ArgumentException` of a unique index asked to bind a key that is
      bound to another object. */
  datatype PersistError = DuplicateKey

  function EntryFor(def: IndexDefinition, o: Obj): IndexEntry
  {
    IndexEntry(def.value(o), o.id)
  }

  ghost predicate DistinctIds(objects: seq<Obj>)
  {
    forall i, j :: 0 <= i < j < |objects| ==> objects[i].id != objects[j].id
  }

  /** Where the object with `id` sits, if anywhere. */
  function Position(objects: seq<Obj>, id: int): (r: Option<nat>)
    ensures r.Some? ==> r.value < |objects| && objects[r.value].id == id
    ensures r.None? <==> forall o :: o in objects ==> o.id != id
  {
    if objects == [] then None
    else if objects[0].id == id then Some(0)
    else
      assert forall o :: o in objects <==> o == objects[0] || o in objects[1..];
      match Position(objects[1..], id)
      case Some(i) => Some(i + 1)
      case None => None
  }

  /** Lookup by ID. */
  function FindById(objects: seq<Obj>, id: int): (r: Option<Obj>)
    ensures r.Some? ==> r.value in objects && r.value.id == id
    ensures r.None? <==> forall o :: o in objects ==> o.id != id
  {
    match Position(objects, id)
    case Some(i) => Some(objects[i])
    case None => None
  }

  /** The objects after persisting `o`. */
  function Upserted(objects: seq<Obj>, o: Obj): seq<Obj>
  {
    match Position(objects, o.id)
    case Some(i) => objects[i := o]
    case None => objects + [o]
  }

  /** The objects after destroying the one with `id`. */
  function Without(objects: seq<Obj>, id: int): seq<Obj>
  {
    match Position(objects, id)
    case Some(i) => objects[..i] + objects[i + 1..]
    case None => objects
  }

  /** One index after an object's previous version, `prior`, is unregistered. */
  function Unindex(index: seq<IndexEntry>, def: IndexDefinition, prior: Option<Obj>): seq<IndexEntry>
  {
    if prior.Some? && def.guard(prior.value) then Remove(index, EntryFor(def, prior.value)) else index
  }

  /** One index after persisting `o` over its previous version `prior`. */
  function Reindex(index: seq<IndexEntry>, def: IndexDefinition, prior: Option<Obj>, o: Obj): seq<IndexEntry>
  {
    var cleared := Unindex(index, def, prior);
    if def.guard(o) then Insert(cleared, EntryFor(def, o)) else cleared
  }

  /** Whether persisting `o` would make a unique index bind a key to a
      second object. */
  predicate Violates(indexes: seq<seq<IndexEntry>>, defs: seq<IndexDefinition>, o: Obj)
    requires |indexes| == |defs|
  {
    exists i :: 0 <= i < |defs| && defs[i].unique && defs[i].guard(o) && Conflict(indexes[i], defs[i].value(o), o.id)
  }

  /** An index entry belongs to an object of the collection that passes the
      definition's predicate. */
  ghost predicate Indexed(objects: seq<Obj>, def: IndexDefinition, e: IndexEntry)
  {
    var o := FindById(objects, e.id);
    o.Some? && def.guard(o.value) && e == EntryFor(def, o.value)
  }

  /** `index` lists, in order, exactly the entries of the objects that pass
      the definition's predicate. */
  ghost predicate Lists(index: seq<IndexEntry>, objects: seq<Obj>, def: IndexDefinition)
  {
    Ordered(index) &&
    (forall e :: e in index ==> Indexed(objects, def, e)) &&
    (forall o :: o in objects && def.guard(o) ==> EntryFor(def, o) in index)
  }

  /** No key is bound twice. */
  ghost predicate UniqueKeys(index: seq<IndexEntry>)
  {
    forall i, j :: 0 <= i < j < |index| ==> index[i].key != index[j].key
  }

  // ---------------------------------------------------------------------
  // The object list.

  lemma FoundById(objects: seq<Obj>, o: Obj)
    requires DistinctIds(objects) && o in objects
    ensures FindById(objects, o.id) == Some(o)
  {
    var i :| 0 <= i < |objects| && objects[i] == o;
    var j := Position(objects, o.id).value;
    assert objects[j].id == objects[i].id;
  }

  /** After persisting `o`, the collection holds `o` and the objects with
      other IDs. */
  lemma UpsertedMembers(objects: seq<Obj>, o: Obj)
    requires DistinctIds(objects)
    ensures forall x :: x in Upserted(objects, o) <==> x == o || (x in objects && x.id != o.id)
  {
    var r := Upserted(objects, o);
    match Position(objects, o.id)
    case None =>
    case Some(p) =>
      assert r[p] == o && objects[p].id == o.id;
      forall x ensures x in r <==> x == o || (x in objects && x.id != o.id) {
        if x in r && x != o {
          var k :| 0 <= k < |r| && r[k] == x;
          assert k != p && objects[k] == x;
        }
        if x in objects && x.id != o.id {
          var k :| 0 <= k < |objects| && objects[k] == x;
          assert k != p && r[k] == x;
        }
      }
  }

  lemma UpsertedDistinct(objects: seq<Obj>, o: Obj)
    requires DistinctIds(objects)
    ensures DistinctIds(Upserted(objects, o))
  {
    var r := Upserted(objects, o);
    match Position(objects, o.id)
    case None =>
      forall i, j | 0 <= i < j < |r| ensures r[i].id != r[j].id {
        if j == |objects| {
          assert r[i] == objects[i] && objects[i] in objects;
        }
      }
    case Some(p) =>
      forall i, j | 0 <= i < j < |r| ensures r[i].id != r[j].id {
        assert objects[p].id == o.id;
      }
  }

  /** Persisting keeps IDs distinct; afterwards the ID finds the new version
      and every other ID what it found before. */
  lemma UpsertedSpec(objects: seq<Obj>, o: Obj)
    requires DistinctIds(objects)
    ensures DistinctIds(Upserted(objects, o))
    ensures FindById(Upserted(objects, o), o.id) == Some(o)
    ensures forall id :: id != o.id ==> FindById(Upserted(objects, o), id) == FindById(objects, id)
  {
    var r := Upserted(objects, o);
    UpsertedDistinct(objects, o);
    UpsertedMembers(objects, o);
    FoundById(r, o);
    forall id | id != o.id ensures FindById(r, id) == FindById(objects, id) {
      match FindById(objects, id)
      case Some(x) => FoundById(r, x);
      case None =>
    }
  }

  /** An existing object is replaced where it stood: the count does not grow
      and the others keep their places. */
  lemma ReplacedInPlace(objects: seq<Obj>, i: nat, o: Obj)
    requires DistinctIds(objects) && i < |objects| && objects[i].id == o.id
    ensures Upserted(objects, o) == objects[i := o]
  {
    var p := Position(objects, o.id).value;
    assert objects[p].id == objects[i].id;
  }

  /** A new object goes last. */
  lemma AppendedLast(objects: seq<Obj>, o: Obj)
    requires forall x :: x in objects ==> x.id != o.id
    ensures Upserted(objects, o) == objects + [o]
  {
  }

  /** Destroying removes the object from where it stood; the others close
      up in their relative order. */
  lemma RemovedInPlace(objects: seq<Obj>, i: nat)
    requires DistinctIds(objects) && i < |objects|
    ensures Without(objects, objects[i].id) == objects[..i] + objects[i + 1..]
  {
    var p := Position(objects, objects[i].id).value;
    assert objects[p].id == objects[i].id;
  }

  /** After destroying `id`, the collection holds the objects with other IDs,
      in their relative order. */
  lemma WithoutMembers(objects: seq<Obj>, id: int)
    requires DistinctIds(objects)
    ensures forall x :: x in Without(objects, id) <==> x in objects && x.id != id
    ensures |Without(objects, id)| == if FindById(objects, id).Some? then |objects| - 1 else |objects|
  {
    var r := Without(objects, id);
    match Position(objects, id)
    case None =>
    case Some(p) =>
      assert objects[p].id == id;
      forall x ensures x in r <==> x in objects && x.id != id {
        if x in objects && x.id != id {
          var k :| 0 <= k < |objects| && objects[k] == x;
          assert k != p;
          if k < p {
            assert r[k] == x;
          } else {
            assert r[k - 1] == x;
          }
        }
        if x in r {
          var k :| 0 <= k < |r| && r[k] == x;
          if k < p {
            assert x == objects[k];
          } else {
            assert x == objects[k + 1];
          }
        }
      }
  }

  lemma WithoutDistinct(objects: seq<Obj>, id: int)
    requires DistinctIds(objects)
    ensures DistinctIds(Without(objects, id))
  {
    var r := Without(objects, id);
    match Position(objects, id)
    case None =>
    case Some(p) =>
      forall i, j | 0 <= i < j < |r| ensures r[i].id != r[j].id {
        var i' := if i < p then i else i + 1;
        var j' := if j < p then j else j + 1;
        assert r[i] == objects[i'] && r[j] == objects[j'];
      }
  }

  /** Destroying keeps IDs distinct; afterwards the ID finds nothing and
      every other ID what it found before. */
  lemma WithoutSpec(objects: seq<Obj>, id: int)
    requires DistinctIds(objects)
    ensures DistinctIds(Without(objects, id))
    ensures FindById(Without(objects, id), id) == None
    ensures forall id' :: id' != id ==> FindById(Without(objects, id), id') == FindById(objects, id')
    ensures forall x :: x in Without(objects, id) <==> x in objects && x.id != id
  {
    var r := Without(objects, id);
    WithoutMembers(objects, id);
    WithoutDistinct(objects, id);
    forall id' | id' != id ensures FindById(r, id') == FindById(objects, id') {
      match FindById(objects, id')
      case Some(x) => FoundById(r, x);
      case None =>
    }
  }

  /** Destroying what was just persisted as new restores the collection. */
  lemma DestroyUndoesPersist(objects: seq<Obj>, o: Obj)
    requires FindById(objects, o.id).None?
    ensures Without(Upserted(objects, o), o.id) == objects
  {
    var r := objects + [o];
    var p := Position(r, o.id).value;
    forall k | 0 <= k < |objects| ensures r[k].id != o.id {
      assert r[k] == objects[k] && objects[k] in objects;
    }
    assert p == |objects|;
    assert r[..p] == objects;
  }

  /** Persisting the same object twice is persisting it once. */
  lemma PersistIdempotent(objects: seq<Obj>, o: Obj)
    requires DistinctIds(objects)
    ensures Upserted(Upserted(objects, o), o) == Upserted(objects, o)
  {
    var r := Upserted(objects, o);
    UpsertedSpec(objects, o);
    var p := Position(r, o.id).value;
    FoundById(r, o);
    assert r[p] == o;
    assert r[p := o] == r;
  }

  // ---------------------------------------------------------------------
  // The indexes.

  /** An index of distinct-ID objects holds at most one entry per ID. */
  lemma OneEntryPerId(index: seq<IndexEntry>, objects: seq<Obj>, def: IndexDefinition, a: IndexEntry, b: IndexEntry)
    requires Lists(index, objects, def) && a in index && b in index && a.id == b.id
    ensures a == b
  {
  }

  /** An object of the collection is in an index exactly when it passes the
      index's predicate, and then under the key the definition computes. */
  lemma GuardDecides(index: seq<IndexEntry>, objects: seq<Obj>, def: IndexDefinition, o: Obj)
    requires DistinctIds(objects) && Lists(index, objects, def) && o in objects
    ensures def.guard(o) <==> exists e :: e in index && e.id == o.id
    ensures forall e :: e in index && e.id == o.id ==> e.key == def.value(o)
  {
    FoundById(objects, o);
    if def.guard(o) {
      assert EntryFor(def, o) in index;
    }
  }

  /** In a unique index, a key of an indexed object finds exactly that
      object. */
  lemma UniqueFind(index: seq<IndexEntry>, objects: seq<Obj>, def: IndexDefinition, o: Obj)
    requires DistinctIds(objects) && Lists(index, objects, def) && UniqueKeys(index)
    requires o in objects && def.guard(o)
    ensures FindKey(index, def.value(o)) == Some(o.id)
  {
    assert EntryFor(def, o) in index;
  }

  /** Unregistering an object's previous version leaves an index that lists
      the collection without it. */
  lemma UnindexLists(index: seq<IndexEntry>, objects: seq<Obj>, def: IndexDefinition, id: int)
    requires DistinctIds(objects) && Lists(index, objects, def)
    ensures Lists(Unindex(index, def, FindById(objects, id)), Without(objects, id), def)
    ensures UniqueKeys(index) ==> UniqueKeys(Unindex(index, def, FindById(objects, id)))
    ensures forall e :: e in Unindex(index, def, FindById(objects, id)) <==> e in index && e.id != id
  {
    var prior := FindById(objects, id);
    var cleared := Unindex(index, def, prior);
    var rest := Without(objects, id);
    WithoutSpec(objects, id);
    if prior.Some? && def.guard(prior.value) {
      RemoveSpec(index, EntryFor(def, prior.value));
    }
    forall e ensures e in cleared <==> e in index && e.id != id {
      if e in index && e.id == id {
        assert prior.Some? && e == EntryFor(def, prior.value);
      }
    }
    forall e | e in cleared ensures Indexed(rest, def, e) {
      assert FindById(rest, e.id) == FindById(objects, e.id);
    }
    forall o | o in rest && def.guard(o) ensures EntryFor(def, o) in cleared {
      assert o in objects;
    }
    if UniqueKeys(index) {
      SubsetUniqueKeys(index, cleared);
    }
  }

  lemma SubsetUniqueKeys(index: seq<IndexEntry>, sub: seq<IndexEntry>)
    requires UniqueKeys(index) && Ordered(sub) && forall e :: e in sub ==> e in index
    ensures UniqueKeys(sub)
  {
    forall i, j | 0 <= i < j < |sub| ensures sub[i].key != sub[j].key {
      EntryOrder(sub[i], sub[j], sub[i]);
      assert sub[i] in sub && sub[j] in sub;
      var i' :| 0 <= i' < |index| && index[i'] == sub[i];
      var j' :| 0 <= j' < |index| && index[j'] == sub[j];
    }
  }

  /** Persisting `o` re-files it: the index lists the collection with `o`
      persisted, and a unique index that saw no conflict stays unique. */
  lemma ReindexLists(index: seq<IndexEntry>, objects: seq<Obj>, def: IndexDefinition, o: Obj)
    requires DistinctIds(objects) && Lists(index, objects, def)
    ensures Lists(Reindex(index, def, FindById(objects, o.id), o), Upserted(objects, o), def)
    ensures UniqueKeys(index) && !(def.guard(o) && Conflict(index, def.value(o), o.id)) ==>
      UniqueKeys(Reindex(index, def, FindById(objects, o.id), o))
  {
    var prior := FindById(objects, o.id);
    var cleared := Unindex(index, def, prior);
    var r := Reindex(index, def, prior, o);
    var after := Upserted(objects, o);
    UnindexLists(index, objects, def, o.id);
    UpsertedSpec(objects, o);
    WithoutSpec(objects, o.id);
    if def.guard(o) {
      InsertSpec(cleared, EntryFor(def, o));
    }
    forall e | e in r ensures Indexed(after, def, e) {
      if e.id != o.id {
        assert e in cleared && FindById(after, e.id) == FindById(Without(objects, o.id), e.id);
      }
    }
    forall x | x in after && def.guard(x) ensures EntryFor(def, x) in r {
      FoundById(after, x);
      if x.id != o.id {
        assert FindById(objects, x.id) == Some(x);
        assert x in Without(objects, o.id);
      }
    }
    if UniqueKeys(index) && !(def.guard(o) && Conflict(index, def.value(o), o.id)) {
      SubsetUniqueKeys(index, cleared);
      if def.guard(o) {
        forall i, j | 0 <= i < j < |r| ensures r[i].key != r[j].key {
          assert r[i] in r && r[j] in r;
          if r[i] != EntryFor(def, o) && r[j] != EntryFor(def, o) {
            var i' :| 0 <= i' < |cleared| && cleared[i'] == r[i];
            var j' :| 0 <= j' < |cleared| && cleared[j'] == r[j];
            EntryOrder(r[i], r[j], r[i]);
            assert i' != j';
          } else {
            EntryOrder(r[i], r[j], r[i]);
          }
        }
      }
    }
  }

  // ---------------------------------------------------------------------

  class Collection {
    const definitions: seq<IndexDefinition>
    /** The objects in the order they were first persisted (`All`). */
    var objects: seq<Obj>
    /** One ordered index per definition. */
    var indexes: seq<seq<IndexEntry>>

    ghost predicate Valid()
      reads this
    {
      DistinctIds(objects) && |indexes| == |definitions| &&
      forall i :: 0 <= i < |definitions| ==>
        Lists(indexes[i], objects, definitions[i]) && (definitions[i].unique ==> UniqueKeys(indexes[i]))
    }

    constructor(definitions: seq<IndexDefinition>)
      ensures Valid() && this.definitions == definitions && objects == []
      ensures |indexes| == |definitions| && forall i :: 0 <= i < |indexes| ==> indexes[i] == []
    {
      this.definitions := definitions;
      objects := [];
      indexes := seq(|definitions|, _ => []);
    }

    /** `Persist`: rejected, changing nothing, when a unique index already
        binds the object's key to another object; otherwise the object is
        inserted or replaced and every index re-files it. */
    method Persist(o: Obj) returns (r: Result<(), PersistError>)
      requires Valid()
      modifies this
      ensures Valid()
      ensures r.Err? <==> Violates(old(indexes), definitions, o)
      ensures r.Err? ==> objects == old(objects) && indexes == old(indexes)
      ensures r.Ok? ==> objects == Upserted(old(objects), o)
      ensures r.Ok? ==> |indexes| == |definitions| && forall i :: 0 <= i < |definitions| ==>
        indexes[i] == Reindex(old(indexes)[i], definitions[i], FindById(old(objects), o.id), o)
    {
      var i := 0;
      while i < |definitions|
        invariant 0 <= i <= |definitions|
        invariant forall j :: 0 <= j < i ==>
          !(definitions[j].unique && definitions[j].guard(o) && Conflict(indexes[j], definitions[j].value(o), o.id))
      {
        var def := definitions[i];
        if def.unique && def.guard(o) && Conflict(indexes[i], def.value(o), o.id) {
          return Err(DuplicateKey);
        }
        i := i + 1;
      }
      var prior := FindById(objects, o.id);
      var updated: seq<seq<IndexEntry>> := [];
      i := 0;
      while i < |definitions|
        invariant 0 <= i <= |definitions| && |updated| == i
        invariant forall j :: 0 <= j < i ==> updated[j] == Reindex(indexes[j], definitions[j], prior, o)
      {
        updated := updated + [Reindex(indexes[i], definitions[i], prior, o)];
        i := i + 1;
      }
      forall j | 0 <= j < |definitions|
        ensures Lists(updated[j], Upserted(objects, o), definitions[j])
        ensures definitions[j].unique ==> UniqueKeys(updated[j])
      {
        ReindexLists(indexes[j], objects, definitions[j], o);
      }
      UpsertedSpec(objects, o);
      indexes := updated;
      objects := Upserted(objects, o);
      r := Ok(());
    }

    /** `Destroy`: the object with the ID leaves the collection and every
        index; an ID not present changes nothing. */
    method Destroy(id: int)
      requires Valid()
      modifies this
      ensures Valid()
      ensures objects == Without(old(objects), id)
      ensures |indexes| == |definitions| && forall i :: 0 <= i < |definitions| ==>
        indexes[i] == Unindex(old(indexes)[i], definitions[i], FindById(old(objects), id))
    {
      var prior := FindById(objects, id);
      var updated: seq<seq<IndexEntry>> := [];
      var i := 0;
      while i < |definitions|
        invariant 0 <= i <= |definitions| && |updated| == i
        invariant forall j :: 0 <= j < i ==> updated[j] == Unindex(indexes[j], definitions[j], prior)
      {
        updated := updated + [Unindex(indexes[i], definitions[i], prior)];
        i := i + 1;
      }
      forall j | 0 <= j < |definitions|
        ensures Lists(updated[j], Without(objects, id), definitions[j])
        ensures definitions[j].unique ==> UniqueKeys(updated[j])
      {
        UnindexLists(indexes[j], objects, definitions[j], id);
      }
      WithoutSpec(objects, id);
      indexes := updated;
      objects := Without(objects, id);
    }
  }
}
