/** The collection fixtures replayed on the model: the insertion-ordered
    `Persist`/`Destroy`/`All` tests (`Marcello.Test.Test`) and the compound
    index tests (`CompoundIndexesTest`). */
module CollectionScenarios {
  import opened Wrappers
  import opened CompoundKeys
  import opened OrderedIndex
  import opened Scopes
  import opened Collections

  // ---------------------------------------------------------------------
  // Persist, Destroy and All on a collection without indexes. The articles
  // are any objects with distinct IDs.

  method Persisted(c: Collection, o: Obj)
    requires c.Valid() && c.definitions == []
    modifies c
    ensures c.Valid() && c.definitions == []
    ensures c.objects == Upserted(old(c.objects), o)
  {
    var r := c.Persist(o);
  }

  /** Persisting an article whose ID is new. */
  method PersistedNew(c: Collection, o: Obj)
    requires c.Valid() && c.definitions == [] && forall x :: x in c.objects ==> x.id != o.id
    modifies c
    ensures c.Valid() && c.definitions == []
    ensures c.objects == old(c.objects) + [o]
  {
    AppendedLast(c.objects, o);
    Persisted(c, o);
  }

  /** A collection holding the given articles, persisted in order. */
  method Holding(articles: seq<Obj>) returns (c: Collection)
    requires DistinctIds(articles)
    ensures fresh(c) && c.Valid() && c.definitions == [] && c.objects == articles
  {
    c := new Collection([]);
    var i := 0;
    while i < |articles|
      invariant 0 <= i <= |articles|
      invariant c.Valid() && c.definitions == [] && c.objects == articles[..i]
    {
      PersistedNew(c, articles[i]);
      assert articles[..i + 1] == articles[..i] + [articles[i]];
      i := i + 1;
    }
    assert articles[..i] == articles;
  }

  /** `TestInsertObjectShouldFindObject`. */
  method InsertObjectShouldFindObject(toiletPaper: Obj) returns (first: Obj)
    ensures first == toiletPaper
  {
    var c := new Collection([]);
    PersistedNew(c, toiletPaper);
    first := c.objects[0];
  }

  /** `Test2Objects` and `TestMultipleObjects`: `All` in persist order. */
  method MultipleObjects(toiletPaper: Obj, spinalTapDvd: Obj, barbieDoll: Obj) returns (two: seq<Obj>, three: seq<Obj>)
    requires toiletPaper.id != spinalTapDvd.id && toiletPaper.id != barbieDoll.id && spinalTapDvd.id != barbieDoll.id
    ensures two == [toiletPaper, spinalTapDvd]
    ensures three == [toiletPaper, spinalTapDvd, barbieDoll]
  {
    var c := new Collection([]);
    PersistedNew(c, toiletPaper);
    PersistedNew(c, spinalTapDvd);
    two := c.objects;
    PersistedNew(c, barbieDoll);
    three := c.objects;
  }

  /** `TestUpdate`, `TestSmallUpdate` and `TestLargeUpdate`: persisting a
      changed version of the first article replaces it in place, whatever
      the size of the change. */
  method UpdateFirst(toiletPaper: Obj, spinalTapDvd: Obj, changed: Obj) returns (all: seq<Obj>, reloaded: Option<Obj>)
    requires toiletPaper.id != spinalTapDvd.id && changed.id == toiletPaper.id
    ensures all == [changed, spinalTapDvd] && reloaded == Some(changed)
  {
    var c := Holding([toiletPaper, spinalTapDvd]);
    ReplacedInPlace(c.objects, 0, changed);
    Persisted(c, changed);
    all := c.objects;
    reloaded := FindById(all, toiletPaper.id);
  }

  /** `TestLargeUpdateForLastObject`. */
  method UpdateLast(toiletPaper: Obj, spinalTapDvd: Obj, changed: Obj) returns (all: seq<Obj>)
    requires toiletPaper.id != spinalTapDvd.id && changed.id == spinalTapDvd.id
    ensures all == [toiletPaper, changed]
  {
    var c := Holding([toiletPaper, spinalTapDvd]);
    ReplacedInPlace(c.objects, 1, changed);
    Persisted(c, changed);
    all := c.objects;
  }

  /** `TestDeleteOnlyObject`. */
  method DeleteOnlyObject(toiletPaper: Obj) returns (count: nat)
    ensures count == 0
  {
    var c := Holding([toiletPaper]);
    RemovedInPlace(c.objects, 0);
    c.Destroy(toiletPaper.id);
    count := |c.objects|;
  }

  /** Destroying the `i`-th of three articles. */
  method DestroyAt(articles: seq<Obj>, i: nat) returns (after: seq<Obj>)
    requires DistinctIds(articles) && i < |articles|
    ensures after == articles[..i] + articles[i + 1..]
  {
    var c := Holding(articles);
    RemovedInPlace(c.objects, i);
    c.Destroy(articles[i].id);
    after := c.objects;
  }

  /** `TestDeleteFirstObject`, `TestDeleteMiddleObject` and
      `TestDeleteLastObject`: only the destroyed article goes; the others
      keep their order. */
  method DeleteOne(toiletPaper: Obj, spinalTapDvd: Obj, barbieDoll: Obj)
    returns (afterFirst: seq<Obj>, afterMiddle: seq<Obj>, afterLast: seq<Obj>)
    requires toiletPaper.id != spinalTapDvd.id && toiletPaper.id != barbieDoll.id && spinalTapDvd.id != barbieDoll.id
    ensures afterFirst == [spinalTapDvd]
    ensures afterMiddle == [toiletPaper, barbieDoll]
    ensures afterLast == [toiletPaper, spinalTapDvd]
  {
    afterFirst := DestroyAt([toiletPaper, spinalTapDvd], 0);
    afterMiddle := DestroyAt([toiletPaper, spinalTapDvd, barbieDoll], 1);
    afterLast := DestroyAt([toiletPaper, spinalTapDvd, barbieDoll], 2);
  }

  /** Destroying the last of some articles, then persisting a new one. */
  method DestroyLastThenPersist(articles: seq<Obj>, o: Obj) returns (after: seq<Obj>)
    requires DistinctIds(articles) && articles != [] && forall x :: x in articles ==> x.id != o.id
    ensures after == articles[..|articles| - 1] + [o]
  {
    var c := Holding(articles);
    var last := |articles| - 1;
    RemovedInPlace(c.objects, last);
    c.Destroy(articles[last].id);
    assert forall x :: x in c.objects ==> x in articles;
    PersistedNew(c, o);
    after := c.objects;
  }

  /** `DeleteLastInsertNew` and `DeleteOnlyOnlyInsertNew`: a new article
      persisted after a destroy goes last. */
  method DeleteThenInsert(toiletPaper: Obj, spinalTapDvd: Obj, barbieDoll: Obj)
    returns (afterLast: seq<Obj>, afterOnly: seq<Obj>)
    requires toiletPaper.id != spinalTapDvd.id && toiletPaper.id != barbieDoll.id && spinalTapDvd.id != barbieDoll.id
    ensures afterLast == [toiletPaper, barbieDoll]
    ensures afterOnly == [barbieDoll]
  {
    afterLast := DestroyLastThenPersist([toiletPaper, spinalTapDvd], barbieDoll);
    afterOnly := DestroyLastThenPersist([spinalTapDvd], barbieDoll);
  }

  // ---------------------------------------------------------------------
  // Compound indexes over `Indexable` objects.

  /** `i.ToString()` for a natural number. */
  function Decimal(n: nat): string
  {
    if n < 10 then [(48 + n) as char] else Decimal(n / 10) + [(48 + n % 10) as char]
  }

  /** `Indexable.CreateIndexable(i)`: every property set from `i`. The
      `double` property is kept as an integral value. */
  function Indexable(i: nat): Obj
  {
    Obj(i, [Int(i), Int(i), Int(i), Str(Decimal(i)), Int(i), Int(i), Int(i), Str(Decimal(i))])
  }

  /** `new Indexable { ID = 123 }`: numbers zero, strings null. */
  function Blank(id: int): Obj
  {
    Obj(id, [Int(0), Int(0), Int(0), Null, Int(0), Int(0), Int(0), Null])
  }

  function Compound1And2(): IndexDefinition
  {
    IndexDefinition(o => [Prop(o, 0), Prop(o, 1)], o => true, false)
  }

  function Compound1And2And3(): IndexDefinition
  {
    IndexDefinition(o => [Prop(o, 0), Prop(o, 1), Prop(o, 2)], o => true, false)
  }

  function Compound1And2And3And4(): IndexDefinition
  {
    IndexDefinition(o => [Prop(o, 0), Prop(o, 1), Prop(o, 2), Prop(o, 3)], o => true, false)
  }

  function UniqueCompound1And2(): IndexDefinition
  {
    IndexDefinition(o => [Prop(o, 0), Prop(o, 1)], o => true, true)
  }

  /** Indexes `Prop4, Prop8`, only for objects whose `Prop4` is not null. */
  function CompoundWithPredicate(): IndexDefinition
  {
    IndexDefinition(o => [Prop(o, 3), Prop(o, 7)], o => Prop(o, 3) != Null, false)
  }

  /** Persisting into a collection with one non-unique index. */
  method Indexed(c: Collection, o: Obj)
    requires c.Valid() && |c.definitions| == 1 && !c.definitions[0].unique
    modifies c
    ensures c.Valid()
    ensures c.objects == Upserted(old(c.objects), o)
    ensures c.indexes == [Reindex(old(c.indexes)[0], c.definitions[0], FindById(old(c.objects), o.id), o)]
  {
    var r := c.Persist(o);
  }

  /** Persisting a new object that passes the one index's predicate. */
  method IndexedNew(c: Collection, o: Obj)
    requires c.Valid() && |c.definitions| == 1 && !c.definitions[0].unique && c.definitions[0].guard(o)
    requires forall x :: x in c.objects ==> x.id != o.id
    modifies c
    ensures c.Valid()
    ensures c.objects == old(c.objects) + [o]
    ensures c.indexes == [Insert(old(c.indexes)[0], EntryFor(c.definitions[0], o))]
  {
    AppendedLast(c.objects, o);
    Indexed(c, o);
  }

  /** Persisting a new object filed above every entry of the one index: its
      entry goes last. */
  method IndexedAbove(c: Collection, def: IndexDefinition, index: seq<IndexEntry>, o: Obj)
    requires c.Valid() && c.definitions == [def] && c.indexes == [index]
    requires !def.unique && def.guard(o)
    requires forall x :: x in c.objects ==> x.id != o.id
    requires forall e :: e in index ==> CompareEntries(e, EntryFor(def, o)) < 0
    modifies c
    ensures c.Valid()
    ensures c.objects == old(c.objects) + [o]
    ensures c.indexes == [index + [EntryFor(def, o)]]
  {
    InsertLast(index, EntryFor(def, o));
    IndexedNew(c, o);
  }

  /** Persisting a new object filed below every entry of the one index:
      its entry goes first. */
  method IndexedBelow(c: Collection, def: IndexDefinition, index: seq<IndexEntry>, o: Obj)
    requires c.Valid() && c.definitions == [def] && c.indexes == [index]
    requires !def.unique && def.guard(o)
    requires forall x :: x in c.objects ==> x.id != o.id
    requires index == [] || CompareEntries(EntryFor(def, o), index[0]) < 0
    modifies c
    ensures c.Valid()
    ensures c.objects == old(c.objects) + [o]
    ensures c.indexes == [[EntryFor(def, o)] + index]
  {
    InsertFirst(index, EntryFor(def, o));
    IndexedNew(c, o);
  }

  /** Two objects persisted in that order, the second filed above the
      first. */
  method Ascending2(def: IndexDefinition, x: Obj, y: Obj) returns (c: Collection)
    requires !def.unique && def.guard(x) && def.guard(y) && x.id != y.id
    requires Compare(def.value(x), def.value(y)) < 0
    ensures fresh(c) && c.Valid() && c.definitions == [def]
    ensures c.objects == [x, y] && c.indexes == [[EntryFor(def, x), EntryFor(def, y)]]
  {
    c := new Collection([def]);
    IndexedAbove(c, def, [], x);
    assert [] + [EntryFor(def, x)] == [EntryFor(def, x)];
    IndexedAbove(c, def, [EntryFor(def, x)], y);
    assert [EntryFor(def, x)] + [EntryFor(def, y)] == [EntryFor(def, x), EntryFor(def, y)] && [x] + [y] == [x, y];
  }

  /** Three objects persisted in that order, each filed under a key above
      the previous one: the index lists them in that order. */
  method Ascending(def: IndexDefinition, x: Obj, y: Obj, z: Obj) returns (c: Collection)
    requires !def.unique && def.guard(x) && def.guard(y) && def.guard(z)
    requires x.id != y.id && x.id != z.id && y.id != z.id
    requires Compare(def.value(x), def.value(y)) < 0 && Compare(def.value(y), def.value(z)) < 0
    ensures fresh(c) && c.Valid() && c.definitions == [def] && c.objects == [x, y, z]
    ensures c.indexes == [[EntryFor(def, x), EntryFor(def, y), EntryFor(def, z)]]
  {
    var ex, ey, ez := EntryFor(def, x), EntryFor(def, y), EntryFor(def, z);
    KeyOrder(ex.key, ey.key, ez.key);
    c := Ascending2(def, x, y);
    IndexedAbove(c, def, [ex, ey], z);
    assert [ex, ey] + [ez] == [ex, ey, ez] && [x, y] + [z] == [x, y, z];
  }

  /** Indexables 1, 2 and 3 persisted in that order; the index lists them in
      key order. */
  method OneTwoThree(def: IndexDefinition) returns (c: Collection)
    requires !def.unique && def.guard(Indexable(1)) && def.guard(Indexable(2)) && def.guard(Indexable(3))
    requires Compare(def.value(Indexable(1)), def.value(Indexable(2))) < 0
    requires Compare(def.value(Indexable(2)), def.value(Indexable(3))) < 0
    ensures fresh(c) && c.Valid() && c.definitions == [def] && c.objects == [Indexable(1), Indexable(2), Indexable(3)]
    ensures c.indexes == [[EntryFor(def, Indexable(1)), EntryFor(def, Indexable(2)), EntryFor(def, Indexable(3))]]
  {
    c := Ascending(def, Indexable(1), Indexable(2), Indexable(3));
  }

  function Key3(a: int, b: int, c: int): Key
  {
    [Int(a), Int(b), Int(c)]
  }

  /** The prefix bounds of a three-component key. */
  lemma Prefixes(a: int, b: int, c: int)
    ensures Prefix(Key3(a, b, c), 1) == [Int(a)]
    ensures Prefix(Key3(a, b, c), 2) == [Int(a), Int(b)]
    ensures Prefix(Key3(a, b, c), 3) == Key3(a, b, c)
  {
    assert Key3(a, b, c)[1..] == [Int(b), Int(c)];
    assert [Int(b), Int(c)][1..] == [Int(c)];
  }

  /** A scope over a three-entry index keeps the entries it matches. */
  lemma SelectThree(a: IndexEntry, b: IndexEntry, c: IndexEntry, s: Scope)
    ensures Select([a, b, c], s) ==
      (if Matches(s, a.key) then [a] else []) + (if Matches(s, b.key) then [b] else []) + (if Matches(s, c.key) then [c] else [])
  {
    assert [a, b, c][1..] == [b, c];
    assert [b, c][1..] == [c];
    assert [c][1..] == [];
    assert Select([c], s) == (if Matches(s, c.key) then [c] else []) + Select([], s);
    assert Select([b, c], s) == (if Matches(s, b.key) then [b] else []) + Select([c], s);
    assert Select([a, b, c], s) == (if Matches(s, a.key) then [a] else []) + Select([b, c], s);
  }

  /** The key of indexable `i` in the index over `Prop1` to `Prop4`. */
  function Key4(i: nat): Key
  {
    [Int(i), Int(i), Int(i), Str(Decimal(i))]
  }

  /** The keys the fixture definitions file indexable `i` under. */
  lemma FixtureKeys(i: nat)
    ensures Compound1And2().value(Indexable(i)) == [Int(i), Int(i)]
    ensures Compound1And2And3().value(Indexable(i)) == Key3(i, i, i)
    ensures Compound1And2And3And4().value(Indexable(i)) == Key4(i)
    ensures CompoundWithPredicate().value(Indexable(i)) == [Str(Decimal(i)), Str(Decimal(i))]
    ensures CompoundWithPredicate().guard(Indexable(i))
  {
  }

  /** Keys whose first components are integers in ascending order are in
      ascending order. */
  lemma LeadingIntDecides(a: Key, b: Key)
    requires a != [] && b != [] && a[0].Int? && b[0].Int? && a[0].i < b[0].i
    ensures Compare(a, b) < 0
  {
  }

  /** The index over `Prop1, Prop2` after indexables 1, 2, 3 are persisted. */
  method IndexOf2() returns (index: seq<IndexEntry>)
    ensures index == [IndexEntry([Int(1), Int(1)], 1), IndexEntry([Int(2), Int(2)], 2), IndexEntry([Int(3), Int(3)], 3)]
  {
    FixtureKeys(1);
    FixtureKeys(2);
    FixtureKeys(3);
    LeadingIntDecides([Int(1), Int(1)], [Int(2), Int(2)]);
    LeadingIntDecides([Int(2), Int(2)], [Int(3), Int(3)]);
    var c := OneTwoThree(Compound1And2());
    index := c.indexes[0];
  }

  function ThreeIndex(): seq<IndexEntry>
  {
    [IndexEntry(Key3(1, 1, 1), 1), IndexEntry(Key3(2, 2, 2), 2), IndexEntry(Key3(3, 3, 3), 3)]
  }

  /** The index over `Prop1, Prop2, Prop3` after indexables 1, 2, 3 are
      persisted. */
  method Three() returns (index: seq<IndexEntry>)
    ensures index == ThreeIndex()
  {
    FixtureKeys(1);
    FixtureKeys(2);
    FixtureKeys(3);
    LeadingIntDecides(Key3(1, 1, 1), Key3(2, 2, 2));
    LeadingIntDecides(Key3(2, 2, 2), Key3(3, 3, 3));
    var c := OneTwoThree(Compound1And2And3());
    index := c.indexes[0];
  }

  /** The index over `Prop1, Prop2, Prop3, Prop4` after indexables 1, 2, 3
      are persisted. */
  method IndexOf4() returns (index: seq<IndexEntry>)
    ensures index == [IndexEntry(Key4(1), 1), IndexEntry(Key4(2), 2), IndexEntry(Key4(3), 3)]
  {
    FixtureKeys(1);
    FixtureKeys(2);
    FixtureKeys(3);
    LeadingIntDecides(Key4(1), Key4(2));
    LeadingIntDecides(Key4(2), Key4(3));
    var c := OneTwoThree(Compound1And2And3And4());
    index := c.indexes[0];
  }

  /** `Equals` with a full key over a three-entry index. */
  method EqualsOver(index: seq<IndexEntry>, key: Key) returns (ids: seq<int>)
    requires |index| == 3 && forall e :: e in index ==> |e.key| == |key|
    ensures ids == IdsOf((if index[0].key == key then [index[0]] else []) +
                         (if index[1].key == key then [index[1]] else []) +
                         (if index[2].key == key then [index[2]] else []))
  {
    var s := Equals(key);
    assert index == [index[0], index[1], index[2]];
    FullBound(index[0].key, key);
    FullBound(index[1].key, key);
    FullBound(index[2].key, key);
    KeyOrder(index[0].key, key, key);
    KeyOrder(index[1].key, key, key);
    KeyOrder(index[2].key, key, key);
    SelectThree(index[0], index[1], index[2], s);
    ids := IdsOf(Enumerate(s, index));
  }

  /** `InsertCompoundOf2`, `InsertCompoundOf3` and `InsertCompoundOf4`:
      `Equals` on the full key finds indexable 2. */
  method EqualsFindsExactKey() returns (of2: seq<int>, of3: seq<int>, of4: seq<int>)
    ensures of2 == [2] && of3 == [2] && of4 == [2]
  {
    var index := IndexOf2();
    of2 := EqualsOver(index, [Int(2), Int(2)]);
    index := Three();
    of3 := EqualsOver(index, Key3(2, 2, 2));
    index := IndexOf4();
    of4 := EqualsOver(index, Key4(2));
  }

  /** Two objects persisted in that order, the second filed below the
      first. */
  method Descending2(def: IndexDefinition, y: Obj, z: Obj) returns (c: Collection)
    requires !def.unique && def.guard(y) && def.guard(z) && y.id != z.id
    requires Compare(def.value(y), def.value(z)) < 0
    ensures fresh(c) && c.Valid() && c.definitions == [def]
    ensures c.objects == [z, y] && c.indexes == [[EntryFor(def, y), EntryFor(def, z)]]
  {
    c := new Collection([def]);
    IndexedBelow(c, def, [], z);
    assert [EntryFor(def, z)] + [] == [EntryFor(def, z)];
    IndexedBelow(c, def, [EntryFor(def, z)], y);
    assert [EntryFor(def, y)] + [EntryFor(def, z)] == [EntryFor(def, y), EntryFor(def, z)] && [z] + [y] == [z, y];
  }

  /** Three objects persisted in the reverse of their key order: the index
      still lists them in key order. */
  method Descending3(def: IndexDefinition, x: Obj, y: Obj, z: Obj) returns (c: Collection)
    requires !def.unique && def.guard(x) && def.guard(y) && def.guard(z)
    requires x.id != y.id && x.id != z.id && y.id != z.id
    requires Compare(def.value(x), def.value(y)) < 0 && Compare(def.value(y), def.value(z)) < 0
    ensures fresh(c) && c.Valid() && c.definitions == [def] && c.objects == [z, y, x]
    ensures c.indexes == [[EntryFor(def, x), EntryFor(def, y), EntryFor(def, z)]]
  {
    var ex, ey, ez := EntryFor(def, x), EntryFor(def, y), EntryFor(def, z);
    c := Descending2(def, y, z);
    IndexedBelow(c, def, [ey, ez], x);
    assert [ex] + [ey, ez] == [ex, ey, ez] && [z, y] + [x] == [z, y, x];
  }

  /** The index over `Prop1, Prop2, Prop3, Prop4` after indexables 3, 2, 1
      are persisted, in that order. */
  method BackwardsIndexOf4() returns (index: seq<IndexEntry>)
    ensures index == [IndexEntry(Key4(1), 1), IndexEntry(Key4(2), 2), IndexEntry(Key4(3), 3)]
  {
    FixtureKeys(1);
    FixtureKeys(2);
    FixtureKeys(3);
    LeadingIntDecides(Key4(1), Key4(2));
    LeadingIntDecides(Key4(2), Key4(3));
    var c := Descending3(Compound1And2And3And4(), Indexable(1), Indexable(2), Indexable(3));
    index := c.indexes[0];
  }

  /** Enumerating `All` over a three-entry index: every ID, in index order. */
  method AllOverThree(index: seq<IndexEntry>) returns (ids: seq<int>)
    requires |index| == 3
    ensures ids == [index[0].id, index[1].id, index[2].id]
  {
    assert index == [index[0], index[1], index[2]];
    SelectThree(index[0], index[1], index[2], All);
    ids := IdsOf(Enumerate(All, index));
  }

  /** `All`: persisted as 3, 2, 1, enumerated as 1, 2, 3. */
  method AllInKeyOrder() returns (ids: seq<int>)
    ensures ids == [1, 2, 3]
  {
    var index := BackwardsIndexOf4();
    ids := AllOverThree(index);
  }

  /** The IDs a scope selects from the three-component index: those of the
      keys it matches, in key order. */
  lemma SelectedIds(s: Scope)
    ensures IdsOf(Select(ThreeIndex(), s)) ==
      (if Matches(s, Key3(1, 1, 1)) then [1] else []) +
      (if Matches(s, Key3(2, 2, 2)) then [2] else []) +
      (if Matches(s, Key3(3, 3, 3)) then [3] else [])
  {
    var index := ThreeIndex();
    SelectThree(index[0], index[1], index[2], s);
  }

  /** The keys a scope selects from the three-component index, in order. */
  lemma SelectedKeys(s: Scope)
    ensures KeysOf(Select(ThreeIndex(), s)) ==
      (if Matches(s, Key3(1, 1, 1)) then [Key3(1, 1, 1)] else []) +
      (if Matches(s, Key3(2, 2, 2)) then [Key3(2, 2, 2)] else []) +
      (if Matches(s, Key3(3, 3, 3)) then [Key3(3, 3, 3)] else [])
  {
    var index := ThreeIndex();
    SelectThree(index[0], index[1], index[2], s);
  }

  /** Enumerating a range scope over the three-component index: the IDs of
      the keys it matches, in key order. */
  method ScopeOverThree(s: Scope) returns (ids: seq<int>)
    requires !s.Descending?
    ensures ids == (if Matches(s, Key3(1, 1, 1)) then [1] else []) +
                   (if Matches(s, Key3(2, 2, 2)) then [2] else []) +
                   (if Matches(s, Key3(3, 3, 3)) then [3] else [])
  {
    var index := Three();
    SelectedIds(s);
    ids := IdsOf(Enumerate(s, index));
  }

  /** The IDs of entries listed backwards are their IDs backwards. */
  lemma IdsBackwards(entries: seq<IndexEntry>)
    ensures IdsOf(Reverse(entries)) == Reverse(IdsOf(entries))
  {
  }

  /** Enumerating `Descending(s)` over the three-component index: the IDs
      `s` enumerates, in reverse. */
  method DescendingOverThree(s: Scope) returns (ids: seq<int>)
    requires !s.Descending?
    ensures ids == Reverse((if Matches(s, Key3(1, 1, 1)) then [1] else []) +
                           (if Matches(s, Key3(2, 2, 2)) then [2] else []) +
                           (if Matches(s, Key3(3, 3, 3)) then [3] else []))
  {
    var index := Three();
    SelectedIds(s);
    DescendingReverses(s, index);
    IdsBackwards(Select(index, s));
    ids := IdsOf(Enumerate(Descending(s), index));
  }

  /** `GreaterThan3Compound_3Params` and
      `GreaterOrEqualThan3Compound_3Params`: a full-length bound. */
  method GreaterThanFullBound() returns (gt: seq<int>, ge: seq<int>)
    ensures gt == [2, 3] && ge == [2, 3]
  {
    Prefixes(1, 1, 1);
    Prefixes(2, 2, 2);
    Prefixes(3, 3, 3);
    gt := ScopeOverThree(GreaterThan(Key3(2, 2, 1), false));
    ge := ScopeOverThree(GreaterThan(Key3(2, 2, 1), true));
  }

  /** `GreaterThan3Compound_2Params` and
      `GreaterThanOrEqual3Compound_2Params`: a prefix bound excludes or
      includes the keys it is a prefix of. */
  method GreaterThanPrefixBound() returns (gt: seq<int>, ge: seq<int>)
    ensures gt == [3] && ge == [2, 3]
  {
    Prefixes(1, 1, 1);
    Prefixes(2, 2, 2);
    Prefixes(3, 3, 3);
    gt := ScopeOverThree(GreaterThan([Int(2), Int(2)], false));
    ge := ScopeOverThree(GreaterThan([Int(2), Int(2)], true));
  }

  /** `SmallerThan3Compound_3Params` and
      `SmallerOrEqualThan3Compound_3Params`. */
  method SmallerThanFullBound() returns (lt: seq<int>, le: seq<int>)
    ensures lt == [1, 2] && le == [1, 2]
  {
    Prefixes(1, 1, 1);
    Prefixes(2, 2, 2);
    Prefixes(3, 3, 3);
    lt := ScopeOverThree(SmallerThan(Key3(2, 2, 3), false));
    le := ScopeOverThree(SmallerThan(Key3(2, 2, 2), true));
  }

  /** `SmallerThan3Compound_2Params` and
      `SmallerThanOrEqual3Compound_2Params`. */
  method SmallerThanPrefixBound() returns (lt: seq<int>, le: seq<int>)
    ensures lt == [1] && le == [1, 2]
  {
    Prefixes(1, 1, 1);
    Prefixes(2, 2, 2);
    Prefixes(3, 3, 3);
    lt := ScopeOverThree(SmallerThan([Int(2), Int(2)], false));
    le := ScopeOverThree(SmallerThan([Int(2), Int(2)], true));
  }

  /** `Between3Compound_3Params` and `BetweenIncluding3Compound_3Params`. */
  method BetweenFullBounds() returns (open: seq<int>, closed: seq<int>)
    ensures open == [2] && closed == [1, 2, 3]
  {
    Prefixes(1, 1, 1);
    Prefixes(2, 2, 2);
    Prefixes(3, 3, 3);
    open := ScopeOverThree(Between(Key3(1, 1, 1), false, Key3(3, 3, 3), false));
    closed := ScopeOverThree(Between(Key3(1, 1, 1), true, Key3(3, 3, 3), true));
  }

  /** `Between3Compound_2Params` and `BetweenIncluding3Compound_2Params`. */
  method BetweenPrefixBounds() returns (open: seq<int>, closed: seq<int>)
    ensures open == [2] && closed == [1, 2, 3]
  {
    Prefixes(1, 1, 1);
    Prefixes(2, 2, 2);
    Prefixes(3, 3, 3);
    open := ScopeOverThree(Between([Int(1), Int(1)], false, [Int(3), Int(3)], false));
    closed := ScopeOverThree(Between([Int(1), Int(1)], true, [Int(3), Int(3)], true));
  }

  /** `SmallerThan_Descending` and `GreaterThan_Descending`, with
      one-component prefix bounds. */
  method DescendingScopes() returns (ltDown: seq<int>, gtDown: seq<int>)
    ensures ltDown == [2, 1] && gtDown == [3, 2]
  {
    Prefixes(1, 1, 1);
    Prefixes(2, 2, 2);
    Prefixes(3, 3, 3);
    assert Reverse([1, 2]) == [2, 1] && Reverse([2, 3]) == [3, 2];
    ltDown := DescendingOverThree(SmallerThan([Int(3)], false));
    gtDown := DescendingOverThree(GreaterThan([Int(1)], false));
  }

  /** The keys a range scope enumerates from the three-component index. */
  method KeysOverThree(s: Scope) returns (keys: seq<Key>)
    requires !s.Descending?
    ensures keys == (if Matches(s, Key3(1, 1, 1)) then [Key3(1, 1, 1)] else []) +
                    (if Matches(s, Key3(2, 2, 2)) then [Key3(2, 2, 2)] else []) +
                    (if Matches(s, Key3(3, 3, 3)) then [Key3(3, 3, 3)] else [])
  {
    var index := Three();
    SelectedKeys(s);
    keys := KeysOf(Enumerate(s, index));
  }

  /** `SmallerThan_Keys` and `GreaterThan_Keys`: the keys of the selected
      entries, in index order. */
  method KeysScopes() returns (ltKeys: seq<Key>, geKeys: seq<Key>)
    ensures ltKeys == [Key3(1, 1, 1), Key3(2, 2, 2)] && geKeys == [Key3(2, 2, 2), Key3(3, 3, 3)]
  {
    Prefixes(1, 1, 1);
    Prefixes(2, 2, 2);
    Prefixes(3, 3, 3);
    ltKeys := KeysOverThree(SmallerThan([Int(3)], false));
    geKeys := KeysOverThree(GreaterThan([Int(2)], true));
  }

  /** `Insert_Unique_Compound_Of2`: indexable 1 in a unique index is found
      by its key. */
  method UniqueOne() returns (c: Collection, found: Option<int>)
    ensures fresh(c) && c.Valid() && c.definitions == [UniqueCompound1And2()]
    ensures c.objects == [Indexable(1)] && c.indexes == [[IndexEntry([Int(1), Int(1)], 1)]]
    ensures found == Some(1)
  {
    var def := UniqueCompound1And2();
    c := new Collection([def]);
    var one := Indexable(1);
    assert c.indexes == [[]];
    var r := c.Persist(one);
    assert c.indexes[0] == [EntryFor(def, one)];
    found := FindKey(c.indexes[0], [Int(1), Int(1)]);
  }

  /** `Allow_Updating_Object_In_Unique_Index`: an update that keeps the key
      is accepted, and the key still finds indexable 1. */
  method UniqueIndex() returns (c: Collection, found: Option<int>, foundAfterUpdate: Option<int>)
    ensures fresh(c) && c.Valid() && c.definitions == [UniqueCompound1And2()]
    ensures c.indexes == [[IndexEntry([Int(1), Int(1)], 1)]]
    ensures found == Some(1) && foundAfterUpdate == Some(1)
  {
    c, found := UniqueOne();
    var def := c.definitions[0];
    var one := Indexable(1);
    var updated := Obj(1, one.props[7 := Str("Updated")]);
    FoundById(c.objects, one);
    var r := c.Persist(updated);
    assert c.indexes[0] == [EntryFor(def, updated)];
    foundAfterUpdate := FindKey(c.indexes[0], [Int(1), Int(1)]);
  }

  /** `Throws_DuplicateIndexEntryException_When_Inserting_Duplicate_Keys_In_Unique_Index`:
      another object with the same key is refused and nothing changes. */
  method UniqueRejectsDuplicate() returns (duplicate: Result<(), PersistError>, kept: bool)
    ensures duplicate == Err(DuplicateKey)
    ensures kept
  {
    var c, _, _ := UniqueIndex();
    var def := c.definitions[0];
    var before := c.objects;
    var conflicting := Obj(2, Indexable(2).props[0 := Int(1)][1 := Int(1)]);
    assert def.value(conflicting) == [Int(1), Int(1)];
    assert Conflict(c.indexes[0], def.value(conflicting), conflicting.id);
    assert Violates(c.indexes, c.definitions, conflicting);
    duplicate := c.Persist(conflicting);
    assert duplicate.Err?;
    assert duplicate.error.DuplicateKey?;
    kept := c.objects == before;
  }

  /** Persisting a new object the one index's predicate refuses leaves the
      index as it was. */
  method Skipped(c: Collection, o: Obj)
    requires c.Valid() && |c.definitions| == 1 && !c.definitions[0].unique && !c.definitions[0].guard(o)
    requires forall x :: x in c.objects ==> x.id != o.id
    modifies c
    ensures c.Valid() && c.indexes == old(c.indexes)
  {
    Indexed(c, o);
  }

  /** The index over `Prop4, Prop8` after indexables 1, 2, 3 are persisted. */
  method PredicateOneTwoThree() returns (c: Collection)
    ensures fresh(c) && c.Valid() && c.definitions == [CompoundWithPredicate()]
    ensures c.objects == [Indexable(1), Indexable(2), Indexable(3)]
    ensures c.indexes == [[EntryFor(CompoundWithPredicate(), Indexable(1)),
                           EntryFor(CompoundWithPredicate(), Indexable(2)),
                           EntryFor(CompoundWithPredicate(), Indexable(3))]]
  {
    FixtureKeys(1);
    FixtureKeys(2);
    FixtureKeys(3);
    assert Compare([Str("1"), Str("1")], [Str("2"), Str("2")]) < 0;
    assert Compare([Str("2"), Str("2")], [Str("3"), Str("3")]) < 0;
    c := OneTwoThree(CompoundWithPredicate());
  }

  /** The same index after a blank object, whose `Prop4` is null, is
      persisted too. */
  method PredicateIndexed() returns (index: seq<IndexEntry>)
    ensures index == [EntryFor(CompoundWithPredicate(), Indexable(1)),
                      EntryFor(CompoundWithPredicate(), Indexable(2)),
                      EntryFor(CompoundWithPredicate(), Indexable(3))]
  {
    var c := PredicateOneTwoThree();
    assert Prop(Blank(123), 3) == Null;
    Skipped(c, Blank(123));
    index := c.indexes[0];
  }

  /** `Insert_Optional_Compound_Of2`: the object with a null `Prop4` stays out
      of the index; the others are all in it. */
  method PredicateIndex() returns (ids: seq<int>)
    ensures ids == [1, 2, 3]
  {
    var index := PredicateIndexed();
    ids := AllOverThree(index);
  }
}
