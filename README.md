# MarcelloDB core, modelled in Dafny

MarcelloDB is an embedded object store. It persists application objects to
one backing file and finds them again by ID or through secondary indexes:
single, compound, range-scoped and unique. This project models the five
sequential, in-memory components whose behaviour the repository's tests and
test doubles pin down:

- **The B-tree over an address-keyed node arena.**
  - `TestDataProvider` keeps nodes in an `address -> node` dictionary. The root
    sits at address 0, and fresh addresses come from a counter that starts at 1.
  - `BTree<int, int>` offers `Insert` (an upsert), `Search` and `Delete`, and
    reports its `Height`.
  - The algorithms are value-level: a top-down insert that splits full nodes,
    and a delete that borrows from or merges with siblings.
  - `BTree` methods compute a new tree with them and write it back into the
    arena.
  - They are proved to keep the B-tree invariant. They change the in-order
    contents exactly as a sorted-sequence upsert or removal would.
  - The `ValidateTree`/`ValidateSubtree` check of the tests is modelled as
    written, and as evidently intended.
  - Modules: `SortedEntries`, `BTreeModel`, `BTreeInsert`, `BTreeDelete`,
    `BTreeValidate`, `BTreeArena`, `BTreeScenarios`.
- **The record manager as a state machine.**
  - Its state: a stream length, the live records (`address -> (data, allocated
    size)`), a pool of recycled slots, and a directory of named addresses.
    0 means "not registered".
  - `AppendRecord` draws on the pool (first fit) before it grows the stream.
  - `UpdateRecord` rewrites in place when the slot is large enough. Otherwise
    it recycles the slot and appends.
  - The allocation strategy is a parameter `dataSize -> allocatedSize`.
  - Pure `Store` functions specify each operation. The `RecordManager` class
    holds the same state in fields and is proved against those functions.
  - Modules: `Records`, `RecordScenarios`.
- **`RecordIndex`.** A `key -> address` map kept in a `BTree`.
  - `Search` yields 0 for an absent key.
  - `Register` inserts or overwrites, then flushes.
  - `UnRegister` deletes, then flushes.
  - The calls the index makes on its tree are logged, so the tests' "one
    insert, no delete" expectations can be stated.
  - Module: `RecordIndexes`.
- **Compound keys and range scopes.**
  - Keys are tuples of null, integral or string components, ordered
    lexicographically.
  - A bound with fewer components than the key compares only the components
    it supplies.
  - The scopes are `All`, `Equals`, `GreaterThan(OrEqual)`,
    `SmallerThan(OrEqual)`, `Between`/`And` and
    `BetweenIncluding`/`AndIncluding`. Each selects, in index order, the
    entries whose key is in range.
  - `Descending` forces a backward walk of the scope it wraps (`Descending.cs`).
  - `.Keys` projects the selected entries onto their keys.
  - Modules: `CompoundKeys`, `OrderedIndex`, `Scopes`.
- **The ordered collection.**
  - `Persist` replaces the object with the same ID, or appends a new one.
    The model keeps a replaced object at its position (see Left out).
  - `Destroy` removes the object with an ID.
  - `All` lists the objects in first-persisted order.
  - Every index definition files the objects that pass its predicate under
    the key it computes.
  - A unique index rejects, with no change at all, a persist that would bind
    a key to a second object.
  - Modules: `Collections`, `CollectionScenarios`.

The tests of the repository are modelled as methods or lemmas whose
postconditions are the tests' assertions. For example,
`CollectionScenarios.GreaterThanPrefixBound` states that `GreaterThan(2,2)`
yields object 3 only. Integers are unbounded. B-tree keys and pointers are
the `int`s of `BTree<int, int>`.

## Model

| member | source | states |
|---|---|---|
| BTreeArena.TestDataProvider.constructor | Marcello.Test/Index/BTreeTest.cs:11-14 | a new provider has no nodes and no root, and its address counter is at 1 |
| BTreeArena.TestDataProvider.AddNode | Marcello.Test/Index/BTreeTest.cs:40-43 | a node is added exactly when its address is not yet taken; otherwise the arena is unchanged (`Dictionary.Add` refuses a duplicate key) |
| BTreeArena.TestDataProvider.GetRootNode | Marcello.Test/Index/BTreeTest.cs:16-25 | the first call creates an empty root at address 0 and registers it; every later call returns that same node and creates nothing; the counter never moves |
| BTreeArena.TestDataProvider.GetNode | Marcello.Test/Index/BTreeTest.cs:27-30 | yields the node stored at an address, carrying that address; yields nothing when the address holds no node |
| BTreeArena.TestDataProvider.CreateNode | Marcello.Test/Index/BTreeTest.cs:32-38 | a new empty node at the counter's address (at least 1, never used before) is registered and the counter advances by one; no other node changes |
| BTreeArena.BTree.constructor | Marcello.Test/Index/BTreeTest.cs:68-79 | a new tree is a root with 0 entries and 0 children, held at address 0 of the arena |
| BTreeArena.BTree.Root | Marcello.Test/Index/BTreeTest.cs:73-78 | the root read from address 0 holds the tree's root entries and one child address per child; the arena is unchanged |
| BTreeArena.BTree.Search | Marcello.Test/Index/BTreeTest.cs:147-188 | reading nodes through the arena, finds an entry exactly when the key is in the tree; that entry is in the tree and has the key; the result is the model tree's `Search` |
| BTreeArena.BTree.Height | Marcello.Test/Index/BTreeTest.cs:82-100 | walking the leftmost path through the arena counts the levels of the tree |
| BTreeArena.BTree.Insert | Marcello.Test/Index/BTreeTest.cs:168-177 | the tree stays valid and stored at address 0; its contents become the old contents with `(key, pointer)` upserted |
| BTreeArena.BTree.Delete | Marcello.Test/Index/BTreeTest.cs:112-116 | the tree stays valid and stored; its contents lose exactly the key; deleting an absent key leaves the tree as it was |
| BTreeModel.SearchFinds | Marcello.Test/Index/BTreeTest.cs:179-188 | on a valid tree, the root-to-leaf `Search` finds exactly what a lookup in the tree's in-order contents finds |
| BTreeModel.FlattenSorted | Marcello.Test/Index/BTreeTest.cs:222-239 | a valid subtree's in-order keys are strictly ascending and lie within the bounds its parent's separators set |
| BTreeInsert.InsertSpec | Marcello.Test/Index/BTreeTest.cs:173-177 | `Insert` keeps the invariant (entry counts, separator bounds, one child per gap, equal heights); the contents become the upsert of `(key, pointer)`; the height grows by one exactly when a new key meets a full root |
| BTreeInsert.SearchAfterInsert | Marcello.Test/Index/BTreeTest.cs:179-188 | after `Insert(k, p)`, `Search(k)` is `(k, p)`, and every other key is found as before |
| BTreeDelete.DeleteSpec | Marcello.Test/Index/BTreeTest.cs:112-133 | `Delete` keeps the invariant; the contents lose exactly key `k`; an absent key leaves the tree unchanged; the height stays or drops by one |
| BTreeDelete.SearchAfterDelete | Marcello.Test/Index/BTreeTest.cs:112-116 | after `Delete(k)`, `Search(k)` finds nothing, and every other key is found as before |
| BTreeValidate.ValidNodeChecked | Marcello.Test/Index/BTreeTest.cs:214-247 | every node of a valid subtree passes the per-node check: its entry count, its keys within the inclusive bounds, and its children checked recursively (with at least two children at the root) |
| BTreeValidate.ValidTreeValidates | Marcello.Test/Index/BTreeTest.cs:190-200 | a valid tree passes `ValidateTree` with all its keys expected, and every key is found exactly once |
| BTreeValidate.ValidTreeValidatesAtDegreeTwo | Marcello.Test/Index/BTreeTest.cs:190-247 | at degree 2, which is the tests' degree, the check as written accepts every valid tree |
| BTreeValidate.CheckedIsAsWrittenAtTwo | Marcello.Test/Index/BTreeTest.cs:241-244 | at degree 2, the corrected check implies the check as written, whose `Count >= degree` child test then asks no more than two children at the root |
| BTreeValidate.AsWrittenRejectsValidRoot | Marcello.Test/Index/BTreeTest.cs:241-244 | a valid degree-3 tree whose root holds one entry and two children fails the check as written |
| BTreeScenarios.AppendStep | Marcello.Test/Index/BTreeTest.cs:173-177 | inserting a key above all present keys appends it to the contents, and the tree then passes `ValidateTree` |
| BTreeScenarios.DeleteFirstStep | Marcello.Test/Index/BTreeTest.cs:112-116 | deleting the smallest key drops the first entry, and the tree passes `ValidateTree` on the remaining keys |
| BTreeScenarios.DeleteAbsentStep | Marcello.Test/Index/BTreeTest.cs:131-132 | deleting a key above every present key leaves the contents unchanged, and the tree passes `ValidateTree` on them |
| BTreeScenarios.CreateBTree | Marcello.Test/Index/BTreeTest.cs:68-79 | a new tree's root has 0 entries and 0 children |
| BTreeScenarios.InsertOneNode | Marcello.Test/Index/BTreeTest.cs:81-87 | one insertion leaves a valid tree of height 1 |
| BTreeScenarios.InsertMultipleNodesToSplit | Marcello.Test/Index/BTreeTest.cs:89-100 | inserting 10, 20, 30, 50 at degree 2 (validating after each) gives height 2 |
| BTreeScenarios.InsertAll | Marcello.Test/Index/BTreeTest.cs:94-97 | the four fixture insertions leave the contents `(10,50) (20,60) (30,40) (50,20)` at height 2 |
| BTreeScenarios.DeleteNodes | Marcello.Test/Index/BTreeTest.cs:102-119 | deleting the four keys in insertion order, validating after each, returns to height 1 |
| BTreeScenarios.DeleteNonExistingNode | Marcello.Test/Index/BTreeTest.cs:121-133 | deleting 99999 leaves all four keys found with their pointers, and the resulting tree passes `ValidateTree(root, 2, 10, 20, 30, 50)` |
| BTreeScenarios.SearchTestData | Marcello.Test/Index/BTreeTest.cs:179-188 | on a tree holding the first `n` fixture entries, searching each of their keys finds that entry with its pointer |
| BTreeScenarios.InsertAndSearch | Marcello.Test/Index/BTreeTest.cs:140-144 | inserting the fixture entries one by one, and searching all keys inserted so far after each insertion: the `n`-th round finds exactly the first `n` entries, each with its pointer |
| BTreeScenarios.SearchNodes | Marcello.Test/Index/BTreeTest.cs:135-145 | after the first, second, third and fourth insertion the searches return exactly the entries inserted so far |
| BTreeScenarios.SearchNonExistingNode | Marcello.Test/Index/BTreeTest.cs:147-165 | 9999 is not found on the empty tree nor on the populated one, and every search in between finds the keys inserted so far |
| Records.FirstFit | MarcelloDB.Test/Records/RecordManagerTest.cs:134-145 | the pool slot chosen for an allocation is the first with room for it; no earlier slot has room, and none at all when nothing is chosen |
| Records.EmptyValid | MarcelloDB.Test/Records/RecordManagerTest.cs:33-43 | a fresh store satisfies the store invariant and holds no record |
| Records.AppendSpec | MarcelloDB.Test/Records/RecordManagerTest.cs:45-82 | append keeps the store valid. The record lands at a positive address that was not live, and `GetRecord` there returns exactly the data. Its allocated size is at least the strategy's, and exactly the strategy's when the stream grows. No other record changes. The stream does not grow when a pooled slot fits, and otherwise grows by one header plus the allocation |
| Records.RecycleSpec | MarcelloDB.Test/Records/RecordManagerTest.cs:134-145 | recycling keeps the store valid: the record stops being live and joins the end of the pool with its allocated size; the stream and other records are unchanged; recycling twice is recycling once |
| Records.UpdateSpec | MarcelloDB.Test/Records/RecordManagerTest.cs:60-110 | update keeps the store valid and returns a record with the new data, which `GetRecord` returns. When the slot is large enough, the record keeps its address and allocated size, and neither the stream nor the pool changes. Otherwise the old address is freed and the data goes where `AppendRecord` would put it. Updating a record that is not live changes nothing |
| Records.NamedSpec | MarcelloDB.Test/Records/RecordManagerTest.cs:112-132 | a registered name yields its address, other names keep theirs, an unregistered name yields 0, and registering touches no record, pool slot or stream length |
| Records.SaveStateSpec | MarcelloDB.Test/Records/RecordManagerTest.cs:158-170 | `SaveState` records the pool and the directory and changes nothing a later operation reads |
| Records.NotRecycledTwice | MarcelloDB.Test/Records/RecordManagerTest.cs:147-156 | after a recycle, two appends get different addresses |
| Records.RecycledSlotReused | MarcelloDB.Test/Records/RecordManagerTest.cs:134-145 | after recycling a record, an append that fits its slot does not grow the stream |
| Records.RecordManager.constructor | MarcelloDB.Test/Records/RecordManagerTest.cs:33-43 | a new manager is the empty store: no records, pool or names, with the stream ending at the first address |
| Records.RecordManager.FindFreeSlot | MarcelloDB.Test/Records/RecordManagerTest.cs:134-145 | the loop over the pool finds the first fitting slot, as `FirstFit` specifies |
| Records.RecordManager.AppendRecord | MarcelloDB.Test/Records/RecordManagerTest.cs:45-50 | the new state and the returned record are `Append` of the old state, at the strategy's size for the data; the store stays valid |
| Records.RecordManager.GetRecord | MarcelloDB.Test/Records/RecordManagerTest.cs:52-58 | returns the live record at the address, with that address and the stored data, or nothing |
| Records.RecordManager.Recycle | MarcelloDB.Test/Records/RecordManagerTest.cs:134-145 | the new state is `Recycled` of the old; the store stays valid |
| Records.RecordManager.UpdateRecord | MarcelloDB.Test/Records/RecordManagerTest.cs:60-66 | the new state and result are `Update` of the old state at the record's address, at the strategy's size for the new data |
| Records.RecordManager.RegisterNamedRecordAddress | MarcelloDB.Test/Records/RecordManagerTest.cs:119-124 | the directory binds the name to the address |
| Records.RecordManager.GetNamedRecordAddress | MarcelloDB.Test/Records/RecordManagerTest.cs:112-117 | yields the registered address, and 0 for a name never registered |
| Records.RecordManager.SaveState | MarcelloDB.Test/Records/RecordManagerTest.cs:158-170 | the new state is `Saved` of the old |
| RecordScenarios.AppendRecordAssignsAddress | MarcelloDB.Test/Records/RecordManagerTest.cs:45-73 | an appended record has an address greater than 0 |
| RecordScenarios.GetRecordReturnsAppendedRecord | MarcelloDB.Test/Records/RecordManagerTest.cs:52-58 | `GetRecord` after `AppendRecord([1,2,3])` returns `[1,2,3]` |
| RecordScenarios.UpdateRecordUpdatesRecord | MarcelloDB.Test/Records/RecordManagerTest.cs:60-100 | `UpdateRecord` to `[4,5,6]` returns that data, and `GetRecord` at the original address then returns it |
| RecordScenarios.UsesOverriddenAllocationStrategy | MarcelloDB.Test/Records/RecordManagerTest.cs:75-82 | with a strategy of size 200, a fresh record is allocated 200 bytes |
| RecordScenarios.UpdateRecordUsesOverriddenAllocationStrategy | MarcelloDB.Test/Records/RecordManagerTest.cs:83-91 | appended at size 10 and updated after the strategy changed to 200, the record is allocated 200 bytes |
| RecordScenarios.UpdateRecordDoesntIncreaseStorageSize | MarcelloDB.Test/Records/RecordManagerTest.cs:102-110 | an update that fits the slot leaves the stream length unchanged |
| RecordScenarios.NamedRecordAddresses | MarcelloDB.Test/Records/RecordManagerTest.cs:112-132 | an unregistered name gives 0; two names registered as 123 and 456 give back 123 and 456 |
| RecordScenarios.AppendRecordReusesEmptyRecord | MarcelloDB.Test/Records/RecordManagerTest.cs:134-145 | appending after a recycle does not grow the stream |
| RecordScenarios.RecordDoesNotGetRecycledTwice | MarcelloDB.Test/Records/RecordManagerTest.cs:147-156 | two appends after one recycle get different addresses |
| RecordScenarios.SmallAndFreedGiant | MarcelloDB.Test/Records/RecordManagerTest.cs:158-166 | the test's set-up: a one-byte record stays live, and a saved pool holds the recycled 100-byte slot first |
| RecordScenarios.UpdateReusesFreed | MarcelloDB.Test/Records/RecordManagerTest.cs:158-170 | an update that must relocate into a pooled slot that fits it does not grow the stream |
| RecordScenarios.UpdateRecordReusesEmptyRecord | MarcelloDB.Test/Records/RecordManagerTest.cs:158-170 | growing the one-byte record to 20 bytes reuses the freed slot, and the stream length stays as it was |
| RecordIndexes.LookupSpec | MarcelloDB.Test/Index/IndexTest.cs:27-45 | an absent key yields 0; a present key yields the address of its entry |
| RecordIndexes.RegisterLookup | MarcelloDB.Test/Index/IndexTest.cs:47-61 | after registering `k -> a`, `k` yields `a`, and every other key yields what it did before |
| RecordIndexes.UnRegisterLookup | MarcelloDB.Test/Index/IndexTest.cs:70-76 | after unregistering `k`, `k` yields 0, and every other key yields what it did before |
| RecordIndexes.RecordIndex.constructor | MarcelloDB.Test/Index/IndexTest.cs:18-25 | a new index over a tree has made no calls and has not flushed |
| RecordIndexes.RecordIndex.Search | MarcelloDB.Test/Index/IndexTest.cs:27-45 | the address registered for the key in the tree, and 0 when the key is absent |
| RecordIndexes.RecordIndex.Register | MarcelloDB.Test/Index/IndexTest.cs:47-68 | the tree's contents become the upsert of `(key, address)`; exactly one insert call is made, and the provider has flushed |
| RecordIndexes.RecordIndex.UnRegister | MarcelloDB.Test/Index/IndexTest.cs:70-83 | the tree's contents lose the key; exactly one delete call is made, and the provider has flushed, present key or not |
| RecordIndexes.SearchReturnsZeroWhenIndexEmpty | MarcelloDB.Test/Index/IndexTest.cs:27-31 | `Search` on an empty index yields 0 |
| RecordIndexes.SearchAfterTreeInsert | MarcelloDB.Test/Index/IndexTest.cs:33-45 | after the tree received `1 -> 2`, key 123 yields 0 and key 1 yields 2 |
| RecordIndexes.RegisterInsertsWhenKeyNotPresent | MarcelloDB.Test/Index/IndexTest.cs:47-68 | `Register(1, 2)` on an empty index makes the insert `(1, 2)`, stores it and flushes |
| RecordIndexes.RegisterInsertsNewValueOnUpdate | MarcelloDB.Test/Index/IndexTest.cs:54-61 | re-registering key 1 with address 3 overwrites through a single insert and no delete |
| RecordIndexes.UnRegisterDeletes | MarcelloDB.Test/Index/IndexTest.cs:70-83 | `UnRegister(1)` makes one delete of 1, after which 1 yields 0; unregistering an absent key still flushes |
| CompoundKeys.Prefix | MarcelloDB.Test/Integration/CompoundIndexesTest.cs:171-184 | the part of a key a prefix bound compares: the first `n` components, or all of a shorter key |
| CompoundKeys.LexOrder | MarcelloDB.Test/Integration/CompoundIndexesTest.cs:137-152 | the component-by-component order of sequences is a total order whenever the element order is |
| CompoundKeys.StringOrder | MarcelloDB.Test/Integration/CompoundIndexesTest.cs:458-470 | ordinal string comparison is a total order |
| CompoundKeys.ComponentOrder | MarcelloDB.Test/Integration/CompoundIndexesTest.cs:55-66 | key components are totally ordered, and compare equal exactly when they are equal |
| CompoundKeys.KeyOrder | MarcelloDB.Test/Integration/CompoundIndexesTest.cs:137-152 | compound keys are totally ordered (antisymmetric, transitive), and compare equal exactly when every component is equal |
| CompoundKeys.FullBound | MarcelloDB.Test/Integration/CompoundIndexesTest.cs:154-169 | a bound with as many components as the key compares the whole key |
| CompoundKeys.BoundZero | MarcelloDB.Test/Integration/CompoundIndexesTest.cs:171-200 | a key is on a prefix bound exactly when the bound is a prefix of the key |
| CompoundKeys.BoundMonotone | MarcelloDB.Test/Integration/CompoundIndexesTest.cs:154-277 | a key that is lower than another is never further above a bound, nor further below it |
| OrderedIndex.EntryOrder | MarcelloDB.Test/Integration/CompoundIndexesTest.cs:137-152 | index entries are totally ordered, the key first and the object ID breaking ties |
| OrderedIndex.InsertSpec | MarcelloDB.Test/Integration/CompoundIndexesTest.cs:137-152 | registering keeps the index strictly ordered, and adds exactly the new entry |
| OrderedIndex.RemoveSpec | MarcelloDB.Test/Integration/CompoundIndexesTest.cs:429-440 | unregistering keeps the index strictly ordered, and drops exactly that entry |
| OrderedIndex.OrderedUnique | MarcelloDB.Test/Integration/CompoundIndexesTest.cs:137-152 | an ordered index is determined by its entries: `All` does not depend on insertion order |
| OrderedIndex.Conflict | MarcelloDB.Test/Integration/CompoundIndexesTest.cs:442-456 | true exactly when the index binds the key to an object other than the given one |
| OrderedIndex.FindKey | MarcelloDB.Test/Integration/CompoundIndexesTest.cs:418-427 | `Find` yields an object filed under the key, or nothing exactly when no entry has that key |
| Scopes.SelectMembers | MarcelloDB.Test/Integration/CompoundIndexesTest.cs:154-292 | a scope selects an entry exactly when it is in the index and the scope matches its key |
| Scopes.SelectOrdered | MarcelloDB.Test/Integration/CompoundIndexesTest.cs:137-152 | what a scope selects keeps index order |
| Scopes.BackwardWalk | MarcelloDB/Collections/Scopes/Descending.cs:16-19 | asked for a descending enumerator, any scope (wrapped or not) walks its selection in reverse index order |
| Scopes.EnumerateMembers | MarcelloDB/Collections/Scopes/Descending.cs:9-19 | any scope, `Descending` included, enumerates exactly the index entries whose key it matches; `Descending` adds no filter |
| Scopes.EnumerateAscending | MarcelloDB.Test/Integration/CompoundIndexesTest.cs:373-403 | a range scope enumerates in ascending index order |
| Scopes.DescendingReverses | MarcelloDB/Collections/Scopes/Descending.cs:16-19 | `Descending(s)` enumerates what `s` enumerates, reversed |
| Scopes.DescendingOrder | MarcelloDB.Test/Integration/CompoundIndexesTest.cs:294-341 | every `Descending` scope enumerates in strictly descending order |
| Scopes.DescendingIdempotent | MarcelloDB/Collections/Scopes/Descending.cs:18 | `Descending(Descending(s))` enumerates the same as `Descending(s)` |
| Scopes.BoundsClosed | MarcelloDB.Test/Integration/CompoundIndexesTest.cs:154-277 | above a bound is closed upwards, and below a bound is closed downwards, in entry order |
| Scopes.Contiguous | MarcelloDB.Test/Integration/CompoundIndexesTest.cs:154-403 | every scope selects a contiguous run of an ordered index |
| Scopes.KeysOf | MarcelloDB.Test/Integration/CompoundIndexesTest.cs:310-356 | `.Keys` holds the keys of the enumerated entries, one per entry, in the same order |
| Collections.Position | Marcello.Test/TestMarcello.cs:67-83 | where the object with an ID sits, and nothing exactly when no object has it |
| Collections.FindById | Marcello.Test/TestMarcello.cs:67-83 | lookup by ID yields an object of the collection with that ID, and nothing exactly when there is none |
| Collections.UpsertedSpec | Marcello.Test/TestMarcello.cs:67-138 | after a persist, IDs stay distinct, the ID finds the persisted object, and every other ID finds what it found before |
| Collections.ReplacedInPlace | Marcello.Test/TestMarcello.cs:67-138 | persisting an object whose ID is at position `i` replaces position `i` and nothing else |
| Collections.AppendedLast | Marcello.Test/TestMarcello.cs:29-65 | persisting an object with a new ID appends it at the end |
| Collections.WithoutSpec | Marcello.Test/TestMarcello.cs:140-202 | after a destroy, the ID is gone, every other ID finds what it found before, and the remaining objects are exactly the others |
| Collections.RemovedInPlace | Marcello.Test/TestMarcello.cs:152-202 | destroying the object at position `i` removes that position; the rest keep their order |
| Collections.DestroyUndoesPersist | Marcello.Test/TestMarcello.cs:140-150 | destroying an object just persisted with a new ID restores the collection |
| Collections.PersistIdempotent | MarcelloDB.Test/Integration/CompoundIndexesTest.cs:429-440 | persisting the same object twice is persisting it once |
| Collections.GuardDecides | MarcelloDB.Test/Integration/CompoundIndexesTest.cs:458-489 | an object of the collection is in an index exactly when it passes the index's predicate, and then under the key the definition computes |
| Collections.UniqueFind | MarcelloDB.Test/Integration/CompoundIndexesTest.cs:418-440 | in a unique index, the key of an indexed object finds exactly that object |
| Collections.UnindexLists | Marcello.Test/TestMarcello.cs:140-202 | unregistering an object's index entry leaves an index that lists the collection without that object, still unique if it was |
| Collections.ReindexLists | MarcelloDB.Test/Integration/CompoundIndexesTest.cs:429-440 | re-filing a persisted object leaves an index that lists the collection with the object persisted; a unique index with no conflict stays unique |
| Collections.Collection.constructor | Marcello.Test/TestMarcello.cs:16-27 | a new collection holds no objects and one empty index per definition |
| Collections.Collection.Persist | MarcelloDB.Test/Integration/CompoundIndexesTest.cs:442-456 | fails exactly when a unique index would bind the key to a second object, and then changes nothing; otherwise the objects become the upsert of `o` and every index re-files it; the collection stays valid |
| Collections.Collection.Destroy | Marcello.Test/TestMarcello.cs:140-202 | the objects lose the one with the ID, and every index drops its entry; the collection stays valid |
| CollectionScenarios.Holding | Marcello.Test/TestMarcello.cs:38-65 | persisting distinct-ID articles one by one lists them in that order |
| CollectionScenarios.InsertObjectShouldFindObject | Marcello.Test/TestMarcello.cs:29-36 | after one persist into an empty collection, `All.First` is that object |
| CollectionScenarios.MultipleObjects | Marcello.Test/TestMarcello.cs:38-65 | two and then three persisted articles are listed in persist order |
| CollectionScenarios.UpdateFirst | Marcello.Test/TestMarcello.cs:67-119 | re-persisting the first article, changed, replaces it (at its position, in this model); lookup by its ID returns the changed version |
| CollectionScenarios.UpdateLast | Marcello.Test/TestMarcello.cs:121-138 | re-persisting the last article, changed, replaces it (at its position, in this model) |
| CollectionScenarios.DeleteOnlyObject | Marcello.Test/TestMarcello.cs:140-150 | destroying the only article leaves the collection empty |
| CollectionScenarios.DestroyAt | Marcello.Test/TestMarcello.cs:152-202 | destroying the `i`-th of some articles leaves the others in order |
| CollectionScenarios.DeleteOne | Marcello.Test/TestMarcello.cs:152-202 | destroying the first, middle or last article removes only it, keeping the others' order |
| CollectionScenarios.DestroyLastThenPersist | Marcello.Test/TestMarcello.cs:204-236 | destroying the last article and persisting a new one puts the new one at the end |
| CollectionScenarios.DeleteThenInsert | Marcello.Test/TestMarcello.cs:204-236 | destroy-last-then-insert gives `[toiletPaper, barbieDoll]`; destroy-only-then-insert gives `[barbieDoll]` |
| CollectionScenarios.EqualsFindsExactKey | MarcelloDB.Test/Integration/CompoundIndexesTest.cs:68-135 | `Equals` with the full key of object 2 finds object 2 alone, on keys of 2, 3 and 4 components |
| CollectionScenarios.AllInKeyOrder | MarcelloDB.Test/Integration/CompoundIndexesTest.cs:137-152 | objects persisted as 3, 2, 1 are listed by `All` as 1, 2, 3 |
| CollectionScenarios.Three | MarcelloDB.Test/Integration/CompoundIndexesTest.cs:154-170 | persisting objects 1, 2, 3 under the three-component definition files them under `(i, i, i)`, in key order |
| CollectionScenarios.SelectedIds | MarcelloDB.Test/Integration/CompoundIndexesTest.cs:154-292 | over the three-object index, a scope yields the IDs whose keys it matches, in key order |
| CollectionScenarios.SelectedKeys | MarcelloDB.Test/Integration/CompoundIndexesTest.cs:310-356 | over the three-object index, a scope's `.Keys` are the matching keys, in key order |
| CollectionScenarios.GreaterThanFullBound | MarcelloDB.Test/Integration/CompoundIndexesTest.cs:154-200 | `GreaterThan(2,2,1)` and `GreaterThanOrEqual(2,2,1)` give objects 2 and 3 |
| CollectionScenarios.GreaterThanPrefixBound | MarcelloDB.Test/Integration/CompoundIndexesTest.cs:170-215 | `GreaterThan(2,2)` gives object 3 alone; `GreaterThanOrEqual(2,2)` gives 2 and 3 |
| CollectionScenarios.SmallerThanFullBound | MarcelloDB.Test/Integration/CompoundIndexesTest.cs:217-263 | `SmallerThan(2,2,3)` and `SmallerThanOrEqual(2,2,2)` give objects 1 and 2 |
| CollectionScenarios.SmallerThanPrefixBound | MarcelloDB.Test/Integration/CompoundIndexesTest.cs:233-277 | `SmallerThan(2,2)` gives object 1 alone; `SmallerThanOrEqual(2,2)` gives 1 and 2 |
| CollectionScenarios.BetweenFullBounds | MarcelloDB.Test/Integration/CompoundIndexesTest.cs:279-388 | exclusive `Between(1,1,1).And(3,3,3)` gives object 2; `BetweenIncluding`/`AndIncluding` gives 1, 2, 3 in ascending order |
| CollectionScenarios.BetweenPrefixBounds | MarcelloDB.Test/Integration/CompoundIndexesTest.cs:357-403 | the same with two-component bounds |
| CollectionScenarios.DescendingScopes | MarcelloDB.Test/Integration/CompoundIndexesTest.cs:294-341 | `SmallerThan(3).Descending` gives 2, 1; `GreaterThan(1).Descending` gives 3, 2 |
| CollectionScenarios.KeysScopes | MarcelloDB.Test/Integration/CompoundIndexesTest.cs:310-356 | `SmallerThan(3).Keys` gives keys (1,1,1) and (2,2,2); `GreaterThanOrEqual(2).Keys` gives (2,2,2) and (3,3,3), in key order |
| CollectionScenarios.UniqueIndex | MarcelloDB.Test/Integration/CompoundIndexesTest.cs:418-440 | `Find(1,1)` on the unique index finds object 1, also after object 1 is re-persisted, changed but with the same key |
| CollectionScenarios.UniqueRejectsDuplicate | MarcelloDB.Test/Integration/CompoundIndexesTest.cs:442-456 | persisting object 2 with object 1's key fails with the duplicate-key error, and object 1 keeps its key |
| CollectionScenarios.PredicateIndex | MarcelloDB.Test/Integration/CompoundIndexesTest.cs:458-489 | objects 1, 2, 3 are indexed, and the object without `Prop4` is not: `All` lists exactly 1, 2, 3 |

## Left out

- The B-tree's own source (`Marcello.Index.BTree`, `Node`) is not part of
  this model. Its algorithms are a textbook B-tree of minimum degree `d`:
  - insert splits full nodes top-down and upserts an existing key in place;
  - delete takes the in-order predecessor for an internal key and repairs a
    short child by borrowing from a sibling or merging with it;
  - the root collapses onto its only child when it empties.
  The tests constrain the observable results (contents, invariant, heights);
  the exact shape of intermediate trees is this model's choice.
- BTreeArena.BTree.Insert and BTreeArena.BTree.Delete rewrite the whole tree
  into the arena and never free a node. Replaced nodes stay in the
  dictionary, unreachable, so address reuse after a merge is not modelled.
- Node addresses are modelled as unbounded integers. `_lastAddress` is an
  `Int64` whose overflow is out of reach.
- `Flush` of the data provider does nothing in the test double. In
  `RecordIndex` it is modelled as a `wasFlushed` flag.
- `MockBTree`/`MockBTreeDataProvider` are not part of this model. The index
  runs over the modelled `BTree` and records its insert and delete calls
  instead.
- The storage engine, journalling and crash replay
  (`MarcelloDB/Storage/StorageEngine.cs`) are represented only by the
  stream length and each record's bytes. Header layout, `InMemoryStream`
  and durability are not modelled.
- The serializer (`Marcello/Serialization/IObjectSerializer.cs`) is not
  modelled. Objects are values: an ID and a list of property components.
- `IndexedIDValue` and `CompoundIndexedValue` are glue that forwards to the
  index. They are covered by `RecordIndexes` and `Collections`.
- The benchmarks (`MarcelloDB.BenchmarkTool`) do I/O and timing only.
- `double` key components (`Prop3`, `Prop7`) are modelled as integral
  components, so no floating-point comparison is modelled.
- Only one kind of value ever occupies a given index position. The model
  still needs an order between kinds, so it puts null below integral values
  and integral values below strings. String order is ordinal
  (code-unit-wise), not culture-sensitive.
- The engine breaks ties between equal keys in an index by record address.
  The model breaks them by object ID. Both give one entry per object; the
  order of equal-key entries may differ.
- Scope results are sequences. Lazy, restartable enumeration, and the
  deferral of the scan until `BuildEnumerator`, are not modelled.
- Collections.Upserted, Collections.ReplacedInPlace,
  CollectionScenarios.UpdateFirst and CollectionScenarios.UpdateLast: that a
  re-persisted object keeps its position in `All` is this model's choice.
  The update tests sort the names before comparing, so the engine's order
  after an update is not promised, and the model's order is stronger than
  what the engine guarantees.
- `Destroy` takes the object's ID, which is what the engine looks the object
  up by.
- The allocation strategy is a parameter. Records.RecordManager.AppendRecord,
  Records.RecordManager.UpdateRecord and the RecordScenarios methods require
  `|data| <= strategy(|data|)`: a strategy that allocates at least the data
  size, as every real strategy does. A strategy that allocates less is not
  modelled.
- Records.AppendSpec / Records.UpdateSpec: a record placed in a reused pool
  slot, or updated in place, keeps that slot's own allocated size, which is
  only known to be at least the strategy's size. The allocated size equals
  the strategy's exactly only when the stream grows; the tests check the
  exact size only in that case.
- BTreeArena.TestDataProvider.AddNode, BTreeArena.TestDataProvider.GetNode
  and BTreeArena.BTree.constructor: `Dictionary.Add` throws on a duplicate
  address, which `AddNode` models as `ok == false` with the nodes unchanged;
  the indexer in `GetNode` throws on a missing address, which is modelled as
  `None`. The constructor requires a provider without a root, as every test
  builds the tree over a fresh provider; a second tree over one provider is
  not modelled.
- `GetRecord` on an address that is not live yields `None`. The engine may
  instead fail, or read garbage, at an address that never held a record.
- Index-definition discovery by reflection is not modelled. Definitions are
  given as a list of key functions, predicates and uniqueness flags.

## Findings

| source | as written | input that shows it | evidently intended | confidence | as-written member | corrected member |
|---|---|---|---|---|---|---|
| Marcello.Test/Index/BTreeTest.cs:241-244 | `ValidateSubtree` asserts `ChildrenAddresses.Count >= degree` for every internal node, the root included | at degree 3, a root left by a root split: one entry (30) and two leaf children (10, 20) and (40, 50), which is a valid B-tree | only non-root nodes need `degree` children; an internal root needs two (one entry) | not executed; the tests use degree 2, where the two coincide | BTreeValidate.AsWrittenRejectsValidRoot | BTreeValidate.ValidTreeValidates |
