/** `RecordIndex`: an index key to record address map kept in a B-tree. A key
    that is not in the tree has address 0; registering inserts (or
    overwrites) and unregistering deletes, and both flush the data provider
    before they return. */
module RecordIndexes {
  import opened Wrappers
  import opened SortedEntries
  import opened BTreeModel
  import opened BTreeArena

  /** A call the index makes on its tree, as a recording tree sees it. */
  datatype TreeCall = InsertCall(key: int, pointer: int) | DeleteCall(key: int)

  /** The address stored for `k` in the tree's contents, 0 when `k` is absent. */
  function Lookup(s: seq<Entry>, k: int): int
  {
    match Find(s, k)
    case Some(e) => e.pointer
    case None => 0
  }

  /** After registering `k -> a`, `k` yields `a` and every other key what it
      yielded before. */
  lemma RegisterLookup(s: seq<Entry>, k: int, a: int, k': int)
    requires Sorted(s)
    ensures Lookup(Upsert(s, Entry(k, a)), k') == if k' == k then a else Lookup(s, k')
  {
    UpsertFind(s, Entry(k, a), k');
  }

  /** After unregistering `k`, `k` yields 0 and every other key what it
      yielded before. */
  lemma UnRegisterLookup(s: seq<Entry>, k: int, k': int)
    ensures Lookup(Remove(s, k), k') == if k' == k then 0 else Lookup(s, k')
  {
    RemoveFind(s, k, k');
  }

  /** A key that is absent yields 0; a present key yields the pointer of its
      entry. */
  lemma LookupSpec(s: seq<Entry>, k: int)
    ensures k !in Keys(s) ==> Lookup(s, k) == 0
    ensures k in Keys(s) ==> exists e :: e in s && e.key == k && Lookup(s, k) == e.pointer
  {
    if k in Keys(s) {
      var e := Find(s, k).value;
      assert e in s && e.key == k;
    }
  }

  class RecordIndex {
    const tree: BTree
    /** `WasFlushed` of the data provider. */
    var wasFlushed: bool
    /** The calls the index has made on its tree, oldest first. */
    var calls: seq<TreeCall>

    ghost predicate Valid()
      reads this, tree, tree.provider
    {
      tree.Valid()
    }

    /** The index's contents: the entries of its tree in key order. */
    ghost function Contents(): seq<Entry>
      reads this, tree
    {
      Flatten(tree.tree)
    }

    constructor(tree: BTree)
      requires tree.Valid()
      ensures Valid() && this.tree == tree && !wasFlushed && calls == []
    {
      this.tree := tree;
      wasFlushed := false;
      calls := [];
    }

    /** `Search(key)`: the registered address, or 0. */
    method Search(k: int) returns (address: int)
      requires Valid()
      ensures address == Lookup(Contents(), k)
      ensures k !in Keys(Contents()) ==> address == 0
    {
      var e := tree.Search(k);
      SearchFinds(tree.tree, tree.degree, 0, None, None, k);
      if e.Some? {
        address := e.value.pointer;
      } else {
        address := 0;
      }
    }

    /** `Register(key, address)`: one insert on the tree, which overwrites an
        existing address, then a flush. */
    method Register(k: int, address: int)
      requires Valid()
      modifies this, tree, tree.provider
      ensures Valid()
      ensures Contents() == Upsert(old(Contents()), Entry(k, address))
      ensures wasFlushed && calls == old(calls) + [InsertCall(k, address)]
    {
      tree.Insert(k, address);
      calls := calls + [InsertCall(k, address)];
      wasFlushed := true;
    }

    /** `UnRegister(key)`: one delete on the tree, then a flush, whether or
        not the key was there. */
    method UnRegister(k: int)
      requires Valid()
      modifies this, tree, tree.provider
      ensures Valid()
      ensures Contents() == Remove(old(Contents()), k)
      ensures wasFlushed && calls == old(calls) + [DeleteCall(k)]
    {
      tree.Delete(k);
      calls := calls + [DeleteCall(k)];
      wasFlushed := true;
    }
  }

  // ---------------------------------------------------------------------
  // The index test fixture (`IndexTest`), each test on a fresh index over a
  // fresh tree of degree 2.

  method FreshIndex() returns (index: RecordIndex)
    ensures fresh(index) && fresh(index.tree) && fresh(index.tree.provider)
    ensures index.Valid() && index.Contents() == [] && !index.wasFlushed && index.calls == []
  {
    var provider := new TestDataProvider();
    var tree := new BTree(provider, 2);
    index := new RecordIndex(tree);
  }

  /** `Search_Returns_Zero_When_Index_Empty`. */
  method SearchReturnsZeroWhenIndexEmpty() returns (address: int)
    ensures address == 0
  {
    var index := FreshIndex();
    address := index.Search(123);
  }

  /** `Search_Returns_Zero_When_Key_Not_Found` and
      `Search_Returns_Record_Address_When_Key_Found`, after the tree itself
      received `1 -> 2`. */
  method SearchAfterTreeInsert() returns (missing: int, found: int)
    ensures missing == 0 && found == 2
  {
    var index := FreshIndex();
    index.tree.Insert(1, 2);
    RegisterLookup([], 1, 2, 123);
    RegisterLookup([], 1, 2, 1);
    missing := index.Search(123);
    found := index.Search(1);
  }

  /** `Register_Inserts_When_Key_Not_Present` and
      `Register_Flushes_DataProvider`. */
  method RegisterInsertsWhenKeyNotPresent() returns (found: int, flushed: bool, last: TreeCall)
    ensures found == 2 && flushed && last == InsertCall(1, 2)
  {
    var index := FreshIndex();
    index.Register(1, 2);
    RegisterLookup([], 1, 2, 1);
    found := index.Search(1);
    flushed := index.wasFlushed;
    last := index.calls[|index.calls| - 1];
  }

  /** `Register_Inserts_New_Value_On_Update`: the new address replaces the old
      one through a single insert, with no delete. */
  method RegisterInsertsNewValueOnUpdate() returns (found: int, calls: seq<TreeCall>)
    ensures found == 3 && calls == [InsertCall(1, 3)]
  {
    var index := FreshIndex();
    index.tree.Insert(1, 2);
    assert index.Contents() == [Entry(1, 2)];
    index.Register(1, 3);
    RegisterLookup([Entry(1, 2)], 1, 3, 1);
    found := index.Search(1);
    calls := index.calls;
  }

  /** `UnRegister_Deletes_Original_Value` and `UnRegister_Flushes_DataProvider`
      (the latter on a key never registered). */
  method UnRegisterDeletes() returns (calls: seq<TreeCall>, found: int, flushedWhenAbsent: bool)
    ensures calls == [DeleteCall(1)] && found == 0 && flushedWhenAbsent
  {
    var index := FreshIndex();
    index.tree.Insert(1, 2);
    index.UnRegister(1);
    UnRegisterLookup([Entry(1, 2)], 1, 1);
    calls := index.calls;
    found := index.Search(1);
    var other := FreshIndex();
    other.UnRegister(1);
    flushedWhenAbsent := other.wasFlushed;
  }
}
