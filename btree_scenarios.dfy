/** The B-tree test fixture (`BTreeTest`) replayed on the arena model: degree
    2, keys 10, 20, 30, 50 with pointers 50, 60, 40, 20, and the test's
    `ValidateTree` check after every step. */
module BTreeScenarios {
  import opened Wrappers
  import opened SortedEntries
  import opened BTreeModel
  import opened BTreeValidate
  import opened BTreeArena
  import BTreeInsert
  import BTreeDelete

  /** The test's `ValidateTree(root, 2, expected...)` passes on a valid tree
      whose contents are `s`, expecting the keys of `s`. */
  lemma Validated(t: Tree, s: seq<Entry>)
    requires ValidTree(t, 2) && Flatten(t) == s
    ensures ValidateTreeAsWritten(t, 2, Keys(s))
  {
    ValidTreeValidatesAtDegreeTwo(t);
  }

  /** A leaf's contents are its entries; a valid tree with nothing in it is a
      single empty leaf of height 1. */
  lemma LeafOrEmpty(t: Tree, d: nat)
    requires ValidTree(t, d)
    ensures t.children == [] ==> Flatten(t) == t.entries && BTreeModel.Height(t) == 1
    ensures Flatten(t) == [] ==> t.children == [] && BTreeModel.Height(t) == 1
  {
    if t.children != [] {
      assert |t.children| == |t.entries| + 1 >= 2;
      assert Flatten(t) == Flatten(t.children[0]) + [t.entries[0]] + Interleave(t.entries[1..], t.children[1..]);
    }
  }

  /** An entry whose key is above all keys of a valid tree goes at the end. */
  lemma Appended(t: Tree, e: Entry)
    requires ValidTree(t, 2)
    requires Flatten(t) == [] || Flatten(t)[|Flatten(t)| - 1].key < e.key
    ensures Upsert(Flatten(t), e) == Flatten(t) + [e]
  {
    var s := Flatten(t);
    FlattenSorted(t, 2, 0, None, None);
    forall i | 0 <= i < |s| ensures s[i].key < e.key {
      if i < |s| - 1 {
        assert s[i].key < s[|s| - 1].key;
      }
    }
    UpsertPastLeft(s, [], e);
    assert s + [] == s;
  }

  /** Removing the smallest key of a valid tree drops the first entry. */
  lemma FirstRemoved(t: Tree, d: nat)
    requires ValidTree(t, d) && Flatten(t) != []
    ensures Remove(Flatten(t), Flatten(t)[0].key) == Flatten(t)[1..]
  {
    var s := Flatten(t);
    var k := s[0].key;
    FlattenSorted(t, d, 0, None, None);
    assert KeysAtLeast(s[1..], Some(k + 1));
    KeysAboveAbsent(s[1..], Some(k + 1), k);
    RemoveAbsent(s[1..], k);
  }

  /** A key above all keys of a valid tree is not in it, and `Search` misses it. */
  lemma AboveAll(t: Tree, d: nat, k: int)
    requires ValidTree(t, d)
    requires Flatten(t) == [] || Flatten(t)[|Flatten(t)| - 1].key < k
    ensures k !in Keys(Flatten(t)) && Shaped(t) && BTreeModel.Search(t, k) == None
  {
    var s := Flatten(t);
    FlattenSorted(t, d, 0, None, None);
    if s != [] {
      forall i | 0 <= i < |s| ensures s[i].key <= s[|s| - 1].key {
        if i < |s| - 1 {
          assert s[i].key < s[|s| - 1].key;
        }
      }
      KeysBelowAbsent(s, Some(s[|s| - 1].key), k);
    }
    SearchFinds(t, d, 0, None, None, k);
  }

  /** Every entry of a valid tree is what `Search` finds for its key. */
  lemma FoundAt(t: Tree, d: nat, i: nat)
    requires ValidTree(t, d) && i < |Flatten(t)|
    ensures Shaped(t) && BTreeModel.Search(t, Flatten(t)[i].key) == Some(Flatten(t)[i])
  {
    FlattenSorted(t, d, 0, None, None);
    SearchFinds(t, d, 0, None, None, Flatten(t)[i].key);
    FindSorted(Flatten(t), i);
  }

  lemma {:induction false} FindSorted(s: seq<Entry>, i: nat)
    requires Sorted(s) && i < |s|
    ensures Find(s, s[i].key) == Some(s[i])
    decreases i
  {
    if i > 0 {
      assert s[0].key < s[i].key;
      assert Sorted(s[1..]);
      FindSorted(s[1..], i - 1);
    }
  }

  /** One insertion of a key above every key present (the fixture's keys
      come in increasing order), validated as `InsertTestDataAndValidateTree`
      does; in a single leaf the height grows exactly when the leaf was full. */
  method AppendStep(b: BTree, k: int, p: int)
    requires b.Valid() && b.degree == 2
    requires Flatten(b.tree) == [] || Flatten(b.tree)[|Flatten(b.tree)| - 1].key < k
    modifies b, b.provider
    ensures b.Valid() && b.degree == 2
    ensures Flatten(b.tree) == old(Flatten(b.tree)) + [Entry(k, p)]
    ensures old(BTreeModel.Height(b.tree)) == 1 ==>
      BTreeModel.Height(b.tree) == if |old(Flatten(b.tree))| == 3 then 2 else 1
    ensures ValidateTreeAsWritten(b.tree, 2, Keys(Flatten(b.tree)))
  {
    ghost var t := b.tree;
    AboveAll(t, 2, k);
    Appended(t, Entry(k, p));
    LeafOrEmpty(t, 2);
    b.Insert(k, p);
    BTreeInsert.InsertSpec(t, k, p, 2);
    Validated(b.tree, Flatten(b.tree));
  }

  /** Deleting the smallest key, validated against the keys that remain. */
  method DeleteFirstStep(b: BTree, k: int)
    requires b.Valid() && b.degree == 2
    requires Flatten(b.tree) != [] && Flatten(b.tree)[0].key == k
    modifies b, b.provider
    ensures b.Valid() && b.degree == 2
    ensures Flatten(b.tree) == old(Flatten(b.tree))[1..]
    ensures ValidateTreeAsWritten(b.tree, 2, Keys(Flatten(b.tree)))
  {
    FirstRemoved(b.tree, 2);
    b.Delete(k);
    Validated(b.tree, Flatten(b.tree));
  }

  /** Deleting a key above every key present leaves the contents as they
      were, and the tree passes `ValidateTree` on them. */
  method DeleteAbsentStep(b: BTree, k: int)
    requires b.Valid() && b.degree == 2
    requires Flatten(b.tree) == [] || Flatten(b.tree)[|Flatten(b.tree)| - 1].key < k
    modifies b, b.provider
    ensures b.Valid() && b.degree == 2
    ensures Flatten(b.tree) == old(Flatten(b.tree))
    ensures ValidateTreeAsWritten(b.tree, 2, Keys(Flatten(b.tree)))
  {
    AboveAll(b.tree, 2, k);
    RemoveAbsent(Flatten(b.tree), k);
    b.Delete(k);
    Validated(b.tree, Flatten(b.tree));
  }

  /** Build the fixture's tree: the four insertions in order. */
  method InsertAll(b: BTree)
    requires b.Valid() && b.degree == 2 && b.tree == Node([], [])
    modifies b, b.provider
    ensures b.Valid() && b.degree == 2
    ensures Flatten(b.tree) == [Entry(10, 50), Entry(20, 60), Entry(30, 40), Entry(50, 20)]
    ensures BTreeModel.Height(b.tree) == 2
  {
    AppendStep(b, 10, 50);
    AppendStep(b, 20, 60);
    AppendStep(b, 30, 40);
    AppendStep(b, 50, 20);
  }

  /** `CreateBTree`: a new tree's root has no entries and no children. */
  method CreateBTree() returns (entryCount: nat, childCount: nat)
    ensures entryCount == 0 && childCount == 0
  {
    var provider := new TestDataProvider();
    var b := new BTree(provider, 2);
    var root := b.Root();
    entryCount := |root.entries|;
    childCount := |root.childrenAddresses|;
  }

  /** `InsertOneNode`: one insertion leaves a tree of height 1. */
  method InsertOneNode() returns (h: nat)
    ensures h == 1
  {
    var provider := new TestDataProvider();
    var b := new BTree(provider, 2);
    AppendStep(b, 10, 50);
    h := b.Height();
  }

  /** `InsertMultipleNodesToSplit`: the fourth key splits the full root. */
  method InsertMultipleNodesToSplit() returns (h: nat)
    ensures h == 2
  {
    var provider := new TestDataProvider();
    var b := new BTree(provider, 2);
    InsertAll(b);
    h := b.Height();
  }

  /** `DeleteNodes`: deleting the keys in insertion order, validating the
      remaining keys after each step, ends at height 1. */
  method DeleteNodes() returns (h: nat)
    ensures h == 1
  {
    var provider := new TestDataProvider();
    var b := new BTree(provider, 2);
    InsertAll(b);
    DeleteFirstStep(b, 10);
    DeleteFirstStep(b, 20);
    DeleteFirstStep(b, 30);
    DeleteFirstStep(b, 50);
    LeafOrEmpty(b.tree, 2);
    h := b.Height();
  }

  /** `DeleteNonExistingNode`: deleting 99999 leaves every key in place, and
      the test's `ValidateTree(root, 2, 10, 20, 30, 50)` passes on the tree
      it leaves. */
  method DeleteNonExistingNode() returns (found: seq<Option<Entry>>, ghost tree: Tree)
    ensures found == [Some(Entry(10, 50)), Some(Entry(20, 60)), Some(Entry(30, 40)), Some(Entry(50, 20))]
    ensures Flatten(tree) == Fixture
    ensures ValidateTreeAsWritten(tree, 2, {10, 20, 30, 50})
  {
    var provider := new TestDataProvider();
    var b := new BTree(provider, 2);
    InsertAll(b);
    DeleteAbsentStep(b, 99999);
    FixtureKeys();
    tree := b.tree;
    assert Fixture[..4] == Fixture;
    found := SearchTestData(b, 4);
  }

  /** The fixture's entries in insertion order. */
  const Fixture: seq<Entry> := [Entry(10, 50), Entry(20, 60), Entry(30, 40), Entry(50, 20)]

  /** The fixture's keys. */
  lemma FixtureKeys()
    ensures Keys(Fixture) == {10, 20, 30, 50}
  {
    assert Fixture[0].key == 10 && Fixture[1].key == 20 && Fixture[2].key == 30 && Fixture[3].key == 50;
  }

  /** What the test expects of a search over the first `n` fixture keys. */
  function Hits(n: nat): seq<Option<Entry>>
    requires n <= |Fixture|
  {
    seq(n, i requires 0 <= i < n => Some(Fixture[i]))
  }

  /** `SearchTestData(btree, n - 1)`: on a tree holding the first `n` fixture
      entries, searching each of their keys finds that entry. */
  method SearchTestData(b: BTree, n: nat) returns (found: seq<Option<Entry>>)
    requires b.Valid() && n <= |Fixture| && Flatten(b.tree) == Fixture[..n]
    ensures found == Hits(n)
  {
    found := [];
    var i := 0;
    while i < n
      invariant 0 <= i <= n
      invariant found == Hits(i)
    {
      FoundAt(b.tree, b.degree, i);
      var e := b.Search(Fixture[i].key);
      found := found + [e];
      i := i + 1;
    }
  }

  /** Appending the next fixture entry to the first `i` keeps the keys
      increasing and gives the first `i + 1`. */
  lemma FixtureStep(i: nat)
    requires i < |Fixture|
    ensures i == 0 || Fixture[..i][i - 1].key < Fixture[i].key
    ensures Fixture[..i] + [Entry(Fixture[i].key, Fixture[i].pointer)] == Fixture[..i + 1]
  {
  }

  /** The loop shared by `SearchNodes` and `SearchNonExistingNode`: insert
      each fixture entry, then search every key inserted so far; entry `n`
      of the result is the search after the `n + 1`-th insertion. */
  method InsertAndSearch(b: BTree) returns (found: seq<seq<Option<Entry>>>)
    requires b.Valid() && b.degree == 2 && Flatten(b.tree) == []
    modifies b, b.provider
    ensures b.Valid() && b.degree == 2 && Flatten(b.tree) == Fixture
    ensures |found| == |Fixture| && forall n :: 0 <= n < |Fixture| ==> found[n] == Hits(n + 1)
  {
    found := [];
    var i := 0;
    while i < |Fixture|
      invariant 0 <= i <= |Fixture|
      invariant b.Valid() && b.degree == 2 && Flatten(b.tree) == Fixture[..i]
      invariant |found| == i && forall n :: 0 <= n < i ==> found[n] == Hits(n + 1)
    {
      FixtureStep(i);
      AppendStep(b, Fixture[i].key, Fixture[i].pointer);
      var hits := SearchTestData(b, i + 1);
      found := found + [hits];
      i := i + 1;
    }
  }

  /** `SearchNodes`: after each insertion, every key inserted so far is found
      with its pointer. */
  method SearchNodes() returns (found: seq<seq<Option<Entry>>>)
    ensures found == [
      [Some(Entry(10, 50))],
      [Some(Entry(10, 50)), Some(Entry(20, 60))],
      [Some(Entry(10, 50)), Some(Entry(20, 60)), Some(Entry(30, 40))],
      [Some(Entry(10, 50)), Some(Entry(20, 60)), Some(Entry(30, 40)), Some(Entry(50, 20))]]
  {
    var provider := new TestDataProvider();
    var b := new BTree(provider, 2);
    found := InsertAndSearch(b);
    assert found == [found[0], found[1], found[2], found[3]];
    assert Hits(1) == [Some(Entry(10, 50))];
    assert Hits(2) == [Some(Entry(10, 50)), Some(Entry(20, 60))];
    assert Hits(3) == [Some(Entry(10, 50)), Some(Entry(20, 60)), Some(Entry(30, 40))];
    assert Hits(4) == [Some(Entry(10, 50)), Some(Entry(20, 60)), Some(Entry(30, 40)), Some(Entry(50, 20))];
  }

  /** `SearchNonExistingNode`: 9999 is found neither in the empty tree nor
      in the full one, and the searches in between find every key inserted
      so far. */
  method SearchNonExistingNode() returns (missingBefore: Option<Entry>, found: seq<seq<Option<Entry>>>, missingAfter: Option<Entry>)
    ensures missingBefore == None && missingAfter == None
    ensures |found| == 4 && forall n, i :: 0 <= i <= n < 4 ==> |found[n]| == n + 1 && found[n][i] == Some(Fixture[i])
  {
    var provider := new TestDataProvider();
    var b := new BTree(provider, 2);
    AboveAll(b.tree, 2, 9999);
    missingBefore := b.Search(9999);
    found := InsertAndSearch(b);
    AboveAll(b.tree, 2, 9999);
    missingAfter := b.Search(9999);
  }
}
