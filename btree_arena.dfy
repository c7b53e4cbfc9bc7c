/** The B-tree as the tests drive it: nodes live in an address-keyed arena
    (`TestDataProvider`), the root at address 0 and every other node at an
    address handed out by a counter that starts at 1. A `BTree` object keeps
    its tree in that arena; the value-level algorithms of `BTreeInsert` and
    `BTreeDelete` compute each new tree, which is then written back. */
module BTreeArena {
  import opened Wrappers
  import opened SortedEntries
  import opened BTreeModel
  import BTreeInsert
  import BTreeDelete

  /** A `Node<int, int>` as the arena stores it: its own address, its entries
      and the addresses of its children. */
  datatype NodeRecord = NodeRecord(address: int, entries: seq<Entry>, childrenAddresses: seq<int>)

  /** The subtree stored at address `a` of arena `m` is `t`, and every node of
      it lies at an address of at least `low`. */
  ghost predicate Holds(m: map<int, NodeRecord>, a: int, t: Tree, low: int)
    decreases t
  {
    && a in m && low <= a
    && m[a].entries == t.entries
    && |m[a].childrenAddresses| == |t.children|
    && forall i :: 0 <= i < |t.children| ==> Holds(m, m[a].childrenAddresses[i], t.children[i], low)
  }

  /** Tree `t` is the one rooted at address 0; no node below the root sits at 0. */
  ghost predicate Stored(m: map<int, NodeRecord>, t: Tree)
  {
    && 0 in m
    && m[0].entries == t.entries
    && |m[0].childrenAddresses| == |t.children|
    && forall i :: 0 <= i < |t.children| ==> Holds(m, m[0].childrenAddresses[i], t.children[i], 1)
  }

  /** Arena `m'` keeps every node of `m` as it was. */
  ghost predicate Extends(m: map<int, NodeRecord>, m': map<int, NodeRecord>)
  {
    forall b :: b in m ==> b in m' && m'[b] == m[b]
  }

  lemma {:induction false} HoldsExtends(m: map<int, NodeRecord>, m': map<int, NodeRecord>, a: int, t: Tree, low: int)
    requires Holds(m, a, t, low) && Extends(m, m')
    ensures Holds(m', a, t, low)
    decreases t
  {
    forall i | 0 <= i < |t.children|
      ensures Holds(m', m'[a].childrenAddresses[i], t.children[i], low)
    {
      HoldsExtends(m, m', m[a].childrenAddresses[i], t.children[i], low);
    }
  }

  /** Rewriting a node below `low` leaves a subtree above `low` alone. */
  lemma {:induction false} HoldsBelow(m: map<int, NodeRecord>, a: int, t: Tree, low: int, b: int, r: NodeRecord)
    requires Holds(m, a, t, low) && b < low
    ensures Holds(m[b := r], a, t, low)
    decreases t
  {
    var m' := m[b := r];
    forall i | 0 <= i < |t.children|
      ensures Holds(m', m'[a].childrenAddresses[i], t.children[i], low)
    {
      HoldsBelow(m, m[a].childrenAddresses[i], t.children[i], low, b, r);
    }
  }

  lemma {:induction false} HoldsLower(m: map<int, NodeRecord>, a: int, t: Tree, low: int, low': int)
    requires Holds(m, a, t, low) && low' <= low
    ensures Holds(m, a, t, low')
    decreases t
  {
    forall i | 0 <= i < |t.children|
      ensures Holds(m, m[a].childrenAddresses[i], t.children[i], low')
    {
      HoldsLower(m, m[a].childrenAddresses[i], t.children[i], low, low');
    }
  }

  lemma StoredHolds(m: map<int, NodeRecord>, t: Tree)
    requires Stored(m, t)
    ensures Holds(m, 0, t, 0)
  {
    forall i | 0 <= i < |t.children|
      ensures Holds(m, m[0].childrenAddresses[i], t.children[i], 0)
    {
      HoldsLower(m, m[0].childrenAddresses[i], t.children[i], 1, 0);
    }
  }

  /** `TestDataProvider`: the node dictionary, the address counter and the
      lazily created root. */
  class TestDataProvider {
    var lastAddress: int
    var nodes: map<int, NodeRecord>
    var hasRoot: bool

    /** Every node is filed under its own address, which lies below the
        counter; address 0 is taken exactly when the root exists. */
    ghost predicate Valid()
      reads this
    {
      && lastAddress >= 1
      && (forall a :: a in nodes ==> nodes[a].address == a && 0 <= a < lastAddress)
      && (hasRoot <==> 0 in nodes)
    }

    constructor()
      ensures Valid() && nodes == map[] && lastAddress == 1 && !hasRoot
    {
      lastAddress := 1;
      nodes := map[];
      hasRoot := false;
    }

    /** `AddNode`: `Dictionary.Add`, which refuses an address already taken;
        `ok` is false and nothing changes then. */
    method AddNode(node: NodeRecord) returns (ok: bool)
      modifies this
      ensures ok <==> node.address !in old(nodes)
      ensures nodes == if ok then old(nodes)[node.address := node] else old(nodes)
      ensures lastAddress == old(lastAddress) && hasRoot == old(hasRoot)
    {
      if node.address in nodes {
        ok := false;
      } else {
        nodes := nodes[node.address := node];
        ok := true;
      }
    }

    /** `GetRootNode`: the first call files an empty root at address 0;
        every later call returns that root and changes nothing. */
    method GetRootNode(degree: int) returns (r: NodeRecord)
      requires Valid()
      modifies this
      ensures Valid() && hasRoot && 0 in nodes && r == nodes[0]
      ensures lastAddress == old(lastAddress)
      ensures old(hasRoot) ==> nodes == old(nodes)
      ensures !old(hasRoot) ==> r == NodeRecord(0, [], []) && nodes == old(nodes)[0 := r]
    {
      if !hasRoot {
        r := NodeRecord(0, [], []);
        var ok := AddNode(r);
        hasRoot := true;
      } else {
        r := nodes[0];
      }
    }

    /** `GetNode`: the node filed under `address`; `None` where the dictionary
        lookup would throw. */
    method GetNode(address: int) returns (r: Option<NodeRecord>)
      requires Valid()
      ensures r.Some? <==> address in nodes
      ensures r.Some? ==> r.value == nodes[address] && r.value.address == address
    {
      if address in nodes {
        r := Some(nodes[address]);
      } else {
        r := None;
      }
    }

    /** `CreateNode`: an empty node at the next counter value, which no node
        holds yet; the counter moves past it. */
    method CreateNode(degree: int) returns (r: NodeRecord)
      requires Valid()
      modifies this
      ensures Valid() && hasRoot == old(hasRoot)
      ensures r == NodeRecord(old(lastAddress), [], []) && r.address >= 1
      ensures r.address !in old(nodes) && nodes == old(nodes)[r.address := r]
      ensures lastAddress == old(lastAddress) + 1
    {
      r := NodeRecord(lastAddress, [], []);
      lastAddress := lastAddress + 1;
      var ok := AddNode(r);
    }
  }

  /** `BTree<int, int>` over a data provider, of a fixed degree. `tree` is the
      tree the arena holds from address 0. */
  class BTree {
    const provider: TestDataProvider
    const degree: nat
    ghost var tree: Tree

    ghost predicate Valid()
      reads this, provider
    {
      && provider.Valid() && provider.hasRoot
      && ValidTree(tree, degree)
      && Stored(provider.nodes, tree)
    }

    /** A tree over a provider without a root: the root is created empty. */
    constructor(provider: TestDataProvider, degree: nat)
      requires provider.Valid() && !provider.hasRoot && degree >= 2
      modifies provider
      ensures Valid() && tree == Node([], [])
      ensures this.provider == provider && this.degree == degree
    {
      this.provider := provider;
      this.degree := degree;
      tree := Node([], []);
      new;
      var r := provider.GetRootNode(degree);
    }

    /** `BTree.Root`: the node at address 0, whose entries and child count
        are the tree's. */
    method Root() returns (r: NodeRecord)
      requires Valid()
      modifies provider
      ensures Valid() && provider.nodes == old(provider.nodes)
      ensures r.address == 0 && r.entries == tree.entries && |r.childrenAddresses| == |tree.children|
    {
      r := provider.GetRootNode(degree);
    }

    /** `BTree.Search`: a descent through the arena from address 0, reading
        one node at a time; it finds what `Search` finds on the tree. */
    method Search(k: int) returns (r: Option<Entry>)
      requires Valid()
      ensures Shaped(tree) && r == BTreeModel.Search(tree, k)
      ensures r.Some? <==> k in Keys(Flatten(tree))
      ensures r.Some? ==> r.value in Flatten(tree) && r.value.key == k
    {
      ValidIsShaped(tree, degree, 0, None, None);
      SearchFinds(tree, degree, 0, None, None, k);
      StoredHolds(provider.nodes, tree);
      ghost var sub := tree;
      var a := 0;
      while true
        invariant Holds(provider.nodes, a, sub, 0) && Shaped(sub)
        invariant BTreeModel.Search(sub, k) == BTreeModel.Search(tree, k)
        decreases sub
      {
        var n := provider.GetNode(a);
        var node := n.value;
        var i := KeyPos(node.entries, k);
        if i < |node.entries| && node.entries[i].key == k {
          return Some(node.entries[i]);
        }
        if node.childrenAddresses == [] {
          return None;
        }
        a := node.childrenAddresses[i];
        sub := sub.children[i];
      }
    }

    /** `BTree.Height`: the number of nodes on the leftmost path. */
    method Height() returns (h: nat)
      requires Valid()
      ensures h == BTreeModel.Height(tree)
    {
      StoredHolds(provider.nodes, tree);
      ghost var sub := tree;
      var a := 0;
      h := 1;
      while true
        invariant Holds(provider.nodes, a, sub, 0)
        invariant h + BTreeModel.Height(sub) == BTreeModel.Height(tree) + 1
        decreases sub
      {
        var n := provider.GetNode(a);
        var node := n.value;
        if node.childrenAddresses == [] {
          return;
        }
        a := node.childrenAddresses[0];
        sub := sub.children[0];
        h := h + 1;
      }
    }

    /** Read the subtree at address `a` back out of the arena. */
    method LoadAt(a: int, ghost t: Tree) returns (r: Tree)
      requires provider.Valid() && Holds(provider.nodes, a, t, 0)
      ensures r == t
      decreases t
    {
      var n := provider.GetNode(a);
      var node := n.value;
      var cs: seq<Tree> := [];
      for i := 0 to |node.childrenAddresses|
        invariant cs == t.children[..i]
      {
        var c := LoadAt(node.childrenAddresses[i], t.children[i]);
        cs := cs + [c];
      }
      r := Node(node.entries, cs);
    }

    /** Write the children of `t` below the counter as fresh nodes; every node
        already in the arena stays as it was. */
    method WriteChildren(t: Tree) returns (addrs: seq<int>)
      requires provider.Valid()
      modifies provider
      ensures provider.Valid() && provider.hasRoot == old(provider.hasRoot)
      ensures old(provider.lastAddress) <= provider.lastAddress
      ensures Extends(old(provider.nodes), provider.nodes)
      ensures |addrs| == |t.children|
      ensures forall i :: 0 <= i < |t.children| ==> Holds(provider.nodes, addrs[i], t.children[i], old(provider.lastAddress))
      decreases t, 0
    {
      addrs := [];
      for i := 0 to |t.children|
        invariant provider.Valid() && provider.hasRoot == old(provider.hasRoot)
        invariant old(provider.lastAddress) <= provider.lastAddress
        invariant Extends(old(provider.nodes), provider.nodes)
        invariant |addrs| == i
        invariant forall j :: 0 <= j < i ==> Holds(provider.nodes, addrs[j], t.children[j], old(provider.lastAddress))
      {
        ghost var m := provider.nodes;
        ghost var low := provider.lastAddress;
        var c := WriteAt(t.children[i]);
        forall j | 0 <= j < i
          ensures Holds(provider.nodes, addrs[j], t.children[j], old(provider.lastAddress))
        {
          HoldsExtends(m, provider.nodes, addrs[j], t.children[j], old(provider.lastAddress));
        }
        HoldsLower(provider.nodes, c, t.children[i], low, old(provider.lastAddress));
        addrs := addrs + [c];
      }
    }

    /** Write `t` as fresh nodes: its children first, then the node itself at
        the next address. */
    method WriteAt(t: Tree) returns (a: int)
      requires provider.Valid()
      modifies provider
      ensures provider.Valid() && provider.hasRoot == old(provider.hasRoot)
      ensures old(provider.lastAddress) <= provider.lastAddress
      ensures Extends(old(provider.nodes), provider.nodes)
      ensures Holds(provider.nodes, a, t, old(provider.lastAddress))
      decreases t, 1
    {
      var addrs := WriteChildren(t);
      ghost var m := provider.nodes;
      var node := provider.CreateNode(degree);
      a := node.address;
      provider.nodes := provider.nodes[a := NodeRecord(a, t.entries, addrs)];
      forall i | 0 <= i < |t.children|
        ensures Holds(provider.nodes, addrs[i], t.children[i], old(provider.lastAddress))
      {
        HoldsExtends(m, provider.nodes, addrs[i], t.children[i], old(provider.lastAddress));
      }
    }

    /** Make `t` the tree at address 0: its children as fresh nodes, then the
        root rewritten in place. */
    method WriteRoot(t: Tree)
      requires provider.Valid() && provider.hasRoot
      modifies provider
      ensures provider.Valid() && provider.hasRoot
      ensures Stored(provider.nodes, t)
    {
      var addrs := WriteChildren(t);
      ghost var m := provider.nodes;
      ghost var low := old(provider.lastAddress);
      provider.nodes := provider.nodes[0 := NodeRecord(0, t.entries, addrs)];
      forall i | 0 <= i < |t.children|
        ensures Holds(provider.nodes, addrs[i], t.children[i], 1)
      {
        HoldsBelow(m, addrs[i], t.children[i], low, 0, NodeRecord(0, t.entries, addrs));
        HoldsLower(provider.nodes, addrs[i], t.children[i], low, 1);
      }
    }

    /** `BTree.Insert(key, pointer)`: the tree becomes `BTreeInsert.Insert` of
        the old one, and stays valid. */
    method Insert(k: int, p: int)
      requires Valid()
      modifies this, provider
      ensures Valid()
      ensures tree == BTreeInsert.Insert(old(tree), k, p, degree)
      ensures Flatten(tree) == Upsert(Flatten(old(tree)), Entry(k, p))
    {
      StoredHolds(provider.nodes, tree);
      var t := LoadAt(0, tree);
      var t' := BTreeInsert.Insert(t, k, p, degree);
      BTreeInsert.InsertSpec(t, k, p, degree);
      WriteRoot(t');
      tree := t';
    }

    /** `BTree.Delete(key)`: the tree becomes `BTreeDelete.Delete` of the old
        one, and stays valid; a missing key changes nothing. */
    method Delete(k: int)
      requires Valid()
      modifies this, provider
      ensures Valid()
      ensures tree == BTreeDelete.Delete(old(tree), k, degree)
      ensures Flatten(tree) == Remove(Flatten(old(tree)), k)
      ensures k !in Keys(Flatten(old(tree))) ==> tree == old(tree)
    {
      StoredHolds(provider.nodes, tree);
      var t := LoadAt(0, tree);
      var t' := BTreeDelete.Delete(t, k, degree);
      BTreeDelete.DeleteSpec(t, k, degree);
      WriteRoot(t');
      tree := t';
    }
  }
}
