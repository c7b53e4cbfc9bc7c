/** `BTree.Delete`: remove the entry from its leaf, or replace a separator by
    its in-order predecessor taken from a leaf; then, on the way back up, fix
    every child left with fewer than `d-1` entries by borrowing through the
    parent from a sibling that can spare one, or else by merging it with a
    sibling and the separator between them. A root left without entries
    gives way to its only child. Deleting an absent key changes nothing. */
module BTreeDelete {
  import opened Wrappers
  import opened SortedEntries
  import opened BTreeModel

  /** Borrowing from the left: sibling `l` hands its last entry up to the
      separator and its last child over, and the separator `s` moves down to
      the front of `c`. */
  function ShiftRight(l: Tree, s: Entry, c: Tree): (Tree, Entry, Tree)
    requires |l.entries| >= 1
  {
    var n := |l.entries|;
    (Node(l.entries[..n - 1], if l.children == [] then [] else l.children[..|l.children| - 1]),
     l.entries[n - 1],
     Node([s] + c.entries, if l.children == [] then c.children else [l.children[|l.children| - 1]] + c.children))
  }

  /** Borrowing from the right: sibling `r` hands its first entry up to the
      separator and its first child over, and the separator `s` moves down to
      the end of `c`. */
  function ShiftLeft(c: Tree, s: Entry, r: Tree): (Tree, Entry, Tree)
    requires |r.entries| >= 1
  {
    (Node(c.entries + [s], if r.children == [] then c.children else c.children + [r.children[0]]),
     r.entries[0],
     Node(r.entries[1..], if r.children == [] then [] else r.children[1..]))
  }

  /** Two siblings and the separator between them as one node. */
  function Joined(l: Tree, s: Entry, r: Tree): Tree
  {
    Node(l.entries + [s] + r.entries, l.children + r.children)
  }

  /** Put a new left child, separator and right child at gap `j`. */
  function ReplacePair(t: Tree, j: nat, p: (Tree, Entry, Tree)): Tree
    requires j < |t.entries| && j + 1 < |t.children|
  {
    Node(t.entries[j := p.1], t.children[j := p.0][j + 1 := p.2])
  }

  /** Child `i` borrows from its left sibling. */
  function RotateRight(t: Tree, i: nat): Tree
    requires 0 < i < |t.children| && i <= |t.entries| && |t.children[i - 1].entries| >= 1
  {
    ReplacePair(t, i - 1, ShiftRight(t.children[i - 1], t.entries[i - 1], t.children[i]))
  }

  /** Child `i` borrows from its right sibling. */
  function RotateLeft(t: Tree, i: nat): Tree
    requires i + 1 < |t.children| && i < |t.entries| && |t.children[i + 1].entries| >= 1
  {
    ReplacePair(t, i, ShiftLeft(t.children[i], t.entries[i], t.children[i + 1]))
  }

  /** Children `j` and `j+1` and the separator between them become one child. */
  function Merge(t: Tree, j: nat): Tree
    requires j < |t.entries| && j + 1 < |t.children|
  {
    var es, cs := t.entries, t.children;
    Node(es[..j] + es[j + 1..], cs[..j] + [Joined(cs[j], es[j], cs[j + 1])] + cs[j + 2..])
  }

  /** Restore child `i` after a deletion below it: nothing to do if it still
      holds `d-1` entries; otherwise borrow from the left sibling, else from
      the right sibling, else merge with the left sibling, else with the
      right one. */
  function Fix(t: Tree, i: nat, d: nat): Tree
    requires d >= 2 && |t.children| == |t.entries| + 1 && |t.entries| >= 1 && i < |t.children|
  {
    var es, cs := t.entries, t.children;
    if |cs[i].entries| >= d - 1 then t
    else if i > 0 && |cs[i - 1].entries| >= d then RotateRight(t, i)
    else if i < |es| && |cs[i + 1].entries| >= d then RotateLeft(t, i)
    else if i > 0 then Merge(t, i - 1)
    else Merge(t, i)
  }

  /** Remove the largest entry of a subtree with at least one entry per node;
      the entry removed comes back beside the new subtree. */
  function DelMax(t: Tree, d: nat): (Tree, Entry)
    requires d >= 2 && ValidNode(t, d, 1, None, None)
    decreases t
  {
    var es, cs := t.entries, t.children;
    if cs == [] then
      (Node(es[..|es| - 1], []), es[|es| - 1])
    else
      var n := |cs| - 1;
      ChildAnywhere(t, d, 1, None, None, n);
      var (c', mx) := DelMax(cs[n], d);
      (Fix(Node(es, cs[n := c']), n, d), mx)
  }

  /** Delete key `k` below a node, fixing the child the deletion went through. */
  function Del(t: Tree, k: int, d: nat): Tree
    requires ValidTree(t, d)
    decreases t
  {
    var es, cs := t.entries, t.children;
    var i := KeyPos(es, k);
    var found := i < |es| && es[i].key == k;
    if cs == [] then
      if found then Node(es[..i] + es[i + 1..], []) else t
    else
      ChildAnywhere(t, d, 0, None, None, i);
      if found then
        var (c', pred) := DelMax(cs[i], d);
        Fix(Node(es[i := pred], cs[i := c']), i, d)
      else
        Fix(Node(es, cs[i := Del(cs[i], k, d)]), i, d)
  }

  /** `BTree.Delete(key)`: delete below the root, and collapse a root that
      was left with no entries onto its only child. */
  function Delete(t: Tree, k: int, d: nat): Tree
    requires ValidTree(t, d)
  {
    var r := Del(t, k, d);
    if r.children != [] && |r.entries| == 0 then r.children[0] else r
  }

  /** `BTree.Delete` keeps the tree valid and removes exactly key `k` from
      its contents; an absent key leaves the tree as it was; the height drops
      by at most one, which happens when the root gives way to its child. */
  lemma DeleteSpec(t: Tree, k: int, d: nat)
    requires ValidTree(t, d)
    ensures var r := Delete(t, k, d);
      && ValidTree(r, d) && Flatten(r) == Remove(Flatten(t), k)
      && Keys(Flatten(r)) == Keys(Flatten(t)) - {k}
      && (k !in Keys(Flatten(t)) ==> r == t)
      && (Height(r) == Height(t) || Height(r) + 1 == Height(t))
  {
    DelSpec(t, k, d, 0, None, None);
    var r := Del(t, k, d);
    if r.children != [] && |r.entries| == 0 {
      ChildAnywhere(r, d, -1, None, None, 0);
      assert Flatten(r) == Flatten(r.children[0]);
    } else {
      RaiseMin(r, d, -1, 0, None, None);
    }
    RemoveKeys(Flatten(t), k);
  }

  /** After `Delete(k)`, `Search` no longer finds `k` and finds every other
      key as before. */
  lemma SearchAfterDelete(t: Tree, k: int, d: nat, k': int)
    requires ValidTree(t, d)
    ensures Shaped(t) && Shaped(Delete(t, k, d))
    ensures Search(Delete(t, k, d), k') == if k' == k then None else Search(t, k')
  {
    DeleteSpec(t, k, d);
    SearchFinds(Delete(t, k, d), d, 0, None, None, k');
    SearchFinds(t, d, 0, None, None, k');
    RemoveFind(Flatten(t), k, k');
  }

  /** A child of a valid node is a valid tree on its own, holding at least
      `d-1` entries. */
  lemma ChildAnywhere(t: Tree, d: nat, m: int, lo: Option<int>, hi: Option<int>, i: nat)
    requires d >= 2 && ValidNode(t, d, m, lo, hi) && i < |t.children|
    ensures ValidNode(t.children[i], d, d - 1, None, None) && ValidTree(t.children[i], d)
    ensures ValidNode(t.children[i], d, 1, None, None)
  {
    var c := t.children[i];
    ValidWeaken(c, d, d - 1, LowerOf(t.entries, i, lo), UpperOf(t.entries, i, hi), d - 1, None, None);
    ValidWeaken(c, d, d - 1, None, None, 1, None, None);
    ValidWeaken(c, d, d - 1, None, None, 0, None, None);
  }

  /** A subtree valid within bounds, taken as a tree on its own. */
  lemma WholeTree(t: Tree, d: nat, m: int, lo: Option<int>, hi: Option<int>)
    requires d >= 2 && ValidNode(t, d, m, lo, hi) && (t.children != [] ==> |t.entries| >= 1)
    ensures ValidTree(t, d)
  {
    RaiseMin(t, d, m, 0, lo, hi);
    ValidWeaken(t, d, 0, lo, hi, 0, None, None);
  }

  // ---------------------------------------------------------------------
  // Local steps on two siblings and the separator between them. The pair
  // lies strictly inside `(plo, phi)`, the bounds of the gap it fills.

  /** A separator lies strictly inside the bounds of the pair around it. */
  lemma SeparatorWithin(es: seq<Entry>, j: nat, lo: Option<int>, hi: Option<int>)
    requires SortedWithin(es, lo, hi) && j < |es|
    ensures Within(es[j].key, LowerOf(es, j, lo), UpperOf(es, j + 1, hi))
  {
  }

  /** A node known to hold more entries satisfies the stronger minimum. */
  lemma RaiseMin(t: Tree, d: nat, m: int, m': int, lo: Option<int>, hi: Option<int>)
    requires ValidNode(t, d, m, lo, hi) && |t.entries| >= m'
    ensures ValidNode(t, d, m', lo, hi)
  {
  }

  /** An internal node holding at least `d` entries without its last entry
      and last child, and what it gave away. */
  lemma DropLastValid(l: Tree, d: nat, lo: Option<int>, hi: Option<int>)
    requires d >= 2 && ValidNode(l, d, d, lo, hi) && l.children != []
    ensures var le, lc := l.entries, l.children;
      var n := |le|;
      var l0 := Node(le[..n - 1], lc[..n]);
      && ValidNode(l0, d, d - 1, lo, Some(le[n - 1].key)) && Height(l0) == Height(l)
      && ValidNode(lc[n], d, d - 1, Some(le[n - 1].key), hi) && Height(lc[n]) + 1 == Height(l)
      && Within(le[n - 1].key, lo, hi)
      && Flatten(l) == Flatten(l0) + [le[n - 1]] + Flatten(lc[n])
  {
    var le, lc := l.entries, l.children;
    var n := |le|;
    assert le == le[..n - 1] + [le[n - 1]] + [];
    SortedConcat(le[..n - 1], le[n - 1], [], lo, hi);
    assert lc == lc[..n] + [lc[n]];
    ChildrenValidConcat(le[..n - 1], le[n - 1], [], lc[..n], [lc[n]], d, lo, hi, -1);
    assert AllHeight(lc[..n], Height(lc[0]));
    SplitAt(le, lc, n);
    assert le[n..] == [] && lc[n..] == [lc[n]];
  }

  /** An internal node holding at least `d` entries without its first entry
      and first child, and what it gave away. */
  lemma DropFirstValid(r: Tree, d: nat, lo: Option<int>, hi: Option<int>)
    requires d >= 2 && ValidNode(r, d, d, lo, hi) && r.children != []
    ensures var re, rc := r.entries, r.children;
      var r0 := Node(re[1..], rc[1..]);
      && ValidNode(r0, d, d - 1, Some(re[0].key), hi) && Height(r0) == Height(r)
      && ValidNode(rc[0], d, d - 1, lo, Some(re[0].key)) && Height(rc[0]) + 1 == Height(r)
      && Within(re[0].key, lo, hi)
      && Flatten(r) == Flatten(rc[0]) + [re[0]] + Flatten(r0)
  {
    var re, rc := r.entries, r.children;
    assert re == [] + [re[0]] + re[1..];
    SortedConcat([], re[0], re[1..], lo, hi);
    assert rc == [rc[0]] + rc[1..];
    ChildrenValidConcat([], re[0], re[1..], [rc[0]], rc[1..], d, lo, hi, -1);
    RelaxedNone(re[1..], rc[1..], d, Some(re[0].key), hi, -2);
    assert rc[1..][0] == rc[1];
    assert AllHeight(rc[1..], Height(rc[1]));
  }

  /** An internal node short of one entry, grown at the front by a separator
      and a subtree one level lower. */
  lemma AddFrontValid(x: Tree, s: Entry, c: Tree, d: nat, lo: Option<int>, hi: Option<int>)
    requires d >= 2 && c.children != [] && |c.entries| < d - 1 && Within(s.key, lo, hi)
    requires ValidNode(x, d, d - 1, lo, Some(s.key)) && ValidNode(c, d, d - 2, Some(s.key), hi)
    requires Height(x) + 1 == Height(c)
    ensures var c' := Node([s] + c.entries, [x] + c.children);
      && ValidNode(c', d, d - 1, lo, hi) && Height(c') == Height(c)
      && Flatten(c') == Flatten(x) + [s] + Flatten(c)
  {
    ConsSorted(s, c.entries, lo, hi);
    assert [] + [s] + c.entries == [s] + c.entries;
    ChildrenValidConcat([], s, c.entries, [x], c.children, d, lo, hi, -1);
    RelaxedNone(c.entries, c.children, d, Some(s.key), hi, -2);
    RelaxedNone([], [x], d, lo, Some(s.key), -1);
    assert AllHeight([x] + c.children, Height(x));
    InterleaveConcat([], s, c.entries, [x], c.children);
  }

  /** An internal node short of one entry, grown at the back by a separator
      and a subtree one level lower. */
  lemma AddBackValid(c: Tree, s: Entry, x: Tree, d: nat, lo: Option<int>, hi: Option<int>)
    requires d >= 2 && c.children != [] && |c.entries| < d - 1 && Within(s.key, lo, hi)
    requires ValidNode(c, d, d - 2, lo, Some(s.key)) && ValidNode(x, d, d - 1, Some(s.key), hi)
    requires Height(x) + 1 == Height(c)
    ensures var c' := Node(c.entries + [s], c.children + [x]);
      && ValidNode(c', d, d - 1, lo, hi) && Height(c') == Height(c)
      && Flatten(c') == Flatten(c) + [s] + Flatten(x)
  {
    assert c.entries + [s] == c.entries + [s] + [];
    SortedConcat(c.entries, s, [], lo, hi);
    ChildrenValidConcat(c.entries, s, [], c.children, [x], d, lo, hi, -1);
    RelaxedNone([], [x], d, Some(s.key), hi, -1 - |c.children|);
    assert AllHeight(c.children + [x], Height(c.children[0]));
    InterleaveConcat(c.entries, s, [], c.children, [x]);
  }

  lemma LeafShiftRight(l: Tree, s: Entry, c: Tree, d: nat, plo: Option<int>, phi: Option<int>)
    requires d >= 2 && Within(s.key, plo, phi) && l.children == [] && c.children == []
    requires ValidNode(l, d, d, plo, Some(s.key)) && ValidNode(c, d, d - 2, Some(s.key), phi)
    requires |c.entries| < d - 1
    ensures var p := ShiftRight(l, s, c);
      && Within(p.1.key, plo, phi)
      && ValidNode(p.0, d, d - 1, plo, Some(p.1.key)) && ValidNode(p.2, d, d - 1, Some(p.1.key), phi)
      && Flatten(p.0) + [p.1] + Flatten(p.2) == Flatten(l) + [s] + Flatten(c)
  {
    var le := l.entries;
    var n := |le|;
    assert le == le[..n - 1] + [le[n - 1]] + [];
    SortedConcat(le[..n - 1], le[n - 1], [], plo, Some(s.key));
    ConsSorted(s, c.entries, Some(le[n - 1].key), phi);
    assert le[..n - 1] + [le[n - 1]] + ([s] + c.entries) == le + [s] + c.entries;
  }

  lemma InternalShiftRight(l: Tree, s: Entry, c: Tree, d: nat, plo: Option<int>, phi: Option<int>)
    requires d >= 2 && Within(s.key, plo, phi)
    requires l.children != [] && |l.children| == |l.entries| + 1 && c.children != []
    requires ValidNode(l, d, d, plo, Some(s.key)) && ValidNode(c, d, d - 2, Some(s.key), phi)
    requires |c.entries| < d - 1 && Height(l) == Height(c)
    ensures var p := ShiftRight(l, s, c);
      && Within(p.1.key, plo, phi)
      && ValidNode(p.0, d, d - 1, plo, Some(p.1.key)) && ValidNode(p.2, d, d - 1, Some(p.1.key), phi)
      && Height(p.0) == Height(l) && Height(p.2) == Height(c)
      && Flatten(p.0) + [p.1] + Flatten(p.2) == Flatten(l) + [s] + Flatten(c)
  {
    var le, lc := l.entries, l.children;
    var n := |le|;
    var l0, x := Node(le[..n - 1], lc[..n]), lc[n];
    var c' := Node([s] + c.entries, [x] + c.children);
    assert ShiftRight(l, s, c) == (l0, le[n - 1], c');
    DropLastValid(l, d, plo, Some(s.key));
    AddFrontValid(x, s, c, d, Some(le[n - 1].key), phi);
    Reassoc(Flatten(l0), le[n - 1], Flatten(x), s, Flatten(c));
  }

  lemma Reassoc(a: seq<Entry>, e: Entry, x: seq<Entry>, s: Entry, c: seq<Entry>)
    ensures a + [e] + (x + [s] + c) == a + [e] + x + [s] + c
  {
  }

  /** Borrowing from a left sibling holding at least `d` entries gives a
      child short of one entry its `d-1`, and keeps both halves valid, equally
      high and, read in order, unchanged. */
  lemma ShiftRightValid(l: Tree, s: Entry, c: Tree, d: nat, plo: Option<int>, phi: Option<int>)
    requires d >= 2 && Within(s.key, plo, phi)
    requires ValidNode(l, d, d, plo, Some(s.key)) && ValidNode(c, d, d - 2, Some(s.key), phi)
    requires |c.entries| < d - 1 && Height(l) == Height(c)
    ensures var p := ShiftRight(l, s, c);
      && Within(p.1.key, plo, phi)
      && ValidNode(p.0, d, d - 1, plo, Some(p.1.key)) && ValidNode(p.2, d, d - 1, Some(p.1.key), phi)
      && Height(p.0) == Height(l) && Height(p.2) == Height(c)
      && Flatten(p.0) + [p.1] + Flatten(p.2) == Flatten(l) + [s] + Flatten(c)
  {
    if l.children != [] {
      assert c.children != [] by {
        assert Height(l.children[0]) >= 1;
      }
      InternalShiftRight(l, s, c, d, plo, phi);
    } else {
      assert c.children == [] by {
        if c.children != [] { assert Height(c.children[0]) >= 1; }
      }
      LeafShiftRight(l, s, c, d, plo, phi);
    }
  }

  /** Borrowing from a right sibling, the mirror image of `ShiftRightValid`. */
  lemma ShiftLeftValid(c: Tree, s: Entry, r: Tree, d: nat, plo: Option<int>, phi: Option<int>)
    requires d >= 2 && Within(s.key, plo, phi)
    requires ValidNode(c, d, d - 2, plo, Some(s.key)) && ValidNode(r, d, d, Some(s.key), phi)
    requires |c.entries| < d - 1 && Height(c) == Height(r)
    ensures var p := ShiftLeft(c, s, r);
      && Within(p.1.key, plo, phi)
      && ValidNode(p.0, d, d - 1, plo, Some(p.1.key)) && ValidNode(p.2, d, d - 1, Some(p.1.key), phi)
      && Height(p.0) == Height(c) && Height(p.2) == Height(r)
      && Flatten(p.0) + [p.1] + Flatten(p.2) == Flatten(c) + [s] + Flatten(r)
  {
    if r.children != [] {
      assert c.children != [] by {
        assert Height(r.children[0]) >= 1;
      }
      InternalShiftLeft(c, s, r, d, plo, phi);
    } else {
      assert c.children == [] by {
        if c.children != [] { assert Height(c.children[0]) >= 1; }
      }
      LeafShiftLeft(c, s, r, d, plo, phi);
    }
  }

  lemma LeafShiftLeft(c: Tree, s: Entry, r: Tree, d: nat, plo: Option<int>, phi: Option<int>)
    requires d >= 2 && Within(s.key, plo, phi) && c.children == [] && r.children == []
    requires ValidNode(c, d, d - 2, plo, Some(s.key)) && ValidNode(r, d, d, Some(s.key), phi)
    requires |c.entries| < d - 1
    ensures var p := ShiftLeft(c, s, r);
      && Within(p.1.key, plo, phi)
      && ValidNode(p.0, d, d - 1, plo, Some(p.1.key)) && ValidNode(p.2, d, d - 1, Some(p.1.key), phi)
      && Flatten(p.0) + [p.1] + Flatten(p.2) == Flatten(c) + [s] + Flatten(r)
  {
    var re := r.entries;
    assert re == [] + [re[0]] + re[1..];
    SortedConcat([], re[0], re[1..], Some(s.key), phi);
    assert c.entries + [s] == c.entries + [s] + [];
    SortedConcat(c.entries, s, [], plo, Some(re[0].key));
    assert c.entries + [s] + [re[0]] + re[1..] == c.entries + [s] + re;
  }

  lemma InternalShiftLeft(c: Tree, s: Entry, r: Tree, d: nat, plo: Option<int>, phi: Option<int>)
    requires d >= 2 && Within(s.key, plo, phi)
    requires r.children != [] && |r.children| == |r.entries| + 1 && c.children != []
    requires ValidNode(c, d, d - 2, plo, Some(s.key)) && ValidNode(r, d, d, Some(s.key), phi)
    requires |c.entries| < d - 1 && Height(c) == Height(r)
    ensures var p := ShiftLeft(c, s, r);
      && Within(p.1.key, plo, phi)
      && ValidNode(p.0, d, d - 1, plo, Some(p.1.key)) && ValidNode(p.2, d, d - 1, Some(p.1.key), phi)
      && Height(p.0) == Height(c) && Height(p.2) == Height(r)
      && Flatten(p.0) + [p.1] + Flatten(p.2) == Flatten(c) + [s] + Flatten(r)
  {
    var re, rc := r.entries, r.children;
    var r0, x := Node(re[1..], rc[1..]), rc[0];
    var c' := Node(c.entries + [s], c.children + [x]);
    assert ShiftLeft(c, s, r) == (c', re[0], r0);
    DropFirstValid(r, d, Some(s.key), phi);
    AddBackValid(c, s, x, d, plo, Some(re[0].key));
    ReassocLeft(Flatten(c), s, Flatten(x), re[0], Flatten(r0));
  }

  lemma ReassocLeft(c: seq<Entry>, s: Entry, x: seq<Entry>, e: Entry, a: seq<Entry>)
    ensures c + [s] + x + [e] + a == c + [s] + (x + [e] + a)
  {
  }

  /** Merging a child short of one entry with a sibling that cannot spare one
      gives a single valid child holding the same entries in order. */
  lemma JoinedValid(l: Tree, s: Entry, r: Tree, d: nat, plo: Option<int>, phi: Option<int>)
    requires d >= 2 && Within(s.key, plo, phi)
    requires ValidNode(l, d, d - 2, plo, Some(s.key)) && ValidNode(r, d, d - 2, Some(s.key), phi)
    requires d - 1 <= |l.entries| + 1 + |r.entries| <= 2 * d - 1 && Height(l) == Height(r)
    ensures ValidNode(Joined(l, s, r), d, d - 1, plo, phi)
    ensures Height(Joined(l, s, r)) == Height(l)
    ensures Flatten(Joined(l, s, r)) == Flatten(l) + [s] + Flatten(r)
  {
    SortedConcat(l.entries, s, r.entries, plo, phi);
    if l.children != [] {
      assert r.children != [];
      ChildrenValidConcat(l.entries, s, r.entries, l.children, r.children, d, plo, phi, -1);
      RelaxedNone(r.entries, r.children, d, Some(s.key), phi, -1 - |l.children|);
      assert AllHeight(l.children + r.children, Height(l.children[0]));
      InterleaveConcat(l.entries, s, r.entries, l.children, r.children);
    } else {
      assert r.children == [];
    }
  }

  // ---------------------------------------------------------------------
  // The same steps seen from the parent

  /** A node's contents seen around the pair of children `j` and `j+1`. */
  lemma DecomposePair(es: seq<Entry>, cs: seq<Tree>, j: nat)
    requires |cs| == |es| + 1 && j + 1 < |cs|
    ensures Interleave(es, cs) == Before(es, cs, j) + (Flatten(cs[j]) + [es[j]] + Flatten(cs[j + 1])) + After(es, cs, j + 1)
  {
    Decompose(es, cs, j);
    InterleaveFrom(es, cs, j + 1);
    assert After(es, cs, j) == [es[j]] + (Flatten(cs[j + 1]) + After(es, cs, j + 1));
    PairRegroup(Before(es, cs, j), Flatten(cs[j]), es[j], Flatten(cs[j + 1]), After(es, cs, j + 1));
  }

  lemma PairRegroup(b: seq<Entry>, l: seq<Entry>, s: Entry, r: seq<Entry>, a: seq<Entry>)
    ensures b + l + ([s] + (r + a)) == b + (l + [s] + r) + a
  {
  }

  /** The contents of a node whose pair at gap `j` has been replaced. */
  lemma PairFlatten(es: seq<Entry>, cs: seq<Tree>, j: nat, p: (Tree, Entry, Tree))
    requires |cs| == |es| + 1 && j + 1 < |cs|
    ensures Interleave(es[j := p.1], cs[j := p.0][j + 1 := p.2]) ==
      Before(es, cs, j) + (Flatten(p.0) + [p.1] + Flatten(p.2)) + After(es, cs, j + 1)
  {
    var es', cs' := es[j := p.1], cs[j := p.0][j + 1 := p.2];
    DecomposePair(es', cs', j);
    assert es'[..j] == es[..j] && cs'[..j] == cs[..j];
    BeforeSame(es, cs, es', cs', j);
    assert es'[j + 1..] == es[j + 1..] && cs'[j + 2..] == cs[j + 2..];
    AfterSame(es, cs, j + 1, es', cs', j + 1);
  }

  /** Replacing one separator by a key still between its neighbours keeps the
      entries sorted. */
  lemma SortedReplace(es: seq<Entry>, j: nat, e: Entry, lo: Option<int>, hi: Option<int>)
    requires SortedWithin(es, lo, hi) && j < |es|
    requires Within(e.key, LowerOf(es, j, lo), UpperOf(es, j + 1, hi))
    ensures SortedWithin(es[j := e], lo, hi)
  {
    var es' := es[j := e];
    forall x, y | 0 <= x < y < |es'| ensures es'[x].key < es'[y].key {
      if x == j && y > j + 1 {
        assert es[j + 1].key < es[y].key;
      } else if y == j && x < j - 1 {
        assert es[x].key < es[j - 1].key;
      }
    }
  }

  /** Replacing the pair at gap `j` by valid children either side of a
      separator that fits the gap gives a node whose children are all valid. */
  lemma PairValid(es: seq<Entry>, cs: seq<Tree>, j: nat, p: (Tree, Entry, Tree), d: nat,
                  lo: Option<int>, hi: Option<int>, r: int)
    requires |cs| == |es| + 1 && j + 1 < |cs| && (r == j || r == j + 1)
    requires SortedWithin(es, lo, hi) && ChildrenValid(es, cs, d, lo, hi, r)
    requires Within(p.1.key, LowerOf(es, j, lo), UpperOf(es, j + 1, hi))
    requires ValidNode(p.0, d, d - 1, LowerOf(es, j, lo), Some(p.1.key))
    requires ValidNode(p.2, d, d - 1, Some(p.1.key), UpperOf(es, j + 1, hi))
    ensures SortedWithin(es[j := p.1], lo, hi)
    ensures ChildrenValid(es[j := p.1], cs[j := p.0][j + 1 := p.2], d, lo, hi, -1)
  {
    SortedReplace(es, j, p.1, lo, hi);
    var es', cs' := es[j := p.1], cs[j := p.0][j + 1 := p.2];
    forall x | 0 <= x < |cs'|
      ensures ValidNode(cs'[x], d, d - 1, LowerOf(es', x, lo), UpperOf(es', x, hi))
    {
      ReplacedBounds(es, j, p.1, x, lo, hi);
      if x != j && x != j + 1 {
        assert cs'[x] == cs[x];
      }
    }
  }

  /** The entries and children of a node whose pair at gap `j` was merged. */
  lemma MergeValid(es: seq<Entry>, cs: seq<Tree>, j: nat, x: Tree, d: nat,
                   lo: Option<int>, hi: Option<int>, r: int)
    requires |cs| == |es| + 1 && j + 1 < |cs| && (r == j || r == j + 1)
    requires SortedWithin(es, lo, hi) && ChildrenValid(es, cs, d, lo, hi, r)
    requires ValidNode(x, d, d - 1, LowerOf(es, j, lo), UpperOf(es, j + 1, hi))
    ensures SortedWithin(es[..j] + es[j + 1..], lo, hi)
    ensures ChildrenValid(es[..j] + es[j + 1..], cs[..j] + [x] + cs[j + 2..], d, lo, hi, -1)
  {
    var es', cs' := es[..j] + es[j + 1..], cs[..j] + [x] + cs[j + 2..];
    MergeSorted(es, j, lo, hi);
    forall y | 0 <= y < |cs'|
      ensures ValidNode(cs'[y], d, d - 1, LowerOf(es', y, lo), UpperOf(es', y, hi))
    {
      MergeBounds(es, j, y, lo, hi);
      if y < j {
        assert cs'[y] == cs[y];
      } else if y > j {
        assert cs'[y] == cs[y + 1];
      } else {
        assert cs'[y] == x;
      }
    }
  }

  /** Dropping a separator keeps the entries sorted. */
  lemma MergeSorted(es: seq<Entry>, j: nat, lo: Option<int>, hi: Option<int>)
    requires SortedWithin(es, lo, hi) && j < |es|
    ensures SortedWithin(es[..j] + es[j + 1..], lo, hi)
  {
    var es' := es[..j] + es[j + 1..];
    forall y | 0 <= y < |es'| ensures es'[y] == es[if y < j then y else y + 1] {
    }
  }

  /** The bounds of each child once separator `j` is dropped: those of the
      same child before it, those of the pair `j`, `j+1` at `j`, and those of
      the next child after it. */
  lemma MergeBounds(es: seq<Entry>, j: nat, y: nat, lo: Option<int>, hi: Option<int>)
    requires j < |es| && y <= |es| - 1
    ensures var es' := es[..j] + es[j + 1..];
      && LowerOf(es', y, lo) == LowerOf(es, if y <= j then y else y + 1, lo)
      && UpperOf(es', y, hi) == UpperOf(es, if y < j then y else y + 1, hi)
  {
    var es' := es[..j] + es[j + 1..];
    if 0 < y {
      assert es'[y - 1] == es[if y - 1 < j then y - 1 else y];
    }
    if y < |es'| {
      assert es'[y] == es[if y < j then y else y + 1];
    }
  }

  lemma MergeFlatten(es: seq<Entry>, cs: seq<Tree>, j: nat, x: Tree)
    requires |cs| == |es| + 1 && j + 1 < |cs|
    ensures Interleave(es[..j] + es[j + 1..], cs[..j] + [x] + cs[j + 2..]) ==
      Before(es, cs, j) + Flatten(x) + After(es, cs, j + 1)
  {
    var es', cs' := es[..j] + es[j + 1..], cs[..j] + [x] + cs[j + 2..];
    Decompose(es', cs', j);
    assert es'[..j] == es[..j] && cs'[..j] == cs[..j];
    BeforeSame(es, cs, es', cs', j);
    assert es'[j..] == es[j + 1..] && cs'[j + 1..] == cs[j + 2..];
    AfterSame(es, cs, j + 1, es', cs', j);
  }

  // ---------------------------------------------------------------------
  // Fix

  /** What `Fix` may assume: a node whose children are all valid except
      child `i`, which may be one entry short. */
  ghost predicate Fixable(t: Tree, i: nat, d: nat, lo: Option<int>, hi: Option<int>)
  {
    && d >= 2 && |t.children| == |t.entries| + 1 && 1 <= |t.entries| <= 2 * d - 1 && i < |t.children|
    && SortedWithin(t.entries, lo, hi) && AllHeight(t.children, Height(t.children[0]))
    && ChildrenValid(t.entries, t.children, d, lo, hi, i)
  }

  /** `Fix` restores the invariant below the node, keeps its height and its
      contents, removes at most the one separator it merges away, and leaves
      a node whose child `i` was not short untouched. */
  lemma FixSpec(t: Tree, i: nat, d: nat, lo: Option<int>, hi: Option<int>)
    requires Fixable(t, i, d, lo, hi)
    ensures var r := Fix(t, i, d);
      && ValidNode(r, d, |t.entries| - 1, lo, hi) && r.children != []
      && Height(r) == Height(t) && Flatten(r) == Flatten(t)
      && (|t.children[i].entries| >= d - 1 ==> r == t)
  {
    var es, cs := t.entries, t.children;
    if |cs[i].entries| >= d - 1 {
      FixNothing(t, i, d, lo, hi);
    } else if i > 0 && |cs[i - 1].entries| >= d {
      FixRotateRight(t, i, d, lo, hi);
    } else if i < |es| && |cs[i + 1].entries| >= d {
      FixRotateLeft(t, i, d, lo, hi);
    } else if i > 0 {
      FixMerge(t, i - 1, i, d, lo, hi);
    } else {
      FixMerge(t, i, i, d, lo, hi);
    }
  }

  lemma FixNothing(t: Tree, i: nat, d: nat, lo: Option<int>, hi: Option<int>)
    requires Fixable(t, i, d, lo, hi) && |t.children[i].entries| >= d - 1
    ensures ValidNode(t, d, |t.entries|, lo, hi)
  {
    var es, cs := t.entries, t.children;
    forall x | 0 <= x < |cs| ensures ValidNode(cs[x], d, d - 1, LowerOf(es, x, lo), UpperOf(es, x, hi)) {
      if x == i {
        RaiseMin(cs[i], d, d - 2, d - 1, LowerOf(es, i, lo), UpperOf(es, i, hi));
      }
    }
  }

  lemma FixRotateRight(t: Tree, i: nat, d: nat, lo: Option<int>, hi: Option<int>)
    requires Fixable(t, i, d, lo, hi) && 0 < i
    requires |t.children[i - 1].entries| >= d && |t.children[i].entries| < d - 1
    ensures var r := RotateRight(t, i);
      && ValidNode(r, d, |t.entries|, lo, hi) && r.children != []
      && Height(r) == Height(t) && Flatten(r) == Flatten(t)
  {
    var es, cs := t.entries, t.children;
    var j := i - 1;
    var plo, phi := LowerOf(es, j, lo), UpperOf(es, j + 1, hi);
    assert ValidNode(cs[j], d, d - 1, plo, Some(es[j].key));
    RaiseMin(cs[j], d, d - 1, d, plo, Some(es[j].key));
    SeparatorWithin(es, j, lo, hi);
    assert Height(cs[j]) == Height(cs[i]) == Height(cs[0]);
    ShiftRightValid(cs[j], es[j], cs[i], d, plo, phi);
    PairAssemble(t, j, i, ShiftRight(cs[j], es[j], cs[i]), d, lo, hi);
  }

  lemma FixRotateLeft(t: Tree, i: nat, d: nat, lo: Option<int>, hi: Option<int>)
    requires Fixable(t, i, d, lo, hi) && i < |t.entries|
    requires |t.children[i + 1].entries| >= d && |t.children[i].entries| < d - 1
    ensures var r := RotateLeft(t, i);
      && ValidNode(r, d, |t.entries|, lo, hi) && r.children != []
      && Height(r) == Height(t) && Flatten(r) == Flatten(t)
  {
    var es, cs := t.entries, t.children;
    var plo, phi := LowerOf(es, i, lo), UpperOf(es, i + 1, hi);
    assert ValidNode(cs[i + 1], d, d - 1, Some(es[i].key), phi);
    RaiseMin(cs[i + 1], d, d - 1, d, Some(es[i].key), phi);
    SeparatorWithin(es, i, lo, hi);
    assert Height(cs[i]) == Height(cs[i + 1]) == Height(cs[0]);
    ShiftLeftValid(cs[i], es[i], cs[i + 1], d, plo, phi);
    PairAssemble(t, i, i, ShiftLeft(cs[i], es[i], cs[i + 1]), d, lo, hi);
  }

  /** A node whose pair at gap `j` (holding the short child `r`) is replaced
      by a valid pair of the same height and contents. */
  lemma PairAssemble(t: Tree, j: nat, r: nat, p: (Tree, Entry, Tree), d: nat, lo: Option<int>, hi: Option<int>)
    requires Fixable(t, r, d, lo, hi) && j < |t.entries| && (r == j || r == j + 1)
    requires Within(p.1.key, LowerOf(t.entries, j, lo), UpperOf(t.entries, j + 1, hi))
    requires ValidNode(p.0, d, d - 1, LowerOf(t.entries, j, lo), Some(p.1.key))
    requires ValidNode(p.2, d, d - 1, Some(p.1.key), UpperOf(t.entries, j + 1, hi))
    requires Height(p.0) == Height(t.children[0]) && Height(p.2) == Height(t.children[0])
    requires Flatten(p.0) + [p.1] + Flatten(p.2) == Flatten(t.children[j]) + [t.entries[j]] + Flatten(t.children[j + 1])
    ensures var u := ReplacePair(t, j, p);
      && ValidNode(u, d, |t.entries|, lo, hi) && u.children != []
      && Height(u) == Height(t) && Flatten(u) == Flatten(t)
  {
    var es, cs := t.entries, t.children;
    PairValid(es, cs, j, p, d, lo, hi, r);
    PairFlatten(es, cs, j, p);
    DecomposePair(es, cs, j);
    var cs' := cs[j := p.0][j + 1 := p.2];
    assert ReplacePair(t, j, p) == Node(es[j := p.1], cs');
    PairHeights(cs, j, p.0, p.2);
  }

  /** Two children replaced by trees of the common height. */
  lemma PairHeights(cs: seq<Tree>, j: nat, x: Tree, y: Tree)
    requires j + 1 < |cs| && AllHeight(cs, Height(cs[0])) && Height(x) == Height(cs[0]) && Height(y) == Height(cs[0])
    ensures AllHeight(cs[j := x][j + 1 := y], Height(cs[0]))
  {
    var cs' := cs[j := x][j + 1 := y];
    forall z | 0 <= z < |cs'| ensures Height(cs'[z]) == Height(cs[0]) {
      if z != j && z != j + 1 { assert cs'[z] == cs[z]; }
    }
  }

  /** Merging the pair at gap `j`, one of which (`r`) is one entry short and
      the other of which cannot spare an entry. */
  lemma FixMerge(t: Tree, j: nat, r: nat, d: nat, lo: Option<int>, hi: Option<int>)
    requires Fixable(t, r, d, lo, hi) && j < |t.entries| && (r == j || r == j + 1)
    requires |t.children[r].entries| < d - 1
    requires |t.children[if r == j then j + 1 else j].entries| < d
    ensures var m := Merge(t, j);
      && ValidNode(m, d, |t.entries| - 1, lo, hi) && m.children != []
      && Height(m) == Height(t) && Flatten(m) == Flatten(t)
  {
    var es, cs := t.entries, t.children;
    var x := Joined(cs[j], es[j], cs[j + 1]);
    MergedChild(t, j, r, d, lo, hi);
    MergeAssemble(t, j, r, x, d, lo, hi);
  }

  lemma MergedChild(t: Tree, j: nat, r: nat, d: nat, lo: Option<int>, hi: Option<int>)
    requires Fixable(t, r, d, lo, hi) && j < |t.entries| && (r == j || r == j + 1)
    requires |t.children[r].entries| < d - 1
    requires |t.children[if r == j then j + 1 else j].entries| < d
    ensures var es, cs := t.entries, t.children;
      var x := Joined(cs[j], es[j], cs[j + 1]);
      && ValidNode(x, d, d - 1, LowerOf(es, j, lo), UpperOf(es, j + 1, hi))
      && Height(x) == Height(cs[0])
      && Flatten(x) == Flatten(cs[j]) + [es[j]] + Flatten(cs[j + 1])
  {
    var es, cs := t.entries, t.children;
    var plo, phi := LowerOf(es, j, lo), UpperOf(es, j + 1, hi);
    SeparatorWithin(es, j, lo, hi);
    var o := if r == j then j + 1 else j;
    assert ValidNode(cs[r], d, d - 2, LowerOf(es, r, lo), UpperOf(es, r, hi));
    assert ValidNode(cs[o], d, d - 1, LowerOf(es, o, lo), UpperOf(es, o, hi));
    assert |cs[j].entries| + |cs[j + 1].entries| == 2 * d - 3;
    assert Height(cs[j]) == Height(cs[j + 1]) == Height(cs[0]);
    ValidWeaken(cs[o], d, d - 1, LowerOf(es, o, lo), UpperOf(es, o, hi), d - 2, LowerOf(es, o, lo), UpperOf(es, o, hi));
    JoinedValid(cs[j], es[j], cs[j + 1], d, plo, phi);
  }

  lemma MergeAssemble(t: Tree, j: nat, r: nat, x: Tree, d: nat, lo: Option<int>, hi: Option<int>)
    requires Fixable(t, r, d, lo, hi) && j < |t.entries| && (r == j || r == j + 1)
    requires x == Joined(t.children[j], t.entries[j], t.children[j + 1])
    requires ValidNode(x, d, d - 1, LowerOf(t.entries, j, lo), UpperOf(t.entries, j + 1, hi))
    requires Height(x) == Height(t.children[0])
    requires Flatten(x) == Flatten(t.children[j]) + [t.entries[j]] + Flatten(t.children[j + 1])
    ensures var m := Merge(t, j);
      && ValidNode(m, d, |t.entries| - 1, lo, hi) && m.children != []
      && Height(m) == Height(t) && Flatten(m) == Flatten(t)
  {
    var es, cs := t.entries, t.children;
    MergeValid(es, cs, j, x, d, lo, hi, r);
    MergeFlatten(es, cs, j, x);
    DecomposePair(es, cs, j);
    var cs' := cs[..j] + [x] + cs[j + 2..];
    assert Merge(t, j) == Node(es[..j] + es[j + 1..], cs');
    MergeHeights(cs, j, x);
  }

  /** Two equally high children replaced by one tree of their height. */
  lemma MergeHeights(cs: seq<Tree>, j: nat, x: Tree)
    requires j + 1 < |cs| && AllHeight(cs, Height(cs[0])) && Height(x) == Height(cs[0])
    ensures AllHeight(cs[..j] + [x] + cs[j + 2..], Height(cs[0]))
  {
    var cs' := cs[..j] + [x] + cs[j + 2..];
    forall y | 0 <= y < |cs'| ensures Height(cs'[y]) == Height(cs[0]) {
      if y < j { assert cs'[y] == cs[y]; }
      else if y > j { assert cs'[y] == cs[y + 1]; }
    }
  }

  // ---------------------------------------------------------------------
  // DelMax

  /** `DelMax` takes out the last entry in key order and leaves a subtree,
      bounded above by that entry, as high as before and at most one entry
      short at its top. */
  lemma {:induction false} DelMaxSpec(t: Tree, d: nat, m: int, lo: Option<int>, hi: Option<int>)
    requires d >= 2 && ValidNode(t, d, m, lo, hi) && |t.entries| >= 1
    ensures ValidNode(t, d, 1, None, None)
    ensures var (r, mx) := DelMax(t, d);
      && ValidNode(r, d, m - 1, lo, Some(mx.key)) && Within(mx.key, lo, hi)
      && Height(r) == Height(t) && (r.children == [] <==> t.children == [])
      && Flatten(t) == Flatten(r) + [mx]
    decreases t
  {
    RaiseMin(t, d, m, 1, lo, hi);
    ValidWeaken(t, d, 1, lo, hi, 1, None, None);
    var es, cs := t.entries, t.children;
    if cs == [] {
      DelMaxLeaf(t, d, m, lo, hi);
    } else {
      var n := |cs| - 1;
      ChildAnywhere(t, d, m, lo, hi, n);
      DelMaxSpec(cs[n], d, d - 1, LowerOf(es, n, lo), UpperOf(es, n, hi));
      var (c', mx) := DelMax(cs[n], d);
      DelMaxStep(t, d, m, lo, hi, c', mx);
      var u := Node(es, cs[n := c']);
      FixSpec(u, n, d, lo, Some(mx.key));
      ValidWeaken(Fix(u, n, d), d, |es| - 1, lo, Some(mx.key), m - 1, lo, Some(mx.key));
    }
  }

  lemma DelMaxLeaf(t: Tree, d: nat, m: int, lo: Option<int>, hi: Option<int>)
    requires d >= 2 && ValidNode(t, d, m, lo, hi) && |t.entries| >= 1 && t.children == []
    ensures var es := t.entries;
      var n := |es|;
      && ValidNode(Node(es[..n - 1], []), d, m - 1, lo, Some(es[n - 1].key))
      && Within(es[n - 1].key, lo, hi)
      && Flatten(t) == es[..n - 1] + [es[n - 1]]
  {
    var es := t.entries;
    var n := |es|;
    assert es == es[..n - 1] + [es[n - 1]] + [];
    SortedConcat(es[..n - 1], es[n - 1], [], lo, hi);
  }

  /** After the last child gave up its largest entry, the node is ready for
      `Fix` under the tighter upper bound. */
  lemma DelMaxStep(t: Tree, d: nat, m: int, lo: Option<int>, hi: Option<int>, c': Tree, mx: Entry)
    requires d >= 2 && ValidNode(t, d, m, lo, hi) && |t.entries| >= 1 && t.children != []
    requires var n := |t.children| - 1;
      && ValidNode(c', d, d - 2, LowerOf(t.entries, n, lo), Some(mx.key))
      && Within(mx.key, LowerOf(t.entries, n, lo), UpperOf(t.entries, n, hi))
      && Height(c') == Height(t.children[n])
      && Flatten(t.children[n]) == Flatten(c') + [mx]
    ensures var n := |t.children| - 1;
      var u := Node(t.entries, t.children[n := c']);
      && Fixable(u, n, d, lo, Some(mx.key)) && Height(u) == Height(t)
      && Flatten(t) == Flatten(u) + [mx] && Within(mx.key, lo, hi)
  {
    var es, cs := t.entries, t.children;
    var n := |cs| - 1;
    var cs' := cs[n := c'];
    assert SortedWithin(es, lo, Some(mx.key)) by {
      forall x | 0 <= x < |es| ensures es[x].key < mx.key {
        if x < n - 1 { assert es[x].key < es[n - 1].key; }
      }
    }
    LastChildReplaced(es, cs, c', mx, d, lo, hi);
    SameHeights(cs, n, c');
    ReplaceChild(es, cs, n, c');
    Decompose(es, cs, n);
  }

  /** The children once the last child is replaced by a tree below `mx`,
      which may be one entry short, and `mx` becomes the upper bound. */
  lemma LastChildReplaced(es: seq<Entry>, cs: seq<Tree>, c': Tree, mx: Entry, d: nat, lo: Option<int>, hi: Option<int>)
    requires |cs| == |es| + 1 && ChildrenValid(es, cs, d, lo, hi, -1)
    requires ValidNode(c', d, d - 2, LowerOf(es, |es|, lo), Some(mx.key))
    ensures ChildrenValid(es, cs[|es| := c'], d, lo, Some(mx.key), |es|)
  {
    var n, cs' := |es|, cs[|es| := c'];
    forall x | 0 <= x < |cs'|
      ensures ValidNode(cs'[x], d, if x == n then d - 2 else d - 1, LowerOf(es, x, lo), UpperOf(es, x, Some(mx.key)))
    {
      if x < n {
        assert cs'[x] == cs[x];
      }
    }
  }

  // ---------------------------------------------------------------------
  // Del

  /** Deleting below a node keeps it valid under the same bounds, at most
      one entry short at its top, as high as before, and removes exactly key
      `k` from its contents; a key it does not hold leaves it unchanged. */
  lemma {:induction false} DelSpec(t: Tree, k: int, d: nat, m: int, lo: Option<int>, hi: Option<int>)
    requires d >= 2 && ValidNode(t, d, m, lo, hi) && (t.children != [] ==> |t.entries| >= 1)
    ensures ValidTree(t, d)
    ensures var r := Del(t, k, d);
      && ValidNode(r, d, m - 1, lo, hi) && Height(r) == Height(t)
      && (r.children == [] <==> t.children == [])
      && Flatten(r) == Remove(Flatten(t), k)
      && (k !in Keys(Flatten(t)) ==> r == t)
    decreases t, 1
  {
    WholeTree(t, d, m, lo, hi);
    var es, cs := t.entries, t.children;
    var i := KeyPos(es, k);
    if cs == [] {
      DelLeaf(t, k, d, m, lo, hi);
    } else if i < |es| && es[i].key == k {
      DelAtSeparator(t, k, d, m, lo, hi);
    } else {
      DelBelow(t, k, d, m, lo, hi);
    }
  }

  lemma DelAtSeparator(t: Tree, k: int, d: nat, m: int, lo: Option<int>, hi: Option<int>)
    requires d >= 2 && ValidNode(t, d, m, lo, hi) && ValidTree(t, d) && t.children != []
    requires var i := KeyPos(t.entries, k); i < |t.entries| && t.entries[i].key == k
    ensures var r := Del(t, k, d);
      && ValidNode(r, d, m - 1, lo, hi) && Height(r) == Height(t) && r.children != []
      && Flatten(r) == Remove(Flatten(t), k) && k in Keys(Flatten(t))
  {
    var es, cs := t.entries, t.children;
    var i := KeyPos(es, k);
    ChildAnywhere(t, d, m, lo, hi, i);
    DelMaxSpec(cs[i], d, d - 1, LowerOf(es, i, lo), UpperOf(es, i, hi));
    var p := DelMax(cs[i], d);
    DelSeparatorStep(t, k, d, m, lo, hi, p.0, p.1);
    var u := Node(es[i := p.1], cs[i := p.0]);
    assert Del(t, k, d) == Fix(u, i, d);
    FixWeakened(u, i, d, m, lo, hi);
  }

  /** `Fix` on a node that held at least `m` entries leaves at least `m-1`. */
  lemma FixWeakened(u: Tree, i: nat, d: nat, m: int, lo: Option<int>, hi: Option<int>)
    requires Fixable(u, i, d, lo, hi) && m <= |u.entries|
    ensures var r := Fix(u, i, d);
      && ValidNode(r, d, m - 1, lo, hi) && r.children != []
      && Height(r) == Height(u) && Flatten(r) == Flatten(u)
  {
    FixSpec(u, i, d, lo, hi);
    ValidWeaken(Fix(u, i, d), d, |u.entries| - 1, lo, hi, m - 1, lo, hi);
  }

  lemma {:induction false} DelBelow(t: Tree, k: int, d: nat, m: int, lo: Option<int>, hi: Option<int>)
    requires d >= 2 && ValidNode(t, d, m, lo, hi) && ValidTree(t, d) && t.children != []
    requires var i := KeyPos(t.entries, k); !(i < |t.entries| && t.entries[i].key == k)
    ensures var r := Del(t, k, d);
      && ValidNode(r, d, m - 1, lo, hi) && Height(r) == Height(t) && r.children != []
      && Flatten(r) == Remove(Flatten(t), k)
      && (k !in Keys(Flatten(t)) ==> r == t)
    decreases t, 0
  {
    var es, cs := t.entries, t.children;
    var i := KeyPos(es, k);
    ChildAnywhere(t, d, m, lo, hi, i);
    DelSpec(cs[i], k, d, d - 1, LowerOf(es, i, lo), UpperOf(es, i, hi));
    DelBelowFix(t, k, d, m, lo, hi, Del(cs[i], k, d));
  }

  lemma DelBelowFix(t: Tree, k: int, d: nat, m: int, lo: Option<int>, hi: Option<int>, c': Tree)
    requires d >= 2 && ValidNode(t, d, m, lo, hi) && ValidTree(t, d) && t.children != []
    requires var i := KeyPos(t.entries, k); !(i < |t.entries| && t.entries[i].key == k)
    requires var i := KeyPos(t.entries, k);
      && ValidTree(t.children[i], d) && c' == Del(t.children[i], k, d)
      && ValidNode(c', d, d - 2, LowerOf(t.entries, i, lo), UpperOf(t.entries, i, hi))
      && Height(c') == Height(t.children[i])
      && Flatten(c') == Remove(Flatten(t.children[i]), k)
      && (k !in Keys(Flatten(t.children[i])) ==> c' == t.children[i])
    ensures var r := Del(t, k, d);
      && ValidNode(r, d, m - 1, lo, hi) && Height(r) == Height(t) && r.children != []
      && Flatten(r) == Remove(Flatten(t), k)
      && (k !in Keys(Flatten(t)) ==> r == t)
  {
    var es, cs := t.entries, t.children;
    var i := KeyPos(es, k);
    DelChildStep(t, k, d, m, lo, hi, c');
    var u := Node(es, cs[i := c']);
    assert Del(t, k, d) == Fix(u, i, d);
    FixWeakened(u, i, d, m, lo, hi);
    if k !in Keys(Flatten(t)) {
      FixSpec(u, i, d, lo, hi);
      assert c' == cs[i];
      assert cs[i := c'] == cs;
      ChildAnywhere(t, d, m, lo, hi, i);
      assert Fix(t, i, d) == t;
    }
  }

  lemma DelLeaf(t: Tree, k: int, d: nat, m: int, lo: Option<int>, hi: Option<int>)
    requires d >= 2 && ValidNode(t, d, m, lo, hi) && ValidTree(t, d) && t.children == []
    ensures var r := Del(t, k, d);
      && ValidNode(r, d, m - 1, lo, hi) && Height(r) == Height(t) && r.children == []
      && Flatten(r) == Remove(Flatten(t), k)
      && (k !in Keys(Flatten(t)) ==> r == t)
  {
    var es := t.entries;
    var i := KeyPos(es, k);
    LeafRemove(es, k, lo, hi);
    if i < |es| && es[i].key == k {
      assert Del(t, k, d) == Node(es[..i] + es[i + 1..], []);
    } else {
      assert Del(t, k, d) == t;
    }
  }

  /** Removing a key from the entries of a leaf drops exactly the entry at
      its scan position, if that entry holds it. */
  lemma LeafRemove(es: seq<Entry>, k: int, lo: Option<int>, hi: Option<int>)
    requires SortedWithin(es, lo, hi)
    ensures var i := KeyPos(es, k);
      if i < |es| && es[i].key == k then
        && SortedWithin(es[..i] + es[i + 1..], lo, hi)
        && Remove(es, k) == es[..i] + es[i + 1..] && k in Keys(es)
      else
        Remove(es, k) == es && k !in Keys(es)
  {
    var i := KeyPos(es, k);
    if i < |es| && es[i].key == k {
      RemoveAt(es, i, lo, hi);
    } else {
      LeafFinds(es, lo, hi, k);
      RemoveAbsent(es, k);
    }
  }

  /** Removing the key of entry `i` of sorted entries drops that entry. */
  lemma RemoveAt(es: seq<Entry>, i: nat, lo: Option<int>, hi: Option<int>)
    requires SortedWithin(es, lo, hi) && i < |es|
    ensures SortedWithin(es[..i] + es[i + 1..], lo, hi)
    ensures Remove(es, es[i].key) == es[..i] + es[i + 1..]
  {
    var k, a, b := es[i].key, es[..i], es[i + 1..];
    Around(es, i);
    SortedSplit(a, es[i], b, lo, hi);
    SortedJoin(a, b, k, lo, hi);
    OutsideAbsent(a, lo, Some(k), k);
    OutsideAbsent(b, Some(k), hi, k);
    RemoveOne(a, es[i], b, k);
  }

  /** After the child the key would be in lost it, the node is ready for
      `Fix`, and its contents are the old ones without `k`. */
  lemma DelChildStep(t: Tree, k: int, d: nat, m: int, lo: Option<int>, hi: Option<int>, c': Tree)
    requires d >= 2 && ValidNode(t, d, m, lo, hi) && |t.entries| >= 1 && t.children != []
    requires var i := KeyPos(t.entries, k); !(i < |t.entries| && t.entries[i].key == k)
    requires var i := KeyPos(t.entries, k);
      && ValidNode(c', d, d - 2, LowerOf(t.entries, i, lo), UpperOf(t.entries, i, hi))
      && Height(c') == Height(t.children[i])
      && Flatten(c') == Remove(Flatten(t.children[i]), k)
    ensures var i := KeyPos(t.entries, k);
      var u := Node(t.entries, t.children[i := c']);
      && Fixable(u, i, d, lo, hi) && Height(u) == Height(t)
      && Flatten(u) == Remove(Flatten(t), k)
      && (k !in Keys(Flatten(t)) ==> k !in Keys(Flatten(t.children[i])))
  {
    var es, cs := t.entries, t.children;
    var i := KeyPos(es, k);
    ChildrenValidUpdate(es, cs, d, lo, hi, -1, i, i, c');
    SameHeights(cs, i, c');
    RemoveThroughChild(es, cs, d, lo, hi, k, c');
  }

  /** Removing a key that is not a separator removes it from the child it
      falls in, and nowhere else holds it. */
  lemma RemoveThroughChild(es: seq<Entry>, cs: seq<Tree>, d: nat, lo: Option<int>, hi: Option<int>, k: int, c': Tree)
    requires |cs| == |es| + 1 && SortedWithin(es, lo, hi) && ChildrenValid(es, cs, d, lo, hi, -1)
    requires var i := KeyPos(es, k); !(i < |es| && es[i].key == k)
    requires Flatten(c') == Remove(Flatten(cs[KeyPos(es, k)]), k)
    ensures var i := KeyPos(es, k);
      && Interleave(es, cs[i := c']) == Remove(Interleave(es, cs), k)
      && (k !in Keys(Interleave(es, cs)) ==> k !in Keys(Flatten(cs[i])))
  {
    var i := KeyPos(es, k);
    var b, a := Before(es, cs, i), After(es, cs, i);
    ReplaceChild(es, cs, i, c');
    Decompose(es, cs, i);
    Pieces(es, cs, d, lo, hi, -1, i);
    if i > 0 {
      KeysBelowAbsent(b, LowerOf(es, i, lo), k);
    }
    if i < |es| {
      KeysAboveAbsent(a, UpperOf(es, i, hi), k);
    }
    RemoveMiddle(b, Flatten(cs[i]), a, k);
    KeysConcat(b + Flatten(cs[i]), a);
    KeysConcat(b, Flatten(cs[i]));
  }

  /** After the separator equal to `k` was replaced by its predecessor, taken
      out of the child left of it, the node is ready for `Fix`, and its
      contents are the old ones without `k`. */
  lemma DelSeparatorStep(t: Tree, k: int, d: nat, m: int, lo: Option<int>, hi: Option<int>, c': Tree, pred: Entry)
    requires d >= 2 && ValidNode(t, d, m, lo, hi) && |t.entries| >= 1 && t.children != []
    requires var i := KeyPos(t.entries, k); i < |t.entries| && t.entries[i].key == k
    requires var i := KeyPos(t.entries, k);
      && ValidNode(c', d, d - 2, LowerOf(t.entries, i, lo), Some(pred.key))
      && Within(pred.key, LowerOf(t.entries, i, lo), UpperOf(t.entries, i, hi))
      && Height(c') == Height(t.children[i])
      && Flatten(t.children[i]) == Flatten(c') + [pred]
    ensures var i := KeyPos(t.entries, k);
      var u := Node(t.entries[i := pred], t.children[i := c']);
      && Fixable(u, i, d, lo, hi) && Height(u) == Height(t)
      && Flatten(u) == Remove(Flatten(t), k)
      && k in Keys(Flatten(t))
  {
    var es, cs := t.entries, t.children;
    var i := KeyPos(es, k);
    SeparatorReplaced(t, k, d, m, lo, hi, c', pred);
    SeparatorRemoved(t, k, d, m, lo, hi, c', pred);
  }

  lemma SeparatorReplaced(t: Tree, k: int, d: nat, m: int, lo: Option<int>, hi: Option<int>, c': Tree, pred: Entry)
    requires d >= 2 && ValidNode(t, d, m, lo, hi) && |t.entries| >= 1 && t.children != []
    requires var i := KeyPos(t.entries, k); i < |t.entries| && t.entries[i].key == k
    requires var i := KeyPos(t.entries, k);
      && ValidNode(c', d, d - 2, LowerOf(t.entries, i, lo), Some(pred.key))
      && Within(pred.key, LowerOf(t.entries, i, lo), UpperOf(t.entries, i, hi))
      && Height(c') == Height(t.children[i])
    ensures var i := KeyPos(t.entries, k);
      var u := Node(t.entries[i := pred], t.children[i := c']);
      Fixable(u, i, d, lo, hi) && Height(u) == Height(t)
  {
    var es, cs := t.entries, t.children;
    var i := KeyPos(es, k);
    var es', cs' := es[i := pred], cs[i := c'];
    SeparatorWithin(es, i, lo, hi);
    SortedReplace(es, i, pred, lo, hi);
    ChildrenSeparatorReplaced(es, cs, i, pred, c', d, lo, hi);
    SameHeights(cs, i, c');
  }

  /** The children once separator `i` is replaced by a smaller key `e` and
      child `i` by a tree below `e`, which may be one entry short. */
  lemma ChildrenSeparatorReplaced(es: seq<Entry>, cs: seq<Tree>, i: nat, e: Entry, c': Tree,
                                  d: nat, lo: Option<int>, hi: Option<int>)
    requires |cs| == |es| + 1 && i < |es| && ChildrenValid(es, cs, d, lo, hi, -1)
    requires e.key < es[i].key
    requires ValidNode(c', d, d - 2, LowerOf(es, i, lo), Some(e.key))
    ensures ChildrenValid(es[i := e], cs[i := c'], d, lo, hi, i)
  {
    var es', cs' := es[i := e], cs[i := c'];
    forall x | 0 <= x < |cs'|
      ensures ValidNode(cs'[x], d, if x == i then d - 2 else d - 1, LowerOf(es', x, lo), UpperOf(es', x, hi))
    {
      ReplacedBounds(es, i, e, x, lo, hi);
      if x == i + 1 {
        assert ValidNode(cs[x], d, d - 1, Some(es[i].key), UpperOf(es, x, hi));
        ValidWeaken(cs[x], d, d - 1, Some(es[i].key), UpperOf(es, x, hi), d - 1, Some(e.key), UpperOf(es, x, hi));
      } else if x != i {
        assert cs'[x] == cs[x];
      }
    }
  }

  /** The bounds of each child once separator `i` is replaced by `e`: only
      the two children around it see the new key. */
  lemma ReplacedBounds(es: seq<Entry>, i: nat, e: Entry, x: nat, lo: Option<int>, hi: Option<int>)
    requires i < |es|
    ensures LowerOf(es[i := e], x, lo) == if x == i + 1 then Some(e.key) else LowerOf(es, x, lo)
    ensures UpperOf(es[i := e], x, hi) == if x == i then Some(e.key) else UpperOf(es, x, hi)
  {
  }

  /** Replacing one child by a tree of its height keeps all children equally high. */
  lemma SameHeights(cs: seq<Tree>, i: nat, c': Tree)
    requires i < |cs| && AllHeight(cs, Height(cs[0])) && Height(c') == Height(cs[i])
    ensures AllHeight(cs[i := c'], Height(cs[i := c'][0]))
  {
    var cs' := cs[i := c'];
    forall x | 0 <= x < |cs'| ensures Height(cs'[x]) == Height(cs[0]) {
      if x != i { assert cs'[x] == cs[x]; }
    }
  }

  lemma SeparatorRemoved(t: Tree, k: int, d: nat, m: int, lo: Option<int>, hi: Option<int>, c': Tree, pred: Entry)
    requires d >= 2 && ValidNode(t, d, m, lo, hi) && |t.entries| >= 1 && t.children != []
    requires var i := KeyPos(t.entries, k); i < |t.entries| && t.entries[i].key == k
    requires var i := KeyPos(t.entries, k); Flatten(t.children[i]) == Flatten(c') + [pred]
    ensures var i := KeyPos(t.entries, k);
      var u := Node(t.entries[i := pred], t.children[i := c']);
      Flatten(u) == Remove(Flatten(t), k) && k in Keys(Flatten(t))
  {
    var es, cs := t.entries, t.children;
    var i := KeyPos(es, k);
    var b, c, r := Before(es, cs, i), Flatten(cs[i]), Interleave(es[i + 1..], cs[i + 1..]);
    SeparatorContents(t, i, c', pred);
    OnlyAtSeparator(t, k, d, m, lo, hi);
    RemoveOne(b + c, es[i], r, k);
    KeysConcat(b + c + [es[i]], r);
    KeysConcat(b + c, [es[i]]);
  }

  /** A node read around separator `i`, before and after that separator and
      the child left of it were replaced. */
  lemma SeparatorContents(t: Tree, i: nat, c': Tree, pred: Entry)
    requires t.children != [] && |t.children| == |t.entries| + 1 && i < |t.entries|
    requires Flatten(t.children[i]) == Flatten(c') + [pred]
    ensures var es, cs := t.entries, t.children;
      var b, c, r := Before(es, cs, i), Flatten(cs[i]), Interleave(es[i + 1..], cs[i + 1..]);
      && Flatten(t) == b + c + [es[i]] + r
      && Flatten(Node(es[i := pred], cs[i := c'])) == b + c + r
  {
    var es, cs := t.entries, t.children;
    var es', cs' := es[i := pred], cs[i := c'];
    var b, c, r := Before(es, cs, i), Flatten(cs[i]), Interleave(es[i + 1..], cs[i + 1..]);
    calc {
      Flatten(t);
      { Decompose(es, cs, i); }
      b + c + ([es[i]] + r);
      b + c + [es[i]] + r;
    }
    calc {
      Flatten(Node(es', cs'));
      Interleave(es', cs');
      { Decompose(es', cs', i); }
      Before(es', cs', i) + Flatten(c') + After(es', cs', i);
      { assert es'[..i] == es[..i] && cs'[..i] == cs[..i];
        BeforeSame(es, cs, es', cs', i); }
      b + Flatten(c') + After(es', cs', i);
      { assert es'[i] == pred && es'[i + 1..] == es[i + 1..] && cs'[i + 1..] == cs[i + 1..]; }
      b + Flatten(c') + ([pred] + r);
      b + (Flatten(c') + [pred]) + r;
    }
  }

  /** Key `k`, a separator of a valid node, occurs nowhere else below it. */
  lemma OnlyAtSeparator(t: Tree, k: int, d: nat, m: int, lo: Option<int>, hi: Option<int>)
    requires d >= 2 && ValidNode(t, d, m, lo, hi) && |t.entries| >= 1 && t.children != []
    requires var i := KeyPos(t.entries, k); i < |t.entries| && t.entries[i].key == k
    ensures var es, cs, i := t.entries, t.children, KeyPos(t.entries, k);
      && k !in Keys(Before(es, cs, i) + Flatten(cs[i]))
      && k !in Keys(Interleave(es[i + 1..], cs[i + 1..]))
  {
    var es, cs := t.entries, t.children;
    var i := KeyPos(es, k);
    var b, c, r := Before(es, cs, i), Flatten(cs[i]), Interleave(es[i + 1..], cs[i + 1..]);
    Pieces(es, cs, d, lo, hi, -1, i);
    if i > 0 {
      KeysBelowAbsent(b, LowerOf(es, i, lo), k);
    }
    FlattenSorted(cs[i], d, d - 1, LowerOf(es, i, lo), Some(k));
    OutsideAbsent(c, LowerOf(es, i, lo), Some(k), k);
    KeysConcat(b, c);
    assert After(es, cs, i) == [es[i]] + r;
    ConsSorted(es[i], r, lo, hi);
    OutsideAbsent(r, Some(k), hi, k);
  }
}
