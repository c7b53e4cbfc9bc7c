/** The B-tree of `Marcello.Index.BTree<int, int>` as a value: nodes, the
    structural invariant checked by the test's `ValidateSubtree`, the in-order
    contents of a tree and the `Search` descent. */
module BTreeModel {
  import opened Wrappers
  import opened SortedEntries

  /** `Node<int, int>`: its sorted `Entries` and, for an internal node, one
      child per gap between entries. A node without children is a leaf. */
  datatype Tree = Node(entries: seq<Entry>, children: seq<Tree>)

  /** `BTree.Height`: a tree that is a single (leaf) root has height 1. */
  function Height(t: Tree): nat
  {
    if t.children == [] then 1 else 1 + Height(t.children[0])
  }

  ghost predicate AllHeight(cs: seq<Tree>, h: nat)
  {
    forall i :: 0 <= i < |cs| ==> Height(cs[i]) == h
  }

  /** The shape every algorithm below relies on: one child per gap, equally
      high children, and no empty node below the top. */
  ghost predicate Shaped(t: Tree)
  {
    t.children == [] ||
    (&& |t.children| == |t.entries| + 1
     && AllHeight(t.children, Height(t.children[0]))
     && forall i :: 0 <= i < |t.children| ==> |t.children[i].entries| >= 1 && Shaped(t.children[i]))
  }

  /** Bounds of child `i`: the separators either side of it, or the node's own
      bounds at the two ends. */
  function LowerOf(es: seq<Entry>, i: nat, lo: Option<int>): Option<int>
  {
    if 0 < i <= |es| then Some(es[i - 1].key) else lo
  }

  function UpperOf(es: seq<Entry>, i: nat, hi: Option<int>): Option<int>
  {
    if i < |es| then Some(es[i].key) else hi
  }

  /** The invariant of a subtree of degree `d` whose keys lie strictly inside
      `(lo, hi)`: at most `2d-1` entries and at least `minEntries` (`d-1` for a
      non-root node, 0 for the root), keys sorted, and for an internal node one
      child per gap, all equally high and each valid inside its separators. */
  ghost predicate ValidNode(t: Tree, d: nat, minEntries: int, lo: Option<int>, hi: Option<int>)
    decreases t
  {
    && minEntries <= |t.entries| <= 2 * d - 1
    && SortedWithin(t.entries, lo, hi)
    && (t.children != [] ==>
          && |t.children| == |t.entries| + 1
          && AllHeight(t.children, Height(t.children[0]))
          && ChildrenValid(t.entries, t.children, d, lo, hi, -1))
  }

  /** Every child valid inside its separators; the child at index `relaxed`
      (if any) may hold one entry fewer than `d-1`, as a child does in the
      middle of a deletion. */
  ghost predicate ChildrenValid(es: seq<Entry>, cs: seq<Tree>, d: nat, lo: Option<int>, hi: Option<int>, relaxed: int)
    decreases cs
  {
    forall i :: 0 <= i < |cs| ==>
      ValidNode(cs[i], d, if i == relaxed then d - 2 else d - 1, LowerOf(es, i, lo), UpperOf(es, i, hi))
  }

  /** A whole tree of degree `d >= 2`: a valid root, which has at least one
      entry as soon as it has children. */
  ghost predicate ValidTree(t: Tree, d: nat)
  {
    && d >= 2
    && ValidNode(t, d, 0, None, None)
    && (t.children != [] ==> |t.entries| >= 1)
  }

  /** The entries of a tree in key order (an in-order walk). */
  function Flatten(t: Tree): seq<Entry>
    decreases t
  {
    if t.children == [] then t.entries else Interleave(t.entries, t.children)
  }

  function Interleave(es: seq<Entry>, cs: seq<Tree>): seq<Entry>
    decreases cs
  {
    if cs == [] then []
    else if es == [] || |cs| == 1 then Flatten(cs[0])
    else Flatten(cs[0]) + [es[0]] + Interleave(es[1..], cs[1..])
  }

  /** The contents of a node before child `i` (including the separator left
      of it) and after child `i` (including the separator right of it). */
  function Before(es: seq<Entry>, cs: seq<Tree>, i: nat): seq<Entry>
    requires i <= |es| && i <= |cs|
  {
    if i == 0 then [] else Interleave(es[..i - 1], cs[..i]) + [es[i - 1]]
  }

  function After(es: seq<Entry>, cs: seq<Tree>, i: nat): seq<Entry>
    requires i < |cs| == |es| + 1
  {
    if i == |es| then [] else [es[i]] + Interleave(es[i + 1..], cs[i + 1..])
  }

  /** Index of the first entry whose key is not below `k`: the per-node scan
      of the descent. */
  function KeyPos(es: seq<Entry>, k: int): (i: nat)
    ensures i <= |es|
    ensures forall j :: 0 <= j < i ==> es[j].key < k
    ensures i < |es| ==> k <= es[i].key
  {
    if es == [] || k <= es[0].key then 0 else 1 + KeyPos(es[1..], k)
  }

  /** `BTree.Search`: descend from the root; the matching entry, or `None`
      (the test's `null`). */
  function Search(t: Tree, k: int): (r: Option<Entry>)
    requires Shaped(t)
    ensures r.Some? ==> r.value.key == k
  {
    var i := KeyPos(t.entries, k);
    if i < |t.entries| && t.entries[i].key == k then Some(t.entries[i])
    else if t.children == [] then None
    else Search(t.children[i], k)
  }

  // ---------------------------------------------------------------------
  // Splitting a node's contents

  /** The children of a node split at a separator into the children of two
      nodes, and back. */
  lemma ChildrenValidConcat(es1: seq<Entry>, e: Entry, es2: seq<Entry>, cs1: seq<Tree>, cs2: seq<Tree>,
                            d: nat, lo: Option<int>, hi: Option<int>, relaxed: int)
    requires |cs1| == |es1| + 1 && |cs2| == |es2| + 1
    ensures ChildrenValid(es1 + [e] + es2, cs1 + cs2, d, lo, hi, relaxed) <==>
      ChildrenValid(es1, cs1, d, lo, Some(e.key), relaxed) &&
      ChildrenValid(es2, cs2, d, Some(e.key), hi, relaxed - |cs1|)
  {
    var es, cs := es1 + [e] + es2, cs1 + cs2;
    forall i | 0 <= i < |cs1|
      ensures cs[i] == cs1[i]
      ensures LowerOf(es, i, lo) == LowerOf(es1, i, lo)
      ensures UpperOf(es, i, hi) == UpperOf(es1, i, Some(e.key))
    {
      if 0 < i { assert es[i - 1] == es1[i - 1]; }
      if i < |es1| { assert es[i] == es1[i]; }
    }
    forall j | 0 <= j < |cs2|
      ensures cs[|cs1| + j] == cs2[j]
      ensures LowerOf(es, |cs1| + j, lo) == LowerOf(es2, j, Some(e.key))
      ensures UpperOf(es, |cs1| + j, hi) == UpperOf(es2, j, hi)
    {
      if 0 < j { assert es[|cs1| + j - 1] == es2[j - 1]; } else { assert es[|es1|] == e; }
      if j < |es2| { assert es[|cs1| + j] == es2[j]; }
    }
    if ChildrenValid(es1, cs1, d, lo, Some(e.key), relaxed) &&
       ChildrenValid(es2, cs2, d, Some(e.key), hi, relaxed - |cs1|) {
      forall i | 0 <= i < |cs|
        ensures ValidNode(cs[i], d, if i == relaxed then d - 2 else d - 1, LowerOf(es, i, lo), UpperOf(es, i, hi))
      {
        if i >= |cs1| {
          var j := i - |cs1|;
          assert cs[|cs1| + j] == cs2[j];
        }
      }
    }
    if ChildrenValid(es, cs, d, lo, hi, relaxed) {
      forall j | 0 <= j < |cs2|
        ensures ValidNode(cs2[j], d, if j == relaxed - |cs1| then d - 2 else d - 1, LowerOf(es2, j, Some(e.key)), UpperOf(es2, j, hi))
      {
        assert cs[|cs1| + j] == cs2[j];
      }
    }
  }

  lemma {:induction false} InterleaveConcat(es1: seq<Entry>, e: Entry, es2: seq<Entry>, cs1: seq<Tree>, cs2: seq<Tree>)
    requires |cs1| == |es1| + 1 && |cs2| == |es2| + 1
    ensures Interleave(es1 + [e] + es2, cs1 + cs2) == Interleave(es1, cs1) + [e] + Interleave(es2, cs2)
  {
    var es, cs := es1 + [e] + es2, cs1 + cs2;
    if es1 == [] {
      assert es[0] == e && es[1..] == es2;
      assert cs[0] == cs1[0] && cs[1..] == cs2;
    } else {
      assert es[0] == es1[0] && es[1..] == es1[1..] + [e] + es2;
      assert cs[0] == cs1[0] && cs[1..] == cs1[1..] + cs2;
      InterleaveConcat(es1[1..], e, es2, cs1[1..], cs2);
    }
  }

  lemma InterleaveFrom(es: seq<Entry>, cs: seq<Tree>, i: nat)
    requires |cs| == |es| + 1 && i < |cs|
    ensures Interleave(es[i..], cs[i..]) == Flatten(cs[i]) + After(es, cs, i)
  {
    var es', cs' := es[i..], cs[i..];
    assert cs'[0] == cs[i];
    if i < |es| {
      assert es'[0] == es[i] && es'[1..] == es[i + 1..];
      assert cs'[1..] == cs[i + 1..];
    } else {
      assert |cs'| == 1;
    }
  }

  /** A node's contents seen around child `i`. */
  lemma Decompose(es: seq<Entry>, cs: seq<Tree>, i: nat)
    requires |cs| == |es| + 1 && i < |cs|
    ensures Interleave(es, cs) == Before(es, cs, i) + Flatten(cs[i]) + After(es, cs, i)
  {
    InterleaveFrom(es, cs, i);
    if i == 0 {
      DecomposeFirst(es, cs);
    } else {
      SplitAt(es, cs, i);
    }
  }

  lemma DecomposeFirst(es: seq<Entry>, cs: seq<Tree>)
    requires |cs| == |es| + 1
    requires Interleave(es[0..], cs[0..]) == Flatten(cs[0]) + After(es, cs, 0)
    ensures Interleave(es, cs) == Before(es, cs, 0) + Flatten(cs[0]) + After(es, cs, 0)
  {
    assert es[0..] == es && cs[0..] == cs;
  }

  lemma SplitAt(es: seq<Entry>, cs: seq<Tree>, i: nat)
    requires |cs| == |es| + 1 && 0 < i < |cs|
    ensures Interleave(es, cs) == Interleave(es[..i - 1], cs[..i]) + [es[i - 1]] + Interleave(es[i..], cs[i..])
  {
    var es1, es2, cs1, cs2 := es[..i - 1], es[i..], cs[..i], cs[i..];
    assert es1 + [es[i - 1]] + es2 == es by {
      assert es[..i] == es1 + [es[i - 1]];
      assert es == es[..i] + es2;
    }
    assert cs1 + cs2 == cs;
    InterleaveConcat(es1, es[i - 1], es2, cs1, cs2);
  }

  // ---------------------------------------------------------------------
  // What validity gives

  lemma {:induction false} ValidIsShaped(t: Tree, d: nat, m: int, lo: Option<int>, hi: Option<int>)
    requires d >= 2 && ValidNode(t, d, m, lo, hi)
    ensures Shaped(t)
    decreases t
  {
    if t.children != [] {
      forall i | 0 <= i < |t.children|
        ensures |t.children[i].entries| >= 1 && Shaped(t.children[i])
      {
        ValidIsShaped(t.children[i], d, d - 1, LowerOf(t.entries, i, lo), UpperOf(t.entries, i, hi));
      }
    }
  }

  /** Relaxing the lower count or widening the bounds keeps a node valid. */
  lemma {:induction false} ValidWeaken(t: Tree, d: nat, m: int, lo: Option<int>, hi: Option<int>,
                                       m': int, lo': Option<int>, hi': Option<int>)
    requires ValidNode(t, d, m, lo, hi)
    requires m' <= m
    requires lo'.Some? ==> lo.Some? && lo'.value <= lo.value
    requires hi'.Some? ==> hi.Some? && hi.value <= hi'.value
    ensures ValidNode(t, d, m', lo', hi')
    decreases t
  {
    SortedWiden(t.entries, lo, hi, lo', hi');
    if t.children != [] {
      var es, cs := t.entries, t.children;
      forall i | 0 <= i < |cs|
        ensures ValidNode(cs[i], d, d - 1, LowerOf(es, i, lo'), UpperOf(es, i, hi'))
      {
        ValidWeaken(cs[i], d, d - 1, LowerOf(es, i, lo), UpperOf(es, i, hi),
                    d - 1, LowerOf(es, i, lo'), UpperOf(es, i, hi'));
      }
    }
  }

  /** The in-order contents of a valid subtree are sorted and inside its bounds. */
  lemma {:induction false} FlattenSorted(t: Tree, d: nat, m: int, lo: Option<int>, hi: Option<int>)
    requires ValidNode(t, d, m, lo, hi)
    ensures SortedWithin(Flatten(t), lo, hi)
    decreases t, 1
  {
    if t.children != [] {
      InterleaveSorted(t.entries, t.children, d, lo, hi, -1);
    }
  }

  lemma {:induction false} InterleaveSorted(es: seq<Entry>, cs: seq<Tree>, d: nat, lo: Option<int>, hi: Option<int>, relaxed: int)
    requires |cs| == |es| + 1
    requires SortedWithin(es, lo, hi) && ChildrenValid(es, cs, d, lo, hi, relaxed)
    ensures SortedWithin(Interleave(es, cs), lo, hi)
    decreases cs, 0
  {
    if |cs| == 1 {
      FlattenSorted(cs[0], d, if 0 == relaxed then d - 2 else d - 1, lo, hi);
    } else {
      assert es == [] + [es[0]] + es[1..];
      assert cs == [cs[0]] + cs[1..];
      SortedConcat([], es[0], es[1..], lo, hi);
      ChildrenValidConcat([], es[0], es[1..], [cs[0]], cs[1..], d, lo, hi, relaxed);
      FlattenSorted(cs[0], d, if 0 == relaxed then d - 2 else d - 1, lo, Some(es[0].key));
      InterleaveSorted(es[1..], cs[1..], d, Some(es[0].key), hi, relaxed - 1);
      SortedConcat(Flatten(cs[0]), es[0], Interleave(es[1..], cs[1..]), lo, hi);
    }
  }

  ghost predicate KeysAtMost(s: seq<Entry>, b: Option<int>)
  {
    b.None? || forall j :: 0 <= j < |s| ==> s[j].key <= b.value
  }

  ghost predicate KeysAtLeast(s: seq<Entry>, b: Option<int>)
  {
    b.None? || forall j :: 0 <= j < |s| ==> b.value <= s[j].key
  }

  /** Around child `i` of a node whose entries and children are valid: what
      comes before is at most the left separator, what comes after at least
      the right one, and all of it lies within the node's bounds. */
  lemma Pieces(es: seq<Entry>, cs: seq<Tree>, d: nat, lo: Option<int>, hi: Option<int>, relaxed: int, i: nat)
    requires |cs| == |es| + 1 && i < |cs|
    requires SortedWithin(es, lo, hi) && ChildrenValid(es, cs, d, lo, hi, relaxed)
    ensures KeysAtMost(Before(es, cs, i), LowerOf(es, i, lo))
    ensures KeysAtLeast(After(es, cs, i), UpperOf(es, i, hi))
    ensures SortedWithin(Before(es, cs, i), lo, hi) && SortedWithin(After(es, cs, i), lo, hi)
  {
    if i > 0 {
      BeforePiece(es, cs, d, lo, hi, relaxed, i);
    }
    if i < |es| {
      AfterPiece(es, cs, d, lo, hi, relaxed, i);
    }
  }

  lemma BeforePiece(es: seq<Entry>, cs: seq<Tree>, d: nat, lo: Option<int>, hi: Option<int>, relaxed: int, i: nat)
    requires |cs| == |es| + 1 && 0 < i < |cs|
    requires SortedWithin(es, lo, hi) && ChildrenValid(es, cs, d, lo, hi, relaxed)
    ensures KeysAtMost(Before(es, cs, i), Some(es[i - 1].key))
    ensures SortedWithin(Before(es, cs, i), lo, hi)
  {
    var e := es[i - 1];
    assert es == es[..i - 1] + [e] + es[i..];
    assert cs == cs[..i] + cs[i..];
    SortedConcat(es[..i - 1], e, es[i..], lo, hi);
    ChildrenValidConcat(es[..i - 1], e, es[i..], cs[..i], cs[i..], d, lo, hi, relaxed);
    InterleaveSorted(es[..i - 1], cs[..i], d, lo, Some(e.key), relaxed);
    var w := Interleave(es[..i - 1], cs[..i]);
    assert Before(es, cs, i) == w + [e] + [];
    SortedConcat(w, e, [], lo, hi);
  }

  lemma AfterPiece(es: seq<Entry>, cs: seq<Tree>, d: nat, lo: Option<int>, hi: Option<int>, relaxed: int, i: nat)
    requires |cs| == |es| + 1 && i < |es|
    requires SortedWithin(es, lo, hi) && ChildrenValid(es, cs, d, lo, hi, relaxed)
    ensures KeysAtLeast(After(es, cs, i), Some(es[i].key))
    ensures SortedWithin(After(es, cs, i), lo, hi)
  {
    var e := es[i];
    assert es == es[..i] + [e] + es[i + 1..];
    assert cs == cs[..i + 1] + cs[i + 1..];
    SortedConcat(es[..i], e, es[i + 1..], lo, hi);
    ChildrenValidConcat(es[..i], e, es[i + 1..], cs[..i + 1], cs[i + 1..], d, lo, hi, relaxed);
    InterleaveSorted(es[i + 1..], cs[i + 1..], d, Some(e.key), hi, relaxed - (i + 1));
    var w := Interleave(es[i + 1..], cs[i + 1..]);
    assert After(es, cs, i) == [] + [e] + w;
    SortedConcat([], e, w, lo, hi);
  }

  /** What lies before the gap an absent key falls in is below it, what
      lies after is above it. */
  lemma GapBounds(es: seq<Entry>, cs: seq<Tree>, d: nat, lo: Option<int>, hi: Option<int>, k: int)
    requires |cs| == |es| + 1
    requires SortedWithin(es, lo, hi) && ChildrenValid(es, cs, d, lo, hi, -1)
    requires var j := KeyPos(es, k); j < |es| ==> es[j].key != k
    ensures var j := KeyPos(es, k);
      && (forall x :: 0 <= x < |Before(es, cs, j)| ==> Before(es, cs, j)[x].key < k)
      && (forall x :: 0 <= x < |After(es, cs, j)| ==> k < After(es, cs, j)[x].key)
  {
    var j := KeyPos(es, k);
    Pieces(es, cs, d, lo, hi, -1, j);
  }

  lemma KeysBelowAbsent(s: seq<Entry>, b: Option<int>, k: int)
    requires KeysAtMost(s, b) && b.Some? && b.value < k
    ensures k !in Keys(s)
  {
  }

  lemma KeysAboveAbsent(s: seq<Entry>, b: Option<int>, k: int)
    requires KeysAtLeast(s, b) && b.Some? && k < b.value
    ensures k !in Keys(s)
  {
  }

  lemma OutsideAbsent(s: seq<Entry>, lo: Option<int>, hi: Option<int>, k: int)
    requires SortedWithin(s, lo, hi) && !Within(k, lo, hi)
    ensures k !in Keys(s)
  {
  }

  lemma {:induction false} FindConcat(a: seq<Entry>, b: seq<Entry>, k: int)
    ensures Find(a + b, k) == if k in Keys(a) then Find(a, k) else Find(b, k)
  {
    if a == [] {
      assert a + b == b;
    } else {
      assert (a + b)[0] == a[0] && (a + b)[1..] == a[1..] + b;
      FindConcat(a[1..], b, k);
    }
  }

  /** `Search` finds exactly what the in-order contents hold. */
  lemma {:induction false} SearchFinds(t: Tree, d: nat, m: int, lo: Option<int>, hi: Option<int>, k: int)
    requires d >= 2 && ValidNode(t, d, m, lo, hi)
    ensures Shaped(t) && Search(t, k) == Find(Flatten(t), k)
    decreases t
  {
    ValidIsShaped(t, d, m, lo, hi);
    var es, cs := t.entries, t.children;
    var i := KeyPos(es, k);
    if cs == [] {
      LeafFinds(es, lo, hi, k);
    } else if i < |es| && es[i].key == k {
      SeparatorFinds(t, d, m, lo, hi, k);
    } else {
      SearchFinds(cs[i], d, d - 1, LowerOf(es, i, lo), UpperOf(es, i, hi), k);
      ChildFinds(t, d, m, lo, hi, k);
    }
  }

  lemma SeparatorFinds(t: Tree, d: nat, m: int, lo: Option<int>, hi: Option<int>, k: int)
    requires ValidNode(t, d, m, lo, hi) && Shaped(t) && t.children != []
    requires var i := KeyPos(t.entries, k); i < |t.entries| && t.entries[i].key == k
    ensures Search(t, k) == Find(Flatten(t), k)
  {
    var es, cs := t.entries, t.children;
    var i := KeyPos(es, k);
    DropBefore(es, cs, d, lo, hi, i, k);
    FoundAtSeparator(es, cs, d, lo, hi, i, k);
  }

  lemma ChildFinds(t: Tree, d: nat, m: int, lo: Option<int>, hi: Option<int>, k: int)
    requires ValidNode(t, d, m, lo, hi) && Shaped(t) && t.children != []
    requires var i := KeyPos(t.entries, k); !(i < |t.entries| && t.entries[i].key == k)
    requires var i := KeyPos(t.entries, k); Search(t.children[i], k) == Find(Flatten(t.children[i]), k)
    ensures Search(t, k) == Find(Flatten(t), k)
  {
    var es, cs := t.entries, t.children;
    var i := KeyPos(es, k);
    var c, a := Flatten(cs[i]), After(es, cs, i);
    DropBefore(es, cs, d, lo, hi, i, k);
    FindConcat(c, a, k);
    if i < |es| {
      KeysAboveAbsent(a, UpperOf(es, i, hi), k);
    }
  }

  /** Below the separator left of child `KeyPos(es, k)` the key cannot occur,
      and the child itself and what follows are sorted. */
  lemma DropBefore(es: seq<Entry>, cs: seq<Tree>, d: nat, lo: Option<int>, hi: Option<int>, i: nat, k: int)
    requires |cs| == |es| + 1 && i == KeyPos(es, k)
    requires SortedWithin(es, lo, hi) && ChildrenValid(es, cs, d, lo, hi, -1)
    ensures Find(Interleave(es, cs), k) == Find(Flatten(cs[i]) + After(es, cs, i), k)
    ensures SortedWithin(Flatten(cs[i]), LowerOf(es, i, lo), UpperOf(es, i, hi))
    ensures KeysAtLeast(After(es, cs, i), UpperOf(es, i, hi))
  {
    var b, c, a := Before(es, cs, i), Flatten(cs[i]), After(es, cs, i);
    assert Interleave(es, cs) == b + (c + a) by {
      Decompose(es, cs, i);
    }
    Pieces(es, cs, d, lo, hi, -1, i);
    FlattenSorted(cs[i], d, d - 1, LowerOf(es, i, lo), UpperOf(es, i, hi));
    if i > 0 {
      KeysBelowAbsent(b, LowerOf(es, i, lo), k);
    }
    FindConcat(b, c + a, k);
  }

  lemma FoundAtSeparator(es: seq<Entry>, cs: seq<Tree>, d: nat, lo: Option<int>, hi: Option<int>, i: nat, k: int)
    requires |cs| == |es| + 1 && i < |es| && es[i].key == k
    requires SortedWithin(Flatten(cs[i]), LowerOf(es, i, lo), UpperOf(es, i, hi))
    ensures Find(Flatten(cs[i]) + After(es, cs, i), k) == Some(es[i])
  {
    var c, a := Flatten(cs[i]), After(es, cs, i);
    OutsideAbsent(c, LowerOf(es, i, lo), UpperOf(es, i, hi), k);
    FindConcat(c, a, k);
    assert a[0] == es[i];
  }

  lemma LeafFinds(es: seq<Entry>, lo: Option<int>, hi: Option<int>, k: int)
    requires SortedWithin(es, lo, hi)
    ensures var i := KeyPos(es, k);
      Find(es, k) == if i < |es| && es[i].key == k then Some(es[i]) else None
  {
    var i := KeyPos(es, k);
    if i < |es| && es[i].key == k {
      assert es == es[..i] + ([es[i]] + es[i + 1..]);
      KeysBelowAbsent(es[..i], Some(k - 1), k);
      FindConcat(es[..i], [es[i]] + es[i + 1..], k);
    } else {
      assert es == es[..i] + es[i..];
      KeysBelowAbsent(es[..i], Some(k - 1), k);
      KeysAboveAbsent(es[i..], Some(k + 1), k);
      KeysConcat(es[..i], es[i..]);
    }
  }

  // ---------------------------------------------------------------------
  // Rebuilding a node around one child

  lemma BeforeSame(es: seq<Entry>, cs: seq<Tree>, es': seq<Entry>, cs': seq<Tree>, i: nat)
    requires i <= |es| && i <= |cs| && i <= |es'| && i <= |cs'|
    requires es'[..i] == es[..i] && cs'[..i] == cs[..i]
    ensures Before(es', cs', i) == Before(es, cs, i)
  {
    if i > 0 {
      assert es'[..i - 1] == es'[..i][..i - 1];
      assert es[..i - 1] == es[..i][..i - 1];
      assert es'[i - 1] == es'[..i][i - 1];
      assert es[i - 1] == es[..i][i - 1];
    }
  }

  lemma AfterSame(es: seq<Entry>, cs: seq<Tree>, i: nat, es': seq<Entry>, cs': seq<Tree>, j: nat)
    requires i < |cs| == |es| + 1 && j < |cs'| == |es'| + 1
    requires es'[j..] == es[i..] && cs'[j + 1..] == cs[i + 1..]
    ensures After(es', cs', j) == After(es, cs, i)
  {
    assert |es'| - j == |es| - i by {
      assert |es'[j..]| == |es[i..]|;
    }
    if i < |es| {
      assert es'[j] == es'[j..][0] == es[i..][0] == es[i];
      assert es'[j + 1..] == es'[j..][1..];
      assert es[i + 1..] == es[i..][1..];
    }
  }

  /** The contents of a node whose child `j` has been replaced by `x`. */
  lemma ReplaceChild(es: seq<Entry>, cs: seq<Tree>, j: nat, x: Tree)
    requires |cs| == |es| + 1 && j < |cs|
    ensures Interleave(es, cs[j := x]) == Before(es, cs, j) + Flatten(x) + After(es, cs, j)
  {
    var cs' := cs[j := x];
    Decompose(es, cs', j);
    assert cs'[..j] == cs[..j];
    BeforeSame(es, cs, es, cs', j);
    assert cs'[j + 1..] == cs[j + 1..];
    AfterSame(es, cs, j, es, cs', j);
  }

  /** Replacing one child by a valid subtree for the same gap keeps the
      children valid; the replaced child may be the relaxed one. */
  lemma ChildrenValidUpdate(es: seq<Entry>, cs: seq<Tree>, d: nat, lo: Option<int>, hi: Option<int>,
                            r: int, r': int, j: nat, x: Tree)
    requires |cs| == |es| + 1 && j < |cs|
    requires ChildrenValid(es, cs, d, lo, hi, r)
    requires (r == -1 || r == j) && (r' == -1 || r' == j)
    requires ValidNode(x, d, if j == r' then d - 2 else d - 1, LowerOf(es, j, lo), UpperOf(es, j, hi))
    ensures ChildrenValid(es, cs[j := x], d, lo, hi, r')
  {
    var cs' := cs[j := x];
    forall i | 0 <= i < |cs'|
      ensures ValidNode(cs'[i], d, if i == r' then d - 2 else d - 1, LowerOf(es, i, lo), UpperOf(es, i, hi))
    {
      if i != j {
        assert cs'[i] == cs[i];
      }
    }
  }

  /** A relaxed index outside the children relaxes nothing. */
  lemma RelaxedNone(es: seq<Entry>, cs: seq<Tree>, d: nat, lo: Option<int>, hi: Option<int>, r: int)
    requires r < 0 || r >= |cs|
    ensures ChildrenValid(es, cs, d, lo, hi, r) <==> ChildrenValid(es, cs, d, lo, hi, -1)
  {
  }

  /** In a sorted sequence the scan position of `k` is the only index with
      smaller keys before it and no smaller key at it. */
  lemma KeyPosUnique(s: seq<Entry>, k: int, j: nat)
    requires Sorted(s) && j <= |s|
    requires forall x :: 0 <= x < j ==> s[x].key < k
    requires j < |s| ==> k <= s[j].key
    ensures KeyPos(s, k) == j
  {
  }

  /** Where `Search` for an absent key descends, the key lies strictly inside
      the child's bounds, and the child does not hold it either. */
  lemma AbsentDescends(t: Tree, d: nat, m: int, lo: Option<int>, hi: Option<int>, k: int)
    requires ValidNode(t, d, m, lo, hi) && Shaped(t) && t.children != []
    requires Within(k, lo, hi) && Search(t, k) == None
    ensures var i := KeyPos(t.entries, k);
      && Within(k, LowerOf(t.entries, i, lo), UpperOf(t.entries, i, hi))
      && Search(t.children[i], k) == None
  {
  }
}
