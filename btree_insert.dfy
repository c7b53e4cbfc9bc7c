/** `BTree.Insert`: an existing key has its pointer replaced in place;
    otherwise the entry goes into a leaf by a single top-down descent that
    splits every full node before entering it, growing a new root when the
    root itself is full. */
module BTreeInsert {
  import opened Wrappers
  import opened SortedEntries
  import opened BTreeModel

  /** A node holding `2d-1` entries, the most a node of degree `d` may hold. */
  predicate Full(t: Tree, d: nat)
  {
    |t.entries| == 2 * d - 1
  }

  /** The shape of a full node that can be split in two. */
  ghost predicate SplittableNode(c: Tree, d: nat)
  {
    d >= 1 && Full(c, d) && (c.children != [] ==> |c.children| == 2 * d)
  }

  /** The middle entry of a full node, which a split moves up to the parent. */
  function Median(c: Tree, d: nat): Entry
    requires SplittableNode(c, d)
  {
    c.entries[d - 1]
  }

  /** The `d-1` entries (and `d` children) left of the median. */
  function LeftHalf(c: Tree, d: nat): Tree
    requires SplittableNode(c, d)
  {
    Node(c.entries[..d - 1], if c.children == [] then [] else c.children[..d])
  }

  /** The `d-1` entries (and `d` children) right of the median. */
  function RightHalf(c: Tree, d: nat): Tree
    requires SplittableNode(c, d)
  {
    Node(c.entries[d..], if c.children == [] then [] else c.children[d..])
  }

  /** Split the full child `i` of `t`: its median becomes the separator between
      its two halves, which take its place among the children. */
  function SplitChild(t: Tree, i: nat, d: nat): Tree
    requires i <= |t.entries| && i < |t.children| && SplittableNode(t.children[i], d)
  {
    var c := t.children[i];
    Node(t.entries[..i] + [Median(c, d)] + t.entries[i..],
         t.children[..i] + [LeftHalf(c, d), RightHalf(c, d)] + t.children[i + 1..])
  }

  /** Replace the pointer of the entry with key `k`, found along the descent
      `Search` takes; a tree without `k` is returned unchanged. */
  function UpdatePointer(t: Tree, k: int, p: int): Tree
    requires Shaped(t)
    decreases t
  {
    var i := KeyPos(t.entries, k);
    if i < |t.entries| && t.entries[i].key == k then Node(t.entries[i := Entry(k, p)], t.children)
    else if t.children == [] then t
    else Node(t.entries, t.children[i := UpdatePointer(t.children[i], k, p)])
  }

  /** Insert `e` below a node that is not full: into the leaf in key order, or
      into the child the key falls in, split first if it is full. */
  function InsertNonFull(t: Tree, e: Entry, d: nat): Tree
    requires d >= 2 && Shaped(t)
    decreases Height(t)
  {
    var i := KeyPos(t.entries, e.key);
    if t.children == [] then
      Node(t.entries[..i] + [e] + t.entries[i..], [])
    else if Full(t.children[i], d) then
      SplitShaped(t, i, d);
      var s := SplitChild(t, i, d);
      var j := KeyPos(s.entries, e.key);
      Node(s.entries, s.children[j := InsertNonFull(s.children[j], e, d)])
    else
      Node(t.entries, t.children[i := InsertNonFull(t.children[i], e, d)])
  }

  /** `BTree.Insert(key, pointer)`: overwrite the pointer of an existing key;
      otherwise split a full root under a new root and insert below it. */
  function Insert(t: Tree, k: int, p: int, d: nat): Tree
    requires ValidTree(t, d)
  {
    ValidIsShaped(t, d, 0, None, None);
    if Search(t, k).Some? then UpdatePointer(t, k, p)
    else if Full(t, d) then
      RootSplitShaped(t, d);
      InsertNonFull(SplitChild(Node([], [t]), 0, d), Entry(k, p), d)
    else InsertNonFull(t, Entry(k, p), d)
  }

  // ---------------------------------------------------------------------
  // Shape

  lemma HalvesShaped(c: Tree, d: nat)
    requires d >= 2 && Shaped(c) && Full(c, d)
    ensures SplittableNode(c, d)
    ensures Shaped(LeftHalf(c, d)) && Height(LeftHalf(c, d)) == Height(c)
    ensures Shaped(RightHalf(c, d)) && Height(RightHalf(c, d)) == Height(c)
    ensures |LeftHalf(c, d).entries| == d - 1 && |RightHalf(c, d).entries| == d - 1
  {
    if c.children != [] {
      var l, r := LeftHalf(c, d), RightHalf(c, d);
      assert l.children[0] == c.children[0];
      assert r.children[0] == c.children[d];
      forall x | 0 <= x < |r.children|
        ensures r.children[x] == c.children[d + x]
      {
      }
    }
  }

  lemma SplitShaped(t: Tree, i: nat, d: nat)
    requires d >= 2 && Shaped(t) && t.children != [] && i < |t.children| && Full(t.children[i], d)
    ensures i <= |t.entries| && SplittableNode(t.children[i], d)
    ensures Shaped(SplitChild(t, i, d)) && Height(SplitChild(t, i, d)) == Height(t)
  {
    var c := t.children[i];
    HalvesShaped(c, d);
    var s := SplitChild(t, i, d);
    var cs, cs' := t.children, s.children;
    assert Height(c) == Height(cs[0]);
    forall x | 0 <= x < |cs'|
      ensures Height(cs'[x]) == Height(cs[0]) && |cs'[x].entries| >= 1 && Shaped(cs'[x])
    {
      if x < i {
        assert cs'[x] == cs[x];
      } else if x > i + 1 {
        assert cs'[x] == cs[x - 1];
      }
    }
  }

  lemma RootSplitShaped(t: Tree, d: nat)
    requires d >= 2 && Shaped(t) && Full(t, d)
    ensures Shaped(Node([], [t])) && SplittableNode(t, d)
    ensures Shaped(SplitChild(Node([], [t]), 0, d))
    ensures Height(SplitChild(Node([], [t]), 0, d)) == Height(t) + 1
  {
    SplitShaped(Node([], [t]), 0, d);
  }

  // ---------------------------------------------------------------------
  // Splitting keeps the contents and the invariant

  lemma HalvesFlatten(c: Tree, d: nat)
    requires SplittableNode(c, d)
    ensures Flatten(c) == Flatten(LeftHalf(c, d)) + [Median(c, d)] + Flatten(RightHalf(c, d))
  {
    var ce := c.entries;
    if c.children == [] {
      assert ce == ce[..d - 1] + [ce[d - 1]] + ce[d..];
    } else {
      SplitAt(ce, c.children, d);
    }
  }

  lemma HalvesValid(c: Tree, d: nat, m: int, lo: Option<int>, hi: Option<int>)
    requires d >= 2 && ValidNode(c, d, m, lo, hi) && Full(c, d)
    ensures SplittableNode(c, d)
    ensures Within(Median(c, d).key, lo, hi)
    ensures ValidNode(LeftHalf(c, d), d, d - 1, lo, Some(Median(c, d).key))
    ensures ValidNode(RightHalf(c, d), d, d - 1, Some(Median(c, d).key), hi)
  {
    var ce, med := c.entries, c.entries[d - 1];
    HalvesSorted(ce, d, lo, hi);
    if c.children != [] {
      var cc := c.children;
      HalvesChildrenValid(c, d, m, lo, hi);
      var l, r := LeftHalf(c, d), RightHalf(c, d);
      assert l.entries == ce[..d - 1] && l.children == cc[..d] && l.children[0] == cc[0];
      assert r.entries == ce[d..] && r.children == cc[d..] && r.children[0] == cc[d];
    }
  }

  lemma HalvesSorted(ce: seq<Entry>, d: nat, lo: Option<int>, hi: Option<int>)
    requires d >= 1 && |ce| == 2 * d - 1 && SortedWithin(ce, lo, hi)
    ensures Within(ce[d - 1].key, lo, hi)
    ensures SortedWithin(ce[..d - 1], lo, Some(ce[d - 1].key))
    ensures SortedWithin(ce[d..], Some(ce[d - 1].key), hi)
  {
    Around(ce, d - 1);
    assert ce[d - 1 + 1..] == ce[d..];
    SortedSplit(ce[..d - 1], ce[d - 1], ce[d..], lo, hi);
  }

  lemma HalvesChildrenValid(c: Tree, d: nat, m: int, lo: Option<int>, hi: Option<int>)
    requires d >= 2 && ValidNode(c, d, m, lo, hi) && Full(c, d) && c.children != []
    ensures var ce, cc, med := c.entries, c.children, c.entries[d - 1];
      && ChildrenValid(ce[..d - 1], cc[..d], d, lo, Some(med.key), -1)
      && ChildrenValid(ce[d..], cc[d..], d, Some(med.key), hi, -1)
      && AllHeight(cc[..d], Height(cc[0])) && AllHeight(cc[d..], Height(cc[d]))
  {
    var ce, cc, med := c.entries, c.children, c.entries[d - 1];
    assert ce == ce[..d - 1] + [med] + ce[d..];
    assert cc == cc[..d] + cc[d..];
    ChildrenValidConcat(ce[..d - 1], med, ce[d..], cc[..d], cc[d..], d, lo, hi, -1);
    RelaxedNone(ce[d..], cc[d..], d, Some(med.key), hi, -1 - d);
    forall x | 0 <= x < |cc| - d ensures Height(cc[d..][x]) == Height(cc[d]) {
      assert cc[d..][x] == cc[d + x];
    }
  }

  /** The children of a node with child `i` replaced by two halves `l` and
      `r` around the separator `med`. */
  lemma ChildrenSplice(es: seq<Entry>, cs: seq<Tree>, i: nat, l: Tree, med: Entry, r: Tree,
                       d: nat, lo: Option<int>, hi: Option<int>)
    requires |cs| == |es| + 1 && i < |cs|
    requires ChildrenValid(es, cs, d, lo, hi, -1)
    requires ValidNode(l, d, d - 1, LowerOf(es, i, lo), Some(med.key))
    requires ValidNode(r, d, d - 1, Some(med.key), UpperOf(es, i, hi))
    ensures ChildrenValid(es[..i] + [med] + es[i..], cs[..i] + [l, r] + cs[i + 1..], d, lo, hi, -1)
  {
    var es1, es2 := es[..i], es[i..];
    var cs1, cs2 := cs[..i] + [l], [r] + cs[i + 1..];
    assert ChildrenValid(es1 + [med] + es2, cs1 + cs2, d, lo, hi, -1) by {
      SpliceLeft(es, cs, i, l, med, d, lo, hi);
      SpliceRight(es, cs, i, med, r, d, lo, hi);
      RelaxedNone(es2, cs2, d, Some(med.key), hi, -1 - |cs1|);
      ChildrenValidConcat(es1, med, es2, cs1, cs2, d, lo, hi, -1);
    }
    assert cs[..i] + [l, r] + cs[i + 1..] == cs1 + cs2;
  }

  lemma SpliceLeft(es: seq<Entry>, cs: seq<Tree>, i: nat, l: Tree, med: Entry, d: nat, lo: Option<int>, hi: Option<int>)
    requires |cs| == |es| + 1 && i < |cs|
    requires ChildrenValid(es, cs, d, lo, hi, -1)
    requires ValidNode(l, d, d - 1, LowerOf(es, i, lo), Some(med.key))
    ensures ChildrenValid(es[..i], cs[..i] + [l], d, lo, Some(med.key), -1)
  {
    var es1, cs1 := es[..i], cs[..i] + [l];
    forall x | 0 <= x < |cs1|
      ensures ValidNode(cs1[x], d, d - 1, LowerOf(es1, x, lo), UpperOf(es1, x, Some(med.key)))
    {
      assert LowerOf(es1, x, lo) == LowerOf(es, x, lo) by {
        if x > 0 {
          assert es1[x - 1] == es[x - 1];
        }
      }
      if x < i {
        assert cs1[x] == cs[x];
        assert es1[x] == es[x];
      }
    }
  }

  lemma SpliceRight(es: seq<Entry>, cs: seq<Tree>, i: nat, med: Entry, r: Tree, d: nat, lo: Option<int>, hi: Option<int>)
    requires |cs| == |es| + 1 && i < |cs|
    requires ChildrenValid(es, cs, d, lo, hi, -1)
    requires ValidNode(r, d, d - 1, Some(med.key), UpperOf(es, i, hi))
    ensures ChildrenValid(es[i..], [r] + cs[i + 1..], d, Some(med.key), hi, -1)
  {
    var es2, cs2 := es[i..], [r] + cs[i + 1..];
    forall x | 0 <= x < |cs2|
      ensures ValidNode(cs2[x], d, d - 1, LowerOf(es2, x, Some(med.key)), UpperOf(es2, x, hi))
    {
      assert UpperOf(es2, x, hi) == UpperOf(es, i + x, hi) by {
        if x < |es2| {
          assert es2[x] == es[i + x];
        }
      }
      if x > 0 {
        assert cs2[x] == cs[i + x];
        assert es2[x - 1] == es[i + x - 1];
      }
    }
  }

  lemma SplitChildFlatten(t: Tree, i: nat, d: nat)
    requires d >= 2 && Shaped(t) && t.children != [] && i < |t.children| && Full(t.children[i], d)
    ensures i <= |t.entries| && SplittableNode(t.children[i], d)
    ensures Flatten(SplitChild(t, i, d)) == Flatten(t)
  {
    SplitShaped(t, i, d);
    var es, cs, c := t.entries, t.children, t.children[i];
    var l, med, r := LeftHalf(c, d), Median(c, d), RightHalf(c, d);
    var b, a := Before(es, cs, i), After(es, cs, i);
    calc {
      Flatten(SplitChild(t, i, d));
      { SplitSideParts(t, i, d); }
      b + Flatten(l) + ([med] + (Flatten(r) + a));
      { Regroup(b, Flatten(l), med, Flatten(r), a); }
      b + (Flatten(l) + [med] + Flatten(r)) + a;
      { HalvesFlatten(c, d); }
      b + Flatten(c) + a;
      { Decompose(es, cs, i); }
      Flatten(t);
    }
  }

  /** The walk of a node after a split: the part before the left half is the
      one before the old child, and the median and the right half come next. */
  lemma SplitSideParts(t: Tree, i: nat, d: nat)
    requires d >= 2 && Shaped(t) && t.children != [] && i < |t.children| && Full(t.children[i], d)
    requires i <= |t.entries| && SplittableNode(t.children[i], d)
    ensures var c := t.children[i];
      Flatten(SplitChild(t, i, d)) ==
        Before(t.entries, t.children, i) + Flatten(LeftHalf(c, d)) +
        ([Median(c, d)] + (Flatten(RightHalf(c, d)) + After(t.entries, t.children, i)))
  {
    var es, cs, c := t.entries, t.children, t.children[i];
    var s := SplitChild(t, i, d);
    var es', cs' := s.entries, s.children;
    var l, med, r := LeftHalf(c, d), Median(c, d), RightHalf(c, d);
    assert cs' == cs[..i] + [l, r] + cs[i + 1..];
    calc {
      Flatten(s);
      Interleave(es', cs');
      { Decompose(es', cs', i); }
      Before(es', cs', i) + Flatten(cs'[i]) + After(es', cs', i);
      { assert cs'[i] == l;
        assert es'[..i] == es[..i] && cs'[..i] == cs[..i];
        BeforeSame(es, cs, es', cs', i); }
      Before(es, cs, i) + Flatten(l) + After(es', cs', i);
      { assert cs'[i + 1] == r && cs'[i + 2..] == cs[i + 1..];
        SplitRightPart(es, cs, i, es', cs', med, r); }
      Before(es, cs, i) + Flatten(l) + ([med] + (Flatten(r) + After(es, cs, i)));
    }
  }

  lemma Regroup(b: seq<Entry>, l: seq<Entry>, med: Entry, r: seq<Entry>, a: seq<Entry>)
    ensures b + l + ([med] + (r + a)) == b + (l + [med] + r) + a
  {
  }

  lemma SplitRightPart(es: seq<Entry>, cs: seq<Tree>, i: nat, es': seq<Entry>, cs': seq<Tree>, med: Entry, r: Tree)
    requires |cs| == |es| + 1 && i < |cs|
    requires es' == es[..i] + [med] + es[i..]
    requires |cs'| == |cs| + 1 && cs'[i + 1] == r && cs'[i + 2..] == cs[i + 1..]
    ensures After(es', cs', i) == [med] + (Flatten(r) + After(es, cs, i))
  {
    assert es'[i] == med && es'[i + 1..] == es[i..];
    assert After(es', cs', i) == [med] + Interleave(es'[i + 1..], cs'[i + 1..]);
    InterleaveFrom(es', cs', i + 1);
    AfterSame(es, cs, i, es', cs', i + 1);
  }

  lemma SplitChildValid(t: Tree, i: nat, d: nat, m: int, lo: Option<int>, hi: Option<int>)
    requires d >= 2 && ValidNode(t, d, m, lo, hi) && |t.entries| < 2 * d - 1
    requires t.children != [] && i < |t.children| && Full(t.children[i], d)
    ensures i <= |t.entries| && SplittableNode(t.children[i], d)
    ensures ValidNode(SplitChild(t, i, d), d, m, lo, hi)
  {
    ValidIsShaped(t, d, m, lo, hi);
    SplitShaped(t, i, d);
    var es, cs, c := t.entries, t.children, t.children[i];
    HalvesValid(c, d, d - 1, LowerOf(es, i, lo), UpperOf(es, i, hi));
    var l, med, r := LeftHalf(c, d), Median(c, d), RightHalf(c, d);
    ChildrenSplice(es, cs, i, l, med, r, d, lo, hi);
    SeparatorFits(es, i, med, lo, hi);
  }

  /** A key strictly between the separators around gap `i` can be placed
      there and the entries stay sorted. */
  lemma SeparatorFits(es: seq<Entry>, i: nat, e: Entry, lo: Option<int>, hi: Option<int>)
    requires SortedWithin(es, lo, hi) && i <= |es|
    requires Within(e.key, LowerOf(es, i, lo), UpperOf(es, i, hi)) && Within(e.key, lo, hi)
    ensures SortedWithin(es[..i] + [e] + es[i..], lo, hi)
  {
    PrefixBelow(es, i, e, lo, hi);
    SuffixAbove(es, i, e, lo, hi);
    SortedConcat(es[..i], e, es[i..], lo, hi);
  }

  lemma PrefixBelow(es: seq<Entry>, i: nat, e: Entry, lo: Option<int>, hi: Option<int>)
    requires SortedWithin(es, lo, hi) && i <= |es|
    requires Within(e.key, LowerOf(es, i, lo), UpperOf(es, i, hi))
    ensures SortedWithin(es[..i], lo, Some(e.key))
  {
    var left := es[..i];
    forall x | 0 <= x < |left|
      ensures left[x].key < e.key
    {
      assert left[x] == es[x] && es[i - 1] == left[i - 1];
    }
  }

  lemma SuffixAbove(es: seq<Entry>, i: nat, e: Entry, lo: Option<int>, hi: Option<int>)
    requires SortedWithin(es, lo, hi) && i <= |es|
    requires Within(e.key, LowerOf(es, i, lo), UpperOf(es, i, hi))
    ensures SortedWithin(es[i..], Some(e.key), hi)
  {
    var right := es[i..];
    forall x | 0 <= x < |right|
      ensures e.key < right[x].key
    {
      assert right[x] == es[i + x] && right[0] == es[i];
    }
  }

  // ---------------------------------------------------------------------
  // Descending into one child

  /** Upserting a key that falls in gap `j` of a node only touches child `j`. */
  lemma UpsertThroughChild(es: seq<Entry>, cs: seq<Tree>, d: nat, lo: Option<int>, hi: Option<int>, e: Entry)
    requires |cs| == |es| + 1
    requires SortedWithin(es, lo, hi) && ChildrenValid(es, cs, d, lo, hi, -1)
    requires var j := KeyPos(es, e.key); j < |es| ==> es[j].key != e.key
    ensures var j := KeyPos(es, e.key);
      Upsert(Interleave(es, cs), e) == Before(es, cs, j) + Upsert(Flatten(cs[j]), e) + After(es, cs, j)
  {
    var j := KeyPos(es, e.key);
    Decompose(es, cs, j);
    GapBounds(es, cs, d, lo, hi, e.key);
    UpsertMiddle(Before(es, cs, j), Flatten(cs[j]), After(es, cs, j), e);
  }

  lemma UpsertMiddle(b: seq<Entry>, c: seq<Entry>, a: seq<Entry>, e: Entry)
    requires forall x :: 0 <= x < |b| ==> b[x].key < e.key
    requires forall x :: 0 <= x < |a| ==> e.key < a[x].key
    ensures Upsert(b + c + a, e) == b + Upsert(c, e) + a
  {
    assert b + c + a == b + (c + a);
    UpsertPastLeft(b, c + a, e);
    UpsertBeforeRight(c, a, e);
  }

  /** A node whose child `j` is replaced by a valid subtree of the same height
      for the same gap stays valid and keeps its height. */
  lemma ChildReplaced(t: Tree, d: nat, m: int, lo: Option<int>, hi: Option<int>, j: nat, x: Tree)
    requires ValidNode(t, d, m, lo, hi) && t.children != [] && j < |t.children|
    requires ValidNode(x, d, d - 1, LowerOf(t.entries, j, lo), UpperOf(t.entries, j, hi))
    requires Height(x) == Height(t.children[j])
    ensures ValidNode(Node(t.entries, t.children[j := x]), d, m, lo, hi)
    ensures Height(Node(t.entries, t.children[j := x])) == Height(t)
  {
    var cs' := t.children[j := x];
    ChildrenValidUpdate(t.entries, t.children, d, lo, hi, -1, -1, j, x);
    assert Height(cs'[0]) == Height(t.children[0]);
    forall y | 0 <= y < |cs'|
      ensures Height(cs'[y]) == Height(cs'[0])
    {
    }
  }

  /** Entries with the same keys in the same places bound the children the same way. */
  lemma ChildrenValidSameKeys(es: seq<Entry>, es': seq<Entry>, cs: seq<Tree>, d: nat, lo: Option<int>, hi: Option<int>)
    requires |es'| == |es| && forall x :: 0 <= x < |es| ==> es'[x].key == es[x].key
    requires ChildrenValid(es, cs, d, lo, hi, -1)
    ensures ChildrenValid(es', cs, d, lo, hi, -1)
  {
    forall y | 0 <= y < |cs|
      ensures LowerOf(es', y, lo) == LowerOf(es, y, lo) && UpperOf(es', y, hi) == UpperOf(es, y, hi)
    {
    }
  }

  // ---------------------------------------------------------------------
  // Overwriting an existing key

  /** `UpdatePointer` keeps the invariant, the height and the shape, and
      upserts the entry into the contents. */
  lemma {:induction false} UpdatePointerSpec(t: Tree, d: nat, m: int, lo: Option<int>, hi: Option<int>, k: int, p: int)
    requires d >= 2 && Shaped(t) && ValidNode(t, d, m, lo, hi) && k in Keys(Flatten(t))
    ensures var r := UpdatePointer(t, k, p);
      && ValidNode(r, d, m, lo, hi) && Height(r) == Height(t)
      && |r.entries| == |t.entries| && (r.children == [] <==> t.children == [])
      && Flatten(r) == Upsert(Flatten(t), Entry(k, p))
    decreases t, 1
  {
    var i := KeyPos(t.entries, k);
    if i < |t.entries| && t.entries[i].key == k {
      UpdateHere(t, d, m, lo, hi, i, Entry(k, p));
    } else {
      UpdateBelow(t, d, m, lo, hi, k, p);
    }
  }

  /** The key is an entry of this node: its pointer is overwritten in place. */
  lemma UpdateHere(t: Tree, d: nat, m: int, lo: Option<int>, hi: Option<int>, i: nat, e: Entry)
    requires d >= 2 && ValidNode(t, d, m, lo, hi) && i < |t.entries| && t.entries[i].key == e.key
    ensures var r := Node(t.entries[i := e], t.children);
      ValidNode(r, d, m, lo, hi) && Flatten(r) == Upsert(Flatten(t), e)
  {
    var es, cs := t.entries, t.children;
    var es' := es[i := e];
    assert SortedWithin(es', lo, hi);
    if cs == [] {
      OverwriteAt(es, i, e);
    } else {
      ChildrenValidSameKeys(es, es', cs, d, lo, hi);
      OverwriteSeparator(t, d, m, lo, hi, i, e);
    }
  }

  /** The key lies below this node: the child it falls in is updated. */
  lemma {:induction false} UpdateBelow(t: Tree, d: nat, m: int, lo: Option<int>, hi: Option<int>, k: int, p: int)
    requires d >= 2 && Shaped(t) && ValidNode(t, d, m, lo, hi) && k in Keys(Flatten(t))
    requires var i := KeyPos(t.entries, k); !(i < |t.entries| && t.entries[i].key == k)
    ensures t.children != []
    ensures var i := KeyPos(t.entries, k);
      var r := Node(t.entries, t.children[i := UpdatePointer(t.children[i], k, p)]);
      && ValidNode(r, d, m, lo, hi) && Height(r) == Height(t)
      && Flatten(r) == Upsert(Flatten(t), Entry(k, p))
    decreases t, 0
  {
    var es, cs, e := t.entries, t.children, Entry(k, p);
    var i := KeyPos(es, k);
    SearchFinds(t, d, m, lo, hi, k);
    if cs == [] {
      assert false;
    }
    var c := cs[i];
    assert ValidNode(c, d, d - 1, LowerOf(es, i, lo), UpperOf(es, i, hi));
    SearchFinds(c, d, d - 1, LowerOf(es, i, lo), UpperOf(es, i, hi), k);
    UpdatePointerSpec(c, d, d - 1, LowerOf(es, i, lo), UpperOf(es, i, hi), k, p);
    var x := UpdatePointer(c, k, p);
    ChildReplaced(t, d, m, lo, hi, i, x);
    ReplaceChild(es, cs, i, x);
    UpsertThroughChild(es, cs, d, lo, hi, e);
  }

  lemma OverwriteAt(es: seq<Entry>, i: nat, e: Entry)
    requires i < |es| && es[i].key == e.key
    requires forall x :: 0 <= x < i ==> es[x].key < e.key
    ensures Upsert(es, e) == es[i := e]
  {
    assert es == es[..i] + es[i..];
    UpsertPastLeft(es[..i], es[i..], e);
    assert es[i..][1..] == es[i + 1..];
    assert es[i := e] == es[..i] + ([e] + es[i + 1..]);
  }

  lemma OverwriteSeparator(t: Tree, d: nat, m: int, lo: Option<int>, hi: Option<int>, i: nat, e: Entry)
    requires ValidNode(t, d, m, lo, hi) && t.children != [] && i < |t.entries| && t.entries[i].key == e.key
    ensures Interleave(t.entries[i := e], t.children) == Upsert(Interleave(t.entries, t.children), e)
  {
    var es, cs, es' := t.entries, t.children, t.entries[i := e];
    var b, c, a := Before(es, cs, i), Flatten(cs[i]), After(es, cs, i);
    var rest := Interleave(es[i + 1..], cs[i + 1..]);
    calc {
      Interleave(es', cs);
      { Decompose(es', cs, i);
        assert es'[..i] == es[..i];
        BeforeSame(es, cs, es', cs, i); }
      b + c + After(es', cs, i);
      { assert es'[i] == e && es'[i + 1..] == es[i + 1..]; }
      (b + c) + ([e] + rest);
      { assert ([es[i]] + rest)[1..] == rest; }
      (b + c) + Upsert([es[i]] + rest, e);
      { BelowSeparator(t, d, m, lo, hi, i);
        UpsertPastLeft(b + c, a, e); }
      Upsert((b + c) + a, e);
      { Decompose(es, cs, i); }
      Upsert(Interleave(es, cs), e);
    }
  }

  /** Everything before separator `i` in the walk of a node lies below it. */
  lemma BelowSeparator(t: Tree, d: nat, m: int, lo: Option<int>, hi: Option<int>, i: nat)
    requires ValidNode(t, d, m, lo, hi) && t.children != [] && i < |t.entries|
    ensures var s := Before(t.entries, t.children, i) + Flatten(t.children[i]);
      forall x :: 0 <= x < |s| ==> s[x].key < t.entries[i].key
  {
    var es, cs := t.entries, t.children;
    var b, c := Before(es, cs, i), Flatten(cs[i]);
    Pieces(es, cs, d, lo, hi, -1, i);
    FlattenSorted(cs[i], d, d - 1, LowerOf(es, i, lo), UpperOf(es, i, hi));
    var bc: seq<Entry> := b + c;
    forall x | 0 <= x < |bc| ensures bc[x].key < es[i].key {
      if x < |b| {
        assert bc[x] == b[x];
      } else {
        assert bc[x] == c[x - |b|];
      }
    }
  }

  // ---------------------------------------------------------------------
  // Inserting a new key

  /** `InsertNonFull` keeps the invariant, the height and the shape of a node
      that has room, and inserts the entry into the contents. */
  lemma {:induction false} InsertNonFullSpec(t: Tree, e: Entry, d: nat, m: int, lo: Option<int>, hi: Option<int>)
    requires d >= 2 && Shaped(t) && ValidNode(t, d, m, lo, hi) && |t.entries| < 2 * d - 1
    requires Within(e.key, lo, hi) && e.key !in Keys(Flatten(t))
    ensures var r := InsertNonFull(t, e, d);
      && ValidNode(r, d, m, lo, hi) && Height(r) == Height(t)
      && |r.entries| >= |t.entries| && (r.children == [] <==> t.children == [])
      && Flatten(r) == Upsert(Flatten(t), e)
    decreases Height(t), 1
  {
    var es, cs, k := t.entries, t.children, e.key;
    var i := KeyPos(es, k);
    SearchFinds(t, d, m, lo, hi, k);
    if cs == [] {
      LeafInsert(es, e, lo, hi);
    } else if Full(cs[i], d) {
      SplitChildValid(t, i, d, m, lo, hi);
      SplitChildFlatten(t, i, d);
      SplitShaped(t, i, d);
      var s := SplitChild(t, i, d);
      SearchFinds(s, d, m, lo, hi, k);
      SplitDescendsIntoHalf(t, i, d, m, lo, hi, k);
      DescendInsert(s, e, d, m, lo, hi);
    } else {
      DescendInsert(t, e, d, m, lo, hi);
    }
  }

  /** Inserting into the child the key falls in, which has room. */
  lemma {:induction false} DescendInsert(s: Tree, e: Entry, d: nat, m: int, lo: Option<int>, hi: Option<int>)
    requires d >= 2 && Shaped(s) && ValidNode(s, d, m, lo, hi) && s.children != []
    requires Within(e.key, lo, hi) && Search(s, e.key) == None
    requires !Full(s.children[KeyPos(s.entries, e.key)], d)
    ensures var j := KeyPos(s.entries, e.key);
      var r := Node(s.entries, s.children[j := InsertNonFull(s.children[j], e, d)]);
      && ValidNode(r, d, m, lo, hi) && Height(r) == Height(s)
      && Flatten(r) == Upsert(Flatten(s), e)
    decreases Height(s), 0
  {
    var es, cs, k := s.entries, s.children, e.key;
    var j := KeyPos(es, k);
    var c := cs[j];
    AbsentDescends(s, d, m, lo, hi, k);
    assert ValidNode(c, d, d - 1, LowerOf(es, j, lo), UpperOf(es, j, hi));
    SearchFinds(c, d, d - 1, LowerOf(es, j, lo), UpperOf(es, j, hi), k);
    assert Height(c) < Height(s);
    InsertNonFullSpec(c, e, d, d - 1, LowerOf(es, j, lo), UpperOf(es, j, hi));
    var x := InsertNonFull(c, e, d);
    ChildReplaced(s, d, m, lo, hi, j, x);
    ReplaceChild(es, cs, j, x);
    UpsertThroughChild(es, cs, d, lo, hi, e);
  }

  lemma LeafInsert(es: seq<Entry>, e: Entry, lo: Option<int>, hi: Option<int>)
    requires SortedWithin(es, lo, hi) && Within(e.key, lo, hi)
    requires var i := KeyPos(es, e.key); i < |es| ==> es[i].key != e.key
    ensures var i := KeyPos(es, e.key);
      && SortedWithin(es[..i] + [e] + es[i..], lo, hi)
      && Upsert(es, e) == es[..i] + [e] + es[i..]
  {
    var i := KeyPos(es, e.key);
    SeparatorFits(es, i, e, lo, hi);
    UpsertAt(es, i, e);
  }

  /** Upserting a new key at the position where it belongs. */
  lemma UpsertAt(es: seq<Entry>, i: nat, e: Entry)
    requires i <= |es| && (forall j :: 0 <= j < i ==> es[j].key < e.key)
    requires i < |es| ==> e.key < es[i].key
    ensures Upsert(es, e) == es[..i] + [e] + es[i..]
  {
    var a, b := es[..i], es[i..];
    calc {
      Upsert(es, e);
      { assert es == a + b; }
      Upsert(a + b, e);
      { UpsertPastLeft(a, b, e); }
      a + Upsert(b, e);
      { if b != [] { assert b[0] == es[i]; } }
      a + ([e] + b);
      a + [e] + b;
    }
  }

  /** After splitting the child an absent key falls in, the key falls in one
      of the two halves. */
  lemma SplitDescendsIntoHalf(t: Tree, i: nat, d: nat, m: int, lo: Option<int>, hi: Option<int>, k: int)
    requires d >= 2 && Shaped(t) && ValidNode(t, d, m, lo, hi) && |t.entries| < 2 * d - 1
    requires t.children != [] && i == KeyPos(t.entries, k) && Full(t.children[i], d)
    requires Search(t, k) == None
    ensures i <= |t.entries| && SplittableNode(t.children[i], d)
    ensures var s := SplitChild(t, i, d);
      var j := KeyPos(s.entries, k);
      j < |s.children| && !Full(s.children[j], d)
  {
    SplitChildValid(t, i, d, m, lo, hi);
    AbsentNotMedian(t, i, d, m, lo, hi, k);
    HalfAt(t, i, d, k, lo, hi);
  }

  lemma AbsentNotMedian(t: Tree, i: nat, d: nat, m: int, lo: Option<int>, hi: Option<int>, k: int)
    requires d >= 2 && Shaped(t) && ValidNode(t, d, m, lo, hi)
    requires t.children != [] && i == KeyPos(t.entries, k) && SplittableNode(t.children[i], d)
    requires Search(t, k) == None
    ensures k != Median(t.children[i], d).key
  {
    var c, es := t.children[i], t.entries;
    assert Search(c, k) == None;
    EntryFound(c, d, d - 1, LowerOf(es, i, lo), UpperOf(es, i, hi), d - 1);
  }

  lemma HalfAt(t: Tree, i: nat, d: nat, k: int, lo: Option<int>, hi: Option<int>)
    requires d >= 2 && i <= |t.entries| && i < |t.children| && SplittableNode(t.children[i], d)
    requires i == KeyPos(t.entries, k) && k != Median(t.children[i], d).key
    requires SortedWithin(SplitChild(t, i, d).entries, lo, hi)
    ensures var s := SplitChild(t, i, d);
      var j := KeyPos(s.entries, k);
      j < |s.children| && !Full(s.children[j], d)
  {
    var c := t.children[i];
    var s := SplitChild(t, i, d);
    SplitKeyPos(t.entries, i, Median(c, d), k, lo, hi);
    assert s.children[i] == LeftHalf(c, d) && s.children[i + 1] == RightHalf(c, d);
  }

  lemma SplitKeyPos(es: seq<Entry>, i: nat, med: Entry, k: int, lo: Option<int>, hi: Option<int>)
    requires i <= |es| && SortedWithin(es[..i] + [med] + es[i..], lo, hi)
    requires i == KeyPos(es, k) && k != med.key
    ensures KeyPos(es[..i] + [med] + es[i..], k) == if k < med.key then i else i + 1
  {
    var es' := es[..i] + [med] + es[i..];
    var j := if k < med.key then i else i + 1;
    SortedWiden(es', lo, hi, None, None);
    forall x | 0 <= x < j
      ensures es'[x].key < k
    {
      if x < i {
        assert es'[x] == es[x];
      }
    }
    if j == i + 1 && j < |es'| {
      assert es'[j] == es[i];
    }
    KeyPosUnique(es', k, j);
  }

  /** `Search` finds every entry a node holds itself. */
  lemma EntryFound(c: Tree, d: nat, m: int, lo: Option<int>, hi: Option<int>, x: nat)
    requires Shaped(c) && ValidNode(c, d, m, lo, hi) && x < |c.entries|
    ensures Search(c, c.entries[x].key) == Some(c.entries[x])
  {
    SortedWiden(c.entries, lo, hi, None, None);
    KeyPosUnique(c.entries, c.entries[x].key, x);
  }

  // ---------------------------------------------------------------------
  // The whole operation

  /** `Insert` keeps a valid tree valid and upserts `(k, p)` into its
      contents; the height grows by one exactly when a new key meets a full
      root. */
  lemma InsertSpec(t: Tree, k: int, p: int, d: nat)
    requires ValidTree(t, d)
    ensures var r := Insert(t, k, p, d);
      && ValidTree(r, d)
      && Flatten(r) == Upsert(Flatten(t), Entry(k, p))
      && Height(r) == if k !in Keys(Flatten(t)) && Full(t, d) then Height(t) + 1 else Height(t)
  {
    ValidIsShaped(t, d, 0, None, None);
    SearchFinds(t, d, 0, None, None, k);
    if Search(t, k).Some? {
      UpdatePointerSpec(t, d, 0, None, None, k, p);
    } else if Full(t, d) {
      RootSplitInsert(t, Entry(k, p), d);
    } else {
      InsertNonFullSpec(t, Entry(k, p), d, 0, None, None);
    }
  }

  /** A new key meeting a full root: the root goes under a new root, is
      split there, and the key is inserted below. */
  lemma RootSplitInsert(t: Tree, e: Entry, d: nat)
    requires ValidTree(t, d) && Shaped(t) && Full(t, d) && e.key !in Keys(Flatten(t))
    ensures Shaped(Node([], [t])) && SplittableNode(t, d) && Shaped(SplitChild(Node([], [t]), 0, d))
    ensures var r := InsertNonFull(SplitChild(Node([], [t]), 0, d), e, d);
      && ValidTree(r, d) && Flatten(r) == Upsert(Flatten(t), e) && Height(r) == Height(t) + 1
  {
    RootSplitShaped(t, d);
    RootSplitValid(t, d);
    var s := SplitChild(Node([], [t]), 0, d);
    InsertNonFullSpec(s, e, d, 0, None, None);
  }

  /** Splitting a full root under a new root gives a valid node of one entry
      with the same contents, one level higher. */
  lemma RootSplitValid(t: Tree, d: nat)
    requires ValidTree(t, d) && Shaped(t) && Full(t, d)
    ensures Shaped(Node([], [t])) && SplittableNode(t, d)
    ensures var s := SplitChild(Node([], [t]), 0, d);
      && Shaped(s) && ValidNode(s, d, 0, None, None) && |s.entries| == 1 && s.children != []
      && Flatten(s) == Flatten(t) && Height(s) == Height(t) + 1
  {
    var root := Node([], [t]);
    RootSplitShaped(t, d);
    assert ValidNode(root, d, 0, None, None) by {
      assert ValidNode(t, d, d - 1, LowerOf([], 0, None), UpperOf([], 0, None));
    }
    SplitChildValid(root, 0, d, 0, None, None);
    SplitChildFlatten(root, 0, d);
    assert Flatten(root) == Flatten(t);
  }

  /** After `Insert(k, p)`, `Search(k)` returns `(k, p)` and every other key
      is found as before. */
  lemma SearchAfterInsert(t: Tree, k: int, p: int, d: nat, k': int)
    requires ValidTree(t, d)
    ensures ValidTree(Insert(t, k, p, d), d) && Shaped(t) && Shaped(Insert(t, k, p, d))
    ensures Search(Insert(t, k, p, d), k') == if k' == k then Some(Entry(k, p)) else Search(t, k')
  {
    var r := Insert(t, k, p, d);
    InsertSpec(t, k, p, d);
    SearchFinds(t, d, 0, None, None, k');
    SearchFinds(r, d, 0, None, None, k');
    FlattenSorted(t, d, 0, None, None);
    UpsertFind(Flatten(t), Entry(k, p), k');
  }
}
