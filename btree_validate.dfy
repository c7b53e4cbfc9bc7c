/** The structural check the B-tree tests run after every operation
    (`ValidateTree` / `ValidateSubtree` in `BTreeTest`), as it is written and
    as it was evidently meant, and how both relate to the tree invariant. */
module BTreeValidate {
  import opened Wrappers
  import opened SortedEntries
  import opened BTreeModel

  /** `nodeMin <= k <= nodeMax`. The top-level call passes `int.MinValue` and
      `int.MaxValue`, which every 32-bit key satisfies; `None` stands for them. */
  predicate WithinIncl(k: int, lo: Option<int>, hi: Option<int>)
  {
    (lo.None? || lo.value <= k) && (hi.None? || k <= hi.value)
  }

  /** `ValidateSubtree` as written: a non-root node holds `degree-1` to
      `2*degree-1` entries; every entry lies within the inclusive bounds; an
      internal node (the root included) has at least `degree` children, and
      child `i` for `0 <= i <= Entries.Count` (which must exist) passes the
      check within its separators, the bounds `LowerOf`/`UpperOf` give. */
  ghost predicate CheckedAsWritten(t: Tree, isRoot: bool, d: int, lo: Option<int>, hi: Option<int>)
    decreases t
  {
    && (!isRoot ==> d - 1 <= |t.entries| <= 2 * d - 1)
    && (forall i :: 0 <= i < |t.entries| ==> WithinIncl(t.entries[i].key, lo, hi))
    && (t.children != [] ==>
          && |t.children| >= d
          && |t.children| > |t.entries|
          && forall i :: 0 <= i <= |t.entries| ==>
               CheckedAsWritten(t.children[i], false, d, LowerOf(t.entries, i, lo), UpperOf(t.entries, i, hi)))
  }

  /** The same check with the child count the B-tree definition asks for: at
      least `degree` children below the root, but only two at the root, which
      after a root split holds a single entry. */
  ghost predicate Checked(t: Tree, isRoot: bool, d: int, lo: Option<int>, hi: Option<int>)
    decreases t
  {
    && (!isRoot ==> d - 1 <= |t.entries| <= 2 * d - 1)
    && (forall i :: 0 <= i < |t.entries| ==> WithinIncl(t.entries[i].key, lo, hi))
    && (t.children != [] ==>
          && |t.children| >= (if isRoot then 2 else d)
          && |t.children| > |t.entries|
          && forall i :: 0 <= i <= |t.entries| ==>
               Checked(t.children[i], false, d, LowerOf(t.entries, i, lo), UpperOf(t.entries, i, hi)))
  }

  /** `ValidateTree(root, degree, expected)` as a whole: the subtree check
      from the root, every expected key among the keys found, and no key found
      twice. */
  ghost predicate ValidateTreeAsWritten(t: Tree, d: int, expected: set<int>)
  {
    && CheckedAsWritten(t, true, d, None, None)
    && expected <= Keys(Flatten(t))
    && forall i, j :: 0 <= i < j < |Flatten(t)| ==> Flatten(t)[i].key != Flatten(t)[j].key
  }

  ghost predicate ValidateTree(t: Tree, d: int, expected: set<int>)
  {
    && Checked(t, true, d, None, None)
    && expected <= Keys(Flatten(t))
    && forall i, j :: 0 <= i < j < |Flatten(t)| ==> Flatten(t)[i].key != Flatten(t)[j].key
  }

  /** Every node of a valid subtree passes the corrected check. */
  lemma {:induction false} ValidNodeChecked(t: Tree, d: nat, m: int, lo: Option<int>, hi: Option<int>, isRoot: bool)
    requires d >= 2 && ValidNode(t, d, m, lo, hi)
    requires isRoot || m >= d - 1
    requires isRoot && t.children != [] ==> |t.entries| >= 1
    ensures Checked(t, isRoot, d, lo, hi)
    decreases t
  {
    if t.children != [] {
      var es, cs := t.entries, t.children;
      forall i | 0 <= i <= |es|
        ensures Checked(cs[i], false, d, LowerOf(es, i, lo), UpperOf(es, i, hi))
      {
        ValidNodeChecked(cs[i], d, d - 1, LowerOf(es, i, lo), UpperOf(es, i, hi), false);
      }
    }
  }

  /** The tests' check accepts every valid tree, once it asks the root for two
      children only; and every key of the tree is found exactly once. */
  lemma ValidTreeValidates(t: Tree, d: nat)
    requires ValidTree(t, d)
    ensures ValidateTree(t, d, Keys(Flatten(t)))
  {
    ValidNodeChecked(t, d, 0, None, None, true);
    FlattenSorted(t, d, 0, None, None);
  }

  /** With the degree the tests use (2), the check as written accepts every
      valid tree too: a root with children has at least one entry and hence
      at least two children. */
  lemma ValidTreeValidatesAtDegreeTwo(t: Tree)
    requires ValidTree(t, 2)
    ensures ValidateTreeAsWritten(t, 2, Keys(Flatten(t)))
  {
    ValidTreeValidates(t, 2);
    CheckedIsAsWrittenAtTwo(t, true, None, None);
  }

  lemma {:induction false} CheckedIsAsWrittenAtTwo(t: Tree, isRoot: bool, lo: Option<int>, hi: Option<int>)
    requires Checked(t, isRoot, 2, lo, hi)
    ensures CheckedAsWritten(t, isRoot, 2, lo, hi)
    decreases t
  {
    if t.children != [] {
      forall i | 0 <= i <= |t.entries|
        ensures CheckedAsWritten(t.children[i], false, 2, LowerOf(t.entries, i, lo), UpperOf(t.entries, i, hi))
      {
        CheckedIsAsWrittenAtTwo(t.children[i], false, LowerOf(t.entries, i, lo), UpperOf(t.entries, i, hi));
      }
    }
  }

  /** A valid degree-3 tree that the check as written rejects: the root a
      split of a full root leaves behind, with one entry and two children. */
  function SplitRootOfDegreeThree(): Tree
  {
    Node([Entry(30, 3)],
         [Node([Entry(10, 1), Entry(20, 2)], []),
          Node([Entry(40, 4), Entry(50, 5)], [])])
  }

  lemma AsWrittenRejectsValidRoot()
    ensures ValidTree(SplitRootOfDegreeThree(), 3)
    ensures !CheckedAsWritten(SplitRootOfDegreeThree(), true, 3, None, None)
  {
    var t := SplitRootOfDegreeThree();
    var es, cs := t.entries, t.children;
    assert ValidNode(cs[0], 3, 2, LowerOf(es, 0, None), UpperOf(es, 0, None));
    assert ValidNode(cs[1], 3, 2, LowerOf(es, 1, None), UpperOf(es, 1, None));
    assert ChildrenValid(es, cs, 3, None, None, -1);
  }
}
