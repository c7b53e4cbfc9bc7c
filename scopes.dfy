/** Scopes over a compound index: `All`, `Equals`, `GreaterThan(OrEqual)`,
    `SmallerThan(OrEqual)`, `Between(..).And(..)` and
    `BetweenIncluding(..).AndIncluding(..)` select the entries whose key lies
    in a range, in index order; `Descending` wraps a scope and enumerates it
    backwards; `.Keys` projects the selected entries onto their keys. */
module Scopes {
  import opened CompoundKeys
  import opened OrderedIndex

  datatype Scope =
    | All
    | Equals(value: Key)
    | GreaterThan(bound: Key, orEqual: bool)
    | SmallerThan(bound: Key, orEqual: bool)
    | Between(low: Key, lowIncluded: bool, high: Key, highIncluded: bool)
    | Descending(original: Scope)

  /** Above a bound (or on it, when it is included). */
  predicate Above(key: Key, bound: Key, included: bool)
  {
    CompareToBound(key, bound) > 0 || (included && CompareToBound(key, bound) == 0)
  }

  /** Below a bound (or on it, when it is included). */
  predicate Below(key: Key, bound: Key, included: bool)
  {
    CompareToBound(key, bound) < 0 || (included && CompareToBound(key, bound) == 0)
  }

  /** Whether a scope selects an entry with this key. `Descending` adds no
      filter of its own. */
  predicate Matches(s: Scope, key: Key)
  {
    match s
    case All => true
    case Equals(v) => CompareToBound(key, v) == 0
    case GreaterThan(b, orEqual) => Above(key, b, orEqual)
    case SmallerThan(b, orEqual) => Below(key, b, orEqual)
    case Between(lo, loIn, hi, hiIn) => Above(key, lo, loIn) && Below(key, hi, hiIn)
    case Descending(o) => Matches(o, key)
  }

  /** The entries of `index` the scope selects, in index order. */
  function Select(index: seq<IndexEntry>, s: Scope): seq<IndexEntry>
  {
    if index == [] then []
    else if Matches(s, index[0].key) then [index[0]] + Select(index[1..], s)
    else Select(index[1..], s)
  }

  function Reverse<T>(s: seq<T>): (r: seq<T>)
    ensures |r| == |s| && forall i :: 0 <= i < |s| ==> r[i] == s[|s| - 1 - i]
  {
    if s == [] then [] else Reverse(s[1..]) + [s[0]]
  }

  /** `BuildEnumerator(descending)`: a range scope walks its entries forwards
      or backwards as asked; `Descending` ignores the request and asks the
      scope it wraps for a backward walk. */
  function BuildEnumerator(s: Scope, index: seq<IndexEntry>, descending: bool): seq<IndexEntry>
  {
    match s
    case Descending(o) => BuildEnumerator(o, index, true)
    case _ => if descending then Reverse(Select(index, s)) else Select(index, s)
  }

  /** Enumerating a scope: its enumerator in the default, ascending direction. */
  function Enumerate(s: Scope, index: seq<IndexEntry>): seq<IndexEntry>
  {
    BuildEnumerator(s, index, false)
  }

  /** `.Keys`: the keys of the enumerated entries, in the same order. */
  function KeysOf(entries: seq<IndexEntry>): (r: seq<Key>)
    ensures |r| == |entries| && forall i :: 0 <= i < |entries| ==> r[i] == entries[i].key
  {
    seq(|entries|, i requires 0 <= i < |entries| => entries[i].key)
  }

  /** The IDs of the enumerated objects, in the same order. */
  function IdsOf(entries: seq<IndexEntry>): (r: seq<int>)
    ensures |r| == |entries| && forall i :: 0 <= i < |entries| ==> r[i] == entries[i].id
  {
    seq(|entries|, i requires 0 <= i < |entries| => entries[i].id)
  }

  // ---------------------------------------------------------------------
  // What a scope selects.

  /** An entry is selected exactly when it is in the index and the scope
      matches its key. */
  lemma {:induction false} SelectMembers(index: seq<IndexEntry>, s: Scope, x: IndexEntry)
    ensures x in Select(index, s) <==> x in index && Matches(s, x.key)
  {
    if index != [] {
      SelectMembers(index[1..], s, x);
      assert index == [index[0]] + index[1..];
    }
  }

  /** Selection keeps index order. */
  lemma {:induction false} SelectOrdered(index: seq<IndexEntry>, s: Scope)
    requires Ordered(index)
    ensures Ordered(Select(index, s))
  {
    if index != [] {
      OrderedTail(index);
      SelectOrdered(index[1..], s);
      if Matches(s, index[0].key) {
        forall y | y in Select(index[1..], s) ensures CompareEntries(index[0], y) < 0 {
          SelectMembers(index[1..], s, y);
        }
        OrderedCons(index[0], Select(index[1..], s));
      }
    }
  }

  /** A scope and a scope that matches the same keys select the same
      entries. */
  lemma {:induction false} SelectSame(index: seq<IndexEntry>, s: Scope, t: Scope)
    requires forall k :: Matches(s, k) == Matches(t, k)
    ensures Select(index, s) == Select(index, t)
  {
    if index != [] {
      SelectSame(index[1..], s, t);
    }
  }

  /** Whatever the wrapping, a backward walk enumerates the selected entries
      in reverse index order. */
  lemma {:induction false} BackwardWalk(s: Scope, index: seq<IndexEntry>)
    ensures BuildEnumerator(s, index, true) == Reverse(Select(index, s))
  {
    if s.Descending? {
      BackwardWalk(s.original, index);
      SelectSame(index, s, s.original);
    }
  }

  /** Enumerating any scope yields exactly the entries it selects. */
  lemma EnumerateMembers(s: Scope, index: seq<IndexEntry>, x: IndexEntry)
    ensures x in Enumerate(s, index) <==> x in index && Matches(s, x.key)
  {
    SelectMembers(index, s, x);
    if s.Descending? {
      BackwardWalk(s.original, index);
      SelectMembers(index, s.original, x);
      assert x in Reverse(Select(index, s.original)) <==> x in Select(index, s.original) by {
        var r := Select(index, s.original);
        if x in r {
          var i :| 0 <= i < |r| && r[i] == x;
          assert Reverse(r)[|r| - 1 - i] == x;
        }
      }
    }
  }

  /** A range scope enumerates in ascending order. */
  lemma EnumerateAscending(s: Scope, index: seq<IndexEntry>)
    requires Ordered(index) && !s.Descending?
    ensures Ordered(Enumerate(s, index))
  {
    SelectOrdered(index, s);
  }

  /** `Descending` yields the entries of the scope it wraps, backwards. */
  lemma DescendingReverses(s: Scope, index: seq<IndexEntry>)
    requires !s.Descending?
    ensures Enumerate(Descending(s), index) == Reverse(Enumerate(s, index))
  {
    BackwardWalk(s, index);
  }

  /** Reversing an ascending sequence gives a strictly descending one. */
  lemma ReverseDescends(sel: seq<IndexEntry>)
    requires Ordered(sel)
    ensures var r := Reverse(sel);
      forall i, j :: 0 <= i < j < |r| ==> CompareEntries(r[i], r[j]) > 0
  {
    var r := Reverse(sel);
    forall i, j | 0 <= i < j < |r| ensures CompareEntries(r[i], r[j]) > 0 {
      assert r[i] == sel[|sel| - 1 - i] && r[j] == sel[|sel| - 1 - j];
      EntryOrder(r[j], r[i], r[j]);
    }
  }

  /** Every `Descending` scope enumerates in strictly descending order. */
  lemma DescendingOrder(s: Scope, index: seq<IndexEntry>)
    requires Ordered(index)
    ensures var r := Enumerate(Descending(s), index);
      forall i, j :: 0 <= i < j < |r| ==> CompareEntries(r[i], r[j]) > 0
  {
    BackwardWalk(s, index);
    SelectOrdered(index, s);
    ReverseDescends(Select(index, s));
  }

  /** Wrapping twice enumerates as wrapping once: both layers force the
      backward walk. */
  lemma DescendingIdempotent(s: Scope, index: seq<IndexEntry>)
    ensures Enumerate(Descending(Descending(s)), index) == Enumerate(Descending(s), index)
  {
    BackwardWalk(s, index);
    BackwardWalk(Descending(s), index);
    SelectSame(index, Descending(s), s);
  }

  // ---------------------------------------------------------------------
  // Ranges are contiguous runs of the index.

  /** `GreaterThan` (inclusive or not) selects an upward-closed run of an
      ordered index, and `SmallerThan` a downward-closed one. */
  lemma BoundsClosed(a: IndexEntry, b: IndexEntry, bound: Key, included: bool)
    requires CompareEntries(a, b) < 0
    ensures Above(a.key, bound, included) ==> Above(b.key, bound, included)
    ensures Below(b.key, bound, included) ==> Below(a.key, bound, included)
  {
    EntryOrder(a, b, a);
    BoundMonotone(a.key, b.key, bound);
  }

  /** Every scope selects a contiguous run of an ordered index: an entry
      between two selected entries is selected too. */
  lemma Contiguous(s: Scope, index: seq<IndexEntry>, i: nat, j: nat, k: nat)
    requires Ordered(index) && i < j < k < |index|
    requires Matches(s, index[i].key) && Matches(s, index[k].key)
    ensures Matches(s, index[j].key)
  {
    var a, b, c := index[i], index[j], index[k];
    match s
    case All =>
    case Equals(v) =>
      BoundsClosed(a, b, v, true);
      BoundsClosed(b, c, v, true);
    case GreaterThan(v, inc) =>
      BoundsClosed(a, b, v, inc);
    case SmallerThan(v, inc) =>
      BoundsClosed(b, c, v, inc);
    case Between(lo, loIn, hi, hiIn) =>
      BoundsClosed(a, b, lo, loIn);
      BoundsClosed(b, c, hi, hiIn);
    case Descending(o) =>
      Contiguous(o, index, i, j, k);
  }
}
