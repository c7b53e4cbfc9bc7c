/** The entries a B-tree holds, and the sorted entry sequences that give the
    tree its meaning: an in-order walk of a valid tree is a strictly sorted
    sequence of entries, and every tree operation is specified by what it
    does to that sequence. */
module SortedEntries {
  import opened Wrappers

  /** `Entry<int, int>` of the test tree: a key and the pointer stored for it. */
  datatype Entry = Entry(key: int, pointer: int)

  /** `k` lies strictly between the optional bounds; `None` is unbounded. */
  predicate Within(k: int, lo: Option<int>, hi: Option<int>)
  {
    (lo.None? || lo.value < k) && (hi.None? || k < hi.value)
  }

  /** Keys strictly increasing, and all of them strictly inside the bounds. */
  ghost predicate SortedWithin(s: seq<Entry>, lo: Option<int>, hi: Option<int>)
  {
    && (forall i :: 0 <= i < |s| ==> Within(s[i].key, lo, hi))
    && (forall i, j :: 0 <= i < j < |s| ==> s[i].key < s[j].key)
  }

  ghost predicate Sorted(s: seq<Entry>)
  {
    SortedWithin(s, None, None)
  }

  function Keys(s: seq<Entry>): set<int>
  {
    if s == [] then {} else {s[0].key} + Keys(s[1..])
  }

  /** The first entry with key `k`, if any. */
  function Find(s: seq<Entry>, k: int): (r: Option<Entry>)
    ensures r.Some? ==> r.value in s && r.value.key == k
    ensures r.None? <==> k !in Keys(s)
  {
    if s == [] then None
    else if s[0].key == k then Some(s[0])
    else
      Find(s[1..], k)
  }

  /** Insert `e` into a sorted sequence, replacing the entry with the same key. */
  function Upsert(s: seq<Entry>, e: Entry): seq<Entry>
  {
    if s == [] then [e]
    else if s[0].key == e.key then [e] + s[1..]
    else if e.key < s[0].key then [e] + s
    else [s[0]] + Upsert(s[1..], e)
  }

  /** Drop every entry with key `k`. */
  function Remove(s: seq<Entry>, k: int): seq<Entry>
  {
    if s == [] then []
    else if s[0].key == k then Remove(s[1..], k)
    else [s[0]] + Remove(s[1..], k)
  }

  lemma {:induction false} KeysConcat(a: seq<Entry>, b: seq<Entry>)
    ensures Keys(a + b) == Keys(a) + Keys(b)
  {
    if a == [] {
      assert a + b == b;
    } else {
      assert (a + b)[1..] == a[1..] + b;
      KeysConcat(a[1..], b);
    }
  }

  /** A sequence is what lies before position `i`, the element there, and
      what lies after it. */
  lemma Around<T>(s: seq<T>, i: nat)
    requires i < |s|
    ensures s == s[..i] + [s[i]] + s[i + 1..]
  {
  }

  /** A sorted bounded sequence around a separator splits into two sorted
      bounded halves, and back. */
  lemma SortedConcat(a: seq<Entry>, e: Entry, b: seq<Entry>, lo: Option<int>, hi: Option<int>)
    ensures SortedWithin(a + [e] + b, lo, hi) <==>
      SortedWithin(a, lo, Some(e.key)) && Within(e.key, lo, hi) && SortedWithin(b, Some(e.key), hi)
  {
    if SortedWithin(a + [e] + b, lo, hi) {
      SortedSplit(a, e, b, lo, hi);
    }
    if SortedWithin(a, lo, Some(e.key)) && Within(e.key, lo, hi) && SortedWithin(b, Some(e.key), hi) {
      SortedGlue(a, e, b, lo, hi);
    }
  }

  lemma SortedSplit(a: seq<Entry>, e: Entry, b: seq<Entry>, lo: Option<int>, hi: Option<int>)
    requires SortedWithin(a + [e] + b, lo, hi)
    ensures SortedWithin(a, lo, Some(e.key)) && Within(e.key, lo, hi) && SortedWithin(b, Some(e.key), hi)
  {
    var s := a + [e] + b;
    assert s[|a|] == e;
    forall i | 0 <= i < |a| ensures Within(a[i].key, lo, Some(e.key)) {
      assert s[i] == a[i];
      assert s[i].key < s[|a|].key;
    }
    forall i, j | 0 <= i < j < |a| ensures a[i].key < a[j].key {
      assert s[i] == a[i] && s[j] == a[j];
    }
    forall i | 0 <= i < |b| ensures Within(b[i].key, Some(e.key), hi) {
      assert s[|a| + 1 + i] == b[i];
      assert s[|a|].key < s[|a| + 1 + i].key;
    }
    forall i, j | 0 <= i < j < |b| ensures b[i].key < b[j].key {
      assert s[|a| + 1 + i] == b[i] && s[|a| + 1 + j] == b[j];
      assert s[|a| + 1 + i].key < s[|a| + 1 + j].key;
    }
  }

  lemma SortedGlue(a: seq<Entry>, e: Entry, b: seq<Entry>, lo: Option<int>, hi: Option<int>)
    requires SortedWithin(a, lo, Some(e.key)) && Within(e.key, lo, hi) && SortedWithin(b, Some(e.key), hi)
    ensures SortedWithin(a + [e] + b, lo, hi)
  {
    var s := a + [e] + b;
    forall i | 0 <= i < |s| ensures Within(s[i].key, lo, hi) {
      if i < |a| { assert s[i] == a[i]; }
      else if i > |a| { assert s[i] == b[i - |a| - 1]; }
      else { assert s[i] == e; }
    }
    forall i, j | 0 <= i < j < |s| ensures s[i].key < s[j].key {
      if j < |a| {
        assert s[i] == a[i] && s[j] == a[j];
      } else if j == |a| {
        assert s[i] == a[i] && s[j] == e;
      } else if i < |a| {
        assert s[i] == a[i] && s[j] == b[j - |a| - 1];
      } else if i == |a| {
        assert s[i] == e && s[j] == b[j - |a| - 1];
      } else {
        assert s[i] == b[i - |a| - 1] && s[j] == b[j - |a| - 1];
      }
    }
  }

  /** Narrowing what a sequence is known to lie in: any bounds wider than the
      actual ones still hold. */
  lemma SortedWiden(s: seq<Entry>, lo: Option<int>, hi: Option<int>, lo': Option<int>, hi': Option<int>)
    requires SortedWithin(s, lo, hi)
    requires lo'.Some? ==> lo.Some? && lo'.value <= lo.value
    requires hi'.Some? ==> hi.Some? && hi.value <= hi'.value
    ensures SortedWithin(s, lo', hi')
  {
  }

  /** A sorted bounded sequence is its first entry followed by a sorted
      sequence bounded below by that entry, and back. */
  lemma ConsSorted(x: Entry, rest: seq<Entry>, lo: Option<int>, hi: Option<int>)
    ensures SortedWithin([x] + rest, lo, hi) <==> Within(x.key, lo, hi) && SortedWithin(rest, Some(x.key), hi)
  {
    SortedConcat([], x, rest, lo, hi);
    assert [] + [x] + rest == [x] + rest;
  }

  lemma {:induction false} UpsertSorted(s: seq<Entry>, e: Entry, lo: Option<int>, hi: Option<int>)
    requires SortedWithin(s, lo, hi) && Within(e.key, lo, hi)
    ensures SortedWithin(Upsert(s, e), lo, hi)
  {
    if s == [] {
      ConsSorted(e, [], lo, hi);
    } else {
      var x, rest := s[0], s[1..];
      assert s == [x] + rest;
      ConsSorted(x, rest, lo, hi);
      if x.key == e.key {
        ConsSorted(e, rest, lo, hi);
      } else if e.key < x.key {
        ConsSorted(x, rest, Some(e.key), hi);
        ConsSorted(e, s, lo, hi);
      } else {
        UpsertSorted(rest, e, Some(x.key), hi);
        ConsSorted(x, Upsert(rest, e), lo, hi);
      }
    }
  }

  lemma {:induction false} UpsertKeys(s: seq<Entry>, e: Entry)
    ensures Keys(Upsert(s, e)) == Keys(s) + {e.key}
  {
    if s != [] && s[0].key != e.key && e.key > s[0].key {
      UpsertKeys(s[1..], e);
      assert Upsert(s, e)[1..] == Upsert(s[1..], e);
    } else if s != [] && s[0].key == e.key {
      assert Upsert(s, e)[1..] == s[1..];
    } else if s != [] {
      assert Upsert(s, e)[1..] == s;
    }
  }

  lemma {:induction false} UpsertFind(s: seq<Entry>, e: Entry, k: int)
    requires Sorted(s)
    ensures Find(Upsert(s, e), k) == if k == e.key then Some(e) else Find(s, k)
  {
    if s == [] {
    } else if s[0].key == e.key {
      if k != e.key {
        assert Upsert(s, e)[1..] == s[1..];
      }
    } else if e.key < s[0].key {
      if k == e.key {
      } else {
        assert Upsert(s, e)[1..] == s;
      }
    } else {
      assert s == [] + [s[0]] + s[1..];
      SortedConcat([], s[0], s[1..], None, None);
      SortedWiden(s[1..], Some(s[0].key), None, None, None);
      UpsertFind(s[1..], e, k);
      assert Upsert(s, e)[1..] == Upsert(s[1..], e);
      if k == e.key {
        assert Find(Upsert(s, e), k) == Find(Upsert(s[1..], e), k);
      }
    }
  }

  lemma {:induction false} RemoveSorted(s: seq<Entry>, k: int, lo: Option<int>, hi: Option<int>)
    requires SortedWithin(s, lo, hi)
    ensures SortedWithin(Remove(s, k), lo, hi)
  {
    if s != [] {
      var x, rest := s[0], s[1..];
      assert s == [x] + rest;
      ConsSorted(x, rest, lo, hi);
      RemoveSorted(rest, k, Some(x.key), hi);
      if x.key == k {
        SortedWiden(Remove(rest, k), Some(x.key), hi, lo, hi);
      } else {
        ConsSorted(x, Remove(rest, k), lo, hi);
      }
    }
  }

  lemma {:induction false} RemoveKeys(s: seq<Entry>, k: int)
    ensures Keys(Remove(s, k)) == Keys(s) - {k}
  {
    if s != [] {
      RemoveKeys(s[1..], k);
      if s[0].key != k {
        assert Remove(s, k)[1..] == Remove(s[1..], k);
      }
    }
  }

  lemma {:induction false} RemoveFind(s: seq<Entry>, k: int, k': int)
    ensures Find(Remove(s, k), k') == if k' == k then None else Find(s, k')
  {
    if s != [] {
      RemoveFind(s[1..], k, k');
      if s[0].key != k {
        assert Remove(s, k)[1..] == Remove(s[1..], k);
      }
    }
  }

  /** Removing a key the sequence does not hold changes nothing. */
  lemma {:induction false} RemoveAbsent(s: seq<Entry>, k: int)
    requires k !in Keys(s)
    ensures Remove(s, k) == s
  {
    if s != [] {
      RemoveAbsent(s[1..], k);
      assert s == [s[0]] + s[1..];
    }
  }

  lemma {:induction false} RemoveConcat(a: seq<Entry>, b: seq<Entry>, k: int)
    ensures Remove(a + b, k) == Remove(a, k) + Remove(b, k)
  {
    if a != [] {
      assert (a + b)[1..] == a[1..] + b;
      RemoveConcat(a[1..], b, k);
    } else {
      assert a + b == b;
    }
  }

  /** Upserting a key larger than everything on the left leaves the left alone. */
  lemma {:induction false} UpsertPastLeft(a: seq<Entry>, b: seq<Entry>, e: Entry)
    requires forall i :: 0 <= i < |a| ==> a[i].key < e.key
    ensures Upsert(a + b, e) == a + Upsert(b, e)
  {
    if a == [] {
      assert a + b == b;
    } else {
      var r := a[1..];
      forall i | 0 <= i < |r| ensures r[i].key < e.key {
        assert r[i] == a[i + 1];
      }
      UpsertPastLeft(r, b, e);
      assert (a + b)[0] == a[0] && (a + b)[1..] == r + b;
      assert a[0].key < e.key;
      calc {
        Upsert(a + b, e);
        [a[0]] + Upsert(r + b, e);
        [a[0]] + (r + Upsert(b, e));
        { assert a == [a[0]] + r; }
        a + Upsert(b, e);
      }
    }
  }

  /** Upserting a key smaller than everything on the right leaves the right alone. */
  lemma {:induction false} UpsertBeforeRight(a: seq<Entry>, b: seq<Entry>, e: Entry)
    requires forall i :: 0 <= i < |b| ==> e.key < b[i].key
    ensures Upsert(a + b, e) == Upsert(a, e) + b
  {
    if a == [] {
      assert a + b == b;
      if b != [] {
        assert Upsert(b, e) == [e] + b;
      }
    } else {
      assert (a + b)[0] == a[0];
      assert (a + b)[1..] == a[1..] + b;
      UpsertBeforeRight(a[1..], b, e);
    }
  }

  /** Removing the one entry with key `k` from between two runs without it. */
  lemma RemoveOne(a: seq<Entry>, e: Entry, b: seq<Entry>, k: int)
    requires e.key == k && k !in Keys(a) && k !in Keys(b)
    ensures Remove(a + [e] + b, k) == a + b
  {
    assert Remove([e], k) == [] by {
      assert [e][1..] == [];
    }
    RemoveConcat(a, [e], k);
    RemoveAbsent(a, k);
    assert Remove(a + [e], k) == a;
    RemoveConcat(a + [e], b, k);
    RemoveAbsent(b, k);
  }

  /** Removing `k` from a run flanked by runs without it. */
  lemma RemoveMiddle(a: seq<Entry>, x: seq<Entry>, b: seq<Entry>, k: int)
    requires k !in Keys(a) && k !in Keys(b)
    ensures Remove(a + x + b, k) == a + Remove(x, k) + b
  {
    RemoveConcat(a + x, b, k);
    RemoveConcat(a, x, k);
    RemoveAbsent(a, k);
    RemoveAbsent(b, k);
  }

  /** Two sorted runs either side of a key make one sorted run. */
  lemma SortedJoin(a: seq<Entry>, b: seq<Entry>, k: int, lo: Option<int>, hi: Option<int>)
    requires SortedWithin(a, lo, Some(k)) && SortedWithin(b, Some(k), hi) && Within(k, lo, hi)
    ensures SortedWithin(a + b, lo, hi)
  {
    var s := a + b;
    forall i | 0 <= i < |s| ensures Within(s[i].key, lo, hi) {
      if i < |a| { assert s[i] == a[i]; } else { assert s[i] == b[i - |a|]; }
    }
    forall i, j | 0 <= i < j < |s| ensures s[i].key < s[j].key {
      if j < |a| {
        assert s[i] == a[i] && s[j] == a[j];
      } else if i >= |a| {
        assert s[i] == b[i - |a|] && s[j] == b[j - |a|];
      } else {
        assert s[i] == a[i] && s[j] == b[j - |a|];
      }
    }
  }
}
