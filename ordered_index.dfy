/** The contents of a compound index: entries (key, object ID) in ascending
    order, the key deciding first and the ID breaking ties, so that a
    non-unique index holds one entry per indexed object. */
module OrderedIndex {
  import opened Wrappers
  import opened CompoundKeys

  datatype IndexEntry = IndexEntry(key: Key, id: int)

  function CompareEntries(a: IndexEntry, b: IndexEntry): int
  {
    var c := Compare(a.key, b.key);
    if c != 0 then c
    else if a.id < b.id then -1
    else if a.id == b.id then 0
    else 1
  }

  /** Entries are totally ordered, the key first. */
  lemma EntryOrder(a: IndexEntry, b: IndexEntry, c: IndexEntry)
    ensures CompareEntries(a, b) == -CompareEntries(b, a)
    ensures CompareEntries(a, b) == 0 <==> a == b
    ensures CompareEntries(a, b) < 0 && CompareEntries(b, c) < 0 ==> CompareEntries(a, c) < 0
    ensures CompareEntries(a, b) < 0 ==> Compare(a.key, b.key) <= 0
  {
    KeyOrder(a.key, b.key, c.key);
    KeyOrder(b.key, a.key, c.key);
    KeyOrder(a.key, c.key, b.key);
    KeyOrder(b.key, c.key, a.key);
  }

  /** Strictly ascending. */
  ghost predicate Ordered(s: seq<IndexEntry>)
  {
    forall i, j :: 0 <= i < j < |s| ==> CompareEntries(s[i], s[j]) < 0
  }

  /** `Register`: the entry goes in its place; an entry already present is
      left as it is. */
  function Insert(s: seq<IndexEntry>, e: IndexEntry): seq<IndexEntry>
  {
    if s == [] then [e]
    else if CompareEntries(e, s[0]) < 0 then [e] + s
    else if CompareEntries(e, s[0]) == 0 then s
    else [s[0]] + Insert(s[1..], e)
  }

  /** `UnRegister`: the entry goes; removing an absent entry changes nothing. */
  function Remove(s: seq<IndexEntry>, e: IndexEntry): seq<IndexEntry>
  {
    if s == [] then []
    else if s[0] == e then s[1..]
    else [s[0]] + Remove(s[1..], e)
  }

  lemma OrderedTail(s: seq<IndexEntry>)
    requires Ordered(s) && s != []
    ensures Ordered(s[1..]) && forall x :: x in s[1..] ==> CompareEntries(s[0], x) < 0
  {
  }

  lemma OrderedCons(x: IndexEntry, s: seq<IndexEntry>)
    requires Ordered(s) && forall y :: y in s ==> CompareEntries(x, y) < 0
    ensures Ordered([x] + s)
  {
    var r := [x] + s;
    forall i, j | 0 <= i < j < |r| ensures CompareEntries(r[i], r[j]) < 0 {
      if i > 0 {
        assert r[i] == s[i - 1] && r[j] == s[j - 1];
      } else {
        assert r[j] == s[j - 1] && r[j] in s;
      }
    }
  }

  /** Inserting keeps the index ordered and adds exactly `e`. */
  lemma {:induction false} InsertSpec(s: seq<IndexEntry>, e: IndexEntry)
    requires Ordered(s)
    ensures Ordered(Insert(s, e))
    ensures forall x :: x in Insert(s, e) <==> x in s || x == e
  {
    if s == [] {
    } else if CompareEntries(e, s[0]) < 0 {
      forall y | y in s ensures CompareEntries(e, y) < 0 {
        EntryOrder(e, s[0], y);
      }
      OrderedCons(e, s);
    } else if CompareEntries(e, s[0]) == 0 {
      EntryOrder(e, s[0], e);
    } else {
      OrderedTail(s);
      InsertSpec(s[1..], e);
      EntryOrder(e, s[0], e);
      assert s == [s[0]] + s[1..];
      OrderedCons(s[0], Insert(s[1..], e));
    }
  }

  /** Removing keeps the index ordered and drops exactly `e`. */
  lemma {:induction false} RemoveSpec(s: seq<IndexEntry>, e: IndexEntry)
    requires Ordered(s)
    ensures Ordered(Remove(s, e))
    ensures forall x :: x in Remove(s, e) <==> x in s && x != e
  {
    if s == [] {
    } else if s[0] == e {
      OrderedTail(s);
      EntryOrder(e, e, e);
      assert s == [s[0]] + s[1..];
    } else {
      OrderedTail(s);
      RemoveSpec(s[1..], e);
      assert s == [s[0]] + s[1..];
      OrderedCons(s[0], Remove(s[1..], e));
    }
  }

  /** An entry above every entry goes last. */
  lemma {:induction false} InsertLast(s: seq<IndexEntry>, e: IndexEntry)
    requires forall x :: x in s ==> CompareEntries(x, e) < 0
    ensures Insert(s, e) == s + [e]
  {
    if s != [] {
      EntryOrder(s[0], e, e);
      InsertLast(s[1..], e);
      assert s == [s[0]] + s[1..];
    }
  }

  /** An entry below the first entry goes first. */
  lemma InsertFirst(s: seq<IndexEntry>, e: IndexEntry)
    requires s == [] || CompareEntries(e, s[0]) < 0
    ensures Insert(s, e) == [e] + s
  {
  }

  /** An ordered index is determined by the entries it holds. */
  lemma {:induction false} OrderedUnique(s: seq<IndexEntry>, t: seq<IndexEntry>)
    requires Ordered(s) && Ordered(t)
    requires forall x :: x in s <==> x in t
    ensures s == t
    decreases |s|
  {
    assert s != [] ==> s[0] in t;
    assert t != [] ==> t[0] in s;
    if s != [] && t != [] {
      OrderedTail(s);
      OrderedTail(t);
      assert s == [s[0]] + s[1..] && t == [t[0]] + t[1..];
      EntryOrder(s[0], s[0], s[0]);
      assert s[0] == t[0] by {
        assert s[0] in t && t[0] in s;
        if s[0] != t[0] {
          assert s[0] in t[1..] && t[0] in s[1..];
          EntryOrder(s[0], t[0], s[0]);
        }
      }
      forall x ensures x in s[1..] <==> x in t[1..] {
        assert x in s <==> x in t;
        if x in s[1..] || x in t[1..] {
          assert x != s[0];
        }
      }
      OrderedUnique(s[1..], t[1..]);
      assert s == [s[0]] + s[1..] && t == [t[0]] + t[1..];
    }
  }

  /** Whether the index binds `key` to an object other than `id`: the
      condition under which a unique index rejects a registration. */
  function Conflict(s: seq<IndexEntry>, key: Key, id: int): (r: bool)
    ensures r <==> exists e :: e in s && e.key == key && e.id != id
  {
    if s == [] then false
    else if s[0].key == key && s[0].id != id then true
    else
      assert forall e :: e in s <==> e == s[0] || e in s[1..];
      Conflict(s[1..], key, id)
  }

  /** The ID bound to `key`, the first in index order; `None` when the key is
      not there. */
  function FindKey(s: seq<IndexEntry>, key: Key): (r: Option<int>)
    ensures r.Some? ==> IndexEntry(key, r.value) in s
    ensures r.None? <==> forall e :: e in s ==> e.key != key
  {
    if s == [] then None
    else if s[0].key == key then Some(s[0].id)
    else
      assert forall e :: e in s <==> e == s[0] || e in s[1..];
      FindKey(s[1..], key)
  }
}
