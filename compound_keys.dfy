/** Compound index keys (`CompoundValue(c1, c2, ...)`): a tuple of typed
    components ordered component by component, left to right, the first
    unequal component deciding. A bound with fewer components than the key is
    a prefix bound: only the components it supplies are compared. */
module CompoundKeys {

  /** One key component: a missing (null) string, an integral value (`int`,
      `long`) or a string. */
  datatype Component = Null | Int(i: int) | Str(s: string)

  type Key = seq<Component>

  /** A three-way comparison: negative, zero or positive. */
  ghost predicate IsOrder<T(!new)>(cmp: (T, T) -> int)
  {
    (forall x, y :: -1 <= cmp(x, y) <= 1) &&
    (forall x, y :: cmp(x, y) == -cmp(y, x)) &&
    (forall x, y :: cmp(x, y) == 0 <==> x == y) &&
    (forall x, y, z :: cmp(x, y) < 0 && cmp(y, z) < 0 ==> cmp(x, z) < 0)
  }

  /** Lexicographic comparison of two sequences under an element comparison;
      a proper prefix sorts first. */
  function Lex<T>(a: seq<T>, b: seq<T>, cmp: (T, T) -> int): int
    decreases |a|
  {
    if a == [] then (if b == [] then 0 else -1)
    else if b == [] then 1
    else if cmp(a[0], b[0]) < 0 then -1
    else if cmp(a[0], b[0]) > 0 then 1
    else Lex(a[1..], b[1..], cmp)
  }

  /** The first `n` elements of `a`, or all of `a` when it is shorter. */
  function Prefix<T>(a: seq<T>, n: nat): (p: seq<T>)
    ensures |p| == if |a| < n then |a| else n
    ensures p <= a
  {
    if n == 0 || a == [] then [] else [a[0]] + Prefix(a[1..], n - 1)
  }

  function CompareChars(a: char, b: char): int
  {
    if a < b then -1 else if a == b then 0 else 1
  }

  /** Ordinal string comparison. */
  function CompareStrings(a: string, b: string): int
  {
    Lex(a, b, CompareChars)
  }

  /** Null sorts before every value; integral values before strings (one
      index position only ever holds one kind, so this cross-kind order is
      never observed). */
  function CompareComponents(a: Component, b: Component): int
  {
    match (a, b)
    case (Null, Null) => 0
    case (Null, _) => -1
    case (_, Null) => 1
    case (Int(x), Int(y)) => if x < y then -1 else if x == y then 0 else 1
    case (Int(_), Str(_)) => -1
    case (Str(_), Int(_)) => 1
    case (Str(x), Str(y)) => CompareStrings(x, y)
  }

  /** The order of full compound keys. */
  function Compare(a: Key, b: Key): int
  {
    Lex(a, b, CompareComponents)
  }

  /** The comparison of a key with a (possibly prefix) bound: only the
      components the bound supplies take part. */
  function CompareToBound(key: Key, bound: Key): int
  {
    Compare(Prefix(key, |bound|), bound)
  }

  // ---------------------------------------------------------------------
  // Lexicographic order is a total order.

  lemma {:induction false} LexRange<T>(a: seq<T>, b: seq<T>, cmp: (T, T) -> int)
    ensures -1 <= Lex(a, b, cmp) <= 1
    decreases |a|
  {
    if a != [] && b != [] && cmp(a[0], b[0]) == 0 {
      LexRange(a[1..], b[1..], cmp);
    }
  }

  lemma {:induction false} LexAntisymmetric<T(!new)>(a: seq<T>, b: seq<T>, cmp: (T, T) -> int)
    requires IsOrder(cmp)
    ensures Lex(a, b, cmp) == -Lex(b, a, cmp)
    decreases |a|
  {
    if a != [] && b != [] && cmp(a[0], b[0]) == 0 {
      LexAntisymmetric(a[1..], b[1..], cmp);
    }
  }

  lemma {:induction false} LexZero<T(!new)>(a: seq<T>, b: seq<T>, cmp: (T, T) -> int)
    requires IsOrder(cmp)
    ensures Lex(a, b, cmp) == 0 <==> a == b
    decreases |a|
  {
    if a != [] && b != [] {
      LexZero(a[1..], b[1..], cmp);
      if cmp(a[0], b[0]) == 0 {
        assert a[0] == b[0];
        assert a == [a[0]] + a[1..] && b == [b[0]] + b[1..];
      }
    }
  }

  lemma {:induction false} LexTransitive<T(!new)>(a: seq<T>, b: seq<T>, c: seq<T>, cmp: (T, T) -> int)
    requires IsOrder(cmp) && Lex(a, b, cmp) < 0 && Lex(b, c, cmp) < 0
    ensures Lex(a, c, cmp) < 0
    decreases |a|
  {
    if a != [] && b != [] && c != [] {
      if cmp(a[0], b[0]) == 0 && cmp(b[0], c[0]) == 0 {
        LexTransitive(a[1..], b[1..], c[1..], cmp);
      }
    }
  }

  /** Cutting two ordered sequences to the same length keeps them ordered,
      though it may make them equal. */
  lemma {:induction false} LexPrefix<T(!new)>(a: seq<T>, b: seq<T>, n: nat, cmp: (T, T) -> int)
    requires IsOrder(cmp) && Lex(a, b, cmp) <= 0
    ensures Lex(Prefix(a, n), Prefix(b, n), cmp) <= 0
    decreases n
  {
    if n > 0 && a != [] && b != [] && cmp(a[0], b[0]) == 0 {
      LexPrefix(a[1..], b[1..], n - 1, cmp);
      assert Prefix(a, n)[1..] == Prefix(a[1..], n - 1);
      assert Prefix(b, n)[1..] == Prefix(b[1..], n - 1);
    } else if n > 0 && a == [] {
      assert Prefix(a, n) == [];
    }
  }

  /** A total order lifts to its lexicographic order. */
  lemma LexOrder<T(!new)>(cmp: (T, T) -> int)
    requires IsOrder(cmp)
    ensures IsOrder((a: seq<T>, b: seq<T>) => Lex(a, b, cmp))
  {
    forall a: seq<T>, b: seq<T> ensures -1 <= Lex(a, b, cmp) <= 1 {
      LexRange(a, b, cmp);
    }
    forall a: seq<T>, b: seq<T> ensures Lex(a, b, cmp) == -Lex(b, a, cmp) {
      LexAntisymmetric(a, b, cmp);
    }
    forall a: seq<T>, b: seq<T> ensures Lex(a, b, cmp) == 0 <==> a == b {
      LexZero(a, b, cmp);
    }
    forall a: seq<T>, b: seq<T>, c: seq<T> | Lex(a, b, cmp) < 0 && Lex(b, c, cmp) < 0
      ensures Lex(a, c, cmp) < 0
    {
      LexTransitive(a, b, c, cmp);
    }
  }

  /** Ordinal string comparison is a total order. */
  lemma StringOrder()
    ensures IsOrder(CompareStrings)
  {
    assert IsOrder(CompareChars);
    forall x: string, y: string ensures -1 <= CompareStrings(x, y) <= 1 {
      LexRange(x, y, CompareChars);
    }
    forall x: string, y: string ensures CompareStrings(x, y) == -CompareStrings(y, x) {
      LexAntisymmetric(x, y, CompareChars);
    }
    forall x: string, y: string ensures CompareStrings(x, y) == 0 <==> x == y {
      LexZero(x, y, CompareChars);
    }
    forall x: string, y: string, z: string | CompareStrings(x, y) < 0 && CompareStrings(y, z) < 0
      ensures CompareStrings(x, z) < 0
    {
      LexTransitive(x, y, z, CompareChars);
    }
  }

  /** The order facts for particular components. */
  lemma ComponentFacts(x: Component, y: Component, z: Component)
    ensures -1 <= CompareComponents(x, y) <= 1
    ensures CompareComponents(x, y) == -CompareComponents(y, x)
    ensures CompareComponents(x, y) == 0 <==> x == y
    ensures CompareComponents(x, y) < 0 && CompareComponents(y, z) < 0 ==> CompareComponents(x, z) < 0
  {
    if x.Str? && y.Str? {
      StringOrder();
      assert CompareStrings(x.s, y.s) == 0 <==> x.s == y.s;
    }
    if x.Str? && y.Str? && z.Str? {
      StringOrder();
      if CompareStrings(x.s, y.s) < 0 && CompareStrings(y.s, z.s) < 0 {
        assert CompareStrings(x.s, z.s) < 0;
      }
    }
  }

  /** Components are totally ordered: `CompareComponents` is a three-way
      comparison that is zero exactly on equal components. */
  lemma ComponentOrder()
    ensures IsOrder(CompareComponents)
  {
    forall x, y ensures -1 <= CompareComponents(x, y) <= 1 && CompareComponents(x, y) == -CompareComponents(y, x) {
      ComponentFacts(x, y, x);
    }
    forall x, y ensures CompareComponents(x, y) == 0 <==> x == y {
      ComponentFacts(x, y, x);
    }
    forall x, y, z | CompareComponents(x, y) < 0 && CompareComponents(y, z) < 0
      ensures CompareComponents(x, z) < 0
    {
      ComponentFacts(x, y, z);
    }
  }

  /** Compound keys are totally ordered, and two keys compare equal exactly
      when every component is equal. */
  lemma KeyOrder(a: Key, b: Key, c: Key)
    ensures -1 <= Compare(a, b) <= 1
    ensures Compare(a, b) == -Compare(b, a)
    ensures Compare(a, b) == 0 <==> a == b
    ensures Compare(a, b) < 0 && Compare(b, c) < 0 ==> Compare(a, c) < 0
  {
    ComponentOrder();
    LexRange(a, b, CompareComponents);
    LexAntisymmetric(a, b, CompareComponents);
    LexZero(a, b, CompareComponents);
    if Compare(a, b) < 0 && Compare(b, c) < 0 {
      LexTransitive(a, b, c, CompareComponents);
    }
  }

  /** A full-length bound compares the whole key. */
  lemma FullBound(key: Key, bound: Key)
    requires |key| == |bound|
    ensures CompareToBound(key, bound) == Compare(key, bound)
  {
    assert Prefix(key, |bound|) == key;
  }

  /** A key agrees with a prefix bound exactly when the bound is a prefix of
      the key. */
  lemma BoundZero(key: Key, bound: Key)
    ensures CompareToBound(key, bound) == 0 <==> |bound| <= |key| && key[..|bound|] == bound
  {
    KeyOrder(Prefix(key, |bound|), bound, bound);
  }

  /** Bound comparison is monotone in the key: a key below another never lies
      further above a bound, nor further below it. */
  lemma BoundMonotone(k1: Key, k2: Key, bound: Key)
    requires Compare(k1, k2) <= 0
    ensures CompareToBound(k1, bound) > 0 ==> CompareToBound(k2, bound) > 0
    ensures CompareToBound(k1, bound) >= 0 ==> CompareToBound(k2, bound) >= 0
    ensures CompareToBound(k2, bound) < 0 ==> CompareToBound(k1, bound) < 0
    ensures CompareToBound(k2, bound) <= 0 ==> CompareToBound(k1, bound) <= 0
  {
    var n := |bound|;
    var p1, p2 := Prefix(k1, n), Prefix(k2, n);
    ComponentOrder();
    LexPrefix(k1, k2, n, CompareComponents);
    KeyOrder(p1, p2, bound);
    KeyOrder(p1, bound, p2);
    KeyOrder(p2, bound, p1);
    KeyOrder(bound, p1, p2);
    KeyOrder(bound, p2, p1);
    KeyOrder(p2, p1, bound);
  }
}
