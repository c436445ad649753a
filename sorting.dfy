/**
 * Go's `sort.Slice` and `sort.Strings`, modelled by a stable insertion sort
 * with a "sorts no later than" relation `le`. For a relation that is a total
 * order on the elements being sorted the sorted sequence is unique, so every
 * correct sorting algorithm, Go's included, produces the same result.
 */
module Sorting {
  import Strs
  import opened Seqs

  ghost predicate TotalPreorder<T(!new)>(le: (T, T) -> bool) {
    (forall a, b :: le(a, b) || le(b, a))
    && (forall a, b, c :: le(a, b) && le(b, c) ==> le(a, c))
  }

  ghost predicate Antisymmetric<T(!new)>(le: (T, T) -> bool) {
    forall a, b :: le(a, b) && le(b, a) ==> a == b
  }

  predicate SortedBy<T>(s: seq<T>, le: (T, T) -> bool) {
    forall i, j :: 0 <= i < j < |s| ==> le(s[i], s[j])
  }

  /** Inserts x before the first element it sorts no later than. */
  function Insert<T>(x: T, s: seq<T>, le: (T, T) -> bool): (r: seq<T>)
    ensures |r| == |s| + 1
    ensures multiset(r) == multiset(s) + multiset{x}
  {
    if s == [] then [x]
    else if le(x, s[0]) then [x] + s
    else
      assert s == [s[0]] + s[1..];
      [s[0]] + Insert(x, s[1..], le)
  }

  /** The sorted permutation of s. */
  function SortBy<T>(s: seq<T>, le: (T, T) -> bool): (r: seq<T>)
    ensures |r| == |s|
    ensures multiset(r) == multiset(s)
  {
    if s == [] then []
    else
      assert s == [s[0]] + s[1..];
      Insert(s[0], SortBy(s[1..], le), le)
  }

  lemma {:induction false} InsertSorted<T(!new)>(x: T, s: seq<T>, le: (T, T) -> bool)
    requires TotalPreorder(le) && SortedBy(s, le)
    ensures SortedBy(Insert(x, s, le), le)
    decreases |s|
  {
    if s != [] && !le(x, s[0]) {
      var t := s[1..];
      InsertSorted(x, t, le);
      var r := Insert(x, t, le);
      assert forall y :: y in multiset(r) ==> y == x || y in multiset(t);
      forall k | 0 <= k < |r|
        ensures le(s[0], r[k])
      {
        assert r[k] in multiset(r);
        if r[k] != x {
          assert r[k] in t;
        }
      }
    }
  }

  /** SortBy returns a sorted sequence. */
  lemma {:induction false} SortBySorted<T(!new)>(s: seq<T>, le: (T, T) -> bool)
    requires TotalPreorder(le)
    ensures SortedBy(SortBy(s, le), le)
    decreases |s|
  {
    if s != [] {
      SortBySorted(s[1..], le);
      InsertSorted(s[0], SortBy(s[1..], le), le);
    }
  }

  /** Sorting an already sorted sequence changes nothing. */
  lemma {:induction false} SortBySortedNoop<T>(s: seq<T>, le: (T, T) -> bool)
    requires SortedBy(s, le)
    ensures SortBy(s, le) == s
    decreases |s|
  {
    if s != [] {
      SortBySortedNoop(s[1..], le);
      assert s == [s[0]] + s[1..];
    }
  }

  lemma SortByIdempotent<T(!new)>(s: seq<T>, le: (T, T) -> bool)
    requires TotalPreorder(le)
    ensures SortBy(SortBy(s, le), le) == SortBy(s, le)
  {
    SortBySorted(s, le);
    SortBySortedNoop(SortBy(s, le), le);
  }

  /** Under an antisymmetric order a sorted arrangement of a multiset is unique. */
  /** Two sorted permutations of each other start with the same element. */
  lemma SortedSameHead<T(!new)>(a: seq<T>, b: seq<T>, le: (T, T) -> bool)
    requires Antisymmetric(le)
    requires SortedBy(a, le) && SortedBy(b, le)
    requires a != [] && multiset(a) == multiset(b)
    ensures b != [] && a[0] == b[0]
  {
    assert a[0] in multiset(b);
    var i :| 0 <= i < |b| && b[i] == a[0];
    assert b[0] in multiset(a);
    var j :| 0 <= j < |a| && a[j] == b[0];
    var x, y := a[0], b[0];
    assert y == x || le(y, x) by {
      if i > 0 {
        assert le(b[0], b[i]);
      }
    }
    assert x == y || le(x, y) by {
      if j > 0 {
        assert le(a[0], a[j]);
      }
    }
  }

  lemma SameTailMultiset<T>(a: seq<T>, b: seq<T>)
    requires a != [] && b != [] && a[0] == b[0] && multiset(a) == multiset(b)
    ensures multiset(a[1..]) == multiset(b[1..])
  {
    assert a == [a[0]] + a[1..] && b == [b[0]] + b[1..];
    assert multiset(a) == multiset{a[0]} + multiset(a[1..]);
    assert multiset(b) == multiset{b[0]} + multiset(b[1..]);
    forall z
      ensures multiset(a[1..])[z] == multiset(b[1..])[z]
    {
      assert multiset(a)[z] == multiset(b)[z];
    }
  }

  lemma {:induction false} SortedUnique<T(!new)>(a: seq<T>, b: seq<T>, le: (T, T) -> bool)
    requires Antisymmetric(le)
    requires SortedBy(a, le) && SortedBy(b, le)
    requires multiset(a) == multiset(b)
    ensures a == b
    decreases |a|
  {
    if a == [] {
      assert |multiset(b)| == 0;
    } else {
      SortedSameHead(a, b, le);
      SameTailMultiset(a, b);
      SortedUnique(a[1..], b[1..], le);
      assert a == [a[0]] + a[1..] && b == [b[0]] + b[1..];
    }
  }

  /** Any sorted permutation of s is SortBy(s) when the order is antisymmetric. */
  lemma SortByUnique<T(!new)>(s: seq<T>, r: seq<T>, le: (T, T) -> bool)
    requires TotalPreorder(le) && Antisymmetric(le)
    requires SortedBy(r, le) && multiset(r) == multiset(s)
    ensures r == SortBy(s, le)
  {
    SortBySorted(s, le);
    SortedUnique(r, SortBy(s, le), le);
  }

  // ---------------------------------------------------------------------
  // Strings

  /** sort.Strings */
  function SortStrings(s: seq<string>): seq<string> {
    SortBy(s, Strs.LessEq)
  }

  predicate StrictlyAscending(s: seq<string>) {
    forall i, j :: 0 <= i < j < |s| ==> Strs.Less(s[i], s[j])
  }

  lemma StringOrder()
    ensures TotalPreorder(Strs.LessEq)
    ensures Antisymmetric(Strs.LessEq)
  {
    forall a: string, b: string
      ensures Strs.LessEq(a, b) || Strs.LessEq(b, a)
    {
      Strs.LessEqTotal(a, b);
    }
    forall a: string, b: string, c: string | Strs.LessEq(a, b) && Strs.LessEq(b, c)
      ensures Strs.LessEq(a, c)
    {
      Strs.LessEqTransitive(a, b, c);
    }
    forall a: string, b: string | Strs.LessEq(a, b) && Strs.LessEq(b, a)
      ensures a == b
    {
      Strs.LessEqAntisymmetric(a, b);
    }
  }

  /** sort.Strings yields an ascending permutation. */
  lemma SortStringsSorted(s: seq<string>)
    ensures SortedBy(SortStrings(s), Strs.LessEq)
    ensures multiset(SortStrings(s)) == multiset(s)
  {
    StringOrder();
    SortBySorted(s, Strs.LessEq);
  }

  /** A sorted list of distinct strings is strictly ascending. */
  lemma SortedDistinctAscending(s: seq<string>)
    requires SortedBy(s, Strs.LessEq) && NoDups(s)
    ensures StrictlyAscending(s)
  {
    forall i, j | 0 <= i < j < |s|
      ensures Strs.Less(s[i], s[j])
    {
      assert Strs.LessEq(s[i], s[j]);
    }
  }

  lemma AscendingSorted(s: seq<string>)
    requires StrictlyAscending(s)
    ensures SortedBy(s, Strs.LessEq) && NoDups(s)
  {
    forall i, j | 0 <= i < j < |s|
      ensures s[i] != s[j]
    {
      Strs.LessIrreflexive(s[i]);
    }
  }

  /** Sorting distinct strings gives a strictly ascending sequence. */
  lemma SortStringsAscending(s: seq<string>)
    requires NoDups(s)
    ensures StrictlyAscending(SortStrings(s))
  {
    SortStringsSorted(s);
    NoDupsOfMultiset(s, SortStrings(s));
    SortedDistinctAscending(SortStrings(s));
  }

  /** A strictly ascending sequence is determined by its elements. */
  lemma AscendingUnique(a: seq<string>, b: seq<string>)
    requires StrictlyAscending(a) && StrictlyAscending(b)
    requires forall x :: x in a <==> x in b
    ensures a == b
  {
    AscendingSorted(a);
    AscendingSorted(b);
    DistinctSameSetMultiset(a, b);
    StringOrder();
    SortedUnique(a, b, Strs.LessEq);
  }

  // ---------------------------------------------------------------------
  // Sorting by a key

  /**
   * One component of a sort key. A Go `less` function that compares fields
   * one after another, falling through on equality, is the lexicographic
   * order on the list of those fields.
   */
  datatype KeyPart = IntKey(i: int) | StrKey(s: string)

  predicate PartLess(a: KeyPart, b: KeyPart) {
    match (a, b)
    case (IntKey(x), IntKey(y)) => x < y
    case (StrKey(x), StrKey(y)) => Strs.Less(x, y)
    case (IntKey(_), StrKey(_)) => true
    case (StrKey(_), IntKey(_)) => false
  }

  predicate KeyLess(a: seq<KeyPart>, b: seq<KeyPart>) {
    if |a| == 0 then |b| > 0
    else if |b| == 0 then false
    else if a[0] != b[0] then PartLess(a[0], b[0])
    else KeyLess(a[1..], b[1..])
  }

  predicate KeyLe(a: seq<KeyPart>, b: seq<KeyPart>) {
    a == b || KeyLess(a, b)
  }

  lemma PartLessTransitive(a: KeyPart, b: KeyPart, c: KeyPart)
    requires PartLess(a, b) && PartLess(b, c)
    ensures PartLess(a, c)
  {
    if a.StrKey? && b.StrKey? && c.StrKey? {
      Strs.LessTransitive(a.s, b.s, c.s);
    }
  }

  lemma PartLessTotal(a: KeyPart, b: KeyPart)
    ensures a == b || PartLess(a, b) || PartLess(b, a)
  {
    if a.StrKey? && b.StrKey? {
      Strs.LessTotal(a.s, b.s);
    }
  }

  lemma PartLessIrreflexive(a: KeyPart)
    ensures !PartLess(a, a)
  {
    if a.StrKey? {
      Strs.LessIrreflexive(a.s);
    }
  }

  lemma {:induction false} KeyLessIrreflexive(a: seq<KeyPart>)
    ensures !KeyLess(a, a)
  {
    if |a| > 0 {
      KeyLessIrreflexive(a[1..]);
    }
  }

  lemma {:induction false} KeyLessTransitive(a: seq<KeyPart>, b: seq<KeyPart>, c: seq<KeyPart>)
    requires KeyLess(a, b) && KeyLess(b, c)
    ensures KeyLess(a, c)
    decreases |a|
  {
    if |a| > 0 && |b| > 0 && |c| > 0 {
      if a[0] == b[0] && b[0] == c[0] {
        KeyLessTransitive(a[1..], b[1..], c[1..]);
      } else if a[0] != b[0] && b[0] != c[0] {
        PartLessTransitive(a[0], b[0], c[0]);
        PartLessIrreflexive(a[0]);
      }
    }
  }

  lemma {:induction false} KeyLessTotal(a: seq<KeyPart>, b: seq<KeyPart>)
    ensures KeyLess(a, b) || a == b || KeyLess(b, a)
    decreases |a|
  {
    if |a| > 0 && |b| > 0 {
      if a[0] == b[0] {
        KeyLessTotal(a[1..], b[1..]);
        if a[1..] == b[1..] {
          assert a == [a[0]] + a[1..] && b == [b[0]] + b[1..];
        }
      } else {
        PartLessTotal(a[0], b[0]);
      }
    }
  }

  /** The "sorts no later than" relation induced by a key. */
  function ByKey<T>(key: T -> seq<KeyPart>): (T, T) -> bool {
    (x: T, y: T) => KeyLe(key(x), key(y))
  }

  lemma ByKeyTotalPreorder<T(!new)>(key: T -> seq<KeyPart>)
    ensures TotalPreorder(ByKey(key))
  {
    forall x: T, y: T
      ensures KeyLe(key(x), key(y)) || KeyLe(key(y), key(x))
    {
      KeyLessTotal(key(x), key(y));
    }
    forall x: T, y: T, z: T | KeyLe(key(x), key(y)) && KeyLe(key(y), key(z))
      ensures KeyLe(key(x), key(z))
    {
      if KeyLess(key(x), key(y)) && KeyLess(key(y), key(z)) {
        KeyLessTransitive(key(x), key(y), key(z));
      }
    }
  }

  /** sort.Slice with a field-by-field `less`, as a stable sort by key. */
  function SortByKey<T>(s: seq<T>, key: T -> seq<KeyPart>): seq<T> {
    SortBy(s, ByKey(key))
  }

  /** Sorting by a key yields a permutation in ascending key order. */
  lemma SortByKeySorted<T(!new)>(s: seq<T>, key: T -> seq<KeyPart>)
    ensures multiset(SortByKey(s, key)) == multiset(s)
    ensures forall i, j :: 0 <= i < j < |SortByKey(s, key)| ==>
              KeyLe(key(SortByKey(s, key)[i]), key(SortByKey(s, key)[j]))
  {
    ByKeyTotalPreorder(key);
    SortBySorted(s, ByKey(key));
  }

  /**
   * When no two different elements share a key, the sorted order is the only
   * ascending arrangement, so any sorting algorithm gives the same result.
   */
  lemma SortByKeyUnique<T(!new)>(s: seq<T>, r: seq<T>, key: T -> seq<KeyPart>)
    requires forall x, y :: key(x) == key(y) ==> x == y
    requires multiset(r) == multiset(s)
    requires forall i, j :: 0 <= i < j < |r| ==> KeyLe(key(r[i]), key(r[j]))
    ensures r == SortByKey(s, key)
  {
    ByKeyTotalPreorder(key);
    forall x: T, y: T | KeyLe(key(x), key(y)) && KeyLe(key(y), key(x))
      ensures x == y
    {
      if key(x) != key(y) {
        KeyLessTransitive(key(x), key(y), key(x));
        KeyLessIrreflexive(key(x));
      }
    }
    assert SortedBy(r, ByKey(key));
    SortByUnique(s, r, ByKey(key));
  }
}
