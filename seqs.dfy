/**
 * Sequence helpers shared by the model: duplicate-freedom and the
 * "keep the first occurrence" de-duplication that skelly performs with a
 * seen-map loop in many places.
 */
module Seqs {
  import opened Wrappers

  predicate NoDups<T(==)>(s: seq<T>) {
    forall i, j :: 0 <= i < j < |s| ==> s[i] != s[j]
  }

  lemma NoDupsOfMultiset<T>(a: seq<T>, b: seq<T>)
    requires NoDups(a) && multiset(a) == multiset(b)
    ensures NoDups(b)
  {
    forall i, j | 0 <= i < j < |b|
      ensures b[i] != b[j]
    {
      if b[i] == b[j] {
        assert b == b[..i] + [b[i]] + b[i + 1..j] + [b[j]] + b[j + 1..];
        assert multiset(b)[b[i]] >= 2;
        MultiplicityAtMostOne(a, b[i]);
      }
    }
  }

  lemma {:induction false} MultiplicityAtMostOne<T>(a: seq<T>, x: T)
    requires NoDups(a)
    ensures multiset(a)[x] <= 1
    decreases |a|
  {
    if a != [] {
      assert a == [a[0]] + a[1..];
      MultiplicityAtMostOne(a[1..], x);
      if a[0] == x {
        assert x !in a[1..];
      }
    }
  }

  lemma DistinctSameSetMultiset<T>(a: seq<T>, b: seq<T>)
    requires NoDups(a) && NoDups(b)
    requires forall x :: x in a <==> x in b
    ensures multiset(a) == multiset(b)
  {
    forall x
      ensures multiset(a)[x] == multiset(b)[x]
    {
      MultiplicityAtMostOne(a, x);
      MultiplicityAtMostOne(b, x);
      assert x in a <==> x in multiset(a);
      assert x in b <==> x in multiset(b);
    }
  }

  /**
   * The elements of s in order, each kept at its first occurrence only:
   * what a loop that appends every element not yet in its seen-set builds.
   */
  function Distinct<T(==, !new)>(s: seq<T>): (r: seq<T>)
    ensures NoDups(r)
    ensures forall x :: x in r <==> x in s
  {
    if s == [] then []
    else
      var init := s[..|s| - 1];
      var last := s[|s| - 1];
      assert s == init + [last];
      if last in init then Distinct(init) else Distinct(init) + [last]
  }

  lemma MultisetMembers<T>(a: seq<T>, b: seq<T>)
    requires multiset(a) == multiset(b)
    ensures forall x :: x in a <==> x in b
  {
    forall x
      ensures x in a <==> x in b
    {
      assert x in a <==> x in multiset(a);
      assert x in b <==> x in multiset(b);
    }
  }

  /** A sequence without duplicates is its own de-duplication. */
  lemma {:induction false} DistinctNoDups<T(!new)>(s: seq<T>)
    requires NoDups(s)
    ensures Distinct(s) == s
  {
    if s != [] {
      var init := s[..|s| - 1];
      DistinctNoDups(init);
      assert s == init + [s[|s| - 1]];
    }
  }

  lemma DistinctIdempotent<T(!new)>(s: seq<T>)
    ensures Distinct(Distinct(s)) == Distinct(s)
  {
    DistinctNoDups(Distinct(s));
  }

  /** Distinct keeps exactly the first occurrences: extending by a new element appends it. */
  lemma DistinctSnoc<T(!new)>(s: seq<T>, x: T)
    ensures Distinct(s + [x]) == if x in s then Distinct(s) else Distinct(s) + [x]
  {
    assert (s + [x])[..|s + [x]| - 1] == s;
  }

  /** Distinct is a subsequence of s: an element earlier in Distinct(s) first occurs earlier in s. */
  function FirstIndex<T(==)>(s: seq<T>, x: T): (i: nat)
    requires x in s
    ensures i < |s| && s[i] == x && x !in s[..i]
  {
    if s[0] == x then 0
    else
      assert x in s[1..];
      var j := FirstIndex(s[1..], x);
      assert s[..j + 1] == [s[0]] + s[1..][..j];
      j + 1
  }

  lemma {:induction false} DistinctFirstOccurrenceOrder<T(!new)>(s: seq<T>, i: int, j: int)
    requires 0 <= i < j < |Distinct(s)|
    ensures FirstIndex(s, Distinct(s)[i]) < FirstIndex(s, Distinct(s)[j])
  {
    var init := s[..|s| - 1];
    var last := s[|s| - 1];
    var d := Distinct(init);
    var r := Distinct(s);
    assert r[i] in s && r[j] in s;
    if r[i] in init && r[j] in init {
      FirstIndexPrefix(s, init, r[i]);
      FirstIndexPrefix(s, init, r[j]);
      if last in init {
        DistinctFirstOccurrenceOrder(init, i, j);
      } else {
        assert j < |d|;
        assert r[i] == d[i] && r[j] == d[j];
        DistinctFirstOccurrenceOrder(init, i, j);
      }
    } else {
      assert !(last in init) && r == d + [last];
      assert j == |d| && r[j] == last;
      assert r[i] == d[i] && r[i] in init;
      FirstIndexPrefix(s, init, r[i]);
      assert FirstIndex(s, last) == |s| - 1;
    }
  }

  lemma FirstIndexPrefix<T>(s: seq<T>, p: seq<T>, x: T)
    requires p <= s && x in p
    ensures FirstIndex(s, x) == FirstIndex(p, x)
  {
    var i := FirstIndex(s, x);
    var k := FirstIndex(p, x);
    assert s[..k] == p[..k];
  }

  // ---------------------------------------------------------------------
  // De-duplication by key

  /** The key of every element of s, in order. */
  function Keys<T, K>(s: seq<T>, key: T -> K): (r: seq<K>)
    ensures |r| == |s| && forall k :: 0 <= k < |s| ==> r[k] == key(s[k])
  {
    if s == [] then [] else Keys(s[..|s| - 1], key) + [key(s[|s| - 1])]
  }

  /**
   * The elements of s in order, keeping only the first element for each key:
   * what a loop that records every key it has seen in a map builds.
   */
  function DistinctBy<T, K(==)>(s: seq<T>, key: T -> K): (r: seq<T>)
    ensures |r| <= |s|
  {
    if s == [] then []
    else
      var init := s[..|s| - 1];
      var last := s[|s| - 1];
      if key(last) in Keys(init, key) then DistinctBy(init, key) else DistinctBy(init, key) + [last]
  }

  lemma KeysMember<T, K>(s: seq<T>, x: T, key: T -> K)
    requires x in s
    ensures key(x) in Keys(s, key)
  {
    var i :| 0 <= i < |s| && s[i] == x;
    assert Keys(s, key)[i] == key(x);
  }

  lemma KeysSnoc<T, K>(s: seq<T>, x: T, key: T -> K)
    ensures Keys(s + [x], key) == Keys(s, key) + [key(x)]
  {
  }

  /** A value that stays the same from each step to the next is the same at both ends. */
  lemma {:induction false} ChainEqual<R>(f: nat -> R, i: nat, k: nat)
    requires i <= k
    requires forall j :: i <= j < k ==> f(j) == f(j + 1)
    ensures f(i) == f(k)
    decreases k - i
  {
    if i < k {
      ChainEqual(f, i + 1, k);
    }
  }

  /** Appending an element the sequence does not hold keeps it free of duplicates. */
  lemma NoDupsSnoc<T>(s: seq<T>, x: T)
    requires NoDups(s) && x !in s
    ensures NoDups(s + [x])
  {
    forall i, j | 0 <= i < j < |s| + 1
      ensures (s + [x])[i] != (s + [x])[j]
    {
      assert (s + [x])[i] == s[i];
    }
  }

  /** The keys DistinctBy keeps are the distinct keys of s, in first-occurrence order. */
  lemma {:induction false} DistinctByKeys<T, K(!new)>(s: seq<T>, key: T -> K)
    ensures Keys(DistinctBy(s, key), key) == Distinct(Keys(s, key))
  {
    if s != [] {
      var init := s[..|s| - 1];
      var last := s[|s| - 1];
      assert s == init + [last];
      DistinctByKeys(init, key);
      KeysSnoc(init, last, key);
      DistinctSnoc(Keys(init, key), key(last));
      if key(last) !in Keys(init, key) {
        KeysSnoc(DistinctBy(init, key), last, key);
      }
    }
  }

  /** The element DistinctBy keeps for a key is the first element of s with that key. */
  lemma {:induction false} DistinctByFirst<T, K(!new)>(s: seq<T>, key: T -> K)
    ensures forall k :: 0 <= k < |DistinctBy(s, key)| ==>
              key(DistinctBy(s, key)[k]) in Keys(s, key) &&
              DistinctBy(s, key)[k] == s[FirstIndex(Keys(s, key), key(DistinctBy(s, key)[k]))]
  {
    if s != [] {
      var init := s[..|s| - 1];
      var last := s[|s| - 1];
      assert s == init + [last];
      var r0 := DistinctBy(init, key);
      var r := DistinctBy(s, key);
      DistinctByFirst(init, key);
      KeysSnoc(init, last, key);
      forall k | 0 <= k < |r|
        ensures key(r[k]) in Keys(s, key) && r[k] == s[FirstIndex(Keys(s, key), key(r[k]))]
      {
        if k < |r0| {
          assert r[k] == r0[k];
          FirstIndexPrefix(Keys(s, key), Keys(init, key), key(r0[k]));
        } else {
          assert r[k] == last && key(last) !in Keys(init, key);
          assert FirstIndex(Keys(s, key), key(last)) == |s| - 1;
        }
      }
    }
  }

  /** DistinctBy only keeps elements of s. */
  lemma {:induction false} DistinctBySubset<T, K>(s: seq<T>, key: T -> K)
    ensures forall x :: x in DistinctBy(s, key) ==> x in s
  {
    if s != [] {
      var init := s[..|s| - 1];
      DistinctBySubset(init, key);
      assert forall x :: x in init ==> x in s;
    }
  }

  /** No two elements DistinctBy keeps share a key. */
  lemma DistinctByKeysNoDups<T, K(!new)>(s: seq<T>, key: T -> K)
    ensures NoDups(Keys(DistinctBy(s, key), key))
  {
    DistinctByKeys(s, key);
  }

  /** Every key of s is the key of an element DistinctBy keeps. */
  lemma DistinctByCovers<T, K(!new)>(s: seq<T>, key: T -> K, i: int)
    requires 0 <= i < |s|
    ensures key(s[i]) in Keys(DistinctBy(s, key), key)
  {
    DistinctByKeys(s, key);
    assert Keys(s, key)[i] == key(s[i]);
  }

  /** A rearrangement of a sequence whose keys are all different has all different keys. */
  lemma NoDupKeysOfMultiset<T, K>(a: seq<T>, b: seq<T>, key: T -> K)
    requires NoDups(Keys(a, key)) && multiset(a) == multiset(b)
    ensures NoDups(Keys(b, key))
  {
    assert NoDups(a) by {
      forall i, j | 0 <= i < j < |a|
        ensures a[i] != a[j]
      {
        assert Keys(a, key)[i] != Keys(a, key)[j];
      }
    }
    NoDupsOfMultiset(a, b);
    MultisetMembers(a, b);
    forall i, j | 0 <= i < j < |b|
      ensures Keys(b, key)[i] != Keys(b, key)[j]
    {
      assert b[i] in a && b[j] in a;
      var ia :| 0 <= ia < |a| && a[ia] == b[i];
      var ib :| 0 <= ib < |a| && a[ib] == b[j];
      assert Keys(a, key)[ia] != Keys(a, key)[ib] || ia == ib;
    }
  }

  /** A sequence whose keys are all different is its own de-duplication. */
  lemma {:induction false} DistinctByNoDupKeys<T, K>(s: seq<T>, key: T -> K)
    requires NoDups(Keys(s, key))
    ensures DistinctBy(s, key) == s
  {
    if s != [] {
      var init := s[..|s| - 1];
      assert Keys(s, key) == Keys(init, key) + [key(s[|s| - 1])];
      assert NoDups(Keys(init, key)) by {
        forall i, j | 0 <= i < j < |init|
          ensures Keys(init, key)[i] != Keys(init, key)[j]
        {
          assert Keys(s, key)[i] != Keys(s, key)[j];
        }
      }
      DistinctByNoDupKeys(init, key);
      assert s == init + [s[|s| - 1]];
    }
  }

  /** Extending s by one element appends it exactly when its key is new. */
  lemma DistinctBySnoc<T, K>(s: seq<T>, x: T, key: T -> K)
    ensures DistinctBy(s + [x], key) ==
              if key(x) in Keys(s, key) then DistinctBy(s, key) else DistinctBy(s, key) + [x]
  {
    assert (s + [x])[..|s + [x]| - 1] == s;
  }

  /**
   * Two keys that tell the elements of s apart in the same way de-duplicate
   * s identically.
   */
  /** Of two elements with the same key only the first is kept. */
  lemma DistinctByPair<T, K>(x: T, y: T, key: T -> K)
    ensures DistinctBy([x, y], key) == if key(x) == key(y) then [x] else [x, y]
  {
    assert [x, y][..1] == [x];
    assert [x][..0] == [];
    assert Keys([x], key) == [key(x)];
  }

  lemma {:induction false} DistinctByCongruent<T, K1, K2>(s: seq<T>, k1: T -> K1, k2: T -> K2)
    requires forall i, j :: 0 <= i < |s| && 0 <= j < |s| ==> (k1(s[i]) == k1(s[j]) <==> k2(s[i]) == k2(s[j]))
    ensures DistinctBy(s, k1) == DistinctBy(s, k2)
  {
    if s != [] {
      var init := s[..|s| - 1];
      var last := s[|s| - 1];
      DistinctByCongruent(init, k1, k2);
      assert k1(last) in Keys(init, k1) <==> k2(last) in Keys(init, k2) by {
        if k1(last) in Keys(init, k1) {
          var i :| 0 <= i < |init| && Keys(init, k1)[i] == k1(last);
          assert Keys(init, k2)[i] == k2(last);
        }
        if k2(last) in Keys(init, k2) {
          var i :| 0 <= i < |init| && Keys(init, k2)[i] == k2(last);
          assert Keys(init, k1)[i] == k1(last);
        }
      }
    }
  }

  // ---------------------------------------------------------------------
  // Map and filter

  /** f applied to every element of s, keeping the results that satisfy keep, in order. */
  function MapFilter<T, U>(s: seq<T>, f: T -> U, keep: U -> bool): (r: seq<U>)
    ensures |r| <= |s|
  {
    if s == [] then []
    else
      var y := f(s[|s| - 1]);
      MapFilter(s[..|s| - 1], f, keep) + (if keep(y) then [y] else [])
  }

  lemma MapFilterSnoc<T, U>(s: seq<T>, x: T, f: T -> U, keep: U -> bool)
    ensures MapFilter(s + [x], f, keep) == MapFilter(s, f, keep) + (if keep(f(x)) then [f(x)] else [])
  {
    assert (s + [x])[..|s + [x]| - 1] == s;
  }

  /** MapFilter holds exactly the images that satisfy keep. */
  lemma {:induction false} MapFilterMembers<T, U>(s: seq<T>, f: T -> U, keep: U -> bool)
    ensures forall y :: y in MapFilter(s, f, keep) ==> keep(y) && exists k :: 0 <= k < |s| && f(s[k]) == y
    ensures forall k :: 0 <= k < |s| && keep(f(s[k])) ==> f(s[k]) in MapFilter(s, f, keep)
  {
    if s != [] {
      var init := s[..|s| - 1];
      var x := s[|s| - 1];
      assert s == init + [x];
      MapFilterMembers(init, f, keep);
      MapFilterSnoc(init, x, f, keep);
      var r := MapFilter(s, f, keep);
      forall y | y in r
        ensures keep(y) && exists k :: 0 <= k < |s| && f(s[k]) == y
      {
        if y in MapFilter(init, f, keep) {
          var k :| 0 <= k < |init| && f(init[k]) == y;
          assert s[k] == init[k];
        } else {
          assert f(s[|s| - 1]) == y;
        }
      }
      forall k | 0 <= k < |s| && keep(f(s[k]))
        ensures f(s[k]) in r
      {
        if k < |init| {
          assert s[k] == init[k];
        }
      }
    }
  }

  /** Every element of s that satisfies keep and is its own image passes through. */
  lemma {:induction false} MapFilterFixed<T>(s: seq<T>, f: T -> T, keep: T -> bool)
    requires forall k :: 0 <= k < |s| ==> keep(s[k]) && f(s[k]) == s[k]
    ensures MapFilter(s, f, keep) == s
  {
    if s != [] {
      var init := s[..|s| - 1];
      MapFilterFixed(init, f, keep);
      assert s == init + [s[|s| - 1]];
    }
  }

  /** One step of a loop that maps, filters and de-duplicates by key. */
  lemma DistinctByMapFilterSnoc<T, U, K>(s: seq<T>, x: T, f: T -> U, keep: U -> bool, key: U -> K)
    ensures var m := MapFilter(s, f, keep);
      && Keys(MapFilter(s + [x], f, keep), key) == Keys(m, key) + (if keep(f(x)) then [key(f(x))] else [])
      && DistinctBy(MapFilter(s + [x], f, keep), key) ==
           if keep(f(x)) && key(f(x)) !in Keys(m, key) then DistinctBy(m, key) + [f(x)] else DistinctBy(m, key)
  {
    var m := MapFilter(s, f, keep);
    MapFilterSnoc(s, x, f, keep);
    if keep(f(x)) {
      KeysSnoc(m, f(x), key);
      DistinctBySnoc(m, f(x), key);
    } else {
      assert MapFilter(s + [x], f, keep) == m;
    }
  }

  // ---------------------------------------------------------------------
  // Collecting the values a partial function gives

  /** The values f gives for the elements of s, skipping those it gives none for, in order. */
  function Collect<T, U>(s: seq<T>, f: T -> Option<U>): (r: seq<U>)
    ensures |r| <= |s|
  {
    if s == [] then []
    else
      var rest := Collect(s[..|s| - 1], f);
      match f(s[|s| - 1])
      case None => rest
      case Some(u) => rest + [u]
  }

  /** Collecting from two runs one after the other gives their values one after the other. */
  lemma {:induction false} CollectAppend<T, U>(a: seq<T>, b: seq<T>, f: T -> Option<U>)
    ensures Collect(a + b, f) == Collect(a, f) + Collect(b, f)
    decreases |b|
  {
    if b == [] {
      assert a + b == a;
    } else {
      var last := |b| - 1;
      assert (a + b)[..|a + b| - 1] == a + b[..last];
      assert (a + b)[|a + b| - 1] == b[last];
      CollectAppend(a, b[..last], f);
    }
  }

  /** A property every value of f has holds of every collected value. */
  lemma {:induction false} CollectKeeps<T, U>(s: seq<T>, f: T -> Option<U>, p: U -> bool)
    requires forall x :: f(x).Some? ==> p(f(x).value)
    ensures forall k :: 0 <= k < |Collect(s, f)| ==> p(Collect(s, f)[k])
    decreases |s|
  {
    if s != [] {
      CollectKeeps(s[..|s| - 1], f, p);
    }
  }

  /** When f gives a value for every element, those values are collected, in order. */
  lemma {:induction false} CollectAll<T, U>(s: seq<T>, r: seq<U>, f: T -> Option<U>)
    requires |s| == |r|
    requires forall j :: 0 <= j < |s| ==> f(s[j]) == Some(r[j])
    ensures Collect(s, f) == r
    decreases |s|
  {
    if s != [] {
      var last := |s| - 1;
      CollectAll(s[..last], r[..last], f);
      assert r == r[..last] + [r[last]];
    }
  }

  /** Behind a first element, the i-th element is the (i-1)-th of the rest. */
  lemma ConsIndex<T>(h: T, s: seq<T>, i: int)
    requires 0 < i <= |s|
    ensures ([h] + s)[i] == s[i - 1]
  {
  }

  /** One more element collected: its value, if f gives one, follows what was collected before. */
  lemma CollectNext<T, U>(acc: seq<U>, s: seq<T>, j: int, f: T -> Option<U>, prev: seq<U>, out: seq<U>)
    requires 0 <= j < |s|
    requires prev == acc + Collect(s[..j], f)
    requires out == prev + (if f(s[j]).Some? then [f(s[j]).value] else [])
    ensures out == acc + Collect(s[..j + 1], f)
  {
    assert s[..j + 1][..j] == s[..j] && s[..j + 1][j] == s[j];
  }

  /**
   * The filter-map loop: for each element in order, append the value f
   * gives for it, when it gives one.
   */
  method CollectInto<T, U>(acc: seq<U>, s: seq<T>, f: T -> Option<U>) returns (out: seq<U>)
    ensures out == acc + Collect(s, f)
  {
    out := acc;
    assert s[..0] == [];
    for i := 0 to |s|
      invariant out == acc + Collect(s[..i], f)
    {
      ghost var prev := out;
      var value := f(s[i]);
      if value.Some? {
        out := out + [value.value];
      }
      CollectNext(acc, s, i, f, prev, out);
    }
    assert s[..|s|] == s;
  }

  /**
   * The longest run of elements from index j on that keep accepts, each
   * read by f, and the index of the first element after the run.
   */
  function TakeWhile<T, U>(s: seq<T>, j: nat, keep: T -> bool, f: T -> U): (r: (seq<U>, nat))
    requires j <= |s|
    ensures j <= r.1 <= |s| && |r.0| == r.1 - j
    decreases |s| - j
  {
    if j == |s| || !keep(s[j]) then ([], j)
    else
      var rest := TakeWhile(s, j + 1, keep, f);
      ([f(s[j])] + rest.0, rest.1)
  }

  /** The run holds f of each element from j up to the first one keep rejects, or up to the end. */
  lemma {:induction false} TakeWhileSpec<T, U>(s: seq<T>, j: nat, keep: T -> bool, f: T -> U)
    requires j <= |s|
    ensures var r := TakeWhile(s, j, keep, f);
      && (forall k :: j <= k < r.1 ==> keep(s[k]) && r.0[k - j] == f(s[k]))
      && (r.1 == |s| || !keep(s[r.1]))
    decreases |s| - j
  {
    if j < |s| && keep(s[j]) {
      TakeWhileSpec(s, j + 1, keep, f);
      var rest := TakeWhile(s, j + 1, keep, f);
      var r := TakeWhile(s, j, keep, f);
      assert r.0 == [f(s[j])] + rest.0;
      forall k | j < k < r.1
        ensures r.0[k - j] == f(s[k])
      {
        assert r.0[k - j] == rest.0[k - (j + 1)];
      }
    }
  }

  /** One more element of the run: the run read after it grows by f of that element and ends where it ended. */
  lemma TakeWhileNext<T, U>(s: seq<T>, j: nat, keep: T -> bool, f: T -> U, before: seq<U>)
    requires j < |s| && keep(s[j])
    ensures before + TakeWhile(s, j, keep, f).0 == (before + [f(s[j])]) + TakeWhile(s, j + 1, keep, f).0
    ensures TakeWhile(s, j, keep, f).1 == TakeWhile(s, j + 1, keep, f).1
  {
    var rest := TakeWhile(s, j + 1, keep, f);
    assert TakeWhile(s, j, keep, f).0 == [f(s[j])] + rest.0;
  }

  /** Where keep rejects the element at j, or at the end, the run is empty. */
  lemma TakeWhileStop<T, U>(s: seq<T>, j: nat, keep: T -> bool, f: T -> U)
    requires j <= |s| && (j == |s| || !keep(s[j]))
    ensures TakeWhile(s, j, keep, f) == ([], j)
  {
  }

  /** The loop that reads the run: it takes elements while keep accepts them, and returns the run and the index after it. */
  method TakeWhileInto<T, U>(s: seq<T>, j: nat, keep: T -> bool, f: T -> U) returns (run: seq<U>, end: nat)
    requires j <= |s|
    ensures (run, end) == TakeWhile(s, j, keep, f)
  {
    run := [];
    end := j;
    assert [] + TakeWhile(s, j, keep, f).0 == TakeWhile(s, j, keep, f).0;
    while end < |s| && keep(s[end])
      invariant j <= end <= |s|
      invariant run + TakeWhile(s, end, keep, f).0 == TakeWhile(s, j, keep, f).0
      invariant TakeWhile(s, end, keep, f).1 == TakeWhile(s, j, keep, f).1
      decreases |s| - end
    {
      TakeWhileNext(s, end, keep, f, run);
      run := run + [f(s[end])];
      end := end + 1;
    }
    assert run + [] == run;
  }
}
