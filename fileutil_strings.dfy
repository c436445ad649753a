/**
 * The string-slice helpers of internal/fileutil/strings.go. Each builds a
 * new slice or map in a loop and leaves its input alone.
 */
module FileutilStrings {
  import opened Seqs
  import opened Sorting
  import Strs

  /** DedupeStrings: the first occurrence of each string, in input order. */
  method DedupeStrings(items: seq<string>) returns (out: seq<string>)
    ensures out == Distinct(items)
  {
    var seen: set<string> := {};
    out := [];
    var i := 0;
    while i < |items|
      invariant 0 <= i <= |items|
      invariant out == Distinct(items[..i])
      invariant forall x :: x in seen <==> x in items[..i]
    {
      assert items[..i + 1] == items[..i] + [items[i]];
      DistinctSnoc(items[..i], items[i]);
      if items[i] !in seen {
        seen := seen + {items[i]};
        out := out + [items[i]];
      }
      i := i + 1;
    }
    assert items[..i] == items;
  }

  /** What DedupeStrings promises: no duplicates, the same members, first-occurrence order. */
  lemma DedupeStringsSpec(items: seq<string>)
    ensures NoDups(Distinct(items))
    ensures forall x :: x in Distinct(items) <==> x in items
    ensures forall i, j :: 0 <= i < j < |Distinct(items)| ==>
      FirstIndex(items, Distinct(items)[i]) < FirstIndex(items, Distinct(items)[j])
  {
    forall i, j | 0 <= i < j < |Distinct(items)|
      ensures FirstIndex(items, Distinct(items)[i]) < FirstIndex(items, Distinct(items)[j])
    {
      DistinctFirstOccurrenceOrder(items, i, j);
    }
  }

  /** DedupeStrings is idempotent. */
  lemma DedupeStringsIdempotent(items: seq<string>)
    ensures Distinct(Distinct(items)) == Distinct(items)
  {
    DistinctIdempotent(items);
  }

  /** MapKeysSorted: every key, whatever its value, once, in ascending order. */
  method MapKeysSorted(values: map<string, bool>) returns (out: seq<string>)
    ensures StrictlyAscending(out)
    ensures forall k :: k in out <==> k in values
  {
    var keys: seq<string> := [];
    var rest := values.Keys;
    while rest != {}
      invariant rest <= values.Keys
      invariant NoDups(keys)
      invariant forall k :: k in keys <==> k in values && k !in rest
      decreases |rest|
    {
      var k :| k in rest;
      keys := keys + [k];
      rest := rest - {k};
    }
    out := SortStrings(keys);
    SortStringsAscending(keys);
    SortStringsSorted(keys);
    MultisetMembers(out, keys);
  }

  /** ToSet: each path mapped to true, and nothing else. */
  method ToSet(paths: seq<string>) returns (r: map<string, bool>)
    ensures forall p :: p in r <==> p in paths
    ensures forall p :: p in r ==> r[p]
  {
    r := map[];
    var i := 0;
    while i < |paths|
      invariant 0 <= i <= |paths|
      invariant forall p :: p in r <==> p in paths[..i]
      invariant forall p :: p in r ==> r[p]
    {
      assert paths[..i + 1] == paths[..i] + [paths[i]];
      r := r[paths[i] := true];
      i := i + 1;
    }
    assert paths[..i] == paths;
  }

  /** The paths present in the map, in input order, duplicates kept. */
  function Present(paths: seq<string>, existing: map<string, string>): seq<string> {
    if paths == [] then []
    else
      var last := paths[|paths| - 1];
      Present(paths[..|paths| - 1], existing) + (if last in existing then [last] else [])
  }

  lemma {:induction false} PresentCount(paths: seq<string>, existing: map<string, string>, p: string)
    ensures multiset(Present(paths, existing))[p] == if p in existing then multiset(paths)[p] else 0
    decreases |paths|
  {
    if paths != [] {
      var init := paths[..|paths| - 1];
      PresentCount(init, existing, p);
      assert paths == init + [paths[|paths| - 1]];
    }
  }

  /** ExistingFiles: the paths present in the map, sorted. */
  method ExistingFiles(paths: seq<string>, existing: map<string, string>) returns (out: seq<string>)
    ensures out == SortStrings(Present(paths, existing))
  {
    var kept: seq<string> := [];
    var i := 0;
    while i < |paths|
      invariant 0 <= i <= |paths|
      invariant kept == Present(paths[..i], existing)
    {
      assert paths[..i + 1][..i] == paths[..i];
      if paths[i] in existing {
        kept := kept + [paths[i]];
      }
      i := i + 1;
    }
    assert paths[..i] == paths;
    out := SortStrings(kept);
  }

  /**
   * What ExistingFiles promises: the output is sorted, and each path occurs
   * as often as in the input when it is present, and never otherwise.
   */
  lemma ExistingFilesSpec(paths: seq<string>, existing: map<string, string>)
    ensures SortedBy(SortStrings(Present(paths, existing)), Strs.LessEq)
    ensures forall p :: multiset(SortStrings(Present(paths, existing)))[p] == (if p in existing then multiset(paths)[p] else 0)
  {
    SortStringsSorted(Present(paths, existing));
    forall p
      ensures multiset(SortStrings(Present(paths, existing)))[p] == if p in existing then multiset(paths)[p] else 0
    {
      PresentCount(paths, existing, p);
    }
  }
}
