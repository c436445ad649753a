/**
 * The helpers the language front ends share (internal/languages/common.go
 * and its copy in pkg/languages/common.go): splitting qualified names,
 * deriving an import's default alias, merging alias maps, splitting
 * `X as Y`, and the call-site de-duplication of the pkg copy.
 */
module LanguagesCommon {
  import opened Strs
  import opened Seqs
  import opened Sorting
  import GoPath
  import opened ParserTypes
  import Parser
  import GoStrconv

  // ---------------------------------------------------------------------
  // splitQualifiedName

  /** splitQualifiedName: the trimmed text before and after the last '.'. */
  function SplitQualifiedName(raw: string): (r: (string, string))
    ensures TrimSpace(raw) == "" ==> r == ("", "")
    ensures '.' !in TrimSpace(raw) ==> r == ("", TrimSpace(raw))
    ensures '.' !in r.1
  {
    var s := TrimSpace(raw);
    LastIndexChar(s, '.');
    if s == "" then ("", "")
    else
      var idx := LastIndex(s, ".");
      if idx != -1 then
        TrimSpaceSubstring(s[idx + 1..]);
        (TrimSpace(s[..idx]), TrimSpace(s[idx + 1..]))
      else ("", s)
  }

  lemma NoEdgeSpaceDotJoin(q: string, n: string)
    requires NoEdgeSpace(q) && NoEdgeSpace(n)
    ensures NoEdgeSpace(q + "." + n)
  {
    var s := q + "." + n;
    assert s[0] == (if q == "" then '.' else q[0]);
    assert s[|s| - 1] == (if n == "" then '.' else n[|n| - 1]);
  }

  /** In `x` + c + `y` with c not in y, the last c is the one between them. */
  lemma LastIndexOfJoin(x: string, c: char, y: string)
    requires c !in y
    ensures LastIndex(x + [c] + y, [c]) == |x|
  {
    var s := x + [c] + y;
    LastIndexChar(s, c);
    var i := LastIndex(s, [c]);
    assert s[|x|] == c;
    assert forall j :: |x| < j < |s| ==> s[j] == y[j - |x| - 1];
    assert i >= |x| by {
      assert s[|x| + 1..] == y;
    }
  }

  /** Joining a qualifier and a dot-free name with '.' and splitting again gives both back. */
  lemma SplitQualifiedNameJoin(q: string, n: string)
    requires NoEdgeSpace(q) && NoEdgeSpace(n) && '.' !in n
    ensures SplitQualifiedName(q + "." + n) == (q, n)
  {
    var s := q + "." + n;
    NoEdgeSpaceDotJoin(q, n);
    TrimSpaceNoop(s);
    LastIndexOfJoin(q, '.', n);
    assert s[..|q|] == q;
    assert s[|q| + 1..] == n;
    TrimSpaceNoop(q);
    TrimSpaceNoop(n);
  }

  // ---------------------------------------------------------------------
  // defaultImportAlias

  /** defaultImportAlias: the trimmed last element of the path, or "" for "." and "/". */
  function DefaultImportAlias(path: string): (r: string)
    ensures '/' !in r
  {
    var base := GoPath.Base(TrimSpace(path));
    if base == "." || base == "/" then ""
    else
      TrimSpaceSubstring(base);
      TrimSpace(base)
  }

  lemma LastElementOfJoin(dir: string, elem: string)
    requires elem != "" && '/' !in elem
    ensures var p := dir + "/" + elem; p[|p| - 1] != '/' && GoPath.LastElement(p) == elem
  {
    var p := dir + "/" + elem;
    assert p[|p| - 1] == elem[|elem| - 1];
    LastIndexOfJoin(dir, '/', elem);
    assert p[|dir| + 1..] == elem;
  }

  lemma BaseOfJoin(dir: string, elem: string)
    requires elem != "" && '/' !in elem
    ensures GoPath.Base(dir + "/" + elem) == elem
  {
    var p := dir + "/" + elem;
    LastElementOfJoin(dir, elem);
    TrimRightNoop(p, Cutset("/"));
  }

  /** The default alias of `dir/elem` is elem, for a trimmed element other than ".". */
  lemma DefaultImportAliasLastElement(dir: string, elem: string)
    requires elem != "" && elem != "." && '/' !in elem && NoEdgeSpace(elem)
    requires dir == "" || !IsSpace(dir[0])
    ensures DefaultImportAlias(dir + "/" + elem) == elem
  {
    var p := dir + "/" + elem;
    assert p[0] == (if dir == "" then '/' else dir[0]);
    assert p[|p| - 1] == elem[|elem| - 1];
    TrimSpaceNoop(p);
    BaseOfJoin(dir, elem);
    assert elem != "/" by {
      assert elem[0] != '/';
    }
    TrimSpaceNoop(elem);
  }

  // ---------------------------------------------------------------------
  // mergeImportAliases

  /**
   * dst after mergeImportAliases(dst, src) has visited the keys of src in
   * the given order: each entry with a non-blank trimmed alias and target is
   * written under its trimmed alias, later ones overwriting earlier ones.
   */
  function MergeFold(dst: map<string, string>, src: map<string, string>, order: seq<string>): map<string, string>
    requires forall k :: k in order ==> k in src
  {
    if order == [] then dst
    else
      var m := MergeFold(dst, src, order[..|order| - 1]);
      var k := order[|order| - 1];
      var a := TrimSpace(k);
      var t := TrimSpace(src[k]);
      if a != "" && t != "" then m[a := t] else m
  }

  /** The trimmed aliases of the entries of order whose trimmed alias and target are non-blank. */
  function ValidAliases(src: map<string, string>, order: seq<string>): set<string>
    requires forall k :: k in order ==> k in src
  {
    if order == [] then {}
    else
      var k := order[|order| - 1];
      ValidAliases(src, order[..|order| - 1])
      + if TrimSpace(k) != "" && TrimSpace(src[k]) != "" then {TrimSpace(k)} else {}
  }

  /** The trimmed targets written under alias a. */
  function TargetsOf(src: map<string, string>, order: seq<string>, a: string): set<string>
    requires forall k :: k in order ==> k in src
  {
    if order == [] then {}
    else
      var k := order[|order| - 1];
      TargetsOf(src, order[..|order| - 1], a)
      + if TrimSpace(k) == a && a != "" && TrimSpace(src[k]) != "" then {TrimSpace(src[k])} else {}
  }

  /**
   * The merged map holds the aliases of dst and the valid aliases of src;
   * an alias of src carries one of its targets, every other alias its
   * entry of dst.
   */
  lemma {:induction false} MergeFoldSpec(dst: map<string, string>, src: map<string, string>, order: seq<string>)
    requires forall k :: k in order ==> k in src
    ensures var out := MergeFold(dst, src, order);
      && out.Keys == dst.Keys + ValidAliases(src, order)
      && (forall a :: a in out && a !in ValidAliases(src, order) ==> out[a] == dst[a])
      && (forall a :: a in ValidAliases(src, order) ==> out[a] in TargetsOf(src, order, a))
  {
    MergeFoldKeys(dst, src, order);
    MergeFoldUntouched(dst, src, order);
    MergeFoldTargets(dst, src, order);
  }

  lemma {:induction false} MergeFoldKeys(dst: map<string, string>, src: map<string, string>, order: seq<string>)
    requires forall k :: k in order ==> k in src
    ensures MergeFold(dst, src, order).Keys == dst.Keys + ValidAliases(src, order)
    decreases |order|
  {
    if order != [] {
      var init := order[..|order| - 1];
      assert forall k :: k in init ==> k in order;
      MergeFoldKeys(dst, src, init);
    }
  }

  lemma {:induction false} MergeFoldUntouched(dst: map<string, string>, src: map<string, string>, order: seq<string>)
    requires forall k :: k in order ==> k in src
    ensures var out := MergeFold(dst, src, order);
      forall a :: a in dst && a !in ValidAliases(src, order) ==> a in out && out[a] == dst[a]
    decreases |order|
  {
    if order != [] {
      var init := order[..|order| - 1];
      assert forall k :: k in init ==> k in order;
      MergeFoldUntouched(dst, src, init);
      MergeFoldKeys(dst, src, init);
    }
  }

  lemma {:induction false} MergeFoldTargets(dst: map<string, string>, src: map<string, string>, order: seq<string>)
    requires forall k :: k in order ==> k in src
    ensures var out := MergeFold(dst, src, order);
      forall a :: a in ValidAliases(src, order) ==> a in out && out[a] in TargetsOf(src, order, a)
    decreases |order|
  {
    if order != [] {
      var init := order[..|order| - 1];
      assert forall k :: k in init ==> k in order;
      MergeFoldTargets(dst, src, init);
      MergeFoldKeys(dst, src, init);
      MergeFoldKeys(dst, src, order);
    }
  }

  /** A valid alias appears with a target taken from src. */
  lemma {:induction false} TargetsOfOrigin(src: map<string, string>, order: seq<string>, a: string, t: string)
    requires forall k :: k in order ==> k in src
    requires t in TargetsOf(src, order, a)
    ensures a != "" && t != "" && exists k :: k in src && TrimSpace(k) == a && TrimSpace(src[k]) == t
    decreases |order|
  {
    var init := order[..|order| - 1];
    assert forall k :: k in init ==> k in order;
    var k := order[|order| - 1];
    if t !in TargetsOf(src, init, a) {
      assert TrimSpace(k) == a && TrimSpace(src[k]) == t;
    } else {
      TargetsOfOrigin(src, init, a, t);
    }
  }

  /** Every key of src with a non-blank trimmed alias and target contributes its alias. */
  lemma {:induction false} ValidAliasesComplete(src: map<string, string>, order: seq<string>, k: string)
    requires forall j :: j in order ==> j in src
    requires k in order && TrimSpace(k) != "" && TrimSpace(src[k]) != ""
    ensures TrimSpace(k) in ValidAliases(src, order)
    decreases |order|
  {
    var init := order[..|order| - 1];
    assert forall j :: j in init ==> j in order;
    if k != order[|order| - 1] {
      assert order == init + [order[|order| - 1]];
      assert k in init;
      ValidAliasesComplete(src, init, k);
    }
  }

  lemma EmptyOrder(src: map<string, string>, order: seq<string>)
    requires forall k :: k in order ==> k in src
    requires |src| == 0
    ensures order == []
  {
    forall k
      ensures multiset(order)[k] == 0
    {
      assert k !in src;
      assert k !in multiset(order);
    }
    assert multiset(order) == multiset{};
    assert |order| == |multiset(order)|;
  }

  lemma MergeFoldSnoc(dst: map<string, string>, src: map<string, string>, order: seq<string>, i: nat)
    requires forall k :: k in order <==> k in src
    requires i < |order|
    ensures forall k :: k in order[..i] ==> k in src
    ensures forall k :: k in order[..i + 1] ==> k in src
    ensures var m := MergeFold(dst, src, order[..i]);
      var a := TrimSpace(order[i]);
      var t := TrimSpace(src[order[i]]);
      MergeFold(dst, src, order[..i + 1]) == if a != "" && t != "" then m[a := t] else m
  {
    assert forall k :: k in order[..i] ==> k in order;
    assert forall k :: k in order[..i + 1] ==> k in order;
    assert order[..i + 1][..i] == order[..i];
  }

  /** mergeImportAliases, visiting the keys of src in the order Go's map iteration yields. */
  method MergeImportAliases(dst: map<string, string>, src: map<string, string>, order: seq<string>)
    returns (out: map<string, string>)
    requires forall k :: k in order <==> k in src
    ensures out == MergeFold(dst, src, order)
  {
    out := dst;
    if |src| == 0 {
      EmptyOrder(src, order);
      return;
    }
    var i := 0;
    while i < |order|
      invariant 0 <= i <= |order|
      invariant out == MergeFold(dst, src, order[..i])
    {
      MergeFoldSnoc(dst, src, order, i);
      var alias := TrimSpace(order[i]);
      var target := TrimSpace(src[order[i]]);
      if alias != "" && target != "" {
        out := out[alias := target];
      }
      i := i + 1;
    }
    assert order[..i] == order;
  }

  /** Merging into an empty map gives a normalisation of src, as normalizeImportAliases does. */
  lemma MergeIntoEmptyNormalizes(src: map<string, string>, order: seq<string>)
    requires forall k :: k in order <==> k in src
    ensures Parser.AliasesNormalized(src, MergeFold(map[], src, order))
  {
    var out := MergeFold(map[], src, order);
    MergeFoldSpec(map[], src, order);
    forall a | a in out
      ensures a != "" && out[a] != "" && exists k :: k in src && TrimSpace(k) == a && TrimSpace(src[k]) == out[a]
    {
      TargetsOfOrigin(src, order, a, out[a]);
    }
    forall k | k in src && TrimSpace(k) != "" && TrimSpace(src[k]) != ""
      ensures TrimSpace(k) in out
    {
      ValidAliasesComplete(src, order, k);
    }
  }

  /** An alias map whose aliases and targets are trimmed and non-blank. */
  predicate AliasesClean(m: map<string, string>)
  {
    forall k :: k in m ==> k != "" && TrimSpace(k) == k && m[k] != "" && TrimSpace(m[k]) == m[k]
  }

  /** The entries of src whose keys occur in order. */
  function Restrict(src: map<string, string>, order: seq<string>): map<string, string>
  {
    map k | k in src && k in order :: src[k]
  }

  lemma RestrictSnoc(src: map<string, string>, init: seq<string>, k: string)
    requires k in src
    ensures Restrict(src, init + [k]) == Restrict(src, init)[k := src[k]]
  {
    assert forall j :: j in init + [k] <==> j in init || j == k;
  }

  lemma UnionUpdate(a: map<string, string>, b: map<string, string>, k: string, v: string)
    ensures (a + b)[k := v] == a + b[k := v]
  {
  }

  lemma MergeCleanStep(dst: map<string, string>, src: map<string, string>, order: seq<string>)
    requires forall k :: k in order ==> k in src
    requires AliasesClean(src) && order != []
    ensures var k := order[|order| - 1];
      MergeFold(dst, src, order) == MergeFold(dst, src, order[..|order| - 1])[k := src[k]]
  {
    var k := order[|order| - 1];
    var init := order[..|order| - 1];
    assert forall j :: j in init ==> j in order;
    assert k in src;
    assert TrimSpace(k) == k && TrimSpace(src[k]) == src[k];
  }

  lemma RestrictAll(src: map<string, string>, order: seq<string>)
    requires forall k :: k in src ==> k in order
    ensures Restrict(src, order) == src
  {
  }

  lemma {:induction false} MergeCleanPrefix(dst: map<string, string>, src: map<string, string>, order: seq<string>)
    requires forall k :: k in order ==> k in src
    requires AliasesClean(src)
    ensures MergeFold(dst, src, order) == dst + Restrict(src, order)
    decreases |order|
  {
    if order != [] {
      var init := order[..|order| - 1];
      var k := order[|order| - 1];
      assert order == init + [k];
      assert forall j :: j in init ==> j in order;
      MergeCleanPrefix(dst, src, init);
      assert k in src;
      MergeCleanStep(dst, src, order);
      RestrictSnoc(src, init, k);
      UnionUpdate(dst, Restrict(src, init), k, src[k]);
    }
  }

  /** Merging an already normalised alias map is a map union in which src wins, whatever the order. */
  lemma MergeNormalized(dst: map<string, string>, src: map<string, string>, order: seq<string>)
    requires forall k :: k in order <==> k in src
    requires AliasesClean(src)
    ensures MergeFold(dst, src, order) == dst + src
  {
    MergeCleanPrefix(dst, src, order);
    RestrictAll(src, order);
  }

  // ---------------------------------------------------------------------
  // splitAliasByAs

  /**
   * splitAliasByAs: the trimmed text before and after the last of the
   * non-overlapping " as " pieces strings.Split finds scanning from the left.
   */
  function SplitAliasByAs(raw: string): (r: (string, string))
    ensures NoEdgeSpace(r.0) && NoEdgeSpace(r.1)
  {
    var s := TrimSpace(raw);
    if s == "" then ("", "")
    else
      var parts := Split(s, " as ");
      if |parts| == 1 then (TrimSpace(parts[0]), "")
      else (TrimSpace(Join(parts[..|parts| - 1], " as ")), TrimSpace(parts[|parts| - 1]))
  }

  /** Without " as " the whole trimmed text is the base and there is no alias. */
  lemma SplitAliasByAsNone(raw: string)
    requires !Contains(TrimSpace(raw), " as ")
    ensures SplitAliasByAs(raw) == (TrimSpace(raw), "")
  {
    TrimSpaceIdempotent(raw);
  }

  /**
   * With " as ", the text splits at its last non-overlapping " as ": the alias is the
   * trimmed text after it, which holds no " as ", and the base the trimmed
   * text before it.
   */
  lemma SplitAliasByAsLast(raw: string) returns (pre: string, post: string)
    requires Contains(TrimSpace(raw), " as ")
    ensures TrimSpace(raw) == pre + " as " + post && !Contains(post, " as ")
    ensures SplitAliasByAs(raw) == (TrimSpace(pre), TrimSpace(post))
  {
    var s := TrimSpace(raw);
    var parts := Split(s, " as ");
    SplitAtLast(s, " as ");
    pre := Join(parts[..|parts| - 1], " as ");
    post := parts[|parts| - 1];
  }

  // ---------------------------------------------------------------------
  // dedupeCallSites (pkg/languages/common.go)

  /** The pkg copy orders call sites by line, then qualifier, name and raw text. */
  function DedupeOrder(c: CallSite): seq<KeyPart> {
    [IntKey(c.Line), StrKey(c.Qualifier), StrKey(c.Name), StrKey(c.Raw)]
  }

  /** What dedupeCallSites returns. */
  function DedupedCallSites(calls: seq<CallSite>): seq<CallSite> {
    SortByKey(DistinctBy(Parser.TrimmedCalls(calls), Parser.CallKey), DedupeOrder)
  }

  /** dedupeCallSites keeps the same call sites as normalizeCallSites, ordered by (line, qualifier, name, raw). */
  lemma DedupedCallSitesSpec(calls: seq<CallSite>)
    ensures multiset(DedupedCallSites(calls)) == multiset(Parser.NormalizedCallSites(calls))
    ensures var r := DedupedCallSites(calls);
      forall i, j :: 0 <= i < j < |r| ==> KeyLe(DedupeOrder(r[i]), DedupeOrder(r[j]))
  {
    SortByKeySorted(DistinctBy(Parser.TrimmedCalls(calls), Parser.CallKey), DedupeOrder);
  }

  /** dedupeCallSites */
  /** acc and seen are what the de-duplication loop holds after the first i call sites. */
  ghost predicate DedupedUpTo(calls: seq<CallSite>, i: nat, acc: seq<CallSite>, seen: set<(string, string, string, int, int)>)
    requires i <= |calls|
  {
    && acc == DistinctBy(Parser.TrimmedCalls(calls[..i]), Parser.CallKey)
    && (forall k :: k in seen <==> k in Keys(acc, Parser.CallKey))
  }

  /** A named call site with a new key is kept, and its key joins the seen set. */
  lemma DedupeKeep(calls: seq<CallSite>, i: nat, acc: seq<CallSite>, seen: set<(string, string, string, int, int)>)
    requires i < |calls| && DedupedUpTo(calls, i, acc, seen)
    requires Parser.TrimCall(calls[i]).Name != "" && Parser.CallKey(Parser.TrimCall(calls[i])) !in seen
    ensures DedupedUpTo(calls, i + 1, acc + [Parser.TrimCall(calls[i])], seen + {Parser.CallKey(Parser.TrimCall(calls[i]))})
  {
    Parser.NormalizeCallSitesStep(calls, i);
    KeysSnoc(acc, Parser.TrimCall(calls[i]), Parser.CallKey);
  }

  /** A nameless call site, or one whose key was seen, is dropped. */
  lemma DedupeSkip(calls: seq<CallSite>, i: nat, acc: seq<CallSite>, seen: set<(string, string, string, int, int)>)
    requires i < |calls| && DedupedUpTo(calls, i, acc, seen)
    requires Parser.TrimCall(calls[i]).Name == "" || Parser.CallKey(Parser.TrimCall(calls[i])) in seen
    ensures DedupedUpTo(calls, i + 1, acc, seen)
  {
    Parser.NormalizeCallSitesStep(calls, i);
  }

  lemma DedupeDone(calls: seq<CallSite>, acc: seq<CallSite>, seen: set<(string, string, string, int, int)>)
    requires DedupedUpTo(calls, |calls|, acc, seen)
    ensures SortByKey(acc, DedupeOrder) == DedupedCallSites(calls)
  {
    assert calls[..|calls|] == calls;
  }

  method DedupeCallSites(calls: seq<CallSite>) returns (out: seq<CallSite>)
    ensures out == DedupedCallSites(calls)
  {
    if |calls| == 0 {
      return [];
    }
    var seen: set<(string, string, string, int, int)> := {};
    var acc: seq<CallSite> := [];
    var i := 0;
    assert calls[..i] == [];
    while i < |calls|
      invariant 0 <= i <= |calls|
      invariant DedupedUpTo(calls, i, acc, seen)
    {
      var call := Parser.TrimCall(calls[i]);
      if call.Name != "" && Parser.CallKey(call) !in seen {
        DedupeKeep(calls, i, acc, seen);
        seen := seen + {Parser.CallKey(call)};
        acc := acc + [call];
      } else {
        DedupeSkip(calls, i, acc, seen);
      }
      i := i + 1;
    }
    DedupeDone(calls, acc, seen);
    out := SortByKey(acc, DedupeOrder);
  }

  /** The key as written: name, qualifier, receiver, line and arity joined with '|'. */
  function AsWrittenDedupeKey(c: CallSite): string {
    Join([c.Name, c.Qualifier, c.Receiver, GoStrconv.Itoa(c.Line), GoStrconv.Itoa(c.Arity)], "|")
  }

  /** As written, two call sites that differ only in where a '|' falls share a key. */
  lemma AsWrittenDedupeKeyCollision(name: string, q: string, r: string, arity: int, line: int)
    ensures var c1 := CallSite(name, q + "|", r, arity, line, "");
            var c2 := CallSite(name, q, "|" + r, arity, line, "");
      AsWrittenDedupeKey(c1) == AsWrittenDedupeKey(c2) && Parser.CallKey(c1) != Parser.CallKey(c2)
  {
    var c1 := CallSite(name, q + "|", r, arity, line, "");
    var c2 := CallSite(name, q, "|" + r, arity, line, "");
    var t := Join([GoStrconv.Itoa(line), GoStrconv.Itoa(arity)], "|");
    Parser.JoinOfFive(name, q + "|", r, GoStrconv.Itoa(line), GoStrconv.Itoa(arity));
    Parser.JoinOfFive(name, q, "|" + r, GoStrconv.Itoa(line), GoStrconv.Itoa(arity));
    assert AsWrittenDedupeKey(c1) == name + "|" + (q + "|" + "|" + (r + "|" + t));
    assert AsWrittenDedupeKey(c2) == name + "|" + (q + "|" + ("|" + r + "|" + t));
    assert c1.Qualifier != c2.Qualifier by {
      assert |c1.Qualifier| != |c2.Qualifier|;
    }
  }

  /** As written, dedupeCallSites drops the second of two such call sites; keyed by the fields, both are kept. */
  lemma AsWrittenDedupeMerges(c1: CallSite, c2: CallSite)
    requires AsWrittenDedupeKey(c1) == AsWrittenDedupeKey(c2) && Parser.CallKey(c1) != Parser.CallKey(c2)
    ensures DistinctBy([c1, c2], AsWrittenDedupeKey) == [c1]
    ensures DistinctBy([c1, c2], Parser.CallKey) == [c1, c2]
  {
    DistinctByPair(c1, c2, AsWrittenDedupeKey);
    DistinctByPair(c1, c2, Parser.CallKey);
  }
}
