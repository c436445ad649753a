/**
 * ImpactedWithReasons of internal/fileutil/state_helpers.go: the files an
 * update must regenerate, each with the reasons it is impacted. A file is
 * impacted when it changed or was deleted, when it depends, directly or
 * not, on such a file, or when one of its calls names a symbol defined in
 * a changed file.
 */
module FileutilImpact {
  import opened Wrappers
  import opened Seqs
  import opened Sorting
  import opened ParserTypes
  import St = State

  const ChangedReason: string := "changed"
  const DeletedReason: string := "deleted"

  function DependsReason(file: string): string {
    "depends on " + file
  }

  function CallsReason(name: string): string {
    "calls changed symbol " + name
  }

  // ---------------------------------------------------------------------
  // Reason lists

  /** appendReason: the reason is added at the end unless the list already holds it. */
  method AppendReason(existing: seq<string>, reason: string) returns (r: seq<string>)
    ensures forall s :: s in r <==> s in existing || s == reason
    ensures NoDups(existing) ==> NoDups(r)
    ensures reason in existing ==> r == existing
    ensures |existing| <= |r| && r[..|existing|] == existing
  {
    for i := 0 to |existing|
      invariant reason !in existing[..i]
    {
      if existing[i] == reason {
        return existing;
      }
      assert existing[..i + 1] == existing[..i] + [existing[i]];
    }
    assert existing[..|existing|] == existing;
    r := existing + [reason];
  }

  /** The reasons recorded for f; a missing entry reads as the empty list. */
  function ReasonsOf(reasons: map<string, seq<string>>, f: string): seq<string> {
    if f in reasons then reasons[f] else []
  }

  ghost predicate HasReason(reasons: map<string, seq<string>>, f: string, s: string) {
    f in reasons && s in reasons[f]
  }

  ghost predicate ListsDistinct(reasons: map<string, seq<string>>) {
    forall f :: f in reasons ==> NoDups(reasons[f])
  }

  /** `reasons[f] = appendReason(reasons[f], reason)` */
  method AddReason(reasons0: map<string, seq<string>>, f: string, reason: string) returns (reasons: map<string, seq<string>>)
    requires ListsDistinct(reasons0)
    ensures ListsDistinct(reasons)
    ensures reasons.Keys == reasons0.Keys + {f}
    ensures forall g, s :: HasReason(reasons, g, s) <==> HasReason(reasons0, g, s) || (g == f && s == reason)
  {
    var list := AppendReason(ReasonsOf(reasons0, f), reason);
    reasons := reasons0[f := list];
  }

  // ---------------------------------------------------------------------
  // The specification

  /** The reasons a changed or deleted file is given first. */
  predicate SeedReason(changed: seq<string>, deleted: seq<string>, f: string, s: string) {
    (s == ChangedReason && f in changed) || (s == DeletedReason && f in deleted)
  }

  /** f depends on a file of done, and s names that file. */
  ghost predicate DependsReasonFrom(files: St.Files, done: set<string>, f: string, s: string) {
    exists x :: x in done && St.DependsOn(files, f, x) && s == DependsReason(x)
  }

  /** The names of the symbols, without the empty name. */
  function SymbolNames(syms: seq<Symbol>): set<string> {
    if syms == [] then {}
    else
      var last := syms[|syms| - 1];
      SymbolNames(syms[..|syms| - 1]) + (if last.Name != "" then {last.Name} else {})
  }

  /** The names of the symbols of the changed files that the state tracks. */
  function ChangedNames(files: St.Files, changed: seq<string>): set<string> {
    if changed == [] then {}
    else
      var last := changed[|changed| - 1];
      ChangedNames(files, changed[..|changed| - 1]) + (if last in files then SymbolNames(files[last].Symbols) else {})
  }

  /** The name of the first call, in order, whose name is in names. */
  function FirstCall(calls: seq<CallSite>, names: set<string>): Option<string> {
    if calls == [] then None
    else if calls[0].Name in names then Some(calls[0].Name)
    else FirstCall(calls[1..], names)
  }

  /**
   * The matched name of ImpactedWithReasons: the first symbol, in order,
   * whose first matching call has a non-empty name.
   */
  function FirstMatch(syms: seq<Symbol>, names: set<string>): Option<string> {
    if syms == [] then None
    else
      var m := FirstCall(syms[0].Calls, names);
      if m.Some? && m.value != "" then m else FirstMatch(syms[1..], names)
  }

  /** f is tracked, not otherwise impacted, and calls a symbol name of a changed file. */
  ghost predicate CalledIn(files: St.Files, names: set<string>, seen: set<string>, f: string) {
    f in files && f !in seen && names != {} && FirstMatch(files[f].Symbols, names).Some?
  }

  /** A file ImpactedWithReasons reports. */
  ghost predicate Impacted(files: St.Files, changed: seq<string>, deleted: seq<string>, f: string) {
    || St.Reaches(files, changed + deleted, f)
    || CalledIn(files, ChangedNames(files, changed), ReachedSet(files, changed + deleted), f)
  }

  /** The files reached from the seeds, within the seeds and the tracked files. */
  ghost function ReachedSet(files: St.Files, seeds: seq<string>): set<string> {
    set f | f in (set x | x in seeds) + files.Keys && St.Reaches(files, seeds, f)
  }

  /** A reason ImpactedWithReasons reports for f. */
  ghost predicate ReasonFor(files: St.Files, changed: seq<string>, deleted: seq<string>, f: string, s: string) {
    var reached := ReachedSet(files, changed + deleted);
    var names := ChangedNames(files, changed);
    || SeedReason(changed, deleted, f, s)
    || DependsReasonFrom(files, reached, f, s)
    || (CalledIn(files, names, reached, f) && s == CallsReason(FirstMatch(files[f].Symbols, names).value))
  }

  /** A reached file is a seed or a tracked file. */
  lemma ReachedSetMembers(files: St.Files, seeds: seq<string>, f: string)
    ensures f in ReachedSet(files, seeds) <==> St.Reaches(files, seeds, f)
  {
    if St.Reaches(files, seeds, f) {
      var c :| c != [] && c[0] in seeds && c[|c| - 1] == f && St.Chain(files, c);
      if |c| > 1 {
        assert St.DependsOn(files, c[|c| - 1], c[|c| - 2]);
      }
    }
  }

  // ---------------------------------------------------------------------
  // The seeds

  /**
   * The seed loops: every changed file is queued (a repeated one again),
   * a deleted file only when not yet seen, and each gets its reason.
   */
  method SeedQueue(changed: seq<string>, deleted: seq<string>)
      returns (seen: set<string>, queue: seq<string>, reasons: map<string, seq<string>>)
    ensures forall x :: x in seen <==> x in changed || x in deleted
    ensures forall x :: x in queue <==> x in seen
    ensures reasons.Keys == seen && ListsDistinct(reasons)
    ensures forall f, s :: HasReason(reasons, f, s) <==> SeedReason(changed, deleted, f, s)
  {
    seen, queue, reasons := {}, [], map[];
    for i := 0 to |changed|
      invariant forall x :: x in seen <==> x in changed[..i]
      invariant forall x :: x in queue <==> x in seen
      invariant reasons.Keys == seen && ListsDistinct(reasons)
      invariant forall f, s :: HasReason(reasons, f, s) <==> s == ChangedReason && f in changed[..i]
    {
      var file := changed[i];
      assert changed[..i + 1] == changed[..i] + [file];
      queue := queue + [file];
      seen := seen + {file};
      reasons := AddReason(reasons, file, ChangedReason);
    }
    assert changed[..|changed|] == changed;
    for j := 0 to |deleted|
      invariant forall x :: x in seen <==> x in changed || x in deleted[..j]
      invariant forall x :: x in queue <==> x in seen
      invariant reasons.Keys == seen && ListsDistinct(reasons)
      invariant forall f, s :: HasReason(reasons, f, s) <==> SeedReason(changed, deleted[..j], f, s)
    {
      var file := deleted[j];
      assert deleted[..j + 1] == deleted[..j] + [file];
      if file !in seen {
        queue := queue + [file];
      }
      seen := seen + {file};
      reasons := AddReason(reasons, file, DeletedReason);
    }
    assert deleted[..|deleted|] == deleted;
  }

  // ---------------------------------------------------------------------
  // The queue loop

  /** Sorting every list of the reverse map keeps what it lists. */
  method SortReverse(reverse: map<string, seq<string>>, ghost files: St.Files) returns (r: map<string, seq<string>>)
    requires St.ReverseOf(reverse, files)
    ensures St.ReverseOf(r, files)
    ensures forall d :: d in r ==> SortedBy(r[d], Strs.LessEq)
  {
    r := reverse;
    var pending := r.Keys;
    while pending != {}
      invariant pending <= r.Keys == reverse.Keys
      invariant forall d :: d in pending ==> r[d] == reverse[d]
      invariant forall d :: d in r && d !in pending ==> r[d] == SortStrings(reverse[d])
      decreases |pending|
    {
      var d :| d in pending;
      r := r[d := SortStrings(r[d])];
      pending := pending - {d};
    }
    forall d, g
      ensures St.Lists(r, d, g) <==> St.Lists(reverse, d, g)
    {
      if d in r {
        SortStringsSorted(reverse[d]);
        MultisetMembers(r[d], reverse[d]);
      }
    }
    forall d | d in r
      ensures SortedBy(r[d], Strs.LessEq)
    {
      SortStringsSorted(reverse[d]);
    }
  }

  /** The reasons after the files of done have been dequeued. */
  ghost predicate ReasonsAfter(reasons: map<string, seq<string>>, files: St.Files, changed: seq<string>, deleted: seq<string>, done: set<string>) {
    forall f, s :: HasReason(reasons, f, s) <==> SeedReason(changed, deleted, f, s) || DependsReasonFrom(files, done, f, s)
  }

  /** reasons is reasons0 with the "depends on file" reason added for each of dependers. */
  ghost predicate DependsAdded(reasons: map<string, seq<string>>, reasons0: map<string, seq<string>>, dependers: seq<string>, file: string) {
    && ListsDistinct(reasons)
    && (forall x :: x in reasons <==> x in reasons0 || x in dependers)
    && (forall f, s :: HasReason(reasons, f, s) <==> HasReason(reasons0, f, s) || (f in dependers && s == DependsReason(file)))
  }

  lemma DependsAddedStep(reasons1: map<string, seq<string>>, reasons: map<string, seq<string>>, reasons0: map<string, seq<string>>,
                         dependers: seq<string>, j: nat, file: string)
    requires j < |dependers| && DependsAdded(reasons, reasons0, dependers[..j], file)
    requires ListsDistinct(reasons1) && reasons1.Keys == reasons.Keys + {dependers[j]}
    requires forall g, s :: HasReason(reasons1, g, s) <==> HasReason(reasons, g, s) || (g == dependers[j] && s == DependsReason(file))
    ensures DependsAdded(reasons1, reasons0, dependers[..j + 1], file)
  {
    assert dependers[..j + 1] == dependers[..j] + [dependers[j]];
  }

  /** The reasons part of the body of the queue loop. */
  method AddDependsReasons(dependers: seq<string>, file: string, reasons0: map<string, seq<string>>)
      returns (reasons: map<string, seq<string>>)
    requires ListsDistinct(reasons0)
    ensures DependsAdded(reasons, reasons0, dependers, file)
  {
    reasons := reasons0;
    for j := 0 to |dependers|
      invariant DependsAdded(reasons, reasons0, dependers[..j], file)
    {
      var r := AddReason(reasons, dependers[j], DependsReason(file));
      DependsAddedStep(r, reasons, reasons0, dependers, j, file);
      reasons := r;
    }
    assert dependers[..|dependers|] == dependers;
  }

  /**
   * The body of the queue loop for one dequeued file: every depender gets
   * the reason, and those not yet seen are marked and queued. The reasons
   * and the marking are independent, so they are proved apart.
   */
  method MarkWithReasons(dependers: seq<string>, file: string, ghost universe: set<string>,
                         seen0: set<string>, queue0: seq<string>, reasons0: map<string, seq<string>>)
      returns (seen: set<string>, queue: seq<string>, reasons: map<string, seq<string>>)
    requires seen0 <= universe && (forall g :: g in dependers ==> g in universe)
    requires ListsDistinct(reasons0)
    ensures seen <= universe
    ensures forall x :: x in seen <==> x in seen0 || x in dependers
    ensures forall x :: x in queue <==> x in queue0 || (x in dependers && x !in seen0)
    ensures |universe - seen| + |queue| == |universe - seen0| + |queue0|
    ensures DependsAdded(reasons, reasons0, dependers, file)
  {
    reasons := AddDependsReasons(dependers, file, reasons0);
    seen, queue := St.MarkAll(dependers, universe, seen0, queue0);
  }

  lemma ReasonsStep(reasons0: map<string, seq<string>>, reasons: map<string, seq<string>>, reverse: map<string, seq<string>>,
                    files: St.Files, changed: seq<string>, deleted: seq<string>, done: set<string>, file: string)
    requires St.ReverseOf(reverse, files) && ReasonsAfter(reasons0, files, changed, deleted, done)
    requires forall f, s :: HasReason(reasons, f, s) <==> HasReason(reasons0, f, s) || (St.Lists(reverse, file, f) && s == DependsReason(file))
    ensures ReasonsAfter(reasons, files, changed, deleted, done + {file})
  {
    forall f, s
      ensures HasReason(reasons, f, s) <==> SeedReason(changed, deleted, f, s) || DependsReasonFrom(files, done + {file}, f, s)
    {
      if St.Lists(reverse, file, f) && s == DependsReason(file) {
        assert St.DependsOn(files, f, file);
      }
      if DependsReasonFrom(files, done + {file}, f, s) {
        var x :| x in done + {file} && St.DependsOn(files, f, x) && s == DependsReason(x);
        if x == file {
          assert St.Lists(reverse, file, f);
        } else {
          assert DependsReasonFrom(files, done, f, s);
        }
      }
    }
  }

  /** The state of the queue loop besides the frontier. */
  ghost predicate QueueState(files: St.Files, changed: seq<string>, deleted: seq<string>, universe: set<string>,
                             seen: set<string>, queue: seq<string>, done: set<string>, reasons: map<string, seq<string>>) {
    && seen <= universe && done <= seen
    && (forall x :: x in seen && x !in queue ==> x in done)
    && reasons.Keys == seen && ListsDistinct(reasons)
    && ReasonsAfter(reasons, files, changed, deleted, done)
  }

  lemma QueueStateStep(files: St.Files, reverse: map<string, seq<string>>, changed: seq<string>, deleted: seq<string>, universe: set<string>,
                       seen0: set<string>, queue0: seq<string>, done: set<string>, reasons0: map<string, seq<string>>,
                       seen: set<string>, queue: seq<string>, reasons: map<string, seq<string>>)
    requires St.ReverseOf(reverse, files) && |queue0| > 0
    requires QueueState(files, changed, deleted, universe, seen0, queue0, done, reasons0)
    requires queue0[0] in seen0 && seen <= universe
    requires forall x :: x in seen <==> x in seen0 || St.Lists(reverse, queue0[0], x)
    requires forall x :: x in queue <==> x in queue0[1..] || (St.Lists(reverse, queue0[0], x) && x !in seen0)
    requires ListsDistinct(reasons)
    requires forall x :: x in reasons <==> x in reasons0 || St.Lists(reverse, queue0[0], x)
    requires forall f, s :: HasReason(reasons, f, s) <==> HasReason(reasons0, f, s) || (St.Lists(reverse, queue0[0], f) && s == DependsReason(queue0[0]))
    ensures QueueState(files, changed, deleted, universe, seen, queue, done + {queue0[0]}, reasons)
  {
    ReasonsStep(reasons0, reasons, reverse, files, changed, deleted, done, queue0[0]);
    forall x | x in seen && x !in queue
      ensures x in done + {queue0[0]}
    {
      if x != queue0[0] {
        assert x !in queue0;
      }
    }
  }

  /** One turn of the queue loop. */
  method ProcessOne(files: St.Files, reverse: map<string, seq<string>>, changed: seq<string>, deleted: seq<string>,
                    ghost universe: set<string>, ghost done: set<string>,
                    seen0: set<string>, queue0: seq<string>, reasons0: map<string, seq<string>>)
      returns (seen: set<string>, queue: seq<string>, reasons: map<string, seq<string>>)
    requires St.ReverseOf(reverse, files) && files.Keys <= universe && |queue0| > 0
    requires St.Frontier(files, changed + deleted, seen0, queue0, {})
    requires QueueState(files, changed, deleted, universe, seen0, queue0, done, reasons0)
    ensures St.Frontier(files, changed + deleted, seen, queue, {})
    ensures QueueState(files, changed, deleted, universe, seen, queue, done + {queue0[0]}, reasons)
    ensures |universe - seen| + |queue| < |universe - seen0| + |queue0|
  {
    var file := queue0[0];
    St.Dequeue(files, changed + deleted, seen0, queue0);
    var dependers := if file in reverse then reverse[file] else [];
    St.DependersTracked(files, reverse, file);
    seen, queue, reasons := MarkWithReasons(dependers, file, universe, seen0, queue0[1..], reasons0);
    St.MarkDone(files, reverse, changed + deleted, file, seen0, queue0[1..], seen, queue);
    QueueStateStep(files, reverse, changed, deleted, universe, seen0, queue0, done, reasons0, seen, queue, reasons);
  }

  /**
   * The queue loop of ImpactedWithReasons: ends with exactly the reached
   * files seen, and each file's reasons are its seed reasons and one
   * "depends on" reason per reached file it depends on.
   */
  method PropagateReasons(files: St.Files, reverse: map<string, seq<string>>, changed: seq<string>, deleted: seq<string>,
                          seen0: set<string>, queue0: seq<string>, reasons0: map<string, seq<string>>)
      returns (seen: set<string>, reasons: map<string, seq<string>>)
    requires St.ReverseOf(reverse, files)
    requires St.Frontier(files, changed + deleted, seen0, queue0, {})
    requires QueueState(files, changed, deleted, seen0 + files.Keys, seen0, queue0, {}, reasons0)
    ensures forall f :: f in seen <==> St.Reaches(files, changed + deleted, f)
    ensures reasons.Keys == seen && ListsDistinct(reasons)
    ensures ReasonsAfter(reasons, files, changed, deleted, seen)
  {
    ghost var universe := seen0 + files.Keys;
    ghost var done: set<string> := {};
    seen, reasons := seen0, reasons0;
    var queue := queue0;
    while |queue| > 0
      invariant St.Frontier(files, changed + deleted, seen, queue, {})
      invariant QueueState(files, changed, deleted, universe, seen, queue, done, reasons)
      decreases |universe - seen| + |queue|
    {
      ghost var file := queue[0];
      seen, queue, reasons := ProcessOne(files, reverse, changed, deleted, universe, done, seen, queue, reasons);
      done := done + {file};
    }
    QueueDone(files, changed, deleted, universe, seen, done, reasons);
  }

  lemma QueueDone(files: St.Files, changed: seq<string>, deleted: seq<string>, universe: set<string>,
                  seen: set<string>, done: set<string>, reasons: map<string, seq<string>>)
    requires St.Frontier(files, changed + deleted, seen, [], {})
    requires QueueState(files, changed, deleted, universe, seen, [], done, reasons)
    ensures forall f :: f in seen <==> St.Reaches(files, changed + deleted, f)
    ensures reasons.Keys == seen && ListsDistinct(reasons)
    ensures ReasonsAfter(reasons, files, changed, deleted, seen)
  {
    St.FrontierDone(files, changed + deleted, seen);
    assert done == seen;
  }

  // ---------------------------------------------------------------------
  // Calls into changed symbols

  lemma {:induction false} SymbolNamesSpec(syms: seq<Symbol>, n: string)
    ensures n in SymbolNames(syms) <==> n != "" && exists k :: 0 <= k < |syms| && syms[k].Name == n
    decreases |syms|
  {
    if syms != [] {
      var init := syms[..|syms| - 1];
      SymbolNamesSpec(init, n);
      if exists k :: 0 <= k < |syms| && syms[k].Name == n {
        var k :| 0 <= k < |syms| && syms[k].Name == n;
        if k < |init| {
          assert init[k] == syms[k];
        }
      }
    }
  }

  /** The changed names are the non-empty names of the symbols of the tracked changed files. */
  lemma {:induction false} ChangedNamesSpec(files: St.Files, changed: seq<string>, n: string)
    ensures n in ChangedNames(files, changed) <==> exists f :: f in changed && f in files && n in SymbolNames(files[f].Symbols)
    decreases |changed|
  {
    if changed != [] {
      var init := changed[..|changed| - 1];
      ChangedNamesSpec(files, init, n);
      if exists f :: f in changed && f in files && n in SymbolNames(files[f].Symbols) {
        var f :| f in changed && f in files && n in SymbolNames(files[f].Symbols);
        if f != changed[|changed| - 1] {
          assert f in init;
        }
      }
    }
  }

  /** The loops that gather the symbol names of the changed files. */
  method CollectChangedNames(files: St.Files, changed: seq<string>) returns (names: set<string>)
    ensures names == ChangedNames(files, changed)
    ensures "" !in names
  {
    names := {};
    for i := 0 to |changed|
      invariant names == ChangedNames(files, changed[..i])
    {
      var file := changed[i];
      assert changed[..i + 1][..i] == changed[..i];
      if file !in files {
        continue;
      }
      var syms := files[file].Symbols;
      ghost var before := names;
      for k := 0 to |syms|
        invariant names == before + SymbolNames(syms[..k])
      {
        assert syms[..k + 1][..k] == syms[..k];
        if syms[k].Name != "" {
          names := names + {syms[k].Name};
        }
      }
      assert syms[..|syms|] == syms;
    }
    assert changed[..|changed|] == changed;
    if "" in names {
      ChangedNamesSpec(files, changed, "");
      var f :| f in changed && f in files && "" in SymbolNames(files[f].Symbols);
      SymbolNamesSpec(files[f].Symbols, "");
    }
  }

  /** FirstCall finds the first call, in order, whose name is in names. */
  lemma {:induction false} FirstCallSpec(calls: seq<CallSite>, names: set<string>)
    ensures FirstCall(calls, names).None? <==> forall k :: 0 <= k < |calls| ==> calls[k].Name !in names
    ensures FirstCall(calls, names).Some? ==> exists k :: (0 <= k < |calls| && calls[k].Name == FirstCall(calls, names).value
      && calls[k].Name in names && forall j :: 0 <= j < k ==> calls[j].Name !in names)
    decreases |calls|
  {
    if calls != [] && calls[0].Name !in names {
      FirstCallSpec(calls[1..], names);
      if FirstCall(calls, names).Some? {
        var k :| 0 <= k < |calls[1..]| && calls[1..][k].Name == FirstCall(calls, names).value
          && calls[1..][k].Name in names && forall j :: 0 <= j < k ==> calls[1..][j].Name !in names;
        assert calls[k + 1].Name == FirstCall(calls, names).value;
      }
    }
  }

  /** A matched name is a non-empty name in names that some call of some symbol has. */
  lemma {:induction false} FirstMatchSpec(syms: seq<Symbol>, names: set<string>)
    ensures FirstMatch(syms, names).Some? ==> FirstMatch(syms, names).value in names && FirstMatch(syms, names).value != ""
    ensures FirstMatch(syms, names).Some? ==> exists i, k :: 0 <= i < |syms| && 0 <= k < |syms[i].Calls| && syms[i].Calls[k].Name == FirstMatch(syms, names).value
    ensures "" !in names && FirstMatch(syms, names).None? ==>
      forall i, k :: 0 <= i < |syms| && 0 <= k < |syms[i].Calls| ==> syms[i].Calls[k].Name !in names
    decreases |syms|
  {
    if syms != [] {
      FirstCallSpec(syms[0].Calls, names);
      FirstMatchSpec(syms[1..], names);
      var m := FirstCall(syms[0].Calls, names);
      if m.Some? && m.value != "" {
        var k :| 0 <= k < |syms[0].Calls| && syms[0].Calls[k].Name == m.value;
      } else if FirstMatch(syms, names).Some? {
        var i, k :| 0 <= i < |syms[1..]| && 0 <= k < |syms[1..][i].Calls| && syms[1..][i].Calls[k].Name == FirstMatch(syms, names).value;
        assert syms[i + 1].Calls[k].Name == FirstMatch(syms, names).value;
      } else if "" !in names {
        forall i, k | 0 <= i < |syms| && 0 <= k < |syms[i].Calls|
          ensures syms[i].Calls[k].Name !in names
        {
          if i > 0 {
            assert syms[i] == syms[1..][i - 1];
          }
        }
      }
    }
  }

  /** The nested search loops of ImpactedWithReasons for one file's matched name. */
  method MatchedName(syms: seq<Symbol>, names: set<string>) returns (matched: string)
    ensures matched == if FirstMatch(syms, names).Some? then FirstMatch(syms, names).value else ""
  {
    matched := "";
    var i := 0;
    while i < |syms|
      invariant 0 <= i <= |syms|
      invariant matched == "" && FirstMatch(syms, names) == FirstMatch(syms[i..], names)
    {
      var calls := syms[i].Calls;
      var j := 0;
      while j < |calls|
        invariant 0 <= j <= |calls|
        invariant matched == "" && FirstCall(calls, names) == FirstCall(calls[j..], names)
      {
        if calls[j].Name in names {
          matched := calls[j].Name;
          break;
        }
        assert calls[j..][1..] == calls[j + 1..];
        j := j + 1;
      }
      assert matched != "" ==> FirstCall(calls, names) == Some(matched);
      assert matched == "" ==> FirstCall(calls, names).None? || FirstCall(calls, names) == Some("");
      if matched != "" {
        break;
      }
      assert syms[i..][1..] == syms[i + 1..];
      i := i + 1;
    }
  }

  /** The callers added so far: the processed files that CalledIn holds for. */
  ghost predicate CallersAdded(files: St.Files, names: set<string>, seen0: set<string>, reasons0: map<string, seq<string>>,
                               seen: set<string>, reasons: map<string, seq<string>>, processed: set<string>) {
    && (forall x :: x in seen <==> x in seen0 || (x in processed && CalledIn(files, names, seen0, x)))
    && reasons.Keys == seen && ListsDistinct(reasons)
    && (forall f, s :: HasReason(reasons, f, s) <==> (HasReason(reasons0, f, s) ||
          (f in processed && CalledIn(files, names, seen0, f) && s == CallsReason(FirstMatch(files[f].Symbols, names).value))))
  }

  lemma CallersStep(files: St.Files, names: set<string>, seen0: set<string>, reasons0: map<string, seq<string>>,
                    seen: set<string>, reasons: map<string, seq<string>>, processed: set<string>, file: string,
                    seen1: set<string>, reasons1: map<string, seq<string>>)
    requires CallersAdded(files, names, seen0, reasons0, seen, reasons, processed) && file in files && file !in processed
    requires CalledIn(files, names, seen0, file) ==>
      && seen1 == seen + {file} && ListsDistinct(reasons1) && reasons1.Keys == reasons.Keys + {file}
      && (forall g, s :: HasReason(reasons1, g, s) <==> HasReason(reasons, g, s) || (g == file && s == CallsReason(FirstMatch(files[file].Symbols, names).value)))
    requires !CalledIn(files, names, seen0, file) ==> seen1 == seen && reasons1 == reasons
    ensures CallersAdded(files, names, seen0, reasons0, seen1, reasons1, processed + {file})
  {
  }

  /** One turn of the loop over the tracked files. */
  method VisitFile(files: St.Files, names: set<string>, seen0: set<string>, reasons0: map<string, seq<string>>,
                   seen: set<string>, reasons: map<string, seq<string>>, ghost processed: set<string>, file: string)
      returns (seen1: set<string>, reasons1: map<string, seq<string>>)
    requires CallersAdded(files, names, seen0, reasons0, seen, reasons, processed)
    requires file in files && file !in processed
    ensures CallersAdded(files, names, seen0, reasons0, seen1, reasons1, processed + {file})
  {
    assert file in seen <==> file in seen0;
    if file in seen || |names| == 0 {
      CallersStep(files, names, seen0, reasons0, seen, reasons, processed, file, seen, reasons);
      return seen, reasons;
    }
    var matchedName := MatchedName(files[file].Symbols, names);
    if matchedName == "" {
      FirstMatchSpec(files[file].Symbols, names);
      CallersStep(files, names, seen0, reasons0, seen, reasons, processed, file, seen, reasons);
      return seen, reasons;
    }
    seen1 := seen + {file};
    reasons1 := AddReason(reasons, file, CallsReason(matchedName));
    CallersStep(files, names, seen0, reasons0, seen, reasons, processed, file, seen1, reasons1);
  }

  /**
   * The loop over the tracked files: a file not yet seen whose matched name
   * is non-empty is marked, with the reason naming the symbol.
   */
  method AddCallers(files: St.Files, names: set<string>, seen0: set<string>, reasons0: map<string, seq<string>>)
      returns (seen: set<string>, reasons: map<string, seq<string>>)
    requires reasons0.Keys == seen0 && ListsDistinct(reasons0)
    ensures CallersAdded(files, names, seen0, reasons0, seen, reasons, files.Keys)
  {
    seen, reasons := seen0, reasons0;
    var rest := files.Keys;
    while rest != {}
      invariant rest <= files.Keys
      invariant CallersAdded(files, names, seen0, reasons0, seen, reasons, files.Keys - rest)
      decreases |rest|
    {
      var file :| file in rest;
      seen, reasons := VisitFile(files, names, seen0, reasons0, seen, reasons, files.Keys - rest, file);
      assert files.Keys - (rest - {file}) == (files.Keys - rest) + {file};
      rest := rest - {file};
    }
  }

  // ---------------------------------------------------------------------
  // The result

  /** The final loop: the seen files sorted, and the reasons of each seen file sorted. */
  method Finish(seen: set<string>, reasons0: map<string, seq<string>>)
      returns (impacted: seq<string>, reasons: map<string, seq<string>>)
    ensures StrictlyAscending(impacted)
    ensures forall x :: x in impacted <==> x in seen
    ensures reasons.Keys == reasons0.Keys
    ensures forall f :: f in reasons ==> reasons[f] == if f in seen then SortStrings(reasons0[f]) else reasons0[f]
  {
    var items: seq<string> := [];
    reasons := reasons0;
    var rest := seen;
    while rest != {}
      invariant rest <= seen
      invariant NoDups(items)
      invariant forall x :: x in items <==> x in seen && x !in rest
      invariant reasons.Keys == reasons0.Keys
      invariant forall f :: f in reasons ==> reasons[f] == if f in seen && f !in rest then SortStrings(reasons0[f]) else reasons0[f]
      decreases |rest|
    {
      var file :| file in rest;
      items := items + [file];
      if file in reasons {
        reasons := reasons[file := SortStrings(reasons[file])];
      }
      rest := rest - {file};
    }
    impacted := SortStrings(items);
    SortStringsAscending(items);
    SortStringsSorted(items);
    MultisetMembers(impacted, items);
  }

  /** The seed state satisfies the invariants of the queue loop. */
  lemma SeedsReady(files: St.Files, changed: seq<string>, deleted: seq<string>,
                   seen: set<string>, queue: seq<string>, reasons: map<string, seq<string>>)
    requires forall x :: x in seen <==> x in changed || x in deleted
    requires forall x :: x in queue <==> x in seen
    requires reasons.Keys == seen && ListsDistinct(reasons)
    requires forall f, s :: HasReason(reasons, f, s) <==> SeedReason(changed, deleted, f, s)
    ensures St.Frontier(files, changed + deleted, seen, queue, {})
    ensures QueueState(files, changed, deleted, seen + files.Keys, seen, queue, {}, reasons)
  {
    var seeds := changed + deleted;
    forall x | x in seen
      ensures St.Reaches(files, seeds, x)
    {
      St.ReachesSeed(files, seeds, x);
    }
  }

  /** The reasons are those of the specification once the callers are added. */
  lemma ResultSpec(files: St.Files, changed: seq<string>, deleted: seq<string>, names: set<string>,
                   seenR: set<string>, reasonsR: map<string, seq<string>>, seen: set<string>, reasons: map<string, seq<string>>)
    requires names == ChangedNames(files, changed)
    requires forall f :: f in seenR <==> St.Reaches(files, changed + deleted, f)
    requires ReasonsAfter(reasonsR, files, changed, deleted, seenR)
    requires CallersAdded(files, names, seenR, reasonsR, seen, reasons, files.Keys)
    ensures forall f :: f in seen <==> Impacted(files, changed, deleted, f)
    ensures forall f, s :: HasReason(reasons, f, s) <==> ReasonFor(files, changed, deleted, f, s)
  {
    forall f
      ensures f in seenR <==> f in ReachedSet(files, changed + deleted)
    {
      ReachedSetMembers(files, changed + deleted, f);
    }
    assert seenR == ReachedSet(files, changed + deleted);
  }

  /**
   * ImpactedWithReasons: the impacted files in ascending order, and for each
   * of them, and no other file, its reasons in ascending order without
   * repeats: "changed", "deleted", "depends on X" for each reached file X it
   * depends on, and, for a tracked file reached by none of these, "calls
   * changed symbol N" for its first call naming a symbol of a changed file.
   */
  method ImpactedWithReasons(st: St.State, changed: seq<string>, deleted: seq<string>)
      returns (impacted: seq<string>, reasons: map<string, seq<string>>)
    ensures StrictlyAscending(impacted)
    ensures forall f :: f in impacted <==> Impacted(st.TrackedFiles(), changed, deleted, f)
    ensures forall f :: f in reasons <==> f in impacted
    ensures forall f :: f in reasons ==> StrictlyAscending(reasons[f])
    ensures forall f, s :: f in reasons ==> (s in reasons[f] <==> ReasonFor(st.TrackedFiles(), changed, deleted, f, s))
  {
    var files := st.TrackedFiles();
    var reverse := St.ReverseDeps(files);
    reverse := SortReverse(reverse, files);
    var seen, queue, seedReasons := SeedQueue(changed, deleted);
    SeedsReady(files, changed, deleted, seen, queue, seedReasons);
    var reached, depReasons := PropagateReasons(files, reverse, changed, deleted, seen, queue, seedReasons);
    var names := CollectChangedNames(files, changed);
    var all, allReasons := AddCallers(files, names, reached, depReasons);
    ResultSpec(files, changed, deleted, names, reached, depReasons, all, allReasons);
    impacted, reasons := Finish(all, allReasons);
    forall f | f in reasons
      ensures StrictlyAscending(reasons[f])
      ensures forall s :: s in reasons[f] <==> s in allReasons[f]
    {
      SortStringsAscending(allReasons[f]);
      SortStringsSorted(allReasons[f]);
      MultisetMembers(reasons[f], allReasons[f]);
    }
  }

  /** A reached file is a seed or depends on a reached file. */
  lemma ReachedHasReason(files: St.Files, changed: seq<string>, deleted: seq<string>, f: string)
    requires St.Reaches(files, changed + deleted, f)
    ensures SeedReason(changed, deleted, f, ChangedReason) || SeedReason(changed, deleted, f, DeletedReason)
      || exists x :: St.Reaches(files, changed + deleted, x) && St.DependsOn(files, f, x)
  {
    var seeds := changed + deleted;
    var c :| c != [] && c[0] in seeds && c[|c| - 1] == f && St.Chain(files, c);
    if |c| > 1 {
      var init := c[..|c| - 1];
      assert St.Chain(files, init);
      assert St.DependsOn(files, f, init[|init| - 1]);
    }
  }

  /** Every impacted file has a reason. */
  lemma EveryImpactedHasReason(files: St.Files, changed: seq<string>, deleted: seq<string>, f: string)
    requires Impacted(files, changed, deleted, f)
    ensures exists s :: ReasonFor(files, changed, deleted, f, s)
  {
    var seeds := changed + deleted;
    if St.Reaches(files, seeds, f) {
      ReachedHasReason(files, changed, deleted, f);
      if SeedReason(changed, deleted, f, ChangedReason) {
        assert ReasonFor(files, changed, deleted, f, ChangedReason);
      } else if SeedReason(changed, deleted, f, DeletedReason) {
        assert ReasonFor(files, changed, deleted, f, DeletedReason);
      } else {
        var x :| St.Reaches(files, seeds, x) && St.DependsOn(files, f, x);
        ReachedSetMembers(files, seeds, x);
        assert DependsReasonFrom(files, ReachedSet(files, seeds), f, DependsReason(x));
        assert ReasonFor(files, changed, deleted, f, DependsReason(x));
      }
    } else {
      var names := ChangedNames(files, changed);
      assert ReasonFor(files, changed, deleted, f, CallsReason(FirstMatch(files[f].Symbols, names).value));
    }
  }
}
