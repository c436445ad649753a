/**
 * The text summaries of internal/cli/summary.go: a list of paths shortened
 * to its first few entries, and the one-line report of an enrich run with
 * the lines that follow it. Printing is left out: the model gives the
 * lines that would be printed.
 */
module CliSummary {
  import opened Wrappers
  import opened Strs
  import opened GoStrconv

  // ---------------------------------------------------------------------
  // SummarizePaths

  const PathSep := ", "
  const MoreOpen := " ... (+"
  const MoreClose := " more)"

  /**
   * SummarizePaths: every path, joined by ", ", when there are at most max
   * of them; otherwise the first max, then how many more there are.
   */
  function SummarizePaths(paths: seq<string>, max: int): string
    requires 0 <= max
  {
    if |paths| <= max then Join(paths, PathSep)
    else Join(paths[..max], PathSep) + MoreOpen + Itoa(|paths| - max) + MoreClose
  }

  /**
   * The number of paths a summary says it left out: the count between the
   * last "(+" and the closing " more)", if the text ends that way.
   */
  function HiddenCount(text: string): Option<int> {
    if !HasSuffix(text, MoreClose) then None
    else
      var i := LastIndex(text, "(");
      if i < 0 || i + 2 > |text| - |MoreClose| || text[i + 1] != '+' then None
      else match Atoi(text[i + 2..|text| - |MoreClose|])
        case Int(n) => Some(n)
        case _ => None
  }

  /** Whatever precedes it, the count a summary writes is read back. */
  lemma HiddenCountOf(shown: string, k: int)
    requires 1 <= k <= MaxInt
    ensures HiddenCount(shown + MoreOpen + Itoa(k) + MoreClose) == Some(k)
  {
    var digits := Itoa(k);
    var tail := "(+" + digits + MoreClose;
    var pre := shown + " ... ";
    var text := pre + tail;
    assert shown + MoreOpen + digits + MoreClose == text;
    CountTail(digits);
    LastIndexCharAfter(pre, tail);
    SliceAfter(pre, tail, 1, 2);
    SliceAfter(pre, tail, 2, |tail| - |MoreClose|);
    SliceAfter(pre, tail, |tail| - |MoreClose|, |tail|);
    AtoiItoa(k);
  }

  /** The part a summary ends with: "(+", the digits, " more)". */
  lemma CountTail(digits: string)
    requires forall j :: 0 <= j < |digits| ==> digits[j] != '('
    ensures var tail := "(+" + digits + MoreClose;
      && tail[0] == '(' && '(' !in tail[1..] && tail[1..2] == "+"
      && tail[2..|tail| - |MoreClose|] == digits && tail[|tail| - |MoreClose|..] == MoreClose
  {
    var tail := "(+" + digits + MoreClose;
    assert tail[1..] == "+" + digits + MoreClose;
  }

  lemma SliceAfter(pre: string, tail: string, a: int, b: int)
    requires 0 <= a <= b <= |tail|
    ensures (pre + tail)[|pre| + a..|pre| + b] == tail[a..b]
  {
  }

  /** The last '(' of a text ending in a part whose only '(' is its first character. */
  lemma LastIndexCharAfter(pre: string, tail: string)
    requires |tail| > 0 && tail[0] == '(' && '(' !in tail[1..]
    ensures LastIndex(pre + tail, "(") == |pre|
  {
    var t := pre + tail;
    LastIndexChar(t, '(');
    assert t[|pre|] == '(';
  }

  /** A text without ')' does not claim any hidden paths. */
  lemma NoHiddenCount(text: string)
    requires ')' !in text
    ensures HiddenCount(text) == None
  {
    if |text| >= |MoreClose| {
      assert text[|text| - 1] in text;
      assert text[|text| - 1] != MoreClose[5];
    }
  }

  /**
   * A summary shows every path it lists in full, names the paths it leaves
   * out by their number, and leaves out exactly the paths past the first
   * max; with no ')' in any path, a summary of at most max paths claims no
   * hidden paths.
   */
  lemma SummarizePathsSpec(paths: seq<string>, max: int)
    requires 0 <= max && |paths| <= MaxInt
    requires forall k :: 0 <= k < |paths| ==> ')' !in paths[k]
    ensures var r := SummarizePaths(paths, max);
      && (forall k :: 0 <= k < |paths| && k < max ==> Contains(r, paths[k]))
      && HiddenCount(r) == (if |paths| <= max then None else Some(|paths| - max))
  {
    var r := SummarizePaths(paths, max);
    if |paths| <= max {
      forall k | 0 <= k < |paths|
        ensures Contains(r, paths[k])
      {
        JoinHolds(paths, PathSep, k);
      }
      JoinAvoids(paths, PathSep, ')');
      NoHiddenCount(r);
    } else {
      var shown := Join(paths[..max], PathSep);
      forall k | 0 <= k < max
        ensures Contains(r, paths[k])
      {
        JoinHolds(paths[..max], PathSep, k);
        ContainsInfix("", shown, MoreOpen + Itoa(|paths| - max) + MoreClose, paths[k]);
        assert "" + shown + (MoreOpen + Itoa(|paths| - max) + MoreClose) == r;
      }
      HiddenCountOf(shown, |paths| - max);
    }
  }

  /** Raising max past the number of paths changes nothing: they are all shown. */
  lemma SummarizeAllShown(paths: seq<string>, max: int, more: int)
    requires |paths| <= max <= more
    ensures SummarizePaths(paths, max) == SummarizePaths(paths, more) == Join(paths, PathSep)
  {
  }

  // ---------------------------------------------------------------------
  // PrintEnrichSummary

  /** The fields of an enrich run that its text report prints. */
  datatype EnrichRunSummary = EnrichRunSummary(
    Mode: string, Agent: string, Scope: string, Target: string, RootPath: string, OutputFile: string,
    Files: int, Symbols: int, Succeeded: int, Failed: int, CacheHits: int, CacheMisses: int,
    DryRun: bool, DurationMS: int, Targets: seq<string>)

  const DryRunMode := "enrich (dry-run)"
  const EnrichMode := "enrich"

  function ModeLabel(dryRun: bool): string {
    if dryRun then DryRunMode else EnrichMode
  }

  /** The counters closing the report line, in their fixed order. */
  function Counters(s: EnrichRunSummary): seq<string> {
    ["files=" + Itoa(s.Files), "symbols=" + Itoa(s.Symbols), "succeeded=" + Itoa(s.Succeeded),
     "failed=" + Itoa(s.Failed), "cache_hits=" + Itoa(s.CacheHits), "cache_misses=" + Itoa(s.CacheMisses),
     "duration=" + Itoa(s.DurationMS) + "ms"]
  }

  /** The parts of the report line: mode, agent, scope, the target when there is one, then the counters. */
  function SummaryParts(s: EnrichRunSummary): seq<string> {
    [ModeLabel(s.DryRun) + ":", "agent=" + s.Agent, "scope=" + s.Scope]
      + (if s.Target != "" then ["target=" + s.Target] else [])
      + Counters(s)
  }

  function SummaryLine(s: EnrichRunSummary): string {
    Join(SummaryParts(s), " ")
  }

  /**
   * PrintEnrichSummary, as text: the report line, then the output file
   * when there is one, then the targets, summarised to eight, when there
   * are any.
   */
  function EnrichSummaryText(s: EnrichRunSummary): seq<string> {
    [SummaryLine(s)]
      + (if s.OutputFile != "" then ["output: " + s.OutputFile] else [])
      + (if |s.Targets| > 0 then ["targets (" + Itoa(|s.Targets|) + "): " + SummarizePaths(s.Targets, 8)] else [])
  }

  /**
   * The report line opens with the dry-run label exactly for a dry run, and
   * holds a target part exactly when the run has a target.
   */
  lemma SummaryPartsSpec(s: EnrichRunSummary)
    ensures var parts := SummaryParts(s);
      && |parts| == (if s.Target != "" then 11 else 10)
      && (parts[0] == DryRunMode + ":" <==> s.DryRun)
      && (parts[0] == EnrichMode + ":" <==> !s.DryRun)
      && ((exists k :: 0 <= k < |parts| && HasPrefix(parts[k], "target=")) <==> s.Target != "")
      && (s.Target != "" ==> parts[3] == "target=" + s.Target)
  {
    var parts := SummaryParts(s);
    assert (DryRunMode + ":")[6] == ' ' && (EnrichMode + ":")[6] == ':';
    if s.Target == "" {
      forall k | 0 <= k < |parts|
        ensures !HasPrefix(parts[k], "target=")
      {
        assert parts[k][0] != 't' by {
          assert parts[k][0] == ['e', 'a', 's', 'f', 's', 's', 'f', 'c', 'c', 'd'][k];
        }
      }
    } else {
      assert HasPrefix(parts[3], "target=");
    }
  }

  /** A value written into the report without white space. */
  predicate NoSpace(v: string) {
    forall k :: 0 <= k < |v| ==> !IsSpace(v[k])
  }

  /** The words of the report line: the label splits in two on a dry run. */
  function ModeWords(dryRun: bool): seq<string> {
    if dryRun then [EnrichMode, "(dry-run):"] else [EnrichMode + ":"]
  }

  predicate Words(ws: seq<string>) {
    forall k :: 0 <= k < |ws| ==> IsWord(ws[k])
  }

  lemma WordsAppend(a: seq<string>, b: seq<string>)
    requires Words(a) && Words(b)
    ensures Words(a + b)
  {
  }

  /** A word followed by text without white space is a word. */
  lemma WordConcat(a: string, b: string)
    requires IsWord(a) && NoSpace(b)
    ensures IsWord(a + b)
  {
    assert forall j :: |a| <= j < |a + b| ==> (a + b)[j] == b[j - |a|];
  }

  lemma ItoaNoSpace(n: int)
    ensures NoSpace(Itoa(n))
  {
  }

  lemma CountersWords(s: EnrichRunSummary)
    ensures Words(Counters(s))
  {
    CountersWordsFirst(s);
    CountersWordsLast(s);
  }

  lemma CountersWordsFirst(s: EnrichRunSummary)
    ensures forall k :: 0 <= k < 4 ==> IsWord(Counters(s)[k])
  {
    WordConcat("files=", Itoa(s.Files));
    WordConcat("symbols=", Itoa(s.Symbols));
    WordConcat("succeeded=", Itoa(s.Succeeded));
    WordConcat("failed=", Itoa(s.Failed));
  }

  lemma CountersWordsLast(s: EnrichRunSummary)
    ensures forall k :: 4 <= k < 7 ==> IsWord(Counters(s)[k])
  {
    WordConcat("cache_hits=", Itoa(s.CacheHits));
    WordConcat("cache_misses=", Itoa(s.CacheMisses));
    WordConcat("duration=", Itoa(s.DurationMS));
    WordConcat("duration=" + Itoa(s.DurationMS), "ms");
  }

  /** The parts after the label are words when the agent, scope and target are. */
  lemma NamedPartsWords(s: EnrichRunSummary)
    requires NoSpace(s.Agent) && NoSpace(s.Scope) && NoSpace(s.Target)
    ensures Words(SummaryParts(s)[1..])
  {
    WordConcat("agent=", s.Agent);
    WordConcat("scope=", s.Scope);
    WordConcat("target=", s.Target);
    var named := ["agent=" + s.Agent, "scope=" + s.Scope] + (if s.Target != "" then ["target=" + s.Target] else []);
    assert Words(named);
    CountersWords(s);
    WordsAppend(named, Counters(s));
    assert SummaryParts(s)[1..] == named + Counters(s);
  }

  /**
   * When the agent, scope and target hold no white space, splitting the
   * report line into words gives back its parts, the dry-run label as two
   * words.
   */
  lemma SummaryLineWords(s: EnrichRunSummary)
    requires NoSpace(s.Agent) && NoSpace(s.Scope) && NoSpace(s.Target)
    ensures Fields(SummaryLine(s)) == ModeWords(s.DryRun) + SummaryParts(s)[1..]
  {
    var parts := SummaryParts(s);
    NamedPartsWords(s);
    assert parts == [parts[0]] + parts[1..];
    ModeLabelWords();
    if s.DryRun {
      LabelWords(EnrichMode, "(dry-run):", parts[1..]);
    } else {
      OneLabelWords(parts[0], parts[1..]);
    }
  }

  /** The dry-run label is two words, the plain one a single word. */
  lemma ModeLabelWords()
    ensures IsWord(EnrichMode) && IsWord("(dry-run):") && IsWord(EnrichMode + ":")
    ensures DryRunMode + ":" == EnrichMode + " " + "(dry-run):"
  {
  }

  /** A label of two words, then words, all joined by spaces, splits back into those words. */
  lemma LabelWords(w1: string, w2: string, rest: seq<string>)
    requires IsWord(w1) && IsWord(w2) && Words(rest) && |rest| > 0
    ensures Fields(Join([w1 + " " + w2] + rest, " ")) == [w1, w2] + rest
  {
    var j := Join(rest, " ");
    var both := [w1, w2] + rest;
    JoinCons(w1 + " " + w2, rest, " ");
    ConsTwo(w1, w2, rest);
    JoinCons(w2, rest, " ");
    JoinCons(w1, [w2] + rest, " ");
    assert Join(both, " ") == w1 + " " + (w2 + " " + j);
    ConcatFive(w1, " ", w2, " ", j);
    WordsAppend([w1, w2], rest);
    FieldsOfJoin(both);
  }

  lemma ConsTwo<T>(a: T, b: T, rest: seq<T>)
    ensures [a, b] + rest == [a] + ([b] + rest)
  {
  }

  lemma ConcatFive(a: string, b: string, c: string, d: string, e: string)
    ensures a + b + (c + d + e) == a + b + c + d + e
  {
  }

  lemma OneLabelWords(w: string, rest: seq<string>)
    requires IsWord(w) && Words(rest)
    ensures Fields(Join([w] + rest, " ")) == [w] + rest
  {
    WordsAppend([w], rest);
    FieldsOfJoin([w] + rest);
  }

  /**
   * The report holds the output line exactly when an output file is set
   * and the targets line exactly when there are targets, the latter
   * summarising them to eight.
   */
  lemma EnrichSummaryTextSpec(s: EnrichRunSummary)
    ensures var text := EnrichSummaryText(s);
      && text[0] == SummaryLine(s)
      && |text| == 1 + (if s.OutputFile != "" then 1 else 0) + (if |s.Targets| > 0 then 1 else 0)
      && (s.OutputFile != "" ==> text[1] == "output: " + s.OutputFile)
      && (|s.Targets| > 0 ==> HasSuffix(text[|text| - 1], SummarizePaths(s.Targets, 8)))
  {
  }
}
