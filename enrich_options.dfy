/**
 * The option parsers of `skelly enrich` (cmd/skelly/main.go): the --scope
 * and --order values, the --max-symbols check and the bound it puts on the
 * records of one run, and the answer mapping of the yes/no prompt. Reading
 * flags and the terminal are parameters.
 */
module EnrichOptions {
  import opened Wrappers
  import opened Strs
  import GoStrconv
  import opened Seqs

  datatype Scope = Changed | All
  datatype Order = Source | PageRank

  function ScopeName(s: Scope): string {
    match s
    case Changed => "changed"
    case All => "all"
  }

  function OrderName(o: Order): string {
    match o
    case Source => "source"
    case PageRank => "pagerank"
  }

  datatype OptionError =
    | UnsupportedScope(raw: string)
    | UnsupportedOrder(raw: string)
    | NonPositiveMaxSymbols

  function Message(e: OptionError): string {
    match e
    case UnsupportedScope(raw) => "unsupported --scope value " + GoStrconv.Quote(raw) + " (supported: changed, all)"
    case UnsupportedOrder(raw) => "unsupported --order value " + GoStrconv.Quote(raw) + " (supported: source, pagerank)"
    case NonPositiveMaxSymbols => "--max-symbols must be > 0"
  }

  /** How a flag value is compared: trimmed and lower-cased. */
  function Normalize(raw: string): string {
    ToLower(TrimSpace(raw))
  }

  lemma NormalizeIdempotent(raw: string)
    ensures Normalize(Normalize(raw)) == Normalize(raw)
  {
    var t := TrimSpace(raw);
    ToLowerNoEdgeSpace(t);
    TrimSpaceNoop(ToLower(t));
    ToLowerIdempotent(t);
  }

  /** A name made of lower-case letters is its own normal form. */
  lemma NormalName(name: string)
    requires name != [] && forall k :: 0 <= k < |name| ==> 'a' <= name[k] <= 'z'
    ensures Normalize(name) == name
  {
    TrimSpaceNoop(name);
    ToLowerNoUpper(name);
  }

  // ---------------------------------------------------------------------
  // parseEnrichScope

  /** parseEnrichScope: "changed" or "all", in any case and with blanks around; anything else is an error naming the raw value. */
  function ParseEnrichScope(raw: string): (r: Result<Scope, OptionError>)
    ensures r.Success? <==> Normalize(raw) == "changed" || Normalize(raw) == "all"
    ensures r.Success? ==> ScopeName(r.value) == Normalize(raw)
    ensures r.Failure? ==> r.error == UnsupportedScope(raw)
  {
    var v := Normalize(raw);
    if v == "changed" then Success(Changed)
    else if v == "all" then Success(All)
    else Failure(UnsupportedScope(raw))
  }

  /** Round trip: every scope's name parses back to it. */
  lemma ScopeRoundTrip(s: Scope)
    ensures ParseEnrichScope(ScopeName(s)) == Success(s)
  {
    NormalName(ScopeName(s));
  }

  /** The scope depends only on the normalised spelling of the value. */
  lemma ScopeNormalized(raw: string)
    ensures ParseEnrichScope(Normalize(raw)).Success? <==> ParseEnrichScope(raw).Success?
    ensures ParseEnrichScope(raw).Success? ==> ParseEnrichScope(Normalize(raw)) == ParseEnrichScope(raw)
  {
    NormalizeIdempotent(raw);
  }

  // ---------------------------------------------------------------------
  // parseEnrichOrder

  /** parseEnrichOrder: "source" or an empty value, or "pagerank", in any case and with blanks around. */
  function ParseEnrichOrder(raw: string): (r: Result<Order, OptionError>)
    ensures r == Success(Source) <==> Normalize(raw) == "source" || Normalize(raw) == ""
    ensures r == Success(PageRank) <==> Normalize(raw) == "pagerank"
    ensures r.Failure? ==> r.error == UnsupportedOrder(raw)
  {
    var v := Normalize(raw);
    if v == "source" || v == "" then Success(Source)
    else if v == "pagerank" then Success(PageRank)
    else Failure(UnsupportedOrder(raw))
  }

  /** Round trip: every order's name parses back to it. */
  lemma OrderRoundTrip(o: Order)
    ensures ParseEnrichOrder(OrderName(o)) == Success(o)
  {
    NormalName(OrderName(o));
  }

  /** A blank --order value means source order. */
  lemma BlankOrderIsSource(raw: string)
    requires AllSpace(raw)
    ensures ParseEnrichOrder(raw) == Success(Source)
  {
    TrimSpaceEmptyIff(raw);
  }

  // ---------------------------------------------------------------------
  // The --max-symbols bound

  /** The --max-symbols check of runEnrich: the bound must be positive. */
  function CheckMaxSymbols(n: int): (r: Result<nat, OptionError>)
    ensures r.Success? <==> n > 0
    ensures r.Success? ==> r.value == n
    ensures r.Failure? ==> r.error == NonPositiveMaxSymbols
  {
    if n <= 0 then Failure(NonPositiveMaxSymbols) else Success(n)
  }

  /** The records of a prefix of the items start the records of all of them. */
  lemma {:induction false} BuiltPrefix<T, U>(items: seq<T>, i: nat, build: T -> Option<U>)
    requires i <= |items|
    ensures Collect(items[..i], build) <= Collect(items, build)
    decreases |items| - i
  {
    if i < |items| {
      BuiltPrefix(items, i + 1, build);
      assert items[..i + 1][..i] == items[..i];
      assert Collect(items[..i], build) <= Collect(items[..i + 1], build);
    } else {
      assert items[..i] == items;
    }
  }

  /**
   * The loop of runEnrich over the work items, as far as how many records it
   * collects: it stops once it has maxSymbols records, skips items whose
   * record cannot be built, and otherwise adds one record per item (from the
   * cache, as a dry run, or from the agent, successful or not).
   */
  method CollectRecords<T, U>(items: seq<T>, build: T -> Option<U>, maxSymbols: nat) returns (records: seq<U>)
    ensures records == Take(Collect(items, build), maxSymbols)
  {
    records := [];
    var i := 0;
    while i < |items|
      invariant i <= |items|
      invariant records == Collect(items[..i], build)
      invariant |records| <= maxSymbols
    {
      if |records| >= maxSymbols {
        break;
      }
      assert items[..i + 1][..i] == items[..i];
      match build(items[i]) {
        case None =>
        case Some(record) =>
          records := records + [record];
      }
      i := i + 1;
    }
    BuiltPrefix(items, i, build);
    if i == |items| {
      assert items[..i] == items;
    }
  }

  /** The first n elements, or all of them when there are fewer. */
  function Take<T>(s: seq<T>, n: nat): (r: seq<T>)
    ensures r <= s && |r| == if |s| < n then |s| else n
  {
    if |s| <= n then s else s[..n]
  }

  /** A run never collects more than maxSymbols records, and collects every buildable item when they fit. */
  lemma CollectedBound<T, U>(items: seq<T>, build: T -> Option<U>, maxSymbols: nat)
    ensures |Take(Collect(items, build), maxSymbols)| <= maxSymbols
    ensures |Collect(items, build)| <= maxSymbols ==> Take(Collect(items, build), maxSymbols) == Collect(items, build)
  {
  }

  // ---------------------------------------------------------------------
  // promptYesNo

  /** The answer mapping of promptYesNo: y/yes and n/no in any case; anything else, blank included, keeps the default. */
  function Answer(value: string, defaultYes: bool): (r: bool)
    ensures Normalize(value) == "y" || Normalize(value) == "yes" ==> r
    ensures Normalize(value) == "n" || Normalize(value) == "no" ==> !r
    ensures r != defaultYes ==> Normalize(value) in ["y", "yes", "n", "no"]
  {
    var v := Normalize(value);
    if v == "" then defaultYes
    else if v == "y" || v == "yes" then true
    else if v == "n" || v == "no" then false
    else defaultYes
  }

  /**
   * promptYesNo: without an interactive terminal the default is the answer;
   * a failed read (other than end of input) is an error; otherwise the line
   * read is mapped by Answer. The terminal test and the read are parameters.
   */
  method PromptYesNo(interactive: bool, read: Result<string, string>, defaultYes: bool) returns (r: Result<bool, string>)
    ensures !interactive ==> r == Success(defaultYes)
    ensures interactive && read.Failure? ==> r == Failure("failed to read selection: " + read.error)
    ensures interactive && read.Success? ==> r == Success(Answer(read.value, defaultYes))
  {
    if !interactive {
      return Success(defaultYes);
    }
    if read.Failure? {
      return Failure("failed to read selection: " + read.error);
    }
    var value := Normalize(read.value);
    if value == "" {
      return Success(defaultYes);
    }
    if value == "y" || value == "yes" {
      return Success(true);
    } else if value == "n" || value == "no" {
      return Success(false);
    }
    return Success(defaultYes);
  }

  /** A blank answer, or none, keeps the default. */
  lemma BlankAnswer(value: string, defaultYes: bool)
    requires AllSpace(value)
    ensures Answer(value, defaultYes) == defaultYes
  {
    TrimSpaceEmptyIff(value);
  }

  /** The answer depends only on the normalised spelling: " YES " answers like "yes". */
  lemma AnswerNormalized(value: string, defaultYes: bool)
    ensures Answer(Normalize(value), defaultYes) == Answer(value, defaultYes)
  {
    NormalizeIdempotent(value);
  }
}
