/**
 * The command of an agent profile (cmd/skelly/main.go): a shell-like
 * splitter for `command: tool --flag 'a b'`, a forgiving reader for
 * `command: [tool, "--flag"]` when the array is not valid JSON, and the
 * clean-up both share. The two splitters are one character machine with a
 * mode: Shell drops quote characters and splits on blanks, Array keeps them
 * and splits on commas.
 */
module AgentCommand {
  import opened Wrappers
  import opened Strs
  import opened Seqs

  datatype CommandError =
    | EmptyCommand
    | UnterminatedQuote
    | UnterminatedArrayQuote
    | NotBracketed
    | EmptyArray
    | InvalidJson(message: string)

  function Message(e: CommandError): string {
    match e
    case EmptyCommand => "empty command"
    case UnterminatedQuote => "unterminated quote in command"
    case UnterminatedArrayQuote => "unterminated quote in command array"
    case NotBracketed => "command array must be enclosed in []"
    case EmptyArray => "empty command array"
    case InvalidJson(message) => message
  }

  // ---------------------------------------------------------------------
  // sanitizeCommand

  predicate NonEmpty(s: string) {
    s != []
  }

  /** The trimmed, non-blank parts in order; no part at all is an error. */
  function Sanitized(command: seq<string>): Result<seq<string>, CommandError> {
    var out := MapFilter(command, TrimSpace, NonEmpty);
    if out == [] then Failure(EmptyCommand) else Success(out)
  }

  /** A sanitized command fails, with "empty command", exactly when every part is blank. */
  lemma SanitizedEmpty(command: seq<string>)
    ensures Sanitized(command).Failure? <==> forall k :: 0 <= k < |command| ==> TrimSpace(command[k]) == []
    ensures Sanitized(command).Failure? ==> Sanitized(command).error == EmptyCommand
  {
    MapFilterMembers(command, TrimSpace, NonEmpty);
    var out := MapFilter(command, TrimSpace, NonEmpty);
    if out != [] {
      assert out[0] in out;
    }
  }

  /**
   * The parts of a sanitized command are the trimmed non-blank inputs, each
   * trimmed and non-empty.
   */
  lemma SanitizedMembers(command: seq<string>)
    ensures Sanitized(command).Success? ==>
      forall p :: p in Sanitized(command).value ==>
        p != [] && NoEdgeSpace(p) && exists k :: 0 <= k < |command| && TrimSpace(command[k]) == p
    ensures Sanitized(command).Success? ==>
      forall k :: 0 <= k < |command| && TrimSpace(command[k]) != [] ==> TrimSpace(command[k]) in Sanitized(command).value
  {
    MapFilterMembers(command, TrimSpace, NonEmpty);
    var out := MapFilter(command, TrimSpace, NonEmpty);
    forall p | p in out
      ensures NoEdgeSpace(p)
    {
      var k :| 0 <= k < |command| && TrimSpace(command[k]) == p;
    }
  }

  /** Parts that are already trimmed and non-empty pass through unchanged. */
  lemma SanitizedFixed(command: seq<string>)
    requires command != []
    requires forall k :: 0 <= k < |command| ==> command[k] != [] && NoEdgeSpace(command[k])
    ensures Sanitized(command) == Success(command)
  {
    forall k | 0 <= k < |command|
      ensures NonEmpty(command[k]) && TrimSpace(command[k]) == command[k]
    {
      TrimSpaceNoop(command[k]);
    }
    MapFilterFixed(command, TrimSpace, NonEmpty);
  }

  lemma SanitizedOne(v: string)
    requires v != [] && NoEdgeSpace(v)
    ensures Sanitized([v]) == Success([v])
  {
    TrimSpaceNoop(v);
    MapFilterSnoc([], v, TrimSpace, NonEmpty);
    assert [] + [v] == [v];
  }

  /** sanitizeCommand */
  method SanitizeCommand(command: seq<string>) returns (r: Result<seq<string>, CommandError>)
    ensures r == Sanitized(command)
  {
    var out: seq<string> := [];
    for i := 0 to |command|
      invariant out == MapFilter(command[..i], TrimSpace, NonEmpty)
    {
      assert command[..i + 1] == command[..i] + [command[i]];
      MapFilterSnoc(command[..i], command[i], TrimSpace, NonEmpty);
      var part := TrimSpace(command[i]);
      if part != [] {
        out := out + [part];
      }
    }
    assert command[..|command|] == command;
    if out == [] {
      return Failure(EmptyCommand);
    }
    return Success(out);
  }

  // ---------------------------------------------------------------------
  // stripMatchingQuotes

  predicate IsQuote(c: char) {
    c == '\'' || c == '"'
  }

  /**
   * stripMatchingQuotes: the trimmed value, without one pair of equal quote
   * characters around it, trimmed again.
   */
  function StripMatchingQuotes(value: string): string {
    var v := TrimSpace(value);
    if |v| < 2 then v
    else if IsQuote(v[0]) && v[|v| - 1] == v[0] then TrimSpace(v[1..|v| - 1])
    else v
  }

  /** A quoted value loses its quotes and the blanks inside them. */
  lemma StripQuoted(q: char, w: string)
    requires IsQuote(q)
    ensures StripMatchingQuotes([q] + w + [q]) == TrimSpace(w)
  {
    var v := [q] + w + [q];
    TrimSpaceNoop(v);
    assert v[1..|v| - 1] == w;
  }

  /** A trimmed value not wrapped in a pair of equal quotes is left as it is. */
  lemma StripUnquoted(w: string)
    requires NoEdgeSpace(w)
    requires |w| < 2 || !IsQuote(w[0]) || w[|w| - 1] != w[0]
    ensures StripMatchingQuotes(w) == w
  {
    TrimSpaceNoop(w);
  }

  // ---------------------------------------------------------------------
  // The character machine of splitCommand and parseLooseCommandArray

  datatype Mode = Shell | Array

  /** Not inside a quote (Go's zero rune). */
  const NoQuote: char := '\0'

  /** The parts so far, the part being built, the open quote and whether a backslash is pending. */
  datatype Tokenizer = Tokenizer(parts: seq<string>, current: string, quote: char, escaped: bool)

  const Start := Tokenizer([], [], NoQuote, false)

  predicate IsSeparator(mode: Mode, c: char) {
    match mode
    case Shell => c == ' ' || c == '\t'
    case Array => c == ','
  }

  /** The part a flush of the array reader keeps: trimmed, unquoted and non-empty, or none. */
  function ArrayPart(current: string): (r: seq<string>)
    ensures |r| <= 1
    ensures forall k :: 0 <= k < |r| ==> r[k] != []
  {
    var part := TrimSpace(current);
    if part == [] then []
    else
      var p := StripMatchingQuotes(part);
      if p == [] then [] else [p]
  }

  /** The flush closure: ends the current part. */
  function Flush(mode: Mode, t: Tokenizer): Tokenizer {
    match mode
    case Shell => if t.current == [] then t else t.(parts := t.parts + [t.current], current := [])
    case Array => t.(parts := t.parts + ArrayPart(t.current), current := [])
  }

  /** One iteration of the character loop. */
  function Step(mode: Mode, t: Tokenizer, ch: char): Tokenizer {
    if t.escaped then t.(current := t.current + [ch], escaped := false)
    else if ch == '\\' then t.(escaped := true)
    else if t.quote != NoQuote then
      if ch == t.quote then
        t.(quote := NoQuote, current := if mode == Array then t.current + [ch] else t.current)
      else t.(current := t.current + [ch])
    else if IsQuote(ch) then
      t.(quote := ch, current := if mode == Array then t.current + [ch] else t.current)
    else if IsSeparator(mode, ch) then Flush(mode, t)
    else t.(current := t.current + [ch])
  }

  /** The machine after reading s from t. */
  function Run(mode: Mode, t: Tokenizer, s: string): Tokenizer {
    if s == [] then t else Step(mode, Run(mode, t, s[..|s| - 1]), s[|s| - 1])
  }

  lemma RunNext(mode: Mode, t: Tokenizer, s: string, i: nat)
    requires i < |s|
    ensures Run(mode, t, s[..i + 1]) == Step(mode, Run(mode, t, s[..i]), s[i])
  {
    assert s[..i + 1][..i] == s[..i];
  }

  lemma RunOne(mode: Mode, t: Tokenizer, c: char)
    ensures Run(mode, t, [c]) == Step(mode, t, c)
  {
    assert [c][..0] == [];
  }

  lemma {:induction false} RunAppend(mode: Mode, t: Tokenizer, a: string, b: string)
    ensures Run(mode, t, a + b) == Run(mode, Run(mode, t, a), b)
    decreases |b|
  {
    if b != [] {
      var init := b[..|b| - 1];
      assert (a + b)[..|a + b| - 1] == a + init;
      assert (a + b)[|a + b| - 1] == b[|b| - 1];
      assert Run(mode, t, a + b) == Step(mode, Run(mode, t, a + init), b[|b| - 1]);
      RunAppend(mode, t, a, init);
    } else {
      assert a + b == a;
    }
  }

  /** Whether the machine in state t takes every character of s literally. */
  predicate Literal(mode: Mode, t: Tokenizer, s: string) {
    forall k :: 0 <= k < |s| ==>
      && s[k] != '\\'
      && (t.quote != NoQuote ==> s[k] != t.quote)
      && (t.quote == NoQuote ==> !IsQuote(s[k]) && !IsSeparator(mode, s[k]))
  }

  /** Ordinary characters are appended to the current part and nothing else changes. */
  lemma {:induction false} RunLiteral(mode: Mode, t: Tokenizer, s: string)
    requires !t.escaped && Literal(mode, t, s)
    ensures Run(mode, t, s) == t.(current := t.current + s)
    decreases |s|
  {
    if s != [] {
      var init := s[..|s| - 1];
      assert Literal(mode, t, init) by {
        forall k | 0 <= k < |init| ensures init[k] == s[k] { }
      }
      RunLiteral(mode, t, init);
      assert t.current + init + [s[|s| - 1]] == t.current + s;
    }
  }

  // ---------------------------------------------------------------------
  // splitCommand

  /**
   * splitCommand as a value: a pending backslash at the end is kept, an
   * open quote is an error, and the parts are sanitized.
   */
  function Tokens(raw: string): Result<seq<string>, CommandError> {
    FinishShell(Run(Shell, Start, raw))
  }

  /** The end of splitCommand once every character is read. */
  function FinishShell(t: Tokenizer): Result<seq<string>, CommandError> {
    var t1 := if t.escaped then t.(current := t.current + ['\\']) else t;
    if t1.quote != NoQuote then Failure(UnterminatedQuote)
    else Sanitized(Flush(Shell, t1).parts)
  }

  /** splitCommand */
  method SplitCommand(raw: string) returns (r: Result<seq<string>, CommandError>)
    ensures r == Tokens(raw)
  {
    var parts: seq<string> := [];
    var current: string := [];
    var inQuote := NoQuote;
    var escaped := false;
    for i := 0 to |raw|
      invariant Tokenizer(parts, current, inQuote, escaped) == Run(Shell, Start, raw[..i])
    {
      RunNext(Shell, Start, raw, i);
      var ch := raw[i];
      if escaped {
        current := current + [ch];
        escaped := false;
      } else if ch == '\\' {
        escaped := true;
      } else if inQuote != NoQuote {
        if ch == inQuote {
          inQuote := NoQuote;
        } else {
          current := current + [ch];
        }
      } else if ch == '\'' || ch == '"' {
        inQuote := ch;
      } else if ch == ' ' || ch == '\t' {
        if |current| > 0 {
          parts := parts + [current];
          current := [];
        }
      } else {
        current := current + [ch];
      }
    }
    assert raw[..|raw|] == raw;
    if escaped {
      current := current + ['\\'];
    }
    if inQuote != NoQuote {
      return Failure(UnterminatedQuote);
    }
    if |current| > 0 {
      parts := parts + [current];
    }
    r := SanitizeCommand(parts);
  }

  /** A word that needs no quoting: no quote, backslash, space or tab. */
  predicate Plain(w: string) {
    forall k :: 0 <= k < |w| ==> !IsQuote(w[k]) && w[k] != '\\' && w[k] != ' ' && w[k] != '\t'
  }

  /** A word the shell form can carry: non-empty, trimmed, and free of `'` and backslashes. */
  predicate Quotable(w: string) {
    w != [] && NoEdgeSpace(w) && forall k :: 0 <= k < |w| ==> w[k] != '\'' && w[k] != '\\'
  }

  /** How a word is written on a command line: as it is when plain, else in single quotes. */
  function Encode(w: string): string {
    if Plain(w) then w else ['\''] + w + ['\'']
  }

  function EncodeAll(ws: seq<string>): (r: seq<string>)
    ensures |r| == |ws|
  {
    if ws == [] then [] else EncodeAll(ws[..|ws| - 1]) + [Encode(ws[|ws| - 1])]
  }

  /** A command line: the encoded words separated by single spaces. */
  function CommandLine(ws: seq<string>): string {
    Join(EncodeAll(ws), " ")
  }

  /** Reading an encoded word into an empty part yields the word itself. */
  lemma EncodeRun(parts: seq<string>, w: string)
    requires Quotable(w)
    ensures Run(Shell, Tokenizer(parts, [], NoQuote, false), Encode(w)) == Tokenizer(parts, w, NoQuote, false)
  {
    var t := Tokenizer(parts, [], NoQuote, false);
    if Plain(w) {
      RunLiteral(Shell, t, w);
    } else {
      var open := Tokenizer(parts, [], '\'', false);
      assert Run(Shell, t, ['\'']) == open by {
        assert ['\''][..0] == [];
      }
      RunLiteral(Shell, open, w);
      assert Run(Shell, open, w) == Tokenizer(parts, w, '\'', false);
      assert Run(Shell, Tokenizer(parts, w, '\'', false), ['\'']) == Tokenizer(parts, w, NoQuote, false) by {
        assert ['\''][..0] == [];
      }
      RunAppend(Shell, t, ['\''], w);
      RunAppend(Shell, t, ['\''] + w, ['\'']);
    }
  }

  /** A space after the word being built files it as a part. */
  lemma SpaceFiles(init: seq<string>)
    requires init != [] && init[|init| - 1] != []
    ensures Run(Shell, Tokenizer(init[..|init| - 1], init[|init| - 1], NoQuote, false), " ") == Tokenizer(init, [], NoQuote, false)
  {
    var t := Tokenizer(init[..|init| - 1], init[|init| - 1], NoQuote, false);
    RunOne(Shell, t, ' ');
    assert init[..|init| - 1] + [init[|init| - 1]] == init;
  }

  /** One more word on a command line: the word before it is filed and the new one built. */
  lemma CommandLineSnoc(init: seq<string>, w: string)
    requires init != [] && init[|init| - 1] != [] && Quotable(w)
    requires Run(Shell, Start, CommandLine(init)) == Tokenizer(init[..|init| - 1], init[|init| - 1], NoQuote, false)
    ensures Run(Shell, Start, CommandLine(init + [w])) == Tokenizer(init, w, NoQuote, false)
  {
    var ws := init + [w];
    assert ws[..|init|] == init;
    assert EncodeAll(ws) == EncodeAll(init) + [Encode(w)];
    JoinSnoc(EncodeAll(init), Encode(w), " ");
    var a := CommandLine(init);
    SpaceFiles(init);
    RunAppend(Shell, Start, a, " ");
    EncodeRun(init, w);
    RunAppend(Shell, Start, a + " ", Encode(w));
  }

  /** After a command line the machine holds all words but the last, and builds the last. */
  lemma {:induction false} CommandLineRun(ws: seq<string>)
    requires ws != []
    requires forall k :: 0 <= k < |ws| ==> Quotable(ws[k])
    ensures Run(Shell, Start, CommandLine(ws)) == Tokenizer(ws[..|ws| - 1], ws[|ws| - 1], NoQuote, false)
    decreases |ws|
  {
    var n := |ws| - 1;
    var w := ws[n];
    if n == 0 {
      assert EncodeAll(ws) == [Encode(w)];
      EncodeRun([], w);
    } else {
      var init := ws[..n];
      assert forall k :: 0 <= k < |init| ==> init[k] == ws[k];
      CommandLineRun(init);
      assert init + [w] == ws;
      assert Quotable(init[n - 1]);
      CommandLineSnoc(init, w);
    }
  }

  /**
   * Round trip: a command line of quotable words, each written as it is or
   * in single quotes, splits back into exactly those words.
   */
  lemma CommandLineTokens(ws: seq<string>)
    requires ws != []
    requires forall k :: 0 <= k < |ws| ==> Quotable(ws[k])
    ensures Tokens(CommandLine(ws)) == Success(ws)
  {
    CommandLineRun(ws);
    var n := |ws| - 1;
    assert ws[..n] + [ws[n]] == ws;
    SanitizedFixed(ws);
  }

  /** Every character of w preceded by a backslash. */
  function Escape(w: string): (r: string)
    ensures |r| == 2 * |w|
  {
    if w == [] then [] else Escape(w[..|w| - 1]) + ['\\', w[|w| - 1]]
  }

  /** An escaped character is taken literally, in or out of quotes. */
  lemma {:induction false} EscapeRun(mode: Mode, t: Tokenizer, w: string)
    requires !t.escaped
    ensures Run(mode, t, Escape(w)) == t.(current := t.current + w)
    decreases |w|
  {
    if w != [] {
      var init := w[..|w| - 1];
      var c := w[|w| - 1];
      EscapeRun(mode, t, init);
      var mid := t.(current := t.current + init);
      RunAppend(mode, t, Escape(init), ['\\', c]);
      RunAppend(mode, mid, ['\\'], [c]);
      assert ['\\'] + [c] == ['\\', c];
      RunOne(mode, mid, '\\');
      RunOne(mode, mid.(escaped := true), c);
      assert Run(mode, mid, ['\\', c]) == mid.(current := mid.current + [c]);
      assert t.current + init + [c] == t.current + w;
    }
  }

  /** A fully escaped word is one part, whatever it contains: blanks, quotes or backslashes. */
  lemma EscapedTokens(w: string)
    ensures Tokens(Escape(w)) == Sanitized([w])
  {
    EscapeRun(Shell, Start, w);
    var t := Start.(current := w);
    assert [] + w == w;
    assert Run(Shell, Start, Escape(w)) == t;
    assert Tokens(Escape(w)) == FinishShell(t);
    assert FinishShell(t) == Sanitized(Flush(Shell, t).parts);
    if w == [] {
      assert Flush(Shell, t).parts == [];
      assert MapFilter([w], TrimSpace, NonEmpty) == MapFilter([], TrimSpace, NonEmpty) by {
        assert [w][..0] == [];
      }
    } else {
      assert Flush(Shell, t).parts == [w];
    }
  }

  /** A quote that is never closed is an error. */
  lemma UnterminatedTokens(q: char, w: string)
    requires IsQuote(q)
    requires forall k :: 0 <= k < |w| ==> w[k] != q && w[k] != '\\'
    ensures Tokens([q] + w) == Failure(UnterminatedQuote)
  {
    var open := Tokenizer([], [], q, false);
    RunOne(Shell, Start, q);
    RunLiteral(Shell, open, w);
    RunAppend(Shell, Start, [q], w);
    assert Tokens([q] + w) == FinishShell(open.(current := w));
  }

  /** A lone backslash at the end stays in the last part. */
  lemma TrailingBackslashTokens(w: string)
    requires w != [] && Plain(w) && NoEdgeSpace(w)
    ensures Tokens(w + ['\\']) == Success([w + ['\\']])
  {
    var t := Start.(current := w);
    RunLiteral(Shell, Start, w);
    assert [] + w == w;
    assert Run(Shell, Start, w) == t;
    RunAppend(Shell, Start, w, ['\\']);
    RunOne(Shell, t, '\\');
    assert Step(Shell, t, '\\') == t.(escaped := true);
    assert Run(Shell, Start, w + ['\\']) == t.(escaped := true);
    assert Tokens(w + ['\\']) == FinishShell(t.(escaped := true));
    assert FinishShell(t.(escaped := true)) == Sanitized([w + ['\\']]);
    var v := w + ['\\'];
    assert v[0] == w[0] && v[|v| - 1] == '\\';
    assert NoEdgeSpace(v);
    SanitizedOne(v);
  }

  // ---------------------------------------------------------------------
  // parseLooseCommandArray

  /**
   * parseLooseCommandArray as a value: the trimmed spec must be bracketed and
   * hold something; the interior is split on commas outside quotes, each
   * part trimmed and stripped of one pair of quotes; an open quote is an
   * error and a pending backslash at the end is kept.
   */
  function LooseArray(spec: string): Result<seq<string>, CommandError> {
    var s := TrimSpace(spec);
    if !(HasPrefix(s, "[") && HasSuffix(s, "]")) then Failure(NotBracketed)
    else
      var inner := TrimSpace(s[1..|s| - 1]);
      if inner == [] then Failure(EmptyArray)
      else
        FinishArray(Run(Array, Start, inner))
  }

  /** A bracketed spec with a non-blank interior reads as the machine run over that interior. */
  lemma LooseArrayInner(spec: string, s: string, inner: string)
    requires s == TrimSpace(spec) && HasPrefix(s, "[") && HasSuffix(s, "]")
    requires inner == TrimSpace(s[1..|s| - 1]) && inner != []
    ensures LooseArray(spec) == FinishArray(Run(Array, Start, inner))
  {
  }

  /** The end of parseLooseCommandArray once every character is read. */
  function FinishArray(t: Tokenizer): Result<seq<string>, CommandError> {
    if t.quote != NoQuote then Failure(UnterminatedArrayQuote)
    else
      var t1 := if t.escaped then t.(current := t.current + ['\\']) else t;
      Success(Flush(Array, t1).parts)
  }

  /** The flush closure of parseLooseCommandArray. */
  method FlushPart(parts: seq<string>, current: string) returns (out: seq<string>)
    ensures out == parts + ArrayPart(current)
  {
    out := parts;
    var part := TrimSpace(current);
    if part == [] {
      return;
    }
    part := StripMatchingQuotes(part);
    if part != [] {
      out := out + [part];
    }
  }

  /** parseLooseCommandArray */
  method ParseLooseCommandArray(spec: string) returns (r: Result<seq<string>, CommandError>)
    ensures r == LooseArray(spec)
  {
    var s := TrimSpace(spec);
    if !(HasPrefix(s, "[") && HasSuffix(s, "]")) {
      return Failure(NotBracketed);
    }
    var inner := TrimSpace(s[1..|s| - 1]);
    if inner == [] {
      return Failure(EmptyArray);
    }
    LooseArrayInner(spec, s, inner);
    r := ReadArray(inner);
  }

  /** parseLooseCommandArray from its character loop on: the checks and the last flush. */
  method ReadArray(inner: string) returns (r: Result<seq<string>, CommandError>)
    ensures r == FinishArray(Run(Array, Start, inner))
  {
    var parts, current, inQuote, escaped := ScanArray(inner);
    ghost var t := Tokenizer(parts, current, inQuote, escaped);
    if inQuote != NoQuote {
      return Failure(UnterminatedArrayQuote);
    }
    if escaped {
      current := current + ['\\'];
    }
    assert FinishArray(t) == Success(parts + ArrayPart(current));
    parts := FlushPart(parts, current);
    return Success(parts);
  }

  /** The character loop of parseLooseCommandArray. */
  method ScanArray(inner: string) returns (parts: seq<string>, current: string, inQuote: char, escaped: bool)
    ensures Tokenizer(parts, current, inQuote, escaped) == Run(Array, Start, inner)
  {
    parts, current, inQuote, escaped := [], [], NoQuote, false;
    for i := 0 to |inner|
      invariant Tokenizer(parts, current, inQuote, escaped) == Run(Array, Start, inner[..i])
    {
      RunNext(Array, Start, inner, i);
      var ch := inner[i];
      if escaped {
        current := current + [ch];
        escaped := false;
      } else if ch == '\\' {
        escaped := true;
      } else if inQuote != NoQuote {
        if ch == inQuote {
          inQuote := NoQuote;
        }
        current := current + [ch];
      } else if ch == '\'' || ch == '"' {
        inQuote := ch;
        current := current + [ch];
      } else if ch == ',' {
        parts := FlushPart(parts, current);
        current := [];
      } else {
        current := current + [ch];
      }
    }
    assert inner[..|inner|] == inner;
  }

  /** A word the array form can carry in double quotes: non-empty, trimmed, no `"` or backslash. */
  predicate DoubleQuotable(w: string) {
    w != [] && NoEdgeSpace(w) && forall k :: 0 <= k < |w| ==> w[k] != '"' && w[k] != '\\'
  }

  function Quoted(w: string): string {
    ['"'] + w + ['"']
  }

  function QuoteAll(ws: seq<string>): (r: seq<string>)
    ensures |r| == |ws|
  {
    if ws == [] then [] else QuoteAll(ws[..|ws| - 1]) + [Quoted(ws[|ws| - 1])]
  }

  /** Reading a quoted word into an empty part builds the word with its quotes. */
  lemma QuotedRun(parts: seq<string>, w: string)
    requires DoubleQuotable(w)
    ensures Run(Array, Tokenizer(parts, [], NoQuote, false), Quoted(w)) == Tokenizer(parts, Quoted(w), NoQuote, false)
  {
    var t := Tokenizer(parts, [], NoQuote, false);
    var open := Tokenizer(parts, ['"'], '"', false);
    RunOne(Array, t, '"');
    assert Step(Array, t, '"') == open;
    assert Run(Array, t, ['"']) == open;
    RunLiteral(Array, open, w);
    assert Run(Array, open, w) == Tokenizer(parts, ['"'] + w, '"', false);
    RunOne(Array, Tokenizer(parts, ['"'] + w, '"', false), '"');
    RunAppend(Array, t, ['"'], w);
    assert Run(Array, t, ['"'] + w) == Tokenizer(parts, ['"'] + w, '"', false);
    RunAppend(Array, t, ['"'] + w, ['"']);
    assert Quoted(w) == ['"'] + w + ['"'];
  }

  /** The array flush of a quoted word keeps exactly the word. */
  lemma QuotedPart(w: string)
    requires DoubleQuotable(w)
    ensures ArrayPart(Quoted(w)) == [w]
  {
    TrimSpaceNoop(Quoted(w));
    StripQuoted('"', w);
    TrimSpaceNoop(w);
  }

  lemma SnocLast<T>(s: seq<T>)
    requires s != []
    ensures s[..|s| - 1] + [s[|s| - 1]] == s
  {
  }

  /** A comma after a quoted word files the word. */
  lemma CommaFiles(parts: seq<string>, w: string)
    requires DoubleQuotable(w)
    ensures Run(Array, Tokenizer(parts, Quoted(w), NoQuote, false), [',']) == Tokenizer(parts + [w], [], NoQuote, false)
  {
    var t := Tokenizer(parts, Quoted(w), NoQuote, false);
    QuotedPart(w);
    RunOne(Array, t, ',');
    assert Step(Array, t, ',') == Flush(Array, t);
  }

  /** A comma after a quoted word files the word; the next quoted word is then built. */
  lemma QuotedListStep(a: string, init: seq<string>, w: string)
    requires init != [] && DoubleQuotable(init[|init| - 1]) && DoubleQuotable(w)
    requires Run(Array, Start, a) == Tokenizer(init[..|init| - 1], Quoted(init[|init| - 1]), NoQuote, false)
    ensures Run(Array, Start, a + [','] + Quoted(w)) == Tokenizer(init, Quoted(w), NoQuote, false)
  {
    var n := |init| - 1;
    CommaFiles(init[..n], init[n]);
    SnocLast(init);
    RunAppend(Array, Start, a, [',']);
    assert Run(Array, Start, a + [',']) == Tokenizer(init, [], NoQuote, false);
    QuotedRun(init, w);
    RunAppend(Array, Start, a + [','], Quoted(w));
  }

  lemma {:induction false} QuotedListRun(ws: seq<string>)
    requires ws != []
    requires forall k :: 0 <= k < |ws| ==> DoubleQuotable(ws[k])
    ensures Run(Array, Start, Join(QuoteAll(ws), [','])) == Tokenizer(ws[..|ws| - 1], Quoted(ws[|ws| - 1]), NoQuote, false)
    decreases |ws|
  {
    var n := |ws| - 1;
    var w := ws[n];
    if n == 0 {
      assert QuoteAll(ws) == [Quoted(w)];
      QuotedRun([], w);
    } else {
      var init := ws[..n];
      assert forall k :: 0 <= k < |init| ==> init[k] == ws[k];
      QuotedListRun(init);
      assert QuoteAll(ws) == QuoteAll(init) + [Quoted(w)];
      JoinSnoc(QuoteAll(init), Quoted(w), [',']);
      QuotedListStep(Join(QuoteAll(init), [',']), init, w);
    }
  }

  /** The interior of a quoted list starts and ends with a quote. */
  lemma QuotedListEdges(ws: seq<string>)
    requires ws != []
    ensures var j := Join(QuoteAll(ws), [',']);
      |j| >= 2 && j[0] == '"' && j[|j| - 1] == '"'
  {
    var n := |ws| - 1;
    if n == 0 {
      assert QuoteAll(ws) == [Quoted(ws[0])];
    } else {
      assert QuoteAll(ws) == QuoteAll(ws[..n]) + [Quoted(ws[n])];
      JoinSnoc(QuoteAll(ws[..n]), Quoted(ws[n]), [',']);
      assert QuoteAll(ws)[0] == QuoteAll(ws[..n])[0];
      JoinCons(QuoteAll(ws)[0], QuoteAll(ws)[1..], [',']);
      assert [QuoteAll(ws)[0]] + QuoteAll(ws)[1..] == QuoteAll(ws);
      QuoteAllFirst(ws);
    }
  }

  lemma {:induction false} QuoteAllFirst(ws: seq<string>)
    requires ws != []
    ensures QuoteAll(ws)[0] == Quoted(ws[0])
    decreases |ws|
  {
    if |ws| > 1 {
      QuoteAllFirst(ws[..|ws| - 1]);
    }
  }

  /**
   * Round trip: a bracketed list of double-quoted words, separated by
   * commas, reads back as exactly those words; commas and blanks inside the
   * quotes stay in the words.
   */
  lemma QuotedListArray(ws: seq<string>)
    requires ws != []
    requires forall k :: 0 <= k < |ws| ==> DoubleQuotable(ws[k])
    ensures LooseArray(['['] + Join(QuoteAll(ws), [',']) + [']']) == Success(ws)
  {
    QuotedListBracketed(ws);
    QuotedListRun(ws);
    var n := |ws| - 1;
    var t := Tokenizer(ws[..n], Quoted(ws[n]), NoQuote, false);
    QuotedPart(ws[n]);
    assert FinishArray(t) == Success(ws[..n] + [ws[n]]);
    SnocLast(ws);
  }

  /** The brackets around a quoted list come off before its interior is read. */
  lemma QuotedListBracketed(ws: seq<string>)
    requires ws != []
    ensures LooseArray(['['] + Join(QuoteAll(ws), [',']) + [']']) == FinishArray(Run(Array, Start, Join(QuoteAll(ws), [','])))
  {
    QuotedListEdges(ws);
    BracketedInner(Join(QuoteAll(ws), [',']));
  }

  /** An interior that starts and ends with a quote is read as it is. */
  lemma BracketedInner(inner: string)
    requires |inner| >= 2 && inner[0] == '"' && inner[|inner| - 1] == '"'
    ensures LooseArray(['['] + inner + [']']) == FinishArray(Run(Array, Start, inner))
  {
    var s := ['['] + inner + [']'];
    TrimSpaceNoop(s);
    assert s[1..|s| - 1] == inner;
    TrimSpaceNoop(inner);
    assert HasPrefix(s, "[") && HasSuffix(s, "]");
  }

  // ---------------------------------------------------------------------
  // parseAgentCommand

  /**
   * parseAgentCommand as a value. The JSON decoder of an array of strings is
   * a parameter; when it fails, the forgiving reader is tried, and if that
   * fails too the JSON error is reported.
   */
  function AgentCommandOf(spec: string, decodeJson: string -> Result<seq<string>, string>): Result<seq<string>, CommandError> {
    var s := TrimSpace(spec);
    if s == [] then Failure(EmptyCommand)
    else if HasPrefix(s, "[") then ArrayCommand(s, decodeJson)
    else Tokens(s)
  }

  /** The bracketed route of parseAgentCommand: JSON first, then the forgiving reader. */
  function ArrayCommand(s: string, decodeJson: string -> Result<seq<string>, string>): Result<seq<string>, CommandError> {
    match decodeJson(s)
    case Success(command) => Sanitized(command)
    case Failure(message) =>
      match LooseArray(s)
      case Success(command) => Sanitized(command)
      case Failure(_) => Failure(InvalidJson(message))
  }

  /** parseAgentCommand */
  method ParseAgentCommand(spec: string, decodeJson: string -> Result<seq<string>, string>) returns (r: Result<seq<string>, CommandError>)
    ensures r == AgentCommandOf(spec, decodeJson)
  {
    var s := TrimSpace(spec);
    if s == [] {
      return Failure(EmptyCommand);
    }
    if HasPrefix(s, "[") {
      var decoded := decodeJson(s);
      if decoded.Failure? {
        var loose := ParseLooseCommandArray(s);
        if loose.Failure? {
          return Failure(InvalidJson(decoded.error));
        }
        r := SanitizeCommand(loose.value);
        return;
      }
      r := SanitizeCommand(decoded.value);
      return;
    }
    r := SplitCommand(s);
  }

  /** A successful sanitize gives a non-empty command of trimmed, non-empty parts. */
  lemma SanitizedOk(command: seq<string>)
    ensures var r := Sanitized(command);
      r.Success? ==> r.value != [] && forall p :: p in r.value ==> p != [] && NoEdgeSpace(p)
  {
    SanitizedMembers(command);
  }

  /** A successful split gives a non-empty command of trimmed, non-empty parts. */
  lemma TokensOk(raw: string)
    ensures var r := Tokens(raw);
      r.Success? ==> r.value != [] && forall p :: p in r.value ==> p != [] && NoEdgeSpace(p)
  {
    var t := Run(Shell, Start, raw);
    var t1 := if t.escaped then t.(current := t.current + ['\\']) else t;
    assert Tokens(raw) == FinishShell(t);
    SanitizedOk(Flush(Shell, t1).parts);
  }

  lemma ArrayCommandOk(s: string, decodeJson: string -> Result<seq<string>, string>)
    ensures var r := ArrayCommand(s, decodeJson);
      r.Success? ==> r.value != [] && forall p :: p in r.value ==> p != [] && NoEdgeSpace(p)
  {
    match decodeJson(s)
    case Success(command) =>
      SanitizedOk(command);
    case Failure(_) =>
      if LooseArray(s).Success? {
        SanitizedOk(LooseArray(s).value);
      }
  }

  /** Whatever route it takes, a parsed command is non-empty and every part is trimmed and non-empty. */
  lemma AgentCommandSanitized(spec: string, decodeJson: string -> Result<seq<string>, string>)
    ensures var r := AgentCommandOf(spec, decodeJson);
      r.Success? ==> r.value != [] && forall p :: p in r.value ==> p != [] && NoEdgeSpace(p)
  {
    var s := TrimSpace(spec);
    if s != [] {
      if HasPrefix(s, "[") {
        ArrayCommandOk(s, decodeJson);
      } else {
        TokensOk(s);
      }
    }
  }
}
