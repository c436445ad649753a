/**
 * The .skellyignore matcher of internal/ignore/matcher.go: gitignore-like
 * rules, read after a fixed list of default excludes, where the last rule
 * that matches a path decides whether it is ignored.
 *
 * A pattern is compiled to a regular expression and matched against the
 * whole of a path, a segment or a suffix of segments. The model reads the
 * pattern as a sequence of tokens, renders the regular expression the
 * source builds from them, and gives the language of that expression
 * directly (GlobMatch) instead of running a regular-expression engine.
 */
module IgnoreMatcher {
  import opened Wrappers
  import opened Strs
  import opened Seqs
  import GoPath

  datatype Rule = Rule(Pattern: string, Negated: bool, DirOnly: bool, Anchored: bool)

  datatype Matcher = Matcher(Rules: seq<Rule>)

  /** The default excludes, read before the user's rules. */
  const DefaultRules: seq<string> := [".git/", ".skelly/", ".context/", "node_modules/", "vendor/",
                                      "dist/", "build/", "target/", "__pycache__/"]

  /** The directory names of the default excludes, in the same order. */
  const DefaultDirs: seq<string> := [".git", ".skelly", ".context", "node_modules", "vendor",
                                     "dist", "build", "target", "__pycache__"]

  // ---------------------------------------------------------------------
  // normalizePath

  /** normalizePath: slashes only, then one leading "./" and then one leading "/" removed. */
  function NormalizePath(path: string): (r: string)
    ensures HasSuffix(path, r)
    ensures !HasPrefix(path, "./") && !HasPrefix(path, "/") ==> r == path
  {
    TrimPrefix(TrimPrefix(GoPath.ToSlash(path), "./"), "/")
  }

  /** What normalizePath removes is one of "", "./", "/" and ".//", whichever the path starts with, longest first. */
  lemma NormalizePathCases(path: string)
    ensures var r := NormalizePath(path);
      || (HasPrefix(path, ".//") && path == ".//" + r)
      || (HasPrefix(path, "./") && !HasPrefix(path, ".//") && path == "./" + r)
      || (!HasPrefix(path, "./") && HasPrefix(path, "/") && path == "/" + r)
      || (!HasPrefix(path, "./") && !HasPrefix(path, "/") && path == r)
  {
    var a := TrimPrefix(path, "./");
    if HasPrefix(path, "./") {
      assert path == "./" + a;
      assert HasPrefix(path, ".//") <==> HasPrefix(a, "/") by {
        if |path| >= 3 {
          assert path[..3] == "./" + a[..1];
        }
      }
    }
  }

  // ---------------------------------------------------------------------
  // parseRule

  /**
   * parseRule: a trimmed line that is blank or starts with '#' is no rule;
   * otherwise one leading '!' negates, then one leading '/' anchors, then
   * one trailing '/' restricts the rule to directories, and what is left,
   * normalized, is the pattern, which must not be empty.
   */
  function ParseRule(line: string): (r: Option<Rule>)
    ensures TrimSpace(line) == "" || HasPrefix(TrimSpace(line), "#") ==> r.None?
  {
    var t := TrimSpace(line);
    if t == "" || HasPrefix(t, "#") then None else StripMarks(t)
  }

  /** The marks around the pattern of a trimmed line, and the pattern left between them. */
  function StripMarks(t: string): (r: Option<Rule>)
    ensures r.Some? ==> r.value.Pattern != "" && (r.value.Negated <==> HasPrefix(t, "!"))
  {
    var negated := HasPrefix(t, "!");
    var a := TrimPrefix(t, "!");
    var anchored := HasPrefix(a, "/");
    var b := TrimPrefix(a, "/");
    var dirOnly := HasSuffix(b, "/");
    var pattern := NormalizePath(TrimSuffix(b, "/"));
    if pattern == "" then None else Some(Rule(pattern, negated, dirOnly, anchored))
  }

  /** The one-character mark of a flag that is set, or nothing. */
  function Mark(on: bool, c: char): string {
    if on then [c] else []
  }

  /** The line a rule is written as: its flags as '!', a leading '/' and a trailing '/' around the pattern. */
  function FormatRule(r: Rule): string {
    Mark(r.Negated, '!') + (Mark(r.Anchored, '/') + (r.Pattern + Mark(r.DirOnly, '/')))
  }

  /**
   * A rule whose pattern reads back unchanged: not blank, no white space
   * at either end, no '/' at either end, no leading "./", and, when no flag
   * comes before it, no leading '#' or '!'.
   */
  predicate Canonical(r: Rule) {
    && r.Pattern != ""
    && NoEdgeSpace(r.Pattern)
    && r.Pattern[0] != '/' && r.Pattern[|r.Pattern| - 1] != '/'
    && !HasPrefix(r.Pattern, "./")
    && (!r.Negated && !r.Anchored ==> r.Pattern[0] != '#' && r.Pattern[0] != '!')
  }

  /** A leading mark is recognised exactly when it was written, and removing it leaves the rest. */
  lemma LeadingMark(on: bool, c: char, rest: string)
    requires rest != [] && (!on ==> rest[0] != c)
    ensures HasPrefix(Mark(on, c) + rest, [c]) == on
    ensures TrimPrefix(Mark(on, c) + rest, [c]) == rest
  {
    var s := Mark(on, c) + rest;
    if on {
      assert s[..1] == [c] && s[1..] == rest;
    } else {
      assert s == rest;
      assert rest[..1] == [rest[0]];
    }
  }

  /** A trailing '/' is recognised exactly when it was written, and removing it leaves the rest. */
  lemma TrailingMark(on: bool, rest: string)
    requires rest != [] && rest[|rest| - 1] != '/'
    ensures HasSuffix(rest + Mark(on, '/'), "/") == on
    ensures TrimSuffix(rest + Mark(on, '/'), "/") == rest
  {
    var s := rest + Mark(on, '/');
    if on {
      assert s[..|s| - 1] == rest;
    } else {
      assert s == rest;
    }
  }

  /** The marks of a canonical rule's line are read back as its flags, around its pattern. */
  lemma StripFormat(r: Rule)
    requires Canonical(r)
    ensures StripMarks(FormatRule(r)) == Some(r)
  {
    var p := r.Pattern;
    var b := p + Mark(r.DirOnly, '/');
    var a := Mark(r.Anchored, '/') + b;
    var line := Mark(r.Negated, '!') + a;
    assert b[0] == p[0];
    assert a[0] == (if r.Anchored then '/' else p[0]);
    LeadingMark(r.Negated, '!', a);
    LeadingMark(r.Anchored, '/', b);
    TrailingMark(r.DirOnly, p);
    assert HasPrefix(line, "!") == r.Negated && TrimPrefix(line, "!") == a;
    assert HasPrefix(a, "/") == r.Anchored && TrimPrefix(a, "/") == b;
    assert HasSuffix(b, "/") == r.DirOnly && TrimSuffix(b, "/") == p;
    assert NormalizePath(p) == p;
  }

  /** A line without white space at its ends that is not a comment is read by its marks alone. */
  lemma ParseTrimmed(line: string)
    requires line != [] && NoEdgeSpace(line) && line[0] != '#'
    ensures ParseRule(line) == StripMarks(line)
  {
    TrimSpaceNoop(line);
    assert line[..1] != "#";
  }

  /** The line of a canonical rule has no white space at its ends and does not start with '#'. */
  lemma FormatEnds(r: Rule)
    requires Canonical(r)
    ensures var line := FormatRule(r); line != [] && NoEdgeSpace(line) && line[0] != '#'
  {
    var p := r.Pattern;
    var b := p + Mark(r.DirOnly, '/');
    var a := Mark(r.Anchored, '/') + b;
    var line := Mark(r.Negated, '!') + a;
    assert b[0] == p[0] && b[|b| - 1] == (if r.DirOnly then '/' else p[|p| - 1]);
    assert a[0] == (if r.Anchored then '/' else p[0]) && a[|a| - 1] == b[|b| - 1];
    assert line[0] == (if r.Negated then '!' else a[0]) && line[|line| - 1] == a[|a| - 1];
  }

  /** Every canonical rule is read back from the line it is written as. */
  lemma ParseFormat(r: Rule)
    requires Canonical(r)
    ensures ParseRule(FormatRule(r)) == Some(r)
  {
    FormatEnds(r);
    ParseTrimmed(FormatRule(r));
    StripFormat(r);
  }

  /** A blank line and a comment line are not rules. */
  lemma CommentIsNoRule(text: string)
    ensures ParseRule("#" + text).None?
    ensures ParseRule("").None?
  {
    var line := "#" + text;
    assert !IsSpace(line[0]);
    TrimLeftNoop(line, Space);
    assert TrimSpace(line)[0] == '#';
  }

  // ---------------------------------------------------------------------
  // globToRegex

  /** A piece of a pattern: "**", "*", "?" or any other single character. */
  datatype Token = AnyText | SegmentRun | OneChar | Literal(c: char)

  /** The pattern read left to right, "**" before "*". */
  function Tokens(p: string): (ts: seq<Token>)
    ensures |ts| <= |p|
    decreases |p|
  {
    if p == [] then []
    else if p[0] == '*' && |p| > 1 && p[1] == '*' then [AnyText] + Tokens(p[2..])
    else if p[0] == '*' then [SegmentRun] + Tokens(p[1..])
    else if p[0] == '?' then [OneChar] + Tokens(p[1..])
    else [Literal(p[0])] + Tokens(p[1..])
  }

  /** The text a token was read from. */
  function TokenText(t: Token): string {
    match t
    case AnyText => "**"
    case SegmentRun => "*"
    case OneChar => "?"
    case Literal(c) => [c]
  }

  function Unparse(ts: seq<Token>): string {
    if ts == [] then "" else TokenText(ts[0]) + Unparse(ts[1..])
  }

  /** Reading a pattern loses nothing: its tokens spell it out again. */
  lemma {:induction false} UnparseTokens(p: string)
    ensures Unparse(Tokens(p)) == p
    decreases |p|
  {
    if p == [] {
    } else if p[0] == '*' && |p| > 1 && p[1] == '*' {
      UnparseTokens(p[2..]);
      assert p == "**" + p[2..];
    } else {
      UnparseTokens(p[1..]);
      assert p == [p[0]] + p[1..];
    }
  }

  /** Characters escaped with a backslash in the regular expression. */
  const RegexMeta: string := ".+()|[]{}^$\\"

  /** The regular-expression text of one token. */
  function TokenRegex(t: Token): string {
    match t
    case AnyText => ".*"
    case SegmentRun => "[^/]*"
    case OneChar => "[^/]"
    case Literal(c) => if c in RegexMeta then ['\\', c] else [c]
  }

  function Regex(ts: seq<Token>): string {
    if ts == [] then "" else TokenRegex(ts[0]) + Regex(ts[1..])
  }

  lemma RegexCons(t: Token, ts: seq<Token>)
    ensures Regex([t] + ts) == TokenRegex(t) + Regex(ts)
  {
    assert ([t] + ts)[1..] == ts;
  }

  /** Writing the regular expression of the next token moves it from the rest to the text written so far. */
  lemma WriteToken(re: string, t: Token, ts: seq<Token>, whole: string)
    requires re + Regex([t] + ts) == whole
    ensures (re + TokenRegex(t)) + Regex(ts) == whole
  {
    RegexCons(t, ts);
  }

  /** How the tokens of the rest of a pattern from index i begin, as the loop of globToRegex reads them. */
  lemma TokensAt(p: string, i: nat)
    requires i < |p|
    ensures p[i] == '*' && i + 1 < |p| && p[i + 1] == '*' ==> Tokens(p[i..]) == [AnyText] + Tokens(p[i + 2..])
    ensures p[i] == '*' && !(i + 1 < |p| && p[i + 1] == '*') ==> Tokens(p[i..]) == [SegmentRun] + Tokens(p[i + 1..])
    ensures p[i] == '?' ==> Tokens(p[i..]) == [OneChar] + Tokens(p[i + 1..])
    ensures p[i] != '*' && p[i] != '?' ==> Tokens(p[i..]) == [Literal(p[i])] + Tokens(p[i + 1..])
  {
    assert p[i..][1..] == p[i + 1..];
    if i + 1 < |p| {
      assert p[i..][2..] == p[i + 2..];
    }
  }

  /** globToRegex: the pattern read token by token, each token written as its regular expression. */
  method GlobToRegex(pattern: string) returns (re: string)
    ensures re == Regex(Tokens(pattern))
  {
    ghost var whole := Regex(Tokens(pattern));
    re := "";
    var i := 0;
    while i < |pattern|
      invariant 0 <= i <= |pattern|
      invariant re + Regex(Tokens(pattern[i..])) == whole
      decreases |pattern| - i
    {
      TokensAt(pattern, i);
      var ch := pattern[i];
      if ch == '*' {
        if i + 1 < |pattern| && pattern[i + 1] == '*' {
          WriteToken(re, AnyText, Tokens(pattern[i + 2..]), whole);
          re := re + ".*";
          i := i + 2;
          continue;
        }
        WriteToken(re, SegmentRun, Tokens(pattern[i + 1..]), whole);
        re := re + "[^/]*";
        i := i + 1;
        continue;
      }
      if ch == '?' {
        WriteToken(re, OneChar, Tokens(pattern[i + 1..]), whole);
        re := re + "[^/]";
        i := i + 1;
        continue;
      }
      WriteToken(re, Literal(ch), Tokens(pattern[i + 1..]), whole);
      ghost var written := re + TokenRegex(Literal(ch));
      if ch in RegexMeta {
        re := re + ['\\'];
      }
      re := re + [ch];
      assert re == written;
      i := i + 1;
    }
    assert pattern[i..] == [];
  }

  /** Tokens that come from reading a pattern: a '*' or '?' is never literal. */
  predicate Readable(ts: seq<Token>) {
    forall k :: 0 <= k < |ts| ==> ts[k] != Literal('*') && ts[k] != Literal('?')
  }

  lemma {:induction false} TokensReadable(p: string)
    ensures Readable(Tokens(p))
    decreases |p|
  {
    if p == [] {
    } else if p[0] == '*' && |p| > 1 && p[1] == '*' {
      TokensReadable(p[2..]);
    } else {
      TokensReadable(p[1..]);
    }
  }

  /** The token a regular expression of this form starts with, and the length of its text. */
  function RegexHead(re: string): (r: Option<(Token, nat)>)
    requires re != []
    ensures r.Some? ==> 0 < r.value.1 <= |re|
  {
    if HasPrefix(re, ".*") then Some((AnyText, 2))
    else if HasPrefix(re, "[^/]*") then Some((SegmentRun, 5))
    else if HasPrefix(re, "[^/]") then Some((OneChar, 4))
    else if re[0] == '\\' && |re| > 1 && re[1] in RegexMeta then Some((Literal(re[1]), 2))
    else if re[0] !in RegexMeta && re[0] != '*' && re[0] != '?' then Some((Literal(re[0]), 1))
    else None
  }

  /** The tokens a regular expression of this form is written from, or None when it is not of this form. */
  function ReadRegex(re: string): Option<seq<Token>>
    decreases |re|
  {
    if re == [] then Some([])
    else match RegexHead(re)
      case None => None
      case Some((t, n)) =>
        match ReadRegex(re[n..])
        case None => None
        case Some(rest) => Some([t] + rest)
  }

  /** The regular expression of readable tokens never starts with '*'. */
  lemma RegexStart(ts: seq<Token>)
    requires Readable(ts)
    ensures Regex(ts) == [] || Regex(ts)[0] != '*'
  {
    if ts != [] {
      assert Regex(ts) == TokenRegex(ts[0]) + Regex(ts[1..]);
    }
  }

  /** A token's text, followed by anything that does not start with '*', is read back as that token. */
  lemma HeadOfRegex(t: Token, rest: string)
    requires t != Literal('*') && t != Literal('?')
    requires rest == [] || rest[0] != '*'
    ensures RegexHead(TokenRegex(t) + rest) == Some((t, |TokenRegex(t)|))
  {
    var re := TokenRegex(t) + rest;
    match t
    case AnyText =>
      assert re[..2] == ".*";
    case SegmentRun =>
      assert re[..2] != ".*" by { assert re[0] == '['; }
      assert re[..5] == "[^/]*";
    case OneChar =>
      assert re[..2] != ".*" by { assert re[0] == '['; }
      assert re[..4] == "[^/]";
      assert !HasPrefix(re, "[^/]*") by {
        if |re| >= 5 {
          assert re[4] == rest[0];
        }
      }
    case Literal(c) =>
      if c in RegexMeta {
        assert re[0] == '\\' && re[1] == c;
        assert !HasPrefix(re, ".*") by { assert re[..2][0] == '\\'; }
        assert !HasPrefix(re, "[^/]*") by { assert |re| < 5 || re[..5][0] == '\\'; }
        assert !HasPrefix(re, "[^/]") by { assert |re| < 4 || re[..4][0] == '\\'; }
      } else {
        assert re[0] == c;
        assert !HasPrefix(re, ".*") by { assert |re| < 2 || re[..2][0] == c; }
        assert !HasPrefix(re, "[^/]*") by { assert |re| < 5 || re[..5][0] == c; }
        assert !HasPrefix(re, "[^/]") by { assert |re| < 4 || re[..4][0] == c; }
      }
  }

  /** The regular expression is unambiguous: reading it back gives the tokens it was written from. */
  lemma {:induction false} ReadRegexOfRegex(ts: seq<Token>)
    requires Readable(ts)
    ensures ReadRegex(Regex(ts)) == Some(ts)
    decreases |ts|
  {
    if ts != [] {
      var head := TokenRegex(ts[0]);
      var rest := Regex(ts[1..]);
      assert Readable(ts[1..]);
      RegexStart(ts[1..]);
      HeadOfRegex(ts[0], rest);
      var re := Regex(ts);
      assert re == head + rest;
      assert re[|head|..] == rest;
      ReadRegexOfRegex(ts[1..]);
      assert ts == [ts[0]] + ts[1..];
    }
  }

  // ---------------------------------------------------------------------
  // matchPathPattern

  /**
   * Whether the whole of s is in the language of the regular expression of
   * the tokens: "**" is '.*', which matches any run of characters except a
   * line feed; "*" is '[^/]*', any run without '/'; "?" is '[^/]', one
   * character other than '/'; any other character stands for itself.
   */
  predicate GlobMatch(ts: seq<Token>, s: string)
    decreases |ts|, |s|
  {
    if ts == [] then s == []
    else match ts[0]
      case Literal(c) => |s| > 0 && s[0] == c && GlobMatch(ts[1..], s[1..])
      case OneChar => |s| > 0 && s[0] != '/' && GlobMatch(ts[1..], s[1..])
      case SegmentRun => GlobMatch(ts[1..], s) || (|s| > 0 && s[0] != '/' && GlobMatch(ts, s[1..]))
      case AnyText => GlobMatch(ts[1..], s) || (|s| > 0 && s[0] != '\n' && GlobMatch(ts, s[1..]))
  }

  /** matchPathPattern: the whole value matches "^" + globToRegex(pattern) + "$". */
  predicate MatchPathPattern(pattern: string, value: string) {
    GlobMatch(Tokens(pattern), value)
  }

  /** A literal token matches the first character exactly, and the rest of the tokens the rest. */
  lemma LiteralFirst(c: char, ts: seq<Token>, s: string)
    ensures GlobMatch([Literal(c)] + ts, s) <==> |s| > 0 && s[0] == c && GlobMatch(ts, s[1..])
  {
    assert ([Literal(c)] + ts)[0] == Literal(c) && ([Literal(c)] + ts)[1..] == ts;
  }

  /** A pattern without '*' or '?' matches exactly itself. */
  lemma {:induction false} LiteralPattern(p: string, s: string)
    requires '*' !in p && '?' !in p
    ensures MatchPathPattern(p, s) <==> s == p
    decreases |p|
  {
    if p != [] {
      var rest := p[1..];
      assert Tokens(p) == [Literal(p[0])] + Tokens(rest);
      LiteralFirst(p[0], Tokens(rest), s);
      assert '*' !in rest && '?' !in rest;
      if |s| > 0 {
        LiteralPattern(rest, s[1..]);
        assert s == [s[0]] + s[1..];
        assert p == [p[0]] + rest;
      }
    }
  }

  /** A lone "*" matches exactly the texts without '/'. */
  lemma {:induction false} SegmentRunMatch(s: string)
    ensures GlobMatch([SegmentRun], s) <==> '/' !in s
    decreases |s|
  {
    assert [SegmentRun][1..] == [];
    if s != [] {
      SegmentRunMatch(s[1..]);
      assert s == [s[0]] + s[1..];
    }
  }

  /** A lone "**" matches exactly the texts without a line feed, '/' included. */
  lemma {:induction false} AnyTextMatch(s: string)
    ensures GlobMatch([AnyText], s) <==> '\n' !in s
    decreases |s|
  {
    assert [AnyText][1..] == [];
    if s != [] {
      AnyTextMatch(s[1..]);
      assert s == [s[0]] + s[1..];
    }
  }

  lemma StarPattern(s: string)
    ensures MatchPathPattern("*", s) <==> '/' !in s
    ensures MatchPathPattern("**", s) <==> '\n' !in s
  {
    assert Tokens("*") == [SegmentRun];
    assert Tokens("**") == [AnyText];
    SegmentRunMatch(s);
    AnyTextMatch(s);
  }

  /** Tokens that cannot match a '/': neither "**" nor a literal '/'. */
  predicate WithinSegment(ts: seq<Token>) {
    forall k :: 0 <= k < |ts| ==> ts[k] != AnyText && ts[k] != Literal('/')
  }

  /** Tokens that cannot match a '/' only match texts without one. */
  lemma {:induction false} WithinSegmentMatch(ts: seq<Token>, s: string)
    requires WithinSegment(ts) && GlobMatch(ts, s)
    ensures '/' !in s
    decreases |ts|, |s|
  {
    if ts != [] {
      match ts[0]
      case Literal(c) =>
        WithinSegmentMatch(ts[1..], s[1..]);
        assert s == [s[0]] + s[1..];
      case OneChar =>
        WithinSegmentMatch(ts[1..], s[1..]);
        assert s == [s[0]] + s[1..];
      case SegmentRun =>
        if GlobMatch(ts[1..], s) {
          WithinSegmentMatch(ts[1..], s);
        } else {
          WithinSegmentMatch(ts, s[1..]);
          assert s == [s[0]] + s[1..];
        }
    }
  }

  /** No two consecutive '*'. */
  predicate NoDoubleStar(p: string) {
    forall k :: 0 <= k < |p| - 1 ==> !(p[k] == '*' && p[k + 1] == '*')
  }

  lemma {:induction false} TokensWithinSegment(p: string)
    requires '/' !in p && NoDoubleStar(p)
    ensures WithinSegment(Tokens(p))
    decreases |p|
  {
    if p != [] {
      assert '/' !in p[1..];
      assert NoDoubleStar(p[1..]) by {
        forall k | 0 <= k < |p[1..]| - 1
          ensures !(p[1..][k] == '*' && p[1..][k + 1] == '*')
        {
          assert p[1..][k] == p[k + 1] && p[1..][k + 1] == p[k + 2];
        }
      }
      TokensWithinSegment(p[1..]);
    }
  }

  /** A pattern without '/' and without "**" only ever matches a single path segment. */
  lemma SlashFreeMatchesSegment(p: string, s: string)
    requires '/' !in p && NoDoubleStar(p)
    requires MatchPathPattern(p, s)
    ensures '/' !in s
  {
    TokensWithinSegment(p);
    WithinSegmentMatch(Tokens(p), s);
  }

  // ---------------------------------------------------------------------
  // ruleMatches

  /** The first n segments, re-joined. */
  function Leading(parts: seq<string>, n: nat): string
    requires n <= |parts|
  {
    Join(parts[..n], "/")
  }

  /** Whether a leading run of whole segments of path, re-joined, is the pattern. */
  predicate LeadingSegments(pattern: string, path: string) {
    var parts := Split(path, "/");
    exists n :: 1 <= n <= |parts| && Leading(parts, n) == pattern
  }

  /** matchDirectoryPattern: the path is the pattern or lies under it; unanchored, a leading run of segments may also equal it. */
  predicate DirMatch(rule: Rule, path: string) {
    || path == rule.Pattern
    || HasPrefix(path, rule.Pattern + "/")
    || (!rule.Anchored && LeadingSegments(rule.Pattern, path))
  }

  /** Whether the pattern matches the segments of path from some index i >= 1 on, re-joined. */
  predicate SuffixMatch(pattern: string, path: string) {
    var parts := Split(path, "/");
    exists i :: 1 <= i < |parts| && MatchPathPattern(pattern, Join(parts[i..], "/"))
  }

  /** Whether the pattern matches some segment of path. */
  predicate SegmentMatch(pattern: string, path: string) {
    var parts := Split(path, "/");
    exists i :: 0 <= i < |parts| && MatchPathPattern(pattern, parts[i])
  }

  /**
   * ruleMatches on the normalized path: a directory rule by
   * matchDirectoryPattern or, for a directory, by its base name; an
   * anchored rule on the whole path; a pattern with '/' on the whole path or
   * a trailing run of segments; any other pattern on the base name or on
   * one segment.
   */
  predicate RuleMatch(rule: Rule, relPath: string, isDir: bool) {
    var path := NormalizePath(relPath);
    if rule.DirOnly then DirMatch(rule, path) || (isDir && MatchPathPattern(rule.Pattern, GoPath.Base(path)))
    else if rule.Anchored then MatchPathPattern(rule.Pattern, path)
    else if '/' in rule.Pattern then MatchPathPattern(rule.Pattern, path) || SuffixMatch(rule.Pattern, path)
    else MatchPathPattern(rule.Pattern, GoPath.Base(path)) || SegmentMatch(rule.Pattern, path)
  }

  /** The loop of matchDirectoryPattern over the leading runs of segments. */
  method MatchDirectoryPattern(rule: Rule, path: string) returns (m: bool)
    ensures m == DirMatch(rule, path)
  {
    if rule.Anchored {
      return path == rule.Pattern || HasPrefix(path, rule.Pattern + "/");
    }
    if path == rule.Pattern || HasPrefix(path, rule.Pattern + "/") {
      return true;
    }
    var parts := Split(path, "/");
    for i := 0 to |parts|
      invariant forall n :: 1 <= n <= i ==> Leading(parts, n) != rule.Pattern
    {
      if Join(parts[..i + 1], "/") == rule.Pattern {
        assert Leading(parts, i + 1) == rule.Pattern;
        return true;
      }
    }
    return false;
  }

  /** The loop of ruleMatches over trailing runs of segments, from the second segment on. */
  method MatchSuffix(pattern: string, path: string) returns (m: bool)
    ensures m == SuffixMatch(pattern, path)
  {
    var parts := Split(path, "/");
    for i := 1 to |parts|
      invariant forall j :: 1 <= j < i ==> !MatchPathPattern(pattern, Join(parts[j..], "/"))
    {
      if MatchPathPattern(pattern, Join(parts[i..], "/")) {
        return true;
      }
    }
    return false;
  }

  /** The loop of ruleMatches over the segments. */
  method MatchSegment(pattern: string, path: string) returns (m: bool)
    ensures m == SegmentMatch(pattern, path)
  {
    var parts := Split(path, "/");
    for i := 0 to |parts|
      invariant forall j :: 0 <= j < i ==> !MatchPathPattern(pattern, parts[j])
    {
      if MatchPathPattern(pattern, parts[i]) {
        return true;
      }
    }
    return false;
  }

  /** ruleMatches */
  method RuleMatches(rule: Rule, relPath: string, isDir: bool) returns (m: bool)
    ensures m == RuleMatch(rule, relPath, isDir)
  {
    var path := NormalizePath(relPath);
    if rule.DirOnly {
      m := MatchDirectoryPattern(rule, path);
      if m {
        return;
      }
      return isDir && MatchPathPattern(rule.Pattern, GoPath.Base(path));
    }
    if rule.Anchored {
      return MatchPathPattern(rule.Pattern, path);
    }
    if '/' in rule.Pattern {
      if MatchPathPattern(rule.Pattern, path) {
        return true;
      }
      m := MatchSuffix(rule.Pattern, path);
      return;
    }
    if MatchPathPattern(rule.Pattern, GoPath.Base(path)) {
      return true;
    }
    m := MatchSegment(rule.Pattern, path);
  }

  // ---------------------------------------------------------------------
  // What the match rules imply

  /** Joining the pieces with the separator puts the separator between the first n pieces and the rest. */
  lemma {:induction false} JoinAt(parts: seq<string>, n: nat)
    requires 1 <= n < |parts|
    ensures Join(parts, "/") == Join(parts[..n], "/") + "/" + Join(parts[n..], "/")
    decreases n
  {
    var tail := parts[1..];
    assert parts == [parts[0]] + tail;
    JoinCons(parts[0], tail, "/");
    if n == 1 {
      assert parts[..1] == [parts[0]];
    } else {
      JoinAt(tail, n - 1);
      assert parts[..n] == [parts[0]] + tail[..n - 1];
      JoinCons(parts[0], tail[..n - 1], "/");
      assert tail[n - 1..] == parts[n..];
    }
  }

  /** A leading run of segments that equals the pattern means the path is the pattern or lies under it. */
  lemma LeadingSegmentsUnder(pattern: string, path: string)
    requires LeadingSegments(pattern, path)
    ensures path == pattern || HasPrefix(path, pattern + "/")
  {
    var parts := Split(path, "/");
    var n :| 1 <= n <= |parts| && Leading(parts, n) == pattern;
    JoinSplit(path, "/");
    if n < |parts| {
      JoinAt(parts, n);
      assert path == (pattern + "/") + Join(parts[n..], "/");
    } else {
      assert parts[..n] == parts;
    }
  }

  /**
   * The segment loop of matchDirectoryPattern never adds a match: an
   * unanchored directory rule matches exactly the paths the anchored one
   * does, the pattern itself and everything under it.
   */
  lemma DirMatchUnderPattern(rule: Rule, path: string)
    ensures DirMatch(rule, path) <==> path == rule.Pattern || HasPrefix(path, rule.Pattern + "/")
  {
    if !rule.Anchored && LeadingSegments(rule.Pattern, path) {
      LeadingSegmentsUnder(rule.Pattern, path);
    }
  }

  /** A directory rule matches its directory and everything under it, file or directory. */
  lemma DirRuleCoversTree(rule: Rule, rest: string, isDir: bool)
    requires rule.DirOnly && rule.Pattern != "" && rule.Pattern != "."
    requires rule.Pattern[0] != '/' && !HasPrefix(rule.Pattern, "./")
    ensures RuleMatch(rule, rule.Pattern, isDir)
    ensures RuleMatch(rule, rule.Pattern + "/" + rest, isDir)
  {
    var p := rule.Pattern;
    var path := p + "/" + rest;
    assert path[..|p| + 1] == p + "/";
    assert path[0] == p[0];
    if |p| >= 2 {
      assert path[..2] == p[..2];
    } else {
      assert p == [p[0]] && path[..2] == [p[0], '/'];
    }
  }

  /** The last element of a path that ends in a '/'-free name is that name. */
  lemma BaseOfName(dir: string, name: string)
    requires name != "" && '/' !in name
    ensures GoPath.Base(dir + "/" + name) == name
  {
    var path := dir + "/" + name;
    assert path[|path| - 1] == name[|name| - 1];
    TrimRightNoop(path, Cutset("/"));
    var r := GoPath.LastElement(path);
    assert path[|path| - |name| - 1] == '/';
    assert path[|path| - |name|..] == name;
  }

  /**
   * A slash-free, unanchored file pattern matches a path whenever it
   * matches the path's last element, however deep the path is.
   */
  lemma SlashFreeMatchesBaseName(rule: Rule, dir: string, name: string, isDir: bool)
    requires !rule.DirOnly && !rule.Anchored && '/' !in rule.Pattern
    requires name != "" && '/' !in name
    requires dir != "" && dir != "." && dir[0] != '/' && !HasPrefix(dir, "./")
    requires MatchPathPattern(rule.Pattern, name)
    ensures RuleMatch(rule, dir + "/" + name, isDir)
  {
    var path := dir + "/" + name;
    assert path[0] == dir[0];
    if |dir| >= 2 {
      assert path[..2] == dir[..2];
    } else {
      assert dir == [dir[0]] && path[..2] == [dir[0], '/'];
    }
    BaseOfName(dir, name);
  }

  // ---------------------------------------------------------------------
  // ShouldIgnore

  /**
   * The verdict of the rules on a path, given which rules match it: the
   * last rule that matches decides, and with no match the path is kept.
   */
  function Verdict(rules: seq<Rule>, hit: Rule -> bool): bool
    decreases |rules|
  {
    if rules == [] then false
    else if hit(rules[|rules| - 1]) then !rules[|rules| - 1].Negated
    else Verdict(rules[..|rules| - 1], hit)
  }

  /** One more rule: it decides when it matches, else the verdict of the rules before it stands. */
  lemma VerdictNext(rules: seq<Rule>, i: int, hit: Rule -> bool)
    requires 0 <= i < |rules|
    ensures Verdict(rules[..i + 1], hit) == if hit(rules[i]) then !rules[i].Negated else Verdict(rules[..i], hit)
  {
    assert rules[..i + 1][..i] == rules[..i];
  }

  /** The rules that match a path. */
  function Matching(path: string, isDir: bool): Rule -> bool {
    r => RuleMatch(r, path, isDir)
  }

  /** One pass of the loop of ShouldIgnore: a matching rule sets the verdict, any other leaves it. */
  lemma RuleStep(rules: seq<Rule>, i: int, path: string, isDir: bool, matched: bool, before: bool)
    requires 0 <= i < |rules|
    requires before == Verdict(rules[..i], Matching(path, isDir))
    requires matched == RuleMatch(rules[i], path, isDir)
    ensures Verdict(rules[..i + 1], Matching(path, isDir)) == if matched then !rules[i].Negated else before
  {
    VerdictNext(rules, i, Matching(path, isDir));
  }

  /** The loop of ShouldIgnore: every rule is tried in order on the path, and each one that matches sets the verdict. */
  method ApplyRules(rules: seq<Rule>, path: string, isDir: bool) returns (ignored: bool)
    ensures ignored == Verdict(rules, Matching(path, isDir))
  {
    ignored := false;
    for i := 0 to |rules|
      invariant ignored == Verdict(rules[..i], Matching(path, isDir))
    {
      var matched := RuleMatches(rules[i], path, isDir);
      RuleStep(rules, i, path, isDir, matched, ignored);
      if matched {
        ignored := !rules[i].Negated;
      }
    }
    assert rules[..|rules|] == rules;
  }

  /** ShouldIgnore: the rules decide on the normalized path. */
  method ShouldIgnore(m: Matcher, relPath: string, isDir: bool) returns (ignored: bool)
    ensures ignored == Verdict(m.Rules, Matching(NormalizePath(relPath), isDir))
  {
    var path := NormalizePath(relPath);
    ignored := ApplyRules(m.Rules, path, isDir);
  }

  /** Rule k matches and no later rule does. */
  predicate LastMatch(rules: seq<Rule>, hit: Rule -> bool, k: int) {
    && 0 <= k < |rules|
    && hit(rules[k])
    && forall j :: k < j < |rules| ==> !hit(rules[j])
  }

  /**
   * Last match wins: a path is ignored exactly when the last rule that
   * matches it is not a negation; when no rule matches it is kept.
   */
  lemma {:induction false} LastMatchDecides(rules: seq<Rule>, hit: Rule -> bool)
    ensures Verdict(rules, hit) <==> exists k :: LastMatch(rules, hit, k) && !rules[k].Negated
    ensures (forall k :: 0 <= k < |rules| ==> !hit(rules[k])) ==> !Verdict(rules, hit)
    decreases |rules|
  {
    if rules != [] {
      var last := |rules| - 1;
      var init := rules[..last];
      LastMatchDecides(init, hit);
      assert forall k :: 0 <= k < last ==> rules[k] == init[k];
      if hit(rules[last]) {
        assert LastMatch(rules, hit, last);
      } else {
        forall k
          ensures LastMatch(rules, hit, k) <==> LastMatch(init, hit, k)
        {
        }
      }
    }
  }

  /** Rules appended later override earlier ones on every path they match, and leave the others alone. */
  lemma {:induction false} LaterRulesOverride(a: seq<Rule>, b: seq<Rule>, hit: Rule -> bool)
    ensures (exists k :: 0 <= k < |b| && hit(b[k])) ==> Verdict(a + b, hit) == Verdict(b, hit)
    ensures (forall k :: 0 <= k < |b| ==> !hit(b[k])) ==> Verdict(a + b, hit) == Verdict(a, hit)
    decreases |b|
  {
    if b == [] {
      assert a + b == a;
    } else {
      var last := |b| - 1;
      var ab := a + b;
      assert ab[|ab| - 1] == b[last];
      assert ab[..|ab| - 1] == a + b[..last];
      LaterRulesOverride(a, b[..last], hit);
      assert forall k :: 0 <= k < last ==> b[..last][k] == b[k];
    }
  }

  /** With no rule negated, a path that some rule matches is ignored. */
  lemma {:induction false} PositiveMatchIgnored(rules: seq<Rule>, hit: Rule -> bool, k: int)
    requires forall j :: 0 <= j < |rules| ==> !rules[j].Negated
    requires 0 <= k < |rules| && hit(rules[k])
    ensures Verdict(rules, hit)
    decreases |rules|
  {
    var last := |rules| - 1;
    if !hit(rules[last]) {
      assert rules[..last][k] == rules[k];
      PositiveMatchIgnored(rules[..last], hit, k);
    }
  }

  // ---------------------------------------------------------------------
  // NewMatcher

  /** NewMatcher: the default excludes, then the user's lines, each kept when it parses as a rule. */
  method NewMatcher(userRules: seq<string>) returns (m: Matcher)
    ensures m.Rules == Collect(DefaultRules + userRules, ParseRule)
  {
    var rules := CollectInto([], DefaultRules + userRules, ParseRule);
    return Matcher(rules);
  }

  /** A default exclude: the directory, everywhere in the tree, not negated. */
  function DefaultRule(name: string): Rule {
    Rule(name, false, true, false)
  }

  /** A non-empty name of lower-case letters a to z, '.', '_' and '-'. */
  predicate PlainName(name: string) {
    && name != ""
    && forall k :: 0 <= k < |name| ==> name[k] == '.' || name[k] == '_' || name[k] == '-' || 'a' <= name[k] <= 'z'
  }

  /** A directory line "name/" parses as the directory rule of name. */
  lemma DirLine(name: string)
    requires PlainName(name)
    ensures ParseRule(name + "/") == Some(DefaultRule(name))
  {
    var r := DefaultRule(name);
    assert FormatRule(r) == name + "/";
    assert !IsSpace(name[0]) && !IsSpace(name[|name| - 1]);
    assert !HasPrefix(name, "./") by {
      if |name| >= 2 {
        assert name[..2][1] == name[1];
      }
    }
    ParseFormat(r);
  }

  /** Each default exclude parses as the directory rule of its name. */
  lemma DefaultRulesParse(k: int)
    requires 0 <= k < |DefaultRules|
    ensures |DefaultDirs| == |DefaultRules|
    ensures ParseRule(DefaultRules[k]) == Some(DefaultRule(DefaultDirs[k]))
  {
    assert DefaultRules[k] == DefaultDirs[k] + "/";
    assert PlainName(DefaultDirs[k]);
    DirLine(DefaultDirs[k]);
  }

  /** The rules of the default excludes: one directory rule per default directory, in order. */
  lemma DefaultRulesParsed()
    ensures Collect(DefaultRules, ParseRule) == seq(|DefaultDirs|, k requires 0 <= k < |DefaultDirs| => DefaultRule(DefaultDirs[k]))
  {
    var rules := seq(|DefaultDirs|, k requires 0 <= k < |DefaultDirs| => DefaultRule(DefaultDirs[k]));
    forall j | 0 <= j < |DefaultRules|
      ensures ParseRule(DefaultRules[j]) == Some(rules[j])
    {
      DefaultRulesParse(j);
    }
    CollectAll(DefaultRules, rules, ParseRule);
  }

  /**
   * Everything under a default exclude is ignored, file or directory,
   * unless a user rule matches the path.
   */
  lemma DefaultExcludes(userRules: seq<string>, k: int, rest: string, isDir: bool)
    requires 0 <= k < |DefaultDirs|
    requires forall j :: 0 <= j < |Collect(userRules, ParseRule)| ==>
               !RuleMatch(Collect(userRules, ParseRule)[j], DefaultDirs[k] + "/" + rest, isDir)
    ensures Verdict(Collect(DefaultRules + userRules, ParseRule), Matching(NormalizePath(DefaultDirs[k] + "/" + rest), isDir))
  {
    var path := DefaultDirs[k] + "/" + rest;
    var hit := Matching(path, isDir);
    DefaultRuleMatches(k, rest, isDir);
    DefaultRulesParsed();
    var defaults := Collect(DefaultRules, ParseRule);
    PositiveMatchIgnored(defaults, hit, k);
    CollectAppend(DefaultRules, userRules, ParseRule);
    LaterRulesOverride(defaults, Collect(userRules, ParseRule), hit);
  }

  /** The rule of a default exclude matches everything under its directory, and such a path is already normal. */
  lemma DefaultRuleMatches(k: int, rest: string, isDir: bool)
    requires 0 <= k < |DefaultDirs|
    ensures var path := DefaultDirs[k] + "/" + rest;
      NormalizePath(path) == path && RuleMatch(DefaultRule(DefaultDirs[k]), path, isDir)
  {
    var name := DefaultDirs[k];
    var path := name + "/" + rest;
    assert |name| >= 4 && name[1] != '/' && name[0] != '/';
    assert path[..2] == name[..2];
    DirRuleCoversTree(DefaultRule(name), rest, isDir);
  }

  /** A user rule that matches a path overrides every default exclude on it. */
  lemma UserRulesOverride(userRules: seq<string>, path: string, isDir: bool)
    ensures (exists j :: 0 <= j < |Collect(userRules, ParseRule)| && RuleMatch(Collect(userRules, ParseRule)[j], path, isDir)) ==>
              Verdict(Collect(DefaultRules + userRules, ParseRule), Matching(path, isDir)) ==
              Verdict(Collect(userRules, ParseRule), Matching(path, isDir))
  {
    CollectAppend(DefaultRules, userRules, ParseRule);
    LaterRulesOverride(Collect(DefaultRules, ParseRule), Collect(userRules, ParseRule), Matching(path, isDir));
  }
}
