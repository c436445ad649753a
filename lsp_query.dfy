/**
 * Definition and reference queries through a language server
 * (internal/lsp/query.go): the request is validated, the position
 * `file:line:column` is handed to the server's command line tool through an
 * injected runner, and the tool's output is read back line by line into
 * locations relative to the repository root, de-duplicated and sorted.
 */
module LspQuery {
  import opened Wrappers
  import opened Strs
  import opened Seqs
  import opened Sorting
  import opened GoStrconv
  import GoPath

  /** A place in a source file: the path, a 1-based line and a 1-based column. */
  datatype Location = Location(File: string, Line: int, Column: int)

  /**
   * The command runner: given the working directory, the program and its two
   * arguments (the query command and the position), the program's output or
   * the error it failed with.
   */
  type Runner = (string, string, string, string) -> Result<string, string>

  const Gopls := "gopls"

  /** Why a query fails; Message gives the error text. */
  datatype QueryError =
    | RunnerRequired
    | ServerRequired
    | LineNotPositive
    | QueryFailed(command: string, cause: string)
    | Unsupported(server: string, command: string)

  function Message(e: QueryError): string {
    match e
    case RunnerRequired => "command runner is required"
    case ServerRequired => "lsp server is required"
    case LineNotPositive => "line must be > 0"
    case QueryFailed(command, cause) => "lsp " + command + " query failed: " + cause
    case Unsupported(server, command) => "lsp server " + Quote(server) + " does not support " + command + " query backend"
  }

  // ---------------------------------------------------------------------
  // The position handed to the server

  /** The column actually asked for: 1 when none (0 or less) is given. */
  function ColumnOrOne(column: int): (c: int)
    ensures c >= 1 && (column >= 1 ==> c == column)
  {
    if column <= 0 then 1 else column
  }

  /** The file as an absolute path: a relative one is joined to the root. */
  function AbsFile(root: string, file: string): string {
    if GoPath.IsAbs(file) then file else GoPath.Join2(root, file)
  }

  /** `file:line:column` as the server's command line tool expects it. */
  function Position(root: string, file: string, line: int, column: int): string {
    AbsFile(root, file) + ":" + Itoa(line) + ":" + Itoa(ColumnOrOne(column))
  }

  // ---------------------------------------------------------------------
  // The output line pattern `^(.*):([0-9]+):([0-9]+)(?:[-:].*)?$`

  /** The end of the run of decimal digits that starts at i. */
  function DigitsEnd(s: string, i: nat): (j: nat)
    requires i <= |s|
    ensures i <= j <= |s|
    ensures forall k :: i <= k < j ==> IsDigit(s[k])
    ensures j == |s| || !IsDigit(s[j])
    decreases |s| - i
  {
    if i < |s| && IsDigit(s[i]) then DigitsEnd(s, i + 1) else i
  }

  /**
   * The text from i on reads `:digits:digits`, the colons at i and a and the
   * second run of digits ending at b, followed by nothing or by '-' or ':'.
   */
  predicate TailShape(s: string, i: nat, a: nat, b: nat) {
    && i + 1 < a && a + 1 < b <= |s|
    && s[i] == ':' && s[a] == ':'
    && (forall k :: i < k < a ==> IsDigit(s[k]))
    && (forall k :: a < k < b ==> IsDigit(s[k]))
    && (b == |s| || s[b] == '-' || s[b] == ':')
  }

  /**
   * Where the line and column groups end when the tail of the pattern
   * matches at i. Both digit groups are as long as possible, as the greedy
   * pattern takes them.
   */
  function TailAt(s: string, i: nat): (r: Option<(nat, nat)>)
    requires i <= |s|
    ensures r.Some? ==> TailShape(s, i, r.value.0, r.value.1)
  {
    if i < |s| && s[i] == ':' then
      var a := DigitsEnd(s, i + 1);
      if a > i + 1 && a < |s| && s[a] == ':' then
        var b := DigitsEnd(s, a + 1);
        if b > a + 1 && (b == |s| || s[b] == '-' || s[b] == ':') then Some((a, b)) else None
      else None
    else None
  }

  /**
   * Where the file group ends, looking for the tail at positions below n:
   * the greedy file group ends at the last position where the tail matches.
   */
  function MatchBefore(s: string, n: nat): (r: Option<nat>)
    requires n <= |s|
    ensures r.Some? ==> r.value < n && TailAt(s, r.value).Some?
    ensures r.Some? ==> forall j :: r.value < j < n ==> TailAt(s, j).None?
    ensures r.None? ==> forall j :: 0 <= j < n ==> TailAt(s, j).None?
  {
    if n == 0 then None
    else if TailAt(s, n - 1).Some? then Some(n - 1)
    else MatchBefore(s, n - 1)
  }

  /** outputLocationPattern.FindStringSubmatch: file, line and column groups, or no match. */
  function Match(s: string): Option<(string, string, string)> {
    match MatchBefore(s, |s|)
    case None => None
    case Some(i) =>
      var t := TailAt(s, i).value;
      Some((s[..i], s[i + 1..t.0], s[t.0 + 1..t.1]))
  }

  /** A text without ':' never matches the pattern. */
  lemma NoColonNoMatch(s: string)
    requires ':' !in s
    ensures Match(s).None?
  {
    forall j | 0 <= j < |s|
      ensures TailAt(s, j).None?
    {
      assert s[j] != ':';
    }
    MatchBeforeSkip(s, 0, |s|);
  }

  lemma DigitsEndOf(s: string, i: nat, j: nat)
    requires i <= j <= |s|
    requires forall k :: i <= k < j ==> IsDigit(s[k])
    requires j == |s| || !IsDigit(s[j])
    ensures DigitsEnd(s, i) == j
  {
  }

  /** The tail is found wherever it has its shape. */
  lemma TailAtOf(s: string, i: nat, a: nat, b: nat)
    requires TailShape(s, i, a, b)
    ensures TailAt(s, i) == Some((a, b))
  {
    DigitsEndOf(s, i + 1, a);
    DigitsEndOf(s, a + 1, b);
  }

  /** Skipping positions where the tail does not match changes nothing. */
  lemma {:induction false} MatchBeforeSkip(s: string, m: nat, n: nat)
    requires m <= n <= |s|
    requires forall j :: m <= j < n ==> TailAt(s, j).None?
    ensures MatchBefore(s, n) == MatchBefore(s, m)
    decreases n
  {
    if n > m {
      MatchBeforeSkip(s, m, n - 1);
    }
  }

  /** The shape of `f:l:c` followed by '-' and text without ':', at the colon after f. */
  lemma PositionShape(s: string, f: string, l: string, c: string, rest: string)
    requires |l| > 0 && |c| > 0 && AllDigits(l) && AllDigits(c)
    requires rest == [] || (rest[0] == '-' && ':' !in rest)
    requires s == f + [':'] + l + [':'] + c + rest
    ensures TailShape(s, |f|, |f| + 1 + |l|, |f| + 2 + |l| + |c|)
  {
    var a := |f| + 1 + |l|;
    var e := a + 1 + |c|;
    forall k | |f| < k < a
      ensures IsDigit(s[k])
    {
      assert s[k] == l[k - |f| - 1];
    }
    forall k | a < k < e
      ensures IsDigit(s[k])
    {
      assert s[k] == c[k - a - 1];
    }
    assert e == |s| || s[e] == rest[0];
  }

  /** No tail starts inside `l:c` followed by '-' and text without ':'. */
  lemma NoLaterTail(s: string, f: string, l: string, c: string, rest: string)
    requires |l| > 0 && |c| > 0 && AllDigits(l) && AllDigits(c)
    requires rest == [] || (rest[0] == '-' && ':' !in rest)
    requires s == f + [':'] + l + [':'] + c + rest
    ensures forall j :: |f| < j < |s| ==> TailAt(s, j).None?
  {
    var a := |f| + 1 + |l|;
    var e := a + 1 + |c|;
    PositionShape(s, f, l, c, rest);
    DigitsEndOf(s, a + 1, e);
    forall j | |f| < j < |s|
      ensures TailAt(s, j).None?
    {
      if j < a {
        assert s[j] == l[j - |f| - 1];
        assert s[j] != ':';
      } else if j == a {
        assert DigitsEnd(s, j + 1) == e;
        assert e == |s| || s[e] == rest[0];
      } else if j < e {
        assert s[j] == c[j - a - 1];
        assert s[j] != ':';
      } else {
        assert s[j] == rest[j - e];
        assert s[j] != ':';
      }
    }
  }

  /**
   * A line `f:l:c`, possibly followed by '-' and text without ':', matches
   * with f as the file group and the two numbers as written.
   */
  lemma MatchOf(f: string, l: string, c: string, rest: string)
    requires |l| > 0 && |c| > 0 && AllDigits(l) && AllDigits(c)
    requires rest == [] || (rest[0] == '-' && ':' !in rest)
    ensures Match(f + [':'] + l + [':'] + c + rest) == Some((f, l, c))
  {
    var s := f + [':'] + l + [':'] + c + rest;
    var a := |f| + 1 + |l|;
    var e := a + 1 + |c|;
    PositionShape(s, f, l, c, rest);
    TailAtOf(s, |f|, a, e);
    NoLaterTail(s, f, l, c, rest);
    MatchBeforeSkip(s, |f| + 1, |s|);
    assert s[..|f|] == f;
    assert s[|f| + 1..a] == l;
    assert s[a + 1..e] == c;
  }

  // ---------------------------------------------------------------------
  // normalizeLocationPath

  /**
   * The reported path, trimmed; an absolute one inside the root becomes
   * relative to it, unless the relative form is empty or starts with "..".
   */
  function Normalize(root: string, path: string): string {
    var t := TrimSpace(path);
    if t == "" then t
    else if GoPath.IsAbs(t) then
      var rel := GoPath.Rel(root, t);
      if rel.Ok? && rel.value != "" && !HasPrefix(rel.value, "..") then GoPath.ToSlash(rel.value)
      else GoPath.ToSlash(t)
    else GoPath.ToSlash(t)
  }

  /** A path relative to some base is never absolute. */
  lemma RelNotAbs(base: string, targ: string)
    requires GoPath.Rel(base, targ).Ok?
    ensures !GoPath.IsAbs(GoPath.Rel(base, targ).value)
  {
    if GoPath.Clean(base) != GoPath.Clean(targ) {
      var bs := GoPath.CleanSegments(base);
      var ts := GoPath.CleanSegments(targ);
      var c := GoPath.CommonPrefixLen(bs, ts);
      var segs := GoPath.Repeat("..", |bs| - c) + ts[c..];
      if |segs| > 0 {
        if |bs| - c > 0 {
          assert segs[0] == "..";
        } else {
          GoPath.CleanSegmentsShape(targ);
          assert segs[0] == ts[c];
        }
        GoPath.JoinFirstChar(segs, "/");
      }
    }
  }

  /**
   * The reported path comes back trimmed, or — only when it is absolute —
   * as a non-empty relative path that does not climb out with "..".
   */
  lemma NormalizeSpec(root: string, path: string)
    ensures var r := Normalize(root, path);
      && (!GoPath.IsAbs(TrimSpace(path)) ==> r == TrimSpace(path))
      && (r == TrimSpace(path) || (GoPath.IsAbs(TrimSpace(path)) && r != "" && !GoPath.IsAbs(r) && !HasPrefix(r, "..")))
  {
    var t := TrimSpace(path);
    if t != "" && GoPath.IsAbs(t) && GoPath.Rel(root, t).Ok? {
      RelNotAbs(root, t);
    }
  }

  /** A real path segment: not empty, ".", ".." and without '/'. */
  predicate Name(s: string) {
    GoPath.CleanSegment(s) && s != ".."
  }

  predicate Names(xs: seq<string>) {
    forall k :: 0 <= k < |xs| ==> Name(xs[k])
  }

  lemma {:induction false} CleanFoldNames(acc: seq<string>, xs: seq<string>, rooted: bool)
    requires Names(xs)
    ensures GoPath.CleanFold(acc, xs, rooted) == acc + xs
    decreases |xs|
  {
    if xs != [] {
      CleanFoldNames(acc + [xs[0]], xs[1..], rooted);
      assert acc + [xs[0]] + xs[1..] == acc + xs;
    }
  }

  /** An absolute path made of real names splits at '/' into an empty first part and the names. */
  lemma SplitOfNames(xs: seq<string>)
    requires |xs| >= 1 && Names(xs)
    ensures Split("/" + Join(xs, "/"), "/") == [""] + xs
  {
    var parts := [""] + xs;
    JoinCons("", xs, "/");
    assert forall k :: 0 <= k < |parts| ==> '/' !in parts[k] by {
      forall k | 0 <= k < |parts|
        ensures '/' !in parts[k]
      {
        if k > 0 {
          assert parts[k] == xs[k - 1];
        }
      }
    }
    SplitJoin(parts, '/');
  }

  /** The segments of an absolute path made of real names are those names. */
  lemma CleanSegmentsOfNames(xs: seq<string>)
    requires |xs| >= 1 && Names(xs)
    ensures GoPath.CleanSegments("/" + Join(xs, "/")) == xs
  {
    var p := "/" + Join(xs, "/");
    SplitOfNames(xs);
    assert GoPath.IsAbs(p);
    var parts := [""] + xs;
    assert parts[0] == "" && parts[1..] == xs;
    assert GoPath.CleanFold([], parts, true) == GoPath.CleanFold([], xs, true);
    CleanFoldNames([], xs, true);
  }

  /** An absolute path made of real names is already clean. */
  lemma CleanOfNames(xs: seq<string>)
    requires |xs| >= 1 && Names(xs)
    ensures GoPath.CleanSegments("/" + Join(xs, "/")) == xs
    ensures GoPath.Clean("/" + Join(xs, "/")) == "/" + Join(xs, "/")
  {
    var p := "/" + Join(xs, "/");
    CleanSegmentsOfNames(xs);
    assert p != "" && GoPath.IsAbs(p);
  }

  lemma {:induction false} JoinConcat(a: seq<string>, b: seq<string>, sep: string)
    requires |a| >= 1 && |b| >= 1
    ensures Join(a + b, sep) == Join(a, sep) + sep + Join(b, sep)
    decreases |a|
  {
    if |a| == 1 {
      JoinCons(a[0], b, sep);
      assert a + b == [a[0]] + b;
    } else {
      assert a + b == [a[0]] + (a[1..] + b);
      assert a == [a[0]] + a[1..];
      JoinCons(a[0], a[1..] + b, sep);
      JoinCons(a[0], a[1..], sep);
      JoinConcat(a[1..], b, sep);
    }
  }

  /** Below an absolute root of real names, a path of more real names is relative to it by those names. */
  lemma RelInside(rs: seq<string>, qs: seq<string>)
    requires |rs| >= 1 && |qs| >= 1 && Names(rs) && Names(qs)
    ensures GoPath.Rel("/" + Join(rs, "/"), "/" + Join(rs + qs, "/")) == GoPath.Ok(Join(qs, "/"))
  {
    var root := "/" + Join(rs, "/");
    var p := "/" + Join(rs + qs, "/");
    NamesConcat(rs, qs);
    CleanOfNames(rs);
    CleanOfNames(rs + qs);
    assert |GoPath.CleanSegments(root)| != |GoPath.CleanSegments(p)|;
    assert GoPath.Clean(root) != GoPath.Clean(p);
    var c := GoPath.CommonPrefixLen(rs, rs + qs);
    assert (rs + qs)[c..] == qs;
    assert GoPath.Repeat("..", 0) == [];
    assert GoPath.Repeat("..", |rs| - c) + (rs + qs)[c..] == qs;
  }

  /** A path of real names starts with ".." only when its first name does. */
  lemma JoinDotDot(qs: seq<string>)
    requires |qs| >= 1 && Names(qs) && !HasPrefix(qs[0], "..")
    ensures Join(qs, "/") != "" && !HasPrefix(Join(qs, "/"), "..")
  {
    if |qs| > 1 {
      JoinCons(qs[0], qs[1..], "/");
      assert qs == [qs[0]] + qs[1..];
      var j := Join(qs, "/");
      if |qs[0]| >= 2 {
        assert j[..2] == qs[0][..2];
      } else {
        assert j[1] == '/';
      }
    }
  }

  lemma Assoc4(a: string, b: string, c: string, d: string)
    ensures a + b + c + d == a + (b + c + d)
  {
  }

  /** Below a root, the path relative to the root is what was appended to it. */
  lemma RelBelow(rs: seq<string>, qs: seq<string>)
    requires |rs| >= 1 && |qs| >= 1 && Names(rs) && Names(qs)
    ensures GoPath.Rel("/" + Join(rs, "/"), "/" + Join(rs, "/") + "/" + Join(qs, "/")) == GoPath.Ok(Join(qs, "/"))
  {
    JoinConcat(rs, qs, "/");
    Assoc4("/", Join(rs, "/"), "/", Join(qs, "/"));
    RelInside(rs, qs);
  }

  /** A path below the root, with no space at the end of its relative part, needs no trimming. */
  lemma BelowNoEdgeSpace(root: string, q: string)
    requires GoPath.IsAbs(root) && q != "" && NoEdgeSpace(q)
    ensures var p := root + "/" + q; GoPath.IsAbs(p) && NoEdgeSpace(p)
  {
    var p := root + "/" + q;
    assert p[|p| - 1] == q[|q| - 1];
  }

  /**
   * A location reported as an absolute path below the root comes back as
   * the path relative to the root — unless its first name below the root
   * starts with "..".
   */
  lemma NormalizeInside(rs: seq<string>, qs: seq<string>)
    requires |rs| >= 1 && |qs| >= 1 && Names(rs) && Names(qs)
    requires !HasPrefix(qs[0], "..") && NoEdgeSpace(Join(qs, "/"))
    ensures Normalize("/" + Join(rs, "/"), "/" + Join(rs, "/") + "/" + Join(qs, "/")) == Join(qs, "/")
  {
    JoinDotDot(qs);
    BelowNoEdgeSpace("/" + Join(rs, "/"), Join(qs, "/"));
    RelBelow(rs, qs);
    NormalizeRel("/" + Join(rs, "/"), "/" + Join(rs, "/") + "/" + Join(qs, "/"), Join(qs, "/"));
  }

  lemma NormalizeRel(root: string, p: string, rel: string)
    requires GoPath.IsAbs(p) && NoEdgeSpace(p)
    requires GoPath.Rel(root, p) == GoPath.Ok(rel) && rel != "" && !HasPrefix(rel, "..")
    ensures Normalize(root, p) == rel
  {
    TrimSpaceNoop(p);
  }

  // ---------------------------------------------------------------------
  // ParseLocationOutput

  /**
   * One line of the server's output: blank lines, lines the pattern does not
   * match and lines whose line number is not a positive int are skipped; a
   * column that is not a positive int reads as 1.
   */
  function ParseLine(root: string, raw: string): (r: Option<Location>)
    ensures r.Some? ==> 1 <= r.value.Line <= MaxInt && 1 <= r.value.Column <= MaxInt
  {
    var line := TrimSpace(raw);
    if line == "" then None
    else
      match Match(line)
      case None => None
      case Some(m) =>
        var l := Atoi(m.1);
        if !l.Int? || l.value <= 0 then None
        else
          var c := Atoi(m.2);
          var col := if c.Int? && c.value > 0 then c.value else 1;
          Some(Location(Normalize(root, m.0), l.value, col))
  }

  /** The values f gives for the elements of s, in order, skipping elements it gives none for. */
  function FilterSome<T, U>(s: seq<T>, f: T -> Option<U>): seq<U> {
    if s == [] then []
    else
      var init := FilterSome(s[..|s| - 1], f);
      match f(s[|s| - 1])
      case Some(y) => init + [y]
      case None => init
  }

  lemma FilterSomeStep<T, U>(s: seq<T>, i: nat, f: T -> Option<U>)
    requires i < |s|
    ensures FilterSome(s[..i + 1], f) == FilterSome(s[..i], f) + (if f(s[i]).Some? then [f(s[i]).value] else [])
  {
    assert s[..i + 1][..i] == s[..i];
  }

  lemma {:induction false} FilterSomeMembers<T, U>(s: seq<T>, f: T -> Option<U>)
    ensures forall y :: y in FilterSome(s, f) ==> exists k :: 0 <= k < |s| && f(s[k]) == Some(y)
    ensures forall k :: 0 <= k < |s| && f(s[k]).Some? ==> f(s[k]).value in FilterSome(s, f)
  {
    if s != [] {
      var init := s[..|s| - 1];
      var last := s[|s| - 1];
      FilterSomeMembers(init, f);
      assert FilterSome(s, f) == FilterSome(init, f) + (if f(last).Some? then [f(last).value] else []);
      forall y | y in FilterSome(s, f)
        ensures exists k :: 0 <= k < |s| && f(s[k]) == Some(y)
      {
        if y in FilterSome(init, f) {
          var k :| 0 <= k < |init| && f(init[k]) == Some(y);
          assert s[k] == init[k];
        } else {
          assert f(s[|s| - 1]) == Some(y);
        }
      }
      forall k | 0 <= k < |s| && f(s[k]).Some?
        ensures f(s[k]).value in FilterSome(s, f)
      {
        if k < |init| {
          assert init[k] == s[k];
        }
      }
    }
  }

  /** The locations of the lines, in order. */
  function ParseLines(root: string, lines: seq<string>): seq<Location> {
    FilterSome(lines, (l: string) => ParseLine(root, l))
  }

  /** ParseLocationOutput: the locations of the output's lines, in order. */
  method ParseLocationOutput(root: string, output: string) returns (locations: seq<Location>)
    ensures locations == ParseLines(root, Split(output, "\n"))
  {
    var lines := Split(output, "\n");
    locations := [];
    for i := 0 to |lines|
      invariant locations == ParseLines(root, lines[..i])
    {
      FilterSomeStep(lines, i, (l: string) => ParseLine(root, l));
      var loc := ParseLine(root, lines[i]);
      if loc.Some? {
        locations := locations + [loc.value];
      }
    }
    assert lines[..|lines|] == lines;
  }

  /**
   * The locations parsed are exactly those of the lines that hold one, and
   * each has a positive line and column.
   */
  lemma ParseLinesSpec(root: string, lines: seq<string>)
    ensures forall loc :: loc in ParseLines(root, lines) ==> exists k :: 0 <= k < |lines| && ParseLine(root, lines[k]) == Some(loc)
    ensures forall k :: 0 <= k < |lines| && ParseLine(root, lines[k]).Some? ==> ParseLine(root, lines[k]).value in ParseLines(root, lines)
    ensures forall loc :: loc in ParseLines(root, lines) ==> loc.Line >= 1 && loc.Column >= 1
  {
    FilterSomeMembers(lines, (l: string) => ParseLine(root, l));
  }

  /** A line without ':' (such as a stray message) is skipped. */
  lemma ParseLineNoColon(root: string, raw: string)
    requires ':' !in raw
    ensures ParseLine(root, raw).None?
  {
    TrimSpaceSubstring(raw);
    NoColonNoMatch(TrimSpace(raw));
  }

  /**
   * A line `f:line:column` — possibly followed by '-' and text without ':' —
   * with positive numbers that fit an int reads back as that location, its
   * path normalized.
   */
  lemma ParseLineOf(root: string, f: string, line: int, column: int, rest: string)
    requires 1 <= line <= MaxInt && 1 <= column <= MaxInt
    requires f != [] && !IsSpace(f[0])
    requires rest == [] || (rest[0] == '-' && ':' !in rest && !IsSpace(rest[|rest| - 1]))
    ensures ParseLine(root, f + ":" + Itoa(line) + ":" + Itoa(column) + rest) == Some(Location(Normalize(root, f), line, column))
  {
    var l := Itoa(line);
    var c := Itoa(column);
    var s := f + ":" + l + ":" + c + rest;
    PositionNoEdgeSpace(f, l, c, rest);
    MatchOf(f, l, c, rest);
    AtoiItoa(line);
    AtoiItoa(column);
    ParseMatched(root, s, f, l, c, line, column);
  }

  lemma PositionNoEdgeSpace(f: string, l: string, c: string, rest: string)
    requires f != [] && !IsSpace(f[0]) && |c| > 0 && AllDigits(c)
    requires rest == [] || !IsSpace(rest[|rest| - 1])
    ensures var s := f + ":" + l + ":" + c + rest; s != "" && NoEdgeSpace(s)
  {
    var s := f + ":" + l + ":" + c + rest;
    assert s[0] == f[0];
    assert s[|s| - 1] == if rest == [] then c[|c| - 1] else rest[|rest| - 1];
  }

  /** A line the pattern matches, with a positive line and column that fit an int, reads as that location. */
  lemma ParseMatched(root: string, s: string, f: string, l: string, c: string, line: int, column: int)
    requires s != "" && NoEdgeSpace(s) && Match(s) == Some((f, l, c))
    requires Atoi(l) == Int(line) && line >= 1 && Atoi(c) == Int(column) && column >= 1
    ensures ParseLine(root, s) == Some(Location(Normalize(root, f), line, column))
  {
    TrimSpaceNoop(s);
  }

  // ---------------------------------------------------------------------
  // DeduplicateLocations

  /** The key a location is de-duplicated by: `file:line:column`. */
  function LocationKey(loc: Location): string {
    loc.File + ":" + Itoa(loc.Line) + ":" + Itoa(loc.Column)
  }

  /** The order locations are sorted in: by file, then line, then column. */
  function SortKey(loc: Location): seq<KeyPart> {
    [StrKey(loc.File), IntKey(loc.Line), IntKey(loc.Column)]
  }

  /** The text after the last ':' (all of it when there is none). */
  function AfterLastColon(s: string): string {
    if s == [] || s[|s| - 1] == ':' then [] else AfterLastColon(s[..|s| - 1]) + [s[|s| - 1]]
  }

  lemma {:induction false} AfterLastColonOf(x: string, y: string)
    requires ':' !in y
    ensures AfterLastColon(x + [':'] + y) == y
    decreases |y|
  {
    var s := x + [':'] + y;
    if y != [] {
      var init := y[..|y| - 1];
      assert s[..|s| - 1] == x + [':'] + init;
      AfterLastColonOf(x, init);
      assert y == init + [y[|y| - 1]];
    }
  }

  /** Text, ':' and text without ':' splits back uniquely. */
  lemma LastColonSplit(x1: string, y1: string, x2: string, y2: string)
    requires ':' !in y1 && ':' !in y2
    requires x1 + [':'] + y1 == x2 + [':'] + y2
    ensures x1 == x2 && y1 == y2
  {
    var s := x1 + [':'] + y1;
    AfterLastColonOf(x1, y1);
    AfterLastColonOf(x2, y2);
    assert x1 == s[..|x1|] && x2 == s[..|x2|];
  }

  lemma ItoaNoColon(n: int)
    ensures ':' !in Itoa(n)
  {
  }

  /** Different locations have different keys: the key can be read back from its end. */
  lemma LocationKeyInjective(a: Location, b: Location)
    requires LocationKey(a) == LocationKey(b)
    ensures a == b
  {
    ItoaNoColon(a.Line);
    ItoaNoColon(a.Column);
    ItoaNoColon(b.Line);
    ItoaNoColon(b.Column);
    LastColonSplit(a.File + ":" + Itoa(a.Line), Itoa(a.Column), b.File + ":" + Itoa(b.Line), Itoa(b.Column));
    LastColonSplit(a.File, Itoa(a.Line), b.File, Itoa(b.Line));
    ItoaInjective(a.Line, b.Line);
    ItoaInjective(a.Column, b.Column);
  }

  /** The result of DeduplicateLocations: unchanged for one location or none, else first occurrences by key, sorted. */
  function Deduplicated(locs: seq<Location>): seq<Location> {
    if |locs| <= 1 then locs else SortByKey(DistinctBy(locs, LocationKey), SortKey)
  }

  lemma DistinctByStep<T, K>(s: seq<T>, i: nat, key: T -> K)
    requires i < |s|
    ensures Keys(s[..i + 1], key) == Keys(s[..i], key) + [key(s[i])]
    ensures DistinctBy(s[..i + 1], key) ==
      if key(s[i]) in Keys(s[..i], key) then DistinctBy(s[..i], key) else DistinctBy(s[..i], key) + [s[i]]
  {
    assert s[..i + 1][..i] == s[..i];
  }

  /** DeduplicateLocations: a loop recording each key seen, then a sort. */
  method DeduplicateLocations(locations: seq<Location>) returns (out: seq<Location>)
    ensures out == Deduplicated(locations)
  {
    if |locations| <= 1 {
      return locations;
    }
    var seen: set<string> := {};
    out := [];
    for i := 0 to |locations|
      invariant out == DistinctBy(locations[..i], LocationKey)
      invariant forall k :: k in seen <==> k in Keys(locations[..i], LocationKey)
    {
      DistinctByStep(locations, i, LocationKey);
      var key := LocationKey(locations[i]);
      if key !in seen {
        seen := seen + {key};
        out := out + [locations[i]];
      }
    }
    assert locations[..|locations|] == locations;
    out := SortByKey(out, SortKey);
  }

  lemma SortKeyInjective()
    ensures forall x, y :: SortKey(x) == SortKey(y) ==> x == y
  {
    forall x, y | SortKey(x) == SortKey(y)
      ensures x == y
    {
      assert SortKey(x)[0] == SortKey(y)[0] && SortKey(x)[1] == SortKey(y)[1] && SortKey(x)[2] == SortKey(y)[2];
    }
  }

  /** The locations DistinctBy keeps are all different and include every input location. */
  lemma DistinctLocations(locs: seq<Location>)
    ensures NoDups(DistinctBy(locs, LocationKey))
    ensures forall x :: x in DistinctBy(locs, LocationKey) <==> x in locs
  {
    forall a, b | LocationKey(a) == LocationKey(b)
      ensures a == b
    {
      LocationKeyInjective(a, b);
    }
    DistinctByInjective(locs, LocationKey);
  }

  /** With a key that tells all elements apart, DistinctBy keeps every element exactly once. */
  lemma DistinctByInjective<T, K(!new)>(s: seq<T>, key: T -> K)
    requires forall a, b :: key(a) == key(b) ==> a == b
    ensures NoDups(DistinctBy(s, key))
    ensures forall x :: x in DistinctBy(s, key) <==> x in s
  {
    var d := DistinctBy(s, key);
    DistinctByKeysNoDups(s, key);
    forall i, j | 0 <= i < j < |d|
      ensures d[i] != d[j]
    {
      assert Keys(d, key)[i] != Keys(d, key)[j];
    }
    DistinctBySubset(s, key);
    forall x | x in s
      ensures x in d
    {
      var i :| 0 <= i < |s| && s[i] == x;
      DistinctByCovers(s, key, i);
      var k :| 0 <= k < |d| && Keys(d, key)[k] == key(x);
    }
  }

  /**
   * De-duplication keeps each location exactly once and no other, in
   * strictly ascending (file, line, column) order; since no two locations
   * share a sort key, any sorting algorithm yields this same sequence.
   */
  lemma DeduplicatedSpec(locs: seq<Location>)
    ensures var r := Deduplicated(locs);
      && NoDups(r)
      && (forall x :: x in r <==> x in locs)
      && (|locs| > 1 ==> forall i, j :: 0 <= i < j < |r| ==> KeyLess(SortKey(r[i]), SortKey(r[j])))
  {
    var r := Deduplicated(locs);
    if |locs| <= 1 {
      if |locs| == 1 {
        assert NoDups(locs);
      }
    } else {
      var d := DistinctBy(locs, LocationKey);
      DistinctLocations(locs);
      SortByKeySorted(d, SortKey);
      NoDupsOfMultiset(d, r);
      MultisetMembers(d, r);
      SortKeyInjective();
      forall i, j | 0 <= i < j < |r|
        ensures KeyLess(SortKey(r[i]), SortKey(r[j]))
      {
        assert KeyLe(SortKey(r[i]), SortKey(r[j]));
        assert r[i] != r[j];
      }
    }
  }

  /** De-duplicating a de-duplicated list changes nothing. */
  lemma DeduplicatedIdempotent(locs: seq<Location>)
    ensures Deduplicated(Deduplicated(locs)) == Deduplicated(locs)
  {
    var r := Deduplicated(locs);
    if |locs| > 1 && |r| > 1 {
      DeduplicatedSpec(locs);
      assert NoDups(Keys(r, LocationKey)) by {
        forall i, j | 0 <= i < j < |r|
          ensures Keys(r, LocationKey)[i] != Keys(r, LocationKey)[j]
        {
          if LocationKey(r[i]) == LocationKey(r[j]) {
            LocationKeyInjective(r[i], r[j]);
          }
        }
      }
      DistinctByNoDupKeys(r, LocationKey);
      SortKeyInjective();
      forall i, j | 0 <= i < j < |r|
        ensures KeyLe(SortKey(r[i]), SortKey(r[j]))
      {
      }
      SortByKeyUnique(r, r, SortKey);
    }
  }

  // ---------------------------------------------------------------------
  // runQueryWithRunner

  /**
   * runQueryWithRunner: a missing runner, a blank server name and a line
   * of 0 or less are rejected, in that order, before anything runs; any
   * server but gopls is unsupported; gopls is run in the root with the
   * command and the position, its failure is wrapped, and its output is
   * parsed and de-duplicated.
   */
  method RunQuery(root: string, file: string, line: int, column: int, server: string, command: string,
                  runner: Option<Runner>)
    returns (r: Result<seq<Location>, QueryError>)
    ensures runner.None? ==> r == Failure(RunnerRequired)
    ensures runner.Some? && TrimSpace(server) == "" ==> r == Failure(ServerRequired)
    ensures runner.Some? && TrimSpace(server) != "" && line <= 0 ==> r == Failure(LineNotPositive)
    ensures runner.Some? && TrimSpace(server) != "" && line > 0 && server != Gopls ==>
      r == Failure(Unsupported(server, command))
    ensures runner.Some? && line > 0 && server == Gopls ==>
      match runner.value(root, server, command, Position(root, file, line, column))
      case Failure(e) => r == Failure(QueryFailed(command, e))
      case Success(output) => r == Success(Deduplicated(ParseLines(root, Split(output, "\n"))))
  {
    if runner.None? {
      return Failure(RunnerRequired);
    }
    if TrimSpace(server) == "" {
      return Failure(ServerRequired);
    }
    if line <= 0 {
      return Failure(LineNotPositive);
    }
    var col := column;
    if col <= 0 {
      col := 1;
    }
    var absFile := file;
    if !GoPath.IsAbs(absFile) {
      absFile := GoPath.Join2(root, file);
    }
    assert col == ColumnOrOne(column) && absFile == AbsFile(root, file);
    var position := absFile + ":" + Itoa(line) + ":" + Itoa(col);
    assert position == Position(root, file, line, column);
    if server == Gopls {
      r := QueryGopls(root, command, position, runner.value);
      return;
    }
    return Failure(Unsupported(server, command));
  }

  /** The gopls branch: run the tool; wrap its failure, or parse and de-duplicate its output. */
  method QueryGopls(root: string, command: string, position: string, runner: Runner)
    returns (r: Result<seq<Location>, QueryError>)
    ensures match runner(root, Gopls, command, position)
      case Failure(e) => r == Failure(QueryFailed(command, e))
      case Success(output) => r == Success(Deduplicated(ParseLines(root, Split(output, "\n"))))
  {
    var result := runner(root, Gopls, command, position);
    if result.Failure? {
      return Failure(QueryFailed(command, result.error));
    }
    var locations := ParseLocationOutput(root, result.value);
    var out := DeduplicateLocations(locations);
    return Success(out);
  }

  /**
   * A query for a relative file below the root, answered by the server with
   * that very position, reads back as the same file, line and column: the
   * position written and the output parser agree.
   */
  lemma QueryRoundTrip(rs: seq<string>, qs: seq<string>, line: int, column: int)
    requires |rs| >= 1 && |qs| >= 1 && Names(rs) && Names(qs)
    requires !HasPrefix(qs[0], "..") && NoEdgeSpace(Join(qs, "/"))
    requires 1 <= line <= MaxInt && column <= MaxInt
    ensures var root := "/" + Join(rs, "/");
      ParseLine(root, Position(root, Join(qs, "/"), line, column)) == Some(Location(Join(qs, "/"), line, ColumnOrOne(column)))
  {
    var root := "/" + Join(rs, "/");
    var q := Join(qs, "/");
    var p := root + "/" + q;
    AbsFileBelow(rs, qs);
    ParseLineOf(root, p, line, ColumnOrOne(column), []);
    NormalizeInside(rs, qs);
  }

  /** A relative path of real names joined to a root of real names is the root, '/', and the path. */
  lemma AbsFileBelow(rs: seq<string>, qs: seq<string>)
    requires |rs| >= 1 && |qs| >= 1 && Names(rs) && Names(qs)
    ensures AbsFile("/" + Join(rs, "/"), Join(qs, "/")) == "/" + Join(rs, "/") + "/" + Join(qs, "/")
  {
    GoPath.JoinFirstChar(qs, "/");
    JoinConcat(rs, qs, "/");
    Assoc4("/", Join(rs, "/"), "/", Join(qs, "/"));
    NamesConcat(rs, qs);
    CleanOfNames(rs + qs);
  }

  lemma NamesConcat(rs: seq<string>, qs: seq<string>)
    requires Names(rs) && Names(qs)
    ensures Names(rs + qs)
  {
    forall k | 0 <= k < |rs + qs|
      ensures Name((rs + qs)[k])
    {
      if k < |rs| { assert (rs + qs)[k] == rs[k]; } else { assert (rs + qs)[k] == qs[k - |rs|]; }
    }
  }
}
