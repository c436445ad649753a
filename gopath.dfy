/**
 * The parts of Go's `path/filepath` that skelly relies on, for a Unix host:
 * the separator is '/', ToSlash is the identity and there are no volume names.
 * Clean and Rel work on the '/'-separated segments of a path.
 */
module GoPath {
  import opened Strs

  datatype Result<T> = Ok(value: T) | Err(msg: string)

  /** filepath.ToSlash on a host whose separator already is '/'. */
  function ToSlash(p: string): string {
    p
  }

  /** filepath.IsAbs */
  predicate IsAbs(p: string) {
    |p| > 0 && p[0] == '/'
  }

  // ---------------------------------------------------------------------
  // Clean

  /**
   * The lexical processing step of filepath.Clean over segments: empty and
   * "." segments vanish, ".." removes the preceding real segment, is dropped
   * at the root of an absolute path, and is kept otherwise.
   */
  function CleanFold(acc: seq<string>, parts: seq<string>, rooted: bool): seq<string>
    decreases |parts|
  {
    if parts == [] then acc
    else
      var p := parts[0];
      if p == "" || p == "." then CleanFold(acc, parts[1..], rooted)
      else if p == ".." then
        if |acc| > 0 && acc[|acc| - 1] != ".." then CleanFold(acc[..|acc| - 1], parts[1..], rooted)
        else if rooted then CleanFold(acc, parts[1..], rooted)
        else CleanFold(acc + [".."], parts[1..], rooted)
      else CleanFold(acc + [p], parts[1..], rooted)
  }

  /** The segments of the cleaned form of p. */
  function CleanSegments(p: string): seq<string> {
    CleanFold([], Split(p, "/"), IsAbs(p))
  }

  /** filepath.Clean */
  function Clean(p: string): (r: string)
    ensures |r| > 0
    ensures IsAbs(r) <==> IsAbs(p)
  {
    if p == "" then "."
    else
      var body := Join(CleanSegments(p), "/");
      if IsAbs(p) then "/" + body
      else if body == "" then "."
      else
        assert body[0] != '/' by { CleanBodyNotRooted(p); }
        body
  }

  /** Every segment CleanFold produces is a real name or "..". */
  predicate CleanSegment(s: string) {
    s != "" && s != "." && '/' !in s
  }

  lemma {:induction false} CleanFoldSegments(acc: seq<string>, parts: seq<string>, rooted: bool)
    requires forall k :: 0 <= k < |acc| ==> CleanSegment(acc[k])
    requires forall k :: 0 <= k < |parts| ==> '/' !in parts[k]
    ensures forall k :: 0 <= k < |CleanFold(acc, parts, rooted)| ==> CleanSegment(CleanFold(acc, parts, rooted)[k])
    decreases |parts|
  {
    if parts != [] {
      var p := parts[0];
      if p == "" || p == "." {
        CleanFoldSegments(acc, parts[1..], rooted);
      } else if p == ".." {
        if |acc| > 0 && acc[|acc| - 1] != ".." {
          CleanFoldSegments(acc[..|acc| - 1], parts[1..], rooted);
        } else if rooted {
          CleanFoldSegments(acc, parts[1..], rooted);
        } else {
          CleanFoldSegments(acc + [".."], parts[1..], rooted);
        }
      } else {
        CleanFoldSegments(acc + [p], parts[1..], rooted);
      }
    }
  }

  lemma NoSlashOfNotContains(s: string)
    requires !Contains(s, "/")
    ensures '/' !in s
  {
    if '/' in s {
      var k :| 0 <= k < |s| && s[k] == '/';
      assert OccursAt(s, "/", k);
    }
  }

  /** The segments of a cleaned path are real names or "..". */
  lemma CleanSegmentsShape(p: string)
    ensures forall k :: 0 <= k < |CleanSegments(p)| ==> CleanSegment(CleanSegments(p)[k])
  {
    var parts := Split(p, "/");
    SplitPiecesFree(p, "/");
    forall k | 0 <= k < |parts|
      ensures '/' !in parts[k]
    {
      NoSlashOfNotContains(parts[k]);
    }
    CleanFoldSegments([], parts, IsAbs(p));
  }

  lemma JoinFirstChar(segs: seq<string>, sep: string)
    requires |segs| > 0 && |segs[0]| > 0
    ensures |Join(segs, sep)| > 0 && Join(segs, sep)[0] == segs[0][0]
  {
  }

  lemma CleanBodyNotRooted(p: string)
    ensures var body := Join(CleanSegments(p), "/"); body == "" || body[0] != '/'
  {
    var segs := CleanSegments(p);
    CleanSegmentsShape(p);
    if |segs| > 0 {
      JoinFirstChar(segs, "/");
    } else {
      assert Join(segs, "/") == "";
    }
  }

  // ---------------------------------------------------------------------
  // Join, Base, Dir, Ext

  /** filepath.Join(a, b): the elements from the first non-empty one on, joined by '/' and cleaned; "" if all are empty. */
  function Join2(a: string, b: string): (r: string)
    ensures r == "" <==> a == "" && b == ""
  {
    if a != "" then Clean(a + "/" + b)
    else if b != "" then Clean(b)
    else ""
  }

  /** The part of t after its last '/'. */
  function LastElement(t: string): (r: string)
    requires t != "" && t[|t| - 1] != '/'
    ensures r != "" && '/' !in r && HasSuffix(t, r)
    ensures |r| < |t| ==> t[|t| - |r| - 1] == '/'
  {
    var i := LastIndex(t, "/");
    assert i >= 0 ==> OccursAt(t, "/", i);
    assert !OccursAt(t, "/", |t| - 1);
    var r := t[i + 1..];
    assert forall k :: 0 <= k < |r| ==> r[k] == t[i + 1 + k] && !OccursAt(t, "/", i + 1 + k);
    r
  }

  /** filepath.Base: the last element of p, "." for "" and "/" for a path of slashes only. */
  function Base(p: string): (r: string)
    ensures |r| > 0
    ensures p == "" ==> r == "."
    ensures p != "" && TrimRightBy(p, Cutset("/")) == "" ==> r == "/"
    ensures TrimRightBy(p, Cutset("/")) != "" ==> r == LastElement(TrimRightBy(p, Cutset("/")))
  {
    if p == "" then "."
    else
      var t := TrimRightBy(p, Cutset("/"));
      if t == "" then "/" else LastElement(t)
  }

  /** filepath.Dir: everything up to the last separator, cleaned. */
  function Dir(p: string): (r: string)
    ensures |r| > 0
  {
    Clean(p[..LastIndex(p, "/") + 1])
  }

  function ExtStart(p: string, i: int): (k: int)
    requires -1 <= i < |p|
    ensures -1 <= k <= i
    ensures k >= 0 ==> p[k] == '.' && forall j :: k < j <= i ==> p[j] != '/' && p[j] != '.'
    ensures k < 0 ==> forall j :: 0 <= j <= i && p[j] == '.' ==> exists m :: j < m <= i && p[m] == '/'
    decreases i + 1
  {
    if i < 0 || p[i] == '/' then -1
    else if p[i] == '.' then i
    else ExtStart(p, i - 1)
  }

  /** filepath.Ext: the suffix from the last '.' of the last element, or "". */
  function Ext(p: string): (r: string)
    ensures HasSuffix(p, r)
    ensures r == "" || (r[0] == '.' && forall j :: 0 < j < |r| ==> r[j] != '/' && r[j] != '.')
  {
    var k := ExtStart(p, |p| - 1);
    if k < 0 then "" else p[k..]
  }

  // ---------------------------------------------------------------------
  // Rel

  function CommonPrefixLen(a: seq<string>, b: seq<string>): (n: nat)
    ensures n <= |a| && n <= |b| && a[..n] == b[..n]
    ensures n == |a| || n == |b| || a[n] != b[n]
  {
    if a == [] || b == [] || a[0] != b[0] then 0
    else
      var m := CommonPrefixLen(a[1..], b[1..]);
      assert a[..m + 1] == [a[0]] + a[1..][..m];
      assert b[..m + 1] == [b[0]] + b[1..][..m];
      1 + m
  }

  function Repeat(s: string, n: nat): seq<string> {
    if n == 0 then [] else [s] + Repeat(s, n - 1)
  }

  /**
   * filepath.Rel: a relative path that, joined to base, names targ.
   * Both are cleaned; mixing an absolute and a relative path, or having to
   * climb out of a leading ".." of base, is an error. A target of "."
   * below base comes back without filepath.Rel's trailing "/." (Rel("a",
   * ".") is ".." here, "../." in Go); only absolute targets are used.
   */
  function Rel(base: string, targ: string): (r: Result<string>)
    ensures r.Ok? && Clean(base) == Clean(targ) ==> r.value == "."
    ensures IsAbs(base) != IsAbs(targ) ==> r.Err?
  {
    if Clean(base) == Clean(targ) then Ok(".")
    else if IsAbs(base) != IsAbs(targ) then Err("Rel: can't make " + targ + " relative to " + base)
    else
      var bs := CleanSegments(base);
      var ts := CleanSegments(targ);
      var c := CommonPrefixLen(bs, ts);
      if c < |bs| && bs[c] == ".." then Err("Rel: can't make " + targ + " relative to " + base)
      else Ok(Strs.Join(Repeat("..", |bs| - c) + ts[c..], "/"))
  }
}
