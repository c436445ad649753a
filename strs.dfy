/**
 * The parts of Go's `strings` package that skelly relies on.
 * A Go string is modelled as a sequence of characters; since code-point
 * order agrees with UTF-8 byte order, comparisons and searches agree with
 * Go's byte-wise ones.
 */
module Strs {

  /**
   * unicode.IsSpace: the ASCII white space '\t', '\n', '\v', '\f', '\r' and
   * ' ', then U+0085, U+00A0 and the Unicode space separators.
   */
  predicate IsSpace(c: char) {
    if c <= ' ' then c == ' ' || '\t' <= c <= '\r'
    else if c < '\U{0085}' then false
    else (c == '\U{0085}' || c == '\U{00A0}' || c == '\U{1680}' || '\U{2000}' <= c <= '\U{200A}'
      || c == '\U{2028}' || c == '\U{2029}' || c == '\U{202F}' || c == '\U{205F}' || c == '\U{3000}')
  }

  predicate AllSpace(s: string) {
    forall k :: 0 <= k < |s| ==> IsSpace(s[k])
  }

  // ---------------------------------------------------------------------
  // Trimming

  /** The set of characters a trim removes: white space, or the characters of a cutset. */
  datatype CharClass = Space | Cutset(chars: string)

  predicate InClass(c: char, cls: CharClass) {
    match cls
    case Space => IsSpace(c)
    case Cutset(chars) => c in chars
  }

  /** strings.TrimLeftFunc: drops the longest prefix whose characters are in cls. */
  function TrimLeftBy(s: string, cls: CharClass): (r: string)
    ensures |r| <= |s| && r == s[|s| - |r|..]
    ensures forall k :: 0 <= k < |s| - |r| ==> InClass(s[k], cls)
    ensures r == [] || !InClass(r[0], cls)
  {
    if |s| > 0 && InClass(s[0], cls) then TrimLeftBy(s[1..], cls) else s
  }

  /** strings.TrimRightFunc: drops the longest suffix whose characters are in cls. */
  function TrimRightBy(s: string, cls: CharClass): (r: string)
    ensures |r| <= |s| && r == s[..|r|]
    ensures forall k :: |r| <= k < |s| ==> InClass(s[k], cls)
    ensures r == [] || !InClass(r[|r| - 1], cls)
  {
    if |s| > 0 && InClass(s[|s| - 1], cls) then TrimRightBy(s[..|s| - 1], cls) else s
  }

  /** strings.TrimSpace */
  function TrimSpace(s: string): (r: string)
    ensures |r| <= |s|
    ensures r == [] || (!IsSpace(r[0]) && !IsSpace(r[|r| - 1]))
  {
    TrimRightBy(TrimLeftBy(s, Space), Space)
  }

  /** strings.Trim: drops leading and trailing characters that occur in cutset. */
  function Trim(s: string, cutset: string): (r: string)
    ensures |r| <= |s|
    ensures r == [] || (r[0] !in cutset && r[|r| - 1] !in cutset)
  {
    TrimRightBy(TrimLeftBy(s, Cutset(cutset)), Cutset(cutset))
  }

  predicate NoEdgeSpace(s: string) {
    s == [] || (!IsSpace(s[0]) && !IsSpace(s[|s| - 1]))
  }

  lemma TrimLeftNoop(s: string, cls: CharClass)
    requires s == [] || !InClass(s[0], cls)
    ensures TrimLeftBy(s, cls) == s
  {
  }

  lemma TrimRightNoop(s: string, cls: CharClass)
    requires s == [] || !InClass(s[|s| - 1], cls)
    ensures TrimRightBy(s, cls) == s
  {
  }

  /** A string without white space at either end is its own TrimSpace. */
  lemma TrimSpaceNoop(s: string)
    requires NoEdgeSpace(s)
    ensures TrimSpace(s) == s
  {
    TrimLeftNoop(s, Space);
    TrimRightNoop(s, Space);
  }

  lemma TrimSpaceIdempotent(s: string)
    ensures TrimSpace(TrimSpace(s)) == TrimSpace(s)
  {
    TrimSpaceNoop(TrimSpace(s));
  }

  /** TrimSpace yields "" exactly for all-space strings. */
  lemma TrimSpaceEmptyIff(s: string)
    ensures TrimSpace(s) == [] <==> AllSpace(s)
  {
    if AllSpace(s) {
      AllSpaceTrimLeft(s);
    }
  }

  lemma {:induction false} AllSpaceTrimLeft(s: string)
    requires AllSpace(s)
    ensures TrimLeftBy(s, Space) == []
    decreases |s|
  {
    if |s| > 0 {
      AllSpaceTrimLeft(s[1..]);
    }
  }

  lemma {:induction false} TrimLeftSpacePrefix(w: string, s: string)
    requires AllSpace(w)
    ensures TrimLeftBy(w + s, Space) == TrimLeftBy(s, Space)
    decreases |w|
  {
    if |w| > 0 {
      assert IsSpace(w[0]) && (w + s)[0] == w[0];
      assert (w + s)[1..] == w[1..] + s;
      TrimLeftSpacePrefix(w[1..], s);
    } else {
      assert w + s == s;
    }
  }

  lemma {:induction false} TrimRightSpaceSuffix(s: string, w: string)
    requires AllSpace(w)
    ensures TrimRightBy(s + w, Space) == TrimRightBy(s, Space)
    decreases |w|
  {
    if |w| > 0 {
      assert IsSpace(w[|w| - 1]) && (s + w)[|s + w| - 1] == w[|w| - 1];
      assert (s + w)[..|s + w| - 1] == s + w[..|w| - 1];
      TrimRightSpaceSuffix(s, w[..|w| - 1]);
    } else {
      assert s + w == s;
    }
  }

  lemma {:induction false} TrimLeftSpaceAppend(s: string, w: string)
    requires AllSpace(w)
    ensures TrimLeftBy(s + w, Space) == TrimLeftBy(s, Space) + w
            || (TrimLeftBy(s + w, Space) == [] && TrimLeftBy(s, Space) == [])
    decreases |s|
  {
    if |s| == 0 {
      assert s + w == w;
      AllSpaceTrimLeft(w);
    } else if IsSpace(s[0]) {
      assert (s + w)[1..] == s[1..] + w;
      TrimLeftSpaceAppend(s[1..], w);
    } else {
      assert (s + w)[0] == s[0];
    }
  }

  lemma TrimSpaceSpacePrefix(w: string, s: string)
    requires AllSpace(w)
    ensures TrimSpace(w + s) == TrimSpace(s)
  {
    TrimLeftSpacePrefix(w, s);
  }

  lemma TrimSpaceSpaceSuffix(s: string, w: string)
    requires AllSpace(w)
    ensures TrimSpace(s + w) == TrimSpace(s)
  {
    TrimLeftSpaceAppend(s, w);
    var t := TrimLeftBy(s, Space);
    if TrimLeftBy(s + w, Space) == t + w {
      TrimRightSpaceSuffix(t, w);
    }
  }

  /** Surrounding white space does not change TrimSpace's result. */
  lemma TrimSpaceSurround(w1: string, s: string, w2: string)
    requires AllSpace(w1) && AllSpace(w2)
    ensures TrimSpace(w1 + (s + w2)) == TrimSpace(s)
  {
    TrimSpaceSpacePrefix(w1, s + w2);
    TrimSpaceSpaceSuffix(s, w2);
  }

  /** TrimSpace only removes characters. */
  lemma TrimSpaceSubstring(s: string)
    ensures forall c :: c in TrimSpace(s) ==> c in s
  {
    var l := TrimLeftBy(s, Space);
    var r := TrimRightBy(l, Space);
    forall c | c in r
      ensures c in s
    {
      var k :| 0 <= k < |r| && r[k] == c;
    }
  }

  // ---------------------------------------------------------------------
  // Prefixes and suffixes

  predicate HasPrefix(s: string, p: string) {
    |p| <= |s| && s[..|p|] == p
  }

  predicate HasSuffix(s: string, p: string) {
    |p| <= |s| && s[|s| - |p|..] == p
  }

  /** A text framed by head and tail starts with head, ends with tail, and holds the text between them. */
  lemma Framed(head: string, t: string, tail: string)
    ensures var c := head + t + tail;
      HasPrefix(c, head) && HasSuffix(c, tail) && c[|head|..|c| - |tail|] == t
  {
    var c := head + t + tail;
    assert c[..|head|] == head;
    assert c[|c| - |tail|..] == tail;
    assert c[|head|..|c| - |tail|] == t;
  }

  /** A text ends with what was appended to it. */
  lemma SuffixOfAppend(s: string, p: string)
    ensures HasSuffix(s + p, p)
  {
    assert (s + p)[|s|..] == p;
  }

  /** A text that differs from p at one position counted from the end does not end with p. */
  lemma NotSuffixAt(s: string, p: string, k: nat)
    requires k < |p| && (|p| > |s| || s[|s| - |p| + k] != p[k])
    ensures !HasSuffix(s, p)
  {
    if |p| <= |s| {
      assert s[|s| - |p|..][k] == s[|s| - |p| + k];
    }
  }

  /** strings.TrimPrefix */
  function TrimPrefix(s: string, p: string): (r: string)
    ensures HasPrefix(s, p) ==> p + r == s
    ensures !HasPrefix(s, p) ==> r == s
  {
    if HasPrefix(s, p) then s[|p|..] else s
  }

  /** strings.TrimSuffix */
  function TrimSuffix(s: string, p: string): (r: string)
    ensures HasSuffix(s, p) ==> r + p == s
    ensures !HasSuffix(s, p) ==> r == s
  {
    if HasSuffix(s, p) then s[..|s| - |p|] else s
  }

  // ---------------------------------------------------------------------
  // Searching

  predicate OccursAt(s: string, sub: string, i: int) {
    0 <= i && i + |sub| <= |s| && s[i..i + |sub|] == sub
  }

  function IndexFrom(s: string, sub: string, from: nat): (r: int)
    requires from <= |s|
    ensures r == -1 || (from <= r && OccursAt(s, sub, r))
    ensures forall j :: from <= j < (if r == -1 then |s| + 1 else r) ==> !OccursAt(s, sub, j)
    decreases |s| - from
  {
    if OccursAt(s, sub, from) then from
    else if from == |s| then -1
    else IndexFrom(s, sub, from + 1)
  }

  /** strings.Index: the first occurrence of sub, or -1. */
  function Index(s: string, sub: string): (r: int)
    ensures r == -1 || OccursAt(s, sub, r)
    ensures forall j :: 0 <= j < (if r == -1 then |s| + 1 else r) ==> !OccursAt(s, sub, j)
  {
    IndexFrom(s, sub, 0)
  }

  function LastIndexFrom(s: string, sub: string, to: nat): (r: int)
    requires to <= |s|
    ensures r == -1 || (r <= to && OccursAt(s, sub, r))
    ensures forall j :: r < j <= to ==> !OccursAt(s, sub, j)
  {
    if OccursAt(s, sub, to) then to
    else if to == 0 then -1
    else LastIndexFrom(s, sub, to - 1)
  }

  /** strings.LastIndex: the last occurrence of sub, or -1. */
  function LastIndex(s: string, sub: string): (r: int)
    ensures r == -1 || OccursAt(s, sub, r)
    ensures forall j :: r < j <= |s| ==> !OccursAt(s, sub, j)
  {
    LastIndexFrom(s, sub, |s|)
  }

  /** strings.Contains */
  predicate Contains(s: string, sub: string) {
    Index(s, sub) >= 0
  }

  lemma ContainsAt(s: string, sub: string, i: int)
    requires OccursAt(s, sub, i)
    ensures Contains(s, sub)
  {
  }

  lemma OccursWithin(s: string, sub: string, i: int, j: int)
    requires 0 <= i && i + |sub| <= j <= |s|
    requires OccursAt(s[..j], sub, i)
    ensures OccursAt(s, sub, i)
  {
    assert s[..j][i..i + |sub|] == s[i..i + |sub|];
  }

  // ---------------------------------------------------------------------
  // Split and Join

  /** strings.Join */
  function Join(parts: seq<string>, sep: string): string {
    if |parts| == 0 then ""
    else if |parts| == 1 then parts[0]
    else parts[0] + sep + Join(parts[1..], sep)
  }

  lemma JoinCons(p: string, rest: seq<string>, sep: string)
    requires |rest| > 0
    ensures Join([p] + rest, sep) == p + sep + Join(rest, sep)
  {
    assert ([p] + rest)[1..] == rest;
  }

  /** A character in neither the parts nor the separator is not in their join. */
  lemma {:induction false} JoinAvoids(parts: seq<string>, sep: string, c: char)
    requires forall k :: 0 <= k < |parts| ==> c !in parts[k]
    requires c !in sep
    ensures c !in Join(parts, sep)
  {
    if |parts| > 1 {
      JoinAvoids(parts[1..], sep, c);
    }
  }

  /** Each part occurs in the join, at the end of the parts and separators before it. */
  lemma {:induction false} JoinHolds(parts: seq<string>, sep: string, k: nat)
    requires k < |parts|
    ensures Contains(Join(parts, sep), parts[k])
  {
    var j := Join(parts, sep);
    if k == 0 {
      assert j[..|parts[0]|] == parts[0];
      ContainsAt(j, parts[0], 0);
    } else {
      JoinHolds(parts[1..], sep, k - 1);
      var rest := Join(parts[1..], sep);
      var i := Index(rest, parts[k]);
      var off := |parts[0]| + |sep|;
      assert j == parts[0] + sep + rest;
      assert j[off + i..off + i + |parts[k]|] == rest[i..i + |parts[k]|];
      ContainsAt(j, parts[k], off + i);
    }
  }

  /** What a middle part contains, the whole contains. */
  lemma ContainsInfix(pre: string, mid: string, post: string, w: string)
    requires Contains(mid, w)
    ensures Contains(pre + mid + post, w)
  {
    var i := Index(mid, w);
    var t := pre + mid + post;
    assert t[|pre| + i..|pre| + i + |w|] == mid[i..i + |w|];
    ContainsAt(t, w, |pre| + i);
  }

  /** Containment is transitive. */
  lemma ContainsTrans(a: string, b: string, c: string)
    requires Contains(a, b) && Contains(b, c)
    ensures Contains(a, c)
  {
    var i, j := Index(a, b), Index(b, c);
    assert a[i + j..i + j + |c|] == a[i..i + |b|][j..j + |c|];
    ContainsAt(a, c, i + j);
  }

  lemma {:induction false} JoinSnoc(parts: seq<string>, x: string, sep: string)
    requires |parts| > 0
    ensures Join(parts + [x], sep) == Join(parts, sep) + sep + x
    decreases |parts|
  {
    if |parts| == 1 {
      assert parts + [x] == [parts[0]] + [x];
      JoinCons(parts[0], [x], sep);
    } else {
      var tail := parts[1..];
      assert parts + [x] == [parts[0]] + (tail + [x]);
      assert parts == [parts[0]] + tail;
      JoinCons(parts[0], tail + [x], sep);
      JoinCons(parts[0], tail, sep);
      JoinSnoc(tail, x, sep);
    }
  }

  /** strings.Split for a non-empty separator. */
  function Split(s: string, sep: string): (r: seq<string>)
    requires |sep| > 0
    ensures |r| >= 1
    decreases |s|
  {
    var i := Index(s, sep);
    if i < 0 then [s] else [s[..i]] + Split(s[i + |sep|..], sep)
  }

  /** Joining the pieces of a split with the separator gives back the string. */
  lemma {:induction false} JoinSplit(s: string, sep: string)
    requires |sep| > 0
    ensures Join(Split(s, sep), sep) == s
    decreases |s|
  {
    var i := Index(s, sep);
    if i >= 0 {
      var rest := s[i + |sep|..];
      var pieces := Split(rest, sep);
      assert Split(s, sep) == [s[..i]] + pieces;
      JoinSplit(rest, sep);
      JoinCons(s[..i], pieces, sep);
      assert OccursAt(s, sep, i);
      SplitAround(s, i, i + |sep|);
    }
  }

  /** A string holding the separator splits into at least two pieces. */
  lemma SplitContains(s: string, sep: string)
    requires |sep| > 0 && Contains(s, sep)
    ensures |Split(s, sep)| >= 2
  {
    var i := Index(s, sep);
    assert Split(s, sep) == [s[..i]] + Split(s[i + |sep|..], sep);
  }

  /** The first piece of a split is the text before the first separator. */
  lemma SplitFirst(s: string, sep: string)
    requires |sep| > 0
    ensures var i := Index(s, sep);
      Split(s, sep)[0] == if i == -1 then s else s[..i]
  {
  }

  /** A string holding the separator is the join of all pieces but the last, the separator, and the last piece. */
  lemma SplitAtLast(s: string, sep: string)
    requires |sep| > 0 && Contains(s, sep)
    ensures var parts := Split(s, sep);
      && |parts| >= 2
      && s == Join(parts[..|parts| - 1], sep) + sep + parts[|parts| - 1]
      && !Contains(parts[|parts| - 1], sep)
  {
    var parts := Split(s, sep);
    SplitContains(s, sep);
    var init := parts[..|parts| - 1];
    var last := parts[|parts| - 1];
    assert parts == init + [last];
    JoinSnoc(init, last, sep);
    JoinSplit(s, sep);
    SplitPiecesFree(s, sep);
  }

  lemma SplitAround(s: string, i: int, j: int)
    requires 0 <= i <= j <= |s|
    ensures s == s[..i] + s[i..j] + s[j..]
  {
  }

  /** No piece of a split contains the separator. */
  lemma {:induction false} SplitPiecesFree(s: string, sep: string)
    requires |sep| > 0
    ensures forall k :: 0 <= k < |Split(s, sep)| ==> !Contains(Split(s, sep)[k], sep)
    decreases |s|
  {
    var i := Index(s, sep);
    if i < 0 {
    } else {
      SplitPiecesFree(s[i + |sep|..], sep);
      var p := s[..i];
      if Contains(p, sep) {
        var j := Index(p, sep);
        OccursWithin(s, sep, j, i);
        assert false;
      }
    }
  }

  /** No piece of a split at a character holds that character, even once trimmed. */
  lemma SplitPieceFree(s: string, c: char, k: int)
    requires 0 <= k < |Split(s, [c])|
    ensures c !in Split(s, [c])[k] && c !in TrimSpace(Split(s, [c])[k])
  {
    var piece := Split(s, [c]);
    SplitPiecesFree(s, [c]);
    assert !Contains(piece[k], [c]);
    if c in piece[k] {
      var j :| 0 <= j < |piece[k]| && piece[k][j] == c;
      OccursAtCharIff(piece[k], c, j);
      ContainsAt(piece[k], [c], j);
    }
    TrimSpaceSubstring(piece[k]);
  }

  lemma IndexAfterFree(p: string, c: char, rest: string)
    requires c !in p
    ensures Index(p + [c] + rest, [c]) == |p|
  {
    var s := p + [c] + rest;
    assert OccursAt(s, [c], |p|) by {
      assert s[|p|..|p| + 1] == [c];
    }
    var i := Index(s, [c]);
    OccursAtChar(s, c, i);
    assert forall j :: 0 <= j < |p| ==> s[j] == p[j];
  }

  lemma OccursAtChar(s: string, c: char, i: int)
    requires OccursAt(s, [c], i)
    ensures s[i] == c
  {
    assert s[i..i + 1][0] == s[i];
  }

  /** A one-character string occurs exactly where that character is. */
  lemma OccursAtCharIff(s: string, c: char, i: int)
    requires 0 <= i < |s|
    ensures OccursAt(s, [c], i) <==> s[i] == c
  {
    assert s[i..i + 1] == [s[i]];
  }

  /** The last index of a character: -1 when it does not occur, else no later character is it. */
  lemma LastIndexChar(s: string, c: char)
    ensures var i := LastIndex(s, [c]);
      && (i == -1 <==> c !in s)
      && (i != -1 ==> 0 <= i < |s| && s[i] == c && c !in s[i + 1..])
  {
    var i := LastIndex(s, [c]);
    forall j | 0 <= j < |s|
      ensures OccursAt(s, [c], j) <==> s[j] == c
    {
      OccursAtCharIff(s, c, j);
    }
    if i != -1 {
      forall j | i + 1 <= j < |s|
        ensures s[j] != c
      {
        assert !OccursAt(s, [c], j);
      }
      var t := s[i + 1..];
      assert forall k :: 0 <= k < |t| ==> t[k] == s[i + 1 + k];
    }
  }

  lemma IndexFree(p: string, c: char)
    requires c !in p
    ensures Index(p, [c]) == -1
  {
    var i := Index(p, [c]);
    if i >= 0 {
      OccursAtChar(p, c, i);
    }
  }

  /** Splitting at a character that occurs in no part undoes Join. */
  lemma {:induction false} SplitJoin(parts: seq<string>, c: char)
    requires |parts| >= 1
    requires forall k :: 0 <= k < |parts| ==> c !in parts[k]
    ensures Split(Join(parts, [c]), [c]) == parts
    decreases |parts|
  {
    if |parts| == 1 {
      IndexFree(parts[0], c);
    } else {
      var rest := Join(parts[1..], [c]);
      assert parts == [parts[0]] + parts[1..];
      JoinCons(parts[0], parts[1..], [c]);
      SplitAtFirst(parts[0], c, rest);
      SplitJoin(parts[1..], c);
    }
  }

  /** A piece free of c, then c: Split cuts exactly there. */
  lemma SplitAtFirst(p: string, c: char, rest: string)
    requires c !in p
    ensures Split(p + [c] + rest, [c]) == [p] + Split(rest, [c])
  {
    var s := p + [c] + rest;
    IndexAfterFree(p, c, rest);
    assert s[..|p|] == p;
    assert s[|p| + 1..] == rest;
  }

  // ---------------------------------------------------------------------
  // Fields

  function WordLen(s: string): (n: nat)
    ensures n <= |s|
    ensures forall k :: 0 <= k < n ==> !IsSpace(s[k])
    ensures n == |s| || IsSpace(s[n])
  {
    if |s| == 0 || IsSpace(s[0]) then 0 else 1 + WordLen(s[1..])
  }

  predicate IsWord(w: string) {
    |w| > 0 && forall k :: 0 <= k < |w| ==> !IsSpace(w[k])
  }

  /** strings.Fields: the maximal runs of non-space characters, in order. */
  function Fields(s: string): (r: seq<string>)
    ensures forall k :: 0 <= k < |r| ==> IsWord(r[k])
    decreases |s|
  {
    if |s| == 0 then []
    else if IsSpace(s[0]) then Fields(s[1..])
    else
      var n := WordLen(s);
      [s[..n]] + Fields(s[n..])
  }

  lemma WordLenOfWord(w: string, rest: string)
    requires IsWord(w)
    requires rest == [] || IsSpace(rest[0])
    ensures WordLen(w + rest) == |w|
  {
    var n := WordLen(w + rest);
    assert forall k :: 0 <= k < |w| ==> (w + rest)[k] == w[k];
    if rest != [] {
      assert (w + rest)[|w|] == rest[0];
    }
  }

  lemma FieldsCons(w: string, rest: string)
    requires IsWord(w)
    requires rest == [] || IsSpace(rest[0])
    ensures Fields(w + rest) == [w] + Fields(rest)
  {
    var s := w + rest;
    assert s[0] == w[0];
    WordLenOfWord(w, rest);
    assert s[..|w|] == w;
    assert s[|w|..] == rest;
  }

  lemma FieldsSpacePrefix(j: string)
    ensures Fields(" " + j) == Fields(j)
  {
    assert (" " + j)[1..] == j;
  }

  /** Fields takes apart words joined by single spaces. */
  lemma {:induction false} FieldsOfJoin(words: seq<string>)
    requires forall k :: 0 <= k < |words| ==> IsWord(words[k])
    ensures Fields(Join(words, " ")) == words
    decreases |words|
  {
    if |words| == 1 {
      assert Join(words, " ") == words[0] + "";
      FieldsCons(words[0], "");
      assert Fields("") == [];
    } else if |words| > 1 {
      var j := Join(words[1..], " ");
      assert Join(words, " ") == words[0] + (" " + j);
      FieldsCons(words[0], " " + j);
      FieldsSpacePrefix(j);
      FieldsOfJoin(words[1..]);
    }
  }

  // ---------------------------------------------------------------------
  // Case

  /** unicode.ToLower restricted to ASCII letters. */
  function LowerChar(c: char): char {
    if 'A' <= c <= 'Z' then (c as int + 32) as char else c
  }

  /** strings.ToLower (ASCII letters only). */
  function ToLower(s: string): (r: string)
    ensures |r| == |s|
    ensures forall k :: 0 <= k < |s| ==> r[k] == LowerChar(s[k])
  {
    if |s| == 0 then "" else [LowerChar(s[0])] + ToLower(s[1..])
  }

  lemma ToLowerIdempotent(s: string)
    ensures ToLower(ToLower(s)) == ToLower(s)
  {
  }

  /** A string without upper-case ASCII letters is its own lower case. */
  lemma ToLowerNoUpper(s: string)
    requires forall k :: 0 <= k < |s| ==> !('A' <= s[k] <= 'Z')
    ensures ToLower(s) == s
  {
  }

  /** Lower-casing keeps a trimmed string trimmed. */
  lemma ToLowerNoEdgeSpace(s: string)
    requires NoEdgeSpace(s)
    ensures NoEdgeSpace(ToLower(s))
  {
  }

  // ---------------------------------------------------------------------
  // Ordering

  /** Go's `<` on strings: lexicographic by code point. */
  predicate Less(a: string, b: string) {
    if |a| == 0 then |b| > 0
    else if |b| == 0 then false
    else if a[0] != b[0] then a[0] < b[0]
    else Less(a[1..], b[1..])
  }

  predicate LessEq(a: string, b: string) {
    a == b || Less(a, b)
  }

  lemma {:induction false} LessIrreflexive(a: string)
    ensures !Less(a, a)
  {
    if |a| > 0 {
      LessIrreflexive(a[1..]);
    }
  }

  lemma {:induction false} LessTransitive(a: string, b: string, c: string)
    requires Less(a, b) && Less(b, c)
    ensures Less(a, c)
    decreases |a|
  {
    if |a| > 0 && |b| > 0 && |c| > 0 && a[0] == b[0] && b[0] == c[0] {
      LessTransitive(a[1..], b[1..], c[1..]);
    }
  }

  lemma {:induction false} LessTotal(a: string, b: string)
    ensures Less(a, b) || a == b || Less(b, a)
    decreases |a|
  {
    if |a| > 0 && |b| > 0 && a[0] == b[0] {
      LessTotal(a[1..], b[1..]);
      if a[1..] == b[1..] {
        assert a == [a[0]] + a[1..] && b == [b[0]] + b[1..];
      }
    }
  }

  lemma LessAsymmetric(a: string, b: string)
    requires Less(a, b)
    ensures !Less(b, a)
  {
    if Less(b, a) {
      LessTransitive(a, b, a);
      LessIrreflexive(a);
    }
  }

  lemma LessEqTransitive(a: string, b: string, c: string)
    requires LessEq(a, b) && LessEq(b, c)
    ensures LessEq(a, c)
  {
    if Less(a, b) && Less(b, c) {
      LessTransitive(a, b, c);
    }
  }

  lemma LessEqTotal(a: string, b: string)
    ensures LessEq(a, b) || LessEq(b, a)
  {
    LessTotal(a, b);
  }

  lemma LessEqAntisymmetric(a: string, b: string)
    requires LessEq(a, b) && LessEq(b, a)
    ensures a == b
  {
    if a != b {
      LessAsymmetric(a, b);
    }
  }

  /** A proper prefix sorts first. */
  lemma {:induction false} PrefixLess(a: string, b: string)
    requires |a| < |b| && b[..|a|] == a
    ensures Less(a, b)
  {
    if |a| > 0 {
      assert b[1..][..|a| - 1] == a[1..];
      PrefixLess(a[1..], b[1..]);
    }
  }
}
