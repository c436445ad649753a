/**
 * strconv.Itoa and strconv.Atoi for Go's 64-bit `int`.
 */
module GoStrconv {
  import opened Wrappers

  const MinInt: int := -0x8000_0000_0000_0000
  const MaxInt: int := 0x7FFF_FFFF_FFFF_FFFF

  predicate IsDigit(c: char) {
    '0' <= c <= '9'
  }

  predicate AllDigits(s: string) {
    forall k :: 0 <= k < |s| ==> IsDigit(s[k])
  }

  function DigitChar(d: nat): (c: char)
    requires d < 10
    ensures IsDigit(c) && c as int - '0' as int == d
  {
    ('0' as int + d) as char
  }

  /** The decimal digits of n, most significant first, without leading zeros. */
  function NatToString(n: nat): (r: string)
    ensures |r| >= 1 && AllDigits(r)
    ensures |r| > 1 ==> r[0] != '0'
  {
    if n < 10 then [DigitChar(n)] else NatToString(n / 10) + [DigitChar(n % 10)]
  }

  /** strconv.Itoa */
  function Itoa(n: int): (r: string)
    ensures |r| >= 1
    ensures forall k :: 0 <= k < |r| ==> IsDigit(r[k]) || (k == 0 && r[k] == '-')
    ensures r[0] == '-' <==> n < 0
  {
    if n < 0 then "-" + NatToString(-n) else NatToString(n)
  }

  /** The value of a string of decimal digits. */
  function DigitsValue(s: string): nat
    requires AllDigits(s)
  {
    if s == [] then 0 else DigitsValue(s[..|s| - 1]) * 10 + (s[|s| - 1] as int - '0' as int)
  }

  lemma {:induction false} DigitsValueOfNat(n: nat)
    ensures DigitsValue(NatToString(n)) == n
  {
    if n >= 10 {
      var s := NatToString(n);
      DigitsValueOfNat(n / 10);
      assert s[..|s| - 1] == NatToString(n / 10);
    }
  }

  datatype IntResult = Int(value: int) | SyntaxError | RangeError

  /**
   * strconv.Atoi: an optional sign followed by at least one decimal digit,
   * with a value that fits in 64 bits.
   */
  function Atoi(s: string): (r: IntResult)
    ensures r.Int? ==> MinInt <= r.value <= MaxInt
    ensures r.SyntaxError? <==> !ValidSyntax(s)
  {
    if !ValidSyntax(s) then SyntaxError
    else
      var neg := s[0] == '-';
      var digits := if s[0] == '-' || s[0] == '+' then s[1..] else s;
      var mag: int := DigitsValue(digits);
      var v: int := if neg then 0 - mag else mag;
      if MinInt <= v <= MaxInt then Int(v) else RangeError
  }

  predicate ValidSyntax(s: string) {
    var digits := if |s| > 0 && (s[0] == '-' || s[0] == '+') then s[1..] else s;
    |digits| > 0 && AllDigits(digits)
  }

  /** Atoi reads back what Itoa writes. */
  lemma AtoiItoa(n: int)
    requires MinInt <= n <= MaxInt
    ensures Atoi(Itoa(n)) == Int(n)
  {
    var s := Itoa(n);
    if n < 0 {
      DigitsValueOfNat(-n);
      assert s[1..] == NatToString(-n);
    } else {
      DigitsValueOfNat(n);
    }
  }

  lemma NatToStringInjective(m: nat, n: nat)
    requires NatToString(m) == NatToString(n)
    ensures m == n
  {
    DigitsValueOfNat(m);
    DigitsValueOfNat(n);
  }

  /** Itoa is injective. */
  lemma ItoaInjective(a: int, b: int)
    requires Itoa(a) == Itoa(b)
    ensures a == b
  {
    if a < 0 {
      assert b < 0;
      assert Itoa(a)[1..] == NatToString(-a);
      assert Itoa(b)[1..] == NatToString(-b);
      NatToStringInjective(-a, -b);
    } else {
      assert b >= 0;
      NatToStringInjective(a, b);
    }
  }

  // ---------------------------------------------------------------------
  // strconv.Quote

  /** A lower-case hexadecimal digit. */
  function HexDigit(d: nat): (c: char)
    requires d < 16
  {
    if d < 10 then ('0' as int + d) as char else ('a' as int + d - 10) as char
  }

  /** The value of a hexadecimal digit of either case. */
  function HexValue(c: char): Option<nat> {
    if '0' <= c <= '9' then Some(c as int - '0' as int)
    else if 'a' <= c <= 'f' then Some(c as int - 'a' as int + 10)
    else if 'A' <= c <= 'F' then Some(c as int - 'A' as int + 10)
    else None
  }

  /** An ASCII control character: below a space, or DEL. */
  predicate IsControl(c: char) {
    c as int < 0x20 || c as int == 0x7f
  }

  /**
   * How strconv.Quote writes one character: the quote and the backslash
   * behind a backslash, the seven control characters with a letter escape
   * as that escape, any other ASCII control character as \x and two
   * lower-case hex digits, and every other character as itself.
   */
  function QuoteChar(c: char): string {
    if c == '"' then "\\\""
    else if c == '\\' then "\\\\"
    else if c as int == 7 then "\\a"
    else if c as int == 8 then "\\b"
    else if c as int == 12 then "\\f"
    else if c == '\n' then "\\n"
    else if c == '\r' then "\\r"
    else if c == '\t' then "\\t"
    else if c as int == 11 then "\\v"
    else if IsControl(c) then ['\\', 'x', HexDigit(c as int / 16), HexDigit(c as int % 16)]
    else [c]
  }

  function QuoteBody(s: string): string {
    if s == [] then [] else QuoteChar(s[0]) + QuoteBody(s[1..])
  }

  /** strconv.Quote: the escaped characters between double quotes. */
  function Quote(s: string): (r: string)
    ensures |r| >= 2 && r[0] == '"' && r[|r| - 1] == '"'
  {
    "\"" + QuoteBody(s) + "\""
  }

  /** The character a backslash escape letter stands for. */
  function EscapeLetter(c: char): Option<char> {
    match c
    case '"' => Some('"')
    case '\\' => Some('\\')
    case 'a' => Some(7 as char)
    case 'b' => Some(8 as char)
    case 'f' => Some(12 as char)
    case 'n' => Some('\n')
    case 'r' => Some('\r')
    case 't' => Some('\t')
    case 'v' => Some(11 as char)
    case _ => None
  }

  /** The characters an escaped body stands for; None for a raw quote or a bad escape. */
  function UnquoteBody(t: string): Option<string>
    decreases |t|
  {
    if t == [] then Some([])
    else if t[0] == '"' then None
    else if t[0] != '\\' then
      match UnquoteBody(t[1..])
      case None => None
      case Some(rest) => Some([t[0]] + rest)
    else if |t| >= 2 && EscapeLetter(t[1]).Some? then
      match UnquoteBody(t[2..])
      case None => None
      case Some(rest) => Some([EscapeLetter(t[1]).value] + rest)
    else if |t| >= 4 && t[1] == 'x' && HexValue(t[2]).Some? && HexValue(t[3]).Some? then
      match UnquoteBody(t[4..])
      case None => None
      case Some(rest) => Some([(HexValue(t[2]).value * 16 + HexValue(t[3]).value) as char] + rest)
    else None
  }

  /** strconv.Unquote for double-quoted strings. */
  function Unquote(t: string): Option<string> {
    if |t| >= 2 && t[0] == '"' && t[|t| - 1] == '"' then UnquoteBody(t[1..|t| - 1]) else None
  }

  lemma HexRoundTrip(d: nat)
    requires d < 16
    ensures HexValue(HexDigit(d)) == Some(d)
  {
  }

  /** Reading back the escape of one character gives that character. */
  lemma UnquoteChar(c: char, rest: string)
    ensures UnquoteBody(QuoteChar(c) + rest) ==
      match UnquoteBody(rest)
      case None => None
      case Some(r) => Some([c] + r)
  {
    var t := QuoteChar(c) + rest;
    if IsControl(c) && QuoteChar(c)[0] == '\\' && QuoteChar(c)[1] == 'x' {
      HexRoundTrip(c as int / 16);
      HexRoundTrip(c as int % 16);
      assert t[4..] == rest;
    } else if |QuoteChar(c)| == 2 {
      assert t[2..] == rest;
    } else {
      assert t[1..] == rest;
    }
  }

  /** Unquote reads back what Quote writes. */
  lemma {:induction false} UnquoteQuote(s: string)
    ensures Unquote(Quote(s)) == Some(s)
  {
    var q := Quote(s);
    assert q[1..|q| - 1] == QuoteBody(s);
    UnquoteQuoteBody(s);
  }

  lemma {:induction false} UnquoteQuoteBody(s: string)
    ensures UnquoteBody(QuoteBody(s)) == Some(s)
  {
    if s != [] {
      UnquoteQuoteBody(s[1..]);
      UnquoteChar(s[0], QuoteBody(s[1..]));
      assert [s[0]] + s[1..] == s;
    }
  }

  /** A character Quote never writes as part of an escape, nor escapes itself. */
  predicate Plain(c: char) {
    !IsControl(c) && c != '"' && c != '\\' && !('0' <= c <= '9') && !('a' <= c <= 'z') && !('A' <= c <= 'Z')
  }

  /**
   * A quoted string holds no raw control character (a newline in particular),
   * and holds a plain character exactly where the original does.
   */
  lemma {:induction false} QuoteBodyChars(s: string)
    ensures forall k :: 0 <= k < |QuoteBody(s)| ==> !IsControl(QuoteBody(s)[k])
    ensures forall c :: Plain(c) ==> (c in QuoteBody(s) <==> c in s)
  {
    if s != [] {
      QuoteBodyChars(s[1..]);
      var h := QuoteChar(s[0]);
      assert QuoteBody(s) == h + QuoteBody(s[1..]);
      assert s == [s[0]] + s[1..];
      forall c | Plain(c)
        ensures c in h <==> c == s[0]
      {
        if IsControl(s[0]) && h[0] == '\\' && h[1] == 'x' {
          assert h == ['\\', 'x', h[2], h[3]];
        }
      }
    }
  }
}
