/**
 * The JavaScript built-ins that the application's logic relies on, stated over
 * Dafny strings: thrown values, `String.prototype.trim`, `toLowerCase`,
 * `includes`, `startsWith`, `split(sep)[1]` and the decimal rendering of an
 * integer in a template literal.
 */
module Js {
  import opened Wrappers

  /** A value thrown by JavaScript code: an `Error` object with its message, or any other value. */
  datatype Thrown = ErrorObject(message: string) | NonError

  // ---------------------------------------------------------------------------
  // Whitespace and trim
  // ---------------------------------------------------------------------------

  /** ECMAScript WhiteSpace and LineTerminator code points, which `trim` removes. */
  predicate IsWhiteSpace(c: char) {
    c == '\t' || c == '\n' || c == '\U{000B}' || c == '\U{000C}' || c == '\r' || c == ' '
    || c == '\U{00A0}' || c == '\U{1680}' || ('\U{2000}' <= c <= '\U{200A}')
    || c == '\U{2028}' || c == '\U{2029}' || c == '\U{202F}' || c == '\U{205F}'
    || c == '\U{3000}' || c == '\U{FEFF}'
  }

  predicate AllWhiteSpace(s: string) {
    forall i :: 0 <= i < |s| ==> IsWhiteSpace(s[i])
  }

  /** The leading whitespace removed: the longest suffix of `s` that does not start with whitespace. */
  function TrimStart(s: string): (r: string)
    ensures |r| <= |s| && r == s[|s| - |r|..]
    ensures AllWhiteSpace(s[..|s| - |r|])
    ensures r == [] || !IsWhiteSpace(r[0])
  {
    if |s| > 0 && IsWhiteSpace(s[0]) then TrimStart(s[1..]) else s
  }

  /** The trailing whitespace removed: the longest prefix of `s` that does not end with whitespace. */
  function TrimEnd(s: string): (r: string)
    ensures |r| <= |s| && r == s[..|r|]
    ensures AllWhiteSpace(s[|r|..])
    ensures r == [] || !IsWhiteSpace(r[|r| - 1])
  {
    if |s| > 0 && IsWhiteSpace(s[|s| - 1]) then
      var r := TrimEnd(s[..|s| - 1]);
      assert s[|r|..] == s[..|s| - 1][|r|..] + [s[|s| - 1]];
      r
    else s
  }

  /** `r` sits in `s` at offset `k` with only whitespace around it. */
  predicate SurroundedByWhiteSpace(s: string, r: string, k: nat) {
    k + |r| <= |s| && s[k..k + |r|] == r && AllWhiteSpace(s[..k]) && AllWhiteSpace(s[k + |r|..])
  }

  /** `String.prototype.trim`: `s` without its leading and trailing whitespace. */
  function Trim(s: string): (r: string)
    ensures r == [] || (!IsWhiteSpace(r[0]) && !IsWhiteSpace(r[|r| - 1]))
    ensures exists k :: SurroundedByWhiteSpace(s, r, k)
  {
    var t := TrimStart(s);
    var r := TrimEnd(t);
    var k := |s| - |t|;
    assert SurroundedByWhiteSpace(s, r, k) by {
      assert t == s[k..];
      assert s[k..k + |r|] == t[..|r|];
      assert s[k + |r|..] == t[|r|..];
    }
    r
  }

  /** JavaScript treats `x.trim()` as false exactly when it is the empty string. */
  predicate IsBlank(s: string) {
    Trim(s) == ""
  }

  lemma {:induction false} TrimStartOfWhiteSpace(w: string, t: string)
    requires AllWhiteSpace(w)
    ensures TrimStart(w + t) == TrimStart(t)
  {
    if w != [] {
      assert (w + t)[1..] == w[1..] + t;
      TrimStartOfWhiteSpace(w[1..], t);
    } else {
      assert w + t == t;
    }
  }

  lemma {:induction false} TrimEndOfWhiteSpace(t: string, w: string)
    requires AllWhiteSpace(w)
    ensures TrimEnd(t + w) == TrimEnd(t)
  {
    if w != [] {
      assert (t + w)[..|t + w| - 1] == t + w[..|w| - 1];
      TrimEndOfWhiteSpace(t, w[..|w| - 1]);
    } else {
      assert t + w == t;
    }
  }

  /** Once something other than whitespace has been met, what follows is kept as it is. */
  lemma {:induction false} TrimStartAppend(t: string, u: string)
    requires TrimStart(t) != []
    ensures TrimStart(t + u) == TrimStart(t) + u
  {
    if IsWhiteSpace(t[0]) {
      assert (t + u)[1..] == t[1..] + u;
      TrimStartAppend(t[1..], u);
    }
  }

  lemma BlankIffAllWhiteSpace(s: string)
    ensures IsBlank(s) <==> AllWhiteSpace(s)
  {
    if AllWhiteSpace(s) {
      TrimStartOfWhiteSpace(s, "");
      assert s + "" == s;
    }
  }

  /** Whitespace added around a string never changes what `trim` returns. */
  lemma TrimIgnoresSurroundingWhiteSpace(w1: string, t: string, w2: string)
    requires AllWhiteSpace(w1) && AllWhiteSpace(w2)
    ensures Trim(w1 + t + w2) == Trim(t)
  {
    assert w1 + t + w2 == w1 + (t + w2);
    TrimStartOfWhiteSpace(w1, t + w2);
    if TrimStart(t) != [] {
      TrimStartAppend(t, w2);
      TrimEndOfWhiteSpace(TrimStart(t), w2);
    } else {
      var k := |t|;
      assert AllWhiteSpace(t);
      TrimStartOfWhiteSpace(t, w2);
      TrimStartOfWhiteSpace(w2, "");
      assert w2 + "" == w2;
    }
  }

  lemma TrimIdempotent(s: string)
    ensures Trim(Trim(s)) == Trim(s)
  {
    var r := Trim(s);
    if r != [] {
      assert TrimStart(r) == r;
      assert TrimEnd(r) == r;
    }
  }

  // ---------------------------------------------------------------------------
  // Searching
  // ---------------------------------------------------------------------------

  /** `sub` occurs in `s` starting at index `i`. */
  predicate OccursAt(s: string, sub: string, i: int) {
    0 <= i && i + |sub| <= |s| && s[i..i + |sub|] == sub
  }

  /** `String.prototype.includes`. */
  predicate Includes(s: string, sub: string) {
    exists i :: 0 <= i <= |s| - |sub| && OccursAt(s, sub, i)
  }

  /** `String.prototype.startsWith`. */
  predicate StartsWith(s: string, prefix: string) {
    OccursAt(s, prefix, 0)
  }

  /** `String.prototype.indexOf` for one character, `None` standing for -1. */
  function IndexOf(s: string, c: char): (r: Option<nat>)
    ensures r.None? <==> c !in s
    ensures r.Some? ==> r.value < |s| && s[r.value] == c && c !in s[..r.value]
  {
    if |s| == 0 then None
    else if s[0] == c then Some(0)
    else match IndexOf(s[1..], c)
      case None => None
      case Some(k) => assert s[..k + 1] == [s[0]] + s[1..][..k]; Some(k + 1)
  }

  /**
   * `s.split(sep)[1]`: the text between the first and the second `sep` (or the
   * end of `s`); `None` (undefined) when `sep` does not occur.
   */
  function SplitSecondField(s: string, sep: char): (r: Option<string>)
  {
    match IndexOf(s, sep)
    case None => None
    case Some(i) =>
      var rest := s[i + 1..];
      match IndexOf(rest, sep)
      case None => Some(rest)
      case Some(k) => Some(rest[..k])
  }

  /** The field between the first and second separator is recovered, whatever follows. */
  lemma SplitSecondFieldOf(a: string, sep: char, b: string, c: string)
    requires sep !in a && sep !in b
    ensures SplitSecondField(a + [sep] + b, sep) == Some(b)
    ensures SplitSecondField(a + [sep] + b + [sep] + c, sep) == Some(b)
  {
    var s := a + [sep] + b;
    assert s[..|a|] == a;
    assert s[|a|] == sep;
    assert s[|a| + 1..] == b;
    var u := a + [sep] + b + [sep] + c;
    assert u[..|a|] == a;
    assert u[|a|] == sep;
    var rest := u[|a| + 1..];
    assert rest == b + [sep] + c;
    assert rest[..|b|] == b;
    assert rest[|b|] == sep;
  }

  lemma SplitSecondFieldWithoutSeparator(s: string, sep: char)
    requires sep !in s
    ensures SplitSecondField(s, sep) == None
  {
  }

  // ---------------------------------------------------------------------------
  // Letter case
  // ---------------------------------------------------------------------------

  function LowerChar(c: char): char {
    if 'A' <= c <= 'Z' then (c as int + 32) as char else c
  }

  /** `String.prototype.toLowerCase`, for the ASCII letters. */
  function ToLowerCase(s: string): string {
    seq(|s|, i requires 0 <= i < |s| => LowerChar(s[i]))
  }

  // ---------------------------------------------------------------------------
  // Decimal rendering of numbers in template literals
  // ---------------------------------------------------------------------------

  predicate IsDigit(c: char) {
    '0' <= c <= '9'
  }

  predicate AllDigits(s: string) {
    forall i :: 0 <= i < |s| ==> IsDigit(s[i])
  }

  function DigitChar(d: nat): char
    requires d < 10
  {
    ('0' as int + d) as char
  }

  /** The decimal digits of `n`, most significant first, without leading zeros. */
  function NatToDecimal(n: nat): string
  {
    if n < 10 then [DigitChar(n)] else NatToDecimal(n / 10) + [DigitChar(n % 10)]
  }

  /** How `${i}` renders an integer-valued number. */
  function IntToDecimal(i: int): string
  {
    if i < 0 then "-" + NatToDecimal(-i) else NatToDecimal(i)
  }

  /** The value of a string of decimal digits. */
  function DigitsValue(s: string): nat
    requires AllDigits(s)
  {
    if s == [] then 0 else DigitsValue(s[..|s| - 1]) * 10 + (s[|s| - 1] as int - '0' as int)
  }

  /** Reads back an optionally negative decimal integer. */
  function ParseInt(s: string): Option<int>
  {
    if |s| > 1 && s[0] == '-' && AllDigits(s[1..]) then Some(0 - DigitsValue(s[1..]) as int)
    else if |s| > 0 && AllDigits(s) then Some(DigitsValue(s))
    else None
  }

  lemma {:induction false} NatToDecimalDigits(n: nat)
    ensures |NatToDecimal(n)| > 0 && AllDigits(NatToDecimal(n))
    ensures DigitsValue(NatToDecimal(n)) == n
    ensures NatToDecimal(n)[0] == '0' ==> n == 0
    decreases n
  {
    if n >= 10 {
      NatToDecimalDigits(n / 10);
      var s := NatToDecimal(n);
      assert s[..|s| - 1] == NatToDecimal(n / 10);
    }
  }

  /** The rendered integer reads back as itself, so the rendering loses nothing. */
  lemma IntToDecimalRoundTrip(i: int)
    ensures ParseInt(IntToDecimal(i)) == Some(i)
  {
    if i < 0 {
      NatToDecimalDigits(-i);
      assert IntToDecimal(i)[1..] == NatToDecimal(-i);
    } else {
      NatToDecimalDigits(i);
    }
  }

  lemma IntToDecimalInjective(i: int, j: int)
    requires IntToDecimal(i) == IntToDecimal(j)
    ensures i == j
  {
    IntToDecimalRoundTrip(i);
    IntToDecimalRoundTrip(j);
  }
}
