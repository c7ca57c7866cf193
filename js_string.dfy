/** Models of the JavaScript string built-ins the application relies on:
    `trim`, `toLowerCase`, `startsWith`, `endsWith`, `includes`, `lastIndexOf`,
    `slice`, global single-character `replace`, and the decimal
    rendering of a non-negative integer in a template literal. */
module JsString {

  // ---------------------------------------------------------------------
  // Decimal digits and `${n}`
  // ---------------------------------------------------------------------

  /** `\d` of a JavaScript regular expression: an ASCII decimal digit only. */
  predicate IsDigit(c: char) {
    '0' <= c <= '9'
  }

  predicate AllDigits(s: string) {
    forall i | 0 <= i < |s| :: IsDigit(s[i])
  }

  function DigitValue(c: char): (d: nat)
    requires IsDigit(c)
    ensures d < 10
  {
    c as int - '0' as int
  }

  function DigitChar(d: nat): (c: char)
    requires d < 10
    ensures IsDigit(c) && DigitValue(c) == d
  {
    ('0' as int + d) as char
  }

  /** `${n}` for a non-negative integer: its shortest decimal numeral. */
  function Decimal(n: nat): (s: string)
    ensures |s| >= 1 && AllDigits(s)
    ensures s[0] == '0' ==> n == 0
    decreases n
  {
    if n < 10 then [DigitChar(n)] else Decimal(n / 10) + [DigitChar(n % 10)]
  }

  /** The number a run of decimal digits denotes (reference reading of a numeral). */
  function ValueOf(s: string): nat
    requires AllDigits(s)
    decreases |s|
  {
    if s == [] then 0 else ValueOf(s[..|s| - 1]) * 10 + DigitValue(s[|s| - 1])
  }

  /** Reading back the numeral `${n}` gives `n`. */
  lemma {:induction false} DecimalRoundTrip(n: nat)
    ensures ValueOf(Decimal(n)) == n
    decreases n
  {
    if n >= 10 {
      DecimalRoundTrip(n / 10);
      var s := Decimal(n);
      assert s[..|s| - 1] == Decimal(n / 10);
    }
  }

  /** Distinct numbers have distinct numerals. */
  lemma DecimalInjective(m: nat, n: nat)
    requires Decimal(m) == Decimal(n)
    ensures m == n
  {
    DecimalRoundTrip(m);
    DecimalRoundTrip(n);
  }

  // ---------------------------------------------------------------------
  // Prefixes, suffixes, substrings
  // ---------------------------------------------------------------------

  /** `s.startsWith(p)`. */
  predicate StartsWith(s: string, p: string) {
    p <= s
  }

  /** `s.endsWith(p)`. */
  predicate EndsWith(s: string, p: string) {
    |p| <= |s| && s[|s| - |p|..] == p
  }

  /** `s.includes(t)`: `t` occurs in `s` at some position. */
  predicate Contains(s: string, t: string)
    decreases |s|
  {
    t <= s || (s != [] && Contains(s[1..], t))
  }

  /** `t` occurs in `s` starting at position `i`. */
  predicate OccursAt(s: string, t: string, i: int) {
    0 <= i <= |s| - |t| && s[i..i + |t|] == t
  }

  /** `Contains` agrees with the positional reading of "occurs in". */
  lemma {:induction false} ContainsIff(s: string, t: string)
    ensures Contains(s, t) <==> exists i :: OccursAt(s, t, i)
    decreases |s|
  {
    if t <= s {
      assert OccursAt(s, t, 0);
    } else if s == [] {
    } else {
      forall i | 0 < i && OccursAt(s, t, i)
        ensures OccursAt(s[1..], t, i - 1)
      {
        OccursShift(s, t, i);
      }
      assert !OccursAt(s, t, 0);
      ContainsIff(s[1..], t);
      if Contains(s[1..], t) {
        var i :| OccursAt(s[1..], t, i);
        assert s[i + 1..i + 1 + |t|] == s[1..][i..i + |t|];
        assert OccursAt(s, t, i + 1);
      }
    }
  }

  /** An occurrence after the first position is an occurrence in the tail. */
  lemma OccursShift(s: string, t: string, i: int)
    requires 0 < i && OccursAt(s, t, i)
    ensures OccursAt(s[1..], t, i - 1)
  {
    var tail := s[1..];
    var a, b := tail[i - 1..i - 1 + |t|], s[i..i + |t|];
    assert forall k | 0 <= k < |a| :: a[k] == b[k];
    assert a == b;
  }

  /** The empty string is included in every string. */
  lemma ContainsEmpty(s: string)
    ensures Contains(s, "")
  {
  }

  /** A string is included in anything it ends. */
  lemma {:induction false} ContainsSuffix(a: string, b: string)
    ensures Contains(a + b, b)
    decreases |a|
  {
    if a == [] {
      assert a + b == b;
    } else {
      ContainsSuffix(a[1..], b);
      assert (a + b)[1..] == a[1..] + b;
    }
  }

  /** What the end of a string includes, the whole string includes. */
  lemma {:induction false} ContainsInSuffix(a: string, b: string, t: string)
    requires Contains(b, t)
    ensures Contains(a + b, t)
    decreases |a|
  {
    if a == [] {
      assert a + b == b;
    } else {
      ContainsInSuffix(a[1..], b, t);
      assert (a + b)[1..] == a[1..] + b;
    }
  }

  /** A string whose first character does not occur in `s` is not included in `s`. */
  lemma {:induction false} NotContainsWithoutFirst(s: string, t: string)
    requires t != [] && t[0] !in s
    ensures !Contains(s, t)
    decreases |s|
  {
    if s != [] {
      assert s[0] != t[0];
      NotContainsWithoutFirst(s[1..], t);
    }
  }

  // ---------------------------------------------------------------------
  // Case, whitespace and replacement
  // ---------------------------------------------------------------------

  /** `toLowerCase` of one character, over ASCII. */
  function LowerChar(c: char): char {
    if 'A' <= c <= 'Z' then (c as int + 32) as char else c
  }

  /** `s.toLowerCase()`, over ASCII: a character-by-character mapping. */
  function ToLower(s: string): (r: string)
    ensures |r| == |s|
  {
    seq(|s|, i requires 0 <= i < |s| => LowerChar(s[i]))
  }

  /** A lower-cased string has no upper-case ASCII letter left, so lower-casing is idempotent. */
  lemma ToLowerIdempotent(s: string)
    ensures ToLower(ToLower(s)) == ToLower(s)
  {
  }

  /** The characters `trim` removes: ECMAScript WhiteSpace and LineTerminator. */
  predicate IsWhiteSpace(c: char) {
    || c == '\t' || c == '\n' || c == '\U{B}' || c == '\U{C}' || c == '\r' || c == ' '
    || c == '\U{A0}' || c == '\U{1680}' || ('\U{2000}' <= c <= '\U{200A}')
    || c == '\U{2028}' || c == '\U{2029}' || c == '\U{202F}' || c == '\U{205F}'
    || c == '\U{3000}' || c == '\U{FEFF}'
  }

  predicate AllWhiteSpace(s: string) {
    forall i | 0 <= i < |s| :: IsWhiteSpace(s[i])
  }

  /** `s.trimStart()`: the suffix of `s` left after its leading white space. */
  function TrimStart(s: string): (r: string)
    ensures |r| <= |s| && r == s[|s| - |r|..]
    ensures AllWhiteSpace(s[..|s| - |r|])
    ensures r != [] ==> !IsWhiteSpace(r[0])
    decreases |s|
  {
    if s != [] && IsWhiteSpace(s[0]) then TrimStart(s[1..]) else s
  }

  /** `s.trimEnd()`: the prefix of `s` left before its trailing white space. */
  function TrimEnd(s: string): (r: string)
    ensures |r| <= |s| && r == s[..|r|]
    ensures AllWhiteSpace(s[|r|..])
    ensures r != [] ==> !IsWhiteSpace(r[|r| - 1])
    decreases |s|
  {
    if s != [] && IsWhiteSpace(s[|s| - 1]) then
      var r := TrimEnd(s[..|s| - 1]);
      assert s[|r|..] == s[..|s| - 1][|r|..] + [s[|s| - 1]];
      r
    else s
  }

  /** `s.trim()`. */
  function Trim(s: string): string {
    TrimEnd(TrimStart(s))
  }

  /** `!s.trim()` holds exactly for strings made only of white space (the empty one included). */
  lemma TrimBlank(s: string)
    ensures Trim(s) == "" <==> AllWhiteSpace(s)
  {
    var t := TrimStart(s);
    if Trim(s) == "" {
      assert AllWhiteSpace(t[0..]);
      assert t == [];
      assert s[..|s|] == s;
    } else if t != [] {
      assert !IsWhiteSpace(s[|s| - |t|]);
    }
  }

  /** `!s.trim()`: the string is empty once trimmed, that is (`TrimBlank`) it is
      made only of white space. */
  predicate IsBlank(s: string) {
    AllWhiteSpace(s)
  }

  /** A string with no white space at either end is left as it is by `trim`. */
  lemma TrimUnchanged(s: string)
    requires s != [] && !IsWhiteSpace(s[0]) && !IsWhiteSpace(s[|s| - 1])
    ensures Trim(s) == s
  {
  }

  /** `s.replace(/from/g, to)` for a single-character pattern. */
  function ReplaceAll(s: string, from: char, to: char): (r: string)
    ensures |r| == |s|
  {
    seq(|s|, i requires 0 <= i < |s| => if s[i] == from then to else s[i])
  }

  /** After a global replacement of `from` by a different character, `from` is gone;
      every other character is left where it was. */
  lemma ReplaceAllRemoves(s: string, from: char, to: char)
    requires from != to
    ensures from !in ReplaceAll(s, from, to)
    ensures forall i | 0 <= i < |s| && s[i] != from :: ReplaceAll(s, from, to)[i] == s[i]
  {
  }

  // ---------------------------------------------------------------------
  // Searching and slicing
  // ---------------------------------------------------------------------

  /** `s.lastIndexOf(c)`: the last position holding `c`, or -1. */
  function LastIndexOf(s: string, c: char): (r: int)
    ensures -1 <= r < |s|
    ensures r >= 0 ==> s[r] == c
    ensures forall j | r < j < |s| :: s[j] != c
    decreases |s|
  {
    if s == [] then -1
    else if s[|s| - 1] == c then |s| - 1
    else LastIndexOf(s[..|s| - 1], c)
  }

  /** `s.slice(k)`: a negative start counts from the end. */
  function Slice(s: string, k: int): (r: string)
    ensures |r| <= |s| && r == s[|s| - |r|..]
    // a start at or past the end gives nothing; a negative one counts from the end
    ensures |r| == if k < 0 then (if -k < |s| then -k else |s|) else (if k < |s| then |s| - k else 0)
  {
    if k < 0 then (if |s| + k < 0 then s else s[|s| + k..])
    else if k > |s| then ""
    else s[k..]
  }
}
