/**
 * The string primitives both sides of the chat rely on, restricted to ASCII:
 * JavaScript's `\s` and `\w` classes, `toLowerCase`, `trim`, `startsWith`,
 * `endsWith`, `indexOf`, `includes`, `lastIndexOf` and `String(n)` for a
 * non-negative integer.
 */
module Text {
  import opened Wrappers

  /** `\s` on ASCII: space, tab, line feed, vertical tab, form feed, carriage return. */
  predicate IsSpace(c: char) {
    c == ' ' || '\t' <= c <= '\r'
  }

  /** `\w`: ASCII letters, digits and the underscore. */
  predicate IsWordChar(c: char) {
    'a' <= c <= 'z' || 'A' <= c <= 'Z' || '0' <= c <= '9' || c == '_'
  }

  predicate IsDigit(c: char) {
    '0' <= c <= '9'
  }

  function LowerChar(c: char): char {
    if 'A' <= c <= 'Z' then (c as int + 32) as char else c
  }

  /** `toLowerCase` on ASCII text. */
  function Lower(s: string): string {
    seq(|s|, i requires 0 <= i < |s| => LowerChar(s[i]))
  }

  /** `pat` occurs in `s` starting at index `i`. */
  predicate OccursAt(s: string, pat: string, i: nat) {
    i + |pat| <= |s| && s[i..i + |pat|] == pat
  }

  predicate StartsWith(s: string, prefix: string) {
    |prefix| <= |s| && s[..|prefix|] == prefix
  }

  predicate EndsWith(s: string, suffix: string) {
    |suffix| <= |s| && s[|s| - |suffix|..] == suffix
  }

  /** The index of the first non-whitespace character at or after `k`, or
      the length when there is none. */
  function SkipSpaces(s: string, k: nat): (i: nat)
    requires k <= |s|
    decreases |s| - k
    ensures k <= i <= |s|
    ensures forall j :: k <= j < i ==> IsSpace(s[j])
    ensures i < |s| ==> !IsSpace(s[i])
  {
    if k < |s| && IsSpace(s[k]) then SkipSpaces(s, k + 1) else k
  }

  /** The index just after the last non-whitespace character before `e`, or
      0 when there is none. */
  function SkipSpacesBack(s: string, e: nat): (j: nat)
    requires e <= |s|
    ensures j <= e
    ensures forall m :: j <= m < e ==> IsSpace(s[m])
    ensures j > 0 ==> !IsSpace(s[j - 1])
  {
    if e > 0 && IsSpace(s[e - 1]) then SkipSpacesBack(s, e - 1) else e
  }

  /** `trim`: the slice of `s` left once the whitespace at both ends is gone. */
  function Trim(s: string): (r: string)
    ensures r == [] || (!IsSpace(r[0]) && !IsSpace(r[|r| - 1]))
  {
    var a := SkipSpaces(s, 0);
    var b := SkipSpacesBack(s, |s|);
    if a < b then s[a..b] else []
  }

  /** What `trim` keeps is the slice `s[a..b]`, and what it drops at either
      end is whitespace. */
  lemma TrimIsSlice(s: string)
    ensures var a := SkipSpaces(s, 0);
            var b := SkipSpacesBack(s, |s|);
            && (forall i :: 0 <= i < a ==> IsSpace(s[i]))
            && (forall i :: b <= i < |s| ==> IsSpace(s[i]))
            && (a < b ==> Trim(s) == s[a..b])
            && (a >= b ==> Trim(s) == [] && forall i :: 0 <= i < |s| ==> IsSpace(s[i]))
  {
    var a := SkipSpaces(s, 0);
    var b := SkipSpacesBack(s, |s|);
    if a < |s| {
      assert !IsSpace(s[a]);
    }
  }

  lemma SliceOfSlice(t: string, k: nat, m: nat, a: nat, b: nat)
    requires k <= m <= |t| && a <= b <= m - k
    ensures t[k..m][a..b] == t[k + a..k + b]
  {
    assert |t[k..m][a..b]| == b - a == |t[k + a..k + b]|;
    forall q | 0 <= q < b - a
      ensures t[k..m][a..b][q] == t[k + a..k + b][q]
    {
      assert t[k..m][a..b][q] == t[k..m][a + q] == t[k + a + q];
    }
  }

  /** Trimming leaves nothing exactly when the text is whitespace only. */
  lemma TrimEmptyIffBlank(s: string)
    ensures Trim(s) == [] <==> forall i :: 0 <= i < |s| ==> IsSpace(s[i])
  {
    TrimIsSlice(s);
    var a := SkipSpaces(s, 0);
    if a < |s| {
      assert !IsSpace(s[a]);
    }
  }

  /** Text without whitespace at either end is left as it is. */
  lemma TrimUnpadded(s: string)
    requires s == [] || (!IsSpace(s[0]) && !IsSpace(s[|s| - 1]))
    ensures Trim(s) == s
  {
    assert s[0..|s|] == s;
  }

  /** The first occurrence of `pat` at or after index `k`. */
  function IndexFrom(s: string, pat: string, k: nat): (r: Option<nat>)
    decreases |s| - k
    ensures r.Some? ==> k <= r.value && OccursAt(s, pat, r.value)
                        && forall j :: k <= j < r.value ==> !OccursAt(s, pat, j)
    ensures r.None? ==> forall j :: k <= j ==> !OccursAt(s, pat, j)
  {
    if k + |pat| > |s| then None
    else if s[k..k + |pat|] == pat then Some(k)
    else IndexFrom(s, pat, k + 1)
  }

  /** `indexOf`, with `None` for -1. */
  function IndexOf(s: string, pat: string): Option<nat> {
    IndexFrom(s, pat, 0)
  }

  /** `includes`. */
  predicate Contains(s: string, pat: string) {
    IndexOf(s, pat).Some?
  }

  lemma ContainsIffOccurs(s: string, pat: string)
    ensures Contains(s, pat) <==> exists j :: OccursAt(s, pat, j)
  {
  }

  /** `includes` for a one-character pattern. */
  lemma ContainsChar(s: string, c: char)
    ensures Contains(s, [c]) <==> c in s
  {
    if c in s {
      var j :| 0 <= j < |s| && s[j] == c;
      assert OccursAt(s, [c], j);
    }
    if Contains(s, [c]) {
      var j := IndexOf(s, [c]).value;
      assert s[j..j + 1][0] == s[j];
    }
  }

  /** `lastIndexOf` for one character, with `None` for -1. */
  function LastIndexOf(s: string, c: char): (r: Option<nat>)
    ensures r.Some? ==> r.value < |s| && s[r.value] == c
                        && forall j :: r.value < j < |s| ==> s[j] != c
    ensures r.None? ==> c !in s
  {
    if s == [] then None
    else if s[|s| - 1] == c then Some(|s| - 1)
    else LastIndexOf(s[..|s| - 1], c)
  }

  function DigitChar(d: nat): char
    requires d < 10
  {
    ('0' as int + d) as char
  }

  function DigitValue(c: char): nat {
    if '0' <= c <= '9' then c as int - '0' as int else 0
  }

  /** `String(n)` for a non-negative integer: its decimal digits, no leading zero. */
  function DecimalString(n: nat): (r: string)
    ensures |r| >= 1 && forall i :: 0 <= i < |r| ==> IsDigit(r[i])
    ensures n >= 10 ==> r[0] != '0'
  {
    if n < 10 then [DigitChar(n)] else DecimalString(n / 10) + [DigitChar(n % 10)]
  }

  /** The value of a string of decimal digits. */
  function ParseDecimal(s: string): nat {
    if s == [] then 0 else ParseDecimal(s[..|s| - 1]) * 10 + DigitValue(s[|s| - 1])
  }

  /** Parsing undoes `String(n)`; hence two different numbers never print the same. */
  lemma {:induction false} ParseDecimalString(n: nat)
    ensures ParseDecimal(DecimalString(n)) == n
  {
    var s := DecimalString(n);
    if n >= 10 {
      assert s[..|s| - 1] == DecimalString(n / 10);
      ParseDecimalString(n / 10);
    }
  }

  lemma DecimalStringInjective(m: nat, n: nat)
    requires m != n
    ensures DecimalString(m) != DecimalString(n)
  {
    ParseDecimalString(m);
    ParseDecimalString(n);
  }

  /** A number with four digits prints as four characters. */
  lemma DecimalStringFourDigits(n: nat)
    requires 1000 <= n <= 9999
    ensures |DecimalString(n)| == 4
  {
    assert n / 10 / 10 == n / 100 && n / 100 / 10 == n / 1000;
    assert |DecimalString(n / 1000)| == 1;
    assert |DecimalString(n / 100)| == 2;
    assert |DecimalString(n / 10)| == 3;
  }
}
