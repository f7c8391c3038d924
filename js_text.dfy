/**
 * The JavaScript string operations the URL helpers rely on, with their
 * ECMAScript semantics: `lastIndexOf` and `indexOf` answer -1 when nothing is
 * found, `substring` clamps both bounds into the string and swaps them when
 * they are out of order, and `replace` with a string pattern replaces only the
 * first occurrence. A template literal renders an integer in decimal.
 *
 * The functions carry only bound facts; what they compute is stated in the
 * lemmas beside them, so that callers pay for those facts only where used.
 */
module JsText {

  /** The last position below `n` that holds `c`, or -1. */
  function LastIndexBelow(s: string, c: char, n: nat): (r: int)
    requires n <= |s|
    ensures -1 <= r < n
  {
    if n == 0 then -1
    else if s[n - 1] == c then n - 1
    else LastIndexBelow(s, c, n - 1)
  }

  /** `s.lastIndexOf(c)` for a one-character pattern. */
  function LastIndexOf(s: string, c: char): (r: int)
    ensures -1 <= r < |s|
  {
    LastIndexBelow(s, c, |s|)
  }

  lemma {:induction false} LastIndexBelowFindsLast(s: string, c: char, n: nat)
    requires n <= |s|
    ensures LastIndexBelow(s, c, n) == -1 <==> c !in s[..n]
    ensures LastIndexBelow(s, c, n) >= 0 ==> s[LastIndexBelow(s, c, n)] == c
    ensures forall j :: LastIndexBelow(s, c, n) < j < n ==> s[j] != c
  {
    if n > 0 {
      assert s[..n] == s[..n - 1] + [s[n - 1]];
      if s[n - 1] != c {
        LastIndexBelowFindsLast(s, c, n - 1);
      }
    }
  }

  /** -1 exactly when `c` is absent; otherwise a `c` with none after it. */
  lemma LastIndexOfFindsLast(s: string, c: char)
    ensures LastIndexOf(s, c) == -1 <==> c !in s
    ensures LastIndexOf(s, c) >= 0 ==> s[LastIndexOf(s, c)] == c
    ensures forall j :: LastIndexOf(s, c) < j < |s| ==> s[j] != c
  {
    LastIndexBelowFindsLast(s, c, |s|);
    assert s[..|s|] == s;
  }

  /** The last `c` in `x + [c] + y` is the separator itself when `y` holds no `c`. */
  lemma LastIndexOfSeparator(x: string, c: char, y: string)
    requires c !in y
    ensures LastIndexOf(x + [c] + y, c) == |x|
  {
    var s := x + [c] + y;
    LastIndexOfFindsLast(s, c);
    assert s[|x|] == c;
  }

  /** `pat` occurs in `s` starting at position `j`. */
  predicate OccursAt(s: string, pat: string, j: int)
  {
    0 <= j && j + |pat| <= |s| && s[j..j + |pat|] == pat
  }

  /** The first position from `i` on at which `pat` occurs, or -1. */
  function IndexFrom(s: string, pat: string, i: nat): (r: int)
    requires i <= |s|
    ensures r == -1 || i <= r <= |s| - |pat|
    decreases |s| - i
  {
    if i + |pat| > |s| then -1
    else if s[i..i + |pat|] == pat then i
    else IndexFrom(s, pat, i + 1)
  }

  /** `s.indexOf(pat)`: the first position at which `pat` occurs, or -1. */
  function IndexOf(s: string, pat: string): (r: int)
    ensures r == -1 || 0 <= r <= |s| - |pat|
  {
    IndexFrom(s, pat, 0)
  }

  lemma {:induction false} IndexFromFindsFirst(s: string, pat: string, i: nat)
    requires i <= |s|
    ensures IndexFrom(s, pat, i) == -1 || OccursAt(s, pat, IndexFrom(s, pat, i))
    ensures forall j :: i <= j && (IndexFrom(s, pat, i) < 0 || j < IndexFrom(s, pat, i)) ==> !OccursAt(s, pat, j)
    decreases |s| - i
  {
    if i + |pat| <= |s| && s[i..i + |pat|] != pat {
      IndexFromFindsFirst(s, pat, i + 1);
    }
  }

  /** -1 exactly when `pat` occurs nowhere; otherwise an occurrence with none before it. */
  lemma IndexOfFindsFirst(s: string, pat: string)
    ensures IndexOf(s, pat) == -1 || OccursAt(s, pat, IndexOf(s, pat))
    ensures forall j :: 0 <= j && (IndexOf(s, pat) < 0 || j < IndexOf(s, pat)) ==> !OccursAt(s, pat, j)
  {
    IndexFromFindsFirst(s, pat, 0);
  }

  /**
   * `s.replace(pat, rep)` with a string pattern: only the first occurrence is
   * replaced. `rep` is inserted literally; the `$` patterns JavaScript expands
   * in a replacement string are not modelled, and the only replacement used
   * is the empty string.
   */
  function ReplaceFirst(s: string, pat: string, rep: string): string
  {
    var i := IndexOf(s, pat);
    if i < 0 then s else s[..i] + rep + s[i + |pat|..]
  }

  /** Removing the first occurrence never lengthens the string. */
  lemma ReplaceFirstShortens(s: string, pat: string)
    ensures |ReplaceFirst(s, pat, "")| <= |s|
  {
  }

  /** Without an occurrence the string is returned as it is. */
  lemma ReplaceFirstAbsent(s: string, pat: string, rep: string)
    requires forall j :: !OccursAt(s, pat, j)
    ensures ReplaceFirst(s, pat, rep) == s
  {
    IndexOfFindsFirst(s, pat);
  }

  /** A string that starts with the pattern loses exactly that prefix. */
  lemma ReplaceFirstAtStart(pat: string, t: string, rep: string)
    ensures ReplaceFirst(pat + t, pat, rep) == rep + t
  {
    var s := pat + t;
    assert s[..|pat|] == pat;
    assert IndexOf(s, pat) == 0;
    assert s[|pat|..] == t;
  }

  function Clamp(i: int, len: nat): (r: nat)
    ensures r <= len
    ensures 0 <= i <= len ==> r == i
  {
    if i < 0 then 0 else if i > len then len else i
  }

  /** `s.substring(start, end)`: both bounds clamped into `[0, |s|]`, then taken in increasing order. */
  function Substring(s: string, start: int, end: int): (r: string)
    ensures |r| <= |s|
  {
    var a := Clamp(start, |s|);
    var b := Clamp(end, |s|);
    if a <= b then s[a..b] else s[b..a]
  }

  /** Bounds inside the string are used as they are, in whichever order they come. */
  lemma SubstringInRange(s: string, start: int, end: int)
    requires 0 <= start <= |s| && 0 <= end <= |s|
    ensures start <= end ==> Substring(s, start, end) == s[start..end]
    ensures end <= start ==> Substring(s, start, end) == s[end..start]
  {
  }

  function DigitChar(d: nat): (c: char)
    requires d < 10
    ensures '0' <= c <= '9'
  {
    ('0' as int + d) as char
  }

  /** The decimal digits of a natural number, most significant first. */
  function NatToString(n: nat): (r: string)
    ensures |r| > 0
    ensures forall i :: 0 <= i < |r| ==> '0' <= r[i] <= '9'
    // the canonical numeral: "0" alone for zero, otherwise no leading zero
    ensures r[0] == '0' <==> n == 0
    ensures n == 0 ==> r == "0"
  {
    if n < 10 then [DigitChar(n)] else NatToString(n / 10) + [DigitChar(n % 10)]
  }

  /** An integer in a template literal: an optional minus sign and decimal digits. */
  function IntToString(i: int): (r: string)
    ensures |r| > 0
    ensures r[0] == '-' <==> i < 0
    ensures i >= 0 ==> forall k :: 0 <= k < |r| ==> '0' <= r[k] <= '9'
    ensures i < 0 ==> |r| > 1 && forall k :: 1 <= k < |r| ==> '0' <= r[k] <= '9'
    // no leading zeros: "0" is the only numeral starting with a zero, and no negative numeral has one after its sign
    ensures i >= 0 && |r| > 1 ==> r[0] != '0'
    ensures i < 0 ==> r[1] != '0'
  {
    if i < 0 then "-" + NatToString(-i) else NatToString(i)
  }

  /** Reading a string of decimal digits back as a number, most significant first. */
  function DecimalValue(s: string): nat
    requires forall k :: 0 <= k < |s| ==> '0' <= s[k] <= '9'
  {
    if s == [] then 0 else 10 * DecimalValue(s[..|s| - 1]) + (s[|s| - 1] as int - '0' as int)
  }

  lemma {:induction false} NatToStringValue(n: nat)
    ensures DecimalValue(NatToString(n)) == n
  {
    var r := NatToString(n);
    if n >= 10 {
      NatToStringValue(n / 10);
      assert r[..|r| - 1] == NatToString(n / 10);
    }
  }

  /** The text is the decimal numeral of the integer: its digits read back as its magnitude, with a sign exactly for negatives. */
  lemma IntToStringValue(i: int)
    ensures i >= 0 ==> DecimalValue(IntToString(i)) == i
    ensures i < 0 ==> IntToString(i)[0] == '-' && DecimalValue(IntToString(i)[1..]) == -i
  {
    if i >= 0 {
      NatToStringValue(i);
    } else {
      NatToStringValue(-i);
      assert IntToString(i)[1..] == NatToString(-i);
    }
  }
}
