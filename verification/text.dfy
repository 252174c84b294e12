/**
 * The two string operations the components rely on: locating the first
 * occurrence of a pattern, and JavaScript's `String.prototype.replace` with a
 * string pattern, which rewrites only that first occurrence.
 */
module Text {
  /** `pat` occurs in `s` starting at position `i`. */
  predicate OccursAt(s: string, pat: string, i: nat)
  {
    i + |pat| <= |s| && s[i..i + |pat|] == pat
  }

  /** The first position at or after `from` where `pat` occurs, or -1. */
  function IndexFrom(s: string, pat: string, from: nat): (r: int)
    requires from <= |s|
    ensures r == -1 || (from <= r && OccursAt(s, pat, r))
    ensures r == -1 ==> forall p: nat :: from <= p <= |s| ==> !OccursAt(s, pat, p)
    ensures r != -1 ==> forall p: nat :: from <= p < r ==> !OccursAt(s, pat, p)
    decreases |s| - from
  {
    if OccursAt(s, pat, from) then from
    else if from == |s| then -1
    else IndexFrom(s, pat, from + 1)
  }

  /** `s.indexOf(pat)`. */
  function IndexOf(s: string, pat: string): int
  {
    IndexFrom(s, pat, 0)
  }

  /** `s.replace(pat, rep)` for a string `pat`. */
  function ReplaceFirst(s: string, pat: string, rep: string): (r: string)
  {
    var i := IndexOf(s, pat);
    if i == -1 then s else s[..i] + rep + s[i + |pat|..]
  }

  /** Without an occurrence the string is returned unchanged. */
  lemma ReplaceAbsent(s: string, pat: string, rep: string)
    requires forall p: nat :: p <= |s| ==> !OccursAt(s, pat, p)
    ensures ReplaceFirst(s, pat, rep) == s
  {
  }

  /**
   * When `pat` first occurs at `i`, the text before `i` is kept, `rep` takes the
   * place of that occurrence and everything after it is kept.
   */
  lemma ReplaceAtFirst(s: string, pat: string, rep: string, i: nat)
    requires OccursAt(s, pat, i)
    requires forall p: nat :: p < i ==> !OccursAt(s, pat, p)
    ensures ReplaceFirst(s, pat, rep) == s[..i] + rep + s[i + |pat|..]
  {
  }

  /** A string that starts with `pat` has it replaced at the front. */
  lemma ReplacePrefix(pat: string, rest: string, rep: string)
    ensures ReplaceFirst(pat + rest, pat, rep) == rep + rest
  {
    var s := pat + rest;
    assert s[0..|pat|] == pat;
    ReplaceAtFirst(s, pat, rep, 0);
    assert s[..0] == [];
    assert s[|pat|..] == rest;
  }

  predicate IsDigit(c: char)
  {
    '0' <= c <= '9'
  }

  function DigitChar(d: nat): (c: char)
    requires d < 10
    ensures IsDigit(c)
  {
    (48 + d) as char
  }

  function DigitValue(c: char): (d: nat)
    requires IsDigit(c)
    ensures d < 10
  {
    (c as int - 48) as nat
  }

  /** The decimal numeral JavaScript writes when a non-negative integer is interpolated into a template string. */
  function NatToString(n: nat): (s: string)
    ensures 0 < |s| && forall k :: 0 <= k < |s| ==> IsDigit(s[k])
    ensures s[0] == '0' ==> n == 0
    decreases n
  {
    if n < 10 then [DigitChar(n)] else NatToString(n / 10) + [DigitChar(n % 10)]
  }

  /** The value of a string of decimal digits. */
  function ParseDigits(s: string): nat
    requires forall k :: 0 <= k < |s| ==> IsDigit(s[k])
    decreases |s|
  {
    if |s| == 0 then 0 else 10 * ParseDigits(s[..|s| - 1]) + DigitValue(s[|s| - 1])
  }

  /** The numeral reads back as the number it was written from. */
  lemma {:induction false} ParseNatToString(n: nat)
    ensures ParseDigits(NatToString(n)) == n
    decreases n
  {
    var s := NatToString(n);
    if n >= 10 {
      ParseNatToString(n / 10);
      assert s[..|s| - 1] == NatToString(n / 10);
    }
  }
}
