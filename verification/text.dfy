/**
 * The small part of Python's string and integer behaviour the certificate
 * issuer depends on: `str.strip()`, `str.isdigit()`, `int(s)` on a digit
 * string and `str(n)` on an integer.
 */
module Text {

  /** Python's `str.isspace()` for one character (the Unicode whitespace set). */
  predicate IsSpace(c: char) {
    || c == ' '
    || ('\t' <= c <= '\r')
    || ('\U{1C}' <= c <= '\U{1F}')
    || c == '\U{85}'
    || c == '\U{A0}'
    || c == '\U{1680}'
    || ('\U{2000}' <= c <= '\U{200A}')
    || c == '\U{2028}'
    || c == '\U{2029}'
    || c == '\U{202F}'
    || c == '\U{205F}'
    || c == '\U{3000}'
  }

  /** Every character of `s` is whitespace (true of the empty string). */
  predicate AllSpace(s: string) {
    forall i :: 0 <= i < |s| ==> IsSpace(s[i])
  }

  /** Neither end of `s` is whitespace. */
  predicate NoEdgeSpace(s: string) {
    s == [] || (!IsSpace(s[0]) && !IsSpace(s[|s| - 1]))
  }

  /**
   * `s[lo..hi]` is `s` with the whitespace around it cut off: everything
   * outside is whitespace and a non-empty middle starts and ends with a
   * non-space character.
   */
  predicate TrimBounds(s: string, lo: nat, hi: nat) {
    && lo <= hi <= |s|
    && (forall i :: 0 <= i < lo ==> IsSpace(s[i]))
    && (forall i :: hi <= i < |s| ==> IsSpace(s[i]))
    && (lo < hi ==> !IsSpace(s[lo]) && !IsSpace(s[hi - 1]))
  }

  /** `r` is what is left of `s` once the whitespace around it is cut off. */
  ghost predicate IsTrimOf(s: string, r: string) {
    exists lo: nat, hi: nat :: TrimBounds(s, lo, hi) && r == s[lo..hi]
  }

  /** The index of the first non-space character at or after `i` (`|s|` if none). */
  function SkipSpace(s: string, i: nat): (k: nat)
    requires i <= |s|
    ensures i <= k <= |s|
    ensures forall j :: i <= j < k ==> IsSpace(s[j])
    ensures k < |s| ==> !IsSpace(s[k])
    decreases |s| - i
  {
    if i == |s| || !IsSpace(s[i]) then i else SkipSpace(s, i + 1)
  }

  /** The end of the last non-space character in `s[lo..hi]` (`lo` if none). */
  function SkipSpaceBack(s: string, lo: nat, hi: nat): (k: nat)
    requires lo <= hi <= |s|
    ensures lo <= k <= hi
    ensures forall j :: k <= j < hi ==> IsSpace(s[j])
    ensures k > lo ==> !IsSpace(s[k - 1])
    decreases hi
  {
    if hi == lo || !IsSpace(s[hi - 1]) then hi else SkipSpaceBack(s, lo, hi - 1)
  }

  /** Python's `str.strip()` with no argument. */
  function Strip(s: string): (r: string)
    ensures |r| <= |s|
    ensures NoEdgeSpace(r)
  {
    var lo := SkipSpace(s, 0);
    s[lo..SkipSpaceBack(s, lo, |s|)]
  }

  /** `strip()` cuts whitespace, and only whitespace, off both ends. */
  lemma StripIsTrim(s: string)
    ensures IsTrimOf(s, Strip(s))
  {
    var lo := SkipSpace(s, 0);
    var hi := SkipSpaceBack(s, lo, |s|);
    assert TrimBounds(s, lo, hi);
  }

  /** A string that neither starts nor ends with whitespace is left as it is. */
  lemma StripKeeps(s: string)
    requires NoEdgeSpace(s)
    ensures Strip(s) == s
  {
    assert SkipSpace(s, 0) == 0;
    assert SkipSpaceBack(s, 0, |s|) == |s|;
  }

  /** Two ways of cutting the surrounding whitespace off `s` cut the same middle. */
  lemma TrimBoundsUnique(s: string, lo: nat, hi: nat, lo': nat, hi': nat)
    requires TrimBounds(s, lo, hi) && TrimBounds(s, lo', hi')
    ensures s[lo..hi] == s[lo'..hi']
  {
  }

  /** The trimmed form is unique: `strip()` is the one and only trim. */
  lemma TrimIsStrip(s: string, r: string)
    requires IsTrimOf(s, r)
    ensures r == Strip(s)
  {
    StripIsTrim(s);
    var lo: nat, hi: nat :| TrimBounds(s, lo, hi) && r == s[lo..hi];
    var lo': nat, hi': nat :| TrimBounds(s, lo', hi') && Strip(s) == s[lo'..hi'];
    TrimBoundsUnique(s, lo, hi, lo', hi');
  }

  /** Stripping leaves nothing exactly when the string is all whitespace. */
  lemma StripEmptyIffBlank(s: string)
    ensures Strip(s) == [] <==> AllSpace(s)
  {
    StripIsTrim(s);
    var lo: nat, hi: nat :| TrimBounds(s, lo, hi) && Strip(s) == s[lo..hi];
  }

  /** Stripping a stripped string changes nothing. */
  lemma StripIdempotent(s: string)
    ensures Strip(Strip(s)) == Strip(s)
  {
    var r := Strip(s);
    assert TrimBounds(r, 0, |r|) && r == r[0..|r|];
    TrimIsStrip(r, r);
  }

  /** An ASCII decimal digit; Python's `isdigit` also accepts other Unicode digits, which are not modelled. */
  predicate IsDigit(c: char) {
    '0' <= c <= '9'
  }

  predicate AllDigits(s: string) {
    forall i :: 0 <= i < |s| ==> IsDigit(s[i])
  }

  /** Python's `str.isdigit()`: non-empty and made of digits only. */
  predicate IsDigits(s: string) {
    |s| > 0 && AllDigits(s)
  }

  /** A digit string with no superfluous leading zero: what `str(n)` prints. */
  predicate IsCanonical(s: string) {
    IsDigits(s) && (|s| == 1 || s[0] != '0')
  }

  function DigitValue(c: char): (d: nat)
    requires IsDigit(c)
    ensures d < 10
  {
    (c as int) - ('0' as int)
  }

  function DigitChar(d: nat): (c: char)
    requires d < 10
    ensures IsDigit(c) && DigitValue(c) == d
  {
    (('0' as int) + d) as char
  }

  /** Python's `int(s)` for a string of decimal digits (leading zeros allowed). */
  function ParseNat(s: string): nat
    requires AllDigits(s)
  {
    if |s| == 0 then 0 else 10 * ParseNat(s[..|s| - 1]) + DigitValue(s[|s| - 1])
  }

  /** Python's `str(n)` for a non-negative integer. */
  function NatToString(n: nat): (r: string)
    ensures IsCanonical(r)
  {
    if n < 10 then [DigitChar(n)] else NatToString(n / 10) + [DigitChar(n % 10)]
  }

  /** Python's `str(i)` for any integer. */
  function IntToString(i: int): (r: string)
    ensures |r| > 0
  {
    if i < 0 then "-" + NatToString(-i) else NatToString(i)
  }

  /** `int(str(n)) == n`. */
  lemma {:induction false} ParseNatToString(n: nat)
    ensures ParseNat(NatToString(n)) == n
  {
    if n >= 10 {
      ParseNatToString(n / 10);
      var s := NatToString(n);
      assert s[..|s| - 1] == NatToString(n / 10);
    }
  }

  /** Printing is injective: distinct numbers print differently. */
  lemma NatToStringInjective(m: nat, n: nat)
    ensures NatToString(m) == NatToString(n) ==> m == n
  {
    ParseNatToString(m);
    ParseNatToString(n);
  }

  lemma {:induction false} ParseNatPositive(s: string)
    requires IsDigits(s) && s[0] != '0'
    ensures ParseNat(s) > 0
  {
    if |s| > 1 {
      ParseNatPositive(s[..|s| - 1]);
    }
  }

  /**
   * `str(int(s)) == s` exactly for canonical digit strings: a position
   * written "007" comes back as "7".
   */
  lemma {:induction false} NatToStringParse(s: string)
    requires IsDigits(s)
    ensures NatToString(ParseNat(s)) == s <==> IsCanonical(s)
  {
    if IsCanonical(s) && |s| > 1 {
      var init := s[..|s| - 1];
      assert IsCanonical(init);
      ParseNatPositive(init);
      NatToStringParse(init);
      var n := ParseNat(s);
      assert n / 10 == ParseNat(init) && n % 10 == DigitValue(s[|s| - 1]);
      assert NatToString(n) == init + [s[|s| - 1]];
    }
  }

  /** `str(i).isdigit()` holds exactly for non-negative integers. */
  lemma IntToStringDigitsIff(i: int)
    ensures IsDigits(IntToString(i)) <==> i >= 0
  {
    if i < 0 {
      assert IntToString(i)[0] == '-';
    }
  }
}
