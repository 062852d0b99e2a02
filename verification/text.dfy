/** Strings as JavaScript sees them in the scraper: white space, substring
    search, `trim`, `toLowerCase`, and the decimal forms of integers. */
module Text {
  import opened Wrappers

  /** White space as JavaScript defines it (WhiteSpace and LineTerminator):
      what `\s` matches in a regular expression and what `trim` removes. */
  predicate IsSpace(c: char) {
    || c == ' '
    || '\U{0009}' <= c <= '\U{000D}'
    || c == '\U{00A0}' || c == '\U{1680}'
    || '\U{2000}' <= c <= '\U{200A}'
    || c == '\U{2028}' || c == '\U{2029}' || c == '\U{202F}'
    || c == '\U{205F}' || c == '\U{3000}' || c == '\U{FEFF}'
  }

  predicate IsDigit(c: char) { '0' <= c <= '9' }

  predicate AllDigits(t: string) {
    forall k :: 0 <= k < |t| ==> IsDigit(t[k])
  }

  // ---------------------------------------------------------------------------
  // Substrings

  /** `s.includes(w)`: `w` occurs somewhere in `s`. */
  predicate Contains(s: string, w: string)
    decreases |s|
  {
    w <= s || (|s| > 0 && Contains(s[1..], w))
  }

  /** `w` occurs in `s` starting at index `i`. */
  ghost predicate OccursAt(s: string, w: string, i: int) {
    0 <= i && i + |w| <= |s| && s[i..i + |w|] == w
  }

  /** The recursive search finds `w` exactly when it occurs at some index. */
  lemma {:induction false} ContainsIff(s: string, w: string)
    ensures Contains(s, w) <==> exists i :: OccursAt(s, w, i)
    decreases |s|
  {
    if w <= s {
      assert OccursAt(s, w, 0);
    } else if |s| > 0 {
      ContainsIff(s[1..], w);
      forall i | OccursAt(s, w, i)
        ensures OccursAt(s[1..], w, i - 1)
      {
        assert i != 0;
        assert s[1..][i - 1..i - 1 + |w|] == s[i..i + |w|];
      }
      forall i | OccursAt(s[1..], w, i)
        ensures OccursAt(s, w, i + 1)
      {
        assert s[i + 1..i + 1 + |w|] == s[1..][i..i + |w|];
      }
    }
  }

  /** An occurrence at a known index is found by the search. */
  lemma OccursContains(s: string, w: string, i: nat)
    requires OccursAt(s, w, i)
    ensures Contains(s, w)
  {
    ContainsIff(s, w);
  }

  /** A string ends with, and so contains, its own suffix. */
  lemma SuffixContains(p: string, w: string)
    ensures Contains(p + w, w)
  {
    assert (p + w)[|p|..|p| + |w|] == w;
    OccursContains(p + w, w, |p|);
  }

  /** Containment is transitive: text that contains `b` contains everything `b` contains. */
  lemma ContainsTransitive(a: string, b: string, c: string)
    requires Contains(a, b) && Contains(b, c)
    ensures Contains(a, c)
  {
    ContainsIff(a, b);
    ContainsIff(b, c);
    var i :| OccursAt(a, b, i);
    var j :| OccursAt(b, c, j);
    SliceOfSlice(a, i, i + |b|, j, j + |c|);
    OccursContains(a, c, i + j);
  }

  /** A slice of a slice is a slice of the original. */
  lemma SliceOfSlice(s: string, i: nat, e: nat, a: nat, b: nat)
    requires i <= e <= |s| && a <= b <= e - i
    ensures s[i..e][a..b] == s[i + a..i + b]
  {
    var t := s[i..e];
    assert forall k :: 0 <= k < b - a ==> t[a..b][k] == t[a + k] == s[i + a + k];
  }

  // ---------------------------------------------------------------------------
  // Runs of characters

  /** The end of the longest run of characters satisfying `p` that starts at `i`. */
  function SkipWhile(s: string, i: nat, p: char -> bool): (j: nat)
    requires i <= |s|
    ensures i <= j <= |s|
    ensures forall k :: i <= k < j ==> p(s[k])
    ensures j == |s| || !p(s[j])
    decreases |s| - i
  {
    if i < |s| && p(s[i]) then SkipWhile(s, i + 1, p) else i
  }

  /** The run ends exactly where the characters stop satisfying `p`. */
  lemma SkipWhileIs(s: string, i: nat, j: nat, p: char -> bool)
    requires i <= j <= |s|
    requires forall k :: i <= k < j ==> p(s[k])
    requires j == |s| || !p(s[j])
    ensures SkipWhile(s, i, p) == j
  {
  }

  /** The end of the longest run of characters satisfying `p` that ends at `j`,
      scanning back no further than `lo`. */
  function SkipBackWhile(s: string, lo: nat, j: nat, p: char -> bool): (i: nat)
    requires lo <= j <= |s|
    ensures lo <= i <= j
    ensures forall k :: i <= k < j ==> p(s[k])
    ensures i == lo || !p(s[i - 1])
    decreases j
  {
    if lo < j && p(s[j - 1]) then SkipBackWhile(s, lo, j - 1, p) else j
  }

  // ---------------------------------------------------------------------------
  // trim

  ghost predicate AllSpace(t: string) {
    forall k :: 0 <= k < |t| ==> IsSpace(t[k])
  }

  /** `r` is `s` with the white space prefix `s[..i]` and a white space suffix removed. */
  ghost predicate TrimmedAt(s: string, r: string, i: int) {
    0 <= i && i + |r| <= |s| && r == s[i..i + |r|] && AllSpace(s[..i]) && AllSpace(s[i + |r|..])
  }

  /** `String.prototype.trim`: drops leading and trailing white space. */
  function Trim(s: string): (r: string)
    ensures exists i :: TrimmedAt(s, r, i)
    ensures r == [] || (!IsSpace(r[0]) && !IsSpace(r[|r| - 1]))
  {
    var i := SkipWhile(s, 0, IsSpace);
    var j := SkipBackWhile(s, i, |s|, IsSpace);
    assert TrimmedAt(s, s[i..j], i);
    s[i..j]
  }

  /** Trimming twice is trimming once. */
  lemma TrimIdempotent(s: string)
    ensures Trim(Trim(s)) == Trim(s)
  {
    var t := Trim(s);
    var i := SkipWhile(t, 0, IsSpace);
    assert i == 0;
    var j := SkipBackWhile(t, i, |t|, IsSpace);
    assert j == |t|;
  }

  // ---------------------------------------------------------------------------
  // toLowerCase

  /** `toLowerCase` of one character, for every character whose lower-case form
      contains an ASCII letter: the ASCII capitals, U+0130 (capital I with dot
      above, which lowers to "i" followed by a combining dot) and U+212A (the
      Kelvin sign, which lowers to "k"). Every other character is kept as it
      is; its true lower-case form has no ASCII letter either. */
  function LowerChar(c: char): string {
    if 'A' <= c <= 'Z' then [(c as int + 32) as char]
    else if c == '\U{0130}' then "i\U{0307}"
    else if c == '\U{212A}' then "k"
    else [c]
  }

  function ToLower(s: string): string
    decreases |s|
  {
    if |s| == 0 then [] else LowerChar(s[0]) + ToLower(s[1..])
  }

  // ---------------------------------------------------------------------------
  // Decimal strings

  function DigitChar(d: nat): (c: char)
    requires d < 10
    ensures IsDigit(c)
  {
    ('0' as int + d) as char
  }

  function DigitValue(c: char): (d: nat)
    requires IsDigit(c)
    ensures d < 10 && DigitChar(d) == c
  {
    c as int - '0' as int
  }

  /** The value of a string of decimal digits (0 for the empty string). */
  function ParseDigits(t: string): nat
    requires AllDigits(t)
    decreases |t|
  {
    if |t| == 0 then 0 else 10 * ParseDigits(t[..|t| - 1]) + DigitValue(t[|t| - 1])
  }

  /** `n.toString()` for a non-negative integer: its decimal digits, no leading zero. */
  function NatToString(n: nat): (r: string)
    ensures |r| >= 1 && AllDigits(r)
    ensures r[0] == '0' ==> n == 0
    decreases n
  {
    if n < 10 then [DigitChar(n)] else NatToString(n / 10) + [DigitChar(n % 10)]
  }

  /** Reading back the decimal form of `n` gives `n`. */
  lemma {:induction false} NatToStringRoundTrip(n: nat)
    ensures ParseDigits(NatToString(n)) == n
    decreases n
  {
    if n >= 10 {
      var r := NatToString(n);
      assert r[..|r| - 1] == NatToString(n / 10);
      NatToStringRoundTrip(n / 10);
    }
  }

  /** Four-digit numbers print as four digits. */
  lemma NatToStringFourDigits(n: nat)
    requires 1000 <= n <= 9999
    ensures |NatToString(n)| == 4
  {
    assert |NatToString(n / 1000)| == 1;
    assert |NatToString(n / 100)| == 2;
    assert |NatToString(n / 10)| == 3;
  }

  /** Template-literal conversion `${n}` of an integer: a minus sign for negative values. */
  function IntToString(i: int): string {
    if i < 0 then "-" + NatToString(-i) else NatToString(i)
  }

  /** The decimal form of a non-zero integer: no leading zero, after the sign if any. */
  predicate NoLeadingZero(t: string) {
    |t| >= 1 && t[0] != '0' && (t[0] == '-' ==> |t| >= 2 && t[1] != '0')
  }

  /** A non-zero integer prints without a leading zero. */
  lemma IntToStringNoLeadingZero(i: int)
    requires i != 0
    ensures NoLeadingZero(IntToString(i))
  {
    if i < 0 {
      assert IntToString(i) == "-" + NatToString(-i);
    } else {
      assert IsDigit(NatToString(i)[0]);
    }
  }

  /** Reads an optionally negative decimal integer; `None` for anything else. */
  function ParseInt(t: string): Option<int> {
    if |t| >= 2 && t[0] == '-' && AllDigits(t[1..]) then Some(0 - ParseDigits(t[1..]) as int)
    else if |t| >= 1 && AllDigits(t) then Some(ParseDigits(t))
    else None
  }

  /** Every integer's decimal form reads back as that integer. */
  lemma IntToStringRoundTrip(i: int)
    ensures ParseInt(IntToString(i)) == Some(i)
  {
    if i < 0 {
      var d := NatToString(-i);
      NatToStringRoundTrip(-i);
      assert IntToString(i) == "-" + d;
      assert ("-" + d)[1..] == d;
    } else {
      var d := NatToString(i);
      NatToStringRoundTrip(i);
      assert IntToString(i) == d && IsDigit(d[0]);
    }
  }

  /** `parseInt` (and `Math.floor(parseFloat(..))`) on the strings the extractor
      hands it: a comma-free amount, a year token, a captured year, or a whole
      labelled match that begins with a letter. On these it is the value of the
      leading run of digits, or `None` (NaN) when the text does not start with a
      digit. Leading white space, a sign, or a fraction without integer digits,
      which JavaScript also accepts, never occur there and are not modelled. */
  function LeadingInteger(t: string): (r: Option<nat>)
    ensures r.Some? <==> |t| > 0 && IsDigit(t[0])
  {
    var n := SkipWhile(t, 0, IsDigit);
    if n == 0 then None else Some(ParseDigits(t[..n]))
  }

  /** The value read from digits followed by a non-digit tail (a fraction, say) is the digits' value. */
  lemma LeadingIntegerOfDigits(d: string, rest: string)
    requires |d| > 0 && AllDigits(d)
    requires rest == [] || !IsDigit(rest[0])
    ensures LeadingInteger(d + rest) == Some(ParseDigits(d))
  {
    var t := d + rest;
    assert forall k :: 0 <= k < |d| ==> IsDigit(t[k]);
    SkipWhileIs(t, 0, |d|, IsDigit);
    assert t[..|d|] == d;
  }
}
