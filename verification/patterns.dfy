/** The regular expressions of the detail extractor. Each is modelled as a
    matcher that says whether the expression matches at a given start index
    and, if so, what its capture group (or match array) holds; `FirstMatch`
    and `YearTokens` are the scans that `String.prototype.match` performs
    with a non-global and a global expression. No expression carries the `u`
    flag, so `\s`, `\w` and `\b` have their classic meanings. */
module Patterns {
  import opened Wrappers
  import opened Text

  // ---------------------------------------------------------------------------
  // Character classes and literals

  /** Characters the amount group `\d+(?:,\d{3})*(?:\.\d{2})?` can consume. */
  predicate IsAmountChar(c: char) { IsDigit(c) || c == ',' || c == '.' }

  /** `\w`. */
  predicate IsWordChar(c: char) { 'a' <= c <= 'z' || 'A' <= c <= 'Z' || IsDigit(c) || c == '_' }

  /** `[:\s]`. */
  predicate IsColonOrSpace(c: char) { c == ':' || IsSpace(c) }

  /** One literal character under the `i` flag without `u`: an ASCII letter
      matches itself in either case and nothing else, since no non-ASCII
      character canonicalises to an ASCII one; every other character matches
      only itself. `lower` is the pattern's character in lower case. */
  predicate CaselessEq(c: char, lower: char) {
    c == lower || ('a' <= lower <= 'z' && c as int == lower as int - 32)
  }

  /** The lower-case literal `lit` matches, ignoring case, at index `i` of `s`. */
  predicate CaselessAt(s: string, i: nat, lit: string) {
    i + |lit| <= |s| && forall k :: 0 <= k < |lit| ==> CaselessEq(s[i + k], lit[k])
  }

  // ---------------------------------------------------------------------------
  // Leftmost matching

  /** The first start index at or after `from` where the matcher `at` succeeds. */
  function FindFrom<T>(s: string, from: nat, at: (string, nat) -> Option<T>): (r: Option<nat>)
    ensures r.Some? ==>
      && from <= r.value <= |s|
      && at(s, r.value).Some?
      && forall q :: from <= q < r.value ==> at(s, q).None?
    ensures r.None? ==> forall q :: from <= q <= |s| ==> at(s, q).None?
    decreases |s| + 1 - from
  {
    if from > |s| then None
    else if at(s, from).Some? then Some(from)
    else FindFrom(s, from + 1, at)
  }

  /** Start indices where the matcher fails can be skipped without changing the search. */
  lemma {:induction false} FindFromSkip<T>(s: string, from: nat, to: nat, at: (string, nat) -> Option<T>)
    requires from <= to <= |s| + 1
    requires forall q :: from <= q < to ==> at(s, q).None?
    ensures FindFrom(s, from, at) == FindFrom(s, to, at)
    decreases |s| + 1 - from
  {
    if from < to {
      FindFromSkip(s, from + 1, to, at);
    }
  }

  /** `s.match(re)` for a non-global `re` whose matcher is `at`: the match at the
      leftmost start index where `re` matches. */
  function FirstMatch<T>(s: string, at: (string, nat) -> Option<T>): (r: Option<T>)
    ensures r.Some? ==>
      exists p :: 0 <= p <= |s| && at(s, p) == r && forall q :: 0 <= q < p ==> at(s, q).None?
    ensures r.None? ==> forall p :: 0 <= p <= |s| ==> at(s, p).None?
  {
    match FindFrom(s, 0, at)
    case Some(p) => at(s, p)
    case None => None
  }

  // ---------------------------------------------------------------------------
  // The amount group `\d+(?:,\d{3})*(?:\.\d{2})?`

  /** `(?:\.\d{2})?` matching all of `t`. */
  predicate IsCents(t: string) {
    |t| == 0 || (|t| == 3 && t[0] == '.' && IsDigit(t[1]) && IsDigit(t[2]))
  }

  /** `(?:,\d{3})*(?:\.\d{2})?` matching all of `t`. */
  ghost predicate IsGroupsThenCents(t: string)
    decreases |t|
  {
    || IsCents(t)
    || (4 <= |t| && t[0] == ',' && AllDigits(t[1..4]) && IsGroupsThenCents(t[4..]))
  }

  /** The amount grammar matching all of `t`. */
  ghost predicate IsAmount(t: string) {
    exists k :: 1 <= k <= |t| && AllDigits(t[..k]) && IsGroupsThenCents(t[k..])
  }

  /** Where `(?:,\d{3})*` stops when every repetition is taken greedily. */
  function GroupsEnd(s: string, i: nat): (j: nat)
    requires i <= |s|
    ensures i <= j <= |s|
    decreases |s| - i
  {
    if i + 4 <= |s| && s[i] == ',' && AllDigits(s[i + 1..i + 4]) then GroupsEnd(s, i + 4) else i
  }

  /** Where `(?:\.\d{2})?` stops when taken greedily. */
  function CentsEnd(s: string, i: nat): (j: nat)
    requires i <= |s|
    ensures i <= j <= |s|
  {
    if i + 3 <= |s| && s[i] == '.' && IsDigit(s[i + 1]) && IsDigit(s[i + 2]) then i + 3 else i
  }

  /** Where the amount group ends when it starts at `i` and every part of it
      is taken greedily; `None` when no digit stands at `i`. */
  function AmountEnd(s: string, i: nat): (r: Option<nat>)
    requires i <= |s|
    ensures r.None? <==> i == |s| || !IsDigit(s[i])
    ensures r.Some? ==> i < r.value <= |s|
  {
    var d := SkipWhile(s, i, IsDigit);
    if d == i then None else Some(CentsEnd(s, GroupsEnd(s, d)))
  }

  lemma {:induction false} GroupsSound(s: string, i: nat)
    requires i <= |s|
    ensures IsGroupsThenCents(s[i..CentsEnd(s, GroupsEnd(s, i))])
    decreases |s| - i
  {
    if i + 4 <= |s| && s[i] == ',' && AllDigits(s[i + 1..i + 4]) {
      GroupsSound(s, i + 4);
      var e := CentsEnd(s, GroupsEnd(s, i + 4));
      assert i + 4 <= e;
      var t := s[i..e];
      SliceOfSlice(s, i, e, 1, 4);
      assert t[4..] == s[i + 4..e];
    }
  }

  /** What the greedy parse consumes is an amount. */
  lemma AmountEndSound(s: string, i: nat)
    requires i <= |s| && AmountEnd(s, i).Some?
    ensures IsAmount(s[i..AmountEnd(s, i).value])
  {
    var d := SkipWhile(s, i, IsDigit);
    var e := AmountEnd(s, i).value;
    GroupsSound(s, d);
    var t, k := s[i..e], d - i;
    SliceOfSlice(s, i, e, 0, k);
    SliceOfSlice(s, i, e, k, e - i);
    assert t[..k] == t[0..k] && t[k..] == t[k..e - i];
    assert 1 <= k <= |t| && AllDigits(t[..k]) && IsGroupsThenCents(t[k..]);
  }

  lemma {:induction false} GroupsGreedy(s: string, d: nat, e: nat)
    requires d <= e <= |s|
    requires IsGroupsThenCents(s[d..e])
    requires e == |s| || !IsAmountChar(s[e])
    ensures CentsEnd(s, GroupsEnd(s, d)) == e
    decreases e - d
  {
    var t := s[d..e];
    if !IsCents(t) {
      assert 4 <= |t| && t[0] == ',' && AllDigits(t[1..4]) && IsGroupsThenCents(t[4..]);
      SliceOfSlice(s, d, e, 1, 4);
      assert t[4..] == s[d + 4..e];
      GroupsGreedy(s, d + 4, e);
    }
  }

  /** An amount that is followed by a character the amount group cannot
      consume is exactly what the greedy parse takes. Hence when an
      expression requires such a character after the amount, the only
      way its backtracking search can succeed is with the greedy parse. */
  lemma DelimitedAmountIsGreedy(s: string, i: nat, e: nat)
    requires i <= e <= |s|
    requires IsAmount(s[i..e])
    requires e == |s| || !IsAmountChar(s[e])
    ensures AmountEnd(s, i) == Some(e)
  {
    var t := s[i..e];
    var k :| 1 <= k <= |t| && AllDigits(t[..k]) && IsGroupsThenCents(t[k..]);
    var d := i + k;
    assert forall j :: i <= j < d ==> s[j] == t[..k][j - i];
    assert t[k..] == s[d..e];
    assert d < e ==> s[d] == t[k..][0];
    SkipWhileIs(s, i, d, IsDigit);
    GroupsGreedy(s, d, e);
  }

  // ---------------------------------------------------------------------------
  // The four rate expressions

  /** The part of `\$(amount)\s*(?:\/|per)\s*hour` after the amount, at `e`. */
  predicate PerHourTailAt(s: string, e: nat)
    requires e <= |s|
  {
    var q := SkipWhile(s, e, IsSpace);
    || (q < |s| && s[q] == '/' && CaselessAt(s, SkipWhile(s, q + 1, IsSpace), "hour"))
    || (CaselessAt(s, q, "per") && CaselessAt(s, SkipWhile(s, q + 3, IsSpace), "hour"))
  }

  /** A character the amount cannot consume begins every per-hour tail. */
  lemma PerHourTailDelimits(s: string, e: nat)
    requires e <= |s| && PerHourTailAt(s, e)
    ensures e < |s| && !IsAmountChar(s[e])
  {
    var q := SkipWhile(s, e, IsSpace);
    assert q > e ==> IsSpace(s[e]);
    assert CaselessAt(s, q, "per") ==> CaselessEq(s[q + 0], "per"[0]);
  }

  /** The part of `\$(amount)\s*\/\s*hr` after the amount, at `e`. */
  predicate PerHrTailAt(s: string, e: nat)
    requires e <= |s|
  {
    var q := SkipWhile(s, e, IsSpace);
    q < |s| && s[q] == '/' && CaselessAt(s, SkipWhile(s, q + 1, IsSpace), "hr")
  }

  /** Rate expression 1, `/\$(\d+(?:,\d{3})*(?:\.\d{2})?)\s*(?:\/|per)\s*hour/i`,
      at `p`: its capture. `\s*` and the literals after it cannot give back
      characters to each other, and the tail begins with a character the
      amount cannot consume, so the greedy amount is the only candidate
      (see `DelimitedAmountIsGreedy`). */
  function PerHourAt(s: string, p: nat): Option<string> {
    if p < |s| && s[p] == '$' then
      match AmountEnd(s, p + 1)
      case Some(e) => if PerHourTailAt(s, e) then Some(s[p + 1..e]) else None
      case None => None
    else None
  }

  /** Rate expression 4, `/\$(\d+(?:,\d{3})*(?:\.\d{2})?)\s*\/\s*hr/i`, at `p`. */
  function PerHrAt(s: string, p: nat): Option<string> {
    if p < |s| && s[p] == '$' then
      match AmountEnd(s, p + 1)
      case Some(e) => if PerHrTailAt(s, e) then Some(s[p + 1..e]) else None
      case None => None
    else None
  }

  /** `<name>[:\s]+\$(\d+(?:,\d{3})*(?:\.\d{2})?)` with the `i` flag, at `p`.
      Nothing follows the amount, so the first parse the engine tries, the
      greedy one, is the match. */
  function LabelledAmountAt(s: string, p: nat, name: string): Option<string> {
    if CaselessAt(s, p, name) then
      var q := SkipWhile(s, p + |name|, IsColonOrSpace);
      if q > p + |name| && q < |s| && s[q] == '$' then
        match AmountEnd(s, q + 1)
        case Some(e) => Some(s[q + 1..e])
        case None => None
      else None
    else None
  }

  /** Rate expression 2, `/Rate[:\s]+\$(amount)/i`, at `p`. */
  function RateLabelAt(s: string, p: nat): Option<string> {
    LabelledAmountAt(s, p, "rate")
  }

  /** Rate expression 3, `/Hourly Rate[:\s]+\$(amount)/i`, at `p`. */
  function HourlyRateLabelAt(s: string, p: nat): Option<string> {
    LabelledAmountAt(s, p, "hourly rate")
  }

  /** A dollar sign at `p` is followed by an amount that ends at `e`. */
  ghost predicate DollarAmountEndsAt(s: string, p: nat, e: nat) {
    p < |s| && s[p] == '$' && p + 1 <= e <= |s| && IsAmount(s[p + 1..e])
  }

  /** Rate expression 1 matches at `p` exactly when some amount after the
      dollar sign is followed by the per-hour tail, and then captures it. */
  lemma PerHourAtIff(s: string, p: nat, c: string)
    ensures PerHourAt(s, p) == Some(c) <==>
      exists e: nat :: DollarAmountEndsAt(s, p, e) && PerHourTailAt(s, e) && c == s[p + 1..e]
  {
    if PerHourAt(s, p) == Some(c) {
      var e := AmountEnd(s, p + 1).value;
      AmountEndSound(s, p + 1);
      assert DollarAmountEndsAt(s, p, e);
    }
    forall e: nat | DollarAmountEndsAt(s, p, e) && PerHourTailAt(s, e)
      ensures PerHourAt(s, p) == Some(s[p + 1..e])
    {
      PerHourTailDelimits(s, e);
      DelimitedAmountIsGreedy(s, p + 1, e);
    }
  }

  /** Rate expression 4 matches at `p` exactly when some amount after the
      dollar sign is followed by the per-hr tail, and then captures it. */
  lemma PerHrAtIff(s: string, p: nat, c: string)
    ensures PerHrAt(s, p) == Some(c) <==>
      exists e: nat :: DollarAmountEndsAt(s, p, e) && PerHrTailAt(s, e) && c == s[p + 1..e]
  {
    if PerHrAt(s, p) == Some(c) {
      var e := AmountEnd(s, p + 1).value;
      AmountEndSound(s, p + 1);
      assert DollarAmountEndsAt(s, p, e);
    }
    forall e: nat | DollarAmountEndsAt(s, p, e) && PerHrTailAt(s, e)
      ensures PerHrAt(s, p) == Some(s[p + 1..e])
    {
      assert SkipWhile(s, e, IsSpace) > e ==> IsSpace(s[e]);
      DelimitedAmountIsGreedy(s, p + 1, e);
    }
  }

  /** Every rate expression captures an amount. */
  lemma RateCaptureIsAmount(s: string, p: nat)
    ensures PerHourAt(s, p).Some? ==> IsAmount(PerHourAt(s, p).value)
    ensures PerHrAt(s, p).Some? ==> IsAmount(PerHrAt(s, p).value)
    ensures RateLabelAt(s, p).Some? ==> IsAmount(RateLabelAt(s, p).value)
    ensures HourlyRateLabelAt(s, p).Some? ==> IsAmount(HourlyRateLabelAt(s, p).value)
  {
    if p < |s| && AmountEnd(s, p + 1).Some? {
      AmountEndSound(s, p + 1);
    }
    if RateLabelAt(s, p).Some? {
      var c := RateLabelAt(s, p).value;
      assert IsAmount(c) by { LabelledAmountIsAmount(s, p, "rate", c); }
    }
    if HourlyRateLabelAt(s, p).Some? {
      var c := HourlyRateLabelAt(s, p).value;
      assert IsAmount(c) by { LabelledAmountIsAmount(s, p, "hourly rate", c); }
    }
  }

  /** `[:\s]+` matches from `a` up to `q`. */
  ghost predicate SeparatorRun(s: string, a: nat, q: nat) {
    a < q <= |s| && forall k :: a <= k < q ==> IsColonOrSpace(s[k])
  }

  /** `<name>[:\s]+` matches from `p` up to `q`. */
  ghost predicate LabelThenSeparators(s: string, p: nat, name: string, q: nat) {
    CaselessAt(s, p, name) && SeparatorRun(s, p + |name|, q)
  }

  /** `c` stands right after the label `name` at `p`, a separator run and a
      dollar sign. */
  ghost predicate AfterLabelAndDollar(s: string, p: nat, name: string, c: string) {
    exists q: nat, e: nat :: LabelThenSeparators(s, p, name, q) && DollarAmountEndsAt(s, q, e) && c == s[q + 1..e]
  }

  /** A separator run followed by a character outside `[:\s]` is the whole
      greedy run: backtracking into the run would leave a separator where the
      next part of the expression must start. */
  lemma SeparatorRunIsGreedy(s: string, a: nat, q: nat)
    requires SeparatorRun(s, a, q) && q < |s| && !IsColonOrSpace(s[q])
    ensures SkipWhile(s, a, IsColonOrSpace) == q
  {
    SkipWhileIs(s, a, q, IsColonOrSpace);
  }

  /** Rate expressions 2 and 3 match at `p` exactly when the label, a
      separator run, a dollar sign and an amount stand there, and the capture
      is the greedily parsed amount. */
  lemma LabelledAmountAtIff(s: string, p: nat, name: string, c: string)
    ensures LabelledAmountAt(s, p, name) == Some(c) <==>
      exists q: nat, e: nat :: LabelThenSeparators(s, p, name, q) && q < |s| && s[q] == '$'
                               && AmountEnd(s, q + 1) == Some(e) && c == s[q + 1..e]
  {
    if LabelledAmountAt(s, p, name) == Some(c) {
      LabelledAmountFound(s, p, name);
    }
    forall q: nat, e: nat | LabelThenSeparators(s, p, name, q) && q < |s| && s[q] == '$'
                            && AmountEnd(s, q + 1) == Some(e)
      ensures LabelledAmountAt(s, p, name) == Some(s[q + 1..e])
    {
      LabelledAmountFrom(s, p, name, q, e);
    }
  }

  /** A match of rate expression 2 or 3 comes from the label, the greedy
      separator run, a dollar sign and the greedy amount. */
  lemma LabelledAmountFound(s: string, p: nat, name: string)
    requires LabelledAmountAt(s, p, name).Some?
    ensures var q := SkipWhile(s, p + |name|, IsColonOrSpace);
      && LabelThenSeparators(s, p, name, q) && q < |s| && s[q] == '$'
      && AmountEnd(s, q + 1).Some? && LabelledAmountAt(s, p, name).value == s[q + 1..AmountEnd(s, q + 1).value]
  {
  }

  /** The label, a separator run, a dollar sign and an amount make rate
      expression 2 or 3 match with that amount. */
  lemma LabelledAmountFrom(s: string, p: nat, name: string, q: nat, e: nat)
    requires LabelThenSeparators(s, p, name, q) && q < |s| && s[q] == '$'
    requires AmountEnd(s, q + 1) == Some(e)
    ensures LabelledAmountAt(s, p, name) == Some(s[q + 1..e])
  {
    SeparatorRunIsGreedy(s, p + |name|, q);
  }

  /** The capture of rate expressions 2 and 3 is an amount, and it is the text
      right after the label, the separators and the dollar sign. */
  lemma LabelledAmountIsAmount(s: string, p: nat, name: string, c: string)
    requires LabelledAmountAt(s, p, name) == Some(c)
    ensures IsAmount(c)
    ensures AfterLabelAndDollar(s, p, name, c)
  {
    LabelledAmountAtIff(s, p, name, c);
    var q: nat, e: nat :| LabelThenSeparators(s, p, name, q) && q < |s| && s[q] == '$'
                          && AmountEnd(s, q + 1) == Some(e) && c == s[q + 1..e];
    AmountEndSound(s, q + 1);
    assert DollarAmountEndsAt(s, q, e);
  }

  /** Wherever "Hourly Rate: $x" matches, "Rate: $x" matches seven characters
      later with the same capture: expression 3 never matches where
      expression 2 does not. */
  lemma HourlyRateLabelIsRateLabel(s: string, p: nat)
    requires HourlyRateLabelAt(s, p).Some?
    ensures RateLabelAt(s, p + 7) == HourlyRateLabelAt(s, p)
  {
    assert "hourly rate"[7..] == "rate";
    assert CaselessAt(s, p + 7, "rate") by {
      forall k | 0 <= k < 4
        ensures CaselessEq(s[p + 7 + k], "rate"[k])
      {
        assert CaselessEq(s[p + (7 + k)], "hourly rate"[7 + k]);
      }
    }
  }

  // ---------------------------------------------------------------------------
  // The three year expressions

  /** `<name>[:\s]+(\d{4})` with the `i` flag, at `p`: the match array, the
      whole match first and the captured digits second. */
  function LabelledYearAt(s: string, p: nat, name: string): (r: Option<seq<string>>)
    ensures r.Some? ==> |r.value| == 2 && |r.value[1]| == 4 && AllDigits(r.value[1])
    ensures r.Some? ==> |r.value[0]| > |name| && CaselessAt(r.value[0], 0, name)
  {
    if CaselessAt(s, p, name) then
      var q := SkipWhile(s, p + |name|, IsColonOrSpace);
      if q > p + |name| && q + 4 <= |s| && AllDigits(s[q..q + 4]) then
        var whole := s[p..q + 4];
        assert forall k :: 0 <= k < |name| ==> whole[k] == s[p + k];
        Some([whole, s[q..q + 4]])
      else None
    else None
  }

  /** Year expressions 1 and 2 match at `p` exactly when the label, a
      separator run and four digits stand there; the match array is the text
      from the label to the digits, then the digits. */
  lemma LabelledYearAtIff(s: string, p: nat, name: string, ms: seq<string>)
    ensures LabelledYearAt(s, p, name) == Some(ms) <==>
      exists q: nat :: LabelThenSeparators(s, p, name, q) && q + 4 <= |s| && AllDigits(s[q..q + 4])
                       && ms == [s[p..q + 4], s[q..q + 4]]
  {
    if LabelledYearAt(s, p, name) == Some(ms) {
      var q := SkipWhile(s, p + |name|, IsColonOrSpace);
      assert LabelThenSeparators(s, p, name, q);
    }
    forall q: nat | LabelThenSeparators(s, p, name, q) && q + 4 <= |s| && AllDigits(s[q..q + 4])
      ensures LabelledYearAt(s, p, name) == Some([s[p..q + 4], s[q..q + 4]])
    {
      assert IsDigit(s[q..q + 4][0]);
      SeparatorRunIsGreedy(s, p + |name|, q);
    }
  }

  /** Year expression 1, `/Year[:\s]+(\d{4})/i`, at `p`. */
  function YearLabelAt(s: string, p: nat): Option<seq<string>> {
    LabelledYearAt(s, p, "year")
  }

  /** Year expression 2, `/Model Year[:\s]+(\d{4})/i`, at `p`. */
  function ModelYearLabelAt(s: string, p: nat): Option<seq<string>> {
    LabelledYearAt(s, p, "model year")
  }

  /** `\b(19\d{2}|20\d{2})\b` at `p`: four digits starting with 19 or 20,
      with no word character on either side. */
  function YearTokenAt(s: string, p: nat): (r: Option<string>)
    ensures r.Some? ==> p + 4 <= |s| && r.value == s[p..p + 4] && AllDigits(r.value)
  {
    if && p + 4 <= |s|
       && (p == 0 || !IsWordChar(s[p - 1]))
       && ((s[p] == '1' && s[p + 1] == '9') || (s[p] == '2' && s[p + 1] == '0'))
       && IsDigit(s[p + 2]) && IsDigit(s[p + 3])
       && (p + 4 == |s| || !IsWordChar(s[p + 4]))
    then
      var token := s[p..p + 4];
      assert token[0] == s[p] && token[1] == s[p + 1];
      Some(token)
    else None
  }

  /** Two year tokens never overlap: the three indices after a token start
      right after a digit, where `\b` cannot hold. */
  lemma YearTokensApart(s: string, p: nat, q: nat)
    requires YearTokenAt(s, p).Some? && p < q < p + 4
    ensures YearTokenAt(s, q).None?
  {
    assert s[q - 1] == s[p..p + 4][q - 1 - p];
  }

  /** `s.match(/\b(19\d{2}|20\d{2})\b/g)` from index `from` on: every match
      left to right, each search resuming where the previous match ended. */
  function YearTokens(s: string, from: nat): seq<string>
    requires from <= |s|
    decreases |s| - from
  {
    match FindFrom(s, from, YearTokenAt)
    case None => []
    case Some(p) => [s[p..p + 4]] + YearTokens(s, p + 4)
  }
}
