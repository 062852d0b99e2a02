/** `extractAircraftDetails`: the hourly price, model year and avionics type
    read from the text of one aircraft page. */
module Details {
  import opened Wrappers
  import opened Text
  import opened Patterns

  /** What the extractor reads from a parsed aircraft page: its text content
      (`$.text()`), and the value `Math.floor(parseFloat(content))` of the first
      `meta[property="product:price:amount"]` element's `content` attribute,
      `None` when there is no such element, the attribute is missing or empty,
      or the number is NaN. */
  datatype Page = Page(text: string, metaPrice: Option<int>)

  /** The details object: each field is present exactly when the extractor
      assigns it. `kind` is the object's `type` key. */
  datatype AircraftDetails = AircraftDetails(price: Option<string>, year: Option<string>, kind: Option<string>)

  // ---------------------------------------------------------------------------
  // Price

  /** Rate expression 1 searched over the whole text. */
  function RateByPerHour(t: string): Option<string> { FirstMatch(t, PerHourAt) }

  /** Rate expression 2 searched over the whole text. */
  function RateByLabel(t: string): Option<string> { FirstMatch(t, RateLabelAt) }

  /** Rate expression 3 searched over the whole text. */
  function RateByHourlyLabel(t: string): Option<string> { FirstMatch(t, HourlyRateLabelAt) }

  /** Rate expression 4 searched over the whole text. */
  function RateByPerHr(t: string): Option<string> { FirstMatch(t, PerHrAt) }

  /** The rate expressions in the order the extractor tries them. */
  const RateRules: seq<string -> Option<string>> := [RateByPerHour, RateByLabel, RateByHourlyLabel, RateByPerHr]

  /** `match[1]` of the first rate expression that matches the text. */
  function RateCapture(t: string): Option<string> {
    FirstSuccess(RateRules, t)
  }

  /** The rule chain spelled out: each expression is consulted only when
      every earlier one failed to match. */
  lemma RateCaptureCases(t: string)
    ensures RateCapture(t) ==
      if RateByPerHour(t).Some? then RateByPerHour(t)
      else if RateByLabel(t).Some? then RateByLabel(t)
      else if RateByHourlyLabel(t).Some? then RateByHourlyLabel(t)
      else RateByPerHr(t)
  {
    var rules := RateRules;
    assert rules[0] == RateByPerHour;
    assert rules[1..][0] == RateByLabel;
    assert rules[1..][1..][0] == RateByHourlyLabel;
    assert rules[1..][1..][1..][0] == RateByPerHr;
    assert |rules[1..][1..][1..][1..]| == 0;
  }

  /** Whatever a rate expression captures is an amount. */
  lemma RateCaptureAmount(t: string)
    ensures RateCapture(t).Some? ==> IsAmount(RateCapture(t).value)
  {
    RateCaptureCases(t);
    var r := RateCapture(t);
    if RateByPerHour(t).Some? {
      var p :| 0 <= p <= |t| && PerHourAt(t, p) == r;
      RateCaptureIsAmount(t, p);
    } else if RateByLabel(t).Some? {
      var p :| 0 <= p <= |t| && RateLabelAt(t, p) == r;
      RateCaptureIsAmount(t, p);
    } else if RateByHourlyLabel(t).Some? {
      var p :| 0 <= p <= |t| && HourlyRateLabelAt(t, p) == r;
      RateCaptureIsAmount(t, p);
    } else if RateByPerHr(t).Some? {
      var p :| 0 <= p <= |t| && PerHrAt(t, p) == r;
      RateCaptureIsAmount(t, p);
    }
  }

  /** Expression 3 never decides the rate: wherever "Hourly Rate: $x" matches,
      "Rate: $x" matches too, and expression 2 is tried first. */
  lemma HourlyRateRuleIsDead(t: string)
    ensures RateCapture(t) ==
      if RateByPerHour(t).Some? then RateByPerHour(t)
      else if RateByLabel(t).Some? then RateByLabel(t)
      else RateByPerHr(t)
  {
    RateCaptureCases(t);
    if RateByHourlyLabel(t).Some? {
      var p :| 0 <= p <= |t| && HourlyRateLabelAt(t, p).Some?;
      HourlyRateLabelIsRateLabel(t, p);
      assert RateLabelAt(t, p + 7).Some?;
    }
  }

  /** `rateStr.replace(/,/g, '')`. */
  function RemoveCommas(t: string): (r: string)
    ensures |r| <= |t|
    ensures forall k :: 0 <= k < |r| ==> r[k] != ','
    decreases |t|
  {
    if |t| == 0 then []
    else if t[0] == ',' then RemoveCommas(t[1..])
    else [t[0]] + RemoveCommas(t[1..])
  }

  /** The digits of an amount before its decimal point, whatever separates them. */
  function WholeDigits(t: string): (r: string)
    ensures AllDigits(r)
    decreases |t|
  {
    if |t| == 0 || t[0] == '.' then []
    else if IsDigit(t[0]) then [t[0]] + WholeDigits(t[1..])
    else WholeDigits(t[1..])
  }

  /** Leading digits pass through both functions unchanged. */
  lemma {:induction false} DigitsPassThrough(d: string, x: string)
    requires AllDigits(d)
    ensures RemoveCommas(d + x) == d + RemoveCommas(x)
    ensures WholeDigits(d + x) == d + WholeDigits(x)
    decreases |d|
  {
    if |d| > 0 {
      assert (d + x)[0] == d[0] && IsDigit(d[0]);
      assert (d + x)[1..] == d[1..] + x;
      assert d == [d[0]] + d[1..];
      DigitsPassThrough(d[1..], x);
    } else {
      assert d + x == x;
    }
  }

  /** Optional cents pass through comma removal and hold no whole-dollar digits. */
  lemma CentsKept(t: string)
    requires IsCents(t)
    ensures RemoveCommas(t) == t && WholeDigits(t) == []
  {
    if |t| == 3 {
      assert t[1..][1..] == t[2..] && t[2..][1..] == [];
      assert RemoveCommas(t[2..]) == [t[2]];
      assert RemoveCommas(t[1..]) == [t[1], t[2]];
    }
  }

  /** After the leading digits, an amount is groups of digits and then the
      cents, which removing commas keeps. */
  lemma {:induction false} GroupsSplit(g: string) returns (cents: string)
    requires IsGroupsThenCents(g)
    ensures RemoveCommas(g) == WholeDigits(g) + cents && IsCents(cents)
    decreases |g|
  {
    if IsCents(g) {
      CentsKept(g);
      cents := g;
    } else {
      var d, rest := GroupHead(g);
      cents := GroupsSplit(rest);
      assert d + (WholeDigits(rest) + cents) == (d + WholeDigits(rest)) + cents;
    }
  }

  /** The first `,ddd` group loses its comma and keeps its digits. */
  lemma GroupHead(g: string) returns (d: string, rest: string)
    requires IsGroupsThenCents(g) && !IsCents(g)
    ensures |rest| < |g| && IsGroupsThenCents(rest)
    ensures RemoveCommas(g) == d + RemoveCommas(rest) && WholeDigits(g) == d + WholeDigits(rest)
  {
    d, rest := g[1..4], g[4..];
    assert g[1..] == d + rest;
    assert RemoveCommas(g) == RemoveCommas(g[1..]) && WholeDigits(g) == WholeDigits(g[1..]);
    DigitsPassThrough(d, rest);
  }

  /** An amount is its leading digits followed by groups and cents. */
  lemma AmountParts(c: string) returns (d: string, g: string)
    requires IsAmount(c)
    ensures c == d + g && |d| > 0 && AllDigits(d) && IsGroupsThenCents(g)
  {
    var k :| 1 <= k <= |c| && AllDigits(c[..k]) && IsGroupsThenCents(c[k..]);
    d, g := c[..k], c[k..];
  }

  /** A captured amount after comma removal is its whole-dollar digits
      followed by its cents. */
  lemma AmountSplit(c: string) returns (cents: string)
    requires IsAmount(c)
    ensures |WholeDigits(c)| > 0
    ensures RemoveCommas(c) == WholeDigits(c) + cents && IsCents(cents)
  {
    var d, g := AmountParts(c);
    DigitsPassThrough(d, g);
    cents := GroupsSplit(g);
    var wg := WholeDigits(g);
    assert RemoveCommas(c) == d + (wg + cents);
    assert d + (wg + cents) == (d + wg) + cents;
  }

  /** `Math.floor(parseFloat(rateStr))` on a captured amount is the value of
      its whole-dollar digits. With doubles this holds while the integer part
      is below 2^47. From 2^47 a `.99` fraction rounds up to the next whole
      number, and from 2^53 the digits themselves round. Neither is modelled. */
  lemma AmountDollars(c: string)
    requires IsAmount(c)
    ensures |WholeDigits(c)| > 0
    ensures LeadingInteger(RemoveCommas(c)) == Some(ParseDigits(WholeDigits(c)))
  {
    var cents := AmountSplit(c);
    LeadingIntegerOfDigits(WholeDigits(c), cents);
  }

  /** The number held in `price` once the rate expressions and the meta tag
      have been consulted; `None` for `null` and NaN. */
  function PriceValue(page: Page): (v: Option<int>)
    ensures page.metaPrice.None? && RateCapture(page.text).None? ==> v.None?
  {
    match RateCapture(page.text)
    case Some(c) =>
      (match LeadingInteger(RemoveCommas(c))
       case Some(n) => Some(n)
       case None => None)
    case None => page.metaPrice
  }

  /** A matched rate sets the price to its whole dollars, and the meta tag is
      then not consulted; otherwise the meta tag's value is the price. */
  lemma {:induction false} PriceSource(page: Page)
    ensures RateCapture(page.text).Some? ==>
      PriceValue(page) == Some(ParseDigits(WholeDigits(RateCapture(page.text).value)))
    ensures RateCapture(page.text).None? ==> PriceValue(page) == page.metaPrice
  {
    var r := RateCapture(page.text);
    RateCaptureAmount(page.text);
    if r.Some? {
      var c := r.value;
      AmountDollars(c);
      var n := ParseDigits(WholeDigits(c));
      assert LeadingInteger(RemoveCommas(c)) == Some(n);
      assert PriceValue(page) == Some(n);
    }
  }

  /** `if (price) details.price = `$${price}``: zero and NaN are falsy. */
  function PriceField(v: Option<int>): (r: Option<string>)
    ensures r.Some? <==> v.Some? && v.value != 0
    ensures r.Some? ==> |r.value| >= 2 && r.value[0] == '$' && ParseInt(r.value[1..]) == v
    ensures r.Some? ==> NoLeadingZero(r.value[1..])
  {
    if v.Some? && v.value != 0 then
      IntToStringRoundTrip(v.value);
      IntToStringNoLeadingZero(v.value);
      var s := "$" + IntToString(v.value);
      assert s[1..] == IntToString(v.value);
      Some(s)
    else None
  }

  // ---------------------------------------------------------------------------
  // Year

  /** `yearInt >= 1950 && yearInt <= 2030`; NaN compares false. */
  predicate InYearRange(v: Option<nat>) {
    v.Some? && 1950 <= v.value <= 2030
  }

  /** The inner loop over one match array: `parseInt` of the first element
      whose value is a reasonable year. */
  function YearIn(ms: seq<string>): (r: Option<nat>)
    ensures r.Some? ==> InYearRange(r) && exists i :: (0 <= i < |ms| && LeadingInteger(ms[i]) == r &&
      forall j :: 0 <= j < i ==> !InYearRange(LeadingInteger(ms[j])))
    ensures r.None? ==> forall i :: 0 <= i < |ms| ==> !InYearRange(LeadingInteger(ms[i]))
    decreases |ms|
  {
    if |ms| == 0 then None
    else if InYearRange(LeadingInteger(ms[0])) then LeadingInteger(ms[0])
    else
      var r := YearIn(ms[1..]);
      assert forall i :: 1 <= i < |ms| ==> ms[i] == ms[1..][i - 1];
      r
  }

  /** Year expression 1 searched over the text, then its match array scanned. */
  function YearByLabel(t: string): Option<nat> {
    match FirstMatch(t, YearLabelAt)
    case Some(ms) => YearIn(ms)
    case None => None
  }

  /** Year expression 2 searched over the text, then its match array scanned. */
  function YearByModelLabel(t: string): Option<nat> {
    match FirstMatch(t, ModelYearLabelAt)
    case Some(ms) => YearIn(ms)
    case None => None
  }

  /** Year expression 3: every year token of the text, then the list scanned.
      No token gives `null` from `match`, and an empty list yields nothing as well. */
  function YearByScan(t: string): Option<nat> {
    YearIn(YearTokens(t, 0))
  }

  /** The year expressions in the order the extractor tries them; a rule whose
      expression matched but gave no reasonable year passes on to the next. */
  const YearRules: seq<string -> Option<nat>> := [YearByLabel, YearByModelLabel, YearByScan]

  function YearValue(t: string): Option<nat> {
    FirstSuccess(YearRules, t)
  }

  /** A labelled match array yields its captured digits when they are a
      reasonable year: the whole match begins with the label, so `parseInt`
      of it is NaN. */
  lemma LabelledYearValue(s: string, p: nat, name: string)
    requires |name| > 0 && 'a' <= name[0] <= 'z'
    requires LabelledYearAt(s, p, name).Some?
    ensures var ms := LabelledYearAt(s, p, name).value;
      YearIn(ms) == if 1950 <= ParseDigits(ms[1]) <= 2030 then Some(ParseDigits(ms[1])) else None
  {
    var ms := LabelledYearAt(s, p, name).value;
    assert CaselessEq(ms[0][0], name[0]);
    assert LeadingInteger(ms[0]).None?;
    LeadingIntegerOfDigits(ms[1], []);
    assert ms[1] + [] == ms[1];
    assert ms[1..][1..] == [];
  }

  /** A year token at `p` that is a reasonable year, and its value. */
  function InRangeYearAt(s: string, p: nat): (r: Option<nat>)
    ensures r.Some? ==> YearTokenAt(s, p).Some? && 1950 <= r.value <= 2030
    ensures YearTokenAt(s, p).None? ==> r.None?
  {
    match YearTokenAt(s, p)
    case Some(token) =>
      var y := ParseDigits(token);
      if 1950 <= y <= 2030 then Some(y) else None
    case None => None
  }

  /** The value of a year token is what `parseInt` reads from it. */
  lemma TokenValue(s: string, p: nat)
    requires YearTokenAt(s, p).Some?
    ensures LeadingInteger(YearTokenAt(s, p).value) == Some(ParseDigits(YearTokenAt(s, p).value))
  {
    var token := YearTokenAt(s, p).value;
    LeadingIntegerOfDigits(token, []);
    assert token + [] == token;
  }

  /** The leftmost reasonable year token from `from` on, and its value. */
  function FirstInRangeFrom(s: string, from: nat): Option<nat>
    requires from <= |s|
  {
    match FindFrom(s, from, InRangeYearAt)
    case Some(p) => InRangeYearAt(s, p)
    case None => None
  }

  /** Scanning the global match list for the first reasonable year finds the
      leftmost year token, from `from` on, whose value is in range. */
  lemma {:induction false} ScanFindsFirstInRange(s: string, from: nat)
    requires from <= |s|
    ensures YearIn(YearTokens(s, from)) == FirstInRangeFrom(s, from)
    decreases |s| - from
  {
    var skip, p, q := ResumeAfterToken(s, from);
    if skip {
      ScanFindsFirstInRange(s, q);
    }
    ScanCases(s, from, skip, p, q);
  }

  /** Whether the first year token from `from` on is out of range, and if so
      where it starts (`p`) and where both scans resume (`q`). */
  lemma ResumeAfterToken(s: string, from: nat) returns (skip: bool, p: nat, q: nat)
    requires from <= |s|
    ensures skip ==> q == p + 4 && from < q <= |s|
    ensures skip ==> FindFrom(s, from, YearTokenAt) == Some(p) && InRangeYearAt(s, p).None?
    ensures !skip ==> FindFrom(s, from, YearTokenAt).None? || InRangeYearAt(s, FindFrom(s, from, YearTokenAt).value).Some?
  {
    var found := FindFrom(s, from, YearTokenAt);
    if found.Some? && InRangeYearAt(s, found.value).None? {
      ScanStep(s, from, found.value);
      skip, p, q := true, found.value, found.value + 4;
    } else {
      skip, p, q := false, from, from;
    }
  }

  /** The three cases of the scan; the last is given the scans after the token. */
  lemma ScanCases(s: string, from: nat, skip: bool, p: nat, q: nat)
    requires from <= |s|
    requires skip ==> q == p + 4 && q <= |s|
    requires skip ==> FindFrom(s, from, YearTokenAt) == Some(p) && InRangeYearAt(s, p).None?
    requires skip ==> YearIn(YearTokens(s, q)) == FirstInRangeFrom(s, q)
    requires !skip ==> FindFrom(s, from, YearTokenAt).None? || InRangeYearAt(s, FindFrom(s, from, YearTokenAt).value).Some?
    ensures YearIn(YearTokens(s, from)) == FirstInRangeFrom(s, from)
  {
    ScanWithoutTokens(s, from);
    ScanTokenInRange(s, from);
    if skip {
      ScanTokenOutOfRange(s, from, p);
    }
  }

  /** Without year tokens there is no reasonable year. */
  lemma ScanWithoutTokens(s: string, from: nat)
    requires from <= |s|
    ensures FindFrom(s, from, YearTokenAt).None? ==>
      YearIn(YearTokens(s, from)) == FirstInRangeFrom(s, from) == None
  {
    if FindFrom(s, from, YearTokenAt).None? {
      assert forall q :: from <= q <= |s| ==> InRangeYearAt(s, q).None?;
    }
  }

  /** A first token that is in range is the year of both sides. */
  lemma ScanTokenInRange(s: string, from: nat)
    requires from <= |s|
    ensures var found := FindFrom(s, from, YearTokenAt);
      found.Some? && InRangeYearAt(s, found.value).Some? ==>
        YearIn(YearTokens(s, from)) == FirstInRangeFrom(s, from) == InRangeYearAt(s, found.value)
  {
    var found := FindFrom(s, from, YearTokenAt);
    if found.Some? && InRangeYearAt(s, found.value).Some? {
      ScanStep(s, from, found.value);
      FindFromSkip(s, from, found.value, InRangeYearAt);
    }
  }

  /** A first token out of range hands both sides on to the text after it. */
  lemma ScanTokenOutOfRange(s: string, from: nat, p: nat)
    requires from <= |s| && FindFrom(s, from, YearTokenAt) == Some(p)
    requires InRangeYearAt(s, p).None?
    requires p + 4 <= |s| ==> YearIn(YearTokens(s, p + 4)) == FirstInRangeFrom(s, p + 4)
    ensures YearIn(YearTokens(s, from)) == FirstInRangeFrom(s, from)
  {
    ScanStep(s, from, p);
    SkipOutOfRangeToken(s, from, p);
  }

  /** One step of the inner loop over the global match list. */
  lemma ScanStep(s: string, from: nat, p: nat)
    requires from <= |s| && FindFrom(s, from, YearTokenAt) == Some(p)
    ensures p + 4 <= |s|
    ensures YearIn(YearTokens(s, from)) ==
      if InRangeYearAt(s, p).Some? then InRangeYearAt(s, p) else YearIn(YearTokens(s, p + 4))
  {
    var tokens := YearTokens(s, from);
    var token := YearTokenAt(s, p).value;
    TokenValue(s, p);
    assert tokens[0] == token;
    assert tokens[1..] == YearTokens(s, p + 4);
  }

  /** A token out of range, and the indices inside it, can be skipped. */
  lemma SkipOutOfRangeToken(s: string, from: nat, p: nat)
    requires from <= p && FindFrom(s, from, YearTokenAt) == Some(p)
    requires InRangeYearAt(s, p).None?
    ensures p + 4 <= |s|
    ensures FindFrom(s, from, InRangeYearAt) == FindFrom(s, p + 4, InRangeYearAt)
  {
    forall q | from <= q < p + 4
      ensures InRangeYearAt(s, q).None?
    {
      if p < q {
        YearTokensApart(s, p, q);
      }
    }
    FindFromSkip(s, from, p + 4, InRangeYearAt);
  }

  /** The global year rule picks the leftmost reasonable year token. */
  lemma YearScanIsFirstInRange(t: string)
    ensures YearByScan(t) == FirstMatch(t, InRangeYearAt)
  {
    ScanFindsFirstInRange(t, 0);
    assert FirstInRangeFrom(t, 0) == FirstMatch(t, InRangeYearAt);
  }

  /** `yearInt.toString()`: the year is four digits that read back as a
      reasonable year. */
  function YearField(v: Option<nat>): (r: Option<string>)
    requires v.None? || 1950 <= v.value <= 2030
    ensures r.Some? <==> v.Some?
    ensures r.Some? ==> |r.value| == 4 && AllDigits(r.value) && ParseInt(r.value) == Some(v.value as int)
  {
    match v
    case Some(y) =>
      NatToStringFourDigits(y);
      IntToStringRoundTrip(y);
      Some(NatToString(y))
    case None => None
  }

  // ---------------------------------------------------------------------------
  // Type

  predicate IsLetterN(c: char) { c == 'n' || c == 'N' }
  predicate IsLetterX(c: char) { c == 'x' || c == 'X' }
  /** Characters whose lower-case form begins with `i`, including U+0130. */
  predicate IsLetterI(c: char) { c == 'i' || c == 'I' || c == '\U{0130}' }

  /** "nxi" in any mixture of cases starts at index `i` of `t`. */
  ghost predicate NxiAt(t: string, i: int) {
    0 <= i && i + 3 <= |t| && IsLetterN(t[i]) && IsLetterX(t[i + 1]) && IsLetterI(t[i + 2])
  }

  /** `textContentLower.includes('nxi') ? 'nxi' : undefined`. */
  function Kind(t: string): (r: Option<string>)
    ensures r.Some? ==> r.value == "nxi"
  {
    if Contains(ToLower(t), "nxi") then Some("nxi") else None
  }

  lemma {:induction false} ToLowerAppend(a: string, b: string)
    ensures ToLower(a + b) == ToLower(a) + ToLower(b)
    decreases |a|
  {
    if |a| > 0 {
      assert (a + b)[0] == a[0];
      assert (a + b)[1..] == a[1..] + b;
      ToLowerAppend(a[1..], b);
    } else {
      assert a + b == b;
    }
  }

  /** The first character of the lower-case form, and what it reveals. */
  lemma LowerHead(t: string)
    requires |ToLower(t)| > 0
    ensures |t| > 0
    ensures ToLower(t) == LowerChar(t[0]) + ToLower(t[1..])
    ensures ToLower(t)[0] == 'n' ==> IsLetterN(t[0]) && |LowerChar(t[0])| == 1
    ensures ToLower(t)[0] == 'x' ==> IsLetterX(t[0]) && |LowerChar(t[0])| == 1
    ensures ToLower(t)[0] == 'i' ==> IsLetterI(t[0])
  {
  }

  /** Lower-casing produces "nxi" only from "nxi" in some mixture of cases. */
  lemma {:induction false} NxiFromLower(t: string, q: nat)
    requires OccursAt(ToLower(t), "nxi", q)
    ensures exists i :: NxiAt(t, i)
    decreases |t|
  {
    var l := ToLower(t);
    LowerHead(t);
    var head := LowerChar(t[0]);
    var rest := ToLower(t[1..]);
    if q >= |head| {
      assert rest[q - |head|..q - |head| + 3] == l[q..q + 3];
      NxiFromLower(t[1..], q - |head|);
      var i :| NxiAt(t[1..], i);
      assert NxiAt(t, i + 1);
    } else {
      assert l[q..q + 3] == "nxi";
      assert l[q] == l[q..q + 3][0] == 'n';
      assert q == 0;
      assert l[1] == l[..3][1] == 'x' && l[2] == l[..3][2] == 'i';
      assert rest[0] == 'x' && rest[1] == 'i';
      LowerHead(t[1..]);
      assert t[1..][1..] == t[2..];
      LowerHead(t[2..]);
      assert NxiAt(t, 0);
    }
  }

  /** Lower-casing text that begins with "nxi" in any mixture of cases gives
      text that begins with "nxi". */
  lemma LowerNxiPrefix(u: string)
    requires NxiAt(u, 0)
    ensures "nxi" <= ToLower(u)
  {
    var l0, l1, l2 := LowerChar(u[0]), LowerChar(u[1]), LowerChar(u[2]);
    assert l0 == "n" && l1 == "x" && l2[0] == 'i';
    assert u[1..][1..] == u[2..];
    assert ToLower(u[2..]) == l2 + ToLower(u[3..]);
    assert ToLower(u[1..]) == l1 + ToLower(u[2..]);
    assert ToLower(u) == l0 + (l1 + (l2 + ToLower(u[3..])));
  }

  /** Lower-casing turns "nxi" in any mixture of cases into "nxi". */
  lemma NxiToLower(t: string, i: nat)
    requires NxiAt(t, i)
    ensures Contains(ToLower(t), "nxi")
  {
    assert t == t[..i] + t[i..];
    ToLowerAppend(t[..i], t[i..]);
    var u := t[i..];
    assert NxiAt(u, 0);
    LowerNxiPrefix(u);
    var q := |ToLower(t[..i])|;
    assert ToLower(t)[q..q + 3] == ToLower(u)[..3];
    OccursContains(ToLower(t), "nxi", q);
  }

  /** The type is set exactly when "nxi" appears in any mixture of cases. */
  lemma KindIff(t: string)
    ensures Kind(t).Some? <==> exists i :: NxiAt(t, i)
  {
    ContainsIff(ToLower(t), "nxi");
    if Contains(ToLower(t), "nxi") {
      var q :| OccursAt(ToLower(t), "nxi", q);
      NxiFromLower(t, q);
    }
    if exists i :: NxiAt(t, i) {
      var i :| NxiAt(t, i);
      NxiToLower(t, i);
    }
  }

  // ---------------------------------------------------------------------------
  // The extractor

  /** `extractAircraftDetails(html, tailNumber)` on the parsed page. The tail
      number is accepted and not used. */
  function ExtractDetails(page: Page, tailNumber: string): (d: AircraftDetails)
    ensures d.price.Some? <==> PriceValue(page).Some? && PriceValue(page).value != 0
    ensures d.price.Some? ==> |d.price.value| >= 2 && d.price.value[0] == '$' && ParseInt(d.price.value[1..]) == PriceValue(page)
    ensures d.price.Some? ==> NoLeadingZero(d.price.value[1..])
    ensures d.year.Some? <==> YearValue(page.text).Some?
    ensures d.year.Some? ==>
      |d.year.value| == 4 && AllDigits(d.year.value) &&
      ParseInt(d.year.value) == Some(YearValue(page.text).value as int) &&
      1950 <= YearValue(page.text).value <= 2030
    ensures d.kind.Some? <==> exists i :: NxiAt(page.text, i)
    ensures d.kind.Some? ==> d.kind.value == "nxi"
  {
    var y := YearValue(page.text);
    YearValueInRange(page.text);
    KindIff(page.text);
    AircraftDetails(PriceField(PriceValue(page)), YearField(y), Kind(page.text))
  }

  /** Every rule yields a reasonable year or nothing. */
  lemma YearValueInRange(t: string)
    ensures YearValue(t).None? || 1950 <= YearValue(t).value <= 2030
  {
    if YearValue(t).Some? {
      var i :| 0 <= i < |YearRules| && YearRules[i](t) == YearValue(t);
      assert i == 0 || i == 1 || i == 2;
    }
  }
}
