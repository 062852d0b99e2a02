# Advantage Aviation fleet scraper, modelled in Dafny

This project models the core of the fleet scraper in `lib/scraper.js`, which has three parts:

- `extractCessna172G1000Links` reads the rental index page and picks the links whose text is a tail number (`N` followed by three to six capitals or digits) inside the Cessna 172SP G-1000 section. It de-duplicates them through a JavaScript `Map`.
- `extractAircraftDetails` reads one aircraft page and derives three fields:
  - the hourly price, from four rate regular expressions with a meta-tag fallback;
  - the model year, from two labelled year expressions and then a global year scan;
  - the `nxi` avionics type.
- `scrapeFleet` fetches the index page, throws when that fetch fails, and collects the details of every aircraft page it could fetch, keyed by tail number.

The modules follow the program's structure:

- `Wrappers`:
  - `Option` and `Result`;
  - `FirstSuccess`, the "try each rule in order, stop at the first that yields a value" chain both extractors use.
- `Text`: JavaScript string behaviour the scraper relies on:
  - white space as `\s` and `trim` see it;
  - `includes`;
  - `toLowerCase` for the characters that can produce ASCII letters;
  - decimal printing;
  - `parseInt` of a leading digit run.
- `OrderedMap`: a JavaScript `Map` (and a plain object with non-index keys) as an association list. `set` on an existing key keeps its position and replaces its value; a new key goes at the end.
- `Patterns`: each regular expression as a matcher at one start index, plus the leftmost search `String.prototype.match` performs.
  - The amount group `\d+(?:,\d{3})*(?:\.\d{2})?` is parsed greedily.
  - `DelimitedAmountIsGreedy` shows that backtracking cannot give a different capture, because every continuation begins with a character the amount cannot consume.
- `Links`: anchors, candidates, the de-duplicating map and `ExtractLinks`.
- `Details`: the `AircraftDetails` record, the price, year and type rules and `ExtractDetails`.
- `Fleet`: the fetch loop and `ScrapeFleet`. The network and the HTML parser are function parameters:
  - `fetch` gives what `fetchPage` returns for a URL;
  - `parseIndex` gives the `a[href]` anchors of the index page, each with its text, its href and the text of its enclosing `div`;
  - `parsePage` gives the text content and meta price of an aircraft page.

Two observations the proofs make precise:

- The third rate expression (`Hourly Rate: $x`) can never decide the price (`Details.HourlyRateRuleIsDead`). Wherever it matches, the second expression (`Rate: $x`) matches seven characters later, and the second expression is tried first.
- For the two labelled year expressions, the first element of the match array is the whole match, which begins with a letter, so `parseInt` of it is NaN. The year therefore comes from the captured digits, and only from the first labelled match in the text (`Details.LabelledYearValue`).

## Model

| member | source | states |
|---|---|---|
| Wrappers.FirstSuccess | lib/scraper.js:97-104 | the answer is the first rule's value that is present, and earlier rules gave nothing; no answer means every rule gave nothing |
| Text.ContainsIff | lib/scraper.js:58-59 | `includes` holds exactly when the word occurs at some index |
| Text.OccursContains | lib/scraper.js:151 | an occurrence at a known index makes `includes` true |
| Text.ContainsTransitive | lib/scraper.js:58-59 | text containing a string contains everything that string contains |
| Text.SuffixContains | lib/scraper.js:58-59 | a string contains its own suffix, so the long section name contains the short one |
| Text.Trim | lib/scraper.js:50 | the result is a slice of the input with only white space cut from both ends, and it neither starts nor ends with white space |
| Text.TrimIdempotent | lib/scraper.js:50 | trimming twice equals trimming once |
| Text.NatToString | lib/scraper.js:119 | the decimal form of a natural number is one or more digits, with no leading zero unless the number is 0 |
| Text.NatToStringRoundTrip | lib/scraper.js:119 | reading back the decimal form of a natural number gives that number |
| Text.NatToStringFourDigits | lib/scraper.js:137 | a number from 1000 to 9999 prints as exactly four digits |
| Text.IntToStringRoundTrip | lib/scraper.js:119 | the model's signed decimal form of every integer, minus sign included, reads back as that integer |
| Text.IntToStringNoLeadingZero | lib/scraper.js:119 | a non-zero integer's template-literal form has no leading zero, before or after the minus sign |
| Text.LeadingInteger | lib/scraper.js:101 | on the strings the extractor passes (comma-free amounts, year tokens, labelled matches), `parseInt` yields a number exactly when the text starts with a digit |
| Text.LeadingIntegerOfDigits | lib/scraper.js:101 | digits followed by a non-digit tail (such as a fraction) read as the digits' value |
| OrderedMap.IndexOf | lib/scraper.js:62 | the position found holds the key and no earlier position does; no position means the key is absent |
| OrderedMap.Get | lib/scraper.js:62 | a lookup finds a value exactly when the key is present |
| OrderedMap.GetEntry | lib/scraper.js:71 | in a map without repeated keys, looking up an entry's key gives that entry's value |
| OrderedMap.IndexOfKeys | lib/scraper.js:62 | maps with the same key sequence find every key at the same position |
| OrderedMap.Set | lib/scraper.js:62-65 | afterwards the key maps to the new value and every other key to its old value; an existing key keeps the key order; a new key is appended; keys stay distinct |
| OrderedMap.SetHasKey | lib/scraper.js:62 | after `set(k, v)` the keys are exactly the old keys and `k` |
| OrderedMap.PrefixIndexOf | lib/scraper.js:62 | appending entries with other keys does not move a key's position |
| Patterns.FindFrom | lib/scraper.js:98 | the index found is the leftmost start at or after `from` where the expression matches; none found means no start matches |
| Patterns.FindFromSkip | lib/scraper.js:98 | start indices where the expression fails can be skipped without changing the leftmost match |
| Patterns.FirstMatch | lib/scraper.js:98 | a non-global `match` returns the match at the leftmost matching start index, and null only when no start index matches |
| Patterns.AmountEnd | lib/scraper.js:90 | the amount group matches at an index exactly when a digit is there, and then consumes at least that digit |
| Patterns.GroupsSound | lib/scraper.js:90 | what the greedy parse takes after the leading digits is a run of `,ddd` groups and optional cents |
| Patterns.AmountEndSound | lib/scraper.js:90 | what the greedy parse of the amount consumes satisfies the amount grammar |
| Patterns.GroupsGreedy | lib/scraper.js:90 | groups and cents followed by a character the amount cannot consume are exactly what the greedy parse takes |
| Patterns.DelimitedAmountIsGreedy | lib/scraper.js:90-93 | an amount followed by a non-amount character is the greedy parse, so backtracking cannot give another capture |
| Patterns.PerHourTailDelimits | lib/scraper.js:90 | every per-hour tail (optional space, a slash or `per`, optional space, `hour`) starts with a character the amount cannot consume |
| Patterns.PerHourAtIff | lib/scraper.js:90 | rate expression 1 captures `c` at an index exactly when `$`, the amount `c` and a per-hour tail stand there |
| Patterns.PerHrAtIff | lib/scraper.js:93 | rate expression 4 captures `c` at an index exactly when `$`, the amount `c` and a `/hr` tail stand there |
| Patterns.RateCaptureIsAmount | lib/scraper.js:90-93 | whatever any of the four rate expressions captures satisfies the amount grammar |
| Patterns.SeparatorRunIsGreedy | lib/scraper.js:91-92 | a `[:\s]+` run followed by a character outside the class is the greedy run, so backtracking into it cannot produce another match |
| Patterns.LabelledAmountFound | lib/scraper.js:91-92 | a labelled rate match comes from the label, the greedy separator run, a dollar sign and the greedy amount, and captures that amount |
| Patterns.LabelledAmountFrom | lib/scraper.js:91-92 | the label, any separator run, a dollar sign and an amount make the labelled rate expression match, capturing the greedy amount |
| Patterns.LabelledAmountAtIff | lib/scraper.js:91-92 | a labelled rate expression captures `c` at `p` exactly when the label, a separator run, `$` and the greedily parsed amount `c` stand there |
| Patterns.LabelledAmountIsAmount | lib/scraper.js:91-92 | the capture of a labelled rate expression satisfies the amount grammar, and it is the text right after the label, its separators and `$` |
| Patterns.HourlyRateLabelIsRateLabel | lib/scraper.js:91-92 | wherever `Hourly Rate[:\s]+$x` matches, `Rate[:\s]+$x` matches seven characters later with the same capture |
| Patterns.LabelledYearAt | lib/scraper.js:124-125 | a labelled year match array has two elements; the capture is four digits; the whole match begins with the label, in any case |
| Patterns.LabelledYearAtIff | lib/scraper.js:124-125 | a labelled year expression matches at `p` exactly when the label, a separator run and four digits stand there; the match array is the text from the label through the digits, then the digits |
| Patterns.YearTokenAt | lib/scraper.js:126 | a year token is four digits of the text at that index |
| Patterns.YearTokensApart | lib/scraper.js:126 | two year tokens never overlap |
| Links.ShortNameDecides | lib/scraper.js:58-59 | the section test holds exactly when the enclosing block exists and contains the short name, because the long name contains it |
| Links.ResolveUrl | lib/scraper.js:60 | an href starting with `http` is the URL itself; any other href is appended to the base URL; the URL starts with `http` whenever the base URL does |
| Links.ResolveUrlIdempotent | lib/scraper.js:60 | with an absolute base URL, resolving an already resolved URL changes nothing |
| Links.Candidate | lib/scraper.js:47-60 | an anchor offers a link exactly when its trimmed text is a tail number and its enclosing block mentions `172SP G-1000`; the link holds the trimmed text and the resolved URL, which is the href itself when it starts with `http` |
| Links.OfferedExtend | lib/scraper.js:47-69 | a tail number is offered by the anchors exactly when an earlier anchor offers it or the last one does |
| Links.CollectKeys | lib/scraper.js:44 | the map's keys are distinct and are exactly the tail numbers some anchor offered |
| Links.CollectValues | lib/scraper.js:62-65 | the value under each tail number is the link from its last offering anchor |
| Links.CollectOrder | lib/scraper.js:62-71 | the entries are ordered by the first anchor that offered each tail number |
| Links.FirstOfferKept | lib/scraper.js:62-65 | extending the anchors does not change the first offer of a tail number already offered |
| Links.OrderStepSame | lib/scraper.js:62-65 | overwriting an existing tail number keeps the first-offer order |
| Links.OrderStepNew | lib/scraper.js:62-65 | adding a new tail number at the end keeps the first-offer order |
| Links.CollectEntries | lib/scraper.js:71 | every entry holds the last offering anchor's link for its own key |
| Links.ExtractLinks | lib/scraper.js:42-72 | every returned tail number has the tail-number shape and none repeats; each returned link is the last offer for its tail number; every qualifying anchor's tail number is returned; order follows the first offer |
| Links.ValuesUnderOwnTail | lib/scraper.js:62-65 | each value of the map carries the tail number it is stored under |
| Links.ValuesAreLastOffers | lib/scraper.js:62-71 | each returned link is the link of the last anchor that offered its tail number |
| Links.ValuesInOrder | lib/scraper.js:44-71 | the returned links have distinct tail numbers and follow the order of each tail number's first offer |
| Links.ValuesAreTailNumbers | lib/scraper.js:53 | every returned tail number has the tail-number shape |
| Links.QualifyingAreKeys | lib/scraper.js:53-66 | every qualifying anchor's trimmed text is a key of the map |
| Links.KeyInValues | lib/scraper.js:71 | every key of the map is the tail number of one of the returned links |
| Links.ExtractLinksComplete | lib/scraper.js:53-71 | every qualifying anchor's tail number is among the returned links |
| Details.RateCaptureCases | lib/scraper.js:96-104 | the rate is the capture of the first rate expression that matches, in the listed order |
| Details.RateCaptureAmount | lib/scraper.js:89-100 | the captured rate satisfies the amount grammar |
| Details.HourlyRateRuleIsDead | lib/scraper.js:91-92 | dropping rate expression 3 leaves the rate unchanged for every text |
| Details.RemoveCommas | lib/scraper.js:100 | the result contains no commas and is no longer than the input |
| Details.WholeDigits | lib/scraper.js:100-101 | the integer part of an amount is all digits |
| Details.DigitsPassThrough | lib/scraper.js:100-101 | leading digits pass unchanged through comma removal and integer-part extraction |
| Details.CentsKept | lib/scraper.js:100-101 | optional cents pass through comma removal unchanged and add no whole-dollar digits |
| Details.GroupHead | lib/scraper.js:100-101 | the first `,ddd` group loses its comma and keeps its three digits in both comma removal and the integer part |
| Details.GroupsSplit | lib/scraper.js:100-101 | removing the commas from groups and cents leaves the group digits followed by the cents |
| Details.AmountParts | lib/scraper.js:90 | an amount is a non-empty run of digits followed by groups and cents |
| Details.AmountSplit | lib/scraper.js:100 | a captured amount without its commas is its integer digits (at least one) followed by optional cents |
| Details.AmountDollars | lib/scraper.js:100-101 | for a captured amount, `Math.floor(parseFloat(...))` after comma removal is the value of its integer digits |
| Details.PriceValue | lib/scraper.js:96-115 | no price when no rate expression matches and there is no meta price |
| Details.PriceSource | lib/scraper.js:96-115 | a matched rate sets the price to its whole dollars; otherwise the price is the meta price |
| Details.PriceField | lib/scraper.js:117-120 | the price field is set exactly when the price is a non-zero number; it is `$` followed by the canonical decimal form of the price: text that reads back as the price and has no leading zero |
| Details.YearIn | lib/scraper.js:134-140 | the year is the first element of the match array whose `parseInt` is from 1950 to 2030; none means no element is in range |
| Details.LabelledYearValue | lib/scraper.js:131-140 | a labelled match yields its captured digits when they are from 1950 to 2030, and nothing otherwise |
| Details.InRangeYearAt | lib/scraper.js:126-136 | a year from 1950 to 2030 is read only where a year token stands |
| Details.TokenValue | lib/scraper.js:135 | `parseInt` of a year token is the value of its digits |
| Details.ScanFindsFirstInRange | lib/scraper.js:126-140 | scanning the global match list for the first reasonable year finds the leftmost in-range year token |
| Details.ResumeAfterToken | lib/scraper.js:130-140 | either the first year token is out of range and the scan resumes right after it, or no token exists, or the first token is in range |
| Details.ScanCases | lib/scraper.js:130-140 | the scan and the leftmost in-range token agree in each of the three cases |
| Details.ScanWithoutTokens | lib/scraper.js:130-140 | without year tokens, the scan and the leftmost in-range token both give nothing |
| Details.ScanTokenInRange | lib/scraper.js:130-140 | an in-range first token is the year on both sides |
| Details.ScanTokenOutOfRange | lib/scraper.js:130-140 | an out-of-range first token hands both sides on to the text after it |
| Details.ScanStep | lib/scraper.js:130-140 | the first year token decides the scan when it is in range; otherwise the scan goes on with the tokens after it |
| Details.SkipOutOfRangeToken | lib/scraper.js:130-140 | the search for the leftmost in-range token can skip an out-of-range first token and the indices inside it |
| Details.YearScanIsFirstInRange | lib/scraper.js:126-140 | the global year rule yields the leftmost year token from 1950 to 2030 |
| Details.YearField | lib/scraper.js:137 | a year from 1950 to 2030 prints as four digits that read back as the year |
| Details.YearValueInRange | lib/scraper.js:129-143 | every year rule yields a year from 1950 to 2030 or nothing |
| Details.Kind | lib/scraper.js:150-153 | the type, when set, is `nxi` |
| Details.ToLowerAppend | lib/scraper.js:86 | lower-casing distributes over concatenation |
| Details.LowerHead | lib/scraper.js:86 | the first character of the lower-case text comes from the first input character; an `n`, `x` or `i` there comes from one of that letter's forms |
| Details.NxiFromLower | lib/scraper.js:86 | `nxi` in the lower-case text comes from `nxi` in some mixture of cases |
| Details.LowerNxiPrefix | lib/scraper.js:86 | lower-casing text that starts with `nxi` in any mixture of cases gives text that starts with `nxi` |
| Details.NxiToLower | lib/scraper.js:150-151 | `nxi` in any mixture of cases makes the lower-case text contain `nxi` |
| Details.KindIff | lib/scraper.js:150-153 | the type is set exactly when the text contains `nxi` in some mixture of cases |
| Details.ExtractDetails | lib/scraper.js:80-156 | price present exactly when the price is non-zero, and it is the price's canonical decimal form (reads back as that price, no leading zero); year present exactly when a year rule succeeds, and it is four digits from 1950 to 2030; type present exactly when `nxi` appears in any case, and it is `nxi` |
| Fleet.Fetched | lib/scraper.js:190-202 | the reference list: one entry per link whose page was fetched, in link order (its own contract bounds its length); `Fleet.CollectDetails` and `Fleet.ScrapeFleet` are proved equal to it |
| Fleet.CollectDetails | lib/scraper.js:188-202 | the collected keys are distinct and are exactly the tail numbers whose page was fetched; with distinct tail numbers, the result is one entry per fetched page in link order |
| Fleet.CollectStep | lib/scraper.js:190-202 | one pass of the loop keeps that description true for one more link |
| Fleet.CollectedAll | lib/scraper.js:190-202 | when the loop has passed every link, its description covers the whole link list |
| Fleet.StepKeys | lib/scraper.js:198-202 | after one more pass the keys are the tail numbers fetched among one more link |
| Fleet.FreshTail | lib/scraper.js:190-202 | with distinct tail numbers, no earlier link fetched the current link's tail number |
| Fleet.StepFetched | lib/scraper.js:200-202 | a fetched page with a new tail number appends its entry, as the reference list does |
| Fleet.FetchedTailExtend | lib/scraper.js:190-202 | a tail number is fetched among the first `i + 1` links exactly when it is fetched among the first `i` or by link `i` |
| Fleet.ScrapeFleet | lib/scraper.js:171-235 | fails with "Failed to fetch main page" exactly when the index fetch gives null or empty text; otherwise returns one entry per extracted link whose page was fetched, in link order, keyed by tail number |

## Left out

- `fetchPage` (HTTP, headers, timeout, error logging) is a parameter. It is modelled as a deterministic function from URL to page text, with `None` for `null`.
- `sleep` and every `console.log` line have no effect on the result and are not modelled.
- The HTML parser is a parameter:
  - cheerio's `load`;
  - `$.text()`;
  - `closest('div')` and its text;
  - `attr('href') || ''`;
  - the meta-tag lookup.
- `parseFloat` on the meta tag's `content` is an opaque `Option<int>`. The value `Infinity` and decimal precision of doubles are not modelled.
- Details.PriceField: a price whose magnitude is 10^21 or more prints in exponent form in JavaScript (`$1e+21`) but as plain digits here. A rate amount of that size is already beyond the 2^47 bound stated for `Details.AmountDollars`, but a meta price can reach it. Number-to-string conversion of doubles is not modelled.
- `Details.AmountDollars` states `Math.floor(parseFloat(...))` as the exact integer part, which holds for doubles only while the integer part is below 2^47. Integer parts of 2^47 or more are not modelled: from 2^47 doubles are 2^-5 apart, so a `.99` fraction rounds up and the floor is one more than the digits (`140737488355328.99` floors to 140737488355329). From 2^53 the digits themselves round.
- `toLowerCase` is modelled only for the characters whose lower-case form contains an ASCII letter. Other characters keep their case, which cannot change whether the lower-case text contains `nxi`.
- Strings are sequences of characters. UTF-16 surrogate pairs are not modelled.
- Text.LeadingInteger: models `parseInt` and `Math.floor(parseFloat(...))` only on text that starts with a digit or a letter, which is all the extractor passes. Leading white space, a `+` or `-` sign and a fraction without integer digits (`.5`) are accepted by JavaScript but never reach these calls.
- `Fleet.CollectDetails` states equality with the reference list only when tail numbers are distinct. `ExtractLinks` guarantees that for every call `ScrapeFleet` makes.
- The key order of the result object is insertion order. That holds because a tail number starts with `N`, so no key is an array index.
- The `tailNumber` argument of `extractAircraftDetails` is unused by the source and is ignored by `ExtractDetails`.
- `fetchPage` headers and timeouts, `api/cron.js`, `crawler/scrape.js` and `test-cron.js` are not part of this model. They are callers and scheduling around the core.
