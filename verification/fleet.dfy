/** `scrapeFleet`: fetch the index page, extract the aircraft links, fetch
    each aircraft page and collect its details under its tail number. The
    network and the HTML parser are parameters: `fetch` answers what
    `fetchPage` would return for a URL (`None` for `null`), `parseIndex`
    turns the index page into its anchors, and `parsePage` turns an aircraft
    page into its text and meta price. */
module Fleet {
  import opened Wrappers
  import opened OrderedMap
  import opened Links
  import opened Details

  const BaseUrl: string := "https://advantage-aviation.com"
  const IndexUrl: string := "https://advantage-aviation.com/rental-aircraft/#tab4"
  const IndexFailure: string := "Failed to fetch main page"

  /** `if (html)`: `null` and the empty string count as a failed fetch. */
  predicate IsPage(response: Option<string>) {
    response.Some? && response.value != ""
  }

  /** The details of the page fetched for `link`. */
  function DetailsOf(link: AircraftLink, fetch: string -> Option<string>, parsePage: string -> Page): AircraftDetails
    requires IsPage(fetch(link.url))
  {
    ExtractDetails(parsePage(fetch(link.url).value), link.tailNumber)
  }

  /** The entries a loop over `links` should leave behind when no tail number
      repeats: one per link whose page was fetched, in link order. */
  function Fetched(links: seq<AircraftLink>, fetch: string -> Option<string>, parsePage: string -> Page)
    : (es: seq<Entry<string, AircraftDetails>>)
    ensures |es| <= |links|
    decreases |links|
  {
    if |links| == 0 then []
    else
      var n := |links| - 1;
      var rest := Fetched(links[..n], fetch, parsePage);
      if IsPage(fetch(links[n].url)) then rest + [Entry(links[n].tailNumber, DetailsOf(links[n], fetch, parsePage))]
      else rest
  }

  ghost predicate DistinctTails(links: seq<AircraftLink>) {
    forall i, j :: 0 <= i < j < |links| ==> links[i].tailNumber != links[j].tailNumber
  }

  /** Some link with tail number `k` had its page fetched. */
  ghost predicate FetchedTail(links: seq<AircraftLink>, fetch: string -> Option<string>, k: string) {
    exists i :: 0 <= i < |links| && links[i].tailNumber == k && IsPage(fetch(links[i].url))
  }

  /** What the loop has built after the first `i` links. */
  ghost predicate Collected(links: seq<AircraftLink>, fetch: string -> Option<string>, parsePage: string -> Page,
                            i: nat, fleet: seq<Entry<string, AircraftDetails>>) {
    && i <= |links|
    && DistinctKeys(fleet)
    && (forall k :: HasKey(fleet, k) <==> FetchedTail(links[..i], fetch, k))
    && (DistinctTails(links[..i]) ==> fleet == Fetched(links[..i], fetch, parsePage))
  }

  /** One pass of the loop: fetch the link's page and, when it arrives, set
      its tail number to the page's details. */
  function Visit(fleet: seq<Entry<string, AircraftDetails>>, link: AircraftLink,
                 fetch: string -> Option<string>, parsePage: string -> Page): seq<Entry<string, AircraftDetails>> {
    if IsPage(fetch(link.url)) then Set(fleet, link.tailNumber, DetailsOf(link, fetch, parsePage))
    else fleet
  }

  /** The loop of `scrapeFleet` over the aircraft links:
      `allAircraftDetails[tailNumber] = details` for each page that was fetched. */
  method CollectDetails(links: seq<AircraftLink>, fetch: string -> Option<string>, parsePage: string -> Page)
    returns (fleet: seq<Entry<string, AircraftDetails>>)
    ensures DistinctKeys(fleet)
    ensures forall k :: HasKey(fleet, k) <==> FetchedTail(links, fetch, k)
    ensures DistinctTails(links) ==> fleet == Fetched(links, fetch, parsePage)
  {
    fleet := [];
    var i := 0;
    while i < |links|
      invariant Collected(links, fetch, parsePage, i, fleet)
    {
      var before := fleet;
      fleet := Visit(before, links[i], fetch, parsePage);
      CollectStep(links, fetch, parsePage, i, before, fleet);
      i := i + 1;
    }
    CollectedAll(links, fetch, parsePage, fleet);
  }

  /** Once every link has been visited, `Collected` speaks of all of them. */
  lemma CollectedAll(links: seq<AircraftLink>, fetch: string -> Option<string>, parsePage: string -> Page,
                     fleet: seq<Entry<string, AircraftDetails>>)
    requires Collected(links, fetch, parsePage, |links|, fleet)
    ensures DistinctKeys(fleet)
    ensures forall k :: HasKey(fleet, k) <==> FetchedTail(links, fetch, k)
    ensures DistinctTails(links) ==> fleet == Fetched(links, fetch, parsePage)
  {
    assert links[..|links|] == links;
  }

  /** One pass of the loop keeps `Collected`. */
  lemma CollectStep(links: seq<AircraftLink>, fetch: string -> Option<string>, parsePage: string -> Page,
                    i: nat, before: seq<Entry<string, AircraftDetails>>, after: seq<Entry<string, AircraftDetails>>)
    requires i < |links| && Collected(links, fetch, parsePage, i, before)
    requires after == Visit(before, links[i], fetch, parsePage)
    ensures Collected(links, fetch, parsePage, i + 1, after)
  {
    assert links[..i + 1][..i] == links[..i];
    StepKeys(links, fetch, parsePage, i, before, after);
    if IsPage(fetch(links[i].url)) && DistinctTails(links[..i + 1]) {
      FreshTail(links, fetch, i);
      StepFetched(links, fetch, parsePage, i);
    }
  }

  /** After one more pass the keys are the tail numbers fetched so far. */
  lemma StepKeys(links: seq<AircraftLink>, fetch: string -> Option<string>, parsePage: string -> Page,
                 i: nat, before: seq<Entry<string, AircraftDetails>>, after: seq<Entry<string, AircraftDetails>>)
    requires i < |links|
    requires forall k :: HasKey(before, k) <==> FetchedTail(links[..i], fetch, k)
    requires after == if IsPage(fetch(links[i].url))
      then Set(before, links[i].tailNumber, DetailsOf(links[i], fetch, parsePage)) else before
    ensures forall k :: HasKey(after, k) <==> FetchedTail(links[..i + 1], fetch, k)
  {
    forall k
      ensures HasKey(after, k) <==> FetchedTail(links[..i + 1], fetch, k)
    {
      FetchedTailExtend(links, fetch, i, k);
      if IsPage(fetch(links[i].url)) {
        SetHasKey(before, links[i].tailNumber, DetailsOf(links[i], fetch, parsePage), k);
      }
    }
  }

  /** With distinct tail numbers, the tail number of link `i` was not fetched before it. */
  lemma FreshTail(links: seq<AircraftLink>, fetch: string -> Option<string>, i: nat)
    requires i < |links| && DistinctTails(links[..i + 1])
    ensures !FetchedTail(links[..i], fetch, links[i].tailNumber)
  {
    forall j | 0 <= j < i
      ensures links[..i][j].tailNumber != links[i].tailNumber
    {
      assert links[..i][j] == links[..i + 1][j];
      assert links[i] == links[..i + 1][i];
    }
  }

  /** A fetched page with a new tail number appends its entry, as the
      reference list does. */
  lemma StepFetched(links: seq<AircraftLink>, fetch: string -> Option<string>, parsePage: string -> Page, i: nat)
    requires i < |links| && IsPage(fetch(links[i].url))
    requires !HasKey(Fetched(links[..i], fetch, parsePage), links[i].tailNumber)
    ensures Set(Fetched(links[..i], fetch, parsePage), links[i].tailNumber, DetailsOf(links[i], fetch, parsePage))
         == Fetched(links[..i + 1], fetch, parsePage)
  {
    assert links[..i + 1][..i] == links[..i];
    assert links[..i + 1][i] == links[i];
  }

  /** A tail number was fetched among the first `i + 1` links exactly when it
      was among the first `i` or the `i`-th link fetched it. */
  lemma FetchedTailExtend(links: seq<AircraftLink>, fetch: string -> Option<string>, i: nat, k: string)
    requires i < |links|
    ensures FetchedTail(links[..i + 1], fetch, k) <==>
      FetchedTail(links[..i], fetch, k) || (links[i].tailNumber == k && IsPage(fetch(links[i].url)))
  {
    var a, b := links[..i], links[..i + 1];
    assert forall j :: 0 <= j < i ==> a[j] == b[j];
    assert b[i] == links[i];
  }

  /** `scrapeFleet()`: the details of every aircraft whose page could be
      fetched, keyed by tail number, or the error it throws when the index
      page cannot be fetched. */
  method ScrapeFleet(fetch: string -> Option<string>, parseIndex: string -> seq<Anchor>, parsePage: string -> Page)
    returns (r: Result<seq<Entry<string, AircraftDetails>>, string>)
    ensures r.Failure? <==> !IsPage(fetch(IndexUrl))
    ensures r.Failure? ==> r.error == IndexFailure
    ensures r.Success? ==>
      var links := ExtractLinks(parseIndex(fetch(IndexUrl).value), BaseUrl);
      r.value == Fetched(links, fetch, parsePage)
    ensures r.Success? ==>
      var links := ExtractLinks(parseIndex(fetch(IndexUrl).value), BaseUrl);
      forall k :: HasKey(r.value, k) <==> FetchedTail(links, fetch, k)
  {
    var html := fetch(IndexUrl);
    if !IsPage(html) {
      return Failure(IndexFailure);
    }
    var links := ExtractLinks(parseIndex(html.value), BaseUrl);
    var fleet := CollectDetails(links, fetch, parsePage);
    return Success(fleet);
  }
}
