/** `extractCessna172G1000Links`: the links on the index page whose text is
    a tail number and which sit in the Cessna 172SP G-1000 section, one per
    tail number. */
module Links {
  import opened Wrappers
  import opened Text
  import opened OrderedMap

  /** One `a[href]` element of the index page as the HTML parser reports it:
      its text content, its `href` attribute, and the text content of its
      nearest enclosing `div` (`None` when it has none). */
  datatype Anchor = Anchor(text: string, href: string, section: Option<string>)

  /** `{ tail_number, url }`. */
  datatype AircraftLink = AircraftLink(tailNumber: string, url: string)

  const ShortSectionName: string := "172SP G-1000"
  const FullSectionName: string := "Cessna Skyhawk " + ShortSectionName

  /** `[A-Z0-9]`. */
  predicate IsTailChar(c: char) { 'A' <= c <= 'Z' || IsDigit(c) }

  /** `/^N[A-Z0-9]{3,6}$/`, case-sensitive. */
  predicate IsTailNumber(t: string) {
    4 <= |t| <= 7 && t[0] == 'N' && forall k :: 1 <= k < |t| ==> IsTailChar(t[k])
  }

  /** The enclosing `div` exists and its text names the section, in the long
      or the short form. */
  predicate InTargetSection(a: Anchor) {
    && a.section.Some?
    && (Contains(a.section.value, FullSectionName) || Contains(a.section.value, ShortSectionName))
  }

  /** The long section name contains the short one, so the short form alone decides. */
  lemma ShortNameDecides(a: Anchor)
    ensures InTargetSection(a) <==> a.section.Some? && Contains(a.section.value, ShortSectionName)
  {
    SuffixContains("Cessna Skyhawk ", ShortSectionName);
    if a.section.Some? && Contains(a.section.value, FullSectionName) {
      ContainsTransitive(a.section.value, FullSectionName, ShortSectionName);
    }
  }

  /** The anchor contributes an entry. */
  predicate Qualifies(a: Anchor) {
    IsTailNumber(Trim(a.text)) && InTargetSection(a)
  }

  /** `href.startsWith('http') ? href : baseUrl + href`. */
  function ResolveUrl(baseUrl: string, href: string): (url: string)
    ensures |href| <= |url| && url[|url| - |href|..] == href
    ensures "http" <= href ==> url == href
    ensures !("http" <= href) ==> url[..|url| - |href|] == baseUrl
    ensures "http" <= baseUrl ==> "http" <= url
  {
    if "http" <= href then href else baseUrl + href
  }

  /** Against an absolute base URL, a resolved URL is absolute, so resolving it
      again leaves it as it is. */
  lemma ResolveUrlIdempotent(baseUrl: string, href: string)
    requires "http" <= baseUrl
    ensures ResolveUrl(baseUrl, ResolveUrl(baseUrl, href)) == ResolveUrl(baseUrl, href)
  {
  }

  /** What `aircraftMap.set` is called with for anchor `a`, if anything: an
      anchor offers a link exactly when its trimmed text is a tail number and
      its enclosing block mentions the short section name. */
  function Candidate(a: Anchor, baseUrl: string): (c: Option<AircraftLink>)
    ensures c.Some? <==> Qualifies(a)
    ensures c.Some? <==>
      IsTailNumber(Trim(a.text)) && a.section.Some? && Contains(a.section.value, ShortSectionName)
    ensures c.Some? ==> c.value.tailNumber == Trim(a.text) && c.value.url == ResolveUrl(baseUrl, a.href)
    ensures c.Some? && "http" <= a.href ==> c.value.url == a.href
  {
    ShortNameDecides(a);
    if Qualifies(a) then Some(AircraftLink(Trim(a.text), ResolveUrl(baseUrl, a.href))) else None
  }

  /** The candidates of all anchors, in document order. */
  function Candidates(anchors: seq<Anchor>, baseUrl: string): (cs: seq<Option<AircraftLink>>)
    ensures |cs| == |anchors| && forall j :: 0 <= j < |anchors| ==> cs[j] == Candidate(anchors[j], baseUrl)
  {
    seq(|anchors|, j requires 0 <= j < |anchors| => Candidate(anchors[j], baseUrl))
  }

  /** The tail-number map after the `set` calls of `cs` have run in order. */
  function Collect(cs: seq<Option<AircraftLink>>): seq<Entry<string, AircraftLink>>
    decreases |cs|
  {
    if |cs| == 0 then []
    else
      var m := Collect(cs[..|cs| - 1]);
      match cs[|cs| - 1]
      case Some(link) => Set(m, link.tailNumber, link)
      case None => m
  }

  // ---------------------------------------------------------------------------
  // Which candidates offer a tail number

  ghost predicate OffersAt(cs: seq<Option<AircraftLink>>, j: int, k: string) {
    0 <= j < |cs| && cs[j].Some? && cs[j].value.tailNumber == k
  }

  ghost predicate Offered(cs: seq<Option<AircraftLink>>, k: string) {
    exists j :: OffersAt(cs, j, k)
  }

  /** A prefix offers what the whole sequence offers at the same positions. */
  lemma PrefixOffers(cs: seq<Option<AircraftLink>>, n: nat, k: string)
    requires n <= |cs|
    ensures forall j :: 0 <= j < n ==> (OffersAt(cs[..n], j, k) <==> OffersAt(cs, j, k))
    ensures Offered(cs[..n], k) ==> Offered(cs, k)
  {
    forall j | 0 <= j < n
      ensures OffersAt(cs[..n], j, k) <==> OffersAt(cs, j, k)
    {
      assert cs[..n][j] == cs[j];
    }
    if Offered(cs[..n], k) {
      var j :| OffersAt(cs[..n], j, k);
      assert OffersAt(cs, j, k);
    }
  }

  /** The first candidate with tail number `k`. */
  ghost function FirstOffer(cs: seq<Option<AircraftLink>>, k: string): (i: nat)
    requires Offered(cs, k)
    ensures OffersAt(cs, i, k)
    ensures forall j :: 0 <= j < i ==> !OffersAt(cs, j, k)
    decreases |cs|
  {
    var n := |cs| - 1;
    PrefixOffers(cs, n, k);
    if Offered(cs[..n], k) then FirstOffer(cs[..n], k) else n
  }

  /** The last candidate with tail number `k`. */
  ghost function LastOffer(cs: seq<Option<AircraftLink>>, k: string): (i: nat)
    requires Offered(cs, k)
    ensures OffersAt(cs, i, k)
    ensures forall j :: i < j < |cs| ==> !OffersAt(cs, j, k)
    decreases |cs|
  {
    var n := |cs| - 1;
    PrefixOffers(cs, n, k);
    if OffersAt(cs, n, k) then n
    else
      assert Offered(cs[..n], k) by {
        var j :| OffersAt(cs, j, k);
        assert OffersAt(cs[..n], j, k);
      }
      LastOffer(cs[..n], k)
  }

  /** A tail number is offered by `cs` exactly when the prefix offers it or
      the last candidate does. */
  lemma OfferedExtend(cs: seq<Option<AircraftLink>>, k: string)
    requires |cs| > 0
    ensures Offered(cs, k) <==> Offered(cs[..|cs| - 1], k) || OffersAt(cs, |cs| - 1, k)
  {
    var n := |cs| - 1;
    PrefixOffers(cs, n, k);
    if Offered(cs, k) && !OffersAt(cs, n, k) {
      var j :| OffersAt(cs, j, k);
      assert OffersAt(cs[..n], j, k);
    }
  }

  /** The keys of the map are exactly the offered tail numbers, each once. */
  lemma {:induction false} CollectKeys(cs: seq<Option<AircraftLink>>)
    ensures DistinctKeys(Collect(cs))
    ensures forall k :: HasKey(Collect(cs), k) <==> Offered(cs, k)
    decreases |cs|
  {
    if |cs| > 0 {
      var n := |cs| - 1;
      var m0 := Collect(cs[..n]);
      CollectKeys(cs[..n]);
      forall k
        ensures HasKey(Collect(cs), k) <==> Offered(cs, k)
      {
        OfferedExtend(cs, k);
        if cs[n].Some? && k == cs[n].value.tailNumber {
          assert Get(Collect(cs), k).Some?;
        } else if cs[n].Some? {
          assert Get(Collect(cs), k) == Get(m0, k);
        }
      }
    } else {
      forall k
        ensures !Offered(cs, k)
      {
      }
    }
  }

  /** The value under each offered tail number is its last candidate. */
  lemma {:induction false} CollectValues(cs: seq<Option<AircraftLink>>)
    ensures forall k :: Offered(cs, k) ==> Get(Collect(cs), k) == cs[LastOffer(cs, k)]
    decreases |cs|
  {
    if |cs| > 0 {
      var n := |cs| - 1;
      var prev := cs[..n];
      var m0 := Collect(prev);
      CollectValues(prev);
      forall k | Offered(cs, k)
        ensures Get(Collect(cs), k) == cs[LastOffer(cs, k)]
      {
        OfferedExtend(cs, k);
        PrefixOffers(cs, n, k);
        if !OffersAt(cs, n, k) {
          var i := LastOffer(prev, k);
          assert LastOffer(cs, k) == i;
          assert prev[i] == cs[i];
          assert cs[n].Some? ==> Get(Collect(cs), k) == Get(m0, k);
        }
      }
    }
  }

  /** The entries are ordered by the first candidate of each tail number. */
  ghost predicate OrderedByFirstOffer(cs: seq<Option<AircraftLink>>, m: seq<Entry<string, AircraftLink>>) {
    && (forall i :: 0 <= i < |m| ==> Offered(cs, m[i].key))
    && (forall i, j :: 0 <= i < j < |m| ==> FirstOffer(cs, m[i].key) < FirstOffer(cs, m[j].key))
  }

  lemma {:induction false} CollectOrder(cs: seq<Option<AircraftLink>>)
    ensures OrderedByFirstOffer(cs, Collect(cs))
    decreases |cs|
  {
    if |cs| > 0 {
      var n := |cs| - 1;
      CollectOrder(cs[..n]);
      CollectKeys(cs[..n]);
      if cs[n].Some? && !HasKey(Collect(cs[..n]), cs[n].value.tailNumber) {
        OrderStepNew(cs);
      } else {
        OrderStepSame(cs);
      }
    }
  }

  /** Keys offered by a prefix keep their first offer in the whole sequence. */
  lemma FirstOfferKept(cs: seq<Option<AircraftLink>>, m0: seq<Entry<string, AircraftLink>>)
    requires |cs| > 0
    requires OrderedByFirstOffer(cs[..|cs| - 1], m0)
    ensures forall i :: 0 <= i < |m0| ==>
      Offered(cs, m0[i].key) && FirstOffer(cs, m0[i].key) == FirstOffer(cs[..|cs| - 1], m0[i].key)
  {
    forall i | 0 <= i < |m0|
      ensures Offered(cs, m0[i].key) && FirstOffer(cs, m0[i].key) == FirstOffer(cs[..|cs| - 1], m0[i].key)
    {
      PrefixOffers(cs, |cs| - 1, m0[i].key);
    }
  }

  /** The step of `CollectOrder` when the last candidate adds no new key. */
  lemma OrderStepSame(cs: seq<Option<AircraftLink>>)
    requires |cs| > 0
    requires OrderedByFirstOffer(cs[..|cs| - 1], Collect(cs[..|cs| - 1]))
    requires cs[|cs| - 1].Some? ==> HasKey(Collect(cs[..|cs| - 1]), cs[|cs| - 1].value.tailNumber)
    ensures OrderedByFirstOffer(cs, Collect(cs))
  {
    var n := |cs| - 1;
    var m0 := Collect(cs[..n]);
    var m := Collect(cs);
    FirstOfferKept(cs, m0);
    assert Keys(m) == Keys(m0);
    assert forall i :: 0 <= i < |m| ==> m[i].key == Keys(m)[i] == Keys(m0)[i] == m0[i].key;
  }

  /** The step of `CollectOrder` when the last candidate adds a new key. */
  lemma OrderStepNew(cs: seq<Option<AircraftLink>>)
    requires |cs| > 0 && cs[|cs| - 1].Some?
    requires OrderedByFirstOffer(cs[..|cs| - 1], Collect(cs[..|cs| - 1]))
    requires !HasKey(Collect(cs[..|cs| - 1]), cs[|cs| - 1].value.tailNumber)
    ensures OrderedByFirstOffer(cs, Collect(cs))
  {
    var n := |cs| - 1;
    var m0 := Collect(cs[..n]);
    var m := Collect(cs);
    var tail := cs[n].value.tailNumber;
    FirstOfferKept(cs, m0);
    assert forall i :: 0 <= i < |m0| ==> FirstOffer(cs, m0[i].key) < n;
    assert m == m0 + [Entry(tail, cs[n].value)];
    PrefixOffers(cs, n, tail);
    assert OffersAt(cs, n, tail);
    assert !Offered(cs[..n], tail) by {
      CollectKeys(cs[..n]);
    }
    assert FirstOffer(cs, tail) == n;
    assert forall i :: 0 <= i < |m0| ==> m[i] == m0[i];
  }

  /** Each entry's value is the last candidate for its own key. */
  lemma CollectEntries(cs: seq<Option<AircraftLink>>)
    ensures var m := Collect(cs);
      forall i :: 0 <= i < |m| ==> Offered(cs, m[i].key) && Some(m[i].value) == cs[LastOffer(cs, m[i].key)]
  {
    var m := Collect(cs);
    CollectKeys(cs);
    CollectValues(cs);
    forall i | 0 <= i < |m|
      ensures Offered(cs, m[i].key) && Some(m[i].value) == cs[LastOffer(cs, m[i].key)]
    {
      assert HasKey(m, m[i].key);
      GetEntry(m, i);
    }
  }

  /** Every link is offered, and the links are ordered by the first
      candidate of each tail number. */
  ghost predicate InFirstOfferOrder(cs: seq<Option<AircraftLink>>, links: seq<AircraftLink>) {
    && (forall i :: 0 <= i < |links| ==> Offered(cs, links[i].tailNumber))
    && (forall i, j :: 0 <= i < j < |links| ==> FirstOffer(cs, links[i].tailNumber) < FirstOffer(cs, links[j].tailNumber))
  }

  /** Each value of the map sits under its own tail number. */
  lemma ValuesUnderOwnTail(cs: seq<Option<AircraftLink>>)
    ensures forall i :: 0 <= i < |Collect(cs)| ==> Values(Collect(cs))[i].tailNumber == Collect(cs)[i].key
  {
    var m := Collect(cs);
    CollectEntries(cs);
    forall i | 0 <= i < |m|
      ensures Values(m)[i].tailNumber == m[i].key
    {
      assert Offered(cs, m[i].key) && Some(m[i].value) == cs[LastOffer(cs, m[i].key)];
      assert OffersAt(cs, LastOffer(cs, m[i].key), m[i].key);
    }
  }

  /** Each value of the map is the last candidate for its tail number. */
  lemma ValuesAreLastOffers(cs: seq<Option<AircraftLink>>)
    ensures var links := Values(Collect(cs));
      forall i :: 0 <= i < |links| ==>
        Offered(cs, links[i].tailNumber) && cs[LastOffer(cs, links[i].tailNumber)] == Some(links[i])
  {
    var m := Collect(cs);
    CollectEntries(cs);
    ValuesUnderOwnTail(cs);
  }

  /** The values of the map carry distinct tail numbers, in first-offer order. */
  lemma ValuesInOrder(cs: seq<Option<AircraftLink>>)
    ensures var links := Values(Collect(cs));
      && (forall i, j :: 0 <= i < j < |links| ==> links[i].tailNumber != links[j].tailNumber)
      && InFirstOfferOrder(cs, links)
  {
    var m := Collect(cs);
    CollectKeys(cs);
    CollectOrder(cs);
    ValuesUnderOwnTail(cs);
  }

  /** Every value of the map has the tail-number shape. */
  lemma ValuesAreTailNumbers(anchors: seq<Anchor>, baseUrl: string)
    ensures var links := Values(Collect(Candidates(anchors, baseUrl)));
      forall i :: 0 <= i < |links| ==> IsTailNumber(links[i].tailNumber)
  {
    var cs := Candidates(anchors, baseUrl);
    var links := Values(Collect(cs));
    ValuesAreLastOffers(cs);
    forall i | 0 <= i < |links|
      ensures IsTailNumber(links[i].tailNumber)
    {
      var j := LastOffer(cs, links[i].tailNumber);
      assert cs[j] == Candidate(anchors[j], baseUrl);
    }
  }

  /** Every qualifying anchor's trimmed text is a key of the map. */
  lemma QualifyingAreKeys(anchors: seq<Anchor>, baseUrl: string)
    ensures var m := Collect(Candidates(anchors, baseUrl));
      forall j :: 0 <= j < |anchors| && Qualifies(anchors[j]) ==> HasKey(m, Trim(anchors[j].text))
  {
    var cs := Candidates(anchors, baseUrl);
    CollectKeys(cs);
    forall j | 0 <= j < |anchors| && Qualifies(anchors[j])
      ensures Offered(cs, Trim(anchors[j].text))
    {
      assert OffersAt(cs, j, Trim(anchors[j].text));
    }
  }

  /** A key of the map is the tail number of one of its values. */
  lemma KeyInValues(cs: seq<Option<AircraftLink>>, k: string)
    requires HasKey(Collect(cs), k)
    ensures exists i :: 0 <= i < |Values(Collect(cs))| && Values(Collect(cs))[i].tailNumber == k
  {
    var m := Collect(cs);
    ValuesUnderOwnTail(cs);
    var i :| 0 <= i < |m| && m[i].key == k;
    assert Values(m)[i].tailNumber == k;
  }

  /** Every qualifying anchor's tail number is among the values of the map. */
  lemma ExtractLinksComplete(anchors: seq<Anchor>, baseUrl: string)
    ensures var links := Values(Collect(Candidates(anchors, baseUrl)));
      forall j :: 0 <= j < |anchors| && Qualifies(anchors[j]) ==>
        exists i :: 0 <= i < |links| && links[i].tailNumber == Trim(anchors[j].text)
  {
    var cs := Candidates(anchors, baseUrl);
    QualifyingAreKeys(anchors, baseUrl);
    forall j | 0 <= j < |anchors| && Qualifies(anchors[j])
      ensures exists i :: 0 <= i < |Values(Collect(cs))| && Values(Collect(cs))[i].tailNumber == Trim(anchors[j].text)
    {
      KeyInValues(cs, Trim(anchors[j].text));
    }
  }

  /** `extractCessna172G1000Links(html, baseUrl)` on the anchors the parser
      found: `Array.from(aircraftMap.values())`. */
  function ExtractLinks(anchors: seq<Anchor>, baseUrl: string): (links: seq<AircraftLink>)
    ensures forall i :: 0 <= i < |links| ==> IsTailNumber(links[i].tailNumber)
    ensures forall i, j :: 0 <= i < j < |links| ==> links[i].tailNumber != links[j].tailNumber
    ensures var cs := Candidates(anchors, baseUrl);
      forall i :: 0 <= i < |links| ==>
        Offered(cs, links[i].tailNumber) && cs[LastOffer(cs, links[i].tailNumber)] == Some(links[i])
    ensures forall j :: 0 <= j < |anchors| && Qualifies(anchors[j]) ==>
      exists i :: 0 <= i < |links| && links[i].tailNumber == Trim(anchors[j].text)
    ensures InFirstOfferOrder(Candidates(anchors, baseUrl), links)
  {
    var cs := Candidates(anchors, baseUrl);
    ValuesAreLastOffers(cs);
    ValuesInOrder(cs);
    ValuesAreTailNumbers(anchors, baseUrl);
    ExtractLinksComplete(anchors, baseUrl);
    Values(Collect(cs))
  }
}
