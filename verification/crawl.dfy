/** The URL lists built before any publication is parsed: the listing pages
    (`main`) and the publication links found on them (`get_publications`). */
module Crawl {
  import opened Options
  import opened Seqs
  import opened Decimal

  const SiteOrigin: string := "http://www.understandingwar.org"
  const BaseUrl: string := "http://www.understandingwar.org/publications"
  const PageQuery: string := "?page="

  /** URL of listing page `i`. */
  function PageUrl(i: nat): string
  {
    BaseUrl + PageQuery + NatToDecimal(i)
  }

  /** The URLs of listing pages 0 to n-1, in order; none when n is zero or
      negative, as an empty Python range gives. */
  function PageUrls(n: int): (r: seq<string>)
    ensures |r| == if n < 0 then 0 else n
    ensures forall i :: 0 <= i < |r| ==> r[i] == PageUrl(i)
    decreases n
  {
    if n <= 0 then [] else PageUrls(n - 1) + [PageUrl(n - 1)]
  }

  /** Reads the page number back out of a listing-page URL. */
  function PageNumber(url: string): Option<nat>
  {
    var prefix := BaseUrl + PageQuery;
    if |prefix| < |url| && url[..|prefix|] == prefix && AllDigits(url[|prefix|..])
    then Some(DecimalValue(url[|prefix|..]))
    else None
  }

  lemma PageNumberRoundTrip(i: nat)
    ensures PageNumber(PageUrl(i)) == Some(i)
  {
    var prefix := BaseUrl + PageQuery;
    var url := PageUrl(i);
    assert url[..|prefix|] == prefix;
    assert url[|prefix|..] == NatToDecimal(i);
    DecimalRoundTrip(i);
  }

  /** No listing page is visited twice in one run. */
  lemma PageUrlsDistinct(n: int)
    ensures forall i, j :: 0 <= i < j < |PageUrls(n)| ==> PageUrls(n)[i] != PageUrls(n)[j]
  {
    forall i, j | 0 <= i < j < |PageUrls(n)|
      ensures PageUrls(n)[i] != PageUrls(n)[j]
    {
      NatToDecimalInjective(i, j);
      assert PageUrl(i)[|BaseUrl + PageQuery|..] == NatToDecimal(i);
      assert PageUrl(j)[|BaseUrl + PageQuery|..] == NatToDecimal(j);
    }
  }

  /** Links on one listing page: the site origin prefixed to the `href` of the
      first anchor of each `field-content` div, one per div, in order. */
  function GetPublications(hrefs: seq<string>): (r: seq<string>)
    ensures |r| == |hrefs|
    ensures forall j :: 0 <= j < |hrefs| ==> r[j] == SiteOrigin + hrefs[j]
  {
    seq(|hrefs|, j requires 0 <= j < |hrefs| => SiteOrigin + hrefs[j])
  }

  /** Per-page link lists for the given listing pages; `index` gives the hrefs
      found on the page at a URL. */
  function PageLinks(index: string -> seq<string>, pageUrls: seq<string>): (r: seq<seq<string>>)
    ensures |r| == |pageUrls|
    ensures forall p :: 0 <= p < |pageUrls| ==> |r[p]| == |index(pageUrls[p])|
  {
    seq(|pageUrls|, p requires 0 <= p < |pageUrls| => GetPublications(index(pageUrls[p])))
  }

  /** All publication URLs: the per-page lists joined in page order. */
  function PublicationUrls(index: string -> seq<string>, pageUrls: seq<string>): (r: seq<string>)
    ensures |r| == TotalLength(PageLinks(index, pageUrls))
  {
    ConcatLength(PageLinks(index, pageUrls));
    Concat(PageLinks(index, pageUrls))
  }

  /** With a single listing page, the publication URLs are that page's links. */
  lemma PublicationUrlsOnePage(index: string -> seq<string>, url: string)
    ensures PublicationUrls(index, [url]) == GetPublications(index(url))
  {
    var links := PageLinks(index, [url]);
    assert links == [GetPublications(index(url))];
    assert links[..|links| - 1] == [];
    assert Concat(links) == Concat([]) + links[0];
  }

  /** The script's accumulation loop, `publication_urls.extend(...)` per page. */
  method CollectPublicationUrls(index: string -> seq<string>, pageUrls: seq<string>)
    returns (urls: seq<string>)
    ensures urls == Concat(PageLinks(index, pageUrls))
    ensures |urls| == TotalLength(PageLinks(index, pageUrls))
  {
    urls := [];
    var i := 0;
    while i < |pageUrls|
      invariant 0 <= i <= |pageUrls|
      invariant urls == Concat(PageLinks(index, pageUrls)[..i])
    {
      var links := PageLinks(index, pageUrls);
      assert links[..i + 1][..i] == links[..i];
      urls := urls + GetPublications(index(pageUrls[i]));
      i := i + 1;
    }
    assert PageLinks(index, pageUrls)[..i] == PageLinks(index, pageUrls);
    ConcatLength(PageLinks(index, pageUrls));
  }

  /** Link `j` of page `p` lands at that page's offset plus `j`, prefixed with
      the site origin. */
  lemma PublicationUrlAt(index: string -> seq<string>, pageUrls: seq<string>, p: nat, j: nat)
    requires p < |pageUrls| && j < |index(pageUrls[p])|
    ensures var at := Offset(PageLinks(index, pageUrls), p) + j;
            at < |PublicationUrls(index, pageUrls)| &&
            PublicationUrls(index, pageUrls)[at] == SiteOrigin + index(pageUrls[p])[j]
  {
    var links := PageLinks(index, pageUrls);
    ConcatPart(links, p);
    var at := Offset(links, p);
    assert Concat(links)[at .. at + |links[p]|][j] == links[p][j];
  }

  /** No deduplication: the same href on two listing pages yields two entries. */
  lemma DuplicatesKept(index: string -> seq<string>, pageUrls: seq<string>,
                       p: nat, j: nat, q: nat, k: nat)
    requires p < q < |pageUrls|
    requires j < |index(pageUrls[p])| && k < |index(pageUrls[q])|
    requires index(pageUrls[p])[j] == index(pageUrls[q])[k]
    ensures exists a, b :: 0 <= a < b < |PublicationUrls(index, pageUrls)| &&
              PublicationUrls(index, pageUrls)[a] == PublicationUrls(index, pageUrls)[b] ==
              SiteOrigin + index(pageUrls[p])[j]
  {
    var links := PageLinks(index, pageUrls);
    PublicationUrlAt(index, pageUrls, p, j);
    PublicationUrlAt(index, pageUrls, q, k);
    OffsetGrows(links, p + 1, q);
    assert links[..p + 1] == links[..p] + [links[p]];
    assert links[..p + 1][..p] == links[..p];
  }

  lemma {:induction false} OffsetGrows(xss: seq<seq<string>>, a: nat, b: nat)
    requires a <= b <= |xss|
    ensures Offset(xss, a) <= Offset(xss, b)
    decreases b - a
  {
    if a < b {
      OffsetGrows(xss, a, b - 1);
      assert xss[..b][..b - 1] == xss[..b - 1];
    }
  }
}
