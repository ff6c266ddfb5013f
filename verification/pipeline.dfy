/** One run of `main` once the database connection is up: build the listing
    URLs, collect publication links, parse each link and upsert the record.

    The network is abstracted: `index` gives the hrefs found on a listing page,
    `fetch` the parsed publication page at a URL, and `hash` the SHA-1 hex
    digest. Fixing them fixes the site being crawled. */
module Pipeline {
  import opened Crawl
  import opened Publication
  import opened Store

  /** The records parsed from `urls`, in order. */
  function Documents(urls: seq<string>, fetch: string -> Page, hash: string -> Digest): (r: seq<Record>)
    ensures |r| == |urls|
    ensures forall i :: 0 <= i < |urls| ==> r[i].url == urls[i]
  {
    seq(|urls|, i requires 0 <= i < |urls| => ParsePublication(urls[i], fetch(urls[i]), hash))
  }

  /** The records a run over `nPages` listing pages upserts. */
  function RunDocuments(nPages: int, index: string -> seq<string>, fetch: string -> Page,
                        hash: string -> Digest): seq<Record>
  {
    Documents(PublicationUrls(index, PageUrls(nPages)), fetch, hash)
  }

  /** Final collection and insertion count of a run. */
  function Run(nPages: int, index: string -> seq<string>, fetch: string -> Page,
               hash: string -> Digest, s: Store): (r: (Store, nat))
    ensures r.0.Keys == s.Keys + IdSet(RunDocuments(nPages, index, fetch, hash))
    ensures r.1 == |IdSet(RunDocuments(nPages, index, fetch, hash)) - s.Keys|
    ensures Keyed(s) ==> Keyed(r.0)
  {
    var docs := RunDocuments(nPages, index, fetch, hash);
    UpsertAllKeys(s, docs);
    UpsertAllCount(s, docs);
    UpsertAll(s, docs)
  }

  /** The run as the script performs it, step by step. */
  method Ingest(nPages: int, index: string -> seq<string>, fetch: string -> Page,
                hash: string -> Digest, s: Store) returns (store: Store, nInserted: nat)
    ensures (store, nInserted) == Run(nPages, index, fetch, hash, s)
    ensures store.Keys == s.Keys + IdSet(RunDocuments(nPages, index, fetch, hash))
    ensures nInserted == |IdSet(RunDocuments(nPages, index, fetch, hash)) - s.Keys|
    ensures forall k :: k in s && k !in IdSet(RunDocuments(nPages, index, fetch, hash)) ==> store[k] == s[k]
    ensures Keyed(s) ==> Keyed(store)
  {
    var pageUrls := PageUrls(nPages);
    var publicationUrls := CollectPublicationUrls(index, pageUrls);
    var docs := Documents(publicationUrls, fetch, hash);
    store, nInserted := IngestAll(s, docs);
  }

  /** Running again over an unchanged site leaves the collection as it is and
      reports no insertions. */
  lemma RunIdempotent(nPages: int, index: string -> seq<string>, fetch: string -> Page,
                      hash: string -> Digest, s: Store)
    ensures var first := Run(nPages, index, fetch, hash, s).0;
            Run(nPages, index, fetch, hash, first) == (first, 0)
  {
    UpsertAllIdempotent(s, RunDocuments(nPages, index, fetch, hash));
  }

  /** With one listing page, a run upserts the records of that page's links. */
  lemma RunDocumentsOnePage(index: string -> seq<string>, fetch: string -> Page, hash: string -> Digest)
    ensures var urls := GetPublications(index(PageUrl(0)));
            RunDocuments(1, index, fetch, hash) == Documents(urls, fetch, hash)
  {
    assert PageUrls(1) == [PageUrl(0)];
    PublicationUrlsOnePage(index, PageUrl(0));
  }

  /** A zero or negative page count visits no page and changes nothing. */
  lemma NoPagesNoChange(nPages: int, index: string -> seq<string>, fetch: string -> Page,
                        hash: string -> Digest, s: Store)
    requires nPages <= 0
    ensures Run(nPages, index, fetch, hash, s) == (s, 0)
  {
  }

  /** One listing page with two links, the first of which has the title and
      date of a document already stored: afterwards two documents are stored
      and one insertion is reported. */
  lemma OneNewOneExisting(index: string -> seq<string>, fetch: string -> Page,
                          hash: string -> Digest, seed: Record, h1: string, h2: string)
    requires index(PageUrl(0)) == [h1, h2]
    requires ParsePublication(SiteOrigin + h1, fetch(SiteOrigin + h1), hash).id == seed.id
    requires ParsePublication(SiteOrigin + h2, fetch(SiteOrigin + h2), hash).id != seed.id
    ensures var r := Run(1, index, fetch, hash, map[seed.id := seed]);
            |r.0| == 2 && r.1 == 1
  {
    RunDocumentsOnePage(index, fetch, hash);
    var urls := GetPublications([h1, h2]);
    var docs := Documents(urls, fetch, hash);
    assert docs == [ParsePublication(urls[0], fetch(urls[0]), hash), ParsePublication(urls[1], fetch(urls[1]), hash)];
    TwoDocuments(map[seed.id := seed], docs[0], docs[1]);
  }

  /** Two records upserted into a collection that holds the first one's key. */
  lemma TwoDocuments(s: Store, d1: Record, d2: Record)
    requires s.Keys == {d1.id} && d2.id != d1.id
    ensures |UpsertAll(s, [d1, d2]).0| == 2 && UpsertAll(s, [d1, d2]).1 == 1
  {
    var docs := [d1, d2];
    assert docs[..1] == [d1] && [d1][..0] == [];
    var first := UpsertAll(s, [d1]);
    assert UpsertAll(s, []) == (s, 0);
    assert first == Step(s, 0, d1);
    assert first.1 == 0 && first.0.Keys == {d1.id};
    var second := UpsertAll(s, docs);
    assert second == Step(first.0, first.1, d2);
    assert second.0.Keys == {d1.id, d2.id};
  }
}
