/** Parsing one publication page into a record (`get_title`, `get_date`,
    `parse_publication`). */
module Publication {
  import opened Options
  import Extract

  /** A SHA-1 hex digest: 40 characters. */
  type Digest = s: string | |s| == 40
    witness "0000000000000000000000000000000000000000"

  /** The `<span property="dc:date dc:created">` element: absent, or present
      with or without a `content` attribute. */
  datatype DateSpan = NoDateSpan | DateSpan(content: Option<string>)

  /** What the parser yields for a fetched page: the text of the
      `<h1 class="title">` element if there is one, the date span, and the
      text nodes (`None` when walking them raised). */
  datatype Page = Page(title: Option<string>, date: DateSpan, nodes: Option<seq<Extract.TextNode>>)

  datatype Record = Record(id: Digest, url: string, title: string, date: string, content: string)

  /** Title text, `""` when the heading is missing. */
  function GetTitle(page: Page): (r: string)
    ensures page.title.None? ==> r == ""
    ensures page.title.Some? ==> r == page.title.value
  {
    page.title.GetOr("")
  }

  /** Date as the script computes it: `None` is Python's `None`, which `.get`
      returns when the span exists but has no `content` attribute. */
  function GetDateAsWritten(page: Page): (r: Option<string>)
    ensures page.date.NoDateSpan? ==> r == Some("")
    ensures page.date.DateSpan? ==> r == page.date.content
  {
    match page.date
    case NoDateSpan => Some("")
    case DateSpan(c) => c
  }

  /** Date with the fallback the script evidently intends: `""` whenever no
      `content` value is available. */
  function GetDate(page: Page): (r: string)
    ensures page.date.DateSpan? && page.date.content.Some? ==> r == page.date.content.value
    ensures page.date.NoDateSpan? || page.date.content.None? ==> r == ""
  {
    match page.date
    case NoDateSpan => ""
    case DateSpan(c) => c.GetOr("")
  }

  /** The record for `url`; its key is the digest of title followed by date. */
  function ParsePublication(url: string, page: Page, hash: string -> Digest): (r: Record)
    ensures r.url == url
    ensures r.title == GetTitle(page) && r.date == GetDate(page)
    ensures r.content == Extract.Contents(page.nodes)
    ensures r.id == hash(r.title + r.date)
  {
    var title := GetTitle(page);
    var date := GetDate(page);
    Record(hash(title + date), url, title, date, Extract.Contents(page.nodes))
  }

  /** `parse_publication` as written: `None` when the `title + date`
      concatenation raises because the date is Python's `None`. */
  function ParsePublicationAsWritten(url: string, page: Page, hash: string -> Digest): (r: Option<Record>)
    ensures r.None? <==> GetDateAsWritten(page).None?
  {
    match GetDateAsWritten(page)
    case None => None
    case Some(date) =>
      var title := GetTitle(page);
      Some(Record(hash(title + date), url, title, date, Extract.Contents(page.nodes)))
  }

  /** A date span without a `content` attribute makes the script raise,
      while the corrected parse yields an empty date. */
  lemma DateWithoutContentRaises(url: string, title: Option<string>,
                                 nodes: Option<seq<Extract.TextNode>>, hash: string -> Digest)
    ensures ParsePublicationAsWritten(url, Page(title, DateSpan(None), nodes), hash) == None
    ensures ParsePublication(url, Page(title, DateSpan(None), nodes), hash).date == ""
  {
  }

  /** On every other page the script and the corrected parse agree. */
  lemma AsWrittenAgreesOtherwise(url: string, page: Page, hash: string -> Digest)
    requires page.date != DateSpan(None)
    ensures ParsePublicationAsWritten(url, page, hash) == Some(ParsePublication(url, page, hash))
  {
  }

  /** Each field is extracted on its own: a missing title or date element, or a
      failed text walk, blanks that field only. */
  lemma FieldsIndependent(url: string, p: Page, q: Page, hash: string -> Digest)
    ensures p.title == q.title ==> ParsePublication(url, p, hash).title == ParsePublication(url, q, hash).title
    ensures p.date == q.date ==> ParsePublication(url, p, hash).date == ParsePublication(url, q, hash).date
    ensures p.nodes == q.nodes ==> ParsePublication(url, p, hash).content == ParsePublication(url, q, hash).content
    ensures p.title.None? ==> ParsePublication(url, p, hash).title == ""
    ensures p.date.NoDateSpan? ==> ParsePublication(url, p, hash).date == ""
    ensures p.nodes.None? ==> ParsePublication(url, p, hash).content == ""
  {
  }

  /** The key depends on title and date only: pages that agree on both give
      the same key, whatever their url or body text. */
  lemma IdDependsOnTitleAndDate(url1: string, p: Page, url2: string, q: Page, hash: string -> Digest)
    requires GetTitle(p) + GetDate(p) == GetTitle(q) + GetDate(q)
    ensures ParsePublication(url1, p, hash).id == ParsePublication(url2, q, hash).id
  {
  }

  /** Because the key hashes a plain concatenation, title "ab" with date "c"
      and title "a" with date "bc" get the same key. */
  lemma ConcatenationCollides(url1: string, url2: string,
                              nodes1: Option<seq<Extract.TextNode>>, nodes2: Option<seq<Extract.TextNode>>,
                              hash: string -> Digest)
    ensures var r1 := ParsePublication(url1, Page(Some("ab"), DateSpan(Some("c")), nodes1), hash);
            var r2 := ParsePublication(url2, Page(Some("a"), DateSpan(Some("bc")), nodes2), hash);
            r1.title != r2.title && r1.date != r2.date && r1.id == r2.id
  {
    assert "ab" + "c" == "a" + "bc";
  }
}
