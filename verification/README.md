# isw-database ingestion, modelled in Dafny

This project models `populate_db.py`, the batch job that scrapes publications
from understandingwar.org into a MongoDB collection. It runs in four steps:

1. Build the listing-page URLs `…/publications?page=0 … n_pages-1`.
2. Collect the publication links on every listing page.
3. Parse each publication into a five-field record (`_id`, `url`, `title`,
   `date`, `content`).
4. Upsert each record by `_id` and count the documents that were newly
   inserted.

What is abstracted:

- The parsed HTML tree of a publication is a `Page`:
  - the text of the `h1.title` element, if there is one;
  - the `dc:date dc:created` span, absent or present with or without a
    `content` attribute;
  - the text nodes in document order, each with its parent tag name. `None`
    stands for a walk that raised.
- A listing page is the list of hrefs of its `field-content` divs.
- Fetching is two function parameters: `index` for listing pages and `fetch`
  for publication pages.
- SHA-1 hex digests are a function parameter `hash` into 40-character strings.
- The collection is a `map<string, Record>`.

Modules:

- `Options`: the optional values the model uses.
- `Seqs`: list flattening and offsets.
- `Decimal`: `'{}'.format(i)` for non-negative `i`.
- `Extract`: `get_contents`.
- `Publication`: `get_title`, `get_date`, `parse_publication`.
- `Crawl`: the URL lists.
- `Store`: `update_one` with `upsert=True`, plus the insertion counter.
- `Pipeline`: `main` after the database connection is up.

## Behaviour worth noting

- A text node's length is tested on its raw text, not the trimmed text
  (`Extract.RawLengthCounts`).
- Every kept fragment is followed by one space, so non-empty content ends in
  a space. Fragments are not merely separated by spaces.
- Store write failures are not isolated per record: nothing in `main` catches
  an exception from `update_one`.

## Model

| member | source | states |
|---|---|---|
| Extract.KeptIndices | populate_db.py:61-62 | the kept positions are ascending, in range, and are exactly the text nodes whose parent is outside the 15-tag blacklist and whose raw length exceeds 10 |
| Extract.FragmentsAtKeptIndices | populate_db.py:61-63 | the appended fragments are, one for one and in order, the texts at the kept positions |
| Extract.GetContents | populate_db.py:53-68 | the loop yields each qualifying text followed by one space, concatenated in document order; a walk that raised yields the empty string |
| Extract.ContentLayout | populate_db.py:57-63 | fragment j is the text of the j-th qualifying node, sits at its offset in the content and is followed by exactly one space |
| Extract.RenderEmptyIff | populate_db.py:58-63 | the content is empty exactly when no text node qualifies |
| Extract.RenderAppend | populate_db.py:59-63 | content of a concatenated node list is the concatenation of the contents (document order, no reordering) |
| Extract.RawLengthCounts | populate_db.py:62 | the length test counts raw characters: eleven characters with only three non-spaces still qualify |
| Extract.Contents | populate_db.py:53-68 | a text walk that raised gives the empty string; its successful case is stated by Extract.GetContents and the Render lemmas |
| Publication.GetTitle | populate_db.py:42-50 | the title is the heading's text, and the empty string when the heading is missing |
| Publication.GetDate | populate_db.py:31-39 | the date is the span's content attribute, and the empty string when the span or the attribute is missing (the corrected fallback of the Findings row) |
| Publication.ParsePublication | populate_db.py:71-96 | the record keeps the input url unchanged, takes title, date and content from their own extractors, and its key is the digest of its own title followed by its own date |
| Publication.FieldsIndependent | populate_db.py:31-50 | title, date and content each depend only on their own element, and each falls back to the empty string on its own when missing |
| Publication.IdDependsOnTitleAndDate | populate_db.py:91-94 | pages whose title-plus-date strings agree get the same key, whatever their url and content |
| Publication.ConcatenationCollides | populate_db.py:93-94 | title "ab" with date "c" and title "a" with date "bc" differ in both fields yet get the same key |
| Publication.GetDateAsWritten | populate_db.py:31-39 | an absent span gives the empty string, a span gives its content attribute, which is Python None when the attribute is missing |
| Publication.ParsePublicationAsWritten | populate_db.py:86-94 | the script's parse fails exactly when the date is Python None |
| Publication.DateWithoutContentRaises | populate_db.py:88-94 | a date span without a content attribute makes the script's parse fail, while the corrected parse gives an empty date |
| Publication.AsWrittenAgreesOtherwise | populate_db.py:86-94 | on every other page the script's parse and the corrected parse give the same record |
| Decimal.NatToDecimal | populate_db.py:123 | the page number is spelled with digits only, with no leading zero except for 0 |
| Decimal.DecimalRoundTrip | populate_db.py:123 | reading the decimal spelling back gives the number |
| Crawl.PageUrls | populate_db.py:122-123 | exactly n_pages URLs, none when n_pages is zero or negative, entry i being the base url, "?page=" and the decimal spelling of i |
| Crawl.PageNumberRoundTrip | populate_db.py:122-123 | the page number can be read back from listing-page URL i |
| Crawl.PageUrlsDistinct | populate_db.py:122-123 | no listing page URL occurs twice |
| Crawl.GetPublications | populate_db.py:25-26 | one URL per listing entry, in order, each the site origin followed by that entry's href |
| Crawl.PageLinks | populate_db.py:126-131 | one link list per listing page, each with one entry per href listed on that page |
| Crawl.PublicationUrls | populate_db.py:126-131 | the accumulated list is as long as all per-page lists together, so nothing is dropped or deduplicated |
| Crawl.CollectPublicationUrls | populate_db.py:126-131 | the accumulated list is the per-page lists joined in page order, with length the sum of their lengths |
| Crawl.PublicationUrlAt | populate_db.py:126-131 | link j of page p is at that page's offset plus j in the accumulated list |
| Crawl.DuplicatesKept | populate_db.py:126-131 | an href listed on two pages appears at two distinct positions: links are not deduplicated |
| Store.Upsert | populate_db.py:146-150 | after the upsert the document's key maps to the document, the key set gains only that key, every other document is unchanged, and keys keep matching their documents |
| Store.UpsertedId | populate_db.py:146-153 | an upserted id is reported exactly when the key was absent, and it is the inserted document's own key |
| Store.Truthy | populate_db.py:153 | an absent `res.upserted_id` is falsy and a present 40-character digest is truthy |
| Store.Step | populate_db.py:146-154 | the counter goes up by one exactly when the document's key was absent before the upsert |
| Store.UpsertAll | populate_db.py:134-154 | the loop as a fold over the documents in order: it never deletes a document and counts at most one insertion per document; the lemmas below state its full meaning |
| Store.IngestAll | populate_db.py:134-157 | the loop computes exactly the fold UpsertAll; after it the keys are the old keys plus the documents' keys, the counter is the number of distinct new keys, documents with untouched keys are unchanged |
| Store.UpsertAllKeys | populate_db.py:136-150 | the loop adds exactly the documents' keys, keeps untouched documents and keeps every document under its own key |
| Store.UpsertAllCount | populate_db.py:153-154 | the counter equals the number of distinct keys among the documents that were absent before the loop |
| Store.UpsertAllLastWins | populate_db.py:146-150 | the stored document for a key is the last document carrying that key |
| Store.UpsertAllOverlay | populate_db.py:136-150 | the loop from any collection equals the loop from an empty one laid over the old contents |
| Store.UpsertAllIdempotent | populate_db.py:144-145 | repeating the loop over the same documents leaves the collection unchanged and counts no insertion |
| Pipeline.Documents | populate_db.py:138-142 | one record per publication URL, in order, each carrying its URL |
| Pipeline.Run | populate_db.py:121-157 | a run adds exactly the keys of the parsed records and reports as inserted the number of those keys not stored before |
| Pipeline.Ingest | populate_db.py:121-157 | the step-by-step run produces exactly the collection and count of Run, hence the same key set, insertion count and untouched documents |
| Pipeline.RunIdempotent | populate_db.py:91-92 | a second run over an unchanged site leaves the collection unchanged and reports zero insertions |
| Pipeline.NoPagesNoChange | populate_db.py:122-131 | a zero or negative page count, which the command line passes through unchecked, leaves the collection as it is and reports no insertion |
| Pipeline.OneNewOneExisting | populate_db.py:134-157 | one listing page with two links, one matching a stored document by key: two documents end up stored and one insertion is reported |

## Findings

| source | as written | input that shows it | evidently intended | confidence | as-written member | corrected member |
|---|---|---|---|---|---|---|
| populate_db.py:35 | `get_date` returns `.get('content')`, which is `None` when the date span has no `content` attribute; the `title + date` at line 93 then raises `TypeError`, and nothing in `main` catches it | a publication page with `<span property="dc:date dc:created">` and no `content` attribute | the date falls back to `''`, like the other missing-element cases | medium, not executed | Publication.ParsePublicationAsWritten (shown by Publication.DateWithoutContentRaises) | Publication.ParsePublication (with Publication.GetDate) |

The rest of the model (`Pipeline`) uses the corrected `Publication.ParsePublication`.

## Left out

- HTTP fetching with `requests.get` (populate_db.py:19, 80) is network I/O. Fetches are the `index` and `fetch` parameters, which makes them deterministic within a run. Fetch errors, which abort the script's run, are not modelled.
- BeautifulSoup parsing and `find`/`find_all` are a foreign library. They are replaced by the abstract `Page` and href lists. A `field-content` div without an anchor, or an anchor without `href` (populate_db.py:26), makes the script raise. This is not modelled: each listing entry is taken to carry an href.
- Extract.Contents: its own contract covers only the failed walk. The successful case is stated by Extract.GetContents and the Render lemmas. A walk that raises part-way is modelled as `None` for the whole node list, which matches the script resetting content to `''`.
- SHA-1 is an uninterpreted parameter, so only "same input, same key" is claimed. Collision resistance is not. The 40-character length of a hex digest is kept, because `if res.upserted_id:` depends on the id being non-empty.
- `$set` is modelled as a full overwrite. It merges fields, but the collection holds only five-field records written by this job, and every update sets all five.
- Reading config.ini, constructing the MongoClient and the connectivity check (populate_db.py:103-119) are configuration and I/O. So are `print` logging and argv handling (populate_db.py:163-169).
- Store write failures, concurrency between runs, and Python string semantics beyond code-point length are not modelled. Strings are Dafny `string`, whose characters are Unicode scalar values, like Python's `len`.
- app.py and api.py are not part of this model. Each endpoint passes one query straight to pymongo (sorting by date, limit 10, find_one, client-supplied filter). Ordering and filtering are the database's behaviour.
