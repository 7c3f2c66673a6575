# RAGdoll ingestion identity and PDF-link scrapers, in Dafny

This project models three small deterministic pieces of the RAGdoll
document pipeline and proves properties about them.

- **Chunk identity** (`calculate_chunk_ids`, populate_database.py). Every
  chunk gets the id `"{source}:{page}:{index}"`. The index counts the chunks
  before it in the same run of consecutive chunks with the same
  `"{source}:{page}"` page id. Missing metadata renders as `None`, the way a
  Python f-string renders it. The loop is the generic fold `Runs.LabelRuns`,
  instantiated with the page id as key. The reference definition it is proved
  against is `Runs.RunIndex` (modules `Runs` and `ChunkIds`).
- **Idempotent ingestion** (the filter-and-insert part of `add_to_chroma`).
  The vector store is modelled by the set of ids it holds. Only chunks whose
  id is absent from that set are handed over, in input order, together with
  their ids (module `Reconcile`).
- **PDF-link scrapers**. The fetch and the HTML parse become a function
  parameter that returns the page as data (module `Web`).
  - `scrape_google_scholar_pdfs` (scrapper.py, module `Scrapper`) covers the
    query rewrite, the status check, and the `[PDF]`/`.pdf` filter with its
    `max_results` cap.
  - `ScholarScraper.find_pdf_links` and the result loop of
    `scrape_search_results` (scholar_scraper.py, module `ScholarScraper`)
    cover the visited-URL guard, the lower-cased `.pdf` suffix filter, and
    the concatenation over the search results.

  The scraper instance's `visited_urls` set is threaded through the functions
  as an immutable `Scraper` value.

Supporting modules:

| module | contents |
|---|---|
| `Wrappers` | `Option` |
| `Seqs` | ordered subsequences |
| `Decimal` | Python's `str()` of an integer, with its inverse |
| `Text` | Python's `in`, `endswith`, `lower` and `replace` on strings |

Two behaviours of the code are easy to misread, and the model keeps both:

- A missing source or page renders as the text `None` (`None:None:0`, …).
  A missing page is not defaulted to 0, and a chunk without a source is not
  rejected (`ChunkIds.MissingMetadataRendersNone`).
- The filter compares the batch, as a list, with the ids stored before the
  call. Two chunks of one batch that share a new id are therefore both handed
  over (`Reconcile.RepeatedIdInOneBatchAddedTwice`).

## Model

| member | source | states |
|---|---|---|
| ChunkIds.CalculateChunkIds | populate_database.py:86-112 | The result has the input's length and order. Chunk `i` keeps its content, source and page and gets the id `"{page id}:{RunIndex(page ids, i)}"`. The result depends on the input sequence alone. |
| Runs.RunIndex | populate_database.py:99-103 | The index at position `i` is 0 when the page id differs from the previous one or there is none. Otherwise it is one more than the previous index. It never exceeds `i`. |
| ChunkIds.ShowPage | populate_database.py:96-97 | The page as the f-string writes it: `None` when missing, otherwise `str(page)`. The text is never empty and never contains `:`. |
| ChunkIds.PageId | populate_database.py:95-97 | The page id is the source text, then `:`, then the page text. The page text holds no `:`, so the last `:` of a page id separates source from page. |
| ChunkIds.ChunkId | populate_database.py:106 | The chunk id is the page id, then `:`, then a numeral. The numeral has no `:` and reads back as the index. |
| Runs.LabelRuns | populate_database.py:91-107 | The fold starts with no previous key and index 0. It bumps the index when the key equals the previous one and resets it otherwise. It marks item `i` with its own key and with `RunIndex(keys, i)`. |
| Runs.RunIndexIsRunDistance | populate_database.py:99-103 | The index of position `i` is its distance from the start of the maximal run of equal page ids containing `i`. The `r` page ids before it are equal to its own, and the one before those, if any, differs. |
| Runs.RunIndexAcross | populate_database.py:99-101 | Across a stretch of equal page ids the index grows by exactly one per chunk. |
| Runs.RunIndicesCountFromZero | populate_database.py:99-103 | Within a maximal run of one page id the indices are 0, 1, 2, …. |
| Runs.RunStartIndexZero | populate_database.py:102-103 | The chunk where a run starts has index 0 and the same page id as the rest of the run. |
| Runs.RunIndexPrefix | populate_database.py:91-107 | A chunk's index depends only on the chunks up to and including it. |
| Runs.DistinctPairsIffContiguous | populate_database.py:97-107 | No two positions share both page id and index exactly when every page id forms a single contiguous run. |
| ChunkIds.FirstChunkIndexZero | populate_database.py:91-103 | The first chunk's id is its page id followed by `:0`, because the previous page id starts out as `None`. |
| ChunkIds.ChunkIdInjective | populate_database.py:106 | Two ids are equal exactly when their page ids and their indices are equal, even though source paths may contain `:`. |
| ChunkIds.ReturningPageRepeatsId | populate_database.py:97-107 | For page ids A ≠ B, the batch A, B, A gives both A chunks the same id. |
| ChunkIds.DistinctIdsIffContiguous | populate_database.py:97-107 | The ids of a batch are pairwise distinct exactly when each page id occupies one contiguous stretch. |
| ChunkIds.IdsStableUnderAppend | populate_database.py:86-112 | Appending chunks to a batch leaves the ids of the original chunks unchanged. The identified longer batch starts with the identified shorter one. |
| ChunkIds.MonopolyExample | populate_database.py:88-106 | Three chunks of page 6 of `data/monopoly.pdf` end with `data/monopoly.pdf:6:2`. |
| ChunkIds.MixedPagesExample | populate_database.py:94-106 | The pages a.pdf/0, a.pdf/0, a.pdf/1, b.pdf/0 get `a.pdf:0:0`, `a.pdf:0:1`, `a.pdf:1:0`, `b.pdf:0:0`. |
| ChunkIds.MissingMetadataRendersNone | populate_database.py:95-97 | A second chunk with neither source nor page gets the id `None:None:1`. |
| Decimal.NatToDecimal | populate_database.py:106 | The rendered index is a non-empty string of digits that starts with `0` only for the index 0. |
| Decimal.ParseNatToDecimal | populate_database.py:106 | Reading back the rendered index gives the index. |
| Decimal.NatToDecimalInjective | populate_database.py:106 | Distinct indices render as distinct strings. |
| Decimal.IntToDecimal | populate_database.py:96-97 | A page number renders with a leading `-` exactly when it is negative, followed by the rendering of its magnitude, which has no leading zero. This is Python's `str` of an int. |
| Decimal.IntToDecimalRoundTrip | populate_database.py:96-97 | Reading back a rendered page number gives the number, negative ones included. |
| Reconcile.KeepNew | populate_database.py:73-76 | A chunk is kept exactly when it is in the batch and its id is not among the stored ids. |
| Reconcile.KeepNewIsOrderedSelection | populate_database.py:73-76 | The kept chunks keep input order. Each chunk with a new id is kept as often as it occurs, and no other chunk is kept. |
| Reconcile.KeepNewAppend | populate_database.py:73-76 | Filtering a concatenation filters each part. |
| Reconcile.KeepNewAllNew | populate_database.py:73-76 | A batch none of whose ids is stored passes the filter whole. |
| Reconcile.AllNewIdsHandedOver | populate_database.py:73-81 | When no id of the batch is stored, every chunk is handed over and the ids passed to the store are the batch's ids in order. |
| Reconcile.KeepNewEmptyIff | populate_database.py:73-78 | Nothing is kept exactly when every id of the batch is already stored. |
| Reconcile.IdsOfKeptChunks | populate_database.py:73-81 | The ids handed over are exactly the batch's ids minus the stored ones. |
| Reconcile.SelectNew | populate_database.py:73-80 | The loop builds the filtered batch, and the list comprehension gives the kept chunks' ids in the same order. |
| Reconcile.Ingest | populate_database.py:68-83 | One pass hands over exactly the chunks with new ids, in input order, together with their ids. Afterwards the store holds its old ids plus every id of the batch. Nothing is added exactly when every id was already stored. |
| Reconcile.IngestKeepsMultiplicity | populate_database.py:73-76 | Every chunk whose id is not stored is handed over exactly as often as it occurs in the batch. |
| Reconcile.AddToChroma | populate_database.py:64-83 | Identifying the chunks and running the loop produces the single ingestion pass over the identified batch. |
| Reconcile.SecondPassAddsNothing | populate_database.py:68-83 | Running the same batch again adds nothing and leaves the store unchanged. |
| Reconcile.IngestExtendedBatch | populate_database.py:68-83 | After one batch is ingested, ingesting it again with more chunks appended adds only the new-id chunks of the appended part. |
| Reconcile.AppendedChunksOnlyAdded | populate_database.py:64-83 | The same holds for raw chunks identified afresh: re-running on a longer batch adds only chunks of the appended part. |
| Reconcile.RepeatedIdInOneBatchAddedTwice | populate_database.py:73-81 | The filter checks only the ids stored before the call. A batch A, B, A with new ids hands over three chunks, and the first and last carry the same id. |
| Scrapper.SearchUrl | scrapper.py:5-6 | The URL is the search endpoint followed by the query, with every space replaced by `+` and every other character kept. The URL contains no space. |
| Text.ContainsIff | scrapper.py:18 | `sub in s` holds exactly when `sub` occurs at some position of `s`. |
| Scrapper.IsPdfCandidateIff | scrapper.py:17-18 | An anchor is collected exactly when it has an href and `[PDF]` occurs somewhere in its text or `.pdf` somewhere in its href. |
| Scrapper.Matching | scrapper.py:17-19 | The uncapped candidate list has at most one entry per anchor. Its contents are stated by the three lemmas below. |
| Scrapper.MatchingMembers | scrapper.py:17-19 | A string is a candidate link exactly when some anchor that has an href, and has `[PDF]` in its text or `.pdf` in its href, carries it. |
| Scrapper.MatchingIsSubsequence | scrapper.py:17-19 | The candidate links are an ordered subsequence of the anchors' hrefs. |
| Scrapper.MatchingAppend | scrapper.py:17-19 | The candidates of a concatenation of anchor lists are the candidates of each part, concatenated. |
| Scrapper.FirstMatches | scrapper.py:16-22 | The result is a prefix of the candidate links. It is all of them when there are at most `Cap(max_results)`, and exactly that many otherwise. |
| Scrapper.FirstMatchesMembers | scrapper.py:17-19 | Every returned link is the href of an anchor with `[PDF]` in its text or `.pdf` in its href. |
| Scrapper.FirstMatchesIsSubsequence | scrapper.py:16-22 | The returned links are an ordered subsequence of the anchors' hrefs. |
| Scrapper.FirstMatchesOfPrefix | scrapper.py:19-21 | Once the candidates of a leading part of the page reach the cap, the rest of the page does not affect the result. |
| Scrapper.CollectPdfLinks | scrapper.py:16-22 | The loop returns the first capped candidate links. With `max_results >= 1` it returns at most `max_results` links, and all candidates when there are fewer. With `max_results <= 0` it returns at most one link. |
| Scrapper.ScrapeGoogleScholarPdfs | scrapper.py:4-22 | A status other than 200 gives `[]`. Otherwise the result is the capped candidate links of the fetched page, and never more than `Cap(max_results)` links. |
| ScholarScraper.LooksLikePdfIff | scholar_scraper.py:60 | An href looks like a PDF exactly when its last four characters are `.`, then `p`, `d`, `f` in either case. |
| ScholarScraper.PdfHrefs | scholar_scraper.py:57-61 | A string is returned exactly when it is the href of an anchor (a missing href reads as `''`) and its lower-cased form ends with `.pdf`. The empty href is never returned. |
| ScholarScraper.PdfHrefsIsOrderedSelection | scholar_scraper.py:57-61 | The returned links keep document order. Each PDF-looking href occurs as often as on the page, and nothing else occurs. |
| ScholarScraper.FindPdfLinks | scholar_scraper.py:42-69 | An empty or already visited URL gives `[]` and leaves the state unchanged. Otherwise the URL is recorded before the fetch, a failed fetch gives `[]`, and a fetched page gives its PDF hrefs. The visited set only grows, and every link looks like a PDF. |
| ScholarScraper.SecondVisitYieldsNothing | scholar_scraper.py:46-49 | Asking for the same URL again, whatever the page now holds, yields `[]` and changes nothing. |
| ScholarScraper.PaperUrls | scholar_scraper.py:27-30 | The result URLs, in result order, with at most one per result title. Titles without an `<a>` with an href are skipped. |
| ScholarScraper.PaperUrlsMembers | scholar_scraper.py:27-30 | The crawled URLs are exactly the hrefs of result titles that have an `<a>` with an href. |
| ScholarScraper.PaperUrlsAppend | scholar_scraper.py:27-30 | The URLs of a concatenation of result lists are the URLs of each part, concatenated. |
| ScholarScraper.CrawlAll | scholar_scraper.py:27-32 | Crawling a list of URLs in turn never shrinks the visited set, and every collected link looks like a PDF. |
| ScholarScraper.CrawlAllVisited | scholar_scraper.py:27-49 | After crawling a list, the visited set is the old one plus exactly the non-empty URLs of the list. |
| ScholarScraper.FreshScraperVisitsEachUrl | scholar_scraper.py:13 | A freshly constructed scraper that crawls a list of URLs ends up having visited exactly the non-empty ones. |
| ScholarScraper.RepeatedUrlAddsNothing | scholar_scraper.py:27-49 | A URL that comes again later in the list adds no links and does not change the state. |
| ScholarScraper.ScrapeSearchResults | scholar_scraper.py:15-40 | A failed search-page fetch gives `[]` and an unchanged state. Otherwise the result is the concatenation, in result order, of the crawls of every result URL, each crawl starting from the state the previous one left. |

## Left out

- `clear_database`, `view_chroma_db_contents`, `load_documents` and `main` in populate_database.py are left out: they are filesystem, PDF-loading and command-line I/O.
- `split_documents` is left out: it calls a text splitter whose code is not part of this model. Its output is the input sequence of `CalculateChunkIds`.
- The Chroma client is reduced to the set of ids it holds: embeddings, persistence, `get` and `add_documents`. How the store treats two equal ids inside one insertion call is not modelled. `AddToChroma` simply adds both ids to the set.
- The `print` calls that report counts and progress are left out.
- Only the `source`, `page` and `id` metadata entries of a chunk are modelled, next to its content. Other metadata entries, and page values that are neither an integer nor missing, are not represented.
- The code writes ids into the chunk objects it was given. The model returns a new sequence, so aliasing between the input and output lists is not represented.
- The HTTP requests (headers, timeouts), BeautifulSoup parsing, and the `time.sleep(random.uniform(1, 3))` delays are left out. They are replaced by a `fetch` function parameter that returns the parsed page.
- Scrapper.ScrapeGoogleScholarPdfs: an exception raised by the HTTP request in scrapper.py escapes to the caller. The model's `fetch` is total, so this path is not modelled.
- ScholarScraper.FindPdfLinks: every exception caught by the `try` blocks is modelled as the fetch returning `None`, before any link is collected. An exception part-way through the link loop is not modelled, because none of the loop's own operations raises on a parsed page.
- ScholarScraper.FindPdfLinks: `not url` is modelled as the empty string. A `None` URL cannot arise, because the URLs come from `href` attributes, which are strings.
- ScholarScraper.PdfHrefs: `lower()` is modelled for the ASCII letters only. No other character lowers to `.`, `p`, `d` or `f`, so the `.pdf` suffix test is unaffected.
- The default `max_results=20` of `scrape_google_scholar_pdfs` is left out: Dafny has no default arguments, so callers of `Scrapper.ScrapeGoogleScholarPdfs` always pass the cap.
- The `main` functions of both scrapers are left out: they read console input and print results. That includes the URL quoting in scholar_scraper.py's `main`.
- query_data.py, test_rag.py, main.py, voice_assistant.py and get_embedding_function.py are left out: they call remote models, text-to-speech, PDF extraction and device probing.
