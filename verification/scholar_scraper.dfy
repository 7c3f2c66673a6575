/**
 * `ScholarScraper` (scholar_scraper.py): a crawler that remembers which URLs it
 * has started to crawl, collects the links of a page whose lower-cased href
 * ends in ".pdf", and crawls every result of a search page once.
 *
 * The instance's `visited_urls` set is the whole of its state; it is threaded
 * through the operations as an immutable `Scraper` value.
 */
module ScholarScraper {
  import opened Wrappers
  import opened Seqs
  import opened Text
  import opened Web

  /** A scraper instance: the URLs it has started to crawl. */
  datatype Scraper = Scraper(visited: set<string>)

  /** A freshly constructed scraper has visited nothing. */
  const Initial := Scraper({})

  /** The links one crawl returned and the scraper's state afterwards. */
  datatype Crawl = Crawl(links: seq<string>, scraper: Scraper)

  /** `link.get('href', '')`: a missing href reads as the empty string. */
  function HrefOrEmpty(a: Anchor): string {
    a.href.GetOr("")
  }

  /** `href.lower().endswith('.pdf')`. */
  predicate LooksLikePdf(href: string) {
    EndsWith(ToLower(href), ".pdf")
  }

  /**
   * The suffix test is case-insensitive and exact: the last four characters
   * are '.', then 'p', 'd', 'f' in either case.
   */
  lemma LooksLikePdfIff(href: string)
    ensures LooksLikePdf(href) <==>
              && |href| >= 4
              && href[|href| - 4] == '.'
              && href[|href| - 3] in "pP"
              && href[|href| - 2] in "dD"
              && href[|href| - 1] in "fF"
  {
    var low := ToLower(href);
    if |href| >= 4 {
      assert low[|low| - 4..] == [low[|low| - 4], low[|low| - 3], low[|low| - 2], low[|low| - 1]];
    }
  }

  /** The href of every anchor of a page, in document order. */
  function AllHrefs(anchors: seq<Anchor>): (hrefs: seq<string>)
    ensures |hrefs| == |anchors|
    ensures forall i {:trigger hrefs[i]} :: 0 <= i < |anchors| ==> hrefs[i] == HrefOrEmpty(anchors[i])
  {
    seq(|anchors|, i requires 0 <= i < |anchors| => HrefOrEmpty(anchors[i]))
  }

  /** The links a page yields: the hrefs that look like PDFs, in document order. */
  function PdfHrefs(anchors: seq<Anchor>): (r: seq<string>)
    ensures forall l :: l in r <==> l in AllHrefs(anchors) && LooksLikePdf(l)
    ensures "" !in r
  {
    if anchors == [] then []
    else
      assert AllHrefs(anchors) == [HrefOrEmpty(anchors[0])] + AllHrefs(anchors[1..]);
      (if LooksLikePdf(HrefOrEmpty(anchors[0])) then [HrefOrEmpty(anchors[0])] else []) + PdfHrefs(anchors[1..])
  }

  /**
   * The page's links keep document order and every repetition: each PDF-looking
   * href occurs as often as on the page, and no other string occurs.
   */
  lemma {:induction false} PdfHrefsIsOrderedSelection(anchors: seq<Anchor>)
    ensures IsSubsequence(PdfHrefs(anchors), AllHrefs(anchors))
    ensures forall l :: multiset(PdfHrefs(anchors))[l] == if LooksLikePdf(l) then multiset(AllHrefs(anchors))[l] else 0
  {
    if anchors != [] {
      PdfHrefsIsOrderedSelection(anchors[1..]);
      var h, rest := HrefOrEmpty(anchors[0]), PdfHrefs(anchors[1..]);
      assert AllHrefs(anchors) == [h] + AllHrefs(anchors[1..]);
      if LooksLikePdf(h) {
        assert PdfHrefs(anchors) == [h] + rest;
        assert ([h] + rest)[1..] == rest;
      } else {
        assert PdfHrefs(anchors) == rest;
      }
    }
  }

  /**
   * `find_pdf_links`: an empty URL or one already visited yields nothing and
   * changes nothing; otherwise the URL is recorded before the fetch, and a
   * fetch that fails (`None`) yields no links.
   */
  function FindPdfLinks(s: Scraper, url: string, fetch: string -> Option<Html>): (r: Crawl)
    ensures url == "" || url in s.visited ==> r == Crawl([], s)
    ensures url != "" && url !in s.visited ==> r.scraper.visited == s.visited + {url}
    ensures url != "" && url !in s.visited ==>
              r.links == match fetch(url) case None => [] case Some(page) => PdfHrefs(page.anchors)
    ensures s.visited <= r.scraper.visited
    ensures forall l :: l in r.links ==> LooksLikePdf(l)
  {
    if url == "" || url in s.visited then Crawl([], s)
    else
      var next := Scraper(s.visited + {url});
      match fetch(url)
      case None => Crawl([], next)
      case Some(page) => Crawl(PdfHrefs(page.anchors), next)
  }

  /** Asking the same scraper for the same URL a second time yields nothing. */
  lemma SecondVisitYieldsNothing(s: Scraper, url: string, fetch: string -> Option<Html>, refetch: string -> Option<Html>)
    ensures var first := FindPdfLinks(s, url, fetch);
            FindPdfLinks(first.scraper, url, refetch) == Crawl([], first.scraper)
  {
  }

  /** The URL a search-result title leads to: its anchor's href, when it has both. */
  function TitleUrl(title: Option<Anchor>): Option<string> {
    match title
    case None => None
    case Some(a) => a.href
  }

  /** The URLs of the result titles, in result order, skipping titles without one. */
  function PaperUrls(titles: seq<Option<Anchor>>): (urls: seq<string>)
    ensures |urls| <= |titles|
  {
    if titles == [] then []
    else (match TitleUrl(titles[0]) case None => [] case Some(u) => [u]) + PaperUrls(titles[1..])
  }

  /** The URLs listed are exactly those of the titles that have one. */
  lemma {:induction false} PaperUrlsMembers(titles: seq<Option<Anchor>>)
    ensures forall u :: u in PaperUrls(titles) <==> exists t :: t in titles && TitleUrl(t) == Some(u)
  {
    if titles != [] {
      PaperUrlsMembers(titles[1..]);
      assert forall t :: t in titles <==> t == titles[0] || t in titles[1..];
    }
  }

  /** Taking the URLs of a concatenation takes them of each part. */
  lemma {:induction false} PaperUrlsAppend(a: seq<Option<Anchor>>, b: seq<Option<Anchor>>)
    ensures PaperUrls(a + b) == PaperUrls(a) + PaperUrls(b)
  {
    if a == [] {
      assert a + b == b;
    } else {
      assert (a + b)[0] == a[0];
      assert (a + b)[1..] == a[1..] + b;
      PaperUrlsAppend(a[1..], b);
    }
  }

  /**
   * Crawl each URL in turn, each crawl starting from the state the previous
   * one left, and concatenate the links.
   */
  function CrawlAll(s: Scraper, urls: seq<string>, fetch: string -> Option<Html>): (r: Crawl)
    ensures s.visited <= r.scraper.visited
    ensures forall l :: l in r.links ==> LooksLikePdf(l)
  {
    if urls == [] then Crawl([], s)
    else
      var earlier := CrawlAll(s, urls[..|urls| - 1], fetch);
      var last := FindPdfLinks(earlier.scraper, urls[|urls| - 1], fetch);
      Crawl(earlier.links + last.links, last.scraper)
  }

  /** A crawl records exactly the non-empty URLs it was given, on top of the earlier ones. */
  lemma {:induction false} CrawlAllVisited(s: Scraper, urls: seq<string>, fetch: string -> Option<Html>)
    ensures CrawlAll(s, urls, fetch).scraper.visited == s.visited + (set u | u in urls && u != "")
  {
    if urls != [] {
      var init, x := urls[..|urls| - 1], urls[|urls| - 1];
      CrawlAllVisited(s, init, fetch);
      assert urls == init + [x];
      var earlier := CrawlAll(s, init, fetch).scraper.visited;
      assert CrawlAll(s, urls, fetch).scraper.visited == if x == "" then earlier else earlier + {x};
      assert (set u | u in urls && u != "") == (set u | u in init && u != "") + (if x == "" then {} else {x});
    }
  }

  /**
   * A freshly constructed scraper that crawls a list of URLs ends up having
   * visited exactly the non-empty ones.
   */
  lemma FreshScraperVisitsEachUrl(urls: seq<string>, fetch: string -> Option<Html>)
    ensures CrawlAll(Initial, urls, fetch).scraper.visited == set u | u in urls && u != ""
  {
    CrawlAllVisited(Initial, urls, fetch);
  }

  /**
   * A URL that comes again in the list is not crawled again: it adds no links
   * and leaves the state as it was.
   */
  lemma RepeatedUrlAddsNothing(s: Scraper, urls: seq<string>, u: string, fetch: string -> Option<Html>)
    requires u in urls
    ensures CrawlAll(s, urls + [u], fetch) == CrawlAll(s, urls, fetch)
  {
    CrawlAllVisited(s, urls, fetch);
    assert (urls + [u])[..|urls|] == urls;
  }

  /**
   * `scrape_search_results`: fetch the search page (a failed fetch, `None`,
   * yields nothing), then crawl the URL of every result title that has one,
   * in order, concatenating the links. The search page's own URL is not
   * recorded as visited.
   */
  method ScrapeSearchResults(s: Scraper, searchUrl: string, fetch: string -> Option<Html>) returns (r: Crawl)
    ensures r == match fetch(searchUrl)
                 case None => Crawl([], s)
                 case Some(page) => CrawlAll(s, PaperUrls(page.resultTitles), fetch)
  {
    var page := fetch(searchUrl);
    if page.None? {
      r := Crawl([], s);
    } else {
      var titles := page.value.resultTitles;
      var pdfLinks: seq<string> := [];
      var scraper := s;
      ghost var urls: seq<string> := [];
      var i := 0;
      while i < |titles|
        invariant 0 <= i <= |titles|
        invariant urls == PaperUrls(titles[..i])
        invariant Crawl(pdfLinks, scraper) == CrawlAll(s, urls, fetch)
      {
        var result := titles[i];
        TakeOneMore(titles, i);
        PaperUrlsAppend(titles[..i], [result]);
        if result.Some? && result.value.href.Some? {
          var paperUrl := result.value.href.value;
          assert PaperUrls([result]) == [paperUrl];
          assert (urls + [paperUrl])[..|urls|] == urls;
          var found := FindPdfLinks(scraper, paperUrl, fetch);
          pdfLinks := pdfLinks + found.links;
          scraper := found.scraper;
          urls := urls + [paperUrl];
        } else {
          assert PaperUrls([result]) == [];
          assert PaperUrls(titles[..i + 1]) == urls;
        }
        i := i + 1;
      }
      assert titles[..|titles|] == titles;
      r := Crawl(pdfLinks, scraper);
    }
  }
}
