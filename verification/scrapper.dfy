/**
 * `scrape_google_scholar_pdfs` (scrapper.py): build the search URL from the
 * query, fetch it, and collect the links that look like PDFs, stopping once
 * `max_results` of them have been collected.
 */
module Scrapper {
  import opened Wrappers
  import opened Seqs
  import opened Text
  import opened Web

  /** The search endpoint; the rewritten query is appended to it. */
  const SearchBase := "https://scholar.google.com/scholar?q="

  /** The only status code whose body is looked at. */
  const OkStatus := 200

  /** The request URL: the query with each space replaced by '+', after the endpoint. */
  function SearchUrl(query: string): (url: string)
    ensures |url| == |SearchBase| + |query|
    ensures url[..|SearchBase|] == SearchBase
    ensures forall i :: 0 <= i < |query| && query[i] != ' ' ==> url[|SearchBase| + i] == query[i]
    ensures forall i :: 0 <= i < |query| && query[i] == ' ' ==> url[|SearchBase| + i] == '+'
    ensures ' ' !in url
  {
    SearchBase + ReplaceChar(query, ' ', '+')
  }

  /** An anchor the loop collects: it has an href, and "[PDF]" is in its text or ".pdf" in its href. */
  predicate IsPdfCandidate(a: Anchor) {
    a.href.Some? && (Contains(a.text, "[PDF]") || Contains(a.href.value, ".pdf"))
  }

  /**
   * The candidate test spelled out: the anchor has an href, and "[PDF]" occurs
   * somewhere in its text or ".pdf" somewhere in its href.
   */
  lemma IsPdfCandidateIff(a: Anchor)
    ensures IsPdfCandidate(a) <==>
              && a.href.Some?
              && ((exists i :: OccursAt(a.text, "[PDF]", i)) || (exists i :: OccursAt(a.href.value, ".pdf", i)))
  {
    ContainsIff(a.text, "[PDF]");
    if a.href.Some? {
      ContainsIff(a.href.value, ".pdf");
    }
  }

  /** The hrefs of the anchors that have one, in document order. */
  function PresentHrefs(anchors: seq<Anchor>): seq<string> {
    if anchors == [] then []
    else (if anchors[0].href.Some? then [anchors[0].href.value] else []) + PresentHrefs(anchors[1..])
  }

  /** The href an anchor contributes: its href when it is a candidate, nothing otherwise. */
  function Hit(a: Anchor): (r: seq<string>)
    ensures |r| <= 1
  {
    if IsPdfCandidate(a) then [a.href.value] else []
  }

  /** The href of every candidate anchor, in document order, without a cap. */
  function Matching(anchors: seq<Anchor>): (r: seq<string>)
    ensures |r| <= |anchors|
  {
    if anchors == [] then [] else Hit(anchors[0]) + Matching(anchors[1..])
  }

  /** A string is a candidate href exactly when some candidate anchor carries it. */
  lemma {:induction false} MatchingMembers(anchors: seq<Anchor>)
    ensures forall l :: l in Matching(anchors) <==> exists a :: a in anchors && IsPdfCandidate(a) && a.href.value == l
  {
    if anchors != [] {
      MatchingMembers(anchors[1..]);
      assert forall a :: a in anchors <==> a == anchors[0] || a in anchors[1..];
    }
  }

  /** The candidates' hrefs are taken from the anchors' hrefs in order. */
  lemma {:induction false} MatchingIsSubsequence(anchors: seq<Anchor>)
    ensures IsSubsequence(Matching(anchors), PresentHrefs(anchors))
  {
    if anchors != [] {
      MatchingIsSubsequence(anchors[1..]);
      var m, p := Matching(anchors[1..]), PresentHrefs(anchors[1..]);
      if anchors[0].href.Some? {
        var h := anchors[0].href.value;
        assert PresentHrefs(anchors) == [h] + p;
        assert ([h] + p)[1..] == p;
        if IsPdfCandidate(anchors[0]) {
          assert Matching(anchors) == [h] + m;
          assert ([h] + m)[1..] == m;
        } else {
          assert Matching(anchors) == m;
        }
      } else {
        assert PresentHrefs(anchors) == p;
        assert Matching(anchors) == m;
      }
    }
  }

  /** Matching distributes over concatenation. */
  lemma {:induction false} MatchingAppend(a: seq<Anchor>, b: seq<Anchor>)
    ensures Matching(a + b) == Matching(a) + Matching(b)
  {
    if a == [] {
      assert a + b == b;
    } else {
      var h := Hit(a[0]);
      assert (a + b)[0] == a[0];
      assert (a + b)[1..] == a[1..] + b;
      assert Matching(a + b) == h + Matching(a[1..] + b);
      MatchingAppend(a[1..], b);
      assert h + (Matching(a[1..]) + Matching(b)) == (h + Matching(a[1..])) + Matching(b);
    }
  }

  /** The number of links after which the loop stops: `max_results`, but at least one. */
  function Cap(maxResults: int): nat {
    if maxResults >= 1 then maxResults else 1
  }

  /** The first `Cap(maxResults)` candidate hrefs, or all of them when there are fewer. */
  function FirstMatches(anchors: seq<Anchor>, maxResults: int): (r: seq<string>)
    ensures r <= Matching(anchors)
    ensures |Matching(anchors)| <= Cap(maxResults) ==> r == Matching(anchors)
    ensures |Matching(anchors)| > Cap(maxResults) ==> |r| == Cap(maxResults)
  {
    var m := Matching(anchors);
    if |m| <= Cap(maxResults) then m else m[..Cap(maxResults)]
  }

  /** Every collected link is the href of a candidate anchor of the page. */
  lemma FirstMatchesMembers(anchors: seq<Anchor>, maxResults: int)
    ensures forall l :: l in FirstMatches(anchors, maxResults) ==>
              exists a :: a in anchors && IsPdfCandidate(a) && a.href.value == l
  {
    var r, m := FirstMatches(anchors, maxResults), Matching(anchors);
    MatchingMembers(anchors);
    forall l | l in r
      ensures l in m
    {
      var j :| 0 <= j < |r| && r[j] == l;
      assert m[j] == l;
    }
  }

  /** The collected links are taken from the anchors' hrefs, in document order. */
  lemma FirstMatchesIsSubsequence(anchors: seq<Anchor>, maxResults: int)
    ensures IsSubsequence(FirstMatches(anchors, maxResults), PresentHrefs(anchors))
  {
    var r, m := FirstMatches(anchors, maxResults), Matching(anchors);
    MatchingIsSubsequence(anchors);
    PrefixOfSubsequence(m, PresentHrefs(anchors), |r|);
    assert m[..|r|] == r;
  }

  /**
   * Once the candidates of a leading part of the page reach the cap, the rest
   * of the page is never looked at.
   */
  lemma FirstMatchesOfPrefix(anchors: seq<Anchor>, n: nat, maxResults: int)
    requires n <= |anchors|
    requires |Matching(anchors[..n])| == Cap(maxResults)
    ensures FirstMatches(anchors, maxResults) == Matching(anchors[..n])
  {
    assert anchors == anchors[..n] + anchors[n..];
    MatchingAppend(anchors[..n], anchors[n..]);
  }

  /**
   * The collecting loop: append each candidate's href and stop as soon as the
   * count reaches `maxResults` (checked only after appending, so a cap below
   * one still lets one link through).
   */
  method CollectPdfLinks(anchors: seq<Anchor>, maxResults: int) returns (links: seq<string>)
    ensures links == FirstMatches(anchors, maxResults)
    ensures maxResults >= 1 ==> |links| <= maxResults
    ensures maxResults <= 0 ==> |links| <= 1
    ensures maxResults >= 1 && |Matching(anchors)| < maxResults ==> links == Matching(anchors)
  {
    links := [];
    var i := 0;
    while i < |anchors|
      invariant 0 <= i <= |anchors|
      invariant links == Matching(anchors[..i])
      invariant |links| < Cap(maxResults)
    {
      var link := anchors[i];
      TakeOneMore(anchors, i);
      MatchingAppend(anchors[..i], [link]);
      assert Matching([link]) == Hit(link) by {
        assert [link][1..] == [];
      }
      if IsPdfCandidate(link) {
        links := links + [link.href.value];
        if |links| >= maxResults {
          FirstMatchesOfPrefix(anchors, i + 1, maxResults);
          break;
        }
      }
      i := i + 1;
    }
    if i == |anchors| {
      assert anchors[..i] == anchors;
    }
  }

  /**
   * `scrape_google_scholar_pdfs`: `fetch` stands for the HTTP GET of the URL
   * and the parse of its body; a status other than 200 gives no links.
   */
  method ScrapeGoogleScholarPdfs(query: string, maxResults: int, fetch: string -> Response) returns (links: seq<string>)
    ensures fetch(SearchUrl(query)).status != OkStatus ==> links == []
    ensures fetch(SearchUrl(query)).status == OkStatus ==>
              links == FirstMatches(fetch(SearchUrl(query)).body.anchors, maxResults)
    ensures |links| <= Cap(maxResults)
  {
    var response := fetch(SearchUrl(query));
    if response.status != OkStatus {
      return [];
    }
    links := CollectPdfLinks(response.body.anchors, maxResults);
  }
}
