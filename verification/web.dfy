/**
 * What the scrapers see of the web once the HTTP client and the HTML parser
 * have done their work: parsed pages given as data.
 */
module Web {
  import opened Wrappers

  /** An `<a>` element: its text and its `href` attribute, when it has one. */
  datatype Anchor = Anchor(text: string, href: Option<string>)

  /**
   * A parsed page: every `<a>` element in document order, and for every
   * search-result title (`<h3 class="gs_rt">`) the first `<a>` inside it, if any.
   */
  datatype Html = Html(anchors: seq<Anchor>, resultTitles: seq<Option<Anchor>>)

  /** An HTTP response: its status code and its parsed body. */
  datatype Response = Response(status: int, body: Html)
}
