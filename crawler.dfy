/**
 * `Crawler.crawl_page`: fetch one product page and, when every element it looks
 * up is there, assemble a `ProductData` record from their texts.
 *
 * The HTTP client and the HTML parser are outside the model. A fetch is given
 * as a `Fetch` value, and the parsed page is seen only through the three
 * lookups `crawl_page` makes on it.
 */
module Crawler {
  import opened Wrappers
  import opened PathHierarchy

  /**
   * The record written per product page. The Python dataclass declares
   * `sections` optional, but `crawl_page`, its only producer, always sets it.
   */
  datatype ProductData = ProductData(
    title: string,
    description: string,
    subtitle: string,
    url: string,
    sections: seq<string>)

  /**
   * The `h2.product-description-header` element as `crawl_page` uses it: the
   * text of the first `p` inside the header's parent, if that parent has one.
   */
  datatype DescriptionHeader = DescriptionHeader(parentParagraph: Option<string>)

  /**
   * A parsed product page, seen through its three lookups; `None` where
   * `soup.find` finds nothing, otherwise the element's text.
   */
  datatype Page = Page(
    productName: Option<string>,
    descriptionHeader: Option<DescriptionHeader>,
    subtitle: Option<string>)

  /**
   * What `requests.get(url)` gives: a response with its `ok` flag and its body,
   * or a failure (connection refused, DNS, TLS, ...) that `requests` raises as
   * an exception.
   */
  datatype Fetch = Unreachable | Response(ok: bool, body: Markup)

  /**
   * What `BeautifulSoup(resp.content, 'html.parser')` makes of a body: the
   * parsed page, or markup the parser rejects, which raises outside the `try`.
   */
  datatype Markup = Rejected | Parsed(page: Page)

  /** What a call of `crawl_page` ends in: an exception that escapes it, or a returned value. */
  datatype Outcome = Raised | Returned(product: Option<ProductData>)

  /**
   * Every lookup finds its element: the `h1.product-name`, a paragraph next to
   * the description header, and the `div.product-subtitle`. The texts may be
   * empty; only a missing element fails.
   */
  predicate Complete(page: Page)
  {
    && page.productName.Some?
    && page.descriptionHeader.Some?
    && page.descriptionHeader.value.parentParagraph.Some?
    && page.subtitle.Some?
  }

  /**
   * The response a record is built from: it answered ok, its body parsed, and
   * every lookup finds its element.
   */
  predicate Usable(fetch: Fetch)
  {
    fetch.Response? && fetch.ok && fetch.body.Parsed? && Complete(fetch.body.page)
  }

  /**
   * `crawl_page(url)` with `urlparse(url).path == path` and the fetch `fetch`.
   * A failed request escapes as an exception; a response that is not ok gives
   * `None` before its body is parsed; markup the parser rejects escapes as an
   * exception; a missing element makes `.text`, `.parent` or `.find` raise
   * inside the `try`, whose bare `except` turns it into `None`; otherwise the
   * record holds the three texts, the URL and the URL's path hierarchy.
   */
  function CrawlPage(url: string, path: string, fetch: Fetch): (outcome: Outcome)
    ensures outcome.Raised? <==> fetch.Unreachable? || (fetch.ok && fetch.body.Rejected?)
    ensures fetch.Response? && !fetch.ok ==> outcome == Returned(None)
    ensures outcome.Returned? && outcome.product.Some? <==> Usable(fetch)
    ensures outcome.Returned? && outcome.product.Some? ==>
      var record, page := outcome.product.value, fetch.body.page;
      && record.url == url
      && record.sections == Hierarchy(path)
      && page.productName == Some(record.title)
      && page.descriptionHeader == Some(DescriptionHeader(Some(record.description)))
      && page.subtitle == Some(record.subtitle)
  {
    var sections := Hierarchy(path);
    match fetch
    case Unreachable => Raised
    case Response(ok, body) =>
      if !ok then Returned(None)
      else if body.Rejected? then Raised
      else if !Complete(body.page) then Returned(None)
      else
        var page := body.page;
        Returned(Some(ProductData(
          page.productName.value,
          page.descriptionHeader.value.parentParagraph.value,
          page.subtitle.value,
          url,
          sections)))
  }
}
