/**
 * `download_and_save`: resolve the sitemap's page URLs, keep the product
 * pages, crawl each of them and write every record it returns to the output
 * file as one JSON line.
 *
 * The worker pool is modelled by its observable behaviour: `pool.imap` hands
 * back the outcomes in the order of the URLs, and an exception raised by a
 * call of `crawl_page` is raised again in the loop when its turn comes, which
 * ends the loop. The file is modelled by the text written to it, and
 * `json.dumps(product.__dict__)` by the function `encode`.
 */
module Download {
  import opened Wrappers
  import opened Text
  import opened PathHierarchy
  import opened ProductFilter
  import opened Crawler

  /** The position of the first call that raised, or `|outcomes|` if none did. */
  function FirstRaised(outcomes: seq<Outcome>): (k: nat)
    ensures k <= |outcomes|
    ensures forall i :: 0 <= i < k ==> outcomes[i].Returned?
    ensures k < |outcomes| ==> outcomes[k].Raised?
  {
    if outcomes == [] || outcomes[0].Raised? then 0
    else 1 + FirstRaised(outcomes[1..])
  }

  /** The records among the outcomes, in order: the values of the calls that returned one. */
  function Records(outcomes: seq<Outcome>): (records: seq<ProductData>)
    ensures forall p :: p in records <==> Returned(Some(p)) in outcomes
    ensures |records| <= |outcomes|
  {
    if outcomes == [] then []
    else
      assert outcomes == [outcomes[0]] + outcomes[1..];
      var head := if outcomes[0].Returned? && outcomes[0].product.Some? then [outcomes[0].product.value] else [];
      head + Records(outcomes[1..])
  }

  /** The file's text for these records: each one's JSON followed by a newline. */
  function JsonLines(records: seq<ProductData>, encode: ProductData -> string): (text: string)
  {
    if records == [] then ""
    else encode(records[0]) + "\n" + JsonLines(records[1..], encode)
  }

  /** The JSON texts of the records, one per record. */
  function Encoded(records: seq<ProductData>, encode: ProductData -> string): (lines: seq<string>)
  {
    seq(|records|, i requires 0 <= i < |records| => encode(records[i]))
  }

  /**
   * The loop over `pool.imap(crawler.crawl_page, page_urls)`: each returned
   * record is written with a newline, `None` is skipped, and the first
   * exception ends the loop with the records before it written.
   */
  method Collect(outcomes: seq<Outcome>, encode: ProductData -> string)
    returns (written: string, completed: bool)
    ensures completed <==> FirstRaised(outcomes) == |outcomes|
    ensures written == JsonLines(Records(outcomes[..FirstRaised(outcomes)]), encode)
  {
    written := "";
    var i := 0;
    while i < |outcomes|
      invariant 0 <= i <= |outcomes|
      invariant forall j :: 0 <= j < i ==> outcomes[j].Returned?
      invariant written == JsonLines(Records(outcomes[..i]), encode)
    {
      var outcome := outcomes[i];
      if outcome.Raised? {
        FirstRaisedAt(outcomes, i);
        return written, false;
      }
      RecordsSnoc(outcomes[..i], outcome);
      assert outcomes[..i + 1] == outcomes[..i] + [outcome];
      if outcome.product.Some? {
        JsonLinesAppend(Records(outcomes[..i]), [outcome.product.value], encode);
        written := written + (encode(outcome.product.value) + "\n");
      } else {
        assert Records(outcomes[..i + 1]) == Records(outcomes[..i]);
      }
      i := i + 1;
    }
    FirstRaisedAt(outcomes, i);
    assert outcomes[..i] == outcomes;
    completed := true;
  }

  /** When every call before `i` returned and call `i` raised or there is none, `i` is the first raise. */
  lemma {:induction false} FirstRaisedAt(outcomes: seq<Outcome>, i: nat)
    requires i <= |outcomes|
    requires forall j :: 0 <= j < i ==> outcomes[j].Returned?
    requires i < |outcomes| ==> outcomes[i].Raised?
    ensures FirstRaised(outcomes) == i
  {
    if i > 0 {
      FirstRaisedAt(outcomes[1..], i - 1);
    }
  }

  lemma {:induction false} RecordsAppend(xs: seq<Outcome>, ys: seq<Outcome>)
    ensures Records(xs + ys) == Records(xs) + Records(ys)
  {
    if xs == [] {
      assert xs + ys == ys;
    } else {
      assert (xs + ys)[1..] == xs[1..] + ys;
      RecordsAppend(xs[1..], ys);
    }
  }

  lemma RecordsSnoc(xs: seq<Outcome>, x: Outcome)
    requires x.Returned?
    ensures Records(xs + [x]) == Records(xs) + (if x.product.Some? then [x.product.value] else [])
  {
    RecordsAppend(xs, [x]);
    assert [x][1..] == [];
  }

  lemma {:induction false} JsonLinesAppend(xs: seq<ProductData>, ys: seq<ProductData>, encode: ProductData -> string)
    ensures JsonLines(xs + ys, encode) == JsonLines(xs, encode) + JsonLines(ys, encode)
  {
    if xs == [] {
      assert xs + ys == ys;
    } else {
      assert (xs + ys)[1..] == xs[1..] + ys;
      JsonLinesAppend(xs[1..], ys, encode);
    }
  }

  /** The file's text is the records' JSON texts joined by newlines, with a final newline. */
  lemma {:induction false} JsonLinesAsJoin(records: seq<ProductData>, encode: ProductData -> string)
    ensures JsonLines(records, encode) == Join(Encoded(records, encode) + [""], '\n')
  {
    if records != [] {
      JsonLinesAsJoin(records[1..], encode);
      var lines := Encoded(records, encode) + [""];
      assert lines[1..] == Encoded(records[1..], encode) + [""];
    }
  }

  /**
   * Reading the file back line by line: as long as no JSON text holds a raw
   * newline (which `json.dumps` escapes), splitting the text on newlines gives
   * one JSON text per record, in order, then the empty rest after the last
   * newline.
   */
  lemma ReadBack(records: seq<ProductData>, encode: ProductData -> string)
    requires forall p :: '\n' !in encode(p)
    ensures Split(JsonLines(records, encode), '\n') == Encoded(records, encode) + [""]
  {
    JsonLinesAsJoin(records, encode);
    SplitJoin(Encoded(records, encode) + [""], '\n');
  }

  /** `[urljoin(page_url, page.url) for page in pages]`, with `urljoin(page_url, .)` given as `resolve`. */
  function Resolved(pages: seq<string>, resolve: string -> string): (urls: seq<string>)
  {
    seq(|pages|, i requires 0 <= i < |pages| => resolve(pages[i]))
  }

  /**
   * The outcomes of `pool.imap(crawler.crawl_page, urls)` in the order of
   * `urls`: each URL crawled with its path and the response fetched for it.
   */
  function Crawled(urls: seq<string>, pathOf: string -> string, fetch: string -> Fetch): (outcomes: seq<Outcome>)
  {
    seq(|urls|, i requires 0 <= i < |urls| => CrawlPage(urls[i], pathOf(urls[i]), fetch(urls[i])))
  }

  /** A record among the first `k` outcomes is among all of them. */
  lemma RecordsOfPrefix(outcomes: seq<Outcome>, k: nat, p: ProductData)
    requires k <= |outcomes| && p in Records(outcomes[..k])
    ensures p in Records(outcomes)
  {
    assert outcomes == outcomes[..k] + outcomes[k..];
    RecordsAppend(outcomes[..k], outcomes[k..]);
  }

  /**
   * Every record crawled from a list of URLs carries one of those URLs and the
   * path hierarchy of that URL, and its page answered ok, parsed, and had every
   * element present.
   */
  lemma {:induction false} RecordsProvenance(urls: seq<string>, pathOf: string -> string, fetch: string -> Fetch, p: ProductData)
    requires p in Records(Crawled(urls, pathOf, fetch))
    ensures p.url in urls
    ensures p.sections == Hierarchy(pathOf(p.url))
    ensures Usable(fetch(p.url))
  {
    var outcomes := Crawled(urls, pathOf, fetch);
    var i :| 0 <= i < |outcomes| && outcomes[i] == Returned(Some(p));
    assert outcomes[i] == CrawlPage(urls[i], pathOf(urls[i]), fetch(urls[i]));
  }

  /**
   * `download_and_save` from the resolved sitemap on: the page URLs are
   * resolved one by one, filtered to product pages, crawled in order, and the
   * records written until the first exception.
   */
  method DownloadAndSave(
    pages: seq<string>,
    resolve: string -> string,
    pathOf: string -> string,
    fetch: string -> Fetch,
    encode: ProductData -> string)
    returns (written: string, completed: bool)
    ensures var outcomes := Crawled(FilterProductUrls(Resolved(pages, resolve)), pathOf, fetch);
      && (completed <==> FirstRaised(outcomes) == |outcomes|)
      && written == JsonLines(Records(outcomes[..FirstRaised(outcomes)]), encode)
  {
    var pageUrls: seq<string> := [];
    for i := 0 to |pages|
      invariant pageUrls == Resolved(pages[..i], resolve)
    {
      assert pages[..i + 1][..i] == pages[..i];
      pageUrls := pageUrls + [resolve(pages[i])];
    }
    assert pages[..|pages|] == pages;
    pageUrls := FilterProductUrls(pageUrls);
    var outcomes := Crawled(pageUrls, pathOf, fetch);
    written, completed := Collect(outcomes, encode);
  }

  /**
   * What ends up in the file: every record written is for a product URL
   * resolved from the sitemap, carries that URL's path hierarchy, and comes
   * from a page that answered ok, parsed, and had every element present.
   */
  lemma WrittenRecordsAreProductPages(
    pages: seq<string>,
    resolve: string -> string,
    pathOf: string -> string,
    fetch: string -> Fetch,
    p: ProductData)
    requires var outcomes := Crawled(FilterProductUrls(Resolved(pages, resolve)), pathOf, fetch);
      p in Records(outcomes[..FirstRaised(outcomes)])
    ensures p.url in Resolved(pages, resolve) && IsProductUrl(p.url)
    ensures p.sections == Hierarchy(pathOf(p.url))
    ensures Usable(fetch(p.url))
  {
    var resolved := Resolved(pages, resolve);
    var urls := FilterProductUrls(resolved);
    var outcomes := Crawled(urls, pathOf, fetch);
    RecordsOfPrefix(outcomes, FirstRaised(outcomes), p);
    RecordsProvenance(urls, pathOf, fetch, p);
    assert p.url in urls;
  }
}
