# A verified model of the mamaearth product-page scraper

The scraper in `site_search/crawler-mamaearth.py` reads the sitemap of one
shop. It keeps the product-page URLs, fetches each page and reads three texts
from it: the product name, the description and the subtitle. It writes one
JSON line per product. This project models the logic of that scraper that is
not library plumbing:

- `get_path_hierarchy` (module `PathHierarchy`) turns a URL path into its
  cumulative prefixes, the record's `sections`. The spec function `Hierarchy`
  says what the result means. The method `GetPathHierarchy` is the Python code,
  with the loop and its `prefix` accumulator in `AccumulatePrefixes`, proved
  equal to `Hierarchy`.
- The product-URL filter (module `ProductFilter`) keeps URLs containing
  `/product/` and not containing `reviews`, in their original order.
- `Crawler.crawl_page` (module `Crawler`) decides between a record and `None`
  (or an escaping exception). The HTTP response and the three DOM lookups are
  inputs to it.
- The collection loop of `download_and_save` (module `Download`) writes the
  records in the order `pool.imap` returns them and skips `None`. The first
  exception ends it. The function `DownloadAndSave` composes everything from
  the resolved sitemap on.
- Module `Text` models the Python string operations the code uses:
  `str.strip` and `str.split` on one character, and the substring test `in`.
  It also defines `Join` (the inverse of `split`, and the shape of the loop's
  `prefix`) and `Count` (the slashes in a path), which the code does not call
  but which the properties are stated in.

Points where the code's behaviour differs from what a reader might expect:

- A non-empty path made only of slashes, such as `"/"`, is not caught by
  `if not path`. Stripping it leaves `""`, and `"".split("/")` is `[""]`, so the
  result is `[""]` and not `[]` (`AllSlashPath`).
- The docstring's "Output example" shows `["/foo", "/foo/bar"]`, but the
  doctests and the code give `['foo', 'foo/bar']`. The model follows the doctests.
- The filtered URL list keeps the sitemap's order and any duplicates. Records
  are written in URL order, because `imap` returns results in input order.
- A failed request is not caught in `crawl_page`, and neither is markup the
  HTML parser rejects (`BeautifulSoup(...)` runs before the `try`). The
  exception propagates through `imap` and ends the writing loop
  (`Outcome.Raised`, `Collect` returns `completed == false`). It does not skip
  the URL.
- Texts are taken as `.text` gives them. Nothing trims them, and an empty text
  still yields a record.

## Model

| member | source | states |
|---|---|---|
| `PathHierarchy.GetPathHierarchy` | site_search/crawler-mamaearth.py:49-57 | the empty-path check, then strip, split and the loop, returns exactly `Hierarchy(path)` |
| `PathHierarchy.AccumulatePrefixes` | site_search/crawler-mamaearth.py:51-56 | the loop that grows `prefix` by a segment, appends it and adds `/` returns the cumulative joins of the segments, `Prefixes(segs)` |
| `PathHierarchy.Hierarchy` | site_search/crawler-mamaearth.py:49-50 | the result is empty exactly when the path is empty; every non-empty path, even `"/"`, gives at least one section |
| `PathHierarchy.Segments` | site_search/crawler-mamaearth.py:53 | `path.strip('/').split('/')` always has at least one segment |
| `PathHierarchy.HierarchyLength` | site_search/crawler-mamaearth.py:49-56 | a non-empty path has one section per `/` left after stripping, plus one |
| `PathHierarchy.SectionAt` | site_search/crawler-mamaearth.py:51-56 | for a non-empty path there are as many sections as segments, and section `k` is segments `0..k` joined by `/` |
| `PathHierarchy.HierarchyChain` | site_search/crawler-mamaearth.py:51-56 | section 0 is segment 0; section `k+1` is section `k`, `/` and segment `k+1`; the last section is the whole stripped path |
| `PathHierarchy.AllSlashPath` | site_search/crawler-mamaearth.py:49-53 | a non-empty path of slashes only, like `"/"`, gives `[""]` |
| `PathHierarchy.SectionsAreCuts` | site_search/crawler-mamaearth.py:51-56 | each section is a prefix of the stripped path that ends at its end or just before a `/`, and section `k` holds exactly `k` slashes |
| `PathHierarchy.CutsAreSections` | site_search/crawler-mamaearth.py:51-56 | conversely, the stripped path cut before any of its slashes, or not cut at all, is a section |
| `PathHierarchy.DocExampleLeadingSlash` | site_search/crawler-mamaearth.py:34-35 | `"/foo/bar"` gives `["foo", "foo/bar"]` |
| `PathHierarchy.DocExampleBare` | site_search/crawler-mamaearth.py:37-38 | `"foo"` gives `["foo"]` |
| `PathHierarchy.DocExampleBothSlashes` | site_search/crawler-mamaearth.py:40-41 | `"/foo/"` gives `["foo"]` |
| `PathHierarchy.DocExampleTrailingSlash` | site_search/crawler-mamaearth.py:43-44 | `"foo/bar/"` gives `["foo", "foo/bar"]` |
| `Text.TrimStartShape` | site_search/crawler-mamaearth.py:53 | the leading half of `strip('/')`: the result is a suffix of the input, everything dropped is the character, and the result does not start with it |
| `Text.TrimEndShape` | site_search/crawler-mamaearth.py:53 | the trailing half of `strip('/')`: the result is a prefix of the input, everything dropped is the character, and the result does not end with it |
| `Text.StripShape` | site_search/crawler-mamaearth.py:53 | `strip` leaves no `/` at either end, and leaves nothing exactly when the input is all `/` |
| `Text.Split` | site_search/crawler-mamaearth.py:53 | `split('/')` always gives at least one piece, even for the empty text |
| `Text.SplitSepFree` | site_search/crawler-mamaearth.py:53 | no piece of `split('/')` contains `/` |
| `Text.JoinSplit` | site_search/crawler-mamaearth.py:53 | joining the pieces of `split` with the separator gives back the text |
| `Text.SplitJoin` | site_search/crawler-mamaearth.py:53 | splitting the join of separator-free pieces gives back the pieces |
| `Text.SplitCount` | site_search/crawler-mamaearth.py:53 | `split` gives one more piece than the text has separators |
| `Text.JoinCount` | site_search/crawler-mamaearth.py:54-56 | a `prefix` built from `n` slash-free segments holds `n - 1` slashes |
| `Text.ContainsAt` | site_search/crawler-mamaearth.py:145 | the recursive substring test holds exactly when the needle occurs at some offset |
| `Text.ContainsFrom` | site_search/crawler-mamaearth.py:145 | an occurrence at a given offset makes the substring test hold |
| `Text.MissingCharNotContained` | site_search/crawler-mamaearth.py:145 | a needle with a character the text lacks is not contained in it |
| `ProductFilter.FilterProductUrls` | site_search/crawler-mamaearth.py:145 | a URL is kept exactly when it is in the input and contains `/product/` and not `reviews`; each kept URL is kept as often as it occurs |
| `ProductFilter.FilterIsSubsequence` | site_search/crawler-mamaearth.py:145 | the kept URLs sit in the input at strictly increasing positions: an order-preserving subsequence |
| `ProductFilter.FilterAppend` | site_search/crawler-mamaearth.py:145 | filtering a concatenation is concatenating the filtered parts |
| `ProductFilter.FilterIdempotent` | site_search/crawler-mamaearth.py:145 | filtering twice equals filtering once |
| `ProductFilter.FilterScenario` | site_search/crawler-mamaearth.py:145 | of `https://x/product/a`, `https://x/other` and `https://x/product/b/reviews` only the first is kept |
| `Crawler.CrawlPage` | site_search/crawler-mamaearth.py:102-128 | an exception escapes exactly when the request fails or an ok response's markup is rejected by the parser; a response that is not ok gives `None`; a record comes back exactly when the response is ok, parses, and all three lookups find their element, whatever their texts; the record holds those texts, the input URL and the URL path's `Hierarchy` |
| `Download.Collect` | site_search/crawler-mamaearth.py:148-152 | the loop completes exactly when no call raised, and the file holds one JSON line per non-`None` result before the first raise, in input order |
| `Download.FirstRaised` | site_search/crawler-mamaearth.py:149 | the position where the loop stops: every earlier call returned and the call there raised |
| `Download.Records` | site_search/crawler-mamaearth.py:150 | a record is among the written ones exactly when some call returned it |
| `Download.JsonLinesAsJoin` | site_search/crawler-mamaearth.py:151-152 | the file is the JSON texts joined by newlines, with a final newline |
| `Download.ReadBack` | site_search/crawler-mamaearth.py:151-152 | if no JSON text contains a raw newline, splitting the file on newlines gives back each record's JSON, in order, then `""` |
| `Download.RecordsProvenance` | site_search/crawler-mamaearth.py:104-128 | every record crawled from a URL list carries one of those URLs and its path hierarchy, and its page answered ok, parsed, and had every element present |
| `Download.DownloadAndSave` | site_search/crawler-mamaearth.py:139-152 | resolve, filter, crawl in order, then write: the result is `Collect` applied to the crawled outcomes of the filtered resolved URLs |
| `Download.WrittenRecordsAreProductPages` | site_search/crawler-mamaearth.py:140-152 | every written record's URL is a resolved sitemap URL that passes the product filter, its sections are that URL's path hierarchy, and its page answered ok, parsed, and had all elements present |

## Left out

- `urlparse` (site_search/crawler-mamaearth.py:47-48) is not modelled. The model
  takes the path it extracts as an input: `path` in `CrawlPage` and `pathOf` in
  `DownloadAndSave`. The `ValueError` that `urlparse` raises for a malformed
  bracketed host is not modelled either.
- `Crawler.download_sitemap` is a wrapper over the sitemap library and the
  network. The model starts from the list of page URLs it returns.
- `urljoin` is the `resolve` parameter. It is resolution of a URL reference
  under section 5.2 of RFC 3986, done by the standard library.
- `Download.DownloadAndSave`: `resolve` is total, so the `ValueError` that
  `urljoin` (site_search/crawler-mamaearth.py:142) raises for a malformed
  bracketed host, which would end `download_and_save` before any page is
  crawled and leave the output file empty, is not modelled.
- `Crawler.CrawlPage`: when and why `html.parser` rejects markup is not
  modelled. The `Markup` value of a response says whether it was rejected;
  the model only fixes what `crawl_page` does in each case.
- `Crawler.CrawlPage`: `requests.get(url)` (site_search/crawler-mamaearth.py:106)
  has no timeout, so a server that accepts the connection but never answers
  blocks the call, and through `imap` the writing loop, forever. The model
  assumes every request ends, in `Unreachable` or a `Response`, so
  `Download.Collect` and `Download.DownloadAndSave` always end, completed or
  stopped by an exception.
- `requests.get`, `BeautifulSoup` and `soup.find` are foreign libraries. They
  appear only as the `Fetch`, `Markup` and `Page` values: an `ok` flag,
  parsed or rejected markup, optional elements and their texts.
- A `fetch` parameter of type `string -> Fetch` gives each URL's response. A
  URL listed twice therefore gets the same response both times.
- The `soup is None` branch is not modelled. `BeautifulSoup(...)` never
  returns `None`, so that branch cannot run.
- The `print` in the `except` branch is a log message and is not modelled.
- The worker pool and `tqdm` are not modelled. Only the in-order stream of
  outcomes that `imap` hands back is. Concurrency is not modelled, and neither
  is calls after a raising one continuing in the pool.
- `json.dumps` is the `encode` parameter. The model also leaves out opening
  the file under `DATA_DIR` and the `write` calls themselves. The file is the
  text that `Collect` returns.
- `dump_data` and `selector_soup` are not modelled. Neither is called by the
  scraping flow.
- The `Crawler` fields `site`, `split_lines`, `relative_urls` and `pages` are
  not modelled. Neither are `HEADER_TAGS` and the `content_selector` parameter.
  `crawl_page` reads none of them, so the model has no `Crawler` class.
- `Crawler.ProductData`: `sections` is a sequence, not an optional one,
  because `crawl_page` always sets it.
