/**
 * The product-page filter of `download_and_save`: of the resolved sitemap URLs,
 * keep those that contain `/product/` and do not contain `reviews`, in order
 * (`list(filter(lambda x: ..., page_urls))`).
 */
module ProductFilter {
  import opened Text

  /** The filter's lambda: a substring test on the whole URL, not just its path. */
  predicate IsProductUrl(url: string)
  {
    Contains(url, "/product/") && !Contains(url, "reviews")
  }

  /** `list(filter(IsProductUrl, urls))`. */
  function FilterProductUrls(urls: seq<string>): (kept: seq<string>)
    ensures forall u :: u in kept <==> u in urls && IsProductUrl(u)
    ensures forall u :: multiset(kept)[u] == if IsProductUrl(u) then multiset(urls)[u] else 0
  {
    if urls == [] then []
    else
      assert urls == [urls[0]] + urls[1..];
      (if IsProductUrl(urls[0]) then [urls[0]] else []) + FilterProductUrls(urls[1..])
  }

  /** `xs` is `ys` with elements dropped: `xs[j]` sits at position `idx[j]` of `ys`, in increasing order. */
  ghost predicate SubsequenceVia<T>(xs: seq<T>, ys: seq<T>, idx: seq<nat>)
  {
    && |idx| == |xs|
    && (forall j :: 0 <= j < |idx| ==> idx[j] < |ys| && ys[idx[j]] == xs[j])
    && (forall j, l :: 0 <= j < l < |idx| ==> idx[j] < idx[l])
  }

  /** Positions one further along. */
  function Shift(idx: seq<nat>): (r: seq<nat>)
    ensures |r| == |idx| && forall j :: 0 <= j < |idx| ==> r[j] == idx[j] + 1
  {
    seq(|idx|, j requires 0 <= j < |idx| => idx[j] + 1)
  }

  /** The positions of the URLs the filter keeps. */
  ghost function KeptPositions(urls: seq<string>): (idx: seq<nat>)
  {
    if urls == [] then []
    else (if IsProductUrl(urls[0]) then [0] else []) + Shift(KeptPositions(urls[1..]))
  }

  /** A subsequence of the tail of `ys` is one of `ys`, with or without `ys[0]` in front. */
  lemma SubsequenceOfTail<T>(xs: seq<T>, ys: seq<T>, idx: seq<nat>)
    requires |ys| >= 1 && SubsequenceVia(xs, ys[1..], idx)
    ensures SubsequenceVia(xs, ys, Shift(idx))
    ensures SubsequenceVia([ys[0]] + xs, ys, [0] + Shift(idx))
  {
    var s := Shift(idx);
    assert forall j :: 0 <= j < |s| ==> ys[s[j]] == ys[1..][idx[j]];
    var s', xs' := [0] + s, [ys[0]] + xs;
    assert forall j :: 1 <= j < |s'| ==> s'[j] == s[j - 1] && xs'[j] == xs[j - 1];
  }

  /** The filter keeps URLs in their original order: its output is a subsequence of its input. */
  lemma {:induction false} FilterIsSubsequence(urls: seq<string>)
    ensures SubsequenceVia(FilterProductUrls(urls), urls, KeptPositions(urls))
  {
    if urls != [] {
      FilterIsSubsequence(urls[1..]);
      SubsequenceOfTail(FilterProductUrls(urls[1..]), urls, KeptPositions(urls[1..]));
    }
  }

  /** Filtering a concatenation filters each part. */
  lemma {:induction false} FilterAppend(xs: seq<string>, ys: seq<string>)
    ensures FilterProductUrls(xs + ys) == FilterProductUrls(xs) + FilterProductUrls(ys)
  {
    if xs == [] {
      assert xs + ys == ys;
    } else {
      assert (xs + ys)[1..] == xs[1..] + ys;
      FilterAppend(xs[1..], ys);
    }
  }

  /** Filtering twice is filtering once. */
  lemma {:induction false} FilterIdempotent(urls: seq<string>)
    ensures FilterProductUrls(FilterProductUrls(urls)) == FilterProductUrls(urls)
  {
    if urls != [] {
      FilterIdempotent(urls[1..]);
      var head := if IsProductUrl(urls[0]) then [urls[0]] else [];
      FilterAppend(head, FilterProductUrls(urls[1..]));
      if IsProductUrl(urls[0]) {
        assert FilterProductUrls(head) == head by {
          assert head[1..] == [];
        }
      }
    }
  }

  /**
   * Of a product page, an unrelated page and a product-review page, only the
   * product page survives.
   */
  lemma FilterScenario()
    ensures FilterProductUrls(["https://x/product/a", "https://x/other", "https://x/product/b/reviews"])
      == ["https://x/product/a"]
  {
    ProductPageKept();
    OtherPageDropped();
    ReviewPageDropped();
    FilterOfThree("https://x/product/a", "https://x/other", "https://x/product/b/reviews");
  }

  lemma FilterOfThree(a: string, b: string, c: string)
    requires IsProductUrl(a) && !IsProductUrl(b) && !IsProductUrl(c)
    ensures FilterProductUrls([a, b, c]) == [a]
  {
    assert [a, b, c][1..] == [b, c] && [b, c][1..] == [c] && [c][1..] == [];
  }

  lemma ProductPageKept()
    ensures IsProductUrl("https://x/product/a")
  {
    ContainsFrom("https://x/product/a", "/product/", 9);
    MissingCharNotContained("https://x/product/a", "reviews", 'v');
  }

  lemma OtherPageDropped()
    ensures !IsProductUrl("https://x/other")
  {
    MissingCharNotContained("https://x/other", "/product/", 'd');
  }

  lemma ReviewPageDropped()
    ensures !IsProductUrl("https://x/product/b/reviews")
  {
    ContainsFrom("https://x/product/b/reviews", "reviews", 20);
  }
}
