/** What the Google Shopping scraper (scraper/shopping_class.py) reads off a
    results page: prices parsed from their texts, links stripped of the
    redirect prefix, price outliers removed from all three columns at once
    (always, with m = 1.25), and the columns zipped into products. A `Page`
    holds the texts and hrefs the selectors return. */
module GoogleShopping {
  import opened Common
  import opened TextNorm
  import opened Outliers
  import opened PriceText
  import opened Matching
  import opened Search

  /** The texts of the title and price elements and the href of each
      title's link, in page order. */
  datatype Page = Page(titles: seq<string>, prices: seq<string>, hrefs: seq<string>)

  /** The three parallel lists remove_outliers takes and returns. */
  datatype Columns = Columns(titles: seq<string>, prices: seq<real>, urls: seq<string>)

  predicate Aligned(c: Columns)
  {
    |c.titles| == |c.prices| == |c.urls|
  }

  /** The `m` remove_outliers passes to reject_outliers. */
  const OutlierM: real := 1.25

  /** remove_outliers: the outlier indices of the prices dropped from every
      list. */
  function RemoveOutliers(c: Columns): Columns
  {
    var idx := RejectOutlierIndices(c.prices, OutlierM);
    Columns(RemoveAt(c.titles, idx), RemoveAt(c.prices, idx), RemoveAt(c.urls, idx))
  }

  /** Removal in lock-step: equal-length columns stay of equal length, and
      the j-th row of the result is a whole row of the input, one whose
      price is not an outlier, with the rows kept in their order. */
  lemma RemoveOutliersLockStep(c: Columns)
    requires Aligned(c)
    ensures var r := RemoveOutliers(c);
      var kept := KeptFrom(|c.prices|, RejectOutlierIndices(c.prices, OutlierM), 0);
      && Aligned(r) && |r.titles| == |kept|
      && (forall j :: 0 <= j < |kept| ==>
            && Scores(c.prices)[kept[j]] < OutlierM
            && r.titles[j] == c.titles[kept[j]] && r.prices[j] == c.prices[kept[j]]
            && r.urls[j] == c.urls[kept[j]])
      && (forall a, b :: 0 <= a < b < |kept| ==> kept[a] < kept[b])
  {
    var idx := RejectOutlierIndices(c.prices, OutlierM);
    LockStep(c.titles, c.prices, idx);
    LockStep(c.urls, c.prices, idx);
  }

  /** A page whose prices are all equal loses nothing. */
  lemma RemoveOutliersConstant(c: Columns)
    requires forall i :: 0 <= i < |c.prices| ==> c.prices[i] == c.prices[0]
    ensures RemoveOutliers(c) == c
  {
    RejectOutliersConstant(c.prices, OutlierM);
    NothingRemoved(c.titles);
    NothingRemoved(c.prices);
    NothingRemoved(c.urls);
  }

  lemma NothingRemoved<T>(xs: seq<T>)
    ensures RemoveAt(xs, []) == xs
  {
    NothingRemovedFrom(xs, 0);
    assert xs[0..] == xs;
  }

  lemma {:induction false} NothingRemovedFrom<T>(xs: seq<T>, k: nat)
    ensures RemoveFrom(xs, [], k) == if k <= |xs| then xs[k..] else []
    decreases |xs| - k
  {
    if k < |xs| {
      NothingRemovedFrom(xs, k + 1);
      assert xs[k..] == [xs[k]] + xs[k + 1..];
    }
  }

  /** `zip(titles, prices, urls)`: as many rows as the shortest list, the
      title cleaned after lower-casing. */
  function Zip(c: Columns): (ps: seq<Product<string>>)
    ensures |ps| == Min(Min(|c.titles|, |c.prices|), |c.urls|)
  {
    var n := Min(Min(|c.titles|, |c.prices|), |c.urls|);
    seq(n, i requires 0 <= i < n => Product(CleanText(Lower(c.titles[i])), c.prices[i], c.urls[i]))
  }

  /** get_product_info on a page: None when some price text holds no
      number (`float('')` raises). */
  function Info(p: Page): Option<seq<Product<string>>>
  {
    var prices := MapAll(p.prices, ShoppingPrice);
    if prices.None? then None
    else
      var urls := seq(|p.hrefs|, i requires 0 <= i < |p.hrefs| => ProductUrl(p.hrefs[i]));
      Some(Zip(RemoveOutliers(Columns(p.titles, prices.value, urls))))
  }

  /** The page can be read exactly when every price text parses; then every
      product title is clean text, and there are no more products than
      titles. */
  lemma InfoProperties(p: Page)
    ensures Info(p).None? <==> exists i :: 0 <= i < |p.prices| && ShoppingPrice(p.prices[i]).None?
    ensures Info(p).Some? ==>
      && |Info(p).value| <= |p.titles|
      && forall i :: 0 <= i < |Info(p).value| ==> IsClean(Info(p).value[i].title)
  {
    var prices := MapAll(p.prices, ShoppingPrice);
    if prices.Some? {
      var urls := seq(|p.hrefs|, i requires 0 <= i < |p.hrefs| => ProductUrl(p.hrefs[i]));
      var c := Columns(p.titles, prices.value, urls);
      var r := RemoveOutliers(c);
      var idx := RejectOutlierIndices(c.prices, OutlierM);
      RemoveAtShorter(c.titles, idx);
      forall i | 0 <= i < |Zip(r)| ensures IsClean(Zip(r)[i].title) {
        CleanTextIsClean(Lower(r.titles[i]));
      }
    }
  }

  /** get_product_info as the source writes it: the parsed columns, outliers
      removed, then a loop over the zipped rows appending one product per
      row. */
  method GetProductInfo(p: Page) returns (productInfo: Option<seq<Product<string>>>)
    ensures productInfo == Info(p)
  {
    var prices := MapAll(p.prices, ShoppingPrice);
    if prices.None? {
      return None;
    }
    var urls := seq(|p.hrefs|, i requires 0 <= i < |p.hrefs| => ProductUrl(p.hrefs[i]));
    var c := RemoveOutliers(Columns(p.titles, prices.value, urls));
    var rows := ZipRows(c);
    return Some(rows);
  }

  /** The loop of get_product_info over the zipped columns, appending one
      product per row. */
  method ZipRows(c: Columns) returns (rows: seq<Product<string>>)
    ensures rows == Zip(c)
  {
    var n := Min(Min(|c.titles|, |c.prices|), |c.urls|);
    rows := [];
    for i := 0 to n
      invariant rows == Zip(c)[..i]
    {
      rows := rows + [Product(CleanText(Lower(c.titles[i])), c.prices[i], c.urls[i])];
    }
    assert Zip(c)[..n] == Zip(c);
  }

  /** A Google Shopping scraper: its pages are read with Info, and it
      searches with the Google Shopping constants. */
  method NewScraper(fetch: (string, int) -> Page, ratio: (string, string) -> real)
    returns (s: ProductScraper<Page, string>)
    ensures s.info == Info && s.config == ShoppingConfig && s.ratio == ratio && s.fetch == fetch
    ensures fresh(s)
  {
    s := new ProductScraper(fetch, Info, ratio, ShoppingConfig);
  }

  /** A Google Shopping page raises the ramp-down by at most 6 * 0.05. */
  lemma PageRampDownBound(ps: seq<Product<string>>, t: string, rd: real,
                          getSimilarity: (string, string) -> real)
    ensures var r := PageResult(ps, t, ShoppingConfig, rd, getSimilarity);
      rd <= r.1 <= rd + 0.30
  {
    PageRampDown(ps, t, ShoppingConfig, rd, getSimilarity);
  }
}
