/** What the eBay scraper (scraper/shop_class.py) reads off a results page:
    the texts its selectors return are parsed into prices and shipping
    costs, price outliers are removed from all five columns at once when
    there are at least 100 titles, and the columns are zipped into
    products. The selectors themselves are not part of this model: a
    `Page` holds the texts they return. */
module Ebay {
  import opened Common
  import opened TextNorm
  import opened Outliers
  import opened PriceText
  import opened Matching
  import opened Search

  /** The texts of the title, price, shipping, location and condition
      elements, in page order. */
  datatype Page = Page(titles: seq<string>, prices: seq<string>, shipping: seq<string>,
                       countries: seq<string>, conditions: seq<string>)

  /** The fields an eBay product carries besides title and price. */
  datatype Extra = Extra(shipping: real, country: string, condition: string)

  /** The five parallel lists remove_outliers takes and returns. */
  datatype Columns = Columns(titles: seq<string>, prices: seq<real>, shipping: seq<real>,
                             countries: seq<string>, conditions: seq<string>)

  predicate Aligned(c: Columns)
  {
    |c.titles| == |c.prices| == |c.shipping| == |c.countries| == |c.conditions|
  }

  /** Outliers are removed only from this many titles on. */
  const RemovalThreshold: nat := 100

  /** The `m` remove_outliers passes to reject_outliers. */
  const OutlierM: real := 1.5

  /** remove_outliers: below the threshold every list is returned as it is;
      otherwise the outlier indices of the prices are dropped from every
      list. */
  function RemoveOutliers(c: Columns): (r: Columns)
    ensures |c.titles| < RemovalThreshold ==> r == c
  {
    if |c.titles| < RemovalThreshold then c
    else
      var idx := RejectOutlierIndices(c.prices, OutlierM);
      Columns(RemoveAt(c.titles, idx), RemoveAt(c.prices, idx), RemoveAt(c.shipping, idx),
              RemoveAt(c.countries, idx), RemoveAt(c.conditions, idx))
  }

  /** Removal in lock-step: equal-length columns stay of equal length, and
      the j-th row of the result is a whole row of the input, one whose
      price is not an outlier, with the rows kept in their order. */
  lemma RemoveOutliersLockStep(c: Columns)
    requires Aligned(c) && |c.titles| >= RemovalThreshold
    ensures var r := RemoveOutliers(c);
      var kept := KeptFrom(|c.prices|, RejectOutlierIndices(c.prices, OutlierM), 0);
      && Aligned(r) && |r.titles| == |kept|
      && (forall j :: 0 <= j < |kept| ==>
            && Scores(c.prices)[kept[j]] < OutlierM
            && r.titles[j] == c.titles[kept[j]] && r.prices[j] == c.prices[kept[j]]
            && r.shipping[j] == c.shipping[kept[j]] && r.countries[j] == c.countries[kept[j]]
            && r.conditions[j] == c.conditions[kept[j]])
      && (forall a, b :: 0 <= a < b < |kept| ==> kept[a] < kept[b])
  {
    var idx := RejectOutlierIndices(c.prices, OutlierM);
    LockStep(c.titles, c.prices, idx);
    LockStep(c.shipping, c.countries, idx);
    LockStep(c.conditions, c.prices, idx);
  }

  /** get_product_country for one text: every "from " deleted. A text
      without "from " comes back unchanged (see also CountryOfLocation). */
  function Country(text: string): (c: string)
    ensures c == text <==> forall i :: 0 <= i <= |text| ==> !OccursAt(text, "from ", i)
  {
    RemoveAllIdentity(text, "from ");
    RemoveAll(text, "from ")
  }

  /** eBay's location text `from <place>` gives the place itself. */
  lemma CountryOfLocation(place: string)
    requires forall i :: 0 <= i <= |place| ==> !OccursAt(place, "from ", i)
    ensures Country("from " + place) == place
  {
    var nothing: string := [];
    assert nothing + "from " + place == "from " + place;
    RemoveAllSkip(nothing, "from ", place);
    RemoveAllIdentity(place, "from ");
  }

  /** `zip(titles, prices, shipping, countries, conditions)`: as many rows as
      the shortest list, the title cleaned after lower-casing. */
  function Zip(c: Columns): (ps: seq<Product<Extra>>)
    ensures |ps| == Min(Min(Min(|c.titles|, |c.prices|), Min(|c.shipping|, |c.countries|)), |c.conditions|)
  {
    var n := Min(Min(Min(|c.titles|, |c.prices|), Min(|c.shipping|, |c.countries|)), |c.conditions|);
    seq(n, i requires 0 <= i < n =>
      Product(CleanText(Lower(c.titles[i])), c.prices[i], Extra(c.shipping[i], c.countries[i], c.conditions[i])))
  }

  /** get_product_info on a page: None when a price or a shipping text has
      no match (the `.group(0)` of a failed search raises). Prices are read
      with the pattern as written (see EbayPrice). */
  function Info(p: Page): Option<seq<Product<Extra>>>
  {
    var prices := MapAll(p.prices, EbayPrice);
    var shipping := MapAll(p.shipping, EbayShipping);
    if prices.None? || shipping.None? then None
    else
      var countries := seq(|p.countries|, i requires 0 <= i < |p.countries| => Country(p.countries[i]));
      Some(Zip(RemoveOutliers(Columns(p.titles, prices.value, shipping.value, countries, p.conditions))))
  }

  /** The page can be read exactly when every price and every shipping text
      parses; then every product title is clean text, every shipping cost
      is non-negative, and there are no more products than titles. */
  lemma InfoProperties(p: Page)
    ensures Info(p).None? <==>
      (exists i :: 0 <= i < |p.prices| && EbayPrice(p.prices[i]).None?) ||
      (exists i :: 0 <= i < |p.shipping| && EbayShipping(p.shipping[i]).None?)
    ensures Info(p).Some? ==>
      && |Info(p).value| <= |p.titles|
      && forall i :: 0 <= i < |Info(p).value| ==> IsClean(Info(p).value[i].title) && Info(p).value[i].extra.shipping >= 0.0
  {
    var prices := MapAll(p.prices, EbayPrice);
    var shipping := MapAll(p.shipping, EbayShipping);
    if prices.Some? && shipping.Some? {
      var countries := seq(|p.countries|, i requires 0 <= i < |p.countries| => Country(p.countries[i]));
      var c := Columns(p.titles, prices.value, shipping.value, countries, p.conditions);
      var r := RemoveOutliers(c);
      RemoveOutliersShorter(c);
      forall i | 0 <= i < |Zip(r)| ensures IsClean(Zip(r)[i].title) && Zip(r)[i].extra.shipping >= 0.0 {
        CleanTextIsClean(Lower(r.titles[i]));
        ShippingSurvives(c, i);
      }
    }
  }

  lemma RemoveOutliersShorter(c: Columns)
    ensures |RemoveOutliers(c).titles| <= |c.titles|
  {
    if |c.titles| >= RemovalThreshold {
      RemoveAtShorter(c.titles, RejectOutlierIndices(c.prices, OutlierM));
    }
  }

  /** Removal only drops shipping costs, so the survivors are still costs
      some text parsed to. */
  lemma ShippingSurvives(c: Columns, i: nat)
    requires forall j :: 0 <= j < |c.shipping| ==> c.shipping[j] >= 0.0
    requires i < |RemoveOutliers(c).shipping|
    ensures RemoveOutliers(c).shipping[i] >= 0.0
  {
    if |c.titles| >= RemovalThreshold {
      var idx := RejectOutlierIndices(c.prices, OutlierM);
      RemoveAtIsKept(c.shipping, idx);
    }
  }

  /** get_product_info as the source writes it: the parsed columns, outliers
      removed, then a loop over the zipped rows appending one product per
      row. */
  method GetProductInfo(p: Page) returns (productInfo: Option<seq<Product<Extra>>>)
    ensures productInfo == Info(p)
  {
    var prices := MapAll(p.prices, EbayPrice);
    var shipping := MapAll(p.shipping, EbayShipping);
    if prices.None? || shipping.None? {
      return None;
    }
    var countries := seq(|p.countries|, i requires 0 <= i < |p.countries| => Country(p.countries[i]));
    var c := RemoveOutliers(Columns(p.titles, prices.value, shipping.value, countries, p.conditions));
    var rows := ZipRows(c);
    return Some(rows);
  }

  /** The loop of get_product_info over the zipped columns, appending one
      product per row. */
  method ZipRows(c: Columns) returns (rows: seq<Product<Extra>>)
    ensures rows == Zip(c)
  {
    var n := Min(Min(Min(|c.titles|, |c.prices|), Min(|c.shipping|, |c.countries|)), |c.conditions|);
    rows := [];
    for i := 0 to n
      invariant rows == Zip(c)[..i]
    {
      rows := rows + [Product(CleanText(Lower(c.titles[i])), c.prices[i],
                              Extra(c.shipping[i], c.countries[i], c.conditions[i]))];
    }
    assert Zip(c)[..n] == Zip(c);
  }

  /** An eBay scraper: its pages are read with Info, and it searches with
      the eBay constants. */
  method NewScraper(fetch: (string, int) -> Page, ratio: (string, string) -> real)
    returns (s: ProductScraper<Page, Extra>)
    ensures s.info == Info && s.config == EbayConfig && s.ratio == ratio && s.fetch == fetch
    ensures fresh(s)
  {
    s := new ProductScraper(fetch, Info, ratio, EbayConfig);
  }

  /** An eBay page raises the ramp-down by at most 3 * 0.05. */
  lemma PageRampDownBound(ps: seq<Product<Extra>>, t: string, rd: real,
                          getSimilarity: (string, string) -> real)
    ensures var r := PageResult(ps, t, EbayConfig, rd, getSimilarity);
      rd <= r.1 <= rd + 0.15
  {
    PageRampDown(ps, t, EbayConfig, rd, getSimilarity);
  }
}
