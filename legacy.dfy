/** The command-line price check of scraper.py: the sentiment score of a
    listing description, the unclamped price rating, the Google Shopping
    prices of one results page filtered by similarity to the listing title,
    the uncapped relaxation of the similarity threshold on that page, and
    the check that a URL belongs to Facebook. Its clean_listing_title and
    clean_title_description are character for character the
    remove_illegal_characters and clean_text of scraper/utils.py and are
    modelled once, in TextNorm; its reject_outliers is
    Outliers.RejectOutlierValues. */
module Legacy {
  import opened Common
  import opened TextNorm
  import opened SimilarityKey
  import opened Outliers
  import opened PriceText
  import opened OrderedDict
  import opened Rating
  import Search

  // ---------------------------------------------------------------------
  // sentiment_analysis, after the VADER call
  // ---------------------------------------------------------------------

  /** The rating made of the four VADER scores: five times the larger of
      `pos` and `compound` for a positive compound score, five times the
      smaller of `neg` and `compound` for a negative one, five times `neu`
      otherwise, as an absolute value. */
  function SentimentRating(neg: real, neu: real, pos: real, compound: real): (r: real)
    ensures r >= 0.0
    ensures r == 5.0 * RMax(pos, compound) || r == -5.0 * RMin(neg, compound) || r == 5.0 * neu || r == -5.0 * neu
  {
    var rating :=
      if compound > 0.0 then 5.0 * RMax(pos, compound)
      else if compound < 0.0 then 5.0 * RMin(neg, compound)
      else 5.0 * neu;
    Abs(rating)
  }

  /** The ranges VADER's polarity scores lie in. */
  predicate VaderScores(neg: real, neu: real, pos: real, compound: real)
  {
    0.0 <= neg <= 1.0 && 0.0 <= neu <= 1.0 && 0.0 <= pos <= 1.0 && -1.0 <= compound <= 1.0
  }

  /** On VADER's ranges the rating lies in [0,5]. A negative compound score
      is never above `neg`, so the rating is five times its magnitude: a
      strongly negative description rates as high as a strongly positive
      one. */
  lemma SentimentScale(neg: real, neu: real, pos: real, compound: real)
    requires VaderScores(neg, neu, pos, compound)
    ensures SentimentRating(neg, neu, pos, compound) <= 5.0
    ensures compound < 0.0 ==> SentimentRating(neg, neu, pos, compound) == -5.0 * compound
    ensures compound > 0.0 ==> SentimentRating(neg, neu, pos, compound) >= 5.0 * compound
  {
  }

  // ---------------------------------------------------------------------
  // price_difference_rating
  // ---------------------------------------------------------------------

  /** The older rating: 5 when the listing is no dearer than the market
      price, otherwise the smaller price over the larger, over 20, times
      100, with no clamp. None when the division raises: the larger price
      is 0, which needs a listing price of 0 and a negative market price. */
  function PriceDifferenceRatingLegacy(initial: real, final: real): (r: Option<real>)
    ensures r.None? <==> initial == 0.0 && final < 0.0
    ensures initial <= final ==> r == Some(5.0)
  {
    if initial <= final then Some(5.0)
    else
      var smaller := RMin(initial, final);
      var larger := RMax(initial, final);
      if larger == 0.0 then None else Some(smaller / larger / 20.0 * 100.0)
  }

  /** Above the market price the older rating is five times the market
      price over the listing price: in [0,5) for a positive listing price
      and a non-negative market price, above 5 when both are negative. */
  lemma LegacyRatingRatio(initial: real, final: real)
    requires final < initial && initial != 0.0
    ensures PriceDifferenceRatingLegacy(initial, final) == Some(5.0 * final / initial)
    ensures 0.0 <= final ==> 0.0 <= PriceDifferenceRatingLegacy(initial, final).value < 5.0
    ensures initial < 0.0 ==> PriceDifferenceRatingLegacy(initial, final).value > 5.0
  {
    assert final / initial / 20.0 * 100.0 == 5.0 * final / initial;
    if 0.0 <= final {
      DivBetween(final, initial);
      assert final / initial != 1.0 by {
        assert final / initial * initial == final;
      }
    }
    if initial < 0.0 {
      assert final / initial == (-final) / (-initial);
      DivAboveOne(-final, -initial);
    }
  }

  lemma DivAboveOne(a: real, b: real)
    requires a > b > 0.0
    ensures a / b > 1.0
  {
    assert a / b * b == a;
  }

  /** The two versions of the rating agree whenever the market price is
      non-negative and below the listing price. */
  lemma LegacyRatingAgrees(initial: real, final: real)
    requires 0.0 <= final < initial
    ensures PriceDifferenceRatingLegacy(initial, final) == PriceDifferenceRating(initial, final)
  {
    LegacyRatingRatio(initial, final);
    PriceDifferenceRatingProportional(initial, final);
  }

  // ---------------------------------------------------------------------
  // get_product_price and listing_product_similarity
  // ---------------------------------------------------------------------

  /** The `m` get_product_price passes to reject_outliers (its default). */
  const OutlierM: real := 1.5

  /** get_product_price on the texts of the price spans: each parsed as a
      Google Shopping price, then the outlier values dropped. None when some
      text holds no number. */
  function ProductPrices(texts: seq<string>): (r: Option<seq<real>>)
    ensures r.None? <==> exists i :: 0 <= i < |texts| && ShoppingPrice(texts[i]).None?
    ensures r.Some? ==> |r.value| <= |texts|
  {
    match MapAll(texts, ShoppingPrice)
    case None => None
    case Some(values) =>
      RejectOutlierValuesIsRemoval(values, OutlierM);
      RemoveAtShorter(values, RejectOutlierIndices(values, OutlierM));
      Some(RejectOutlierValues(values, OutlierM))
  }

  /** The texts of the product description elements and of the price spans
      on a results page. */
  datatype Page = Page(descriptions: seq<string>, prices: seq<string>)

  /** The similarity of a description to the listing title: both
      lower-cased, then cleaned. */
  function DescriptionSimilarity(description: string, title: string,
                                 ratio: (string, string) -> real): real
  {
    ratio(CleanText(Lower(description)), CleanText(Lower(title)))
  }

  /** The assignments `price_description[key.text] = [value, similarity]`
      over `zip(description, normalized)`, in order. */
  function Scored(descriptions: seq<string>, prices: seq<real>, title: string,
                  ratio: (string, string) -> real): (kvs: seq<(string, (real, real))>)
    ensures |kvs| == Min(|descriptions|, |prices|)
    ensures forall i :: 0 <= i < |kvs| ==>
      kvs[i] == (descriptions[i], (prices[i], DescriptionSimilarity(descriptions[i], title, ratio)))
  {
    var n := Min(|descriptions|, |prices|);
    seq(n, i requires 0 <= i < n =>
      (descriptions[i], (prices[i], DescriptionSimilarity(descriptions[i], title, ratio))))
  }

  /** The prices stored under `keys`, in their order, whose similarity
      reaches the threshold. */
  function PricesAtLeast(d: Dict<(real, real)>, keys: seq<string>, threshold: real): (r: seq<real>)
    requires forall i :: 0 <= i < |keys| ==> keys[i] in d.vals
    ensures |r| <= |keys|
  {
    if keys == [] then []
    else
      var k := keys[|keys| - 1];
      PricesAtLeast(d, keys[..|keys| - 1], threshold) + (if d.vals[k].1 >= threshold then [d.vals[k].0] else [])
  }

  /** What listing_product_similarity returns once the prices are parsed:
      the prices in the dict's order whose similarity reaches the
      threshold. */
  function ListingPrices(descriptions: seq<string>, prices: seq<real>, title: string, threshold: real,
                         ratio: (string, string) -> real): seq<real>
  {
    var d := Build(Scored(descriptions, prices, title, ratio));
    PricesAtLeast(d, d.keys, threshold)
  }

  /** listing_product_similarity as the source writes it: a dict filled
      over the zipped descriptions and prices, then a list of the prices
      whose similarity reaches the threshold. None when a price text does
      not parse. */
  method ListingProductSimilarity(page: Page, title: string, threshold: real,
                                  ratio: (string, string) -> real)
    returns (prices: Option<seq<real>>)
    ensures prices.None? <==> ProductPrices(page.prices).None?
    ensures prices.Some? ==>
      prices.value == ListingPrices(page.descriptions, ProductPrices(page.prices).value, title, threshold, ratio)
  {
    var normalized := ProductPrices(page.prices);
    if normalized.None? {
      return None;
    }
    var priceDescription := FillPriceDescription(page.descriptions, normalized.value, title, ratio);
    var result := PricesAbove(priceDescription, threshold);
    return Some(result);
  }

  /** The first loop of listing_product_similarity: over the zipped
      descriptions and prices, store each description's price and
      similarity, a repeated description overwriting the earlier entry in
      its place. */
  method FillPriceDescription(description: seq<string>, values: seq<real>, title: string,
                              ratio: (string, string) -> real)
    returns (priceDescription: Dict<(real, real)>)
    ensures priceDescription == Build(Scored(description, values, title, ratio))
  {
    ghost var kvs := Scored(description, values, title, ratio);
    priceDescription := Empty();
    for i := 0 to Min(|description|, |values|)
      invariant priceDescription == Build(kvs[..i])
    {
      var googleShoppingTitle := CleanText(Lower(description[i]));
      var listingTitle := CleanText(Lower(title));
      var similarity := ratio(googleShoppingTitle, listingTitle);
      assert kvs[i] == (description[i], (values[i], similarity));
      BuildSnoc(kvs, i + 1);
      priceDescription := Put(priceDescription, description[i], (values[i], similarity));
    }
    assert kvs[..|kvs|] == kvs;
  }

  /** The second loop of listing_product_similarity: over the dict's
      entries in order, collect the prices whose similarity reaches the
      threshold. */
  method PricesAbove(priceDescription: Dict<(real, real)>, threshold: real) returns (result: seq<real>)
    requires Valid(priceDescription)
    ensures result == PricesAtLeast(priceDescription, priceDescription.keys, threshold)
  {
    result := [];
    for j := 0 to |priceDescription.keys|
      invariant result == PricesAtLeast(priceDescription, priceDescription.keys[..j], threshold)
    {
      var key := priceDescription.keys[j];
      assert priceDescription.keys[..j + 1][..j] == priceDescription.keys[..j];
      if priceDescription.vals[key].1 >= threshold {
        result := result + [priceDescription.vals[key].0];
      }
    }
    assert priceDescription.keys[..|priceDescription.keys|] == priceDescription.keys;
  }

  lemma {:induction false} PricesAtLeastMember(d: Dict<(real, real)>, keys: seq<string>, threshold: real, i: nat)
    requires forall j :: 0 <= j < |keys| ==> keys[j] in d.vals
    requires i < |keys| && d.vals[keys[i]].1 >= threshold
    ensures d.vals[keys[i]].0 in PricesAtLeast(d, keys, threshold)
  {
    if i < |keys| - 1 {
      PricesAtLeastMember(d, keys[..|keys| - 1], threshold, i);
    }
  }

  lemma {:induction false} PricesAtLeastSource(d: Dict<(real, real)>, keys: seq<string>, threshold: real, p: real)
    requires forall j :: 0 <= j < |keys| ==> keys[j] in d.vals
    requires p in PricesAtLeast(d, keys, threshold)
    ensures exists j :: 0 <= j < |keys| && d.vals[keys[j]] == (p, d.vals[keys[j]].1) && d.vals[keys[j]].1 >= threshold
  {
    var k := keys[|keys| - 1];
    var front := PricesAtLeast(d, keys[..|keys| - 1], threshold);
    if p in front {
      PricesAtLeastSource(d, keys[..|keys| - 1], threshold, p);
      var j :| 0 <= j < |keys| - 1 && d.vals[keys[..|keys| - 1][j]] == (p, d.vals[keys[..|keys| - 1][j]].1)
               && d.vals[keys[..|keys| - 1][j]].1 >= threshold;
      assert keys[..|keys| - 1][j] == keys[j];
    } else {
      assert d.vals[keys[|keys| - 1]] == (p, d.vals[keys[|keys| - 1]].1);
    }
  }

  /** Every price returned is the price of a zipped row whose description
      scored at least the threshold; the result is never longer than the
      shorter of the two lists. */
  lemma {:induction false} ListingPricesSound(descriptions: seq<string>, prices: seq<real>, title: string, threshold: real,
                           ratio: (string, string) -> real)
    ensures var r := ListingPrices(descriptions, prices, title, threshold, ratio);
      && |r| <= Min(|descriptions|, |prices|)
      && forall p :: p in r ==>
           exists i :: 0 <= i < Min(|descriptions|, |prices|) && prices[i] == p
             && DescriptionSimilarity(descriptions[i], title, ratio) >= threshold
  {
    var kvs := Scored(descriptions, prices, title, ratio);
    BuildKeysBound(kvs);
    forall p | p in ListingPrices(descriptions, prices, title, threshold, ratio)
      ensures exists i :: 0 <= i < Min(|descriptions|, |prices|) && prices[i] == p
                && DescriptionSimilarity(descriptions[i], title, ratio) >= threshold
    {
      ListedPriceOrigin(descriptions, prices, title, threshold, ratio, p);
    }
  }

  /** One returned price traced back to its zipped row. */
  lemma ListedPriceOrigin(descriptions: seq<string>, prices: seq<real>, title: string, threshold: real,
                          ratio: (string, string) -> real, p: real)
    requires p in ListingPrices(descriptions, prices, title, threshold, ratio)
    ensures exists i :: 0 <= i < Min(|descriptions|, |prices|) && prices[i] == p
              && DescriptionSimilarity(descriptions[i], title, ratio) >= threshold
  {
    var kvs := Scored(descriptions, prices, title, ratio);
    var d := Build(kvs);
    assert p in PricesAtLeast(d, d.keys, threshold);
    PricesAtLeastSource(d, d.keys, threshold, p);
    var j :| 0 <= j < |d.keys| && d.vals[d.keys[j]] == (p, d.vals[d.keys[j]].1) && d.vals[d.keys[j]].1 >= threshold;
    var k := d.keys[j];
    BuildValueOrigin(kvs, k);
    var i :| 0 <= i < |kvs| && kvs[i] == (k, d.vals[k]);
    assert kvs[i] == (descriptions[i], (prices[i], DescriptionSimilarity(descriptions[i], title, ratio)));
    assert 0 <= i < Min(|descriptions|, |prices|) && prices[i] == p
      && DescriptionSimilarity(descriptions[i], title, ratio) >= threshold;
  }

  /** The price of the last row carrying a description is returned when
      that row's similarity reaches the threshold. */
  lemma {:induction false} ListingPricesComplete(descriptions: seq<string>, prices: seq<real>, title: string, threshold: real,
                              ratio: (string, string) -> real, i: nat)
    requires i < Min(|descriptions|, |prices|)
    requires forall j :: i < j < Min(|descriptions|, |prices|) ==> descriptions[j] != descriptions[i]
    requires DescriptionSimilarity(descriptions[i], title, ratio) >= threshold
    ensures prices[i] in ListingPrices(descriptions, prices, title, threshold, ratio)
  {
    var kvs := Scored(descriptions, prices, title, ratio);
    var d := Build(kvs);
    BuildContents(kvs);
    assert kvs[i].0 in d.vals;
    var j :| 0 <= j < |d.keys| && d.keys[j] == descriptions[i];
    PricesAtLeastMember(d, d.keys, threshold, j);
  }

  /** At a threshold of 0 or below every row passes, so a page with at
      least one zipped row yields a price. */
  lemma ListingPricesAllPass(descriptions: seq<string>, prices: seq<real>, title: string, threshold: real,
                             ratio: (string, string) -> real)
    requires UnitRange(ratio) && Min(|descriptions|, |prices|) > 0
    ensures threshold <= 0.0 ==> ListingPrices(descriptions, prices, title, threshold, ratio) != []
  {
    if threshold <= 0.0 {
      ListingPricesComplete(descriptions, prices, title, threshold, ratio, Min(|descriptions|, |prices|) - 1);
    }
  }

  /** A key of a built dict holds the value of one of the assignments to
      it. */
  lemma {:induction false} BuildValueOrigin<V>(kvs: seq<(string, V)>, k: string)
    requires k in Build(kvs).vals
    ensures exists i :: 0 <= i < |kvs| && kvs[i] == (k, Build(kvs).vals[k])
  {
    var front := kvs[..|kvs| - 1];
    var last := kvs[|kvs| - 1];
    if k != last.0 {
      BuildValueOrigin(front, k);
      var i :| 0 <= i < |front| && front[i] == (k, Build(front).vals[k]);
      assert kvs[i] == front[i];
    }
  }

  // ---------------------------------------------------------------------
  // find_viable_product
  // ---------------------------------------------------------------------

  /** The starting similarity threshold. */
  const Threshold: real := 0.45

  /** How many more relaxations can leave the threshold above 0. */
  function StepsLeft(threshold: real, rd: real): nat
  {
    if threshold - rd <= 0.0 then 0 else ((threshold - rd) / Search.Step).Floor as nat + 1
  }

  lemma StepsLeftDecreases(threshold: real, rd: real)
    requires threshold - (rd + Search.Step) > 0.0
    ensures StepsLeft(threshold, rd + Search.Step) < StepsLeft(threshold, rd)
  {
    var y := (threshold - rd) / Search.Step;
    assert (threshold - (rd + Search.Step)) / Search.Step == y - 1.0;
  }

  /** The prices one fetched page yields at each threshold. */
  function PageListing(descriptions: seq<string>, prices: seq<real>, title: string,
                       ratio: (string, string) -> real): real -> seq<real>
  {
    threshold => ListingPrices(descriptions, prices, title, threshold, ratio)
  }

  /** A page that yields some price once the threshold is 0 or below. */
  ghost predicate EndsByZero(listing: real -> seq<real>)
  {
    forall threshold :: threshold <= 0.0 ==> listing(threshold) != []
  }

  /** A page with at least one zipped row ends the relaxation. */
  lemma PageEndsByZero(descriptions: seq<string>, prices: seq<real>, title: string,
                       ratio: (string, string) -> real)
    requires UnitRange(ratio) && Min(|descriptions|, |prices|) > 0
    ensures EndsByZero(PageListing(descriptions, prices, title, ratio))
  {
    forall threshold | threshold <= 0.0
      ensures PageListing(descriptions, prices, title, ratio)(threshold) != []
    {
      ListingPricesAllPass(descriptions, prices, title, threshold, ratio);
    }
  }

  /** A page that parses but has no zipped row yields no price at any
      threshold, so the relaxation loop never ends on it. */
  lemma EmptyPageNeverSettles(descriptions: seq<string>, prices: seq<real>, title: string,
                              ratio: (string, string) -> real)
    requires Min(|descriptions|, |prices|) == 0
    ensures forall threshold :: PageListing(descriptions, prices, title, ratio)(threshold) == []
    ensures !EndsByZero(PageListing(descriptions, prices, title, ratio))
  {
    var kvs := Scored(descriptions, prices, title, ratio);
    assert kvs == [];
    assert Build(kvs).keys == [];
    assert PageListing(descriptions, prices, title, ratio)(0.0) == [];
  }

  /** On a page that parses, the relaxation ends exactly when the page has
      a zipped row. */
  lemma TerminatesExactly(page: Page, title: string, ratio: (string, string) -> real)
    requires UnitRange(ratio) && ProductPrices(page.prices).Some?
    ensures Terminates(page) <==>
      EndsByZero(PageListing(page.descriptions, ProductPrices(page.prices).value, title, ratio))
  {
    var values := ProductPrices(page.prices).value;
    if Min(|page.descriptions|, |values|) > 0 {
      PageEndsByZero(page.descriptions, values, title, ratio);
    } else {
      EmptyPageNeverSettles(page.descriptions, values, title, ratio);
    }
  }

  /** The `while len(prices) == 0` loop: raise the ramp-down by 0.05,
      filter the same page again at the lowered threshold, and stop as soon
      as a price survives. Gives the prices and the final ramp-down. */
  function Relax(listing: real -> seq<real>, rd: real): (r: (seq<real>, real))
    requires EndsByZero(listing)
    ensures r.0 != []
    decreases StepsLeft(Threshold, rd)
  {
    var rd' := rd + Search.Step;
    var found := listing(Threshold - rd');
    if found != [] then (found, rd')
    else
      StepsLeftDecreases(Threshold, rd);
      Relax(listing, rd')
  }

  /** The source ends only on pages that parse and have at least one zipped
      row; on a parsed page without one the relaxation loop never stops
      (TerminatesExactly). */
  predicate Terminates(page: Page)
  {
    ProductPrices(page.prices).Some? ==> Min(|page.descriptions|, |ProductPrices(page.prices).value|) > 0
  }

  /** The relaxation with a stop: None once the threshold has reached 0
      and the page still yields nothing, as the class scrapers give up
      after a bounded number of relaxations. */
  function RelaxBounded(listing: real -> seq<real>, rd: real): (r: Option<(seq<real>, real)>)
    ensures r.Some? ==> r.value.0 != [] && r.value.0 == listing(Threshold - r.value.1)
    ensures r.None? ==> listing(Threshold - (rd + Search.Step)) == []
    decreases StepsLeft(Threshold, rd)
  {
    var rd' := rd + Search.Step;
    var found := listing(Threshold - rd');
    if found != [] then Some((found, rd'))
    else if Threshold - rd' <= 0.0 then None
    else
      StepsLeftDecreases(Threshold, rd);
      RelaxBounded(listing, rd')
  }

  /** Wherever the unbounded relaxation ends, the bounded one gives the
      same prices and ramp-down. */
  lemma {:induction false} RelaxBoundedAgrees(listing: real -> seq<real>, rd: real)
    requires EndsByZero(listing)
    ensures RelaxBounded(listing, rd) == Some(Relax(listing, rd))
    decreases StepsLeft(Threshold, rd)
  {
    var rd' := rd + Search.Step;
    if listing(Threshold - rd') == [] {
      assert Threshold - rd' > 0.0;
      StepsLeftDecreases(Threshold, rd);
      RelaxBoundedAgrees(listing, rd');
    }
  }

  /** On a parsed page without a zipped row, the bounded relaxation gives
      up instead of looping. */
  lemma {:induction false} RelaxBoundedEmptyPage(descriptions: seq<string>, prices: seq<real>, title: string,
                                                 ratio: (string, string) -> real, rd: real)
    requires Min(|descriptions|, |prices|) == 0
    ensures RelaxBounded(PageListing(descriptions, prices, title, ratio), rd) == None
    decreases StepsLeft(Threshold, rd)
  {
    var listing := PageListing(descriptions, prices, title, ratio);
    var rd' := rd + Search.Step;
    EmptyPageNeverSettles(descriptions, prices, title, ratio);
    assert listing(Threshold - rd') == [];
    if Threshold - rd' > 0.0 {
      StepsLeftDecreases(Threshold, rd);
      RelaxBoundedEmptyPage(descriptions, prices, title, ratio, rd');
    }
  }

  /** The prices find_viable_product settles on for a page and the
      ramp-down it ends with: the prices at 0.45 when there are any, the
      relaxation's otherwise. */
  function Settle(listing: real -> seq<real>, rd: real): (r: (seq<real>, real))
    requires EndsByZero(listing)
    ensures r.0 != []
  {
    if listing(Threshold) != [] then (listing(Threshold), rd) else Relax(listing, rd)
  }

  /** Settle on a fetched page; None when a price text does not parse. */
  function ViablePrices(page: Page, title: string, rd: real, ratio: (string, string) -> real)
    : (r: Option<(seq<real>, real)>)
    requires UnitRange(ratio) && Terminates(page)
    ensures r.None? <==> ProductPrices(page.prices).None?
    ensures r.Some? ==> r.value.0 != []
  {
    match ProductPrices(page.prices)
    case None => None
    case Some(values) =>
      PageEndsByZero(page.descriptions, values, title, ratio);
      Some(Settle(PageListing(page.descriptions, values, title, ratio), rd))
  }

  /** The smallest element. */
  function SeqMin(s: seq<real>): (m: real)
    requires s != []
    ensures m in s && forall x :: x in s ==> m <= x
  {
    if |s| == 1 then s[0]
    else
      var rest := SeqMin(s[1..]);
      assert forall x :: x in s ==> x == s[0] || x in s[1..];
      if s[0] <= rest then s[0] else rest
  }

  /** The largest element. */
  function SeqMax(s: seq<real>): (m: real)
    requires s != []
    ensures m in s && forall x :: x in s ==> x <= m
  {
    if |s| == 1 then s[0]
    else
      var rest := SeqMax(s[1..]);
      assert forall x :: x in s ==> x == s[0] || x in s[1..];
      if s[0] >= rest then s[0] else rest
  }

  /** find_viable_product: escape the title, fetch its results page once,
      filter at 0.45 and, when nothing survives, relax on the same page
      until something does; then the smallest, the largest and the grouped
      median of the surviving prices. Fetching the page and
      statistics.median_grouped are parameters. */
  method FindViableProduct(title: string, rampDown: real, fetch: string -> Page,
                           ratio: (string, string) -> real, medianGrouped: seq<real> -> real)
    returns (result: Option<(real, real, real)>)
    requires UnitRange(ratio) && Terminates(fetch(RemoveIllegalCharacters(title)))
    ensures var v := ViablePrices(fetch(RemoveIllegalCharacters(title)), RemoveIllegalCharacters(title), rampDown, ratio);
      && (result.None? <==> v.None?)
      && (result.Some? ==> result.value == (SeqMin(v.value.0), SeqMax(v.value.0), medianGrouped(v.value.0)))
  {
    var t := RemoveIllegalCharacters(title);
    var page := fetch(t);
    var similarityThreshold := Threshold;
    var listed := ListingProductSimilarity(page, t, similarityThreshold, ratio);
    if listed.None? {
      return None;
    }
    ghost var values := ProductPrices(page.prices).value;
    ghost var listing := PageListing(page.descriptions, values, t, ratio);
    PageEndsByZero(page.descriptions, values, t, ratio);
    assert ViablePrices(page, t, rampDown, ratio) == Some(Settle(listing, rampDown));
    var prices := listed.value;
    assert prices == listing(Threshold);
    if prices == [] {
      var rdFinal;
      prices, rdFinal := RampDown(page, t, ratio, rampDown, listing);
    }
    var median := medianGrouped(prices);
    return Some((SeqMin(prices), SeqMax(prices), median));
  }

  /** The `while len(prices) == 0` loop of find_viable_product, entered
      when nothing survived at 0.45: the prices it ends with and the
      ramp-down. */
  method RampDown(page: Page, t: string, ratio: (string, string) -> real, rampDown: real,
                  ghost listing: real -> seq<real>)
    returns (prices: seq<real>, rd: real)
    requires ProductPrices(page.prices).Some? && EndsByZero(listing)
    requires listing == PageListing(page.descriptions, ProductPrices(page.prices).value, t, ratio)
    ensures (prices, rd) == Relax(listing, rampDown)
  {
    var similarityThreshold := Threshold;
    prices := [];
    rd := rampDown;
    while prices == []
      invariant prices == [] ==> Relax(listing, rd) == Relax(listing, rampDown)
      invariant prices != [] ==> (prices, rd) == Relax(listing, rampDown)
      decreases if prices == [] then StepsLeft(Threshold, rd) + 1 else 0
    {
      RelaxStep(listing, rd);
      rd := rd + Search.Step;
      var listed := ListingProductSimilarity(page, t, similarityThreshold - rd, ratio);
      prices := listed.value;
      assert prices == listing(Threshold - rd);
    }
  }

  /** One round of the relaxation: it stops at the next step when that
      threshold yields prices, and otherwise goes on from there with fewer
      steps left. */
  lemma RelaxStep(listing: real -> seq<real>, rd: real)
    requires EndsByZero(listing)
    ensures var rd' := rd + Search.Step;
      && (listing(Threshold - rd') != [] ==> Relax(listing, rd) == (listing(Threshold - rd'), rd'))
      && (listing(Threshold - rd') == [] ==>
            Relax(listing, rd) == Relax(listing, rd') && StepsLeft(Threshold, rd') < StepsLeft(Threshold, rd))
  {
    var rd' := rd + Search.Step;
    if listing(Threshold - rd') == [] {
      StepsLeftDecreases(Threshold, rd);
    }
  }

  /** The relaxation raises the ramp-down by a whole number of steps, at
      least one, and stops by the time the threshold reaches 0: the
      ramp-down ends at most a step above the larger of its start and 0.45.
      The prices it settles on are the page's at the final threshold. */
  lemma {:induction false} RelaxBounds(listing: real -> seq<real>, rd: real)
    requires EndsByZero(listing)
    ensures var r := Relax(listing, rd);
      && (exists k: nat :: k >= 1 && r.1 == rd + Search.Steps(k))
      && r.1 <= RMax(rd, Threshold) + Search.Step
      && r.0 == listing(Threshold - r.1)
    decreases StepsLeft(Threshold, rd)
  {
    var rd' := rd + Search.Step;
    if listing(Threshold - rd') != [] {
      assert rd' == rd + Search.Steps(1);
    } else {
      StepsLeftDecreases(Threshold, rd);
      RelaxBounds(listing, rd');
      var k: nat :| k >= 1 && Relax(listing, rd').1 == rd' + Search.Steps(k);
      assert rd' + Search.Steps(k) == rd + Search.Steps(k + 1);
    }
  }

  /** The threshold the prices were last filtered at, for a search that
      started at ramp-down `rd` and ended at `rd'`: the first filter uses
      0.45 whatever the ramp-down, each relaxation 0.45 less the ramp-down
      so far. */
  function FinalThreshold(rd: real, rd': real): real
  {
    if rd' == rd then Threshold else Threshold - rd'
  }

  /** The prices settled on are the page's at the final threshold, and the
      ramp-down only grows, by a whole number of steps, and ends at most a
      step above the larger of its start and 0.45. */
  lemma SettleBounds(listing: real -> seq<real>, rd: real)
    requires EndsByZero(listing)
    ensures var r := Settle(listing, rd);
      && (exists k: nat :: r.1 == rd + Search.Steps(k))
      && rd <= r.1 <= RMax(rd, Threshold) + Search.Step
      && r.0 == listing(FinalThreshold(rd, r.1))
  {
    if listing(Threshold) != [] {
      assert rd == rd + Search.Steps(0);
    } else {
      RelaxBounds(listing, rd);
    }
  }

  /** What find_viable_product reports on a page: the lower bound is at
      most the upper bound, and every price behind them is the price of a
      zipped row whose description reached the final threshold. */
  lemma ViablePricesSound(page: Page, title: string, rd: real, ratio: (string, string) -> real)
    requires UnitRange(ratio) && Terminates(page)
    ensures var v := ViablePrices(page, title, rd, ratio);
      v.Some? ==>
        && SeqMin(v.value.0) <= SeqMax(v.value.0)
        && rd <= v.value.1
        && forall p :: p in v.value.0 ==>
             exists i :: 0 <= i < Min(|page.descriptions|, |ProductPrices(page.prices).value|)
               && ProductPrices(page.prices).value[i] == p
               && DescriptionSimilarity(page.descriptions[i], title, ratio) >= FinalThreshold(rd, v.value.1)
  {
    var v := ViablePrices(page, title, rd, ratio);
    if v.Some? {
      var values := ProductPrices(page.prices).value;
      var listing := PageListing(page.descriptions, values, title, ratio);
      PageEndsByZero(page.descriptions, values, title, ratio);
      assert v.value == Settle(listing, rd);
      SettleBounds(listing, rd);
      ListingPricesSound(page.descriptions, values, title, FinalThreshold(rd, v.value.1), ratio);
    }
  }

  // ---------------------------------------------------------------------
  // valid_url
  // ---------------------------------------------------------------------

  const FacebookPrefix: string := "https://www.facebook.com/"

  /** `re.search(r"^https://www.facebook.com/", url)` as written: the two
      unescaped dots match any character but a newline. */
  predicate ValidUrlAsWritten(url: string)
  {
    && |url| >= |FacebookPrefix|
    && forall i :: 0 <= i < |FacebookPrefix| ==>
         if FacebookPrefix[i] == '.' then url[i] != '\n' else url[i] == FacebookPrefix[i]
  }

  /** The evidently intended check: the URL starts with
      `https://www.facebook.com/`. */
  predicate ValidUrl(url: string)
  {
    FacebookPrefix <= url
  }

  /** The pattern as written accepts a look-alike host. */
  lemma ValidUrlAsWrittenAcceptsLookalike()
    ensures ValidUrlAsWritten("https://wwwXfacebookYcom/") && !ValidUrl("https://wwwXfacebookYcom/")
  {
    var url := "https://wwwXfacebookYcom/";
    assert url[11] != FacebookPrefix[11];
  }

  /** The corrected check accepts exactly the URLs the pattern accepts
      whose characters at the two dots are dots. */
  lemma ValidUrlNarrows(url: string)
    ensures ValidUrl(url) <==> ValidUrlAsWritten(url) && url[11] == '.' && url[20] == '.'
  {
    if ValidUrlAsWritten(url) && url[11] == '.' && url[20] == '.' {
      assert forall i :: 0 <= i < |FacebookPrefix| ==> url[i] == FacebookPrefix[i];
    }
  }
}
