/** Similarity filtering, candidate dictionaries and ranking, shared by the
    two product scrapers (scraper/shop_class.py and
    scraper/shopping_class.py). The eBay and Google Shopping versions differ
    only in the fields they carry next to the price; here those fields are
    the type parameter `E` (eBay: shipping, country and condition; Google
    Shopping: the url). */
module Matching {
  import opened Common
  import opened SimilarityKey
  import opened OrderedDict

  /** One entry of the list get_product_info builds: the cleaned title, the
      price and the scraper's other fields. */
  datatype Product<E> = Product(title: string, price: real, extra: E)

  /** The value stored under a title: the product's fields and its similarity
      to the target title. */
  datatype Details<E> = Details(price: real, extra: E, similarity: real)

  // ---------------------------------------------------------------------
  // filter_products_by_similarity
  // ---------------------------------------------------------------------

  /** The filter over a list of products, and whether a negative similarity
      ended it early (the InvalidSimilarityThreshold handler returns the
      dict built so far). */
  function FilterUpTo<E>(ps: seq<Product<E>>, target: string, threshold: real,
                         getSimilarity: (string, string) -> real): (r: (Dict<Details<E>>, bool))
    ensures Valid(r.0)
    ensures forall k :: k in r.0.vals ==> r.0.vals[k].similarity >= threshold
  {
    if ps == [] then (Empty(), false)
    else
      var prev := FilterUpTo(ps[..|ps| - 1], target, threshold, getSimilarity);
      var p := ps[|ps| - 1];
      var sim := getSimilarity(p.title, target);
      if prev.1 || sim < 0.0 then (prev.0, true)
      else if sim >= threshold then (Put(prev.0, p.title, Details(p.price, p.extra, sim)), false)
      else (prev.0, false)
  }

  function Filter<E>(ps: seq<Product<E>>, target: string, threshold: real,
                     getSimilarity: (string, string) -> real): Dict<Details<E>>
  {
    FilterUpTo(ps, target, threshold, getSimilarity).0
  }

  /** The similarity stored under a title is that title's similarity to
      the target. */
  lemma {:induction false} FilterSimilarities<E>(ps: seq<Product<E>>, target: string, threshold: real,
                                                getSimilarity: (string, string) -> real)
    ensures forall k :: k in Filter(ps, target, threshold, getSimilarity).vals ==>
      Filter(ps, target, threshold, getSimilarity).vals[k].similarity == getSimilarity(k, target)
  {
    if ps != [] {
      FilterSimilarities(ps[..|ps| - 1], target, threshold, getSimilarity);
    }
  }

  /** Once ended, the filter ignores the rest of the list. */
  lemma {:induction false} FilterStops<E>(ps: seq<Product<E>>, n: nat, target: string, threshold: real,
                                         getSimilarity: (string, string) -> real)
    requires n <= |ps| && FilterUpTo(ps[..n], target, threshold, getSimilarity).1
    ensures FilterUpTo(ps, target, threshold, getSimilarity) == FilterUpTo(ps[..n], target, threshold, getSimilarity)
    decreases |ps|
  {
    if n < |ps| {
      var front := ps[..|ps| - 1];
      assert front[..n] == ps[..n];
      FilterStops(front, n, target, threshold, getSimilarity);
    } else {
      assert ps[..n] == ps;
    }
  }

  /** The loop of filter_products_by_similarity. */
  method FilterProductsBySimilarity<E>(products: seq<Product<E>>, target: string, threshold: real,
                                       getSimilarity: (string, string) -> real)
    returns (filtered: Dict<Details<E>>)
    ensures filtered == Filter(products, target, threshold, getSimilarity)
  {
    filtered := Empty();
    for i := 0 to |products|
      invariant FilterUpTo(products[..i], target, threshold, getSimilarity) == (filtered, false)
    {
      var product := products[i];
      assert products[..i + 1][..i] == products[..i];
      var similarity := getSimilarity(product.title, target);
      if similarity < 0.0 {
        FilterStops(products, i + 1, target, threshold, getSimilarity);
        return;
      }
      if similarity >= threshold {
        filtered := Put(filtered, product.title, Details(product.price, product.extra, similarity));
      }
    }
    assert products[..|products|] == products;
  }

  /** With similarities in [0,1] the filter never ends early. */
  lemma {:induction false} FilterRuns<E>(ps: seq<Product<E>>, target: string, threshold: real,
                                        getSimilarity: (string, string) -> real)
    requires UnitRange(getSimilarity)
    ensures !FilterUpTo(ps, target, threshold, getSimilarity).1
  {
    if ps != [] {
      FilterRuns(ps[..|ps| - 1], target, threshold, getSimilarity);
    }
  }

  /** One product more, when the filter does not end early: the product is
      stored exactly when its similarity reaches the threshold. */
  lemma FilterStep<E>(ps: seq<Product<E>>, target: string, threshold: real,
                      getSimilarity: (string, string) -> real)
    requires UnitRange(getSimilarity) && ps != []
    ensures var p := ps[|ps| - 1];
      var sim := getSimilarity(p.title, target);
      Filter(ps, target, threshold, getSimilarity) ==
        if sim >= threshold then Put(Filter(ps[..|ps| - 1], target, threshold, getSimilarity), p.title, Details(p.price, p.extra, sim))
        else Filter(ps[..|ps| - 1], target, threshold, getSimilarity)
  {
    FilterRuns(ps[..|ps| - 1], target, threshold, getSimilarity);
  }

  /** A title is a key of the filter exactly when some product has it and
      its similarity reaches the threshold. */
  lemma {:induction false} FilterKeys<E>(ps: seq<Product<E>>, target: string, threshold: real,
                                        getSimilarity: (string, string) -> real)
    requires UnitRange(getSimilarity)
    ensures forall t :: t in Filter(ps, target, threshold, getSimilarity).vals <==>
      (exists i :: 0 <= i < |ps| && ps[i].title == t) && getSimilarity(t, target) >= threshold
  {
    if ps != [] {
      var front := ps[..|ps| - 1];
      var last := ps[|ps| - 1];
      FilterKeys(front, target, threshold, getSimilarity);
      FilterStep(ps, target, threshold, getSimilarity);
      forall t ensures t in Filter(ps, target, threshold, getSimilarity).vals <==>
        (exists i :: 0 <= i < |ps| && ps[i].title == t) && getSimilarity(t, target) >= threshold
      {
        if t != last.title && (exists i :: 0 <= i < |ps| && ps[i].title == t) {
          var i :| 0 <= i < |ps| && ps[i].title == t;
          assert front[i] == ps[i];
        }
      }
    }
  }

  /** The fields stored under a title are those of the last product with
      that title: a later product with the same title overwrites an earlier
      one. */
  lemma {:induction false} FilterValues<E>(ps: seq<Product<E>>, target: string, threshold: real,
                                          getSimilarity: (string, string) -> real)
    requires UnitRange(getSimilarity)
    ensures forall i ::
      (0 <= i < |ps| && getSimilarity(ps[i].title, target) >= threshold &&
       (forall j :: i < j < |ps| ==> ps[j].title != ps[i].title)) ==>
      && ps[i].title in Filter(ps, target, threshold, getSimilarity).vals
      && Filter(ps, target, threshold, getSimilarity).vals[ps[i].title] ==
        Details(ps[i].price, ps[i].extra, getSimilarity(ps[i].title, target))
  {
    forall i | 0 <= i < |ps| && getSimilarity(ps[i].title, target) >= threshold &&
      (forall j :: i < j < |ps| ==> ps[j].title != ps[i].title)
      ensures && ps[i].title in Filter(ps, target, threshold, getSimilarity).vals
              && Filter(ps, target, threshold, getSimilarity).vals[ps[i].title] ==
                 Details(ps[i].price, ps[i].extra, getSimilarity(ps[i].title, target))
    {
      FilterValueAt(ps, i, target, threshold, getSimilarity);
    }
  }

  /** FilterValues for one product. */
  lemma {:induction false} FilterValueAt<E>(ps: seq<Product<E>>, i: nat, target: string, threshold: real,
                                           getSimilarity: (string, string) -> real)
    requires UnitRange(getSimilarity)
    requires i < |ps| && getSimilarity(ps[i].title, target) >= threshold
    requires forall j :: i < j < |ps| ==> ps[j].title != ps[i].title
    ensures && ps[i].title in Filter(ps, target, threshold, getSimilarity).vals
            && Filter(ps, target, threshold, getSimilarity).vals[ps[i].title] ==
               Details(ps[i].price, ps[i].extra, getSimilarity(ps[i].title, target))
    decreases |ps|
  {
    var front := ps[..|ps| - 1];
    FilterStep(ps, target, threshold, getSimilarity);
    if i < |ps| - 1 {
      assert front[i] == ps[i];
      forall j | i < j < |front| ensures front[j].title != front[i].title {
        assert front[j] == ps[j];
      }
      FilterValueAt(front, i, target, threshold, getSimilarity);
    }
  }

  /** Lowering the threshold never loses a title. */
  lemma FilterMonotone<E>(ps: seq<Product<E>>, target: string, high: real, low: real,
                          getSimilarity: (string, string) -> real)
    requires UnitRange(getSimilarity) && low <= high
    ensures forall t :: t in Filter(ps, target, high, getSimilarity).vals ==> t in Filter(ps, target, low, getSimilarity).vals
  {
    FilterKeys(ps, target, high, getSimilarity);
    FilterKeys(ps, target, low, getSimilarity);
  }

  /** At a threshold of 0 or below every title passes: the filter is empty
      only for an empty list. */
  lemma FilterAllPass<E>(ps: seq<Product<E>>, target: string, threshold: real,
                         getSimilarity: (string, string) -> real)
    requires UnitRange(getSimilarity) && threshold <= 0.0
    ensures Filter(ps, target, threshold, getSimilarity).keys == [] <==> ps == []
  {
    FilterKeys(ps, target, threshold, getSimilarity);
    if ps != [] {
      assert ps[0].title in Filter(ps, target, threshold, getSimilarity).vals;
    }
  }

  /** A negative similarity ends the filter with what it had: the products
      before the first negative one, filtered. */
  lemma FilterNegative<E>(ps: seq<Product<E>>, i: nat, target: string, threshold: real,
                          getSimilarity: (string, string) -> real)
    requires i < |ps| && getSimilarity(ps[i].title, target) < 0.0
    requires forall j :: 0 <= j < i ==> getSimilarity(ps[j].title, target) >= 0.0
    ensures Filter(ps, target, threshold, getSimilarity) == Filter(ps[..i], target, threshold, getSimilarity)
  {
    NotStoppedWhileNonNegative(ps[..i], target, threshold, getSimilarity);
    assert ps[..i + 1][..i] == ps[..i];
    FilterStops(ps, i + 1, target, threshold, getSimilarity);
  }

  lemma {:induction false} NotStoppedWhileNonNegative<E>(ps: seq<Product<E>>, target: string, threshold: real,
                                                        getSimilarity: (string, string) -> real)
    requires forall j :: 0 <= j < |ps| ==> getSimilarity(ps[j].title, target) >= 0.0
    ensures !FilterUpTo(ps, target, threshold, getSimilarity).1
  {
    if ps != [] {
      var front := ps[..|ps| - 1];
      forall j | 0 <= j < |front| ensures getSimilarity(front[j].title, target) >= 0.0 {
        assert front[j] == ps[j];
      }
      NotStoppedWhileNonNegative(front, target, threshold, getSimilarity);
    }
  }

  // ---------------------------------------------------------------------
  // construct_candidates
  // ---------------------------------------------------------------------

  /** The assignments `candidates[descriptions[i]] = {...}`, in order. */
  function CandidatePairs<E>(descriptions: seq<string>, prices: seq<real>, extras: seq<E>,
                             similarities: seq<real>): (kvs: seq<(string, Details<E>)>)
    requires |descriptions| <= |prices| && |descriptions| <= |extras| && |descriptions| <= |similarities|
    ensures |kvs| == |descriptions|
    ensures forall i :: 0 <= i < |kvs| ==>
      kvs[i] == (descriptions[i], Details(prices[i], extras[i], similarities[i]))
  {
    seq(|descriptions|, i requires 0 <= i < |descriptions| =>
      (descriptions[i], Details(prices[i], extras[i], similarities[i])))
  }

  /** construct_candidates: one entry per distinct description, in the order
      descriptions first appear, each holding the values at the last index
      that carries that description. None when one of the other lists is
      shorter than the descriptions: the loop then indexes past its end and
      raises IndexError. */
  method ConstructCandidates<E>(descriptions: seq<string>, prices: seq<real>, extras: seq<E>,
                                similarities: seq<real>)
    returns (result: Option<Dict<Details<E>>>)
    ensures result.None? <==>
      !(|descriptions| <= |prices| && |descriptions| <= |extras| && |descriptions| <= |similarities|)
    ensures result.Some? ==>
      var candidates := result.value;
      && Valid(candidates)
      && candidates == Build(CandidatePairs(descriptions, prices, extras, similarities))
      && (forall k :: k in candidates.vals <==> k in descriptions)
      && (forall i :: 0 <= i < |descriptions| && (forall j :: i < j < |descriptions| ==> descriptions[j] != descriptions[i]) ==>
            candidates.vals[descriptions[i]] == Details(prices[i], extras[i], similarities[i]))
      && InFirstOrder(CandidatePairs(descriptions, prices, extras, similarities), candidates.keys)
  {
    var candidates := Empty();
    for i := 0 to |descriptions|
      invariant i <= |prices| && i <= |extras| && i <= |similarities|
      invariant candidates == Build(CandidatePairs(descriptions[..i], prices, extras, similarities))
    {
      if i >= |prices| || i >= |extras| || i >= |similarities| {
        return None;
      }
      CandidatePairsSnoc(descriptions, prices, extras, similarities, i);
      candidates := Put(candidates, descriptions[i], Details(prices[i], extras[i], similarities[i]));
    }
    assert descriptions[..|descriptions|] == descriptions;
    CandidatesContents(descriptions, prices, extras, similarities);
    return Some(candidates);
  }

  /** One more row of construct_candidates is one more assignment. */
  lemma CandidatePairsSnoc<E>(descriptions: seq<string>, prices: seq<real>, extras: seq<E>,
                              similarities: seq<real>, i: nat)
    requires i < |descriptions| && i < |prices| && i < |extras| && i < |similarities|
    ensures Build(CandidatePairs(descriptions[..i + 1], prices, extras, similarities)) ==
      Put(Build(CandidatePairs(descriptions[..i], prices, extras, similarities)),
          descriptions[i], Details(prices[i], extras[i], similarities[i]))
  {
    var longer := CandidatePairs(descriptions[..i + 1], prices, extras, similarities);
    var shorter := CandidatePairs(descriptions[..i], prices, extras, similarities);
    assert longer[..i] == shorter;
  }

  /** The dict the assignments build: one key per distinct description,
      each holding the fields of the last row carrying it, keys in the
      order of first assignment. */
  lemma CandidatesContents<E>(descriptions: seq<string>, prices: seq<real>, extras: seq<E>,
                              similarities: seq<real>)
    requires |descriptions| <= |prices| && |descriptions| <= |extras| && |descriptions| <= |similarities|
    ensures var pairs := CandidatePairs(descriptions, prices, extras, similarities);
      var c := Build(pairs);
      && (forall k :: k in c.vals <==> k in descriptions)
      && (forall i :: 0 <= i < |descriptions| && (forall j :: i < j < |descriptions| ==> descriptions[j] != descriptions[i]) ==>
            c.vals[descriptions[i]] == Details(prices[i], extras[i], similarities[i]))
      && InFirstOrder(pairs, c.keys)
  {
    var pairs := CandidatePairs(descriptions, prices, extras, similarities);
    var c := Build(pairs);
    BuildContents(pairs);
    BuildOrder(pairs);
    forall k ensures k in c.vals <==> k in descriptions {
      if k in descriptions {
        var i :| 0 <= i < |descriptions| && descriptions[i] == k;
        assert pairs[i].0 == k;
      }
    }
    forall i | 0 <= i < |descriptions| && (forall j :: i < j < |descriptions| ==> descriptions[j] != descriptions[i])
      ensures c.vals[descriptions[i]] == Details(prices[i], extras[i], similarities[i])
    {
      forall j | i < j < |pairs| ensures pairs[j].0 != pairs[i].0 {
        assert pairs[j].0 == descriptions[j];
      }
    }
  }

  /** The lists of a dict's titles and fields, as find_viable_product emits
      them for one page. */
  function Titles<E>(d: Dict<Details<E>>): seq<string> { d.keys }

  function Prices<E>(d: Dict<Details<E>>): (r: seq<real>)
    requires Valid(d)
    ensures |r| == |d.keys|
  {
    seq(|d.keys|, i requires 0 <= i < |d.keys| => d.vals[d.keys[i]].price)
  }

  function Extras<E>(d: Dict<Details<E>>): (r: seq<E>)
    requires Valid(d)
    ensures |r| == |d.keys|
  {
    seq(|d.keys|, i requires 0 <= i < |d.keys| => d.vals[d.keys[i]].extra)
  }

  function Similarities<E>(d: Dict<Details<E>>): (r: seq<real>)
    requires Valid(d)
    ensures |r| == |d.keys|
  {
    seq(|d.keys|, i requires 0 <= i < |d.keys| => d.vals[d.keys[i]].similarity)
  }

  /** Rebuilding candidates from one filtered dict's lists gives that dict
      back. */
  lemma CandidatesRoundTrip<E>(d: Dict<Details<E>>)
    requires Valid(d)
    ensures Build(CandidatePairs(Titles(d), Prices(d), Extras(d), Similarities(d))) == d
  {
    assert CandidatePairs(Titles(d), Prices(d), Extras(d), Similarities(d)) == Entries(d);
    BuildEntries(d);
  }

  // ---------------------------------------------------------------------
  // lowest_price_highest_similarity
  // ---------------------------------------------------------------------

  function Sim<E>(d: Dict<Details<E>>, i: nat): real
    requires Valid(d) && i < |d.keys|
  {
    d.vals[d.keys[i]].similarity
  }

  function Price<E>(d: Dict<Details<E>>, i: nat): real
    requires Valid(d) && i < |d.keys|
  {
    d.vals[d.keys[i]].price
  }

  /** The entry at position `b` is the one to return: its similarity is the
      highest, its price the lowest among the entries of that similarity,
      and no earlier entry ties with it on both. Shipping and the other
      fields play no part. */
  predicate IsBest<E>(d: Dict<Details<E>>, b: nat)
    requires Valid(d)
  {
    && b < |d.keys|
    && (forall j :: 0 <= j < |d.keys| ==> Sim(d, j) <= Sim(d, b))
    && (forall j :: 0 <= j < |d.keys| && Sim(d, j) == Sim(d, b) ==> Price(d, b) <= Price(d, j))
    && (forall j :: 0 <= j < b && Sim(d, j) == Sim(d, b) ==> Price(d, j) > Price(d, b))
  }

  /** At most one entry is the best. */
  lemma BestUnique<E>(d: Dict<Details<E>>, b1: nat, b2: nat)
    requires Valid(d) && IsBest(d, b1) && IsBest(d, b2)
    ensures b1 == b2
  {
    assert Sim(d, b1) == Sim(d, b2);
    assert Price(d, b1) == Price(d, b2);
  }

  /** The two loops of lowest_price_highest_similarity: the first finds the
      highest similarity (the running minimum price it also keeps is never
      read), the second takes, among the entries with that similarity, the
      first of lowest price, as `min(..., key=price)` does. An empty dict
      leaves `min` with an empty list, a ValueError, modelled as None. */
  method LowestPriceHighestSimilarity<E>(d: Dict<Details<E>>) returns (best: Option<(string, Details<E>)>)
    requires Valid(d)
    ensures best.None? <==> d.keys == []
    ensures best.Some? ==> exists b: nat :: IsBest(d, b) && best.value == (d.keys[b], d.vals[d.keys[b]])
  {
    var maxItem, maxAt := HighestSimilarity(d);
    if maxItem.None? {
      return None;
    }
    var top := maxItem.value.similarity;
    var bestIdx := LowestPriceAmong(d, top);
    assert Sim(d, maxAt) == top;
    var b := bestIdx.value;
    assert IsBest(d, b);
    best := Some((d.keys[b], d.vals[d.keys[b]]));
  }

  /** The first loop: the details of the first entry of highest
      similarity, or None for an empty dict. */
  method HighestSimilarity<E>(d: Dict<Details<E>>) returns (maxItem: Option<Details<E>>, ghost maxAt: nat)
    requires Valid(d)
    ensures maxItem.None? <==> d.keys == []
    ensures maxItem.Some? ==> maxAt < |d.keys| && Sim(d, maxAt) == maxItem.value.similarity
    ensures maxItem.Some? ==> forall j :: 0 <= j < |d.keys| ==> Sim(d, j) <= maxItem.value.similarity
  {
    maxItem, maxAt := None, 0;
    for i := 0 to |d.keys|
      invariant maxItem.None? <==> i == 0
      invariant maxItem.Some? ==> maxAt < i && Sim(d, maxAt) == maxItem.value.similarity
      invariant maxItem.Some? ==> forall j :: 0 <= j < i ==> Sim(d, j) <= maxItem.value.similarity
    {
      var details := d.vals[d.keys[i]];
      if maxItem.None? {
        maxItem, maxAt := Some(details), i;
      } else if details.similarity > maxItem.value.similarity {
        maxItem, maxAt := Some(details), i;
      }
    }
  }

  /** The entries of similarity `top`, and `min` over them by price: the
      position of the first of lowest price, or None when no entry has that
      similarity. */
  method LowestPriceAmong<E>(d: Dict<Details<E>>, top: real) returns (bestIdx: Option<nat>)
    requires Valid(d)
    ensures bestIdx.None? ==> forall j :: 0 <= j < |d.keys| ==> Sim(d, j) != top
    ensures bestIdx.Some? ==> bestIdx.value < |d.keys| && Sim(d, bestIdx.value) == top
    ensures bestIdx.Some? ==> forall j :: 0 <= j < |d.keys| && Sim(d, j) == top ==> Price(d, bestIdx.value) <= Price(d, j)
    ensures bestIdx.Some? ==> forall j :: 0 <= j < bestIdx.value && Sim(d, j) == top ==> Price(d, j) > Price(d, bestIdx.value)
  {
    bestIdx := None;
    for i := 0 to |d.keys|
      invariant bestIdx.None? ==> forall j :: 0 <= j < i ==> Sim(d, j) != top
      invariant bestIdx.Some? ==> bestIdx.value < i && Sim(d, bestIdx.value) == top
      invariant bestIdx.Some? ==> forall j :: 0 <= j < i && Sim(d, j) == top ==> Price(d, bestIdx.value) <= Price(d, j)
      invariant bestIdx.Some? ==> forall j :: 0 <= j < bestIdx.value && Sim(d, j) == top ==> Price(d, j) > Price(d, bestIdx.value)
    {
      var details := d.vals[d.keys[i]];
      if details.similarity == top {
        if bestIdx.None? || details.price < Price(d, bestIdx.value) {
          bestIdx := Some(i);
        }
      }
    }
  }
}
