/** The page-by-page search with a relaxing similarity threshold that both
    product scrapers run (find_viable_product in scraper/shop_class.py and
    scraper/shopping_class.py). The two differ only in their constants,
    gathered in a `Config`. Fetching a results page for a title and a start
    offset (create_url with create_soup) and reading products off it
    (get_product_info) are parameters: `fetch` gives the page, `info` the
    products on it, or None when reading them raises. */
module Search {
  import opened Common
  import opened SimilarityKey
  import opened OrderedDict
  import opened Matching

  /** How much the threshold drops per relaxation. */
  const Step: real := 0.05

  /** The ramp-down added by `k` relaxations. */
  function Steps(k: nat): real
  {
    k as real * Step
  }

  /** find_viable_product reads five result pages. */
  const Pages: nat := 5

  /** A scraper's constants: the starting threshold, how many consecutive
      empty relaxations it tolerates before giving up on a page, and the
      distance between the start offsets of two pages. */
  datatype Config = Config(base: real, cap: nat, stride: int)

  /** eBay: threshold 0.35, give up after the third empty relaxation,
      `_pgn` counts pages. */
  const EbayConfig := Config(0.35, 2, 1)

  /** Google Shopping: threshold 0.25, give up after the sixth empty
      relaxation, `start` counts results, 60 to a page. */
  const ShoppingConfig := Config(0.25, 5, 60)

  /** listing_product_similarity on the products of one page: the title is
      lower-cased before it is compared. */
  function Listing<E>(ps: seq<Product<E>>, t: string, threshold: real,
                      getSimilarity: (string, string) -> real): Dict<Details<E>>
  {
    Filter(ps, Lower(t), threshold, getSimilarity)
  }

  /** The `while not filtered` loop, entered with an empty result and `ce`
      consecutive empty relaxations behind it: raise the ramp-down by a step,
      filter the same page again, and stop when something survives or after
      the empty relaxation that follows `cap` of them. Gives the last result
      and the new ramp-down. */
  function Relax<E>(ps: seq<Product<E>>, t: string, base: real, rd: real, ce: nat, cap: nat,
                    getSimilarity: (string, string) -> real): (r: (Dict<Details<E>>, real))
    requires ce <= cap
    ensures Valid(r.0)
    decreases cap - ce
  {
    var rd' := rd + Step;
    var d := Listing(ps, t, base - rd', getSimilarity);
    if ce == cap || d.keys != [] then (d, rd')
    else Relax(ps, t, base, rd', ce + 1, cap, getSimilarity)
  }

  /** One page: filter at the base threshold, and relax only when that
      leaves nothing. The threshold starts from the base on every page; the
      ramp-down carries over from the pages before. */
  function PageResult<E>(ps: seq<Product<E>>, t: string, cfg: Config, rd: real,
                         getSimilarity: (string, string) -> real): (r: (Dict<Details<E>>, real))
    ensures Valid(r.0)
  {
    var d := Listing(ps, t, cfg.base, getSimilarity);
    if d.keys != [] then (d, rd) else Relax(ps, t, cfg.base, rd, 0, cfg.cap, getSimilarity)
  }

  /** The lists find_viable_product returns: titles, prices, the scraper's
      other fields, and similarities. */
  datatype Found<E> = Found(titles: seq<string>, prices: seq<real>, extras: seq<E>, similarities: seq<real>)

  predicate Aligned<E>(f: Found<E>)
  {
    |f.titles| == |f.prices| == |f.extras| == |f.similarities|
  }

  /** `descriptions += list(filtered.keys())` and so on for each list. */
  function Append<E>(f: Found<E>, d: Dict<Details<E>>): (r: Found<E>)
    requires Valid(d)
    ensures Aligned(f) ==> Aligned(r)
  {
    Found(f.titles + Titles(d), f.prices + Prices(d), f.extras + Extras(d), f.similarities + Similarities(d))
  }

  /** One more page on top of the search so far: nothing once a page could
      not be read, otherwise the page's survivors appended. */
  function Next<E>(prev: Option<(Found<E>, real)>, page: Option<seq<Product<E>>>, t: string, cfg: Config,
                   getSimilarity: (string, string) -> real): (r: Option<(Found<E>, real)>)
    ensures prev.Some? && Aligned(prev.value.0) && r.Some? ==> Aligned(r.value.0)
    ensures r.Some? <==> prev.Some? && page.Some?
  {
    if prev.None? || page.None? then None
    else
      var result := PageResult(page.value, t, cfg, prev.value.1, getSimilarity);
      Some((Append(prev.value.0, result.0), result.1))
  }

  /** The first `n` pages of the search, from ramp-down `rd`: the lists so
      far and the ramp-down reached, or None once a page cannot be read. */
  function Search<P, E>(fetch: (string, int) -> P, info: P -> Option<seq<Product<E>>>,
                        getSimilarity: (string, string) -> real, cfg: Config, t: string, rd: real,
                        n: nat): (r: Option<(Found<E>, real)>)
    ensures r.Some? ==> Aligned(r.value.0)
  {
    if n == 0 then Some((Found([], [], [], []), rd))
    else Next(Search(fetch, info, getSimilarity, cfg, t, rd, n - 1), info(fetch(t, (n - 1) * cfg.stride)), t, cfg, getSimilarity)
  }

  /** The scraper object: the title and start offset create_url reads, and
      the page it fetched (None before the first fetch). Its get_similarity
      is the ratio of the two titles' keys. The source starts title and
      start as None; the empty title and 0 stand for them here, and every
      page sets both before create_url reads them. */
  class ProductScraper<P, E> {
    var title: string
    var start: int
    var soup: Option<P>
    const fetch: (string, int) -> P
    const info: P -> Option<seq<Product<E>>>
    const ratio: (string, string) -> real
    const getSimilarity: (string, string) -> real
    const config: Config
    /** The `range(5)` of find_viable_product. */
    const pages: nat

    constructor (fetch: (string, int) -> P, info: P -> Option<seq<Product<E>>>,
                 ratio: (string, string) -> real, config: Config)
      ensures this.fetch == fetch && this.info == info && this.ratio == ratio && this.config == config
      ensures forall a, b :: getSimilarity(a, b) == Similarity(a, b, ratio)
      ensures pages == Pages
      ensures title == [] && start == 0 && soup.None?
    {
      pages := Pages;
      this.fetch := fetch;
      this.info := info;
      this.ratio := ratio;
      getSimilarity := (a, b) => Similarity(a, b, ratio);
      this.config := config;
      title := [];
      start := 0;
      soup := None;
    }

    /** create_url: fetch the results page for the current title and start. */
    method CreateUrl()
      modifies this
      ensures soup == Some(fetch(title, start))
      ensures title == old(title) && start == old(start)
    {
      soup := Some(fetch(title, start));
    }

    /** listing_product_similarity: read the products off the current page
      and filter them against the lower-cased title. */
    method ListingProductSimilarity(t: string, threshold: real) returns (r: Option<Dict<Details<E>>>)
      requires soup.Some?
      ensures info(soup.value).None? ==> r.None?
      ensures info(soup.value).Some? ==> r == Some(Listing(info(soup.value).value, t, threshold, getSimilarity))
    {
      var productInfo := info(soup.value);
      if productInfo.None? {
        return None;
      }
      var filtered := FilterProductsBySimilarity(productInfo.value, Lower(t), threshold, getSimilarity);
      return Some(filtered);
    }

    /** The `except NoProductsFound` branch of find_viable_product: while the
      page gives nothing, raise the ramp-down by a step and filter the same
      page at the lowered threshold, giving up after `cap` consecutive
      empty relaxations and one more. */
    method RampDown(t: string, threshold: real, rampDown: real, ghost ps: seq<Product<E>>)
      returns (d: Dict<Details<E>>, rd: real)
      requires soup.Some? && info(soup.value) == Some(ps)
      ensures (d, rd) == Relax(ps, t, threshold, rampDown, 0, config.cap, getSimilarity)
    {
      rd := rampDown;
      d := Empty();
      var consecutivelyEmpty := 0;
      ghost var goal := Relax(ps, t, threshold, rd, 0, config.cap, getSimilarity);
      while d.keys == []
        invariant consecutivelyEmpty <= config.cap
        invariant d.keys == [] ==> Relax(ps, t, threshold, rd, consecutivelyEmpty, config.cap, getSimilarity) == goal
        invariant d.keys != [] ==> (d, rd) == goal
        decreases if d.keys == [] then config.cap - consecutivelyEmpty + 1 else 0
      {
        RelaxUnfold(ps, t, threshold, rd, consecutivelyEmpty, config.cap, getSimilarity);
        rd := rd + Step;
        var filtered := ListingProductSimilarity(t, threshold - rd);
        d := filtered.value;
        if consecutivelyEmpty == config.cap {
          break;
        }
        if d.keys != [] {
          consecutivelyEmpty := 0;
        } else {
          consecutivelyEmpty := consecutivelyEmpty + 1;
        }
      }
    }

    /** find_viable_product: five pages, each filtered at the base threshold
      and relaxed while empty; the survivors of every page are appended to
      the lists. The ramp-down is local to the call. */
    method FindViableProduct(t: string, rampDown: real) returns (result: Option<Found<E>>)
      modifies this
      ensures Search(fetch, info, getSimilarity, config, t, rampDown, pages).None? ==> result.None?
      ensures Search(fetch, info, getSimilarity, config, t, rampDown, pages).Some? ==>
        result == Some(Search(fetch, info, getSimilarity, config, t, rampDown, pages).value.0)
      ensures pages > 0 ==> title == t && soup == Some(fetch(t, start))
      ensures pages > 0 && result.Some? ==> start == (pages - 1) * config.stride
    {
      var found := Found([], [], [], []);
      var rd := rampDown;
      for pageNumber := 0 to pages
        invariant Search(fetch, info, getSimilarity, config, t, rampDown, pageNumber) == Some((found, rd))
        invariant pageNumber > 0 ==>
          title == t && soup == Some(fetch(t, start)) && start == (pageNumber - 1) * config.stride
      {
        var next := ScrapePage(t, pageNumber, found, rd);
        if next.None? {
          SearchFailureStays(fetch, info, getSimilarity, config, t, rampDown, pageNumber + 1, pages);
          return None;
        }
        found, rd := next.value.0, next.value.1;
      }
      result := Some(found);
    }

    /** The body of find_viable_product's page loop: point the scraper at
      the page, filter it at the base threshold, relax while it gives
      nothing, and append the survivors; None when the page cannot be
      read. */
    method ScrapePage(t: string, pageNumber: nat, found: Found<E>, rd: real)
      returns (next: Option<(Found<E>, real)>)
      modifies this
      ensures next == Next(Some((found, rd)), info(fetch(t, pageNumber * config.stride)), t, config, getSimilarity)
      ensures title == t && start == pageNumber * config.stride
      ensures soup == Some(fetch(t, pageNumber * config.stride))
    {
      var threshold := config.base;
      title := t;
      start := pageNumber * config.stride;
      CreateUrl();
      var filtered := ListingProductSimilarity(t, threshold);
      if filtered.None? {
        return None;
      }
      ghost var ps := info(soup.value).value;
      var d := filtered.value;
      var rd' := rd;
      if d.keys == [] {
        d, rd' := RampDown(t, threshold, rd, ps);
      }
      next := Some((Append(found, d), rd'));
    }
  }

  /** One round of the relaxation loop. */
  lemma RelaxUnfold<E>(ps: seq<Product<E>>, t: string, base: real, rd: real, ce: nat, cap: nat,
                       getSimilarity: (string, string) -> real)
    requires ce <= cap
    ensures var d := Listing(ps, t, base - (rd + Step), getSimilarity);
      Relax(ps, t, base, rd, ce, cap, getSimilarity) ==
        if ce == cap || d.keys != [] then (d, rd + Step)
        else Relax(ps, t, base, rd + Step, ce + 1, cap, getSimilarity)
  {
  }

  /** A page that cannot be read ends the search for good. */
  lemma {:induction false} SearchFailureStays<P, E>(fetch: (string, int) -> P, info: P -> Option<seq<Product<E>>>,
                                                   getSimilarity: (string, string) -> real, cfg: Config, t: string,
                                                   rd: real, n: nat, m: nat)
    requires n <= m && Search(fetch, info, getSimilarity, cfg, t, rd, n).None?
    ensures Search(fetch, info, getSimilarity, cfg, t, rd, m).None?
    decreases m
  {
    if n < m {
      SearchFailureStays(fetch, info, getSimilarity, cfg, t, rd, n, m - 1);
    }
  }

  // ---------------------------------------------------------------------
  // What one page does to the ramp-down and the threshold
  // ---------------------------------------------------------------------

  /** The relaxation raises the ramp-down by one to `cap - ce + 1` steps, and
      by the full `cap - ce + 1` steps exactly when it gives up empty. */
  lemma {:induction false} RelaxRampDown<E>(ps: seq<Product<E>>, t: string, base: real, rd: real, ce: nat, cap: nat,
                                           getSimilarity: (string, string) -> real)
    requires ce <= cap
    ensures var r := Relax(ps, t, base, rd, ce, cap, getSimilarity);
      exists k: nat :: 1 <= k <= cap - ce + 1 && r.1 == rd + Steps(k)
    ensures var r := Relax(ps, t, base, rd, ce, cap, getSimilarity);
      r.0.keys == [] ==> r.1 == rd + Steps(cap - ce + 1)
    decreases cap - ce
  {
    var r := Relax(ps, t, base, rd, ce, cap, getSimilarity);
    var d := Listing(ps, t, base - (rd + Step), getSimilarity);
    if ce == cap || d.keys != [] {
      assert r.1 == rd + Steps(1);
    } else {
      RelaxRampDown(ps, t, base, rd + Step, ce + 1, cap, getSimilarity);
      var k: nat :| 1 <= k <= cap - (ce + 1) + 1 && r.1 == rd + Step + Steps(k);
      assert r.1 == rd + Steps(k + 1);
    }
  }

  /** The relaxation's result is the page filtered at the threshold it
      stopped at. */
  lemma {:induction false} RelaxThreshold<E>(ps: seq<Product<E>>, t: string, base: real, rd: real, ce: nat, cap: nat,
                                            getSimilarity: (string, string) -> real)
    requires ce <= cap
    ensures var r := Relax(ps, t, base, rd, ce, cap, getSimilarity);
      r.0 == Listing(ps, t, base - r.1, getSimilarity)
    decreases cap - ce
  {
    if ce < cap && Listing(ps, t, base - (rd + Step), getSimilarity).keys == [] {
      RelaxThreshold(ps, t, base, rd + Step, ce + 1, cap, getSimilarity);
    }
  }

  /** When the last threshold the relaxation may try is 0 or below, it finds
      something on any non-empty page: at that threshold every product
      passes. */
  lemma {:induction false} RelaxFinds<E>(ps: seq<Product<E>>, t: string, base: real, rd: real, ce: nat, cap: nat,
                                        getSimilarity: (string, string) -> real)
    requires UnitRange(getSimilarity) && ps != [] && ce <= cap
    requires base - (rd + Steps(cap - ce + 1)) <= 0.0
    ensures Relax(ps, t, base, rd, ce, cap, getSimilarity).0.keys != []
    decreases cap - ce
  {
    if ce == cap {
      FilterAllPass(ps, Lower(t), base - (rd + Step), getSimilarity);
    } else if Listing(ps, t, base - (rd + Step), getSimilarity).keys == [] {
      RelaxFinds(ps, t, base, rd + Step, ce + 1, cap, getSimilarity);
    }
  }

  /** A page leaves the ramp-down alone exactly when the base threshold
      finds something; otherwise it adds one to `cap + 1` steps, all
      `cap + 1` of them when the page ends up empty. */
  lemma PageRampDown<E>(ps: seq<Product<E>>, t: string, cfg: Config, rd: real,
                        getSimilarity: (string, string) -> real)
    ensures var r := PageResult(ps, t, cfg, rd, getSimilarity);
      r.1 == rd <==> Listing(ps, t, cfg.base, getSimilarity).keys != []
    ensures var r := PageResult(ps, t, cfg, rd, getSimilarity);
      r.1 == rd || exists k: nat :: 1 <= k <= cfg.cap + 1 && r.1 == rd + Steps(k)
    ensures var r := PageResult(ps, t, cfg, rd, getSimilarity);
      r.0.keys == [] ==> r.1 == rd + Steps(cfg.cap + 1)
  {
    if Listing(ps, t, cfg.base, getSimilarity).keys == [] {
      RelaxRampDown(ps, t, cfg.base, rd, 0, cfg.cap, getSimilarity);
    }
  }

  /** Every title a page yields has its own similarity to the lower-cased
      title stored with it, and that similarity reaches the threshold the
      page stopped at: the base one, or the base less the ramp-down
      reached. */
  lemma {:induction false} PageSimilarities<E>(ps: seq<Product<E>>, t: string, cfg: Config, rd: real,
                            getSimilarity: (string, string) -> real)
    ensures var r := PageResult(ps, t, cfg, rd, getSimilarity);
      Keeps(r.0, Lower(t), getSimilarity,
            if Listing(ps, t, cfg.base, getSimilarity).keys != [] then cfg.base else cfg.base - r.1)
  {
    if Listing(ps, t, cfg.base, getSimilarity).keys != [] {
      ListingScored(ps, t, cfg.base, getSimilarity);
    } else {
      RelaxScored(ps, t, cfg.base, rd, 0, cfg.cap, getSimilarity);
    }
  }

  /** What the relaxation settles on is scored at the threshold it reached. */
  lemma {:induction false} RelaxScored<E>(ps: seq<Product<E>>, t: string, base: real, rd: real, ce: nat, cap: nat,
                                         getSimilarity: (string, string) -> real)
    requires ce <= cap
    ensures var r := Relax(ps, t, base, rd, ce, cap, getSimilarity);
      Keeps(r.0, Lower(t), getSimilarity, base - r.1)
    decreases cap - ce
  {
    if ce < cap && Listing(ps, t, base - (rd + Step), getSimilarity).keys == [] {
      RelaxScored(ps, t, base, rd + Step, ce + 1, cap, getSimilarity);
    } else {
      ListingScored(ps, t, base - (rd + Step), getSimilarity);
    }
  }

  /** Every similarity a listing keeps is its title's similarity to the
      lower-cased search term, and reaches the threshold. */
  lemma {:induction false} ListingScored<E>(ps: seq<Product<E>>, t: string, threshold: real,
                         getSimilarity: (string, string) -> real)
    ensures Keeps(Listing(ps, t, threshold, getSimilarity), Lower(t), getSimilarity, threshold)
  {
    FilterSimilarities(ps, Lower(t), threshold, getSimilarity);
  }

  /** Every similarity a dictionary holds is its title's similarity to
      `target`, and at least `floor`. */
  predicate Keeps<E>(d: Dict<Details<E>>, target: string, getSimilarity: (string, string) -> real, floor: real)
  {
    forall k :: k in d.vals ==> d.vals[k].similarity == getSimilarity(k, target) && d.vals[k].similarity >= floor
  }

  /** A non-empty page always yields something once the ramp-down brought
      in is large enough for the last relaxation to reach a threshold of 0. */
  lemma PageFinds<E>(ps: seq<Product<E>>, t: string, cfg: Config, rd: real,
                     getSimilarity: (string, string) -> real)
    requires UnitRange(getSimilarity) && ps != []
    requires cfg.base - (rd + Steps(cfg.cap + 1)) <= 0.0
    ensures PageResult(ps, t, cfg, rd, getSimilarity).0.keys != []
  {
    if Listing(ps, t, cfg.base, getSimilarity).keys == [] {
      RelaxFinds(ps, t, cfg.base, rd, 0, cfg.cap, getSimilarity);
    }
  }

  /** Google Shopping relaxes down to 0.25 - 6 * 0.05 < 0 even on its first
      page, so any non-empty page yields something. */
  lemma ShoppingPageFinds<E>(ps: seq<Product<E>>, t: string, rd: real, getSimilarity: (string, string) -> real)
    requires UnitRange(getSimilarity) && ps != [] && rd >= 0.0
    ensures PageResult(ps, t, ShoppingConfig, rd, getSimilarity).0.keys != []
  {
    PageFinds(ps, t, ShoppingConfig, rd, getSimilarity);
  }

  /** eBay relaxes by at most 3 * 0.05 per page from 0.35, so the guarantee
      needs a ramp-down of 0.20 brought in from earlier pages. */
  lemma EbayPageFinds<E>(ps: seq<Product<E>>, t: string, rd: real, getSimilarity: (string, string) -> real)
    requires UnitRange(getSimilarity) && ps != [] && rd >= 0.20
    ensures PageResult(ps, t, EbayConfig, rd, getSimilarity).0.keys != []
  {
    PageFinds(ps, t, EbayConfig, rd, getSimilarity);
  }

  // ---------------------------------------------------------------------
  // The whole search
  // ---------------------------------------------------------------------

  /** The search fails exactly when one of its pages cannot be read. */
  lemma {:induction false} SearchFails<P, E>(fetch: (string, int) -> P, info: P -> Option<seq<Product<E>>>,
                                            getSimilarity: (string, string) -> real, cfg: Config, t: string,
                                            rd: real, n: nat)
    ensures Search(fetch, info, getSimilarity, cfg, t, rd, n).None? <==>
      exists i :: 0 <= i < n && info(fetch(t, i * cfg.stride)).None?
  {
    if n > 0 {
      SearchFails(fetch, info, getSimilarity, cfg, t, rd, n - 1);
      var prev := Search(fetch, info, getSimilarity, cfg, t, rd, n - 1);
      var page := info(fetch(t, (n - 1) * cfg.stride));
      assert Search(fetch, info, getSimilarity, cfg, t, rd, n) == Next(prev, page, t, cfg, getSimilarity);
      if page.None? {
        assert 0 <= n - 1 < n && info(fetch(t, (n - 1) * cfg.stride)).None?;
      } else if prev.None? {
        var i :| 0 <= i < n - 1 && info(fetch(t, i * cfg.stride)).None?;
        assert 0 <= i < n && info(fetch(t, i * cfg.stride)).None?;
      } else {
        forall i | 0 <= i < n ensures info(fetch(t, i * cfg.stride)).Some? {
          if i == n - 1 {
            assert info(fetch(t, i * cfg.stride)) == page;
          }
        }
      }
    }
  }

  /** Over `n` pages the ramp-down never falls and rises by at most
      `n * (cap + 1)` steps. */
  lemma {:induction false} SearchRampDown<P, E>(fetch: (string, int) -> P, info: P -> Option<seq<Product<E>>>,
                                               getSimilarity: (string, string) -> real, cfg: Config, t: string,
                                               rd: real, n: nat)
    ensures var r := Search(fetch, info, getSimilarity, cfg, t, rd, n);
      r.Some? ==> rd <= r.value.1 <= rd + Steps(n * (cfg.cap + 1))
  {
    if n > 0 {
      SearchRampDown(fetch, info, getSimilarity, cfg, t, rd, n - 1);
      var prev := Search(fetch, info, getSimilarity, cfg, t, rd, n - 1);
      var page := info(fetch(t, (n - 1) * cfg.stride));
      if prev.Some? && page.Some? {
        var r := PageResult(page.value, t, cfg, prev.value.1, getSimilarity);
        PageRampDown(page.value, t, cfg, prev.value.1, getSimilarity);
        assert prev.value.1 <= r.1 <= prev.value.1 + Steps(cfg.cap + 1);
        assert (n - 1) * (cfg.cap + 1) + (cfg.cap + 1) == n * (cfg.cap + 1);
      }
    }
  }

  /** Every reported similarity is the similarity of the title beside it
      to `target`, and at least `floor`. */
  predicate Scored<E>(f: Found<E>, target: string, getSimilarity: (string, string) -> real, floor: real)
    requires Aligned(f)
  {
    forall i :: 0 <= i < |f.similarities| ==>
      f.similarities[i] == getSimilarity(f.titles[i], target) && f.similarities[i] >= floor
  }

  lemma AppendScored<E>(f: Found<E>, d: Dict<Details<E>>, target: string,
                        getSimilarity: (string, string) -> real, floor: real)
    requires Valid(d) && Aligned(f) && Scored(f, target, getSimilarity, floor)
    requires Keeps(d, target, getSimilarity, floor)
    ensures Scored(Append(f, d), target, getSimilarity, floor)
  {
    var g := Append(f, d);
    forall i | 0 <= i < |g.similarities|
      ensures g.similarities[i] == getSimilarity(g.titles[i], target) && g.similarities[i] >= floor
    {
      if i >= |f.similarities| {
        var j := i - |f.similarities|;
        assert g.similarities[i] == Similarities(d)[j];
        assert g.titles[i] == Titles(d)[j];
        assert d.keys[j] in d.vals;
      }
    }
  }

  lemma ScoredLower<E>(f: Found<E>, target: string, getSimilarity: (string, string) -> real, floor: real, lower: real)
    requires Aligned(f) && Scored(f, target, getSimilarity, floor) && lower <= floor
    ensures Scored(f, target, getSimilarity, lower)
  {
  }

  /** One page on top of a scored search keeps it scored, at the floor the
      page's ramp-down leaves. */
  lemma {:induction false} NextScored<E>(prev: (Found<E>, real), page: seq<Product<E>>, t: string, cfg: Config,
                                         getSimilarity: (string, string) -> real)
    requires prev.1 >= 0.0 && Aligned(prev.0) && Scored(prev.0, Lower(t), getSimilarity, cfg.base - prev.1)
    ensures var r := Next(Some(prev), Some(page), t, cfg, getSimilarity);
      r.Some? && Scored(r.value.0, Lower(t), getSimilarity, cfg.base - r.value.1)
  {
    var pr := PageResult(page, t, cfg, prev.1, getSimilarity);
    PageRampDown(page, t, cfg, prev.1, getSimilarity);
    PageSimilarities(page, t, cfg, prev.1, getSimilarity);
    ScoredLower(prev.0, Lower(t), getSimilarity, cfg.base - prev.1, cfg.base - pr.1);
    AppendScored(prev.0, pr.0, Lower(t), getSimilarity, cfg.base - pr.1);
  }

  /** Every similarity the search reports belongs to the title reported
      beside it, and reaches the base threshold less the final ramp-down. */
  lemma {:induction false} SearchSimilarities<P, E>(fetch: (string, int) -> P, info: P -> Option<seq<Product<E>>>,
                                                   getSimilarity: (string, string) -> real, cfg: Config, t: string,
                                                   rd: real, n: nat)
    requires rd >= 0.0
    ensures var r := Search(fetch, info, getSimilarity, cfg, t, rd, n);
      r.Some? ==> Scored(r.value.0, Lower(t), getSimilarity, cfg.base - r.value.1)
  {
    if n > 0 {
      SearchSimilarities(fetch, info, getSimilarity, cfg, t, rd, n - 1);
      SearchRampDown(fetch, info, getSimilarity, cfg, t, rd, n - 1);
      var prev := Search(fetch, info, getSimilarity, cfg, t, rd, n - 1);
      var page := info(fetch(t, (n - 1) * cfg.stride));
      if prev.Some? && page.Some? {
        NextScored(prev.value, page.value, t, cfg, getSimilarity);
      }
    }
  }
}
