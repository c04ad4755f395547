# Marketscrape: the comparable-product matching and rating engine, in Dafny

Marketscrape rates a Facebook Marketplace listing against the market. It
searches eBay and Google Shopping for products like the listing. It keeps
the results whose titles are similar enough to the listing's title,
relaxing the similarity threshold page by page when nothing passes. It
drops price outliers, and it rates the listing price against the prices
found. This project models that engine and proves properties of the model:

- **Common**, **OrderedDict**: ASCII character classes, `str.lower` on
  ASCII letters, and a Python `dict` that remembers insertion order
  (`Dict(keys, vals)`).
- **TextNorm**: the query escaping `remove_illegal_characters` /
  `clean_listing_title` and the title cleaning `clean_text` /
  `clean_title_description`.
- **SimilarityKey**: the normalisation `get_similarity` applies before it
  calls `SequenceMatcher.ratio`. The ratio itself is a parameter.
- **PriceText**: the regular expressions that read eBay prices and shipping
  costs and Google Shopping prices and links, and Python's `float()` on
  their matches.
- **Outliers**: `reject_outliers` in both forms, by median absolute
  deviation. `scraper/utils.py` returns indices; `scraper.py` returns
  values. Removal by index is done in lock-step over parallel lists.
- **Matching**: `filter_products_by_similarity`, `construct_candidates`
  and `lowest_price_highest_similarity`, which both scrapers share.
- **Search**: `find_viable_product` of both scraper classes. The scraper is
  a class with the `title`, `start` and `soup` fields the source updates in
  place. There are five pages, a base threshold, and a ramp-down that
  relaxes the threshold by 0.05 and carries over from page to page.
- **Ebay**, **GoogleShopping**: each scraper's constants,
  `remove_outliers` and `get_product_info`.
- **Legacy**: the command-line `scraper.py`. It covers the sentiment
  rating, the older price rating, `listing_product_similarity`,
  `find_viable_product` with its unbounded relaxation, and `valid_url`.
- **Rating**: `price_difference_rating` and `percentage_difference` of
  `scraper/utils.py`.
- **ItemUrl**: `isValidUrl` of `scraper/static/isValidUrl.js`.

Parameters stand for what the engine gets from outside:

- `fetch` stands for fetching and parsing a results page (HTTP and
  BeautifulSoup).
- `ratio` stands for difflib's `SequenceMatcher(None, a, b).ratio()`. Where
  a proof needs it, the ratio is assumed to lie in [0,1]
  (`SimilarityKey.UnitRange`).
- VADER's polarity scores are arguments of `Legacy.SentimentRating`.

Prices and thresholds are exact reals, and integers are unbounded. A
Python exception becomes `None` of an `Option`.

Behaviour of the code worth noting:

- A page whose price text does not parse raises in `get_product_info`. The
  model makes the whole search fail (`Search.SearchFails`). It does not
  treat such a page as empty.
- The relaxation loop tests `consecutively_empty == cap` after filtering
  and before counting. A page therefore gets `cap + 1` relaxations, not
  `cap`, before it gives up (`Search.RelaxRampDown`).
- The ramp-down is not reset between pages. It carries over
  (`Search.PageRampDown`, `Search.SearchRampDown`).
- eBay's `start` is the page number (0 to 4). Google Shopping's is the
  page number times 60.
- `scraper.py`'s `find_viable_product` has no floor under its threshold.
  It also has no cap on relaxations.

## Model

| member | source | states |
|---|---|---|
| Common.Lower | scraper/shop_class.py:141-142 | `str.lower` on ASCII letters: each character is mapped on its own, and no upper-case ASCII letter is left |
| Common.LowerIdempotent | scraper/shop_class.py:141-142 | lower-casing twice is lower-casing once |
| Common.DeleteChar | scraper/shop_class.py:62 | `s.replace(c, "")` leaves no `c`, keeps every other character, and never lengthens |
| Common.DeleteCharAppend | scraper/shop_class.py:62 | deletion distributes over concatenation, drops `c` and keeps any other single character: the other characters stay, each as often as before, in their order |
| Common.MapAll | scraper/shop_class.py:61-63 | a comprehension whose steps may raise fails exactly when one element fails; otherwise it maps element by element |
| OrderedDict.Put | scraper/shop_class.py:354-360 | `d[k] = v`: a new key goes last, an existing key keeps its place, and the map gets `k := v` |
| OrderedDict.BuildContents | scraper/shop_class.py:268-278 | after a run of assignments, a key is present exactly when some assignment used it, and it holds the value of its last assignment |
| OrderedDict.BuildOrder | scraper/shop_class.py:268-278 | the keys are listed in the order of their first assignment |
| OrderedDict.BuildEntries | scraper/shop_class.py:268-278 | re-assigning a dict's own items in order rebuilds that dict |
| OrderedDict.BuildKeysBound | scraper.py:158-164 | a dict has no more keys than assignments, and at least one when there was an assignment |
| TextNorm.RemoveIllegalCharactersPerChar | scraper/utils.py:20-21 | the two `re.sub` passes amount to one left-to-right pass that maps `#` to `%2` and `&` to `%26`; the result holds neither |
| TextNorm.RemoveIllegalCharactersIdentity | scraper.py:110-115 | a title without `#` and `&` is sent unchanged |
| TextNorm.RemoveIllegalCharactersDecodeCounterexample | scraper/utils.py:20 | `#b` is escaped as `%2b`, which percent-decodes to `+` |
| TextNorm.EscapeQueryRoundTrip | scraper/utils.py:20-21 | the corrected escaping (`#` to `%23`) percent-decodes back to the title for every title without `%` |
| TextNorm.ReplaceIllegalRuns | scraper/utils.py:36 | after `[^A-Za-z0-9\s]+` is replaced by a space, no illegal character is left, and a title starting with a non-alphanumeric starts with whitespace |
| TextNorm.CollapseWhitespace | scraper/utils.py:37 | after `\s+` is replaced by a space, the only whitespace is single spaces, never two in a row, every other character comes from the input, and the result starts with a space exactly when the input starts with whitespace |
| TextNorm.ReplaceIllegalRunsPieces | scraper/utils.py:36 | a run of illegal characters of any length becomes one space; any other character is kept |
| TextNorm.ReplaceIllegalRunsAppend | scraper/utils.py:36 | the replacement distributes over a concatenation whose seam is not inside an illegal run, so each maximal run becomes one space and the rest is kept in order |
| TextNorm.CollapseWhitespacePieces | scraper/utils.py:37 | a whitespace run of any length becomes one space; any other character is kept |
| TextNorm.CollapseWhitespaceAppend | scraper/utils.py:37 | collapsing distributes over a concatenation whose seam is not inside a whitespace run, so each maximal run becomes one space and the rest is kept in order |
| TextNorm.ReplaceIllegalRunsKeepsAlnums | scraper/utils.py:36 | the first substitution keeps every ASCII letter and digit, in order |
| TextNorm.CollapseWhitespaceKeepsAlnums | scraper/utils.py:37 | the second substitution keeps every ASCII letter and digit, in order |
| TextNorm.CleanTextKeepsAlnums | scraper/utils.py:36-37 | `clean_text` keeps the title's ASCII letters and digits, in order |
| TextNorm.CleanTextIsClean | scraper/utils.py:36-37 | `clean_text` gives only ASCII letters, digits and single spaces |
| TextNorm.CleanTextIdempotent | scraper.py:144-150 | cleaning a cleaned title changes nothing |
| TextNorm.CleanTextNotTrimmed | scraper/utils.py:36-37 | the result is not trimmed: a title starting with punctuation gives one starting with a space |
| SimilarityKey.Strip | scraper/shop_class.py:141-142 | `str.strip` leaves no whitespace at either end |
| SimilarityKey.StripExact | scraper/shop_class.py:141-142 | `str.strip` removes exactly the leading and trailing whitespace and keeps the text between |
| SimilarityKey.Words | scraper/shop_class.py:144-145 | `str.split()` gives non-empty words without whitespace |
| SimilarityKey.WordsPieces | scraper/shop_class.py:144-145 | whitespace alone has no words; a text without whitespace is one word |
| SimilarityKey.WordsAppend | scraper/shop_class.py:144-145 | splitting distributes over a concatenation whose seam is not inside a word, so the words are the maximal non-whitespace runs, in order |
| SimilarityKey.DeletePunctuation | scraper/shop_class.py:147-149 | `translate` deletes `string.punctuation` and keeps only characters of the input |
| SimilarityKey.DeletePunctuationAppend | scraper/shop_class.py:147-149 | deletion distributes over concatenation, drops a punctuation character and keeps any other: the rest stays in order |
| SimilarityKey.KeyCharacters | scraper/shop_class.py:141-149 | the compared key holds no punctuation, no upper-case ASCII letter, and no whitespace but spaces |
| SimilarityKey.KeyKeepsAlnums | scraper/shop_class.py:141-149 | the key keeps every ASCII letter and digit of the lower-cased title, in order |
| SimilarityKey.StripKeepsAlnums | scraper/shop_class.py:141-142 | stripping keeps every ASCII letter and digit, in order |
| SimilarityKey.WordsJoinKeepsAlnums | scraper/shop_class.py:144-145 | splitting and re-joining keeps every ASCII letter and digit, in order |
| SimilarityKey.DeletePunctuationKeepsAlnums | scraper/shop_class.py:147-149 | deleting punctuation keeps every ASCII letter and digit, in order |
| SimilarityKey.KeyCollapsesBeforeDeleting | scraper/shop_class.py:144-149 | whitespace is collapsed before punctuation is deleted, so `a - b` compares as `a  b` with two spaces |
| SimilarityKey.KeyIgnoresCase | scraper/shopping_class.py:101-102 | lower-casing a title before comparing it changes nothing |
| SimilarityKey.SimilarityProperties | scraper/shopping_class.py:101-114 | the similarity lies in [0,1], depends on a title only through its key, and is the same for the lower-cased title |
| PriceText.PyFloat | scraper/shop_class.py:63 | `float()` of a digit-and-dot text is non-negative when it succeeds |
| PriceText.PyFloatAccepts | scraper/shop_class.py:63 | `float()` succeeds on such a text exactly when it has a digit and at most one dot |
| PriceText.PyFloatDecimal | scraper/shop_class.py:63 | `float("a.c")` is a plus the fraction c, and `float("a")` is a |
| PriceText.Leftmost | scraper/shop_class.py:61 | `re.search` reports the first position where the pattern matches, and nothing matches before it |
| PriceText.SepNumberChars | scraper/shop_class.py:61 | a match of `[0-9]+<sep>[0-9]+` consists of digits and the separator |
| PriceText.EbayPriceDecimal | scraper/shop_class.py:61-63 | `$a.c` reads as a.c |
| PriceText.EbayPriceDropsCents | scraper/shop_class.py:61-63 | as written, `$a,b.c` reads as the integer ab and loses its cents |
| PriceText.EbayPriceExampleGrouped | scraper/shop_class.py:61-63 | as written, `$1,234.56` reads as 1234.0 |
| PriceText.EbayPriceWholeNumber | scraper/shop_class.py:61 | a price without a separator, such as `$5`, has no match, so `.group(0)` raises |
| PriceText.EbayPriceCorrectedKeepsCents | scraper/shop_class.py:61-63 | under the corrected pattern `$a,b.c` reads as ab.c |
| PriceText.EbayPriceCorrectedExampleGrouped | scraper/shop_class.py:61-63 | under the corrected pattern `$1,234.56` reads as 1234.56 |
| PriceText.EbayPriceCorrectedAgrees | scraper/shop_class.py:61-63 | on text without a comma the corrected reading equals the written one |
| PriceText.PriceEndCorrectedAgrees | scraper/shop_class.py:61-63 | without a comma both patterns match at the same places with the same ends |
| PriceText.EbayShipping | scraper/shop_class.py:103-104 | a shipping cost, when it parses, is never negative |
| PriceText.EbayShippingFree | scraper/shop_class.py:103-104 | text whose first match is `Free` costs 0 |
| PriceText.EbayShippingNotSpecified | scraper/shop_class.py:103-104 | text whose first match is `not specified` costs 0 |
| PriceText.EbayShippingAmount | scraper/shop_class.py:103-104 | `$a.c` shipping costs a.c |
| PriceText.ShoppingPriceGrouped | scraper/shopping_class.py:61-63 | `$a,b.c` reads as ab.c on Google Shopping |
| PriceText.ShoppingPriceNoNumber | scraper/shopping_class.py:62-63 | a text with no leading price character gives an empty match, and `float("")` raises |
| PriceText.RemoveAll | scraper/shopping_class.py:83 | `replace(pat, "")` never lengthens and keeps only characters of the link |
| PriceText.RemoveAllSkip | scraper/shopping_class.py:83 | the first occurrence is removed and the text before it kept; removal goes on after it, so the text between occurrences stays in order |
| PriceText.RemoveAllIdentity | scraper/shopping_class.py:83 | the link is left unchanged exactly when it holds no `/url?url=` |
| Outliers.InsertSorted | scraper/utils.py:74-77 | inserting into a sorted sample keeps it sorted and adds one occurrence (the order `np.median` reads) |
| Outliers.InsertPermutes | scraper/utils.py:74-77 | inserting adds exactly one occurrence of the value |
| Outliers.SortSorted | scraper/utils.py:77 | the sorted sample is sorted and a permutation of the sample |
| Outliers.SortedUnique | scraper/utils.py:77 | two sorted arrangements of one sample are equal, so the median does not depend on how it is sorted |
| Outliers.MedianBounds | scraper/utils.py:77 | the median lies between the least and the greatest sample value |
| Outliers.MedianOfConstant | scraper/utils.py:77 | the median of a constant sample is that constant |
| Outliers.MedianBySorting | scraper/utils.py:77-80 | the median is read off any sorted arrangement of the sample |
| Outliers.Deviations | scraper/utils.py:77 | one deviation per value, never negative, and 0 exactly at the values equal to the median |
| Outliers.Divisor | scraper/utils.py:80-82 | the divisor is positive, so the division never raises |
| Outliers.Scores | scraper/utils.py:77-82 | one score per value, never negative, 0 exactly at the median, and ranking the values by their distance from the median in both directions |
| Outliers.RejectOutlierIndices | scraper/utils.py:73-86 | an empty sample gives `[]`; otherwise the indices are increasing and exactly those whose score is at least m |
| Outliers.RejectOutliersConstant | scraper/utils.py:80-84 | a constant sample has no outliers for any positive m |
| Outliers.RejectOutliersExample | scraper/utils.py:57-86 | in `[10, 11, 9, 10, 200]` at m = 1.5 the only outlier is index 4 |
| Outliers.RemoveAtIsKept | scraper/shop_class.py:176-180 | `[x for i, x in enumerate(xs) if i not in idx]` keeps exactly the elements at the indices not in idx, in order |
| Outliers.LockStep | scraper/shop_class.py:176-180 | removing one index set from two equal-length lists leaves equal-length lists whose j-th elements came from the same position |
| Outliers.RejectOutlierValuesIsRemoval | scraper.py:211-215 | `data[standard < m]` equals removing the outlier indices from the data |
| Matching.FilterUpTo | scraper/shop_class.py:346-364 | every title kept has a similarity at least the threshold, and the dict stays well formed |
| Matching.FilterProductsBySimilarity | scraper/shop_class.py:346-364 | the loop computes the filter function, including the early return on a negative similarity |
| Matching.FilterSimilarities | scraper/shop_class.py:349-359 | the similarity stored under a title is that title's own similarity to the target |
| Matching.FilterKeys | scraper/shopping_class.py:289-305 | a title is kept exactly when some product has it and that product's similarity reaches the threshold |
| Matching.FilterValues | scraper/shop_class.py:353-360 | the fields stored under a title are those of the last product with that title |
| Matching.FilterMonotone | scraper/shop_class.py:353 | lowering the threshold never loses a title |
| Matching.FilterAllPass | scraper/shop_class.py:353 | at a threshold of 0 or below the filter is empty exactly when the page is |
| Matching.FilterNegative | scraper/shop_class.py:350-362 | a negative similarity ends the filter with what it had before that product |
| Matching.FilterStops | scraper/shop_class.py:361-362 | once the filter has ended, the rest of the list is ignored |
| Matching.FilterRuns | scraper/shop_class.py:350-351 | with similarities in [0,1] the filter never ends early |
| Matching.ConstructCandidates | scraper/shop_class.py:268-278 | None exactly when a parallel list is shorter than the descriptions, where indexing raises IndexError; otherwise one entry per distinct description, in first-assignment order, holding the fields of the last row with that description |
| Matching.CandidatesContents | scraper/shop_class.py:268-278 | the assignments leave exactly the descriptions as keys, in first-assignment order, each with the last row's fields |
| Matching.CandidatesRoundTrip | scraper/shopping_class.py:216-224 | constructing candidates from one filtered dict's lists gives that dict back |
| Matching.BestUnique | scraper/shop_class.py:247-249 | at most one entry is the best |
| Matching.LowestPriceHighestSimilarity | scraper/shop_class.py:234-251 | None exactly for an empty dict; otherwise the entry that has the highest similarity and, among those, the lowest price, the first one on ties |
| Matching.HighestSimilarity | scraper/shop_class.py:234-245 | the first loop: None exactly for an empty dict, otherwise the details of an entry whose similarity no entry exceeds |
| Matching.LowestPriceAmong | scraper/shop_class.py:247-249 | among the entries of the given similarity, the first of lowest price, or None when there is none |
| Rating.PriceDifferenceRating | scraper/utils.py:104-110 | None exactly where the division raises; otherwise in [0,5], and 5 when the listing is no dearer than the market |
| Rating.PriceDifferenceRatingProportional | scraper/utils.py:106-110 | above a non-negative market price the rating is 5 times market over listing |
| Rating.PriceDifferenceRatingMonotone | scraper/utils.py:104-110 | a higher market price never lowers the rating |
| Rating.Percent | scraper/utils.py:132 | a float64 quotient is finite exactly when the price is non-zero, and NaN exactly for 0/0 |
| Rating.PercentageDifference | scraper/utils.py:126-140 | "decrease" exactly when the listing is dearer; the amount is finite exactly when the larger price is non-zero |
| Rating.PercentageBounds | scraper/utils.py:131-138 | for non-negative prices, not both 0, the amount is a finite percentage in [0,100] |
| Rating.PercentageRecovers | scraper/utils.py:131-138 | taking the percentage off the larger price gives back the smaller price |
| Rating.PercentageEqualPrices | scraper/utils.py:136-138 | equal prices are an increase of 0, or NaN when both are 0 |
| Search.Relax | scraper/shop_class.py:313-323 | the relaxation loop always yields a well-formed dict |
| Search.Next | scraper/shop_class.py:325-330 | a page on top of the search so far succeeds exactly when both do, and keeps the lists aligned |
| Search.Search | scraper/shop_class.py:302-332 | the lists a successful search returns are aligned |
| Search.ProductScraper.constructor | scraper/shop_class.py:6-9 | a scraper starts with no page, and with the empty title and start 0 standing for the source's None; its similarity is the ratio of the two keys |
| Search.ProductScraper.CreateUrl | scraper/shop_class.py:11-27 | the page for the current title and start is fetched; title and start are unchanged |
| Search.ProductScraper.ListingProductSimilarity | scraper/shop_class.py:366-381 | the page's products filtered against the lower-cased title, or None when the page cannot be read |
| Search.ProductScraper.RampDown | scraper/shop_class.py:312-323 | the relaxation loop computes `Relax`: up to cap + 1 steps of 0.05, stopping at the first non-empty result |
| Search.ProductScraper.ScrapePage | scraper/shop_class.py:303-330 | one page sets title and start and fetches their soup, filters at the base threshold, relaxes when that gives nothing, and appends the result (`Next`) |
| Search.ProductScraper.FindViableProduct | scraper/shop_class.py:295-332 | the five-page loop returns exactly the lists of `Search`, and None once a page cannot be read; afterwards the scraper holds the title, the start of the last page read and that page's soup |
| Search.SearchFailureStays | scraper/shop_class.py:302-306 | a page that cannot be read ends the search for good |
| Search.RelaxRampDown | scraper/shop_class.py:313-323 | the relaxation adds 1 to cap + 1 steps, and all cap + 1 exactly when it gives up empty |
| Search.RelaxThreshold | scraper/shop_class.py:315-316 | the relaxation's result is the page filtered at the base threshold less the ramp-down it reached |
| Search.RelaxScored | scraper/shop_class.py:312-323 | every similarity the relaxation keeps is its title's similarity and reaches the threshold it stopped at |
| Search.RelaxFinds | scraper/shop_class.py:314-316 | when the last threshold the relaxation may try is 0 or below, a non-empty page yields something |
| Search.PageRampDown | scraper/shopping_class.py:253-268 | a page leaves the ramp-down alone exactly when the base threshold finds something; otherwise it adds 1 to cap + 1 steps, and all of them when the page ends empty |
| Search.PageSimilarities | scraper/shopping_class.py:254-261 | every title a page yields carries its own similarity, and that similarity reaches the threshold the page stopped at |
| Search.ShoppingPageFinds | scraper/shopping_class.py:248-268 | Google Shopping relaxes to 0.25 − 6 × 0.05 < 0, so every non-empty page yields something |
| Search.EbayPageFinds | scraper/shop_class.py:303-323 | a non-empty eBay page always yields something once the ramp-down brought in is at least 0.20 |
| Search.SearchFails | scraper/shop_class.py:302-309 | the search fails exactly when one of its pages cannot be read |
| Search.SearchRampDown | scraper/shop_class.py:302-323 | over n pages the ramp-down never falls, and it rises by at most n × (cap + 1) steps |
| Search.NextScored | scraper/shop_class.py:325-330 | appending a page keeps every reported similarity tied to its title and above the lowered floor |
| Search.SearchSimilarities | scraper/shop_class.py:325-330 | every reported similarity is its title's similarity to the lower-cased listing title, and reaches the base threshold less the final ramp-down |
| Ebay.RemoveOutliers | scraper/shop_class.py:170-182 | with fewer than 100 titles every list is returned unchanged |
| Ebay.RemoveOutliersLockStep | scraper/shop_class.py:173-180 | from 100 titles on, aligned columns stay aligned, and each surviving row comes whole from one original row |
| Ebay.ShippingSurvives | scraper/shop_class.py:178 | removal keeps shipping costs non-negative |
| Ebay.Country | scraper/shop_class.py:108-125 | a location text comes back unchanged exactly when it holds no `from ` (`PriceText.RemoveAllIdentity`); otherwise each occurrence is removed (`PriceText.RemoveAllSkip`) |
| Ebay.CountryOfLocation | scraper/shop_class.py:122-123 | the text `from <place>` gives the place itself |
| Ebay.Zip | scraper/shop_class.py:210 | `zip` gives as many rows as the shortest list |
| Ebay.InfoProperties | scraper/shop_class.py:184-219 | a page is read exactly when every price and shipping text parses; then every title is clean, every shipping cost is non-negative, and there are no more products than titles |
| Ebay.GetProductInfo | scraper/shop_class.py:201-219 | the method computes `Info` |
| Ebay.ZipRows | scraper/shop_class.py:209-217 | the append loop builds the zipped rows |
| Ebay.NewScraper | scraper/shop_class.py:6-9 | an eBay scraper reads pages with `Info` and uses eBay's constants |
| Ebay.PageRampDownBound | scraper/shop_class.py:312-323 | an eBay page raises the ramp-down by at most 3 × 0.05 |
| GoogleShopping.RemoveOutliersLockStep | scraper/shopping_class.py:129-135 | aligned columns stay aligned, and each surviving row comes whole from one original row |
| GoogleShopping.RemoveOutliersConstant | scraper/shopping_class.py:129-135 | a page whose prices are all equal loses nothing |
| GoogleShopping.Zip | scraper/shopping_class.py:161 | `zip` gives as many rows as the shortest list |
| GoogleShopping.InfoProperties | scraper/shopping_class.py:154-168 | a page is read exactly when every price text parses; then every title is clean and there are no more products than titles |
| GoogleShopping.GetProductInfo | scraper/shopping_class.py:154-168 | the method computes `Info` |
| GoogleShopping.ZipRows | scraper/shopping_class.py:160-166 | the append loop builds the zipped rows |
| GoogleShopping.NewScraper | scraper/shopping_class.py:6-9 | a Google Shopping scraper reads pages with `Info` and uses its constants |
| GoogleShopping.PageRampDownBound | scraper/shopping_class.py:257-268 | a Google Shopping page raises the ramp-down by at most 6 × 0.05 |
| Legacy.SentimentRating | scraper.py:35-42 | the rating is non-negative and is 5 times one of the scores the branches pick |
| Legacy.SentimentScale | scraper.py:35-42 | on VADER's ranges the rating is at most 5; a negative compound score rates 5 × its magnitude, so a negative description rates high |
| Legacy.PriceDifferenceRatingLegacy | scraper.py:62-71 | None exactly where the division raises; 5 when the listing is no dearer |
| Legacy.LegacyRatingRatio | scraper.py:66-69 | above the market, the rating is 5 × market / listing: below 5 for a non-negative market, and above 5 for a negative listing price |
| Legacy.LegacyRatingAgrees | scraper.py:62-71 | the older and newer ratings agree whenever the market price is non-negative and below the listing |
| Legacy.ProductPrices | scraper.py:117-136 | the page's prices fail exactly when one text does not parse; otherwise there are no more prices than texts |
| Legacy.ListingProductSimilarity | scraper.py:152-173 | the two loops compute `ListingPrices`, or None when a price text does not parse |
| Legacy.FillPriceDescription | scraper.py:158-164 | the first loop builds the dict of the zipped rows, a repeated description overwriting its entry in place |
| Legacy.PricesAbove | scraper.py:166-171 | the second loop collects, in key order, the prices whose similarity reaches the threshold |
| Legacy.ListingPricesSound | scraper.py:158-173 | every price returned is the price of a zipped row whose description reaches the threshold, and there are no more prices than rows |
| Legacy.ListedPriceOrigin | scraper.py:158-173 | one returned price traced back to a zipped row whose description reaches the threshold |
| Legacy.ListingPricesComplete | scraper.py:158-173 | the price of the last row with a given description is returned when its similarity reaches the threshold |
| Legacy.ListingPricesAllPass | scraper.py:166-171 | at a threshold of 0 or below a page with a zipped row yields a price |
| Legacy.Relax | scraper.py:193-196 | the unbounded relaxation ends with a non-empty list of prices |
| Legacy.EmptyPageNeverSettles | scraper.py:193-196 | a parsed page without a zipped row yields no price at any threshold, so the loop as written never ends |
| Legacy.TerminatesExactly | scraper.py:193-196 | on a parsed page the loop ends exactly when the page has a zipped row |
| Legacy.RelaxBounded | scraper.py:193-196 | a relaxation that stops once the threshold reaches 0: any prices it gives are non-empty and the page's at the threshold it stopped at |
| Legacy.RelaxBoundedAgrees | scraper.py:193-196 | wherever the loop as written ends, the bounded relaxation gives the same prices and ramp-down |
| Legacy.RelaxBoundedEmptyPage | scraper.py:193-196 | on a parsed page without a zipped row the bounded relaxation gives up with None |
| Legacy.ViablePrices | scraper.py:187-196 | the prices settled on are non-empty, or None when a price text does not parse |
| Legacy.SeqMin | scraper.py:201 | `min(prices)` is an element, and no element is smaller |
| Legacy.SeqMax | scraper.py:201 | `max(prices)` is an element, and no element is larger |
| Legacy.FindViableProduct | scraper.py:175-201 | the method returns the least and greatest of the settled prices and the median the caller supplies, or None when a price does not parse |
| Legacy.RampDown | scraper.py:191-196 | the `while len(prices) == 0` loop computes `Relax` |
| Legacy.RelaxStep | scraper.py:191-196 | one round of the loop: it stops when the next threshold yields prices, and otherwise continues with fewer steps left |
| Legacy.RelaxBounds | scraper.py:193-196 | the relaxation raises the ramp-down by at least one whole step and ends at most one step above the larger of its start and 0.45; the prices are the page's at 0.45 less the final ramp-down |
| Legacy.SettleBounds | scraper.py:187-196 | the prices settled on are the page's at the final threshold; the ramp-down grows by whole steps and ends at most one step above the larger of its start and 0.45 |
| Legacy.ViablePricesSound | scraper.py:187-201 | the least price is at most the greatest, the ramp-down never falls, and every settled price is the price of a row whose description reaches the final threshold |
| Legacy.ValidUrlAsWrittenAcceptsLookalike | scraper.py:204 | the unescaped dots accept `https://wwwXfacebookYcom/` |
| Legacy.ValidUrlNarrows | scraper.py:203-207 | the corrected check accepts exactly what the pattern accepts with literal dots at the two positions |
| ItemUrl.MatchAtMeaning | scraper/static/isValidUrl.js:2 | the digit-run decision agrees with the pattern: the prefix, 15 or 16 digits and a `/` |
| ItemUrl.IsValidUrlMeaning | scraper/static/isValidUrl.js:1-9 | a URL is accepted exactly when the pattern matches at some position |
| ItemUrl.IsValidUrlInContext | scraper/static/isValidUrl.js:2-4 | the pattern is not anchored: text around an accepted URL keeps it accepted |
| ItemUrl.AcceptedAt | scraper/static/isValidUrl.js:2-4 | a URL holding an item link with 15 or 16 digits is accepted |
| ItemUrl.ItemIdLength | scraper/static/isValidUrl.js:2 | an item id of 14 digits or fewer, or 17 or more, does not match there |
| ItemUrl.EscapedDots | scraper/static/isValidUrl.js:2 | the escaped dots reject a look-alike host that the Python `valid_url` pattern accepts |

## Left out

- Fetching pages and parsing HTML (`create_soup`, `find_all`, `.text`) are left out. A fetched page is a parameter: the texts of its elements. The currency converter, the database, the charts and the Django views are left out too.
- difflib's `SequenceMatcher.ratio` is left out. It is a parameter, with values in [0,1] assumed where a proof needs them.
- `scraper.py`'s `clean_text` is left out. It relies on NLTK's tokenizer, stop-word list and lemmatizer. VADER's `polarity_scores` is also left out; its four scores are arguments.
- `statistics.median_grouped` is left out. `Legacy.FindViableProduct` takes the median of the prices as an argument.
- Floating point: prices, similarities and thresholds are exact reals. 0.45 − 0.05 is exactly 0.40 here, and repeated `+= 0.05` does not accumulate rounding error.
- `Rating.PercentageDifference`: the `f"{percentage:.2f}"` formatting is left out, so the amount is the exact quotient. An infinite quotient is `PosInfinity`; the sign of a −0.0 divisor is not tracked.
- `Search.ProductScraper.FindViableProduct`: the `f"{price:,.2f}"` formatting of prices and shipping costs is left out, so the model returns the prices as numbers.
- `Legacy.FindViableProduct` requires that the fetched page parses and has at least one row (`Legacy.Terminates`). On a parsed page without a row the source loops forever (`Legacy.TerminatesExactly`); see Findings.
- Query escaping is modelled twice. `TextNorm.RemoveIllegalCharacters` is the code as written, and `Legacy.FindViableProduct` uses it. `TextNorm.EscapeQuery` is the corrected escaping of Findings.
- eBay prices are modelled twice. `PriceText.EbayPrice` is the pattern as written, and `Ebay.Info` uses it. `PriceText.EbayPriceCorrected` is the corrected pattern of Findings.
- Common.DeleteChar: its own contract states which characters are left; that the others keep their order and number is stated by `Common.DeleteCharAppend`.
- TextNorm.ReplaceIllegalRuns: its own contract states the character classes of the result; that each illegal run becomes one space and the rest is kept in order is stated by `TextNorm.ReplaceIllegalRunsAppend` and `TextNorm.ReplaceIllegalRunsPieces`.
- TextNorm.CollapseWhitespace: its own contract states the shape of the result; that each whitespace run becomes one space and the rest is kept in order is stated by `TextNorm.CollapseWhitespaceAppend` and `TextNorm.CollapseWhitespacePieces`.
- SimilarityKey.DeletePunctuation: its own contract states which characters are left; that the others are kept in order is stated by `SimilarityKey.DeletePunctuationAppend`.
- SimilarityKey.Strip: its own contract states the ends of the result; that exactly the outer whitespace goes is stated by `SimilarityKey.StripExact`.
- SimilarityKey.Words: its own contract states the shape of the words; that they are the maximal runs, in order, is stated by `SimilarityKey.WordsAppend` and `SimilarityKey.WordsPieces`.
- PriceText.RemoveAll: its own contract states length and membership; that the text between occurrences is kept in order is stated by `PriceText.RemoveAllSkip` and `PriceText.RemoveAllIdentity`.
- Common.Lower, SimilarityKey.Strip, SimilarityKey.Words, TextNorm.CollapseWhitespace: case and whitespace are ASCII only. Python's `str.lower`, `str.strip`, `str.split` and `\s` also act on Unicode characters (U+00A0 no-break space is whitespace there, U+212A Kelvin sign lower-cases to `k`, and `'İ'.lower()` is two characters long); the model leaves such characters as they are.
- The loop bodies of `find_viable_product` and `get_product_info`, and the relaxation loops, are separate methods (`ScrapePage`, `ZipRows`, `RampDown`, `FillPriceDescription`, `PricesAbove`, `HighestSimilarity`, `LowestPriceAmong`). Each is proved against its specification function or the property its loop establishes. The statements and their order are the source's.
- `get_product_title`, `get_product_condition` and `get_product_url`'s `find` are left out. They only read element texts, which are part of the page parameter.
- Exceptions (`ZeroDivisionError`, `AttributeError` of `.group(0)` on a failed search, `ValueError` of `float()`) become `None`. Their messages are not modelled.
- `main` and `print_results` of `scraper.py` are input/output and left out. So is the form handler of `isValidUrl.js`.

## Findings

| source | as written | input that shows it | evidently intended | confidence | as-written member | corrected member |
|---|---|---|---|---|---|---|
| scraper/utils.py:20 (also scraper.py:112) | `#` is replaced by `%2` | the title `#b` is sent as `%2b`, which the server decodes to `+` | `#` becomes `%23`, so the query decodes back to the title | high, not executed | TextNorm.RemoveIllegalCharactersDecodeCounterexample | TextNorm.EscapeQueryRoundTrip |
| scraper/shop_class.py:61-63 | `([0-9]+\.[0-9]+)\|([0-9]+,[0-9]+)` matches only `1,234` in `$1,234.56` | `$1,234.56` is read as 1234.0 | a thousands separator is kept with the cents: 1234.56 | high, not executed | PriceText.EbayPriceDropsCents | PriceText.EbayPriceCorrectedKeepsCents |
| scraper.py:193-196 | `while len(prices) == 0` has no bound | a results page that parses but has no description or no price: every threshold yields `[]`, so the loop never ends | give up once the threshold reaches 0, as the class scrapers give up after a bounded number of relaxations | medium, not executed | Legacy.EmptyPageNeverSettles | Legacy.RelaxBoundedAgrees |
| scraper.py:204 | the dots in `^https://www.facebook.com/` are unescaped and match any character | `https://wwwXfacebookYcom/` is accepted | only the facebook.com host is accepted | medium, not executed | Legacy.ValidUrlAsWrittenAcceptsLookalike | Legacy.ValidUrlNarrows |
