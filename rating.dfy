/** The two comparisons of a listing price with the market that
    scraper/utils.py offers: a rating out of 5 (price_difference_rating) and
    the relative difference between the listing price and the best price
    found (percentage_difference). Prices are `real`: no float rounding. */
module Rating {
  import opened Common

  function RMin(a: real, b: real): (r: real)
    ensures r <= a && r <= b && (r == a || r == b)
  {
    if a <= b then a else b
  }

  function RMax(a: real, b: real): (r: real)
    ensures r >= a && r >= b && (r == a || r == b)
  {
    if a >= b then a else b
  }

  // ---------------------------------------------------------------------
  // price_difference_rating
  // ---------------------------------------------------------------------

  /** The rating of a listing priced `initial` against a market price
      `final`: full marks when the listing is no dearer, otherwise 5 less
      five times the relative overcharge, clamped to [0,5]. None when the
      division by `initial` raises (an `initial` of 0 above a negative
      `final`). */
  function PriceDifferenceRating(initial: real, final: real): (r: Option<real>)
    ensures r.None? <==> initial == 0.0 && final < 0.0
    ensures r.Some? ==> 0.0 <= r.value <= 5.0
    ensures initial <= final ==> r == Some(5.0)
  {
    if initial <= final then Some(5.0)
    else if initial == 0.0 then None
    else
      var priceDifference := initial - final;
      var rating := 5.0 - (priceDifference / initial) * 5.0;
      Some(RMax(0.0, RMin(rating, 5.0)))
  }

  /** For a listing dearer than a non-negative market price the clamp never
      bites: the rating is five times the ratio of the market price to the
      listing price. */
  lemma PriceDifferenceRatingProportional(initial: real, final: real)
    requires 0.0 <= final < initial
    ensures PriceDifferenceRating(initial, final) == Some(5.0 * final / initial)
  {
    assert initial / initial == 1.0;
    assert (initial - final) / initial == initial / initial - final / initial;
    assert 5.0 * final / initial == 5.0 * (final / initial);
    DivBetween(final, initial);
  }

  /** A listing priced above a positive market price never rates higher
      than a listing priced at or below it, and for a fixed listing price a
      higher market price never lowers the rating. */
  lemma PriceDifferenceRatingMonotone(initial: real, low: real, high: real)
    requires initial > 0.0 && low <= high
    ensures PriceDifferenceRating(initial, low).value <= PriceDifferenceRating(initial, high).value
  {
    if high < initial {
      DivMonotone(initial - high, initial - low, initial);
    }
  }

  lemma DivBetween(a: real, b: real)
    requires 0.0 <= a <= b && b > 0.0
    ensures 0.0 <= a / b <= 1.0
  {
    assert a / b * b == a;
  }

  lemma DivMonotone(a: real, b: real, c: real)
    requires a <= b && c > 0.0
    ensures a / c <= b / c
  {
    assert b / c - a / c == (b - a) / c;
  }

  // ---------------------------------------------------------------------
  // percentage_difference
  // ---------------------------------------------------------------------

  /** A float64 quotient as `np.abs(...) / price * 100` produces it: the
      numerator is an `np.float64`, so a division by zero gives infinity or
      NaN instead of raising. */
  datatype Amount = Finite(value: real) | PosInfinity | NaN

  /** "increase" or "decrease". */
  datatype Direction = Increase | Decrease

  datatype Difference = Difference(amount: Amount, direction: Direction)

  /** `distance / price * 100` for a non-negative float64 distance. */
  function Percent(distance: real, price: real): (r: Amount)
    requires distance >= 0.0
    ensures r.Finite? <==> price != 0.0
    ensures r == NaN <==> price == 0.0 && distance == 0.0
  {
    if price != 0.0 then Finite(distance / price * 100.0)
    else if distance > 0.0 then PosInfinity
    else NaN
  }

  /** The difference of a listing price from the best price found, relative
      to the larger of the two when the listing is dearer and to the best
      price otherwise. The placeholder (-1, "NaN") is overwritten on both
      branches, so it never reaches the result. */
  function PercentageDifference(listPrice: real, bestPrice: real): (r: Difference)
    ensures r.direction == Decrease <==> listPrice > bestPrice
    ensures r.amount.Finite? <==> (if listPrice > bestPrice then listPrice else bestPrice) != 0.0
  {
    if listPrice > bestPrice then
      Difference(Percent(listPrice - bestPrice, listPrice), Decrease)
    else
      Difference(Percent(bestPrice - listPrice, bestPrice), Increase)
  }

  /** For non-negative prices, not both zero, the difference is a finite
      percentage between 0 and 100. */
  lemma PercentageBounds(listPrice: real, bestPrice: real)
    requires listPrice >= 0.0 && bestPrice >= 0.0 && (listPrice > 0.0 || bestPrice > 0.0)
    ensures var r := PercentageDifference(listPrice, bestPrice);
      r.amount.Finite? && 0.0 <= r.amount.value <= 100.0
  {
    if listPrice > bestPrice {
      DivBetween(listPrice - bestPrice, listPrice);
    } else {
      DivBetween(bestPrice - listPrice, bestPrice);
    }
  }

  /** The percentage determines the other price: taking `v` percent off
      the reference price (the listing price on a decrease, the best price
      on an increase) gives back the other one. */
  lemma PercentageRecovers(listPrice: real, bestPrice: real)
    ensures var r := PercentageDifference(listPrice, bestPrice);
      r.amount.Finite? ==>
        if r.direction == Decrease then bestPrice == listPrice * (1.0 - r.amount.value / 100.0)
        else listPrice == bestPrice * (1.0 - r.amount.value / 100.0)
  {
    if listPrice > bestPrice {
      if listPrice != 0.0 {
        var v := (listPrice - bestPrice) / listPrice * 100.0;
        assert v / 100.0 == (listPrice - bestPrice) / listPrice;
        assert listPrice * (v / 100.0) == listPrice - bestPrice;
      }
    } else if bestPrice != 0.0 {
      var v := (bestPrice - listPrice) / bestPrice * 100.0;
      assert v / 100.0 == (bestPrice - listPrice) / bestPrice;
      assert bestPrice * (v / 100.0) == bestPrice - listPrice;
    }
  }

  /** Equal prices are an increase of 0 percent, or NaN when both are 0. */
  lemma PercentageEqualPrices(price: real)
    ensures PercentageDifference(price, price) ==
      Difference(if price == 0.0 then NaN else Finite(0.0), Increase)
  {
  }
}
