/** The regular expressions that turn already-extracted price, shipping and
    link texts into values (scraper/shop_class.py and
    scraper/shopping_class.py). `re.search` is modelled as the leftmost
    position at which the pattern matches, the alternatives of a pattern
    being tried in order at each position. */
module PriceText {
  import opened Common

  // ---------------------------------------------------------------------
  // float() on the texts the patterns can produce
  // ---------------------------------------------------------------------

  predicate IsDigitOrDot(c: char) { IsDigit(c) || c == '.' }

  predicate IsDigitOrComma(c: char) { IsDigit(c) || c == ',' }

  /** Value of the digits after a decimal point. */
  function Frac(c: string): real
    requires AllDigits(c)
  {
    DigitsValue(c) as real / Pow10(|c|) as real
  }

  /** Python's `float()` on a string of digits and dots (the only texts the
      price patterns hand it): at least one digit and at most one dot,
      otherwise a ValueError, modelled as None. */
  function PyFloat(t: string): (r: Option<real>)
    requires forall i :: 0 <= i < |t| ==> IsDigitOrDot(t[i])
    ensures r.Some? ==> r.value >= 0.0
  {
    var n := Span(t, IsDigit);
    if n == |t| then
      if n == 0 then None else Some(DigitsValue(t) as real)
    else if !AllDigits(t[n + 1..]) then None
    else if n == 0 && n + 1 == |t| then None
    else Some(DigitsValue(t[..n]) as real + Frac(t[n + 1..]))
  }

  /** float() succeeds exactly on texts with a digit and at most one dot. */
  lemma PyFloatAccepts(t: string)
    requires forall i :: 0 <= i < |t| ==> IsDigitOrDot(t[i])
    ensures PyFloat(t).Some? <==>
      (exists i :: 0 <= i < |t| && IsDigit(t[i])) &&
      (forall i, j :: 0 <= i < j < |t| && t[i] == '.' ==> t[j] != '.')
  {
    var n := Span(t, IsDigit);
    if n < |t| {
      assert t[n] == '.';
      var rest := t[n + 1..];
      if !AllDigits(rest) {
        var j :| 0 <= j < |rest| && !IsDigit(rest[j]);
        assert t[n + 1 + j] == rest[j] == '.';
      } else {
        forall i, j | 0 <= i < j < |t| && t[i] == '.' ensures t[j] != '.' {
          if i == n {
            assert t[j] == rest[j - n - 1];
          }
        }
        if n > 0 {
          assert IsDigit(t[0]);
        } else if n + 1 < |t| {
          assert IsDigit(t[1]) by { assert t[1] == rest[0]; }
        }
      }
    } else {
      if n > 0 {
        assert IsDigit(t[0]);
      }
    }
  }

  /** float() of `a.c` is a plus the fraction c; of `a` alone, a. */
  lemma {:induction false} PyFloatDecimal(a: string, c: string)
    requires AllDigits(a) && AllDigits(c) && |a| > 0
    ensures forall k :: 0 <= k < |a + "." + c| ==> IsDigitOrDot((a + "." + c)[k])
    ensures PyFloat(a + "." + c) == Some(DigitsValue(a) as real + Frac(c))
    ensures PyFloat(a) == Some(DigitsValue(a) as real)
  {
    var t := a + "." + c;
    SpanOfPrefix(a, "." + c, IsDigit);
    assert t == a + ("." + c);
    assert t[..|a|] == a;
    assert t[|a| + 1..] == c;
    SpanOfPrefix(a, [], IsDigit);
    assert a + [] == a;
  }

  // ---------------------------------------------------------------------
  // Leftmost search
  // ---------------------------------------------------------------------

  /** The first position from `i` on at which `endAt` reports a match:
      where `re.search` starts its match. */
  function Leftmost(s: string, endAt: (string, nat) -> Option<nat>, i: nat): (r: Option<nat>)
    ensures r.Some? ==> i <= r.value <= |s| && endAt(s, r.value).Some?
    ensures r.Some? ==> forall j :: i <= j < r.value ==> endAt(s, j).None?
    ensures r.None? ==> forall j :: i <= j <= |s| ==> endAt(s, j).None?
    decreases |s| + 1 - i
  {
    if i > |s| then None
    else if endAt(s, i).Some? then Some(i)
    else Leftmost(s, endAt, i + 1)
  }

  /** Two patterns that match at the same places with the same ends are
      found at the same place. */
  lemma {:induction false} LeftmostSame(s: string, e1: (string, nat) -> Option<nat>,
                                        e2: (string, nat) -> Option<nat>, i: nat)
    requires forall j :: i <= j <= |s| ==> e1(s, j) == e2(s, j)
    ensures Leftmost(s, e1, i) == Leftmost(s, e2, i)
    decreases |s| + 1 - i
  {
    if i <= |s| {
      LeftmostSame(s, e1, e2, i + 1);
    }
  }

  // ---------------------------------------------------------------------
  // eBay price: ([0-9]+\.[0-9]+)|([0-9]+,[0-9]+)
  // ---------------------------------------------------------------------

  /** End of a `[0-9]+<sep>[0-9]+` match starting at `i`. Both runs are
      greedy and the separator is not a digit, so there is no choice. */
  function SepNumberEnd(s: string, i: nat, sep: char): (r: Option<nat>)
    ensures r.Some? ==> i < r.value <= |s|
  {
    if i >= |s| then None
    else
      var a := Span(s[i..], IsDigit);
      if a > 0 && i + a < |s| && s[i + a] == sep then
        var b := Span(s[i + a + 1..], IsDigit);
        if b > 0 then Some(i + a + 1 + b) else None
      else None
  }

  /** At each position the dotted alternative is tried first. */
  function EbayPriceEnd(s: string, i: nat): (r: Option<nat>)
    ensures r.Some? ==> i < r.value <= |s|
  {
    var dotted := SepNumberEnd(s, i, '.');
    if dotted.Some? then dotted else SepNumberEnd(s, i, ',')
  }

  /** The characters a match of either alternative consists of. */
  lemma SepNumberChars(s: string, i: nat, sep: char)
    requires SepNumberEnd(s, i, sep).Some?
    ensures forall k :: i <= k < SepNumberEnd(s, i, sep).value ==> IsDigit(s[k]) || s[k] == sep
  {
    var a := Span(s[i..], IsDigit);
    var b := Span(s[i + a + 1..], IsDigit);
    forall k | i <= k < SepNumberEnd(s, i, sep).value ensures IsDigit(s[k]) || s[k] == sep {
      if k < i + a {
        assert s[i..][k - i] == s[k];
      } else if k > i + a {
        assert s[i + a + 1..][k - i - a - 1] == s[k];
      }
    }
  }

  /** get_product_price for one text, as written: the leftmost match, commas
      removed, then float(). No match is an AttributeError on `.group(0)`
      (None here), and it aborts the whole page, not only this entry. */
  function EbayPrice(s: string): (r: Option<real>)
  {
    match Leftmost(s, EbayPriceEnd, 0)
    case None => None
    case Some(i) =>
      var t := DeleteChar(s[i..EbayPriceEnd(s, i).value], ',');
      assert forall k :: 0 <= k < |t| ==> IsDigitOrDot(t[k]) by {
        if SepNumberEnd(s, i, '.').Some? {
          SepNumberChars(s, i, '.');
        } else {
          SepNumberChars(s, i, ',');
        }
        forall k | 0 <= k < |t| ensures IsDigitOrDot(t[k]) {
          assert t[k] in s[i..EbayPriceEnd(s, i).value];
        }
      }
      PyFloat(t)
  }

  /** EbayPrice once the leftmost match is known: float() of the match with
      its commas deleted. */
  lemma EbayPriceMatch(s: string, i: nat)
    requires Leftmost(s, EbayPriceEnd, 0) == Some(i)
    ensures var t := DeleteChar(s[i..EbayPriceEnd(s, i).value], ',');
      (forall k :: 0 <= k < |t| ==> IsDigitOrDot(t[k])) && EbayPrice(s) == PyFloat(t)
  {
    var t := DeleteChar(s[i..EbayPriceEnd(s, i).value], ',');
    if SepNumberEnd(s, i, '.').Some? {
      SepNumberChars(s, i, '.');
    } else {
      SepNumberChars(s, i, ',');
    }
    forall k | 0 <= k < |t| ensures IsDigitOrDot(t[k]) {
      assert t[k] in s[i..EbayPriceEnd(s, i).value];
    }
  }

  /** `$a.c` gives a.c. */
  lemma {:induction false} EbayPriceDecimal(a: string, c: string)
    requires AllDigits(a) && AllDigits(c) && |a| > 0 && |c| > 0
    ensures EbayPrice("$" + a + "." + c) == Some(DigitsValue(a) as real + Frac(c))
  {
    var s := "$" + a + "." + c;
    var m := a + "." + c;
    DropFirst('$', a, '.', c);
    SepNumberEndOf(s, 1, a, '.', c, [], '.');
    assert EbayPriceEnd(s, 1) == Some(|s|);
    NoMatchAtNonDigit(s, 0);
    LeftmostSecond(s, EbayPriceEnd);
    EbayPriceMatch(s, 1);
    assert s[1..|s|] == m;
    NoCommaInDigits(a);
    NoCommaInDigits(c);
    assert ',' !in m;
    DeleteCharAbsent(m, ',');
    assert EbayPrice(s) == PyFloat(m);
    PyFloatDecimal(a, c);
  }

  /** A thousands separator cuts the price: `$a,b.c` is read as the
      integer ab, its cents dropped, because the comma alternative matches
      `a,b` before the dotted one can match `b.c`. */
  lemma {:induction false} EbayPriceDropsCents(a: string, b: string, c: string)
    requires AllDigits(a) && AllDigits(b) && AllDigits(c) && |a| > 0 && |b| > 0 && |c| > 0
    ensures EbayPrice("$" + a + "," + b + "." + c) == Some(DigitsValue(a + b) as real)
  {
    var s := "$" + a + "," + b + "." + c;
    CommaNumberMatch(a, b, c);
    EbayPriceMatch(s, 1);
    assert EbayPrice(s) == PyFloat(DeleteChar(a + "," + b, ','));
    CommaNumberValue(a, b);
  }

  /** In `$a,b.c` the written pattern matches `a,b` only. */
  lemma {:induction false} CommaNumberMatch(a: string, b: string, c: string)
    requires AllDigits(a) && AllDigits(b) && AllDigits(c) && |a| > 0 && |b| > 0 && |c| > 0
    ensures var s := "$" + a + "," + b + "." + c;
      && Leftmost(s, EbayPriceEnd, 0) == Some(1)
      && EbayPriceEnd(s, 1) == Some(2 + |a| + |b|)
      && s[1..2 + |a| + |b|] == a + "," + b
  {
    var s := "$" + a + "," + b + "." + c;
    DropFirstOfGrouped('$', a, ',', b, '.', c);
    SepNumberEndOf(s, 1, a, ',', b, "." + c, '.');
    SepNumberEndOf(s, 1, a, ',', b, "." + c, ',');
    assert SepNumberEnd(s, 1, '.').None?;
    assert EbayPriceEnd(s, 1) == Some(2 + |a| + |b|);
    NoMatchAtNonDigit(s, 0);
    LeftmostSecond(s, EbayPriceEnd);
  }

  /** `a,b` with the comma deleted reads as the integer ab. */
  lemma {:induction false} CommaNumberValue(a: string, b: string)
    requires AllDigits(a) && AllDigits(b) && |a| > 0
    ensures var t := DeleteChar(a + "," + b, ',');
      && (forall k :: 0 <= k < |t| ==> IsDigitOrDot(t[k]))
      && PyFloat(t) == Some(DigitsValue(a + b) as real)
  {
    DeleteSeparator(a, b);
    DigitsConcat(a, b);
    PyFloatDecimal(a + b, "0");
  }

  /** The `[0-9]+<sep>[0-9]+` alternative at `i`, where the text reads a run
      of digits, a non-digit `x`, another run of digits and then something
      that is not a digit: it matches both runs exactly when `x` is `sep`. */
  lemma {:induction false} SepNumberEndOf(s: string, i: nat, a: string, x: char, b: string, rest: string, sep: char)
    requires i <= |s| && s[i..] == a + [x] + b + rest
    requires AllDigits(a) && |a| > 0 && AllDigits(b) && |b| > 0 && !IsDigit(x)
    requires rest == [] || !IsDigit(rest[0])
    ensures SepNumberEnd(s, i, sep) == if x == sep then Some(i + |a| + 1 + |b|) else None
  {
    var t := s[i..];
    var tail := [x] + b + rest;
    assert t == a + tail;
    assert tail[0] == x;
    SpanOfPrefix(a, tail, IsDigit);
    assert Span(s[i..], IsDigit) == |a|;
    assert s[i + |a|] == t[|a|] == x;
    if x == sep {
      assert s[i + |a| + 1..] == b + rest;
      SpanOfPrefix(b, rest, IsDigit);
    }
  }

  /** No number starts at a character that is not a digit. */
  lemma NoMatchAtNonDigit(s: string, i: nat)
    requires i < |s| && !IsDigit(s[i])
    ensures SepNumberEnd(s, i, '.').None? && SepNumberEnd(s, i, ',').None? && EbayPriceEnd(s, i).None?
  {
    assert s[i..][0] == s[i];
  }

  /** `xayc` less its first character. */
  lemma DropFirst(x: char, a: string, y: char, c: string)
    ensures ([x] + a + [y] + c)[1..] == a + [y] + c + []
    ensures ([x] + a + [y] + c)[1..|[x] + a + [y] + c|] == a + [y] + c
  {
    assert ([x] + a + [y] + c)[1..] == a + [y] + c;
  }

  /** `xaybzc` less its first character, and its part `ayb`. */
  lemma DropFirstOfGrouped(x: char, a: string, y: char, b: string, z: char, c: string)
    ensures ([x] + a + [y] + b + [z] + c)[1..] == a + [y] + b + ([z] + c)
    ensures ([x] + a + [y] + b + [z] + c)[1..2 + |a| + |b|] == a + [y] + b
    ensures [x] + a + [y] + b + [z] + c == [x] + (a + [y] + b) + [z] + c
    ensures [x] + a + [y] + b + [z] + c == [x] + (a + [y] + b + [z] + c)
  {
    assert ([x] + a + [y] + b + [z] + c)[1..] == a + [y] + b + ([z] + c);
  }

  /** A pattern that fails at 0 and matches at 1 is found at 1. */
  lemma LeftmostSecond(s: string, endAt: (string, nat) -> Option<nat>)
    requires |s| >= 1 && endAt(s, 0).None? && endAt(s, 1).Some?
    ensures Leftmost(s, endAt, 0) == Some(1)
  {
  }

  /** Deleting the separating comma of `a,b` leaves `ab`. */
  lemma {:induction false} DeleteSeparator(a: string, b: string)
    requires AllDigits(a) && AllDigits(b)
    ensures DeleteChar(a + "," + b, ',') == a + b
  {
    NoCommaInDigits(a);
    NoCommaInDigits(b);
    DeleteOnly(a, ',', b);
  }

  /** Deleting the one occurrence of `c` in `x c y`. */
  lemma {:induction false} DeleteOnly(x: string, c: char, y: string)
    requires c !in x && c !in y
    ensures DeleteChar(x + [c] + y, c) == x + y
  {
    assert x + [c] + y == x + ([c] + y);
    DeleteCharAppend(x, [c] + y, c);
    assert ([c] + y)[1..] == y;
    DeleteCharAbsent(x, c);
    DeleteCharAbsent(y, c);
  }

  lemma DigitsConcat(a: string, b: string)
    requires AllDigits(a) && AllDigits(b)
    ensures AllDigits(a + b)
  {
    forall k | 0 <= k < |a + b| ensures IsDigit((a + b)[k]) {
      if k >= |a| {
        assert (a + b)[k] == b[k - |a|];
      }
    }
  }

  /** A price without a separator, such as `$5`, has no match. */
  lemma EbayPriceWholeNumber(a: string)
    requires AllDigits(a)
    ensures EbayPrice("$" + a) == None
  {
    var s := "$" + a;
    forall j | 0 <= j <= |s| ensures EbayPriceEnd(s, j).None? {
      if 0 < j < |s| {
        assert s[j..] == a[j - 1..] + [];
        SpanOfPrefix(a[j - 1..], [], IsDigit);
      }
    }
  }

  /** The evidently intended pattern `[0-9][0-9,]*\.[0-9]+|[0-9]+,[0-9]+`:
      a grouped number with cents first. */
  function GroupedNumberEnd(s: string, i: nat): (r: Option<nat>)
    ensures r.Some? ==> i < r.value <= |s|
  {
    if i >= |s| || !IsDigit(s[i]) then None
    else
      var j := i + 1 + Span(s[i + 1..], IsDigitOrComma);
      if j < |s| && s[j] == '.' then
        var b := Span(s[j + 1..], IsDigit);
        if b > 0 then Some(j + 1 + b) else None
      else None
  }

  function EbayPriceEndCorrected(s: string, i: nat): (r: Option<nat>)
    ensures r.Some? ==> i < r.value <= |s|
  {
    var grouped := GroupedNumberEnd(s, i);
    if grouped.Some? then grouped else SepNumberEnd(s, i, ',')
  }

  lemma GroupedNumberChars(s: string, i: nat)
    requires GroupedNumberEnd(s, i).Some?
    ensures forall k :: i <= k < GroupedNumberEnd(s, i).value ==> IsDigitOrComma(s[k]) || s[k] == '.'
  {
    var j := i + 1 + Span(s[i + 1..], IsDigitOrComma);
    forall k | i <= k < GroupedNumberEnd(s, i).value ensures IsDigitOrComma(s[k]) || s[k] == '.' {
      if i < k < j {
        assert s[i + 1..][k - i - 1] == s[k];
      } else if k > j {
        assert s[j + 1..][k - j - 1] == s[k];
      }
    }
  }

  function EbayPriceCorrected(s: string): (r: Option<real>)
  {
    match Leftmost(s, EbayPriceEndCorrected, 0)
    case None => None
    case Some(i) =>
      var t := DeleteChar(s[i..EbayPriceEndCorrected(s, i).value], ',');
      assert forall k :: 0 <= k < |t| ==> IsDigitOrDot(t[k]) by {
        if GroupedNumberEnd(s, i).Some? {
          GroupedNumberChars(s, i);
        } else {
          SepNumberChars(s, i, ',');
        }
        forall k | 0 <= k < |t| ensures IsDigitOrDot(t[k]) {
          assert t[k] in s[i..EbayPriceEndCorrected(s, i).value];
        }
      }
      PyFloat(t)
  }

  /** EbayPriceCorrected once the leftmost match is known. */
  lemma EbayPriceCorrectedMatch(s: string, i: nat)
    requires Leftmost(s, EbayPriceEndCorrected, 0) == Some(i)
    ensures var t := DeleteChar(s[i..EbayPriceEndCorrected(s, i).value], ',');
      (forall k :: 0 <= k < |t| ==> IsDigitOrDot(t[k])) && EbayPriceCorrected(s) == PyFloat(t)
  {
    var t := DeleteChar(s[i..EbayPriceEndCorrected(s, i).value], ',');
    if GroupedNumberEnd(s, i).Some? {
      GroupedNumberChars(s, i);
    } else {
      SepNumberChars(s, i, ',');
    }
    forall k | 0 <= k < |t| ensures IsDigitOrDot(t[k]) {
      assert t[k] in s[i..EbayPriceEndCorrected(s, i).value];
    }
  }

  /** The corrected pattern reads `$a,b.c` as ab.c. */
  lemma {:induction false} EbayPriceCorrectedKeepsCents(a: string, b: string, c: string)
    requires AllDigits(a) && AllDigits(b) && AllDigits(c) && |a| > 0 && |b| > 0 && |c| > 0
    ensures EbayPriceCorrected("$" + a + "," + b + "." + c) == Some(DigitsValue(a + b) as real + Frac(c))
  {
    GroupedPriceMatch(a, b, c);
    GroupedPriceValue(a, b, c);
    EbayPriceCorrectedMatch("$" + a + "," + b + "." + c, 1);
  }

  /** In `$a,b.c` the corrected pattern matches all of `a,b.c`. */
  lemma {:induction false} GroupedPriceMatch(a: string, b: string, c: string)
    requires AllDigits(a) && AllDigits(b) && AllDigits(c) && |a| > 0 && |b| > 0 && |c| > 0
    ensures var s := "$" + a + "," + b + "." + c;
      && Leftmost(s, EbayPriceEndCorrected, 0) == Some(1)
      && EbayPriceEndCorrected(s, 1) == Some(|s|)
      && s[1..|s|] == a + "," + b + "." + c
  {
    var w := a + "," + b;
    GroupedChars(a, b, c);
    DropFirstOfGrouped('$', a, ',', b, '.', c);
    GroupedMatch(w, c);
    DropFirst('$', w, '.', c);
  }

  /** `a,b.c` with the comma deleted reads as ab.c. */
  lemma {:induction false} GroupedPriceValue(a: string, b: string, c: string)
    requires AllDigits(a) && AllDigits(b) && AllDigits(c) && |a| > 0 && |b| > 0 && |c| > 0
    ensures var t := DeleteChar(a + "," + b + "." + c, ',');
      && (forall k :: 0 <= k < |t| ==> IsDigitOrDot(t[k]))
      && PyFloat(t) == Some(DigitsValue(a + b) as real + Frac(c))
  {
    DeleteGroupingComma(a, b, c);
    DigitsConcat(a, b);
    PyFloatDecimal(a + b, c);
  }

  /** In `$w.c`, with w a digit followed by digits and commas, the corrected
      pattern matches all of `w.c`. */
  lemma GroupedMatch(w: string, c: string)
    requires w != [] && IsDigit(w[0]) && forall k :: 0 <= k < |w| ==> IsDigitOrComma(w[k])
    requires AllDigits(c) && |c| > 0
    ensures Leftmost("$" + w + "." + c, EbayPriceEndCorrected, 0) == Some(1)
    ensures EbayPriceEndCorrected("$" + w + "." + c, 1) == Some(|w| + |c| + 2)
  {
    var s := "$" + w + "." + c;
    assert EbayPriceEndCorrected(s, 0).None? by {
      assert s[0] == '$';
    }
    GroupedEnd(w, c);
    assert Leftmost(s, EbayPriceEndCorrected, 1) == Some(1);
  }

  lemma GroupedEnd(w: string, c: string)
    requires w != [] && IsDigit(w[0]) && forall k :: 0 <= k < |w| ==> IsDigitOrComma(w[k])
    requires AllDigits(c) && |c| > 0
    ensures GroupedNumberEnd("$" + w + "." + c, 1) == Some(|w| + |c| + 2)
  {
    var s := "$" + w + "." + c;
    var w' := w[1..];
    assert forall k :: 0 <= k < |w'| ==> IsDigitOrComma(w'[k]) by {
      forall k | 0 <= k < |w'| ensures IsDigitOrComma(w'[k]) {
        assert w'[k] == w[k + 1];
      }
    }
    assert s[2..] == w' + ("." + c);
    SpanOfPrefix(w', "." + c, IsDigitOrComma);
    var j := 1 + |w|;
    assert s[j] == '.';
    assert s[j + 1..] == c + [];
    SpanOfPrefix(c, [], IsDigit);
  }

  /** Deleting the grouping comma of `a,b.c` leaves `ab.c`. */
  lemma {:induction false} DeleteGroupingComma(a: string, b: string, c: string)
    requires AllDigits(a) && AllDigits(b) && AllDigits(c)
    ensures DeleteChar(a + "," + b + "." + c, ',') == a + b + "." + c
  {
    NoCommaInDigits(a);
    NoCommaInDigits(b);
    NoCommaInDigits(c);
    Regroup(a, ',', b, '.', c);
    DeleteOnly(a, ',', b + "." + c);
  }

  lemma Regroup(a: string, x: char, b: string, y: char, c: string)
    ensures a + [x] + b + [y] + c == a + [x] + (b + [y] + c)
    ensures a + b + [y] + c == a + (b + [y] + c)
  {
  }

  lemma {:induction false} NoCommaInDigits(a: string)
    requires AllDigits(a)
    ensures ',' !in a
  {
    if a != [] {
      NoCommaInDigits(a[1..]);
      assert a == [a[0]] + a[1..];
    }
  }

  /** On text without a comma the corrected pattern finds what the written
      one finds. */
  lemma {:induction false} EbayPriceCorrectedAgrees(s: string)
    requires ',' !in s
    ensures EbayPriceCorrected(s) == EbayPrice(s)
  {
    forall j | 0 <= j <= |s| ensures EbayPriceEndCorrected(s, j) == EbayPriceEnd(s, j) {
      PriceEndCorrectedAgrees(s, j);
    }
    LeftmostSame(s, EbayPriceEndCorrected, EbayPriceEnd, 0);
  }

  /** Without a comma both patterns match at the same places with the same
      ends: the grouped number is the dotted one, and no comma alternative
      matches. */
  lemma {:induction false} PriceEndCorrectedAgrees(s: string, j: nat)
    requires ',' !in s
    ensures EbayPriceEndCorrected(s, j) == EbayPriceEnd(s, j)
  {
    NoCommaNumber(s, j);
    if j < |s| && IsDigit(s[j]) {
      GroupedIsDotted(s, j);
    }
  }

  /** Without a comma in the text the comma alternative matches nowhere. */
  lemma NoCommaNumber(s: string, j: nat)
    requires ',' !in s
    ensures SepNumberEnd(s, j, ',').None?
  {
    if j < |s| {
      var a := Span(s[j..], IsDigit);
      if a > 0 && j + a < |s| {
        assert s[j + a] in s;
      }
    }
  }

  /** Without a comma, a grouped number starting at a digit is the dotted
      one. */
  lemma GroupedIsDotted(s: string, j: nat)
    requires ',' !in s && j < |s| && IsDigit(s[j])
    ensures GroupedNumberEnd(s, j) == SepNumberEnd(s, j, '.')
  {
    var rest := s[j + 1..];
    forall i | 0 <= i < |rest| ensures IsDigitOrComma(rest[i]) == IsDigit(rest[i]) {
      assert rest[i] == s[j + 1 + i];
      assert s[j + 1 + i] in s;
    }
    SpanSame(rest, IsDigitOrComma, IsDigit);
    assert s[j..][1..] == rest;
    assert Span(s[j..], IsDigit) == 1 + Span(rest, IsDigit);
  }

  /** Two character classes that agree on a text span it alike. */
  lemma {:induction false} SpanSame(t: string, p: char -> bool, q: char -> bool)
    requires forall i :: 0 <= i < |t| ==> p(t[i]) == q(t[i])
    ensures Span(t, p) == Span(t, q)
  {
    if t != [] {
      SpanSame(t[1..], p, q);
    }
  }

  // ---------------------------------------------------------------------
  // eBay shipping: ([0-9]+\.[0-9]+)|(Free)|(not specified)
  // ---------------------------------------------------------------------

  function ShippingEnd(s: string, i: nat): (r: Option<nat>)
    ensures r.Some? ==> i < r.value <= |s|
  {
    var dotted := SepNumberEnd(s, i, '.');
    if dotted.Some? then dotted
    else if i <= |s| && "Free" <= s[i..] then Some(i + 4)
    else if i <= |s| && "not specified" <= s[i..] then Some(i + 13)
    else None
  }

  /** get_product_shipping for one text: `Free` and `not specified` cost
      nothing, a number is read with float(), no match is a failure. */
  function EbayShipping(s: string): (r: Option<real>)
    ensures r.Some? ==> r.value >= 0.0
  {
    match Leftmost(s, ShippingEnd, 0)
    case None => None
    case Some(i) =>
      var dotted := SepNumberEnd(s, i, '.');
      if dotted.None? then
        // the match is `Free` or `not specified`
        Some(0.0)
      else
        SepNumberChars(s, i, '.');
        PyFloat(s[i..dotted.value])
  }

  /** Text whose first match is `Free` costs nothing. */
  lemma EbayShippingFree(rest: string)
    ensures EbayShipping("Free" + rest) == Some(0.0)
  {
    var s := "Free" + rest;
    assert SepNumberEnd(s, 0, '.').None?;
    assert "Free" <= s[0..];
    assert s[0..4] == "Free";
  }

  /** Text whose first match is `not specified` costs nothing too. */
  lemma EbayShippingNotSpecified(rest: string)
    ensures EbayShipping("not specified" + rest) == Some(0.0)
  {
    var s := "not specified" + rest;
    assert SepNumberEnd(s, 0, '.').None?;
    assert !("Free" <= s[0..]) by { assert s[0..][0] == 'n'; }
    assert s[0..13] == "not specified";
    assert "not specified" <= s[0..];
  }

  /** `+$a.c shipping` costs a.c. */
  lemma {:induction false} EbayShippingAmount(a: string, c: string)
    requires AllDigits(a) && AllDigits(c) && |a| > 0 && |c| > 0
    ensures EbayShipping("$" + a + "." + c) == Some(DigitsValue(a) as real + Frac(c))
  {
    var s := "$" + a + "." + c;
    assert ShippingEnd(s, 0).None? by {
      assert SepNumberEnd(s, 0, '.').None?;
      assert !("Free" <= s[0..]) by { assert s[0..][0] == '$'; }
      assert !("not specified" <= s[0..]) by { assert s[0..][0] == '$'; }
    }
    assert s[1..] == a + ("." + c);
    SpanOfPrefix(a, "." + c, IsDigit);
    assert s[1 + |a|] == '.';
    assert s[1 + |a| + 1..] == c + [];
    SpanOfPrefix(c, [], IsDigit);
    assert ShippingEnd(s, 1) == Some(|s|);
    LeftmostSecond(s, ShippingEnd);
    assert s[1..|s|] == a + "." + c;
    PyFloatDecimal(a, c);
  }

  // ---------------------------------------------------------------------
  // Google Shopping price
  // ---------------------------------------------------------------------

  predicate IsPriceChar(c: char) { IsDigit(c) || c == ',' || c == '.' }

  /** get_product_price for one text: delete `$`, take the leading
      (possibly empty) run of `[0-9,.]`, delete commas, then float(). */
  function ShoppingPrice(s: string): (r: Option<real>)
  {
    var u := DeleteChar(s, '$');
    var run := u[..Span(u, IsPriceChar)];
    var t := DeleteChar(run, ',');
    assert forall k :: 0 <= k < |t| ==> IsDigitOrDot(t[k]) by {
      forall k | 0 <= k < |t| ensures IsDigitOrDot(t[k]) {
        assert t[k] in run;
      }
    }
    PyFloat(t)
  }

  /** `$a,b.c` gives ab.c. */
  lemma {:induction false} ShoppingPriceGrouped(a: string, b: string, c: string)
    requires AllDigits(a) && AllDigits(b) && AllDigits(c) && |a| > 0 && |b| > 0 && |c| > 0
    ensures ShoppingPrice("$" + a + "," + b + "." + c) == Some(DigitsValue(a + b) as real + Frac(c))
  {
    GroupedPriceText(a, b, c);
    GroupedPriceValue(a, b, c);
    ShoppingPriceOf("$" + a + "," + b + "." + c, a + "," + b + "." + c);
  }

  /** `$a,b.c` less its `$` is all price characters. */
  lemma {:induction false} GroupedPriceText(a: string, b: string, c: string)
    requires AllDigits(a) && AllDigits(b) && AllDigits(c)
    ensures var w := a + "," + b + "." + c;
      DeleteChar("$" + a + "," + b + "." + c, '$') == w && Span(w, IsPriceChar) == |w|
  {
    var w := a + "," + b + "." + c;
    DropFirstOfGrouped('$', a, ',', b, '.', c);
    GroupedChars(a, b, c);
    DollarDeleted(w);
    SpanOfPrefix(w, [], IsPriceChar);
  }

  /** ShoppingPrice of a text that, once `$` is gone, is all price
      characters. */
  lemma ShoppingPriceOf(s: string, w: string)
    requires DeleteChar(s, '$') == w && Span(w, IsPriceChar) == |w|
    ensures var t := DeleteChar(w, ',');
      (forall k :: 0 <= k < |t| ==> IsDigitOrDot(t[k])) && ShoppingPrice(s) == PyFloat(t)
  {
    assert w[..|w|] == w;
    var t := DeleteChar(w, ',');
    forall k | 0 <= k < |t| ensures IsDigitOrDot(t[k]) {
      assert t[k] in w;
    }
  }

  lemma DollarDeleted(w: string)
    requires '$' !in w
    ensures DeleteChar("$" + w, '$') == w
    ensures w + [] == w
  {
    assert ("$" + w)[1..] == w;
    DeleteCharAbsent(w, '$');
  }

  /** `a,b.c` is made of price characters only. */
  lemma GroupedChars(a: string, b: string, c: string)
    requires AllDigits(a) && AllDigits(b) && AllDigits(c)
    ensures forall k :: 0 <= k < |a + "," + b + "." + c| ==>
      IsPriceChar((a + "," + b + "." + c)[k]) && (a + "," + b + "." + c)[k] != '$'
    ensures forall k :: 0 <= k < |a + "," + b| ==> IsDigitOrComma((a + "," + b)[k])
  {
    var w := a + "," + b + "." + c;
    forall k | 0 <= k < |w| ensures IsPriceChar(w[k]) && w[k] != '$' {
      if k < |a| {
        assert w[k] == a[k];
      } else if |a| < k < |a| + 1 + |b| {
        assert w[k] == b[k - |a| - 1];
      } else if k > |a| + 1 + |b| {
        assert w[k] == c[k - |a| - |b| - 2];
      }
    }
    var v := a + "," + b;
    forall k | 0 <= k < |v| ensures IsDigitOrComma(v[k]) {
      if k < |a| {
        assert v[k] == a[k];
      } else if k > |a| {
        assert v[k] == b[k - |a| - 1];
      }
    }
  }

  /** A text that, once `$` is gone, does not start with a digit, comma or
      dot yields the empty match, and float('') fails. */
  lemma ShoppingPriceNoNumber(s: string)
    requires DeleteChar(s, '$') == [] || !IsPriceChar(DeleteChar(s, '$')[0])
    ensures ShoppingPrice(s) == None
  {
  }

  // ---------------------------------------------------------------------
  // Google Shopping link: href.replace('/url?url=', '')
  // ---------------------------------------------------------------------

  const RedirectPrefix: string := "/url?url="

  /** `s.replace(pat, "")`: occurrences removed left to right, without
      overlap, the rest kept in order. */
  function RemoveAll(s: string, pat: string): (r: string)
    requires |pat| > 0
    ensures |r| <= |s|
    ensures forall k :: 0 <= k < |r| ==> r[k] in s
    decreases |s|
  {
    if s == [] then []
    else if pat <= s then
      var r := RemoveAll(s[|pat|..], pat);
      assert forall k :: 0 <= k < |r| ==> r[k] in s by {
        forall k | 0 <= k < |r| ensures r[k] in s {
          var m :| 0 <= m < |s[|pat|..]| && s[|pat|..][m] == r[k];
          assert s[|pat|..][m] == s[|pat| + m];
          assert |pat| + m < |s| && s[|pat| + m] == r[k];
        }
      }
      r
    else
      var r := RemoveAll(s[1..], pat);
      assert forall k :: 0 <= k < |r| ==> r[k] in s by {
        forall k | 0 <= k < |r| ensures r[k] in s {
          var m :| 0 <= m < |s[1..]| && s[1..][m] == r[k];
          assert s[1..][m] == s[1 + m];
          assert 1 + m < |s| && s[1 + m] == r[k];
        }
      }
      [s[0]] + r
  }

  predicate OccursAt(s: string, pat: string, i: nat)
  {
    i + |pat| <= |s| && s[i..i + |pat|] == pat
  }

  function ProductUrl(href: string): string
  {
    RemoveAll(href, RedirectPrefix)
  }

  lemma OccursAtStart(s: string, pat: string)
    requires |pat| > 0
    ensures OccursAt(s, pat, 0) <==> pat <= s
  {
    if pat <= s {
      assert s[0..|pat|] == pat;
    }
    if OccursAt(s, pat, 0) {
      assert s[..|pat|] == s[0..|pat|];
    }
  }

  lemma OccursAtTail(s: string, pat: string, i: nat)
    requires s != [] && i >= 1
    ensures OccursAt(s, pat, i) <==> OccursAt(s[1..], pat, i - 1)
  {
    if i + |pat| <= |s| {
      assert s[1..][i - 1..i - 1 + |pat|] == s[i..i + |pat|];
      assert OccursAt(s, pat, i) == (s[i..i + |pat|] == pat);
      assert OccursAt(s[1..], pat, i - 1) == (s[1..][i - 1..i - 1 + |pat|] == pat);
    } else {
      assert (i - 1) + |pat| > |s[1..]|;
    }
  }

  /** The link is left intact exactly when it holds no `/url?url=`. */
  lemma {:induction false} RemoveAllIdentity(s: string, pat: string)
    requires |pat| > 0
    ensures RemoveAll(s, pat) == s <==> forall i :: 0 <= i <= |s| ==> !OccursAt(s, pat, i)
    decreases |s|
  {
    if s != [] {
      OccursAtStart(s, pat);
      if !(pat <= s) {
        RemoveAllIdentity(s[1..], pat);
        forall i | 1 <= i <= |s| ensures OccursAt(s, pat, i) <==> OccursAt(s[1..], pat, i - 1) {
          OccursAtTail(s, pat, i);
        }
        if RemoveAll(s, pat) != s {
          assert RemoveAll(s[1..], pat) != s[1..];
          var i :| 0 <= i <= |s[1..]| && OccursAt(s[1..], pat, i);
          assert OccursAt(s, pat, i + 1);
        }
      }
    }
  }

  /** The first occurrence is removed and the text before it kept as it is;
      removal then goes on after the occurrence. With RemoveAllIdentity:
      every leftmost, non-overlapping occurrence goes and the text between
      occurrences stays in order. */
  lemma {:induction false} RemoveAllSkip(u: string, pat: string, v: string)
    requires |pat| > 0
    requires forall i :: 0 <= i < |u| ==> !OccursAt(u + pat + v, pat, i)
    ensures RemoveAll(u + pat + v, pat) == u + RemoveAll(v, pat)
    decreases |u|
  {
    if u == [] {
      assert u + pat + v == pat + v;
      RemoveAllAtPattern(pat, v);
    } else {
      RemoveAllTailFree(u, pat, v);
      RemoveAllSkip(u[1..], pat, v);
      RemoveAllSkipStep(u, pat, v);
    }
  }

  lemma RemoveAllAtPattern(pat: string, v: string)
    requires |pat| > 0
    ensures RemoveAll(pat + v, pat) == RemoveAll(v, pat)
  {
    assert pat <= pat + v && (pat + v)[|pat|..] == v;
  }

  /** With no occurrence starting inside `u`, the text does not start with
      the pattern, and neither does any position of `u` after the first. */
  lemma RemoveAllTailFree(u: string, pat: string, v: string)
    requires |pat| > 0 && u != []
    requires forall i :: 0 <= i < |u| ==> !OccursAt(u + pat + v, pat, i)
    ensures !(pat <= u + pat + v)
    ensures forall i :: 0 <= i < |u[1..]| ==> !OccursAt(u[1..] + pat + v, pat, i)
  {
    var s := u + pat + v;
    OccursAtStart(s, pat);
    assert s[1..] == u[1..] + pat + v;
    forall i | 0 <= i < |u[1..]| ensures !OccursAt(u[1..] + pat + v, pat, i) {
      OccursAtTail(s, pat, i + 1);
    }
  }

  lemma RemoveAllSkipStep(u: string, pat: string, v: string)
    requires |pat| > 0 && u != [] && !(pat <= u + pat + v)
    requires RemoveAll(u[1..] + pat + v, pat) == u[1..] + RemoveAll(v, pat)
    ensures RemoveAll(u + pat + v, pat) == u + RemoveAll(v, pat)
  {
    RemoveAllKeepFront(u, pat, v);
    ConsConcat(u, RemoveAll(v, pat));
  }

  lemma RemoveAllKeepFront(u: string, pat: string, v: string)
    requires |pat| > 0 && u != [] && !(pat <= u + pat + v)
    ensures RemoveAll(u + pat + v, pat) == [u[0]] + RemoveAll(u[1..] + pat + v, pat)
  {
    var s := u + pat + v;
    assert s[0] == u[0] && s[1..] == u[1..] + pat + v;
    RemoveAllKeep(s, pat);
  }

  lemma ConsConcat(u: string, r: string)
    requires u != []
    ensures [u[0]] + (u[1..] + r) == u + r
  {
    assert u == [u[0]] + u[1..];
  }

  lemma RemoveAllKeep(s: string, pat: string)
    requires |pat| > 0 && s != [] && !(pat <= s)
    ensures RemoveAll(s, pat) == [s[0]] + RemoveAll(s[1..], pat)
  {
  }

  // ---------------------------------------------------------------------
  // The texts of the documented examples
  // ---------------------------------------------------------------------

  lemma ExampleDigits()
    ensures DigitsValue("12") == 12 && DigitsValue("99") == 99
    ensures DigitsValue("1" + "234") == 1234 && DigitsValue("56") == 56
    ensures Pow10(2) == 100
  {
    assert "1" + "234" == "1234";
    assert "1234"[..3] == "123" && "123"[..2] == "12" && "12"[..1] == "1";
  }

  /** `$12.99` gives 12.99. */
  lemma EbayPriceExampleCents()
    ensures EbayPrice("$12.99") == Some(12.99)
  {
    assert "$" + "12" + "." + "99" == "$12.99";
    EbayPriceDecimal("12", "99");
    ExampleDigits();
  }

  /** `$1,234.56` gives 1234.0 as written. */
  lemma EbayPriceExampleGrouped()
    ensures EbayPrice("$1,234.56") == Some(1234.0)
  {
    assert "$" + "1" + "," + "234" + "." + "56" == "$1,234.56";
    EbayPriceDropsCents("1", "234", "56");
    ExampleDigits();
  }

  /** `$1,234.56` gives 1234.56 under the corrected pattern. */
  lemma EbayPriceCorrectedExampleGrouped()
    ensures EbayPriceCorrected("$1,234.56") == Some(1234.56)
  {
    assert "$" + "1" + "," + "234" + "." + "56" == "$1,234.56";
    EbayPriceCorrectedKeepsCents("1", "234", "56");
    ExampleDigits();
  }

  /** `$1,234.56` gives 1234.56 on Google Shopping. */
  lemma ShoppingPriceExampleGrouped()
    ensures ShoppingPrice("$1,234.56") == Some(1234.56)
  {
    assert "$" + "1" + "," + "234" + "." + "56" == "$1,234.56";
    ShoppingPriceGrouped("1", "234", "56");
    ExampleDigits();
  }

  lemma EbayPriceExampleWhole()
    ensures EbayPrice("$5") == None
  {
    EbayPriceWholeNumber("5");
    assert "$" + "5" == "$5";
  }
}
