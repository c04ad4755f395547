/** The browser-side check that a submitted URL names a Facebook Marketplace
    item (isValidUrl in scraper/static/isValidUrl.js): somewhere in the
    string, `https://www.facebook.com/marketplace/item/`, then 15 or 16
    ASCII digits, then `/`. The dots of the pattern are escaped and the
    pattern is not anchored. The RegExp is built afresh on every call, so
    its `g` flag leaves no state behind: the check is a function of the
    string. */
module ItemUrl {
  import opened Common

  const ItemPrefix: string := "https://www.facebook.com/marketplace/item/"

  /** At position `i`: the prefix, `d` digits and a `/`. */
  predicate ItemAt(url: string, i: nat, d: nat)
  {
    && i + |ItemPrefix| + d < |url|
    && url[i..i + |ItemPrefix|] == ItemPrefix
    && AllDigits(url[i + |ItemPrefix|..i + |ItemPrefix| + d])
    && url[i + |ItemPrefix| + d] == '/'
  }

  /** What the pattern means at position `i`: `[0-9]{15,16}` between the
      prefix and the `/`. */
  ghost predicate MatchesAt(url: string, i: nat)
  {
    exists d :: (d == 15 || d == 16) && ItemAt(url, i, d)
  }

  /** How a match at `i` is decided: after the prefix, the run of digits,
      whose length must be 15 or 16, must be followed by `/` (the engine
      takes 16 digits greedily and backs off to 15, and a longer run
      leaves a digit where the `/` should be). */
  function MatchAt(url: string, i: nat): bool
  {
    if i + |ItemPrefix| > |url| || url[i..i + |ItemPrefix|] != ItemPrefix then false
    else
      var rest := url[i + |ItemPrefix|..];
      var d := Span(rest, IsDigit);
      (d == 15 || d == 16) && d < |rest| && rest[d] == '/'
  }

  /** Try every start position from `i` on, leftmost first, as `test`
      does with `lastIndex` 0, until `matchAt` succeeds. */
  function SearchFrom(url: string, i: nat, matchAt: (string, nat) -> bool): bool
    decreases |url| - i
  {
    if i > |url| then false else matchAt(url, i) || SearchFrom(url, i + 1, matchAt)
  }

  /** isValidUrl. */
  function IsValidUrl(url: string): bool
  {
    SearchFrom(url, 0, MatchAt)
  }

  /** The digit-run decision agrees with the pattern's meaning. */
  lemma MatchAtMeaning(url: string, i: nat)
    ensures MatchAt(url, i) <==> MatchesAt(url, i)
  {
    var n := |ItemPrefix|;
    if i + n <= |url| && url[i..i + n] == ItemPrefix {
      var rest := url[i + n..];
      var d := Span(rest, IsDigit);
      if MatchAt(url, i) {
        assert url[i + n..i + n + d] == rest[..d];
        assert ItemAt(url, i, d);
      }
      if MatchesAt(url, i) {
        var e :| (e == 15 || e == 16) && ItemAt(url, i, e);
        assert rest == rest[..e] + rest[e..];
        assert rest[..e] == url[i + n..i + n + e];
        SpanOfPrefix(rest[..e], rest[e..], IsDigit);
      }
    }
  }

  lemma {:induction false} SearchFromMeaning(url: string, i: nat, matchAt: (string, nat) -> bool)
    ensures SearchFrom(url, i, matchAt) <==> exists j :: i <= j <= |url| && matchAt(url, j)
    decreases |url| - i
  {
    if i <= |url| {
      SearchFromMeaning(url, i + 1, matchAt);
    }
  }

  /** The URL is accepted exactly when the pattern matches at some
      position. */
  lemma IsValidUrlMeaning(url: string)
    ensures IsValidUrl(url) <==> exists i :: 0 <= i <= |url| && MatchesAt(url, i)
  {
    SearchFromMeaning(url, 0, MatchAt);
    forall i | 0 <= i <= |url| ensures MatchAt(url, i) <==> MatchesAt(url, i) {
      MatchAtMeaning(url, i);
    }
  }

  /** The pattern is not anchored: text before and after an accepted URL
      keeps it accepted. */
  lemma {:induction false} IsValidUrlInContext(before: string, url: string, after: string)
    requires IsValidUrl(url)
    ensures IsValidUrl(before + url + after)
  {
    IsValidUrlMeaning(url);
    var i :| 0 <= i <= |url| && MatchesAt(url, i);
    var d :| (d == 15 || d == 16) && ItemAt(url, i, d);
    ItemAtShift(before, url, after, i, d);
    AcceptedAt(before + url + after, |before| + i, d);
  }

  /** A URL holding an item link at `i` is accepted. */
  lemma AcceptedAt(url: string, i: nat, d: nat)
    requires (d == 15 || d == 16) && ItemAt(url, i, d)
    ensures IsValidUrl(url)
  {
    MatchAtMeaning(url, i);
    SearchFromReaches(url, 0, i, MatchAt);
  }

  lemma {:induction false} SearchFromReaches(url: string, i: nat, j: nat, matchAt: (string, nat) -> bool)
    requires i <= j <= |url| && matchAt(url, j)
    ensures SearchFrom(url, i, matchAt)
    decreases j - i
  {
    if i < j {
      SearchFromReaches(url, i + 1, j, matchAt);
    }
  }

  lemma ItemAtShift(before: string, url: string, after: string, i: nat, d: nat)
    requires ItemAt(url, i, d)
    ensures ItemAt(before + url + after, |before| + i, d)
  {
    var whole := before + url + after;
    var j := |before| + i;
    var n := |ItemPrefix|;
    assert forall k :: 0 <= k < |url| ==> whole[|before| + k] == url[k];
    assert whole[j..j + n] == url[i..i + n];
    assert whole[j + n..j + n + d] == url[i + n..i + n + d];
  }

  /** An item id of 14 digits or fewer, or of 17 or more, followed by `/`
      is not a match at that position. */
  lemma {:induction false} ItemIdLength(url: string, i: nat, d: nat)
    requires ItemAt(url, i, d) && (d <= 14 || d >= 17)
    ensures !MatchesAt(url, i)
  {
    var n := |ItemPrefix|;
    var digits, tail := url[i + n..i + n + d], url[i + n + d..];
    assert url[i + n..] == digits + tail;
    assert AllDigits(digits) && tail[0] == '/';
    SpanOfDigits(digits, tail);
    MatchAtMeaning(url, i);
  }

  lemma SpanOfDigits(digits: string, tail: string)
    requires AllDigits(digits) && tail != [] && tail[0] == '/'
    ensures Span(digits + tail, IsDigit) == |digits|
  {
    SpanOfPrefix(digits, tail, IsDigit);
  }

  /** An item URL is accepted, and the same URL with a look-alike host
      (any other character in place of the dot after `www`) is not: the
      dots are escaped. */
  lemma EscapedDots(c: char)
    requires c != '.'
    ensures IsValidUrl("https://www.facebook.com/marketplace/item/123456789012345/")
    ensures !IsValidUrl("https://www" + [c] + "facebook.com/marketplace/item/123456789012345/")
  {
    var good := "https://www.facebook.com/marketplace/item/123456789012345/";
    var bad := "https://www" + [c] + "facebook.com/marketplace/item/123456789012345/";
    assert ItemAt(good, 0, 15) by {
      assert good[0..|ItemPrefix|] == ItemPrefix;
      assert good[|ItemPrefix|..|ItemPrefix| + 15] == "123456789012345";
    }
    MatchAtMeaning(good, 0);
    IsValidUrlMeaning(bad);
    forall i: nat, d: nat | d == 15 || d == 16 ensures !ItemAt(bad, i, d) {
      NoItemInLookalike(bad, c, i, d);
    }
  }

  lemma NoItemInLookalike(bad: string, c: char, i: nat, d: nat)
    requires bad == "https://www" + [c] + "facebook.com/marketplace/item/123456789012345/" && c != '.'
    requires d >= 15
    ensures !ItemAt(bad, i, d)
  {
    if i + |ItemPrefix| + d < |bad| {
      assert i == 0;
      assert bad[0..|ItemPrefix|][11] == bad[11] == c;
      assert ItemPrefix[11] == '.';
    }
  }
}
