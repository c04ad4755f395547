/** Query escaping and title cleaning (scraper/utils.py). The same two
    functions appear again, character for character, in scraper.py as
    clean_listing_title and clean_title_description. */
module TextNorm {
  import opened Common

  // ---------------------------------------------------------------------
  // remove_illegal_characters
  // ---------------------------------------------------------------------

  /** `re.sub(c, rep, s)` for a one-character pattern. */
  function ReplaceChar(s: string, c: char, rep: string): (r: string)
  {
    if s == [] then []
    else (if s[0] == c then rep else [s[0]]) + ReplaceChar(s[1..], c, rep)
  }

  lemma {:induction false} ReplaceCharAppend(x: string, y: string, c: char, rep: string)
    ensures ReplaceChar(x + y, c, rep) == ReplaceChar(x, c, rep) + ReplaceChar(y, c, rep)
  {
    if x == [] {
      assert x + y == y;
    } else {
      assert (x + y)[1..] == x[1..] + y;
      ReplaceCharAppend(x[1..], y, c, rep);
    }
  }

  /** The query escaping as written: first every `#` becomes `%2`, then every
      `&` becomes `%26`. */
  function RemoveIllegalCharacters(title: string): string
  {
    ReplaceChar(ReplaceChar(title, '#', "%2"), '&', "%26")
  }

  /** What one character of the title turns into under the escaping as written. */
  function EscapedAsWritten(c: char): string
  {
    if c == '#' then "%2" else if c == '&' then "%26" else [c]
  }

  /** The escaping as a single left-to-right pass, character by character. */
  function EscapeEachAsWritten(s: string): (r: string)
    ensures '#' !in r && '&' !in r
  {
    if s == [] then [] else EscapedAsWritten(s[0]) + EscapeEachAsWritten(s[1..])
  }

  /** The two substitution passes amount to replacing each `#` by `%2` and each
      `&` by `%26`, leaving every other character in place and in order; so
      the query text contains neither `#` nor `&`. */
  lemma {:induction false} RemoveIllegalCharactersPerChar(s: string)
    ensures RemoveIllegalCharacters(s) == EscapeEachAsWritten(s)
    ensures '#' !in RemoveIllegalCharacters(s) && '&' !in RemoveIllegalCharacters(s)
  {
    if s != [] {
      var head := if s[0] == '#' then "%2" else [s[0]];
      calc {
        RemoveIllegalCharacters(s);
        ReplaceChar(head + ReplaceChar(s[1..], '#', "%2"), '&', "%26");
        { ReplaceCharAppend(head, ReplaceChar(s[1..], '#', "%2"), '&', "%26"); }
        ReplaceChar(head, '&', "%26") + RemoveIllegalCharacters(s[1..]);
        { RemoveIllegalCharactersPerChar(s[1..]);
          assert ReplaceChar(head, '&', "%26") == EscapedAsWritten(s[0]); }
        EscapedAsWritten(s[0]) + EscapeEachAsWritten(s[1..]);
      }
    }
  }

  /** A title without `#` and `&` is passed through unchanged. */
  lemma {:induction false} RemoveIllegalCharactersIdentity(s: string)
    requires '#' !in s && '&' !in s
    ensures RemoveIllegalCharacters(s) == s
  {
    RemoveIllegalCharactersPerChar(s);
    EscapeEachIdentity(s);
  }

  lemma {:induction false} EscapeEachIdentity(s: string)
    requires '#' !in s && '&' !in s
    ensures EscapeEachAsWritten(s) == s
  {
    if s != [] {
      assert s == [s[0]] + s[1..];
      EscapeEachIdentity(s[1..]);
    }
  }

  // ---------------------------------------------------------------------
  // Percent-decoding, as the search engine reads the query string
  // ---------------------------------------------------------------------

  predicate IsHex(c: char) { IsDigit(c) || 'a' <= c <= 'f' || 'A' <= c <= 'F' }

  function HexValue(c: char): (v: nat)
    requires IsHex(c)
    ensures v < 16
  {
    if IsDigit(c) then c as int - '0' as int
    else if 'a' <= c <= 'f' then c as int - 'a' as int + 10
    else c as int - 'A' as int + 10
  }

  /** Standard percent-decoding of a query component: `%` followed by two hex
      digits stands for the character with that code; anything else is kept. */
  function PercentDecode(s: string): string
    decreases |s|
  {
    if s == [] then []
    else if |s| >= 3 && s[0] == '%' && IsHex(s[1]) && IsHex(s[2]) then
      [(16 * HexValue(s[1]) + HexValue(s[2])) as char] + PercentDecode(s[3..])
    else [s[0]] + PercentDecode(s[1..])
  }

  /** The escaping as written does not survive decoding: `#b` is sent as
      `%2b`, which the server reads as `+`. */
  lemma RemoveIllegalCharactersDecodeCounterexample()
    ensures RemoveIllegalCharacters("#b") == "%2b"
    ensures PercentDecode(RemoveIllegalCharacters("#b")) == "+"
  {
    RemoveIllegalCharactersPerChar("#b");
    assert EscapeEachAsWritten("#b") == "%2" + EscapeEachAsWritten("b");
    assert PercentDecode("%2b") == ['+'] + PercentDecode([]);
  }

  /** The evidently intended escaping: `#` becomes `%23`, `&` becomes `%26`. */
  function Escaped(c: char): string
  {
    if c == '#' then "%23" else if c == '&' then "%26" else [c]
  }

  function EscapeQuery(s: string): (r: string)
    ensures '#' !in r && '&' !in r
  {
    if s == [] then [] else Escaped(s[0]) + EscapeQuery(s[1..])
  }

  /** The corrected escaping round-trips through percent-decoding for every
      title that does not itself contain `%`. */
  lemma {:induction false} EscapeQueryRoundTrip(s: string)
    requires '%' !in s
    ensures PercentDecode(EscapeQuery(s)) == s
  {
    if s != [] {
      var rest := EscapeQuery(s[1..]);
      assert s == [s[0]] + s[1..];
      EscapeQueryRoundTrip(s[1..]);
      if s[0] == '#' {
        assert EscapeQuery(s) == "%23" + rest;
        assert PercentDecode("%23" + rest) == ['#'] + PercentDecode(rest) by {
          assert ("%23" + rest)[3..] == rest;
        }
      } else if s[0] == '&' {
        assert EscapeQuery(s) == "%26" + rest;
        assert PercentDecode("%26" + rest) == ['&'] + PercentDecode(rest) by {
          assert ("%26" + rest)[3..] == rest;
        }
      } else {
        assert EscapeQuery(s) == [s[0]] + rest;
        assert ([s[0]] + rest)[1..] == rest;
      }
    }
  }

  // ---------------------------------------------------------------------
  // clean_text
  // ---------------------------------------------------------------------

  /** A character `[^A-Za-z0-9\s]` matches. */
  predicate Illegal(c: char) { !IsAsciiAlnum(c) && !IsSpace(c) }

  /** `re.sub(r"[^A-Za-z0-9\s]+", " ", s)`: each maximal run of illegal
      characters becomes one space. */
  function ReplaceIllegalRuns(s: string): (r: string)
    ensures forall i :: 0 <= i < |r| ==> !Illegal(r[i])
    ensures s != [] && !IsAsciiAlnum(s[0]) ==> r != [] && IsSpace(r[0])
    decreases |s|
  {
    if s == [] then []
    else if Illegal(s[0]) then
      var n := Span(s, Illegal);
      " " + ReplaceIllegalRuns(s[n..])
    else [s[0]] + ReplaceIllegalRuns(s[1..])
  }

  /** `re.sub(r"\s+", " ", s)`: each maximal run of whitespace becomes one
      space. The result has no other whitespace than single spaces, starts
      with a space exactly when the input starts with whitespace, and keeps
      every other character of the input. */
  function CollapseWhitespace(s: string): (r: string)
    ensures forall i :: 0 <= i < |r| && IsSpace(r[i]) ==> r[i] == ' '
    ensures forall i :: 0 <= i < |r| && !IsSpace(r[i]) ==> r[i] in s
    ensures NoDoubleSpace(r)
    ensures (r != [] && r[0] == ' ') <==> (s != [] && IsSpace(s[0]))
    decreases |s|
  {
    if s == [] then []
    else if IsSpace(s[0]) then
      var n := Span(s, IsSpace);
      " " + CollapseWhitespace(s[n..])
    else [s[0]] + CollapseWhitespace(s[1..])
  }

  function CleanText(title: string): string
  {
    CollapseWhitespace(ReplaceIllegalRuns(title))
  }

  /** A run of illegal characters, however long, becomes one space, and a
      character that is not illegal is kept. */
  lemma ReplaceIllegalRunsPieces(run: string, c: char)
    requires run != [] && forall i :: 0 <= i < |run| ==> Illegal(run[i])
    ensures ReplaceIllegalRuns(run) == " "
    ensures !Illegal(c) ==> ReplaceIllegalRuns([c]) == [c]
  {
    assert run == run + [];
    SpanOfPrefix(run, [], Illegal);
  }

  /** Replacement distributes over a concatenation whose seam is not inside
      a run of illegal characters. With ReplaceIllegalRunsPieces: every
      maximal illegal run becomes one space and every other character is
      kept, in order. */
  lemma {:induction false} ReplaceIllegalRunsAppend(a: string, b: string)
    requires a == [] || b == [] || !Illegal(a[|a| - 1]) || !Illegal(b[0])
    ensures ReplaceIllegalRuns(a + b) == ReplaceIllegalRuns(a) + ReplaceIllegalRuns(b)
    decreases |a|
  {
    if a == [] {
      assert a + b == b;
    } else if Illegal(a[0]) {
      var m := Span(a, Illegal);
      if m < |a| {
        ReplaceIllegalRunsAppend(a[m..], b);
        ReplaceAppendRun(a, b, m);
      } else {
        ReplaceAppendLastRun(a, b);
      }
    } else {
      ReplaceIllegalRunsAppend(a[1..], b);
      ReplaceAppendKeep(a, b);
    }
  }

  /** The step of ReplaceIllegalRunsAppend for an illegal run inside `a`. */
  lemma ReplaceAppendRun(a: string, b: string, m: nat)
    requires a != [] && Illegal(a[0]) && m == Span(a, Illegal) && m < |a|
    requires ReplaceIllegalRuns(a[m..] + b) == ReplaceIllegalRuns(a[m..]) + ReplaceIllegalRuns(b)
    ensures ReplaceIllegalRuns(a + b) == ReplaceIllegalRuns(a) + ReplaceIllegalRuns(b)
  {
    ReplaceRunAppendUnfold(a, b, m);
    ReplaceIllegalRunsRun(a);
    ConcatAssoc(" ", ReplaceIllegalRuns(a[m..]), ReplaceIllegalRuns(b));
  }

  lemma ReplaceRunAppendUnfold(a: string, b: string, m: nat)
    requires a != [] && Illegal(a[0]) && m == Span(a, Illegal) && m < |a|
    ensures ReplaceIllegalRuns(a + b) == " " + ReplaceIllegalRuns(a[m..] + b)
  {
    assert a + b == a[..m] + (a[m..] + b);
    SpanOfPrefix(a[..m], a[m..] + b, Illegal);
    assert (a + b)[m..] == a[m..] + b;
    ReplaceIllegalRunsRun(a + b);
  }

  /** The step of ReplaceIllegalRunsAppend when all of `a` is illegal. */
  lemma ReplaceAppendLastRun(a: string, b: string)
    requires a != [] && Span(a, Illegal) == |a|
    requires b == [] || !Illegal(b[0])
    ensures ReplaceIllegalRuns(a + b) == ReplaceIllegalRuns(a) + ReplaceIllegalRuns(b)
  {
    assert ReplaceIllegalRuns(a) == " " by {
      ReplaceIllegalRunsRun(a);
      assert a[|a|..] == [];
    }
    assert ReplaceIllegalRuns(a + b) == " " + ReplaceIllegalRuns(b) by {
      SpanOfPrefix(a, b, Illegal);
      assert (a + b)[|a|..] == b;
      ReplaceIllegalRunsRun(a + b);
    }
  }

  /** The step of ReplaceIllegalRunsAppend for a kept character. */
  lemma ReplaceAppendKeep(a: string, b: string)
    requires a != [] && !Illegal(a[0])
    requires ReplaceIllegalRuns(a[1..] + b) == ReplaceIllegalRuns(a[1..]) + ReplaceIllegalRuns(b)
    ensures ReplaceIllegalRuns(a + b) == ReplaceIllegalRuns(a) + ReplaceIllegalRuns(b)
  {
    ReplaceKeepAppendUnfold(a, b);
    ReplaceIllegalRunsKeep(a);
    ConcatAssoc([a[0]], ReplaceIllegalRuns(a[1..]), ReplaceIllegalRuns(b));
  }

  lemma ReplaceKeepAppendUnfold(a: string, b: string)
    requires a != [] && !Illegal(a[0])
    ensures ReplaceIllegalRuns(a + b) == [a[0]] + ReplaceIllegalRuns(a[1..] + b)
  {
    assert (a + b)[0] == a[0] && (a + b)[1..] == a[1..] + b;
    ReplaceIllegalRunsKeep(a + b);
  }

  lemma ReplaceIllegalRunsRun(s: string)
    requires s != [] && Illegal(s[0])
    ensures ReplaceIllegalRuns(s) == " " + ReplaceIllegalRuns(s[Span(s, Illegal)..])
  {
  }

  lemma ReplaceIllegalRunsKeep(s: string)
    requires s != [] && !Illegal(s[0])
    ensures ReplaceIllegalRuns(s) == [s[0]] + ReplaceIllegalRuns(s[1..])
  {
  }

  /** A whitespace run, however long, becomes one space, and any other
      character is kept. */
  lemma CollapseWhitespacePieces(run: string, c: char)
    requires run != [] && forall i :: 0 <= i < |run| ==> IsSpace(run[i])
    ensures CollapseWhitespace(run) == " "
    ensures !IsSpace(c) ==> CollapseWhitespace([c]) == [c]
  {
    assert run == run + [];
    SpanOfPrefix(run, [], IsSpace);
  }

  /** Collapsing distributes over a concatenation whose seam is not inside
      a whitespace run. With CollapseWhitespacePieces: every maximal
      whitespace run becomes one space and every other character is kept,
      in order. */
  lemma {:induction false} CollapseWhitespaceAppend(a: string, b: string)
    requires a == [] || b == [] || !IsSpace(a[|a| - 1]) || !IsSpace(b[0])
    ensures CollapseWhitespace(a + b) == CollapseWhitespace(a) + CollapseWhitespace(b)
    decreases |a|
  {
    if a == [] {
      assert a + b == b;
    } else if IsSpace(a[0]) {
      var m := Span(a, IsSpace);
      if m < |a| {
        CollapseWhitespaceAppend(a[m..], b);
        CollapseAppendRun(a, b, m);
      } else {
        CollapseAppendLastRun(a, b);
      }
    } else {
      CollapseWhitespaceAppend(a[1..], b);
      CollapseAppendKeep(a, b);
    }
  }

  /** The step of CollapseWhitespaceAppend for a whitespace run inside `a`. */
  lemma CollapseAppendRun(a: string, b: string, m: nat)
    requires a != [] && IsSpace(a[0]) && m == Span(a, IsSpace) && m < |a|
    requires CollapseWhitespace(a[m..] + b) == CollapseWhitespace(a[m..]) + CollapseWhitespace(b)
    ensures CollapseWhitespace(a + b) == CollapseWhitespace(a) + CollapseWhitespace(b)
  {
    CollapseRunAppendUnfold(a, b, m);
    CollapseWhitespaceRun(a);
    ConcatAssoc(" ", CollapseWhitespace(a[m..]), CollapseWhitespace(b));
  }

  lemma CollapseRunAppendUnfold(a: string, b: string, m: nat)
    requires a != [] && IsSpace(a[0]) && m == Span(a, IsSpace) && m < |a|
    ensures CollapseWhitespace(a + b) == " " + CollapseWhitespace(a[m..] + b)
  {
    assert a + b == a[..m] + (a[m..] + b);
    SpanOfPrefix(a[..m], a[m..] + b, IsSpace);
    assert (a + b)[m..] == a[m..] + b;
    CollapseWhitespaceRun(a + b);
  }

  /** The step of CollapseWhitespaceAppend when all of `a` is whitespace. */
  lemma CollapseAppendLastRun(a: string, b: string)
    requires a != [] && Span(a, IsSpace) == |a|
    requires b == [] || !IsSpace(b[0])
    ensures CollapseWhitespace(a + b) == CollapseWhitespace(a) + CollapseWhitespace(b)
  {
    assert CollapseWhitespace(a) == " " by {
      CollapseWhitespaceRun(a);
      assert a[|a|..] == [];
    }
    assert CollapseWhitespace(a + b) == " " + CollapseWhitespace(b) by {
      SpanOfPrefix(a, b, IsSpace);
      assert (a + b)[|a|..] == b;
      CollapseWhitespaceRun(a + b);
    }
  }

  /** The step of CollapseWhitespaceAppend for a kept character. */
  lemma CollapseAppendKeep(a: string, b: string)
    requires a != [] && !IsSpace(a[0])
    requires CollapseWhitespace(a[1..] + b) == CollapseWhitespace(a[1..]) + CollapseWhitespace(b)
    ensures CollapseWhitespace(a + b) == CollapseWhitespace(a) + CollapseWhitespace(b)
  {
    CollapseKeepAppendUnfold(a, b);
    CollapseWhitespaceKeep(a);
    ConcatAssoc([a[0]], CollapseWhitespace(a[1..]), CollapseWhitespace(b));
  }

  lemma CollapseKeepAppendUnfold(a: string, b: string)
    requires a != [] && !IsSpace(a[0])
    ensures CollapseWhitespace(a + b) == [a[0]] + CollapseWhitespace(a[1..] + b)
  {
    assert (a + b)[0] == a[0] && (a + b)[1..] == a[1..] + b;
    CollapseWhitespaceKeep(a + b);
  }

  lemma CollapseWhitespaceRun(s: string)
    requires s != [] && IsSpace(s[0])
    ensures CollapseWhitespace(s) == " " + CollapseWhitespace(s[Span(s, IsSpace)..])
  {
  }

  lemma CollapseWhitespaceKeep(s: string)
    requires s != [] && !IsSpace(s[0])
    ensures CollapseWhitespace(s) == [s[0]] + CollapseWhitespace(s[1..])
  {
  }

  lemma {:induction false} ReplaceIllegalRunsKeepsAlnums(s: string)
    ensures Alnums(ReplaceIllegalRuns(s)) == Alnums(s)
    decreases |s|
  {
    if s != [] {
      if Illegal(s[0]) {
        var n := Span(s, Illegal);
        ReplaceIllegalRunsKeepsAlnums(s[n..]);
        AlnumsSkip(s, n);
        assert (" " + ReplaceIllegalRuns(s[n..]))[1..] == ReplaceIllegalRuns(s[n..]);
      } else {
        ReplaceIllegalRunsKeepsAlnums(s[1..]);
        assert ([s[0]] + ReplaceIllegalRuns(s[1..]))[1..] == ReplaceIllegalRuns(s[1..]);
      }
    }
  }

  lemma {:induction false} CollapseWhitespaceKeepsAlnums(s: string)
    ensures Alnums(CollapseWhitespace(s)) == Alnums(s)
    decreases |s|
  {
    if s != [] {
      if IsSpace(s[0]) {
        var n := Span(s, IsSpace);
        CollapseWhitespaceKeepsAlnums(s[n..]);
        AlnumsSkip(s, n);
        assert (" " + CollapseWhitespace(s[n..]))[1..] == CollapseWhitespace(s[n..]);
      } else {
        CollapseWhitespaceKeepsAlnums(s[1..]);
        assert ([s[0]] + CollapseWhitespace(s[1..]))[1..] == CollapseWhitespace(s[1..]);
      }
    }
  }

  /** Cleaning keeps every ASCII letter and digit of the title, in order:
      only the characters in between are replaced or collapsed. */
  lemma CleanTextKeepsAlnums(s: string)
    ensures Alnums(CleanText(s)) == Alnums(s)
  {
    ReplaceIllegalRunsKeepsAlnums(s);
    CollapseWhitespaceKeepsAlnums(ReplaceIllegalRuns(s));
  }

  /** What clean_text promises: only ASCII letters, digits and spaces, and
      never two spaces in a row. */
  predicate IsClean(t: string)
  {
    && (forall i :: 0 <= i < |t| ==> IsAsciiAlnum(t[i]) || t[i] == ' ')
    && NoDoubleSpace(t)
  }

  /** Never two spaces in a row. */
  predicate NoDoubleSpace(t: string)
  {
    forall i, j :: 0 <= i < |t| && j == i + 1 && j < |t| ==> !(t[i] == ' ' && t[j] == ' ')
  }

  lemma CleanTextIsClean(s: string)
    ensures IsClean(CleanText(s))
  {
    var t := ReplaceIllegalRuns(s);
    var r := CollapseWhitespace(t);
    forall i | 0 <= i < |r| ensures IsAsciiAlnum(r[i]) || r[i] == ' ' {
      if !IsSpace(r[i]) {
        var j :| 0 <= j < |t| && t[j] == r[i];
        assert !Illegal(t[j]);
      }
    }
  }

  lemma {:induction false} ReplaceIllegalRunsIdentity(t: string)
    requires forall i :: 0 <= i < |t| ==> !Illegal(t[i])
    ensures ReplaceIllegalRuns(t) == t
    decreases |t|
  {
    if t != [] {
      ReplaceIllegalRunsIdentity(t[1..]);
    }
  }

  lemma {:induction false} CollapseWhitespaceIdentity(t: string)
    requires IsClean(t)
    ensures CollapseWhitespace(t) == t
    decreases |t|
  {
    if t != [] {
      CleanTail(t);
      CollapseWhitespaceIdentity(t[1..]);
      if IsSpace(t[0]) {
        CleanSpaceSpan(t);
      }
      assert t == [t[0]] + t[1..];
    }
  }

  lemma CleanTail(t: string)
    requires IsClean(t) && t != []
    ensures IsClean(t[1..])
  {
    var u := t[1..];
    forall i | 0 <= i < |u| ensures IsAsciiAlnum(u[i]) || u[i] == ' ' {
      assert u[i] == t[i + 1];
    }
    forall i, j | 0 <= i && j == i + 1 && j < |u| ensures !(u[i] == ' ' && u[j] == ' ') {
      assert u[i] == t[i + 1] && u[j] == t[j + 1];
    }
  }

  /** In clean text a whitespace run is one space long. */
  lemma CleanSpaceSpan(t: string)
    requires IsClean(t) && t != [] && IsSpace(t[0])
    ensures t[0] == ' ' && Span(t, IsSpace) == 1
  {
    assert t == t[..1] + t[1..];
    if |t| > 1 {
      assert t[1] != ' ';
      assert IsAsciiAlnum(t[1]);
    }
    SpanOfPrefix(t[..1], t[1..], IsSpace);
  }

  /** Cleaning a cleaned title changes nothing. */
  lemma CleanTextIdempotent(s: string)
    ensures CleanText(CleanText(s)) == CleanText(s)
  {
    var t := CleanText(s);
    CleanTextIsClean(s);
    ReplaceIllegalRunsIdentity(t);
    CollapseWhitespaceIdentity(t);
  }

  /** The result is not trimmed: a title that begins with punctuation or
      whitespace gives a cleaned title that begins with a space. */
  lemma CleanTextNotTrimmed(s: string)
    requires s != [] && !IsAsciiAlnum(s[0])
    ensures CleanText(s) != [] && CleanText(s)[0] == ' '
  {
  }
}
