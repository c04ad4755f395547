/** The title normalisation inside `get_similarity`, which both product
    scrapers share (scraper/shop_class.py and scraper/shopping_class.py),
    and the similarity it feeds. The ratio itself (difflib's
    SequenceMatcher) is not modelled: it is a parameter of every member
    that needs it, and its range [0,1] is the one fact assumed of it. */
module SimilarityKey {
  import opened Common

  /** `str.strip()` */
  function Strip(s: string): (r: string)
    ensures r == [] || (!IsSpace(r[0]) && !IsSpace(r[|r| - 1]))
    decreases |s|
  {
    if s == [] then []
    else if IsSpace(s[0]) then Strip(s[1..])
    else if IsSpace(s[|s| - 1]) then Strip(s[..|s| - 1])
    else s
  }

  /** Whitespace around a text that neither starts nor ends with
      whitespace is exactly what strip removes. */
  lemma {:induction false} StripExact(a: string, m: string, b: string)
    requires forall i :: 0 <= i < |a| ==> IsSpace(a[i])
    requires forall i :: 0 <= i < |b| ==> IsSpace(b[i])
    requires m == [] || (!IsSpace(m[0]) && !IsSpace(m[|m| - 1]))
    ensures Strip(a + m + b) == m
    decreases |a| + |b|
  {
    var s := a + m + b;
    if a != [] {
      assert s[0] == a[0] && s[1..] == a[1..] + m + b;
      StripExact(a[1..], m, b);
    } else if b != [] {
      assert s == m + b;
      assert s[|s| - 1] == b[|b| - 1];
      if m == [] {
        assert s[0] == b[0] && s[1..] == a + m + b[1..];
        StripExact(a, m, b[1..]);
      } else {
        assert s[0] == m[0] && s[..|s| - 1] == a + m + b[..|b| - 1];
        StripExact(a, m, b[..|b| - 1]);
      }
    } else {
      assert s == m;
    }
  }

  predicate NotSpace(c: char) { !IsSpace(c) }

  /** `str.split()` with no separator: the maximal runs of non-whitespace. */
  function Words(s: string): (ws: seq<string>)
    ensures forall i :: 0 <= i < |ws| ==> ws[i] != []
    ensures forall i, j :: 0 <= i < |ws| && 0 <= j < |ws[i]| ==> !IsSpace(ws[i][j])
    decreases |s|
  {
    if s == [] then []
    else if IsSpace(s[0]) then Words(s[1..])
    else
      var n := Span(s, NotSpace);
      [s[..n]] + Words(s[n..])
  }

  /** A text of whitespace has no words, and a text without whitespace is
      one word. */
  lemma {:induction false} WordsPieces(sp: string, w: string)
    requires forall i :: 0 <= i < |sp| ==> IsSpace(sp[i])
    requires w != [] && forall i :: 0 <= i < |w| ==> NotSpace(w[i])
    ensures Words(sp) == []
    ensures Words(w) == [w]
    decreases |sp|
  {
    if sp != [] {
      WordsPieces(sp[1..], w);
    }
    assert w == w + [];
    SpanOfPrefix(w, [], NotSpace);
    assert w[..|w|] == w && w[|w|..] == [];
  }

  /** Splitting distributes over a concatenation whose seam is not inside a
      word. With WordsPieces: the words are the maximal runs of
      non-whitespace, in order. */
  lemma {:induction false} WordsAppend(a: string, b: string)
    requires a == [] || b == [] || IsSpace(a[|a| - 1]) || IsSpace(b[0])
    ensures Words(a + b) == Words(a) + Words(b)
    decreases |a|
  {
    if a == [] {
      assert a + b == b;
    } else if IsSpace(a[0]) {
      WordsAppend(a[1..], b);
      assert (a + b)[0] == a[0] && (a + b)[1..] == a[1..] + b;
    } else {
      var m := Span(a, NotSpace);
      if m < |a| {
        WordsAppend(a[m..], b);
        WordsAppendWord(a, b, m);
      } else {
        WordsAppendLastWord(a, b);
      }
    }
  }

  /** The step of WordsAppend for a word that ends inside `a`. */
  lemma WordsAppendWord(a: string, b: string, m: nat)
    requires a != [] && NotSpace(a[0]) && m == Span(a, NotSpace) && m < |a|
    requires Words(a[m..] + b) == Words(a[m..]) + Words(b)
    ensures Words(a + b) == Words(a) + Words(b)
  {
    assert Words(a + b) == [a[..m]] + Words(a[m..] + b) by {
      assert a + b == a[..m] + (a[m..] + b);
      SpanOfPrefix(a[..m], a[m..] + b, NotSpace);
      assert (a + b)[..m] == a[..m] && (a + b)[m..] == a[m..] + b;
    }
    assert [a[..m]] + (Words(a[m..]) + Words(b)) == ([a[..m]] + Words(a[m..])) + Words(b);
  }

  /** The step of WordsAppend when `a` is one word up to its end. */
  lemma WordsAppendLastWord(a: string, b: string)
    requires a != [] && Span(a, NotSpace) == |a|
    requires b == [] || IsSpace(b[0])
    ensures Words(a + b) == Words(a) + Words(b)
  {
    assert Words(a) == [a] by {
      assert a[..|a|] == a && a[|a|..] == [];
    }
    assert Words(a + b) == [a] + Words(b) by {
      SpanOfPrefix(a, b, NotSpace);
      assert (a + b)[0] == a[0];
      assert (a + b)[..|a|] == a && (a + b)[|a|..] == b;
    }
  }

  /** `' '.join(ws)` */
  function JoinSpace(ws: seq<string>): (r: string)
    requires forall i, j :: 0 <= i < |ws| && 0 <= j < |ws[i]| ==> !IsSpace(ws[i][j])
    ensures forall i :: 0 <= i < |r| && IsSpace(r[i]) ==> r[i] == ' '
  {
    if ws == [] then []
    else if |ws| == 1 then ws[0]
    else ws[0] + " " + JoinSpace(ws[1..])
  }

  /** Python's `string.punctuation`: !"#$%&'()*+,-./:;<=>?@[\]^_`{|}~ */
  predicate IsPunctuation(c: char)
  {
    33 <= c as int <= 47 || 58 <= c as int <= 64 || 91 <= c as int <= 96 || 123 <= c as int <= 126
  }

  /** `s.translate(str.maketrans('', '', string.punctuation))`: every
      punctuation character goes, the rest stay in order
      (DeletePunctuationAppend). */
  function DeletePunctuation(s: string): (r: string)
    ensures forall i :: 0 <= i < |r| ==> !IsPunctuation(r[i]) && r[i] in s
  {
    if s == [] then []
    else if IsPunctuation(s[0]) then DeletePunctuation(s[1..])
    else [s[0]] + DeletePunctuation(s[1..])
  }

  /** Deletion distributes over concatenation, and on one character it
      removes punctuation and keeps anything else: the remaining
      characters stay in their order. */
  lemma {:induction false} DeletePunctuationAppend(a: string, b: string)
    ensures DeletePunctuation(a + b) == DeletePunctuation(a) + DeletePunctuation(b)
    ensures forall c :: DeletePunctuation([c]) == if IsPunctuation(c) then [] else [c]
  {
    if a == [] {
      assert a + b == b;
    } else {
      assert (a + b)[1..] == a[1..] + b;
      DeletePunctuationAppend(a[1..], b);
    }
  }

  /** The string get_similarity hands to the ratio: lower-cased and stripped,
      whitespace runs joined by single spaces, then ASCII punctuation
      deleted, in that order. */
  function Key(s: string): string
  {
    DeletePunctuation(JoinSpace(Words(Strip(Lower(s)))))
  }

  /** The key holds no upper-case ASCII letter, no punctuation, and no
      whitespace other than the space character. */
  lemma KeyCharacters(s: string)
    ensures forall i :: 0 <= i < |Key(s)| ==>
      && !IsPunctuation(Key(s)[i])
      && !('A' <= Key(s)[i] <= 'Z')
      && (IsSpace(Key(s)[i]) ==> Key(s)[i] == ' ')
  {
    var low := Lower(s);
    var stripped := Strip(low);
    assert forall c :: c in stripped ==> c in low by {
      StripKeeps(low);
    }
    var joined := JoinSpace(Words(stripped));
    assert forall c :: c in joined ==> c in stripped || c == ' ' by {
      WordsJoinKeeps(stripped);
    }
  }

  lemma {:induction false} StripKeeps(s: string)
    ensures forall c :: c in Strip(s) ==> c in s
    decreases |s|
  {
    if s != [] {
      if IsSpace(s[0]) {
        StripKeeps(s[1..]);
      } else if IsSpace(s[|s| - 1]) {
        StripKeeps(s[..|s| - 1]);
      }
    }
  }

  lemma {:induction false} WordsJoinKeeps(s: string)
    ensures forall c :: c in JoinSpace(Words(s)) ==> c in s || c == ' '
    decreases |s|
  {
    if s != [] {
      if IsSpace(s[0]) {
        WordsJoinKeeps(s[1..]);
      } else {
        var n := Span(s, NotSpace);
        WordsJoinKeeps(s[n..]);
        var ws := Words(s[n..]);
        assert Words(s) == [s[..n]] + ws;
        if ws != [] {
          assert JoinSpace(Words(s)) == s[..n] + " " + JoinSpace(ws) by {
            assert ([s[..n]] + ws)[1..] == ws;
          }
        }
      }
    }
  }

  /** Whitespace is collapsed before punctuation is deleted, so punctuation
      standing between two spaces leaves two spaces behind. */
  lemma KeyCollapsesBeforeDeleting()
    ensures Key("a - b") == "a  b"
  {
    StripExample();
    WordsExample();
    JoinExample();
    PunctuationExample();
  }

  lemma JoinExample()
    ensures JoinSpace(["a", "-", "b"]) == "a - b"
  {
  }

  lemma PunctuationExample()
    ensures DeletePunctuation("a - b") == "a  b"
  {
    assert DeletePunctuation("b") == "b";
    assert DeletePunctuation(" b") == " b";
    assert DeletePunctuation("- b") == " b";
  }

  lemma StripExample()
    ensures Strip(Lower("a - b")) == "a - b"
  {
    assert Lower("a - b") == "a - b";
  }

  lemma WordsExample()
    ensures Words("a - b") == ["a", "-", "b"]
  {
    WordsExampleTail();
    WordsPieces(" ", "a");
    assert "a - b" == "a" + " - b";
    WordsAppend("a", " - b");
  }

  lemma WordsExampleTail()
    ensures Words(" - b") == ["-", "b"]
  {
    WordsPieces(" ", "-");
    WordsPieces(" ", "b");
    assert "- b" == "-" + (" " + "b");
    WordsAppend(" ", "b");
    WordsAppend("-", " b");
    assert " - b" == " " + "- b";
    WordsAppend(" ", "- b");
  }

  /** Lower-casing a title before comparing it changes nothing: the key
      lower-cases anyway. */
  lemma KeyIgnoresCase(s: string)
    ensures Key(Lower(s)) == Key(s)
  {
    LowerIdempotent(s);
  }

  /** The key keeps every ASCII letter and digit of the lower-cased title,
      in order: only whitespace and punctuation are dropped or replaced. */
  lemma KeyKeepsAlnums(s: string)
    ensures Alnums(Key(s)) == Alnums(Lower(s))
  {
    var stripped := Strip(Lower(s));
    StripKeepsAlnums(Lower(s));
    WordsJoinKeepsAlnums(stripped);
    DeletePunctuationKeepsAlnums(JoinSpace(Words(stripped)));
  }

  lemma {:induction false} DeletePunctuationKeepsAlnums(s: string)
    ensures Alnums(DeletePunctuation(s)) == Alnums(s)
  {
    if s != [] {
      DeletePunctuationKeepsAlnums(s[1..]);
      if !IsPunctuation(s[0]) {
        assert ([s[0]] + DeletePunctuation(s[1..]))[1..] == DeletePunctuation(s[1..]);
      }
    }
  }

  lemma {:induction false} StripKeepsAlnums(s: string)
    ensures Alnums(Strip(s)) == Alnums(s)
    decreases |s|
  {
    if s != [] {
      if IsSpace(s[0]) {
        StripKeepsAlnums(s[1..]);
      } else if IsSpace(s[|s| - 1]) {
        StripKeepsAlnums(s[..|s| - 1]);
        AlnumsDropLast(s);
      }
    }
  }

  /** A trailing whitespace character contributes nothing. */
  lemma AlnumsDropLast(s: string)
    requires s != [] && IsSpace(s[|s| - 1])
    ensures Alnums(s) == Alnums(s[..|s| - 1])
  {
    var last := [s[|s| - 1]];
    assert Alnums(last) == [] by {
      assert last[1..] == [];
    }
    assert s == s[..|s| - 1] + last;
    AlnumsAppend(s[..|s| - 1], last);
  }

  lemma {:induction false} WordsJoinKeepsAlnums(s: string)
    ensures Alnums(JoinSpace(Words(s))) == Alnums(s)
    decreases |s|
  {
    if s != [] {
      if IsSpace(s[0]) {
        WordsJoinKeepsAlnums(s[1..]);
      } else {
        var n := Span(s, NotSpace);
        WordsJoinKeepsAlnums(s[n..]);
        WordsJoinKeepsAlnumsStep(s, n);
      }
    }
  }

  /** The step of WordsJoinKeepsAlnums for a word at the front. */
  lemma WordsJoinKeepsAlnumsStep(s: string, n: nat)
    requires s != [] && NotSpace(s[0]) && n == Span(s, NotSpace)
    requires Alnums(JoinSpace(Words(s[n..]))) == Alnums(s[n..])
    ensures Alnums(JoinSpace(Words(s))) == Alnums(s)
  {
    var w := s[..n];
    var ws := Words(s[n..]);
    assert Words(s) == [w] + ws;
    assert Alnums(s) == Alnums(w) + Alnums(s[n..]) by {
      assert s == w + s[n..];
      AlnumsAppend(w, s[n..]);
    }
    if ws == [] {
      assert JoinSpace([w] + ws) == w;
    } else {
      assert JoinSpace([w] + ws) == w + " " + JoinSpace(ws) by {
        assert ([w] + ws)[1..] == ws;
      }
      AlnumsAroundSpace(w, JoinSpace(ws));
    }
  }

  lemma AlnumsAroundSpace(w: string, t: string)
    ensures Alnums(w + " " + t) == Alnums(w) + Alnums(t)
  {
    assert Alnums(" ") == [] by {
      assert " "[1..] == [];
    }
    assert Alnums(w + " ") == Alnums(w) by {
      AlnumsAppend(w, " ");
      assert Alnums(w) + [] == Alnums(w);
    }
    AlnumsAppend(w + " ", t);
  }

  /** The similarity get_similarity returns: the ratio of the two keys. */
  function Similarity(a: string, b: string, ratio: (string, string) -> real): real
  {
    ratio(Key(a), Key(b))
  }

  /** A score of two strings that lies in [0,1], as SequenceMatcher's ratio
      and get_similarity do. */
  ghost predicate UnitRange(f: (string, string) -> real)
  {
    forall x, y :: 0.0 <= f(x, y) <= 1.0
  }

  /** The similarity lies in [0,1] and depends on the two titles only through
      their keys; in particular it ignores the case of ASCII letters. */
  lemma SimilarityProperties(a: string, a': string, b: string, ratio: (string, string) -> real)
    requires UnitRange(ratio)
    requires Key(a) == Key(a')
    ensures 0.0 <= Similarity(a, b, ratio) <= 1.0
    ensures Similarity(a, b, ratio) == Similarity(a', b, ratio)
    ensures Similarity(Lower(a), b, ratio) == Similarity(a, b, ratio)
  {
    KeyIgnoresCase(a);
  }
}
