/** Shared vocabulary: optional values, the character classes the scraper's
    regular expressions and string methods use, and small string helpers. */
module Common {

  datatype Option<+T> = None | Some(value: T)

  /** ASCII digit, as `[0-9]` matches it. */
  predicate IsDigit(c: char) { '0' <= c <= '9' }

  predicate IsAsciiLetter(c: char) { 'a' <= c <= 'z' || 'A' <= c <= 'Z' }

  /** `[A-Za-z0-9]` */
  predicate IsAsciiAlnum(c: char) { IsAsciiLetter(c) || IsDigit(c) }

  /** Whitespace as Python's `str.isspace` and `\s` see it, restricted to
      ASCII: tab, line feed, vertical tab, form feed, carriage return, the
      four separators 0x1c-0x1f, and space. */
  predicate IsSpace(c: char) { 9 <= c as int <= 13 || 28 <= c as int <= 32 }

  /** Python's `str.lower` on ASCII letters; other characters are kept. */
  function LowerChar(c: char): (r: char)
    ensures IsAsciiLetter(r) <==> IsAsciiLetter(c)
    ensures !IsAsciiLetter(c) ==> r == c
    ensures !('A' <= r <= 'Z')
  {
    if 'A' <= c <= 'Z' then (c as int + 32) as char else c
  }

  /** `str.lower` on ASCII letters, character by character. */
  function Lower(s: string): (r: string)
    ensures |r| == |s|
    ensures forall i :: 0 <= i < |s| ==> r[i] == LowerChar(s[i])
  {
    seq(|s|, i requires 0 <= i < |s| => LowerChar(s[i]))
  }

  lemma LowerIdempotent(s: string)
    ensures Lower(Lower(s)) == Lower(s)
  {
  }

  /** Length of the longest prefix of `s` whose characters all satisfy `p`:
      what a greedy `[...]*` takes. */
  function Span(s: string, p: char -> bool): (n: nat)
    ensures n <= |s|
    ensures forall i :: 0 <= i < n ==> p(s[i])
    ensures n < |s| ==> !p(s[n])
  {
    if s == [] || !p(s[0]) then 0 else 1 + Span(s[1..], p)
  }

  /** Any prefix all of whose characters satisfy `p`, followed by a character
      that does not, is the span. */
  lemma {:induction false} SpanOfPrefix(a: string, b: string, p: char -> bool)
    requires forall i :: 0 <= i < |a| ==> p(a[i])
    requires b == [] || !p(b[0])
    ensures Span(a + b, p) == |a|
  {
    if a != [] {
      assert (a + b)[1..] == a[1..] + b;
      SpanOfPrefix(a[1..], b, p);
    }
  }

  predicate AllDigits(s: string) { forall i :: 0 <= i < |s| ==> IsDigit(s[i]) }

  /** Numeric value of a string of decimal digits. */
  function DigitsValue(s: string): (v: nat)
    requires AllDigits(s)
  {
    if s == [] then 0 else 10 * DigitsValue(s[..|s| - 1]) + (s[|s| - 1] as int - '0' as int)
  }

  function Pow10(n: nat): (r: nat)
    ensures r >= 1
  {
    if n == 0 then 1 else 10 * Pow10(n - 1)
  }

  /** Every character of `s` that is not `c`, in order: `s.replace(c, "")`.
      Each other character keeps its number of occurrences. */
  function DeleteChar(s: string, c: char): (r: string)
    ensures |r| <= |s|
    ensures c !in r
    ensures forall x :: x != c ==> (x in r <==> x in s)
  {
    if s == [] then []
    else if s[0] == c then DeleteChar(s[1..], c)
    else [s[0]] + DeleteChar(s[1..], c)
  }

  /** Deleting distributes over concatenation, and on one character it
      removes `c` and keeps anything else: the other characters stay in
      their order. */
  lemma {:induction false} DeleteCharAppend(a: string, b: string, c: char)
    ensures DeleteChar(a + b, c) == DeleteChar(a, c) + DeleteChar(b, c)
    ensures DeleteChar([c], c) == []
    ensures forall x :: x != c ==> DeleteChar([x], c) == [x]
  {
    if a == [] {
      assert a + b == b;
    } else {
      DeleteCharAppend(a[1..], b, c);
      DeleteCharFront(a, b, c);
    }
    forall x ensures DeleteChar([x], c) == if x == c then [] else [x] {
      assert [x][1..] == [];
    }
  }

  /** The step of DeleteCharAppend: the first character of `a` is
      handled alike in `a` and in `a + b`. */
  lemma DeleteCharFront(a: string, b: string, c: char)
    requires a != []
    requires DeleteChar(a[1..] + b, c) == DeleteChar(a[1..], c) + DeleteChar(b, c)
    ensures DeleteChar(a + b, c) == DeleteChar(a, c) + DeleteChar(b, c)
  {
    DeleteCharFrontOfAppend(a, b, c);
    DeleteCharUnfold(a, c);
    ConcatAssoc(if a[0] == c then [] else [a[0]], DeleteChar(a[1..], c), DeleteChar(b, c));
  }

  lemma DeleteCharFrontOfAppend(a: string, b: string, c: char)
    requires a != []
    ensures DeleteChar(a + b, c) == (if a[0] == c then [] else [a[0]]) + DeleteChar(a[1..] + b, c)
  {
    assert (a + b)[0] == a[0] && (a + b)[1..] == a[1..] + b;
    DeleteCharUnfold(a + b, c);
  }

  lemma DeleteCharUnfold(s: string, c: char)
    requires s != []
    ensures DeleteChar(s, c) == (if s[0] == c then [] else [s[0]]) + DeleteChar(s[1..], c)
  {
  }

  lemma ConcatAssoc(p: string, x: string, y: string)
    ensures p + (x + y) == (p + x) + y
  {
  }

  lemma DeleteCharAbsent(s: string, c: char)
    requires c !in s
    ensures DeleteChar(s, c) == s
  {
  }

  /** A list comprehension `[f(x) for x in xs]` whose every step may raise:
      the results in order, or None when some element fails. */
  function MapAll<T, U>(xs: seq<T>, f: T -> Option<U>): (r: Option<seq<U>>)
    ensures r.None? <==> exists i :: 0 <= i < |xs| && f(xs[i]).None?
    ensures r.Some? ==> |r.value| == |xs| && forall i :: 0 <= i < |xs| ==> f(xs[i]) == Some(r.value[i])
  {
    if xs == [] then Some([])
    else
      match (f(xs[0]), MapAll(xs[1..], f))
      case (Some(y), Some(ys)) => Some([y] + ys)
      case _ => None
  }

  /** The ASCII letters and digits of `s`, in order. */
  function Alnums(s: string): (r: string)
    ensures |r| <= |s|
    ensures forall i :: 0 <= i < |r| ==> IsAsciiAlnum(r[i])
  {
    if s == [] then [] else (if IsAsciiAlnum(s[0]) then [s[0]] else []) + Alnums(s[1..])
  }

  lemma {:induction false} AlnumsAppend(a: string, b: string)
    ensures Alnums(a + b) == Alnums(a) + Alnums(b)
  {
    if a == [] {
      assert a + b == b;
    } else {
      assert (a + b)[1..] == a[1..] + b;
      AlnumsAppend(a[1..], b);
    }
  }

  /** A prefix without letters or digits contributes nothing. */
  lemma {:induction false} AlnumsSkip(s: string, n: nat)
    requires n <= |s|
    requires forall i :: 0 <= i < n ==> !IsAsciiAlnum(s[i])
    ensures Alnums(s) == Alnums(s[n..])
  {
    if n > 0 {
      assert s[1..][n - 1..] == s[n..];
      AlnumsSkip(s[1..], n - 1);
    }
  }

  function Min(a: nat, b: nat): nat { if a <= b then a else b }
}
