/** Median-absolute-deviation outlier rejection (scraper/utils.py
    reject_outliers, which returns indices; scraper.py reject_outliers,
    which returns the surviving values) and the removal of one index set
    from several parallel lists in lock-step. numpy's median is the
    sorted-sequence median: the middle element, or the mean of the two
    middle elements for an even length. Prices are `real`: no float
    rounding. */
module Outliers {

  function Abs(x: real): (r: real)
    ensures r >= 0.0 && (r == x || r == -x)
  {
    if x < 0.0 then -x else x
  }

  // ---------------------------------------------------------------------
  // Sorting and the median
  // ---------------------------------------------------------------------

  predicate IsSorted(s: seq<real>)
  {
    forall i, j :: 0 <= i < j < |s| ==> s[i] <= s[j]
  }

  lemma SortedCons(a: real, s: seq<real>)
    requires IsSorted(s)
    requires forall k :: 0 <= k < |s| ==> a <= s[k]
    ensures IsSorted([a] + s)
  {
    forall i, j | 0 <= i < j < |[a] + s| ensures ([a] + s)[i] <= ([a] + s)[j] {
      if i > 0 {
        assert ([a] + s)[i] == s[i - 1];
      }
      assert ([a] + s)[j] == s[j - 1];
    }
  }

  function Insert(x: real, s: seq<real>): seq<real>
  {
    if s == [] then [x]
    else if x <= s[0] then [x] + s
    else [s[0]] + Insert(x, s[1..])
  }

  /** Inserting into a sorted sequence keeps it sorted and adds exactly one
      occurrence of the new value. */
  lemma {:induction false} InsertSorted(x: real, s: seq<real>)
    requires IsSorted(s)
    ensures IsSorted(Insert(x, s))
    ensures multiset(Insert(x, s)) == multiset(s) + multiset{x}
  {
    InsertPermutes(x, s);
    if s == [] {
    } else if x <= s[0] {
      SortedCons(x, s);
    } else {
      var tail := s[1..];
      assert IsSorted(tail) by {
        forall i, j | 0 <= i < j < |tail| ensures tail[i] <= tail[j] {
          assert tail[i] == s[i + 1] && tail[j] == s[j + 1];
        }
      }
      InsertSorted(x, tail);
      var rest := Insert(x, tail);
      forall k | 0 <= k < |rest| ensures s[0] <= rest[k] {
        assert rest[k] in multiset(rest);
        if rest[k] != x {
          assert rest[k] in multiset(tail);
          var m :| 0 <= m < |tail| && tail[m] == rest[k];
          assert s[m + 1] == rest[k];
        }
      }
      SortedCons(s[0], rest);
    }
  }

  /** Insertion adds exactly one occurrence of the new value. */
  lemma {:induction false} InsertPermutes(x: real, s: seq<real>)
    ensures multiset(Insert(x, s)) == multiset(s) + multiset{x}
  {
    if s != [] && !(x <= s[0]) {
      InsertPermutes(x, s[1..]);
      assert s == [s[0]] + s[1..];
    }
  }

  /** Insertion sort, as the definition of the sorted order of a sample. */
  function Sort(s: seq<real>): seq<real>
  {
    if s == [] then [] else Insert(s[0], Sort(s[1..]))
  }

  lemma {:induction false} SortSorted(s: seq<real>)
    ensures IsSorted(Sort(s))
    ensures multiset(Sort(s)) == multiset(s)
  {
    if s != [] {
      assert s == [s[0]] + s[1..];
      SortSorted(s[1..]);
      InsertSorted(s[0], Sort(s[1..]));
    }
  }

  /** Two sorted sequences with the same elements are equal: the sorted order
      of a sample is unique. */
  lemma {:induction false} SortedUnique(a: seq<real>, b: seq<real>)
    requires IsSorted(a) && IsSorted(b)
    requires multiset(a) == multiset(b)
    ensures a == b
  {
    if a != [] {
      SameHead(a, b);
      var ta, tb := Tail(a), Tail(b);
      MultisetCancel(a[0], multiset(ta), multiset(tb));
      SortedUnique(ta, tb);
    }
  }

  /** The rest of a sorted sequence after its first element: sorted, with
      the same elements less that one. */
  function Tail(s: seq<real>): (t: seq<real>)
    requires |s| > 0
    ensures IsSorted(s) ==> IsSorted(t)
    ensures multiset(s) == multiset{s[0]} + multiset(t)
    ensures s == [s[0]] + t
  {
    assert s == [s[0]] + s[1..];
    s[1..]
  }

  lemma MultisetCancel(x: real, p: multiset<real>, q: multiset<real>)
    requires multiset{x} + p == multiset{x} + q
    ensures p == q
  {
    forall y ensures p[y] == q[y] {
      assert (multiset{x} + p)[y] == (multiset{x} + q)[y];
    }
  }

  /** Sorted sequences with the same elements start alike. */
  lemma SameHead(a: seq<real>, b: seq<real>)
    requires IsSorted(a) && IsSorted(b)
    requires multiset(a) == multiset(b) && a != []
    ensures b != [] && a[0] == b[0]
  {
    assert |b| == |multiset(b)| == |multiset(a)| == |a|;
    SortedHeadLeast(a, b[0]);
    SortedHeadLeast(b, a[0]);
  }

  /** The first element of a sorted sequence is its least. */
  lemma SortedHeadLeast(s: seq<real>, x: real)
    requires IsSorted(s) && x in multiset(s)
    ensures s[0] <= x
  {
    var i :| 0 <= i < |s| && s[i] == x;
  }

  function Median(s: seq<real>): real
    requires |s| > 0
  {
    var t := Sort(s);
    var n := |t|;
    if n % 2 == 1 then t[n / 2] else (t[n / 2 - 1] + t[n / 2]) / 2.0
  }

  /** The median lies between the least and the greatest sample value. */
  lemma MedianBounds(s: seq<real>)
    requires |s| > 0
    ensures exists i :: 0 <= i < |s| && s[i] <= Median(s)
    ensures exists j :: 0 <= j < |s| && Median(s) <= s[j]
  {
    var t := Sort(s);
    SortSorted(s);
    assert |t| == |multiset(t)| == |s|;
    assert t[0] in multiset(s) && t[|t| - 1] in multiset(s);
    var i :| 0 <= i < |s| && s[i] == t[0];
    var j :| 0 <= j < |s| && s[j] == t[|t| - 1];
    assert s[i] <= Median(s) <= s[j];
  }

  /** The median of a constant sample is that constant. */
  lemma MedianOfConstant(s: seq<real>, c: real)
    requires |s| > 0
    requires forall i :: 0 <= i < |s| ==> s[i] == c
    ensures Median(s) == c
  {
    var t := Sort(s);
    SortSorted(s);
    assert |t| == |multiset(t)| == |s|;
    forall k | 0 <= k < |t| ensures t[k] == c {
      assert t[k] in multiset(s);
    }
  }

  // ---------------------------------------------------------------------
  // Scores
  // ---------------------------------------------------------------------

  /** `np.abs(data - np.median(data))`: one non-negative deviation per
      value, 0 exactly at the values equal to the median. */
  function Deviations(data: seq<real>): (d: seq<real>)
    requires |data| > 0
    ensures |d| == |data|
    ensures forall i :: 0 <= i < |d| ==> d[i] >= 0.0 && (d[i] == 0.0 <==> data[i] == Median(data))
  {
    var med := Median(data);
    seq(|data|, i requires 0 <= i < |data| => Abs(data[i] - med))
  }

  /** The divisor: the median absolute deviation, or 1 when it is 0
      (`m_deviation if m_deviation else 1.`). */
  function Divisor(data: seq<real>): (v: real)
    requires |data| > 0
    ensures v > 0.0
  {
    var mad := Median(Deviations(data));
    MedianBounds(Deviations(data));
    if mad != 0.0 then mad else 1.0
  }

  /** `distribution / (m_deviation if m_deviation else 1.)`: non-negative
      scores, 0 exactly at the median, that rank the values by their
      distance from the median. */
  function Scores(data: seq<real>): (sc: seq<real>)
    requires |data| > 0
    ensures |sc| == |data|
    ensures forall i :: 0 <= i < |sc| ==> sc[i] >= 0.0 && (sc[i] == 0.0 <==> data[i] == Median(data))
    ensures forall i, j :: 0 <= i < |sc| && 0 <= j < |sc| ==>
      (sc[i] <= sc[j] <==> Abs(data[i] - Median(data)) <= Abs(data[j] - Median(data)))
  {
    var d := Deviations(data);
    var div := Divisor(data);
    ScaleKeepsOrder(d, div);
    seq(|data|, i requires 0 <= i < |data| => d[i] / div)
  }

  /** Dividing by a positive number keeps the order of the values. */
  lemma ScaleKeepsOrder(d: seq<real>, div: real)
    requires div > 0.0
    ensures forall i, j :: 0 <= i < |d| && 0 <= j < |d| ==> (d[i] / div <= d[j] / div <==> d[i] <= d[j])
  {
    forall i, j | 0 <= i < |d| && 0 <= j < |d|
      ensures d[i] / div <= d[j] / div <==> d[i] <= d[j]
    {
      assert d[i] / div * div == d[i] && d[j] / div * div == d[j];
    }
  }

  /** `np.where(sc >= m)[0]` restricted to positions from `k` on. */
  function IndicesAtLeast(sc: seq<real>, m: real, k: nat): (r: seq<nat>)
    ensures forall a :: 0 <= a < |r| ==> k <= r[a] < |sc|
    ensures forall a, b :: 0 <= a < b < |r| ==> r[a] < r[b]
    ensures forall i :: k <= i < |sc| ==> (i in r <==> sc[i] >= m)
    ensures r == [] <==> forall i :: k <= i < |sc| ==> sc[i] < m
    decreases |sc| - k
  {
    if k >= |sc| then []
    else
      var rest := IndicesAtLeast(sc, m, k + 1);
      if sc[k] >= m then StrictCons(k, rest); [k] + rest else rest
  }

  lemma StrictCons(k: nat, rest: seq<nat>)
    requires forall a :: 0 <= a < |rest| ==> k < rest[a]
    requires forall a, b :: 0 <= a < b < |rest| ==> rest[a] < rest[b]
    ensures forall a, b :: 0 <= a < b < |[k] + rest| ==> ([k] + rest)[a] < ([k] + rest)[b]
  {
    forall a, b | 0 <= a < b < |[k] + rest| ensures ([k] + rest)[a] < ([k] + rest)[b] {
      assert ([k] + rest)[b] == rest[b - 1];
      if a > 0 { assert ([k] + rest)[a] == rest[a - 1]; }
    }
  }

  /** reject_outliers of scraper/utils.py: the indices of the outliers. */
  function RejectOutlierIndices(data: seq<real>, m: real): (r: seq<nat>)
    ensures |data| == 0 ==> r == []
    ensures forall a, b :: 0 <= a < b < |r| ==> r[a] < r[b]
    ensures forall x :: x in r ==> x < |data|
    ensures |data| > 0 ==> forall i :: 0 <= i < |data| ==> (i in r <==> Scores(data)[i] >= m)
    ensures |data| > 0 ==> (r == [] <==> forall i :: 0 <= i < |data| ==> Scores(data)[i] < m)
  {
    if |data| == 0 then [] else IndicesAtLeast(Scores(data), m, 0)
  }

  /** On a constant sample the deviation is 0 everywhere, the divisor becomes
      1, every score is 0 and no index is an outlier, for any positive m. */
  lemma RejectOutliersConstant(data: seq<real>, m: real)
    requires forall i :: 0 <= i < |data| ==> data[i] == data[0]
    requires m > 0.0
    ensures RejectOutlierIndices(data, m) == []
  {
    if |data| > 0 {
      MedianOfConstant(data, data[0]);
      var d := Deviations(data);
      MedianOfConstant(d, 0.0);
      assert Divisor(data) == 1.0;
    }
  }

  /** The sample of scraper/utils.py's docstring: 200 is the only outlier of
      [10, 11, 9, 10, 200] at m = 1.5 (median 10, deviation median 1). */
  lemma RejectOutliersExample()
    ensures RejectOutlierIndices(ExampleSample(), 1.5) == [4]
  {
    ExampleScores();
    var sc := [0.0, 1.0, 1.0, 0.0, 190.0];
    assert IndicesAtLeast(sc, 1.5, 5) == [];
    assert IndicesAtLeast(sc, 1.5, 4) == [4];
    assert IndicesAtLeast(sc, 1.5, 3) == [4];
    assert IndicesAtLeast(sc, 1.5, 2) == [4];
    assert IndicesAtLeast(sc, 1.5, 1) == [4];
  }

  function ExampleSample(): seq<real> { [10.0, 11.0, 9.0, 10.0, 200.0] }

  lemma ExampleMedian()
    ensures Median(ExampleSample()) == 10.0
  {
    var s := ExampleSample();
    assert s == [10.0] + [11.0, 9.0, 10.0, 200.0];
    ExampleSortTail();
    SortCons(10.0, [11.0, 9.0, 10.0, 200.0]);
    InsertCons(10.0, 9.0, [10.0, 11.0, 200.0]);
    InsertCons(10.0, 10.0, [11.0, 200.0]);
    assert Sort(s) == [9.0, 10.0, 10.0, 11.0, 200.0];
  }

  lemma ExampleSortTail()
    ensures Sort([11.0, 9.0, 10.0, 200.0]) == [9.0, 10.0, 11.0, 200.0]
  {
    SortCons(200.0, []);
    SortCons(10.0, [200.0]);
    InsertCons(10.0, 200.0, []);
    SortCons(9.0, [10.0, 200.0]);
    InsertCons(9.0, 10.0, [200.0]);
    SortCons(11.0, [9.0, 10.0, 200.0]);
    InsertCons(11.0, 9.0, [10.0, 200.0]);
    InsertCons(11.0, 10.0, [200.0]);
    InsertCons(11.0, 200.0, []);
  }

  /** One step of Sort and of Insert, on a sequence written as head and tail. */
  lemma SortCons(x: real, s: seq<real>)
    ensures Sort([x] + s) == Insert(x, Sort(s))
  {
    assert ([x] + s)[1..] == s;
  }

  lemma InsertCons(x: real, y: real, s: seq<real>)
    ensures Insert(x, [y] + s) == if x <= y then [x, y] + s else [y] + Insert(x, s)
  {
    assert ([y] + s)[1..] == s;
  }

  lemma ExampleDeviations()
    ensures Deviations(ExampleSample()) == [0.0, 1.0, 1.0, 0.0, 190.0]
  {
    ExampleMedian();
  }

  lemma ExampleScores()
    ensures Scores(ExampleSample()) == [0.0, 1.0, 1.0, 0.0, 190.0]
  {
    ExampleDeviations();
    ExampleDeviationMedian();
    assert Divisor(ExampleSample()) == 1.0;
  }

  lemma ExampleDeviationMedian()
    ensures Median([0.0, 1.0, 1.0, 0.0, 190.0]) == 1.0
  {
    var d := [0.0, 1.0, 1.0, 0.0, 190.0];
    assert d == [0.0] + ([1.0] + ([1.0] + ([0.0] + [190.0])));
    SortCons(190.0, []);
    SortCons(0.0, [190.0]);
    InsertCons(0.0, 190.0, []);
    SortCons(1.0, [0.0, 190.0]);
    InsertCons(1.0, 0.0, [190.0]);
    InsertCons(1.0, 190.0, []);
    SortCons(1.0, [1.0, 0.0, 190.0]);
    InsertCons(1.0, 0.0, [1.0, 190.0]);
    InsertCons(1.0, 1.0, [190.0]);
    SortCons(0.0, [1.0, 1.0, 0.0, 190.0]);
    InsertCons(0.0, 0.0, [1.0, 1.0, 190.0]);
    assert Sort(d) == [0.0, 0.0, 1.0, 1.0, 190.0];
  }

  /** The median is read off any sorted arrangement of the sample. */
  lemma MedianBySorting(s: seq<real>, t: seq<real>)
    requires |s| > 0
    requires IsSorted(t) && multiset(t) == multiset(s)
    ensures |t| == |s|
    ensures Median(s) == if |t| % 2 == 1 then t[|t| / 2] else (t[|t| / 2 - 1] + t[|t| / 2]) / 2.0
  {
    assert |t| == |multiset(t)| == |multiset(s)| == |s|;
    SortSorted(s);
    SortedUnique(Sort(s), t);
  }

  // ---------------------------------------------------------------------
  // Removal by index, in lock-step
  // ---------------------------------------------------------------------

  /** The indices below `n`, from `k` on, that are not in `idx`, increasing. */
  function KeptFrom(n: nat, idx: seq<nat>, k: nat): (r: seq<nat>)
    ensures forall a :: 0 <= a < |r| ==> k <= r[a] < n && r[a] !in idx
    ensures forall a, b :: 0 <= a < b < |r| ==> r[a] < r[b]
    ensures forall i :: k <= i < n ==> (i in r <==> i !in idx)
    decreases n - k
  {
    if k >= n then []
    else
      var rest := KeptFrom(n, idx, k + 1);
      if k in idx then rest else StrictCons(k, rest); [k] + rest
  }

  /** `[x for i, x in enumerate(xs) if i not in idx]`, from position `k` on. */
  function RemoveFrom<T>(xs: seq<T>, idx: seq<nat>, k: nat): seq<T>
    decreases |xs| - k
  {
    if k >= |xs| then []
    else (if k in idx then [] else [xs[k]]) + RemoveFrom(xs, idx, k + 1)
  }

  function RemoveAt<T>(xs: seq<T>, idx: seq<nat>): seq<T>
  {
    RemoveFrom(xs, idx, 0)
  }

  lemma {:induction false} RemoveFromIsKept<T>(xs: seq<T>, idx: seq<nat>, k: nat)
    ensures |RemoveFrom(xs, idx, k)| == |KeptFrom(|xs|, idx, k)|
    ensures forall j :: 0 <= j < |RemoveFrom(xs, idx, k)| ==>
      RemoveFrom(xs, idx, k)[j] == xs[KeptFrom(|xs|, idx, k)[j]]
    decreases |xs| - k
  {
    if k < |xs| {
      RemoveFromIsKept(xs, idx, k + 1);
      var rem := RemoveFrom(xs, idx, k + 1);
      var kept := KeptFrom(|xs|, idx, k + 1);
      var r, kk := RemoveFrom(xs, idx, k), KeptFrom(|xs|, idx, k);
      if k !in idx {
        assert r == [xs[k]] + rem;
        assert kk == [k] + kept;
        forall j | 0 <= j < |r| ensures r[j] == xs[kk[j]] {
          if j > 0 {
            assert r[j] == rem[j - 1] && kk[j] == kept[j - 1];
          }
        }
      } else {
        assert r == rem && kk == kept;
      }
    }
  }

  /** Removal keeps exactly the elements at the kept indices, in order: the
      j-th survivor is the element at the j-th index not in `idx`. */
  lemma RemoveAtIsKept<T>(xs: seq<T>, idx: seq<nat>)
    ensures |RemoveAt(xs, idx)| == |KeptFrom(|xs|, idx, 0)|
    ensures forall j :: 0 <= j < |RemoveAt(xs, idx)| ==>
      RemoveAt(xs, idx)[j] == xs[KeptFrom(|xs|, idx, 0)[j]]
  {
    RemoveFromIsKept(xs, idx, 0);
  }

  /** Removal never lengthens a list. */
  lemma RemoveAtShorter<T>(xs: seq<T>, idx: seq<nat>)
    ensures |RemoveAt(xs, idx)| <= |xs|
  {
    RemoveAtIsKept(xs, idx);
    KeptShorter(|xs|, idx, 0);
  }

  lemma {:induction false} KeptShorter(n: nat, idx: seq<nat>, k: nat)
    ensures |KeptFrom(n, idx, k)| <= n - k || k >= n
    decreases n - k
  {
    if k < n {
      KeptShorter(n, idx, k + 1);
      var rest := KeptFrom(n, idx, k + 1);
      assert |KeptFrom(n, idx, k)| <= 1 + |rest|;
    }
  }

  /** One index set removed from two lists of equal length leaves two lists of
      equal length whose j-th elements come from the same original position. */
  lemma LockStep<T, U>(xs: seq<T>, ys: seq<U>, idx: seq<nat>)
    requires |xs| == |ys|
    ensures |RemoveAt(xs, idx)| == |KeptFrom(|xs|, idx, 0)| == |RemoveAt(ys, idx)|
    ensures forall j :: 0 <= j < |RemoveAt(xs, idx)| ==>
      var i := KeptFrom(|xs|, idx, 0)[j];
      i !in idx && RemoveAt(xs, idx)[j] == xs[i] && RemoveAt(ys, idx)[j] == ys[i]
  {
    RemoveAtIsKept(xs, idx);
    RemoveAtIsKept(ys, idx);
  }

  // ---------------------------------------------------------------------
  // The value-returning form (scraper.py)
  // ---------------------------------------------------------------------

  function KeepBelow(data: seq<real>, sc: seq<real>, m: real, k: nat): seq<real>
    requires |sc| == |data|
    decreases |data| - k
  {
    if k >= |data| then []
    else (if sc[k] < m then [data[k]] else []) + KeepBelow(data, sc, m, k + 1)
  }

  /** reject_outliers of scraper.py: `data[standard < m]`. On an empty sample
      numpy's median is NaN, but every mask over it is empty, so the result
      is empty. */
  function RejectOutlierValues(data: seq<real>, m: real): seq<real>
  {
    if |data| == 0 then [] else KeepBelow(data, Scores(data), m, 0)
  }

  lemma {:induction false} KeepBelowIsRemoveFrom(data: seq<real>, m: real, k: nat)
    requires |data| > 0
    ensures KeepBelow(data, Scores(data), m, k) == RemoveFrom(data, RejectOutlierIndices(data, m), k)
    decreases |data| - k
  {
    if k < |data| {
      KeepBelowIsRemoveFrom(data, m, k + 1);
      var sc := Scores(data);
      var idx := RejectOutlierIndices(data, m);
      assert k in idx <==> sc[k] >= m;
      var head := if sc[k] < m then [data[k]] else [];
      assert KeepBelow(data, sc, m, k) == head + KeepBelow(data, sc, m, k + 1);
      assert RemoveFrom(data, idx, k) == head + RemoveFrom(data, idx, k + 1);
    }
  }

  /** The two forms agree: the surviving values are the sample with the
      outlier indices removed, in the original order. */
  lemma RejectOutlierValuesIsRemoval(data: seq<real>, m: real)
    ensures RejectOutlierValues(data, m) == RemoveAt(data, RejectOutlierIndices(data, m))
  {
    if |data| > 0 {
      KeepBelowIsRemoveFrom(data, m, 0);
    }
  }
}
