/** Order statistics and sums over the present values of a column. */
module Stats {
  import opened Order

  /** The sum of a sequence, added from the front. */
  function Sum(s: seq<real>): real
    decreases |s|
  {
    if s == [] then 0.0 else Sum(s[..|s| - 1]) + s[|s| - 1]
  }

  lemma {:induction false} SumConcat(a: seq<real>, b: seq<real>)
    ensures Sum(a + b) == Sum(a) + Sum(b)
    decreases |b|
  {
    if b == [] {
      assert a + b == a;
    } else {
      assert (a + b)[..|a + b| - 1] == a + b[..|b| - 1];
      SumConcat(a, b[..|b| - 1]);
    }
  }

  function MaxOf(s: seq<real>): (m: real)
    requires |s| > 0
    ensures m in s
    ensures forall v :: v in s ==> v <= m
    decreases |s|
  {
    if |s| == 1 then s[0]
    else
      var init := s[..|s| - 1];
      assert s == init + [s[|s| - 1]];
      var m := MaxOf(init);
      if s[|s| - 1] > m then s[|s| - 1] else m
  }

  function MinOf(s: seq<real>): (m: real)
    requires |s| > 0
    ensures m in s
    ensures forall v :: v in s ==> m <= v
    decreases |s|
  {
    if |s| == 1 then s[0]
    else
      var init := s[..|s| - 1];
      assert s == init + [s[|s| - 1]];
      var m := MinOf(init);
      if s[|s| - 1] < m then s[|s| - 1] else m
  }

  lemma LerpBetween(a: real, b: real, g: real, r: real)
    requires a <= b && 0.0 <= g <= 1.0
    requires r == a + g * (b - a)
    ensures a <= r <= b
  {
    var d := b - a;
    MulNonNeg(g, d);
    MulNonNeg(1.0 - g, d);
    assert (1.0 - g) * d == d - g * d;
  }

  lemma MulNonNeg(x: real, y: real)
    requires x >= 0.0 && y >= 0.0
    ensures x * y >= 0.0
  {
  }

  /** Dividing by a positive number keeps the order. */
  lemma DivMonotone(a: real, b: real, c: real)
    requires a <= b && c > 0.0
    ensures a / c <= b / c
  {
    assert b / c - a / c == (b - a) / c;
  }

  lemma ScaledIndexBounds(n: nat, p: real)
    requires n > 0 && 0.0 <= p <= 1.0
    ensures 0.0 <= (n - 1) as real * p <= (n - 1) as real
  {
    assert 0.0 <= (n - 1) as real * p <= (n - 1) as real * 1.0;
  }

  lemma SortedFirstAboveMin(s: seq<real>)
    requires |s| > 0
    ensures MinOf(s) <= SortReals(s)[0]
  {
    var t := SortReals(s);
    assert t[0] in multiset(t);
    assert t[0] in s;
  }

  lemma SortedLastBelowMax(s: seq<real>)
    requires |s| > 0
    ensures SortReals(s)[|s| - 1] <= MaxOf(s)
  {
    var t := SortReals(s);
    assert t[|s| - 1] in multiset(t);
    assert t[|s| - 1] in s;
  }

  lemma SortedAt(t: seq<real>, i: int, j: int)
    requires SortedReals(t) && 0 <= i <= j < |t|
    ensures t[i] <= t[j]
  {
  }

  lemma SortedLow(s: seq<real>, i: int)
    requires |s| > 0 && 0 <= i < |s|
    ensures MinOf(s) <= SortReals(s)[i]
  {
    SortedFirstAboveMin(s);
    SortedAt(SortReals(s), 0, i);
  }

  lemma SortedHigh(s: seq<real>, i: int)
    requires |s| > 0 && 0 <= i < |s|
    ensures SortReals(s)[i] <= MaxOf(s)
  {
    SortedLastBelowMax(s);
    SortedAt(SortReals(s), i, |s| - 1);
  }

  /** The integer part of numpy's 'linear' position `(n - 1) * p`. */
  function QuantileIndex(n: nat, p: real): (lo: int)
    requires n > 0 && 0.0 <= p <= 1.0
    ensures 0 <= lo <= n - 1
  {
    ScaledIndexBounds(n, p);
    ((n - 1) as real * p).Floor
  }

  /** The fractional part of numpy's 'linear' position `(n - 1) * p`. */
  function QuantileFrac(n: nat, p: real): (g: real)
    requires n > 0 && 0.0 <= p <= 1.0
    ensures 0.0 <= g <= 1.0
  {
    ScaledIndexBounds(n, p);
    (n - 1) as real * p - QuantileIndex(n, p) as real
  }

  /** numpy's `_lerp(a, b, g)`. */
  function Lerp(a: real, b: real, g: real): (r: real)
    requires a <= b && 0.0 <= g <= 1.0
    ensures a <= r <= b
  {
    var r := a + g * (b - a);
    LerpBetween(a, b, g, r);
    r
  }

  /** `np.percentile(s, 100 * p)` with numpy's default linear interpolation
      (also `Series.quantile(p)` and, at p = 0.5, `median`). */
  function Quantile(s: seq<real>, p: real): (r: real)
    requires |s| > 0 && 0.0 <= p <= 1.0
    ensures MinOf(s) <= r <= MaxOf(s)
  {
    var t := SortReals(s);
    var lo := QuantileIndex(|s|, p);
    var hi := if lo + 1 < |s| then lo + 1 else lo;
    SortedAt(t, lo, hi);
    SortedLow(s, lo);
    SortedHigh(s, hi);
    Lerp(t[lo], t[hi], QuantileFrac(|s|, p))
  }

  function Median(s: seq<real>): (r: real)
    requires |s| > 0
    ensures MinOf(s) <= r <= MaxOf(s)
  {
    Quantile(s, 0.5)
  }

  /** Any percentile of a constant sample is that constant. */
  lemma QuantileConst(s: seq<real>, p: real, c: real)
    requires |s| > 0 && 0.0 <= p <= 1.0
    requires forall i :: 0 <= i < |s| ==> s[i] == c
    ensures Quantile(s, p) == c
  {
    var lo := MinOf(s);
    var hi := MaxOf(s);
  }

  /** A value occurs at most as often as the sequence is long. */
  lemma {:induction false} CountAtMostLength(s: seq<real>, c: real)
    ensures multiset(s)[c] <= |s|
    decreases |s|
  {
    if s != [] {
      CountAtMostLength(s[..|s| - 1], c);
      assert s == s[..|s| - 1] + [s[|s| - 1]];
    }
  }

  /** Two cells other than `c` leave room for at most |s| - 2 copies of `c`. */
  lemma TwoOthers(s: seq<real>, c: real, a: int, b: int)
    requires 0 <= a < b < |s| && s[a] != c && s[b] != c
    ensures multiset(s)[c] <= |s| - 2
  {
    var p, q, r := s[..a], s[a + 1..b], s[b + 1..];
    assert s == p + [s[a]] + q + [s[b]] + r;
    CountAtMostLength(p, c);
    CountAtMostLength(q, c);
    CountAtMostLength(r, c);
  }

  /** Sorted, with all cells but at most one equal to `c`: every inner cell is `c`. */
  lemma SortedInnerIsC(t: seq<real>, c: real, k: int)
    requires SortedReals(t) && multiset(t)[c] >= |t| - 1
    requires 0 < k < |t| - 1
    ensures t[k] == c
  {
    if t[k] > c {
      assert t[k] <= t[|t| - 1];
      TwoOthers(t, c, k, |t| - 1);
    } else if t[k] < c {
      assert t[0] <= t[k];
      TwoOthers(t, c, 0, k);
    }
  }

  /** The median of at least three values, all but at most one of them equal to `c`, is `c`:
      a single outlier cannot move it. */
  lemma MedianOfNearConst(v: seq<real>, c: real)
    requires |v| >= 3 && multiset(v)[c] >= |v| - 1
    ensures Median(v) == c
  {
    var t := SortReals(v);
    var n := |v|;
    var lo := QuantileIndex(n, 0.5);
    var g := QuantileFrac(n, 0.5);
    MedianIndexInner(n);
    SortedInnerIsC(t, c, lo);
    if lo + 1 <= n - 2 {
      SortedInnerIsC(t, c, lo + 1);
      LerpAt(c, c, g);
    } else {
      LerpAt(c, t[lo + 1], 0.0);
    }
  }

  /** With at least three values the median's interpolation position lies between inner cells;
      with exactly three it is the middle cell. */
  lemma MedianIndexInner(n: nat)
    requires n >= 3
    ensures 1 <= QuantileIndex(n, 0.5) <= n - 2
    ensures QuantileIndex(n, 0.5) + 1 > n - 2 ==> n == 3 && QuantileIndex(n, 0.5) == 1 && QuantileFrac(n, 0.5) == 0.0
  {
    assert 1.0 <= (n - 1) as real * 0.5 <= (n - 2) as real;
  }

  lemma LerpAt(a: real, b: real, g: real)
    requires a <= b && 0.0 <= g <= 1.0
    ensures g == 0.0 ==> Lerp(a, b, g) == a
    ensures a == b ==> Lerp(a, b, g) == a
  {
  }

  /** m added up n times. */
  function Times(n: nat, m: real): real
  {
    if n == 0 then 0.0 else Times(n - 1, m) + m
  }

  lemma {:induction false} TimesIsProduct(n: nat, m: real)
    ensures Times(n, m) == n as real * m
  {
    if n > 0 {
      TimesIsProduct(n - 1, m);
      assert n as real * m == (n - 1) as real * m + m;
    }
  }

  /** n values each at least m sum to at least m added up n times. */
  lemma {:induction false} SumAtLeast(s: seq<real>, m: real)
    requires forall i :: 0 <= i < |s| ==> m <= s[i]
    ensures Times(|s|, m) <= Sum(s)
    decreases |s|
  {
    if s != [] {
      SumAtLeast(s[..|s| - 1], m);
    }
  }

  /** n values each at most m sum to at most m added up n times. */
  lemma {:induction false} SumAtMost(s: seq<real>, m: real)
    requires forall i :: 0 <= i < |s| ==> s[i] <= m
    ensures Sum(s) <= Times(|s|, m)
    decreases |s|
  {
    if s != [] {
      SumAtMost(s[..|s| - 1], m);
    }
  }

  /** The arithmetic mean (`Series.mean()` of the present values). */
  function Mean(s: seq<real>): real
    requires |s| > 0
  {
    Sum(s) / |s| as real
  }

  /** m added up n times, divided by n, is m. */
  lemma TimesOverCount(n: nat, m: real)
    requires n > 0
    ensures Times(n, m) / n as real == m
  {
    TimesIsProduct(n, m);
  }

  /** The mean lies between the smallest and the largest value. */
  lemma MeanBetween(s: seq<real>)
    requires |s| > 0
    ensures MinOf(s) <= Mean(s) <= MaxOf(s)
  {
    var lo, hi := MinOf(s), MaxOf(s);
    assert forall i :: 0 <= i < |s| ==> s[i] in s;
    SumAtLeast(s, lo);
    SumAtMost(s, hi);
    DivMonotone(Times(|s|, lo), Sum(s), |s| as real);
    DivMonotone(Sum(s), Times(|s|, hi), |s| as real);
    TimesOverCount(|s|, lo);
    TimesOverCount(|s|, hi);
  }

  function SqDevs(s: seq<real>, mu: real): (r: seq<real>)
    ensures |r| == |s|
  {
    seq(|s|, i requires 0 <= i < |s| => (s[i] - mu) * (s[i] - mu))
  }

  lemma SquareNonNeg(x: real)
    ensures x * x >= 0.0
  {
  }

  /** Squared deviations are never negative. */
  lemma SqDevsNonNeg(s: seq<real>, mu: real)
    ensures forall i :: 0 <= i < |s| ==> SqDevs(s, mu)[i] >= 0.0
  {
    forall i | 0 <= i < |s| ensures SqDevs(s, mu)[i] >= 0.0 {
      SquareNonNeg(s[i] - mu);
    }
  }

  lemma {:induction false} SumNonNeg(s: seq<real>)
    requires forall i :: 0 <= i < |s| ==> s[i] >= 0.0
    ensures Sum(s) >= 0.0
    decreases |s|
  {
    if s != [] {
      SumNonNeg(s[..|s| - 1]);
    }
  }

  /** Population variance (`ddof=0`); the standard deviation is its square root. */
  function PopVar(s: seq<real>): (v: real)
    requires |s| > 0
    ensures v >= 0.0
  {
    var d := SqDevs(s, Mean(s));
    SqDevsNonNeg(s, Mean(s));
    SumNonNeg(d);
    Sum(d) / |s| as real
  }
}
