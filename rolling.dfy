/** pandas' rolling-window statistics, fills, cumulative sums and differences, with NaN rules made explicit. */
module Rolling {
  import opened Values
  import opened Stats

  function Max(a: int, b: int): int { if a < b then b else a }
  function Min(a: int, b: int): int { if a < b then a else b }

  /** First row of the window of `rolling(w, center=center)` at row `i` (before clipping to the column).
      A centred window of width w ends (w - 1) / 2 rows after row i; a trailing one ends at row i. */
  function WinLo(i: int, w: int, center: bool): int
  {
    if center then i + (w - 1) / 2 + 1 - w else i + 1 - w
  }

  /** One past the last row of that window. */
  function WinHi(i: int, w: int, center: bool): int
  {
    if center then i + (w - 1) / 2 + 1 else i + 1
  }

  /** The cells of the window at row `i`, clipped to the column. */
  function WindowCells(s: seq<Value>, i: nat, w: int, center: bool): (r: seq<Value>)
    requires i < |s| && w >= 1
    ensures |r| <= w
    ensures s[i] in r
  {
    var lo := Max(0, WinLo(i, w, center));
    var hi := Min(|s|, WinHi(i, w, center));
    assert s[lo..hi][i - lo] == s[i];
    s[lo..hi]
  }

  /** The present values of the window at row `i`. */
  function WindowValues(s: seq<Value>, i: nat, w: int, center: bool): seq<real>
    requires i < |s| && w >= 1
  {
    Present(WindowCells(s, i, w, center))
  }

  /** `rolling(w, min_periods=minp, center=center).median()`: defined where the window holds
      at least `minp` present values. */
  function RollingMedian(s: seq<Value>, w: int, minp: nat, center: bool): (r: seq<Value>)
    requires w >= 1
    ensures |r| == |s|
    ensures forall i :: 0 <= i < |s| ==>
      (r[i].Num? <==> |WindowValues(s, i, w, center)| >= minp && |WindowValues(s, i, w, center)| > 0)
  {
    seq(|s|, i requires 0 <= i < |s| =>
      var v := WindowValues(s, i, w, center);
      if |v| >= minp && |v| > 0 then Num(Median(v)) else Missing)
  }

  /** `rolling(w, min_periods=minp, center=center).max()`. */
  function RollingMax(s: seq<Value>, w: int, minp: nat, center: bool): (r: seq<Value>)
    requires w >= 1
    ensures |r| == |s|
    ensures forall i :: 0 <= i < |s| ==>
      (r[i].Num? <==> |WindowValues(s, i, w, center)| >= minp && |WindowValues(s, i, w, center)| > 0)
  {
    seq(|s|, i requires 0 <= i < |s| =>
      var v := WindowValues(s, i, w, center);
      if |v| >= minp && |v| > 0 then Num(MaxOf(v)) else Missing)
  }

  // ---------------------------------------------------------------------------
  // Fills.

  /** The last present cell at or before row `i` (`Missing` if none). */
  function LastPresent(s: seq<Value>, i: int): (r: Value)
    requires i < |s|
    ensures r.Num? ==> exists j :: 0 <= j <= i && s[j] == r
    decreases i
  {
    if i < 0 then Missing else if s[i].Num? then s[i] else LastPresent(s, i - 1)
  }

  /** The first present cell at or after row `i` (`Missing` if none). */
  function NextPresent(s: seq<Value>, i: nat): (r: Value)
    requires i <= |s|
    ensures r.Num? ==> exists j :: i <= j < |s| && s[j] == r
    decreases |s| - i
  {
    if i == |s| then Missing else if s[i].Num? then s[i] else NextPresent(s, i + 1)
  }

  /** `ffill()`. */
  function FFill(s: seq<Value>): (r: seq<Value>)
    ensures |r| == |s|
    ensures forall i :: 0 <= i < |s| && s[i].Num? ==> r[i] == s[i]
  {
    seq(|s|, i requires 0 <= i < |s| => LastPresent(s, i))
  }

  /** `bfill()`. */
  function BFill(s: seq<Value>): (r: seq<Value>)
    ensures |r| == |s|
    ensures forall i :: 0 <= i < |s| && s[i].Num? ==> r[i] == s[i]
  {
    seq(|s|, i requires 0 <= i < |s| => NextPresent(s, i))
  }

  lemma {:induction false} LastPresentMissing(s: seq<Value>, i: int)
    requires i < |s|
    ensures LastPresent(s, i) == Missing <==> forall j :: 0 <= j <= i ==> s[j] == Missing
    decreases i
  {
    if i >= 0 && !s[i].Num? {
      LastPresentMissing(s, i - 1);
    }
  }

  lemma {:induction false} NextPresentFound(s: seq<Value>, i: nat, p: nat)
    requires i <= p < |s| && s[p].Num?
    ensures NextPresent(s, i).Num?
    decreases p - i
  {
    if !s[i].Num? {
      NextPresentFound(s, i + 1, p);
    }
  }

  /** A forward fill never creates a value before the first present cell, and fills every row after it. */
  lemma FFillMissingIff(s: seq<Value>, i: nat)
    requires i < |s|
    ensures FFill(s)[i] == Missing <==> forall j :: 0 <= j <= i ==> s[j] == Missing
  {
    LastPresentMissing(s, i);
  }

  lemma FFillBFillAt(s: seq<Value>, p: nat, i: nat)
    requires p < |s| && i < |s| && s[p].Num?
    ensures BFill(FFill(s))[i].Num?
  {
    var f := FFill(s);
    if i <= p {
      assert f[p].Num?;
      NextPresentFound(f, i, p);
    } else {
      LastPresentMissing(s, i);
      assert f[i].Num?;
      NextPresentFound(f, i, i);
    }
  }

  /** `ffill().bfill()` leaves no missing cell as soon as one value exists, and keeps existing values. */
  lemma FFillBFillTotal(s: seq<Value>, p: nat)
    requires p < |s| && s[p].Num?
    ensures forall i :: 0 <= i < |s| ==> BFill(FFill(s))[i].Num?
    ensures forall i :: 0 <= i < |s| && s[i].Num? ==> BFill(FFill(s))[i] == s[i]
  {
    forall i | 0 <= i < |s| ensures BFill(FFill(s))[i].Num? {
      FFillBFillAt(s, p, i);
    }
  }

  // ---------------------------------------------------------------------------
  // Cumulative sums and differences.

  /** `cumsum()` (skipna): the running sum of present values, `Missing` where the cell is missing. */
  function CumSum(s: seq<Value>): (r: seq<Value>)
    ensures |r| == |s|
    ensures forall i :: 0 <= i < |s| ==> (r[i].Num? <==> s[i].Num?)
  {
    seq(|s|, i requires 0 <= i < |s| => if s[i].Num? then Num(Sum(Present(s[..i + 1]))) else Missing)
  }

  /** Missing cells between two present ones add nothing to the present values. */
  lemma PresentGap(s: seq<Value>, i: int, j: int)
    requires -1 <= i < j < |s| && s[j].Num?
    requires forall k :: i < k < j ==> s[k] == Missing
    ensures Present(s[..j + 1]) == Present(s[..i + 1]) + [s[j].x]
  {
    var a, gap := s[..i + 1], s[i + 1..j];
    assert s[..j + 1] == (a + gap) + [s[j]];
    PresentSnoc(a + gap, s[j]);
    PresentConcat(a, gap);
    PresentEmptyIff(gap);
  }

  /** Missing cells after the last present one add nothing to the present values. */
  lemma PresentTail(s: seq<Value>, j: int)
    requires 0 <= j < |s|
    requires forall k :: j < k < |s| ==> s[k] == Missing
    ensures Present(s) == Present(s[..j + 1])
  {
    assert s == s[..j + 1] + s[j + 1..];
    PresentConcat(s[..j + 1], s[j + 1..]);
    PresentEmptyIff(s[j + 1..]);
  }

  /** At the first present cell the running sum is that cell's own value. */
  lemma CumSumFirst(s: seq<Value>, j: int)
    requires 0 <= j < |s| && s[j].Num?
    requires forall k :: 0 <= k < j ==> s[k] == Missing
    ensures CumSum(s)[j] == s[j]
  {
    var v := s[j].x;
    PresentGap(s, -1, j);
    assert Present(s[..j + 1]) == [v];
    assert Sum([v]) == Sum([]) + v;
  }

  /** Each present cell adds its value to the running sum at the previous present cell. */
  lemma CumSumStep(s: seq<Value>, i: int, j: int)
    requires 0 <= i < j < |s| && s[i].Num? && s[j].Num?
    requires forall k :: i < k < j ==> s[k] == Missing
    ensures CumSum(s)[j].x == CumSum(s)[i].x + s[j].x
  {
    PresentGap(s, i, j);
    SumConcat(Present(s[..i + 1]), [s[j].x]);
  }

  /** The last present cell holds the sum of every present value of the column. */
  lemma CumSumLast(s: seq<Value>, j: int)
    requires 0 <= j < |s| && s[j].Num?
    requires forall k :: j < k < |s| ==> s[k] == Missing
    ensures CumSum(s)[j].x == Sum(Present(s))
  {
    PresentTail(s, j);
  }

  /** `diff().fillna(0)`: the change from the previous row, 0 where either side is missing and on row 0. */
  function DiffFill0(s: seq<Value>): (r: seq<real>)
    ensures |r| == |s|
    ensures |s| > 0 ==> r[0] == 0.0
    ensures forall i :: 0 < i < |s| && s[i].Num? && s[i - 1].Num? ==> r[i] == s[i].x - s[i - 1].x
    ensures forall i :: 0 < i < |s| && !(s[i].Num? && s[i - 1].Num?) ==> r[i] == 0.0
  {
    seq(|s|, i requires 0 <= i < |s| =>
      if i > 0 && s[i].Num? && s[i - 1].Num? then s[i].x - s[i - 1].x else 0.0)
  }

  /** `np.clip(x, lower, upper)` on one number: raise to `lower`, then cut to `upper`, so that
      every value becomes `upper` when the bounds are out of order. */
  function Clip(x: real, lower: real, upper: real): (r: real)
    ensures lower <= upper ==> lower <= r <= upper
    ensures lower <= x <= upper ==> r == x
    ensures lower > upper ==> r == upper
  {
    var y := if x < lower then lower else x;
    if y > upper then upper else y
  }

  /** pandas `clip(lower=..., upper=...)` with two scalar bounds: the bounds are put in order
      first, so the result always lies between them; with ordered bounds it is `np.clip`. */
  function SeriesClip(x: real, lower: real, upper: real): (r: real)
    ensures lower <= upper ==> r == Clip(x, lower, upper)
    ensures lower <= upper ==> lower <= r <= upper
    ensures upper < lower ==> upper <= r <= lower
    ensures (lower <= x <= upper || upper <= x <= lower) ==> r == x
  {
    if lower <= upper then Clip(x, lower, upper) else Clip(x, upper, lower)
  }

  /** pandas `clip` on a column: missing cells stay missing, present ones are clipped. */
  function ClipColumn(s: seq<Value>, lower: real, upper: real): (r: seq<Value>)
    ensures |r| == |s|
    ensures forall i :: 0 <= i < |s| ==> (r[i].Num? <==> s[i].Num?)
    ensures lower <= upper ==> forall i :: 0 <= i < |s| && r[i].Num? ==> lower <= r[i].x <= upper
    ensures upper < lower ==> forall i :: 0 <= i < |s| && r[i].Num? ==> upper <= r[i].x <= lower
    ensures forall i :: 0 <= i < |s| && s[i].Num? && (lower <= s[i].x <= upper || upper <= s[i].x <= lower) ==>
      r[i] == s[i]
  {
    seq(|s|, i requires 0 <= i < |s| => if s[i].Num? then Num(SeriesClip(s[i].x, lower, upper)) else Missing)
  }
}
