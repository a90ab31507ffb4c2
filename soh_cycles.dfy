/** The state-of-health / equivalent-full-cycle estimator of src/core/soh_cycles.py.
    Each stage is a specification function; the stages that the source writes in place
    (the Hampel mask, the delta_t overwrites, the per-block Ct loop, the discharge cap) are
    also methods over arrays proved equal to their stage function, and `CalculateSohCycles`
    chains those methods and is proved equal to the composed specification `SohCycles`. */
module SohCycles {
  import opened Values
  import opened Order
  import opened Stats
  import opened Rolling
  import opened Telemetry

  function Abs(x: real): real { if x < 0.0 then -x else x }

  // ---------------------------------------------------------------------------
  // Hampel filter (`_hampel`).

  /** The consistency constant that turns a median absolute deviation into a standard deviation. */
  const MadScale: real := 1.4826

  /** `(s - med).abs()`: missing wherever either operand is. */
  function AbsDev(s: seq<Value>, med: seq<Value>): (r: seq<Value>)
    requires |med| == |s|
    ensures |r| == |s|
    ensures forall i :: 0 <= i < |s| ==> (r[i].Num? <==> s[i].Num? && med[i].Num?)
    ensures forall i :: 0 <= i < |s| && r[i].Num? ==> r[i].x == Abs(s[i].x - med[i].x)
  {
    seq(|s|, i requires 0 <= i < |s| =>
      if s[i].Num? && med[i].Num? then Num(Abs(s[i].x - med[i].x)) else Missing)
  }

  /** The centred rolling median over 2k+1 rows with at least 3 present values. */
  function HampelMedian(s: seq<Value>, k: int): (r: seq<Value>)
    requires k >= 1
    ensures |r| == |s|
  {
    RollingMedian(s, 2 * k + 1, 3, true)
  }

  /** The same rolling median taken of the absolute deviations from `HampelMedian`. */
  function HampelMad(s: seq<Value>, k: int): (r: seq<Value>)
    requires k >= 1
    ensures |r| == |s|
  {
    RollingMedian(AbsDev(s, HampelMedian(s, k)), 2 * k + 1, 3, true)
  }

  /** Row `i` is flagged: `|s - med| > nsigma * 1.4826 * mad`, a comparison that is false
      whenever one of its operands is missing. */
  predicate Outlier(s: seq<Value>, med: seq<Value>, mad: seq<Value>, nsigma: real, i: int)
    requires |med| == |s| && |mad| == |s| && 0 <= i < |s|
  {
    s[i].Num? && med[i].Num? && mad[i].Num? && Abs(s[i].x - med[i].x) > nsigma * MadScale * mad[i].x
  }

  /** `_hampel(s, k, nsigma)`. For k < 1 the window is shorter than `min_periods=3`, pandas refuses
      the rolling call, and the handler returns the copy unchanged. */
  function Hampel(s: seq<Value>, k: int, nsigma: real): (r: seq<Value>)
    ensures |r| == |s|
    ensures forall i :: 0 <= i < |s| ==> r[i] == s[i] || r[i] == Missing
    ensures k < 1 ==> r == s
  {
    if k < 1 then s
    else
      Mask(s, HampelMedian(s, k), HampelMad(s, k), nsigma)
  }

  /** `s[outlier] = nan` on a copy of `s`. */
  function Mask(s: seq<Value>, med: seq<Value>, mad: seq<Value>, nsigma: real): (r: seq<Value>)
    requires |med| == |s| && |mad| == |s|
    ensures |r| == |s|
    ensures forall i :: 0 <= i < |s| ==> (r[i].Missing? <==> s[i].Missing? || Outlier(s, med, mad, nsigma, i))
    ensures forall i :: 0 <= i < |s| && r[i].Num? ==> r[i] == s[i]
  {
    seq(|s|, i requires 0 <= i < |s| => if Outlier(s, med, mad, nsigma, i) then Missing else s[i])
  }

  /** The copy-and-mask of `_hampel`: flagged rows of a copy become missing; the input is untouched. */
  method HampelFilter(s: seq<Value>, k: int, nsigma: real) returns (r: seq<Value>)
    ensures r == Hampel(s, k, nsigma)
  {
    if k < 1 {
      return s;
    }
    r := MaskCopy(s, HampelMedian(s, k), HampelMad(s, k), nsigma);
  }

  method MaskCopy(s: seq<Value>, med: seq<Value>, mad: seq<Value>, nsigma: real) returns (r: seq<Value>)
    requires |med| == |s| && |mad| == |s|
    ensures r == Mask(s, med, mad, nsigma)
  {
    var a := new Value[|s|](i requires 0 <= i < |s| => s[i]);
    var i := 0;
    while i < |s|
      invariant 0 <= i <= |s|
      invariant forall j :: 0 <= j < i ==> a[j] == Mask(s, med, mad, nsigma)[j]
      invariant forall j :: i <= j < |s| ==> a[j] == s[j]
    {
      if Outlier(s, med, mad, nsigma, i) {
        a[i] := Missing;
      }
      i := i + 1;
    }
    r := a[..];
  }

  /** A row becomes missing exactly when it was missing or is flagged by the window rule. */
  lemma HampelMissingIff(s: seq<Value>, k: int, nsigma: real, i: int)
    requires k >= 1 && 0 <= i < |s|
    ensures Hampel(s, k, nsigma)[i] == Missing <==>
      s[i] == Missing || Outlier(s, HampelMedian(s, k), HampelMad(s, k), nsigma, i)
  {
  }

  /** A row whose window holds fewer than 3 present values keeps its value. */
  lemma HampelFewValid(s: seq<Value>, k: int, nsigma: real, i: int)
    requires k >= 1 && 0 <= i < |s|
    requires |WindowValues(s, i, 2 * k + 1, true)| < 3
    ensures Hampel(s, k, nsigma)[i] == s[i]
  {
    assert HampelMedian(s, k)[i] == Missing;
  }

  /** A column of present values, all equal to `c` except the value `x` at row `p`. */
  predicate Spike(s: seq<Value>, c: real, x: real, p: int)
  {
    0 <= p < |s| && s[p] == Num(x) && forall j :: 0 <= j < |s| && j != p ==> s[j] == Num(c)
  }

  /** The present values of cells that are all present and all `c` except perhaps at row `q`. */
  lemma {:induction false} PresentNearConst(cells: seq<Value>, c: real, q: int)
    requires forall j :: 0 <= j < |cells| ==> cells[j].Num?
    requires forall j :: 0 <= j < |cells| && j != q ==> cells[j] == Num(c)
    ensures |Present(cells)| == |cells|
    ensures multiset(Present(cells))[c] >= |cells| - (if 0 <= q < |cells| then 1 else 0)
    decreases |cells|
  {
    if cells != [] {
      var init := cells[..|cells| - 1];
      var last := cells[|cells| - 1];
      PresentNearConst(init, c, q);
      assert cells == init + [last];
      PresentSnoc(init, last);
    }
  }

  /** With k >= 2 on at least three rows, every window of the spike column holds at least three
      values, all `c` but at most one. */
  lemma SpikeWindow(s: seq<Value>, c: real, x: real, p: int, k: int, i: int)
    requires Spike(s, c, x, p) && k >= 2 && |s| >= 3 && 0 <= i < |s|
    ensures var v := WindowValues(s, i, 2 * k + 1, true);
      |v| >= 3 && multiset(v)[c] >= |v| - 1
  {
    var w := 2 * k + 1;
    var lo := Max(0, WinLo(i, w, true));
    var hi := Min(|s|, WinHi(i, w, true));
    assert WinLo(i, w, true) == i - k && WinHi(i, w, true) == i + k + 1;
    var cells := s[lo..hi];
    assert WindowCells(s, i, w, true) == cells;
    PresentNearConst(cells, c, p - lo);
  }

  /** On a spike column the rolling median is `c` on every row. */
  lemma SpikeMedian(s: seq<Value>, c: real, x: real, p: int, k: int)
    requires Spike(s, c, x, p) && k >= 2 && |s| >= 3
    ensures HampelMedian(s, k) == ConstColumn(|s|, c)
  {
    forall i | 0 <= i < |s| ensures HampelMedian(s, k)[i] == Num(c) {
      SpikeWindow(s, c, x, p, k, i);
      MedianOfNearConst(WindowValues(s, i, 2 * k + 1, true), c);
    }
  }

  /** Deviations from a constant median turn the spike column into a spike on 0. */
  lemma SpikeDeviation(s: seq<Value>, c: real, x: real, p: int)
    requires Spike(s, c, x, p)
    ensures Spike(AbsDev(s, ConstColumn(|s|, c)), 0.0, Abs(x - c), p)
  {
  }

  /** On a spike column the MAD is 0 on every row. */
  lemma SpikeMad(s: seq<Value>, c: real, x: real, p: int, k: int)
    requires Spike(s, c, x, p) && k >= 2 && |s| >= 3
    ensures HampelMad(s, k) == ConstColumn(|s|, 0.0)
  {
    SpikeMedian(s, c, x, p, k);
    var dev := AbsDev(s, ConstColumn(|s|, c));
    SpikeDeviation(s, c, x, p);
    SpikeMedian(dev, 0.0, Abs(x - c), p, k);
    assert HampelMad(s, k) == HampelMedian(dev, k);
  }

  /** With the constant as median and a MAD of 0, only the spike is over the threshold. */
  lemma MaskSpike(s: seq<Value>, nsigma: real, c: real, x: real, p: int)
    requires Spike(s, c, x, p) && x != c
    ensures Mask(s, ConstColumn(|s|, c), ConstColumn(|s|, 0.0), nsigma) == s[p := Missing]
  {
    var med := ConstColumn(|s|, c);
    var mad := ConstColumn(|s|, 0.0);
    forall i | 0 <= i < |s| ensures Outlier(s, med, mad, nsigma, i) <==> i == p {
      assert nsigma * MadScale * mad[i].x == 0.0;
    }
  }

  /** A column that is constant except for one spike loses the spike and nothing else: the
      window medians are the constant, the absolute deviations are 0 off the spike, so the MAD is
      0 and only the spike exceeds the threshold, whatever `nsigma` is. */
  lemma HampelSpike(s: seq<Value>, k: int, nsigma: real, c: real, x: real, p: int)
    requires Spike(s, c, x, p) && x != c && k >= 2 && |s| >= 3
    ensures Hampel(s, k, nsigma) == s[p := Missing]
  {
    SpikeMedian(s, c, x, p, k);
    SpikeMad(s, c, x, p, k);
    MaskSpike(s, nsigma, c, x, p);
  }

  /** Nine readings of `c` with a reading `x != c` in the middle, filtered with window 7 and
      `n_sigmas = 5`, the defaults of `_hampel`: the middle reading becomes missing and the eight
      readings around it are kept. */
  lemma HampelExample(c: real, x: real)
    requires x != c
    ensures var s := [Num(c), Num(c), Num(c), Num(c), Num(x), Num(c), Num(c), Num(c), Num(c)];
      Hampel(s, 7, 5.0) == s[4 := Missing]
  {
    var v := Num(c);
    var s := [v, v, v, v, Num(x), v, v, v, v];
    assert Spike(s, c, x, 4);
    HampelSpike(s, 7, 5.0, c, x, 4);
  }

  // ---------------------------------------------------------------------------
  // Sample spacing (`delta_t_s`).

  /** `groupby(device_id)[created_at].diff()` followed by `fillna(0)`, on rows sorted by device. */
  function RawGap(rows: seq<Sample>, i: int): (r: real)
    requires 0 <= i < |rows|
    ensures i == 0 ==> r == 0.0
    ensures r != 0.0 ==> i > 0 && rows[i - 1].deviceId == rows[i].deviceId
    ensures HasPrevInDevice(rows, i) ==> r == (rows[i].createdAt - rows[i - 1].createdAt) as real
  {
    if HasPrevInDevice(rows, i) then (rows[i].createdAt - rows[i - 1].createdAt) as real else 0.0
  }

  /** The two overwrites: negative gaps and gaps above one hour become 0. */
  function ClampGap(g: real): (r: real)
    ensures 0.0 <= r <= 3600.0
    ensures 0.0 <= g <= 3600.0 ==> r == g
    ensures !(0.0 <= g <= 3600.0) ==> r == 0.0
  {
    if g < 0.0 then 0.0 else if g > 3600.0 then 0.0 else g
  }

  function DeltaT(rows: seq<Sample>): (r: seq<real>)
    ensures |r| == |rows|
    ensures forall i :: 0 <= i < |rows| ==> 0.0 <= r[i] <= 3600.0
    ensures forall i :: 0 <= i < |rows| && !HasPrevInDevice(rows, i) ==> r[i] == 0.0
    ensures forall i :: 0 <= i < |rows| && HasPrevInDevice(rows, i) ==>
      var g := (rows[i].createdAt - rows[i - 1].createdAt) as real;
      r[i] == if 0.0 <= g <= 3600.0 then g else 0.0
  {
    seq(|rows|, i requires 0 <= i < |rows| => ClampGap(RawGap(rows, i)))
  }

  /** The column is built by a diff pass and then overwritten by the two masks. */
  method ComputeDeltaT(rows: seq<Sample>) returns (r: seq<real>)
    ensures r == DeltaT(rows)
  {
    var a := new real[|rows|];
    var i := 0;
    while i < |rows|
      invariant 0 <= i <= |rows|
      invariant forall j :: 0 <= j < i ==> a[j] == RawGap(rows, j)
    {
      a[i] := if i > 0 && rows[i - 1].deviceId == rows[i].deviceId
        then (rows[i].createdAt - rows[i - 1].createdAt) as real else 0.0;
      i := i + 1;
    }
    i := 0;
    while i < |rows|
      invariant 0 <= i <= |rows|
      invariant forall j :: 0 <= j < i ==> a[j] == ClampGap(RawGap(rows, j))
      invariant forall j :: i <= j < |rows| ==> a[j] == RawGap(rows, j)
    {
      if a[i] < 0.0 {
        a[i] := 0.0;
      }
      if a[i] > 3600.0 {
        a[i] := 0.0;
      }
      i := i + 1;
    }
    r := a[..];
  }

  // ---------------------------------------------------------------------------
  // Charge source (`Q_mAh`).

  datatype Source = FromChargeCounter | FromCurrent | NoSource

  /** A charge counter is preferred when either counter column holds a value; integrated
      current is used otherwise when `current_avg_ua` holds a value. */
  function SelectSource(f: Frame): (r: Source)
    ensures r == FromChargeCounter <==> HasValues(f, ChargeCounterUah) || HasValues(f, ChargeCounter)
    ensures r == FromCurrent <==>
      !HasValues(f, ChargeCounterUah) && !HasValues(f, ChargeCounter) && HasValues(f, CurrentAvgUa)
  {
    if HasValues(f, ChargeCounterUah) || HasValues(f, ChargeCounter) then FromChargeCounter
    else if HasValues(f, CurrentAvgUa) then FromCurrent
    else NoSource
  }

  /** The counter column read: `charge_counter_uah` whenever that column exists, even when it is
      all missing and `charge_counter` is the one with values. */
  function RawCounter(f: Frame): seq<Value>
  {
    if ChargeCounterUah in f.columns then ColumnValues(f.rows, ChargeCounterUah)
    else ColumnValues(f.rows, ChargeCounter)
  }

  function MilliOfMicro(x: real): real { x / 1000.0 }

  function Negated(x: real): real { -x }

  /** `Q.dropna().median() < 0`; the median of no values is NaN and the comparison is false. */
  predicate MedianNegative(q: seq<Value>)
  {
    Present(q) != [] && Median(Present(q)) < 0.0
  }

  /** The counter path: µAh to mAh, Hampel(7, 5.0), then negated when its median is negative. */
  function CounterCharge(raw: seq<Value>): (r: seq<Value>)
    ensures |r| == |raw|
  {
    var h := Hampel(MapPresent(raw, MilliOfMicro), 7, 5.0);
    if MedianNegative(h) then MapPresent(h, Negated) else h
  }

  /** `current_avg_ua / 1e6 * delta_t_s / 3600`, in ampere-hours. */
  function ChargeSteps(rows: seq<Sample>, dt: seq<real>): (r: seq<Value>)
    requires |dt| == |rows|
    ensures |r| == |rows|
    ensures forall i :: 0 <= i < |rows| ==> (r[i].Num? <==> rows[i].currentAvgUa.Num?)
  {
    seq(|rows|, i requires 0 <= i < |rows| =>
      if rows[i].currentAvgUa.Num? then Num(StepAh(rows[i].currentAvgUa.x, dt[i])) else Missing)
  }

  function StepAh(ua: real, dt: real): real
  {
    ua / 1000000.0 * dt / 3600.0
  }

  /** The current path: the cumulative charge minus its minimum (not its first value), in mAh. */
  function CurrentCharge(rows: seq<Sample>, dt: seq<real>): (r: seq<Value>)
    requires |dt| == |rows|
    ensures |r| == |rows|
    ensures forall i :: 0 <= i < |rows| ==> (r[i].Num? <==> rows[i].currentAvgUa.Num?)
  {
    var cum := CumSum(ChargeSteps(rows, dt));
    if Present(cum) == [] then cum else ShiftToMilli(cum, MinOf(Present(cum)))
  }

  /** `(Q_Ah - m) * 1000`. */
  function ShiftToMilli(cum: seq<Value>, m: real): (r: seq<Value>)
    ensures |r| == |cum|
    ensures forall i :: 0 <= i < |cum| ==> (r[i].Num? <==> cum[i].Num?)
    ensures forall i :: 0 <= i < |cum| && cum[i].Num? ==> r[i].x == (cum[i].x - m) * 1000.0
  {
    seq(|cum|, i requires 0 <= i < |cum| => if cum[i].Num? then Num((cum[i].x - m) * 1000.0) else Missing)
  }

  /** Integrated charge is never negative and reaches 0 at its minimum. */
  lemma CurrentChargeFloor(rows: seq<Sample>, dt: seq<real>, p: int)
    requires |dt| == |rows| && 0 <= p < |rows| && rows[p].currentAvgUa.Num?
    ensures forall i :: 0 <= i < |rows| && CurrentCharge(rows, dt)[i].Num? ==> CurrentCharge(rows, dt)[i].x >= 0.0
    ensures exists i :: 0 <= i < |rows| && CurrentCharge(rows, dt)[i] == Num(0.0)
  {
    var steps := ChargeSteps(rows, dt);
    var cum := CumSum(steps);
    assert steps[p].Num?;
    PresentAt(cum, p);
    assert CurrentCharge(rows, dt) == ShiftToMilli(cum, MinOf(Present(cum)));
    ShiftFloor(cum);
  }

  /** Between two consecutive current readings, the charge in mAh rises by the later reading's step. */
  lemma CurrentChargeStep(rows: seq<Sample>, dt: seq<real>, i: int, j: int)
    requires |dt| == |rows| && 0 <= i < j < |rows|
    requires rows[i].currentAvgUa.Num? && rows[j].currentAvgUa.Num?
    requires forall k :: i < k < j ==> rows[k].currentAvgUa == Missing
    ensures CurrentCharge(rows, dt)[j].x ==
      CurrentCharge(rows, dt)[i].x + StepAh(rows[j].currentAvgUa.x, dt[j]) * 1000.0
  {
    var steps := ChargeSteps(rows, dt);
    var cum := CumSum(steps);
    CumSumStep(steps, i, j);
    PresentAt(cum, i);
    assert CurrentCharge(rows, dt) == ShiftToMilli(cum, MinOf(Present(cum)));
  }

  /** At the first current reading the charge is that reading's step above the minimum, in mAh. */
  lemma CurrentChargeFirst(rows: seq<Sample>, dt: seq<real>, j: int)
    requires |dt| == |rows| && 0 <= j < |rows| && rows[j].currentAvgUa.Num?
    requires forall k :: 0 <= k < j ==> rows[k].currentAvgUa == Missing
    ensures CurrentCharge(rows, dt)[j].x ==
      (StepAh(rows[j].currentAvgUa.x, dt[j]) - MinOf(Present(CumSum(ChargeSteps(rows, dt))))) * 1000.0
  {
    var steps := ChargeSteps(rows, dt);
    var cum := CumSum(steps);
    CumSumFirst(steps, j);
    PresentAt(cum, j);
    assert CurrentCharge(rows, dt) == ShiftToMilli(cum, MinOf(Present(cum)));
  }

  lemma PresentAt(s: seq<Value>, p: int)
    requires 0 <= p < |s| && s[p].Num?
    ensures Present(s) != []
  {
    assert Num(s[p].x) in s;
  }

  lemma ShiftFloor(cum: seq<Value>)
    requires Present(cum) != []
    ensures forall i :: 0 <= i < |cum| && cum[i].Num? ==> ShiftToMilli(cum, MinOf(Present(cum)))[i].x >= 0.0
    ensures exists i :: 0 <= i < |cum| && ShiftToMilli(cum, MinOf(Present(cum)))[i] == Num(0.0)
  {
    var m := MinOf(Present(cum));
    var q := ShiftToMilli(cum, m);
    forall i | 0 <= i < |cum| && cum[i].Num? ensures q[i].x >= 0.0 {
      assert Num(cum[i].x) in cum;
    }
    assert Num(m) in cum;
    var w :| 0 <= w < |cum| && cum[w] == Num(m);
    ShiftZeroAt(cum, m, w);
  }

  lemma ShiftZeroAt(cum: seq<Value>, m: real, w: int)
    requires 0 <= w < |cum| && cum[w] == Num(m)
    ensures ShiftToMilli(cum, m)[w] == Num(0.0)
  {
  }

  /** The `Q_mAh` column on each path; with no source it is all missing. */
  function Charge(f: Frame, dt: seq<real>): (r: seq<Value>)
    requires |dt| == |f.rows|
    ensures |r| == |f.rows|
  {
    match SelectSource(f)
    case FromChargeCounter => CounterCharge(RawCounter(f))
    case FromCurrent => CurrentCharge(f.rows, dt)
    case NoSource => MissingColumn(|f.rows|)
  }

  /** On the counter path, a present charge is the reading in mAh, negated exactly when the
      median of the filtered readings is negative. */
  lemma CounterChargeFromRaw(raw: seq<Value>, i: int)
    requires 0 <= i < |raw| && CounterCharge(raw)[i].Num?
    ensures raw[i].Num?
    ensures CounterCharge(raw)[i].x ==
      if MedianNegative(Hampel(MapPresent(raw, MilliOfMicro), 7, 5.0)) then -MilliOfMicro(raw[i].x) else MilliOfMicro(raw[i].x)
  {
    var m := MapPresent(raw, MilliOfMicro);
    var h := Hampel(m, 7, 5.0);
    var c := CounterCharge(raw);
    if MedianNegative(h) {
      assert c == MapPresent(h, Negated);
      assert h[i].Num?;
      assert c[i].x == Negated(h[i].x);
    } else {
      assert c == h;
    }
    assert h[i] == m[i];
    assert m[i] == Num(MilliOfMicro(raw[i].x));
  }

  // ---------------------------------------------------------------------------
  // Full-charge blocks.

  /** `max(threshold - 1, 98)`. */
  function FullThreshold(threshold: real): (r: real)
    ensures r >= 98.0 && r >= threshold - 1.0
    ensures r == 98.0 || r == threshold - 1.0
  {
    if threshold - 1.0 < 98.0 then 98.0 else threshold - 1.0
  }

  /** `is_full`: a missing level compares false and is not full. */
  function IsFull(level: seq<Value>, th: real): (r: seq<bool>)
    ensures |r| == |level|
    ensures forall i :: 0 <= i < |level| ==> (r[i] <==> level[i].Num? && level[i].x >= th)
  {
    seq(|level|, i requires 0 <= i < |level| => level[i].Num? && level[i].x >= th)
  }

  /** `(is_full != is_full.shift(1)).cumsum()`: row 0 differs from the missing shifted value and
      opens run 1; every change of the flag opens the next run. */
  function RunId(full: seq<bool>, i: int): (r: nat)
    requires 0 <= i < |full|
    ensures r >= 1
  {
    if i == 0 then 1 else RunId(full, i - 1) + (if full[i] != full[i - 1] then 1 else 0)
  }

  /** `full_block_id`: the run id on full rows, missing elsewhere. */
  function FullBlockId(full: seq<bool>): (r: seq<Option<nat>>)
    ensures |r| == |full|
    ensures forall i :: 0 <= i < |full| ==> (r[i].Some? <==> full[i])
    ensures forall i :: 0 <= i < |full| && full[i] ==> r[i] == Some(RunId(full, i))
  {
    seq(|full|, i requires 0 <= i < |full| => if full[i] then Some(RunId(full, i)) else None)
  }

  /** Run ids never decrease along the series. */
  lemma {:induction false} RunIdMonotone(full: seq<bool>, i: int, j: int)
    requires 0 <= i <= j < |full|
    ensures RunId(full, i) <= RunId(full, j)
    decreases j
  {
    if i < j {
      RunIdMonotone(full, i, j - 1);
    }
  }

  /** Two rows share a run id exactly when the flag does not change between them. */
  lemma {:induction false} RunIdSameIff(full: seq<bool>, i: int, j: int)
    requires 0 <= i <= j < |full|
    ensures RunId(full, i) == RunId(full, j) <==> forall m :: i <= m <= j ==> full[m] == full[i]
    decreases j
  {
    if i < j {
      RunIdSameIff(full, i, j - 1);
      RunIdMonotone(full, i, j - 1);
      if RunId(full, i) == RunId(full, j) {
        assert RunId(full, i) == RunId(full, j - 1);
        assert full[j] == full[j - 1];
      }
    }
  }

  /** Two full rows are in the same block (`full_block_id` is their run id) exactly when no
      non-full row lies between them. */
  lemma SameBlockIff(full: seq<bool>, i: int, j: int)
    requires 0 <= i < j < |full| && full[i] && full[j]
    ensures RunId(full, i) == RunId(full, j) <==> forall m :: i < m < j ==> full[m]
  {
    RunIdSameIff(full, i, j);
  }

  /** Block ids increase along the series. */
  lemma BlockIdsIncrease(full: seq<bool>, i: int, j: int)
    requires 0 <= i <= j < |full| && full[i] && full[j]
    ensures FullBlockId(full)[i].value <= FullBlockId(full)[j].value
  {
    RunIdMonotone(full, i, j);
  }

  // ---------------------------------------------------------------------------
  // One capacity candidate per block.

  /** Row `i` belongs to the group of block `b` after `dropna(subset=[full_block_id, Q_mAh])`. */
  predicate InBlock(fb: seq<Option<nat>>, q: seq<Value>, b: nat, i: int)
    requires |fb| == |q| && 0 <= i < |q|
  {
    fb[i] == Some(b) && q[i].Num?
  }

  /** The block's charges, in row order, among the first `n` rows. */
  function BlockValues(fb: seq<Option<nat>>, q: seq<Value>, b: nat, n: int): seq<real>
    requires |fb| == |q| && 0 <= n <= |q|
    decreases n
  {
    if n == 0 then []
    else BlockValues(fb, q, b, n - 1) + (if InBlock(fb, q, b, n - 1) then [q[n - 1].x] else [])
  }

  /** `BlockValues` holds exactly the charges of the block's rows. */
  lemma {:induction false} BlockValuesMembers(fb: seq<Option<nat>>, q: seq<Value>, b: nat, n: int)
    requires |fb| == |q| && 0 <= n <= |q|
    ensures forall v :: v in BlockValues(fb, q, b, n) ==> exists i :: 0 <= i < n && InBlock(fb, q, b, i) && q[i].x == v
    ensures forall i :: 0 <= i < n && InBlock(fb, q, b, i) ==> q[i].x in BlockValues(fb, q, b, n)
    decreases n
  {
    if n > 0 {
      BlockValuesMembers(fb, q, b, n - 1);
    }
  }

  /** The first row of the block holding the charge `v` (`idxmax` returns the first maximum). */
  function FirstWith(fb: seq<Option<nat>>, q: seq<Value>, b: nat, v: real, n: int): (r: Option<nat>)
    requires |fb| == |q| && 0 <= n <= |q|
    ensures r.Some? ==> r.value < n && InBlock(fb, q, b, r.value) && q[r.value].x == v
    decreases n
  {
    if n == 0 then None
    else
      var p := FirstWith(fb, q, b, v, n - 1);
      if p.Some? then p
      else if InBlock(fb, q, b, n - 1) && q[n - 1].x == v then Some(n - 1)
      else None
  }

  /** `FirstWith` finds the first such row, and finds one whenever there is one. */
  lemma {:induction false} FirstWithFirst(fb: seq<Option<nat>>, q: seq<Value>, b: nat, v: real, n: int)
    requires |fb| == |q| && 0 <= n <= |q|
    ensures FirstWith(fb, q, b, v, n).Some? ==>
      forall j :: 0 <= j < FirstWith(fb, q, b, v, n).value && InBlock(fb, q, b, j) ==> q[j].x != v
    ensures FirstWith(fb, q, b, v, n).None? ==> forall j :: 0 <= j < n && InBlock(fb, q, b, j) ==> q[j].x != v
    decreases n
  {
    if n > 0 {
      FirstWithFirst(fb, q, b, v, n - 1);
    }
  }

  /** Where a block writes its capacity, and what. */
  datatype Candidate = Candidate(row: nat, ct: real)

  /** The block's `np.nanpercentile(q, 95)` placed at `q.idxmax()`; no candidate for a block
      without charges. */
  function BlockCandidate(fb: seq<Option<nat>>, q: seq<Value>, b: nat): (r: Option<Candidate>)
    requires |fb| == |q|
    ensures r.Some? ==> r.value.row < |q| && InBlock(fb, q, b, r.value.row)
  {
    var vals := BlockValues(fb, q, b, |q|);
    if vals == [] then None
    else
      match FirstWith(fb, q, b, MaxOf(vals), |q|)
      case None => None
      case Some(row) => Some(Candidate(row, Quantile(vals, 0.95)))
  }

  /** A block has a candidate exactly when it holds a charge. */
  lemma BlockCandidateExists(fb: seq<Option<nat>>, q: seq<Value>, b: nat)
    requires |fb| == |q|
    ensures BlockCandidate(fb, q, b).None? <==> forall i :: 0 <= i < |q| ==> !InBlock(fb, q, b, i)
  {
    var vals := BlockValues(fb, q, b, |q|);
    BlockValuesMembers(fb, q, b, |q|);
    if vals != [] {
      var m := MaxOf(vals);
      FirstWithFirst(fb, q, b, m, |q|);
    }
  }

  /** The candidate's row is the first row holding the block's largest charge, and its value,
      the 95th percentile, does not exceed that charge. */
  lemma BlockCandidateArgmax(fb: seq<Option<nat>>, q: seq<Value>, b: nat)
    requires |fb| == |q| && BlockCandidate(fb, q, b).Some?
    ensures var c := BlockCandidate(fb, q, b).value;
      && (forall j :: 0 <= j < |q| && InBlock(fb, q, b, j) ==> q[j].x <= q[c.row].x)
      && (forall j :: 0 <= j < c.row && InBlock(fb, q, b, j) ==> q[j].x < q[c.row].x)
      && c.ct <= q[c.row].x
  {
    var vals := BlockValues(fb, q, b, |q|);
    BlockValuesMembers(fb, q, b, |q|);
    FirstWithFirst(fb, q, b, MaxOf(vals), |q|);
  }

  /** The Ct cell of row `i` after the block loop. */
  function BlockCtAt(fb: seq<Option<nat>>, q: seq<Value>, i: int): Value
    requires |fb| == |q| && 0 <= i < |q|
  {
    if fb[i].None? then Missing
    else
      var c := BlockCandidate(fb, q, fb[i].value);
      if c.Some? && c.value.row == i then Num(c.value.ct) else Missing
  }

  /** The `Ct_mAh` column after the block loop. */
  function BlockCt(fb: seq<Option<nat>>, q: seq<Value>): (r: seq<Value>)
    requires |fb| == |q|
    ensures |r| == |q|
    ensures forall i :: 0 <= i < |q| ==> r[i] == BlockCtAt(fb, q, i)
  {
    seq(|q|, i requires 0 <= i < |q| => BlockCtAt(fb, q, i))
  }

  /** A block receives its capacity at one row only. */
  lemma BlockCtUnique(fb: seq<Option<nat>>, q: seq<Value>, i: int, j: int)
    requires |fb| == |q| && 0 <= i < |q| && 0 <= j < |q|
    requires BlockCt(fb, q)[i].Num? && BlockCt(fb, q)[j].Num? && fb[i] == fb[j]
    ensures i == j
  {
  }

  /** The row receiving a block's capacity is the first row holding the block's largest charge,
      and the capacity (its 95th percentile) does not exceed that charge. */
  lemma BlockCtAtArgmax(fb: seq<Option<nat>>, q: seq<Value>, i: int)
    requires |fb| == |q| && 0 <= i < |q| && BlockCt(fb, q)[i].Num?
    ensures fb[i].Some? && q[i].Num?
    ensures BlockCt(fb, q)[i].x <= q[i].x
    ensures forall j :: 0 <= j < |q| && InBlock(fb, q, fb[i].value, j) ==> q[j].x <= q[i].x
    ensures forall j :: 0 <= j < i && InBlock(fb, q, fb[i].value, j) ==> q[j].x < q[i].x
  {
    BlockCandidateArgmax(fb, q, fb[i].value);
  }

  /** Every block holding a charge receives a capacity. */
  lemma BlockCtExists(fb: seq<Option<nat>>, q: seq<Value>, j: int)
    requires |fb| == |q| && 0 <= j < |q| && fb[j].Some? && q[j].Num?
    ensures exists i :: 0 <= i < |q| && fb[i] == fb[j] && BlockCt(fb, q)[i].Num?
  {
    BlockCandidateExists(fb, q, fb[j].value);
    assert InBlock(fb, q, fb[j].value, j);
    var c := BlockCandidate(fb, q, fb[j].value);
    assert BlockCt(fb, q)[c.value.row].Num?;
  }

  /** The candidates of blocks 0 .. last, indexed by block id. */
  function Candidates(fb: seq<Option<nat>>, q: seq<Value>, last: nat): (r: seq<Option<Candidate>>)
    requires |fb| == |q|
    ensures |r| == last + 1
    ensures forall b :: 0 <= b <= last ==> r[b] == BlockCandidate(fb, q, b)
  {
    seq(last + 1, b requires 0 <= b <= last => BlockCandidate(fb, q, b))
  }

  /** Every candidate sits on a row of its own block. */
  predicate WellPlaced(fb: seq<Option<nat>>, cands: seq<Option<Candidate>>)
  {
    forall b :: 0 <= b < |cands| && cands[b].Some? ==> cands[b].value.row < |fb| && fb[cands[b].value.row] == Some(b)
  }

  lemma CandidatesWellPlaced(fb: seq<Option<nat>>, q: seq<Value>, last: nat)
    requires |fb| == |q|
    ensures WellPlaced(fb, Candidates(fb, q, last))
  {
  }

  /** The Ct cell of row `i` once the blocks below `b` have written their candidates. */
  function PartialCtAt(fb: seq<Option<nat>>, cands: seq<Option<Candidate>>, b: nat, i: int): Value
    requires 0 <= i < |fb|
  {
    if fb[i].Some? && fb[i].value < b && fb[i].value < |cands|
      && cands[fb[i].value].Some? && cands[fb[i].value].value.row == i
    then Num(cands[fb[i].value].value.ct)
    else Missing
  }

  function PartialCt(fb: seq<Option<nat>>, cands: seq<Option<Candidate>>, b: nat): (r: seq<Value>)
    ensures |r| == |fb|
    ensures forall i :: 0 <= i < |fb| ==> r[i] == PartialCtAt(fb, cands, b, i)
  {
    seq(|fb|, i requires 0 <= i < |fb| => PartialCtAt(fb, cands, b, i))
  }

  /** Handling block b writes its candidate into a cell that no earlier block wrote. */
  lemma PartialCtStep(fb: seq<Option<nat>>, cands: seq<Option<Candidate>>, b: nat)
    requires WellPlaced(fb, cands) && b < |cands|
    ensures cands[b].None? ==> PartialCt(fb, cands, b + 1) == PartialCt(fb, cands, b)
    ensures cands[b].Some? ==>
      && cands[b].value.row < |fb|
      && PartialCt(fb, cands, b)[cands[b].value.row] == Missing
      && PartialCt(fb, cands, b + 1) == PartialCt(fb, cands, b)[cands[b].value.row := Num(cands[b].value.ct)]
  {
    var p0 := PartialCt(fb, cands, b);
    var p1 := PartialCt(fb, cands, b + 1);
    if cands[b].Some? {
      assert p1 == p0[cands[b].value.row := Num(cands[b].value.ct)];
    } else {
      assert p1 == p0;
    }
  }

  /** Before the loop the column is all missing: block ids start at 1. */
  lemma PartialCtStart(fb: seq<Option<nat>>, cands: seq<Option<Candidate>>)
    requires forall i :: 0 <= i < |fb| && fb[i].Some? ==> fb[i].value >= 1
    ensures PartialCt(fb, cands, 1) == MissingColumn(|fb|)
  {
  }

  /** Once every run id has been visited, the loop has produced `BlockCt`. */
  lemma PartialCtDone(full: seq<bool>, q: seq<Value>, cands: seq<Option<Candidate>>)
    requires |full| == |q| && |q| > 0
    requires cands == Candidates(FullBlockId(full), q, RunId(full, |q| - 1))
    ensures PartialCt(FullBlockId(full), cands, |cands|) == BlockCt(FullBlockId(full), q)
  {
    var fb := FullBlockId(full);
    var last := RunId(full, |q| - 1);
    assert |cands| == last + 1;
    forall i | 0 <= i < |q| ensures PartialCt(fb, cands, last + 1)[i] == BlockCtAt(fb, q, i) {
      BlockIdBound(full, i);
    }
  }

  /** No block id exceeds the last row's run id. */
  lemma BlockIdBound(full: seq<bool>, i: int)
    requires 0 <= i < |full|
    ensures FullBlockId(full)[i].Some? ==> FullBlockId(full)[i].value <= RunId(full, |full| - 1)
  {
    if full[i] {
      RunIdMonotone(full, i, |full| - 1);
    }
  }

  /** The loop over the groups of `full_block_id` in ascending order; each writes one cell of a
      column that starts all missing. */
  method AssignBlockCt(full: seq<bool>, q: seq<Value>) returns (r: seq<Value>)
    requires |full| == |q|
    ensures r == BlockCt(FullBlockId(full), q)
  {
    var fb := FullBlockId(full);
    if |q| == 0 {
      return [];
    }
    var last := RunId(full, |q| - 1);
    var cands := Candidates(fb, q, last);
    BlockLoopSetup(full, q);
    r := WriteCandidates(fb, cands);
    PartialCtDone(full, q, cands);
  }

  lemma BlockLoopSetup(full: seq<bool>, q: seq<Value>)
    requires |full| == |q| && |q| > 0
    ensures var fb := FullBlockId(full);
      && WellPlaced(fb, Candidates(fb, q, RunId(full, |q| - 1)))
      && forall i :: 0 <= i < |fb| && fb[i].Some? ==> fb[i].value >= 1
  {
    CandidatesWellPlaced(FullBlockId(full), q, RunId(full, |q| - 1));
  }

  /** The loop body: block b writes its candidate, if it has one. No block overwrites another's
      cell (`PartialCtStep`): the blocks are disjoint, so "the later block wins" never applies. */
  method WriteCandidates(fb: seq<Option<nat>>, cands: seq<Option<Candidate>>) returns (r: seq<Value>)
    requires WellPlaced(fb, cands) && |cands| >= 1
    requires forall i :: 0 <= i < |fb| && fb[i].Some? ==> fb[i].value >= 1
    ensures r == PartialCt(fb, cands, |cands|)
  {
    var a := new Value[|fb|](i => Missing);
    PartialCtStart(fb, cands);
    var b := 1;
    while b < |cands|
      invariant 1 <= b <= |cands|
      invariant a[..] == PartialCt(fb, cands, b)
    {
      PartialCtStep(fb, cands, b);
      if cands[b].Some? {
        a[cands[b].value.row] := Num(cands[b].value.ct);
      }
      b := b + 1;
    }
    r := a[..];
  }

  // ---------------------------------------------------------------------------
  // Capacity trace (`Ct_mAh`) and reference capacity (`C0_ref`).

  /** The nominal capacity of the first row's device, when the table knows it. */
  function NominalCapacity(capacity: map<string, real>, device: string): (r: Option<real>)
    ensures r.Some? <==> device in capacity
    ensures r.Some? ==> r.value == capacity[device]
  {
    if device in capacity then Some(capacity[device]) else None
  }

  /** When no block produced a value, the trailing rolling max of the charge (6 rows, at least 3). */
  function WithFallback(ct: seq<Value>, q: seq<Value>): (r: seq<Value>)
    requires |ct| == |q|
    ensures |r| == |q|
    ensures !AllMissing(ct) ==> r == ct
    ensures AllMissing(ct) ==> r == RollingMax(q, 6, 3, false)
  {
    if AllMissing(ct) then RollingMax(q, 6, 3, false) else ct
  }

  /** `clip(0.70 * C_nom, 1.15 * C_nom)` when the nominal capacity is known. */
  function ClipNominal(ct: seq<Value>, nominal: Option<real>): (r: seq<Value>)
    ensures |r| == |ct|
    ensures forall i :: 0 <= i < |ct| ==> (r[i].Num? <==> ct[i].Num?)
    ensures nominal.Some? && nominal.value >= 0.0 ==>
      forall i :: 0 <= i < |ct| && r[i].Num? ==> 0.70 * nominal.value <= r[i].x <= 1.15 * nominal.value
    ensures nominal.Some? && nominal.value < 0.0 ==>
      forall i :: 0 <= i < |ct| && r[i].Num? ==> 1.15 * nominal.value <= r[i].x <= 0.70 * nominal.value
    ensures nominal.None? ==> r == ct
  {
    match nominal
    case Some(c) => ClipColumn(ct, 0.70 * c, 1.15 * c)
    case None => ct
  }

  /** The `Ct_mAh` column: block capacities, the fallback, the nominal clip and a forward fill. */
  function CapacityTrace(q: seq<Value>, full: seq<bool>, nominal: Option<real>): (r: seq<Value>)
    requires |full| == |q|
    ensures |r| == |q|
  {
    FFill(ClipNominal(WithFallback(BlockCt(FullBlockId(full), q), q), nominal))
  }

  /** With a known nominal capacity, every capacity lies between 0.70 and 1.15 times it (the
      bounds swap places for a negative table entry). */
  lemma CapacityTraceWithinNominal(q: seq<Value>, full: seq<bool>, c: real, i: int)
    requires |full| == |q| && 0 <= i < |q|
    requires CapacityTrace(q, full, Some(c))[i].Num?
    ensures c >= 0.0 ==> 0.70 * c <= CapacityTrace(q, full, Some(c))[i].x <= 1.15 * c
    ensures c < 0.0 ==> 1.15 * c <= CapacityTrace(q, full, Some(c))[i].x <= 0.70 * c
  {
    var clipped := ClipNominal(WithFallback(BlockCt(FullBlockId(full), q), q), Some(c));
    var j :| 0 <= j <= i && clipped[j] == CapacityTrace(q, full, Some(c))[i];
  }

  /** The forward fill creates no capacity before the first one. */
  lemma CapacityTraceNoneBefore(q: seq<Value>, full: seq<bool>, nominal: Option<real>, i: int)
    requires |full| == |q| && 0 <= i < |q|
    ensures CapacityTrace(q, full, nominal)[i] == Missing <==>
      forall j :: 0 <= j <= i ==> ClipNominal(WithFallback(BlockCt(FullBlockId(full), q), q), nominal)[j] == Missing
  {
    FFillMissingIff(ClipNominal(WithFallback(BlockCt(FullBlockId(full), q), q), nominal), i);
  }

  /** `valid_ct[valid_ct <= hi]`. */
  function AtMost(s: seq<real>, hi: real): (r: seq<real>)
    ensures forall v :: v in r <==> v in s && v <= hi
    decreases |s|
  {
    if s == [] then []
    else (if s[0] <= hi then [s[0]] else []) + AtMost(s[1..], hi)
  }

  /** The 95th percentile of the capacities after dropping those above their 99th percentile. */
  function TrimmedP95(vals: seq<real>): (r: real)
    requires |vals| > 0
    ensures MinOf(vals) <= r <= Quantile(vals, 0.99)
  {
    var hi := Quantile(vals, 0.99);
    var t := AtMost(vals, hi);
    assert MinOf(vals) in t;
    var r := Quantile(t, 0.95);
    assert MinOf(t) in vals && MaxOf(t) in t;
    r
  }

  /** The reference capacity cascade: the data's trimmed 95th percentile clipped to
      [0.95, 1.05] times the nominal capacity, else the data alone, else the nominal capacity,
      else `default_C0`. */
  function C0Ref(ct: seq<Value>, nominal: Option<real>, defaultC0: int): (r: real)
    ensures nominal.Some? && nominal.value >= 0.0 && Present(ct) != [] ==>
      0.95 * nominal.value <= r <= 1.05 * nominal.value
    ensures nominal.Some? && nominal.value < 0.0 && Present(ct) != [] ==> r == 1.05 * nominal.value
    ensures nominal.None? && Present(ct) != [] ==> r == TrimmedP95(Present(ct))
    ensures Present(ct) == [] && nominal.Some? ==> r == nominal.value
    ensures Present(ct) == [] && nominal.None? ==> r == defaultC0 as real
  {
    var vals := Present(ct);
    if vals != [] then
      var data := TrimmedP95(vals);
      match nominal
      case Some(c) => Clip(data, 0.95 * c, 1.05 * c)
      case None => data
    else
      match nominal
      case Some(c) => c
      case None => defaultC0 as real
  }

  /** Without a nominal capacity the reference lies within the range of the capacities. */
  lemma C0RefWithinData(ct: seq<Value>, defaultC0: int)
    requires Present(ct) != []
    ensures MinOf(Present(ct)) <= C0Ref(ct, None, defaultC0) <= MaxOf(Present(ct))
  {
    var vals := Present(ct);
    assert Quantile(vals, 0.99) <= MaxOf(vals);
  }

  // ---------------------------------------------------------------------------
  // State of health.

  /** `(Ct / C0_ref).clip(0, 1.2)` on one row. A zero reference gives ±inf, which the clip maps to
      its bounds, or NaN for 0/0. */
  function SohOf(ct: Value, c0: real): (r: Value)
    ensures r.Num? ==> 0.0 <= r.x <= 1.2
    ensures r.Num? <==> ct.Num? && (c0 != 0.0 || ct.x != 0.0)
    ensures ct.Num? && c0 != 0.0 ==> r == Num(SeriesClip(ct.x / c0, 0.0, 1.2))
  {
    if ct.Missing? then Missing
    else if c0 != 0.0 then Num(SeriesClip(ct.x / c0, 0.0, 1.2))
    else if ct.x > 0.0 then Num(1.2)
    else if ct.x < 0.0 then Num(0.0)
    else Missing
  }

  function Soh(ct: seq<Value>, c0: real): (r: seq<Value>)
    ensures |r| == |ct|
    ensures forall i :: 0 <= i < |ct| ==> r[i] == SohOf(ct[i], c0)
  {
    seq(|ct|, i requires 0 <= i < |ct| => SohOf(ct[i], c0))
  }

  /** A fraction as a percentage; SoH in [0, 1.2] becomes [0, 120]. */
  function Percent(x: real): (r: real)
    ensures r / 100.0 == x
    ensures 0.0 <= x <= 1.2 ==> 0.0 <= r <= 120.0
  {
    x * 100.0
  }

  /** The centred rolling median of values in [0, 1.2] stays in [0, 1.2]. */
  lemma SmoothWithinBounds(soh: seq<Value>, w: int, i: int)
    requires w >= 1 && 0 <= i < |soh|
    requires forall j :: 0 <= j < |soh| && soh[j].Num? ==> 0.0 <= soh[j].x <= 1.2
    requires RollingMedian(soh, w, 1, true)[i].Num?
    ensures 0.0 <= RollingMedian(soh, w, 1, true)[i].x <= 1.2
  {
    var v := WindowValues(soh, i, w, true);
    var cells := WindowCells(soh, i, w, true);
    assert MinOf(v) in v && MaxOf(v) in v;
    assert Num(MinOf(v)) in cells && Num(MaxOf(v)) in cells;
  }

  // ---------------------------------------------------------------------------
  // Discharge and equivalent full cycles.

  /** `where(delta_Q < 0, -delta_Q, 0)`. */
  function Discharge(dq: seq<real>): (r: seq<real>)
    ensures |r| == |dq|
    ensures forall i :: 0 <= i < |dq| ==> r[i] >= 0.0
    ensures forall i :: 0 <= i < |dq| ==> r[i] == if dq[i] < 0.0 then -dq[i] else 0.0
  {
    seq(|dq|, i requires 0 <= i < |dq| => if dq[i] < 0.0 then -dq[i] else 0.0)
  }

  /** The column after `loc[d > cap] = cap`. */
  function Capped(d: seq<real>, cap: real): (r: seq<real>)
    ensures |r| == |d|
    ensures forall i :: 0 <= i < |d| ==> r[i] <= cap || r[i] == d[i]
    ensures forall i :: 0 <= i < |d| ==> r[i] == if d[i] > cap then cap else d[i]
  {
    seq(|d|, i requires 0 <= i < |d| => if d[i] > cap then cap else d[i])
  }

  /** The masked write capping the discharge at its 99th percentile, in place. */
  method CapInPlace(a: array<real>, cap: real)
    modifies a
    ensures a[..] == Capped(old(a[..]), cap)
  {
    var i := 0;
    while i < a.Length
      invariant 0 <= i <= a.Length
      invariant forall j :: 0 <= j < i ==> a[j] == Capped(old(a[..]), cap)[j]
      invariant forall j :: i <= j < a.Length ==> a[j] == old(a[j])
    {
      if a[i] > cap {
        a[i] := cap;
      }
      i := i + 1;
    }
  }

  /** Capped discharge lies in [0, q99] and is 0 where the charge did not fall. */
  lemma CappedDischargeBounds(dq: seq<real>, i: int)
    requires |dq| > 0 && 0 <= i < |dq|
    ensures 0.0 <= Capped(Discharge(dq), Quantile(Discharge(dq), 0.99))[i] <= Quantile(Discharge(dq), 0.99)
    ensures dq[i] >= 0.0 ==> Capped(Discharge(dq), Quantile(Discharge(dq), 0.99))[i] == 0.0
  {
    var d := Discharge(dq);
    assert MinOf(d) in d;
  }

  /** `discharge.cumsum() / C0_ref`; a zero reference gives inf or NaN, modelled as missing. */
  function Efc(d: seq<real>, c0: real): (r: seq<Value>)
    ensures |r| == |d|
    ensures forall i :: 0 <= i < |d| ==> (r[i].Num? <==> c0 != 0.0)
  {
    seq(|d|, i requires 0 <= i < |d| => if c0 != 0.0 then Num(Sum(d[..i + 1]) / c0) else Missing)
  }

  lemma DivNonNeg(a: real, c: real)
    requires a >= 0.0 && c > 0.0
    ensures a / c >= 0.0
  {
  }

  /** With a positive reference and non-negative discharge, EFC never decreases. */
  lemma EfcMonotone(d: seq<real>, c0: real, i: int, j: int)
    requires c0 > 0.0 && forall k :: 0 <= k < |d| ==> d[k] >= 0.0
    requires 0 <= i <= j < |d|
    ensures Efc(d, c0)[i].x <= Efc(d, c0)[j].x
  {
    assert d[..j + 1] == d[..i + 1] + d[i + 1..j + 1];
    SumConcat(d[..i + 1], d[i + 1..j + 1]);
    SumNonNeg(d[i + 1..j + 1]);
    DivMonotone(Sum(d[..i + 1]), Sum(d[..j + 1]), c0);
  }

  // ---------------------------------------------------------------------------
  // The whole estimator.

  /** The columns `calculate_soh_cycles` adds, row-aligned with the sorted rows. The helper
      columns (`Q_mAh_raw`, `is_full`, `full_block_id`, `batt_current_a`, `delta_Q_Ah`, `Q_Ah`)
      are the stage functions' intermediate values and are not repeated here. */
  datatype SohTable = SohTable(
    rows: seq<Sample>,
    deltaT: seq<real>,
    charge: seq<Value>,        // Q_mAh
    ct: seq<Value>,            // Ct_mAh
    soh: seq<Value>,
    sohSmooth: seq<Value>,
    sohPct: seq<Value>,
    sohSmoothPct: seq<Value>,
    deltaQ: seq<Value>,        // delta_Q_mAh
    discharge: seq<Value>,     // discharge_mAh
    efc: seq<Value>)

  /** `SohFailed` is the empty frame the exception handler returns. `c0` is the local `C0_ref`
      (not a column), exposed so that promises about SoH and EFC can name it; the all-missing
      path computes none. */
  datatype SohResult = SohFailed | SohOk(table: SohTable, c0: Option<real>)

  /** The estimator's specification. It fails on an empty frame (the first row's device is read),
      on a charge path without `battery_level`, and when `roll_win < 1` (pandas refuses the window). */
  function SohCycles(f: Frame, capacity: map<string, real>, defaultC0: int, threshold: real, rollWin: int): (r: SohResult)
    ensures |f.rows| == 0 ==> r.SohFailed?
    ensures |f.rows| > 0 && BatteryLevel in f.columns && rollWin >= 1 ==> r.SohOk?
    ensures r.SohOk? ==> SortedByKey(r.table.rows) && multiset(r.table.rows) == multiset(f.rows)
    ensures r.SohOk? ==> (r.c0.Some? <==> SelectSource(SortedFrame(f)) != NoSource)
  {
    if |f.rows| == 0 then SohFailed
    else
      var rows := SortRows(f.rows);
      var sorted := Frame(f.columns, rows);
      var dt := DeltaT(rows);
      var n := |rows|;
      if SelectSource(sorted) == NoSource then
        var none := MissingColumn(n);
        SohOk(SohTable(rows, dt, none, none, none, none, none, none, none, none, none), None)
      else if BatteryLevel !in f.columns || rollWin < 1 then SohFailed
      else
        var q := Charge(sorted, dt);
        var full := IsFull(ColumnValues(rows, BatteryLevel), FullThreshold(threshold));
        var nominal := NominalCapacity(capacity, rows[0].deviceId);
        var ct := CapacityTrace(q, full, nominal);
        var c0 := C0Ref(ct, nominal, defaultC0);
        var soh := Soh(ct, c0);
        var smooth := RollingMedian(soh, rollWin, 1, true);
        var dq := DiffFill0(q);
        var d := Discharge(dq);
        var capped := Capped(d, Quantile(d, 0.99));
        SohOk(SohTable(rows, dt, q, ct, soh, smooth, MapPresent(soh, Percent), MapPresent(smooth, Percent),
          Nums(dq), Nums(capped), Efc(capped, c0)), Some(c0))
  }

  /** `calculate_soh_cycles`: the stages run in the source's order, the in-place ones as the
      methods above. */
  method CalculateSohCycles(f: Frame, capacity: map<string, real>, defaultC0: int, threshold: real, rollWin: int)
    returns (r: SohResult)
    ensures r == SohCycles(f, capacity, defaultC0, threshold, rollWin)
  {
    if |f.rows| == 0 {
      return SohFailed;
    }
    var rows := SortRows(f.rows);
    var sorted := Frame(f.columns, rows);
    var dt := ComputeDeltaT(rows);
    var n := |rows|;
    var nominal := NominalCapacity(capacity, rows[0].deviceId);
    if SelectSource(sorted) == NoSource {
      var none := MissingColumn(n);
      return SohOk(SohTable(rows, dt, none, none, none, none, none, none, none, none, none), None);
    }
    var q := ChargeColumn(sorted, dt);
    if BatteryLevel !in f.columns {
      return SohFailed;
    }
    var full := IsFull(ColumnValues(rows, BatteryLevel), FullThreshold(threshold));
    var ct := CapacityColumn(q, full, nominal);
    var c0 := C0Ref(ct, nominal, defaultC0);
    var soh := Soh(ct, c0);
    if rollWin < 1 {
      return SohFailed;
    }
    var smooth := RollingMedian(soh, rollWin, 1, true);
    var dq := DiffFill0(q);
    var capped := DischargeColumn(dq);
    r := SohOk(SohTable(rows, dt, q, ct, soh, smooth, MapPresent(soh, Percent), MapPresent(smooth, Percent),
      Nums(dq), Nums(capped), Efc(capped, c0)), Some(c0));
  }

  /** Lines 72-90: the counter path (scaled, Hampel-filtered, sign-corrected) or the current path. */
  method ChargeColumn(f: Frame, dt: seq<real>) returns (q: seq<Value>)
    requires |dt| == |f.rows|
    ensures q == Charge(f, dt)
  {
    var source := SelectSource(f);
    if source == FromChargeCounter {
      var raw := MapPresent(RawCounter(f), MilliOfMicro);
      q := HampelFilter(raw, 7, 5.0);
      if MedianNegative(q) {
        q := MapPresent(q, Negated);
      }
    } else if source == FromCurrent {
      q := CurrentCharge(f.rows, dt);
    } else {
      q := MissingColumn(|f.rows|);
    }
  }

  /** Lines 105-130: block capacities, then the fallback, the nominal clip and the forward fill. */
  method CapacityColumn(q: seq<Value>, full: seq<bool>, nominal: Option<real>) returns (ct: seq<Value>)
    requires |full| == |q|
    ensures ct == CapacityTrace(q, full, nominal)
  {
    ct := AssignBlockCt(full, q);
    ct := WithFallback(ct, q);
    ct := ClipNominal(ct, nominal);
    ct := FFill(ct);
  }

  /** Lines 160-164: discharge from the charge differences, capped in place at its 99th percentile. */
  method DischargeColumn(dq: seq<real>) returns (capped: seq<real>)
    requires |dq| > 0
    ensures capped == Capped(Discharge(dq), Quantile(Discharge(dq), 0.99))
  {
    var d := Discharge(dq);
    var a := new real[|d|](i requires 0 <= i < |d| => d[i]);
    assert a[..] == d;
    CapInPlace(a, Quantile(d, 0.99));
    capped := a[..];
  }

  // ---------------------------------------------------------------------------
  // Promises of the whole estimator.

  /** The frame after `sort_values([device_id, created_at])`. */
  function SortedFrame(f: Frame): Frame
  {
    Frame(f.columns, SortRows(f.rows))
  }

  /** The estimator fails exactly on an empty frame, or on a charge path without `battery_level`
      or with `roll_win < 1`. */
  lemma SohCyclesFailsIff(f: Frame, capacity: map<string, real>, defaultC0: int, threshold: real, rollWin: int)
    ensures SohCycles(f, capacity, defaultC0, threshold, rollWin).SohFailed? <==>
      |f.rows| == 0 ||
      (SelectSource(SortedFrame(f)) != NoSource && (BatteryLevel !in f.columns || rollWin < 1))
  {
  }

  /** With no charge source, every result column is missing and no error is raised. */
  lemma SohCyclesNoSource(f: Frame, capacity: map<string, real>, defaultC0: int, threshold: real, rollWin: int)
    requires |f.rows| > 0 && SelectSource(SortedFrame(f)) == NoSource
    ensures var r := SohCycles(f, capacity, defaultC0, threshold, rollWin);
      && r.SohOk? && r.c0 == None
      && var t := r.table; var none := MissingColumn(|f.rows|);
      && t.charge == none && t.ct == none && t.soh == none && t.sohSmooth == none
      && t.sohPct == none && t.sohSmoothPct == none && t.deltaQ == none
      && t.discharge == none && t.efc == none
  {
  }

  /** Every successful result is the input sorted by (device, time), with every column aligned to
      it and every sample gap in [0, 3600] seconds. */
  lemma SohCyclesShape(f: Frame, capacity: map<string, real>, defaultC0: int, threshold: real, rollWin: int)
    requires SohCycles(f, capacity, defaultC0, threshold, rollWin).SohOk?
    ensures var t := SohCycles(f, capacity, defaultC0, threshold, rollWin).table;
      var n := |f.rows|;
      && SortedByKey(t.rows) && multiset(t.rows) == multiset(f.rows)
      && |t.deltaT| == n && |t.charge| == n && |t.ct| == n && |t.soh| == n && |t.sohSmooth| == n
      && |t.sohPct| == n && |t.sohSmoothPct| == n && |t.deltaQ| == n && |t.discharge| == n && |t.efc| == n
      && (forall i :: 0 <= i < n ==> 0.0 <= t.deltaT[i] <= 3600.0)
  {
  }

  /** On the charge paths the result columns are the stage functions applied in order. */
  lemma SohCyclesDataPath(f: Frame, capacity: map<string, real>, defaultC0: int, threshold: real, rollWin: int)
    requires SohCycles(f, capacity, defaultC0, threshold, rollWin).SohOk?
    requires SohCycles(f, capacity, defaultC0, threshold, rollWin).c0.Some?
    ensures var r := SohCycles(f, capacity, defaultC0, threshold, rollWin);
      var t := r.table;
      var c0 := r.c0.value;
      && |f.rows| > 0 && rollWin >= 1 && BatteryLevel in f.columns
      && SelectSource(SortedFrame(f)) != NoSource
      && t.charge == Charge(SortedFrame(f), t.deltaT)
      && t.ct == CapacityTrace(t.charge,
           IsFull(ColumnValues(t.rows, BatteryLevel), FullThreshold(threshold)),
           NominalCapacity(capacity, t.rows[0].deviceId))
      && c0 == C0Ref(t.ct, NominalCapacity(capacity, t.rows[0].deviceId), defaultC0)
      && t.soh == Soh(t.ct, c0)
      && t.sohSmooth == RollingMedian(t.soh, rollWin, 1, true)
      && t.sohPct == MapPresent(t.soh, Percent)
      && t.sohSmoothPct == MapPresent(t.sohSmooth, Percent)
      && t.deltaQ == Nums(DiffFill0(t.charge))
      && t.discharge == Nums(Capped(Discharge(DiffFill0(t.charge)), Quantile(Discharge(DiffFill0(t.charge)), 0.99)))
      && t.efc == Efc(Capped(Discharge(DiffFill0(t.charge)), Quantile(Discharge(DiffFill0(t.charge)), 0.99)), c0)
  {
  }

  /** SoH is `Ct / C0_ref` clipped to [0, 1.2] wherever it is defined, its smoothed form stays in
      [0, 1.2], and both percentage columns are 100 times their fraction. */
  lemma SohColumns(ct: seq<Value>, c0: real, rollWin: int, i: int)
    requires rollWin >= 1 && 0 <= i < |ct|
    ensures var soh := Soh(ct, c0);
      var smooth := RollingMedian(soh, rollWin, 1, true);
      && (soh[i].Num? ==> 0.0 <= soh[i].x <= 1.2 && MapPresent(soh, Percent)[i] == Num(soh[i].x * 100.0))
      && (soh[i].Missing? ==> MapPresent(soh, Percent)[i].Missing?)
      && (smooth[i].Num? ==> 0.0 <= smooth[i].x <= 1.2 && MapPresent(smooth, Percent)[i] == Num(smooth[i].x * 100.0))
  {
    var soh := Soh(ct, c0);
    SmoothPercentAt(soh, rollWin, i);
  }

  lemma SmoothPercentAt(soh: seq<Value>, rollWin: int, i: int)
    requires rollWin >= 1 && 0 <= i < |soh|
    requires forall j :: 0 <= j < |soh| && soh[j].Num? ==> 0.0 <= soh[j].x <= 1.2
    ensures var smooth := RollingMedian(soh, rollWin, 1, true);
      smooth[i].Num? ==> 0.0 <= smooth[i].x <= 1.2 && MapPresent(smooth, Percent)[i] == Num(smooth[i].x * 100.0)
  {
    if RollingMedian(soh, rollWin, 1, true)[i].Num? {
      SmoothWithinBounds(soh, rollWin, i);
    }
  }

  /** On a non-negative discharge that starts at 0, EFC starts at 0 and never decreases. */
  lemma EfcStartsAtZero(d: seq<real>, c0: real, i: int, j: int)
    requires c0 > 0.0 && 0 <= i <= j < |d|
    requires d[0] == 0.0 && forall k :: 0 <= k < |d| ==> d[k] >= 0.0
    ensures var e := Efc(d, c0);
      && e[0] == Num(0.0)
      && e[i].Num? && e[j].Num? && 0.0 <= e[i].x <= e[j].x
  {
    assert d[..1] == d[..0] + [d[0]];
    assert Sum(d[..1]) == 0.0;
    EfcMonotone(d, c0, 0, i);
    EfcMonotone(d, c0, i, j);
  }

  /** EFC starts at 0 on the first row, never decreases and is never negative when the reference
      capacity is positive; the discharge column lies in [0, q99] and is 0 where the charge rose. */
  lemma EfcColumns(q: seq<Value>, c0: real, i: int, j: int)
    requires c0 > 0.0 && 0 <= i <= j < |q|
    ensures var d := Discharge(DiffFill0(q));
      var capped := Capped(d, Quantile(d, 0.99));
      var e := Efc(capped, c0);
      && e[0] == Num(0.0)
      && e[i].Num? && e[j].Num? && 0.0 <= e[i].x <= e[j].x
      && 0.0 <= capped[i] <= Quantile(d, 0.99)
      && (DiffFill0(q)[i] >= 0.0 ==> capped[i] == 0.0)
  {
    var dq := DiffFill0(q);
    var capped := Capped(Discharge(dq), Quantile(Discharge(dq), 0.99));
    CappedDischargeBounds(dq, i);
    CappedDischargeBounds(dq, 0);
    forall k | 0 <= k < |capped|
      ensures capped[k] >= 0.0
    {
      CappedDischargeBounds(dq, k);
    }
    EfcStartsAtZero(capped, c0, i, j);
  }
}
