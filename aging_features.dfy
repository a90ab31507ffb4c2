/** Aging features: the filled SoH proxy, per-device exponential moving averages, the SoH trend,
    the EFC increment and the temperature, throughput and energy-per-bit features, after
    src/core/aging_features.py. */
module AgingFeatures {
  import opened Values
  import opened Order
  import opened Stats
  import opened Rolling
  import opened Telemetry
  import opened Segments

  // ---------------------------------------------------------------------------
  // Exponential moving average, `ewm(span, adjust=False).mean()`.

  /** `alpha = 2 / (span + 1)`; pandas refuses a span below 1. */
  function Alpha(span: int): (a: real)
    requires span >= 1
    ensures 0.0 < a <= 1.0
  {
    assert (span + 1) as real >= 2.0;
    2.0 / (span + 1) as real
  }

  /** The running state of pandas' adjust=False average: the current mean (missing until the first
      observation) and the weight of the old mean, which decays over missing cells. */
  datatype EwmState = EwmState(mean: Value, oldWt: real)

  /** The weighted mean of the old mean `m` (weight `w`) and the new observation `x` (weight `a`). */
  function Blend(m: real, x: real, w: real, a: real): real
    requires w >= 0.0 && a > 0.0
  {
    if m != x then (w * m + a * x) / (w + a) else m
  }

  lemma UnitProduct(a: real, b: real)
    requires 0.0 <= a <= 1.0 && 0.0 <= b <= 1.0
    ensures 0.0 <= a * b <= 1.0
  {
    MulNonNeg(a, b);
    MulNonNeg(a, 1.0 - b);
    assert a * (1.0 - b) == a - a * b;
  }

  /** One step of the average: a missing cell keeps the mean and decays the old weight, an
      observation blends in and resets the old weight to 1. */
  function EwmStep(st: EwmState, x: Value, alpha: real): (r: EwmState)
    requires 0.0 <= st.oldWt <= 1.0 && 0.0 < alpha <= 1.0
    ensures 0.0 <= r.oldWt <= 1.0
  {
    UnitProduct(st.oldWt, 1.0 - alpha);
    if st.mean.Num? then
      var w := st.oldWt * (1.0 - alpha);
      if x.Num? then EwmState(Num(Blend(st.mean.x, x.x, w, alpha)), 1.0)
      else EwmState(st.mean, w)
    else if x.Num? then EwmState(x, st.oldWt)
    else st
  }

  /** The state after the cells `xs`, the first of which starts the average. */
  function Ewm(xs: seq<Value>, alpha: real): (st: EwmState)
    requires |xs| > 0 && 0.0 < alpha <= 1.0
    ensures 0.0 <= st.oldWt <= 1.0
    decreases |xs|
  {
    if |xs| == 1 then EwmState(xs[0], 1.0)
    else EwmStep(Ewm(xs[..|xs| - 1], alpha), xs[|xs| - 1], alpha)
  }

  /** The old weight is 1 until the first observation and right after every observation. */
  lemma {:induction false} EwmWeights(xs: seq<Value>, alpha: real)
    requires |xs| > 0 && 0.0 < alpha <= 1.0
    ensures Ewm(xs, alpha).mean.Missing? ==> Ewm(xs, alpha).oldWt == 1.0
    ensures xs[|xs| - 1].Num? ==> Ewm(xs, alpha).oldWt == 1.0 && Ewm(xs, alpha).mean.Num?
    decreases |xs|
  {
    if |xs| > 1 {
      EwmWeights(xs[..|xs| - 1], alpha);
    }
  }

  /** The average is defined exactly from the first observation on. */
  lemma {:induction false} EwmDefinedIff(xs: seq<Value>, alpha: real)
    requires |xs| > 0 && 0.0 < alpha <= 1.0
    ensures Ewm(xs, alpha).mean.Num? <==> Present(xs) != []
    decreases |xs|
  {
    var n := |xs| - 1;
    assert xs == xs[..n] + [xs[n]];
    PresentSnoc(xs[..n], xs[n]);
    if n > 0 {
      EwmDefinedIff(xs[..n], alpha);
    } else {
      assert xs[..n] == [];
    }
  }

  /** Without missing cells: e_0 = x_0 and e_t = alpha x_t + (1 - alpha) e_(t-1). */
  lemma EwmRecurrence(xs: seq<Value>, x: real, alpha: real)
    requires |xs| > 0 && 0.0 < alpha <= 1.0 && xs[|xs| - 1].Num?
    ensures Ewm([xs[0]], alpha).mean == xs[0]
    ensures Ewm(xs + [Num(x)], alpha).mean == Num(alpha * x + (1.0 - alpha) * Ewm(xs, alpha).mean.x)
  {
    EwmWeights(xs, alpha);
    var ys := xs + [Num(x)];
    assert ys[..|xs|] == xs;
    var st := Ewm(xs, alpha);
    assert Ewm(ys, alpha) == EwmStep(st, Num(x), alpha);
    assert st.oldWt * (1.0 - alpha) == 1.0 - alpha;
    BlendUnitWeight(st.mean.x, x, alpha);
  }

  /** With old weight 1 - alpha the blend is the textbook update. */
  lemma BlendUnitWeight(m: real, x: real, alpha: real)
    requires 0.0 < alpha <= 1.0
    ensures Blend(m, x, 1.0 - alpha, alpha) == alpha * x + (1.0 - alpha) * m
  {
    if m != x {
      assert (1.0 - alpha) + alpha == 1.0;
      assert ((1.0 - alpha) * m + alpha * x) / 1.0 == (1.0 - alpha) * m + alpha * x;
    } else {
      assert alpha * x + (1.0 - alpha) * m == m;
    }
  }

  lemma BlendBetween(m: real, x: real, w: real, a: real)
    requires w >= 0.0 && a > 0.0
    ensures m <= x ==> m <= Blend(m, x, w, a) <= x
    ensures x <= m ==> x <= Blend(m, x, w, a) <= m
  {
    if m != x {
      var b := (w * m + a * x) / (w + a);
      assert b - m == a * (x - m) / (w + a);
      assert x - b == w * (x - m) / (w + a);
      assert a * (x - m) / (w + a) == (a / (w + a)) * (x - m);
      assert w * (x - m) / (w + a) == (w / (w + a)) * (x - m);
      assert a / (w + a) > 0.0;
      assert w / (w + a) >= 0.0;
    }
  }

  /** One step keeps the average within any bounds that hold the old average and the new value. */
  lemma EwmStepWithin(st: EwmState, x: Value, alpha: real, lo: real, hi: real)
    requires 0.0 <= st.oldWt <= 1.0 && 0.0 < alpha <= 1.0
    requires st.mean.Num? && lo <= st.mean.x <= hi
    requires x.Num? ==> lo <= x.x <= hi
    ensures EwmStep(st, x, alpha).mean.Num?
    ensures lo <= EwmStep(st, x, alpha).mean.x <= hi
  {
    if x.Num? {
      var w := st.oldWt * (1.0 - alpha);
      UnitProduct(st.oldWt, 1.0 - alpha);
      var m, y := st.mean.x, x.x;
      var b := Blend(m, y, w, alpha);
      assert EwmStep(st, x, alpha).mean == Num(b);
      BlendBetween(m, y, w, alpha);
      if m <= y {
        assert m <= b <= y;
      } else {
        assert y <= b <= m;
      }
    }
  }

  /** The average always lies between the smallest and the largest observation so far. */
  lemma {:induction false} EwmWithin(xs: seq<Value>, alpha: real)
    requires |xs| > 0 && 0.0 < alpha <= 1.0 && Present(xs) != []
    ensures Ewm(xs, alpha).mean.Num?
    ensures MinOf(Present(xs)) <= Ewm(xs, alpha).mean.x <= MaxOf(Present(xs))
    decreases |xs|
  {
    EwmDefinedIff(xs, alpha);
    var n := |xs| - 1;
    var init := xs[..n];
    assert xs == init + [xs[n]];
    PresentSnoc(init, xs[n]);
    var p := Present(xs);
    if n == 0 {
      assert init == [];
    } else if Present(init) == [] {
      EwmDefinedIff(init, alpha);
      assert p == [xs[n].x];
    } else {
      EwmWithin(init, alpha);
      var q := Present(init);
      var lo, hi := MinOf(p), MaxOf(p);
      assert MinOf(q) in p && MaxOf(q) in p;
      if xs[n].Num? {
        assert xs[n].x in p;
      }
      EwmStepWithin(Ewm(init, alpha), xs[n], alpha, lo, hi);
    }
  }

  /** A constant input gives a constant average. */
  lemma {:induction false} EwmConst(xs: seq<Value>, alpha: real, c: real)
    requires |xs| > 0 && 0.0 < alpha <= 1.0
    requires forall i :: 0 <= i < |xs| ==> xs[i] == Num(c)
    ensures Ewm(xs, alpha).mean == Num(c)
    decreases |xs|
  {
    if |xs| > 1 {
      EwmConst(xs[..|xs| - 1], alpha, c);
    }
  }

  /** The running state at row `i`: the average over the cells of row i's device up to row i. */
  function EmaState(ids: seq<string>, xs: seq<Value>, alpha: real, i: int): (st: EwmState)
    requires |ids| == |xs| && 0.0 < alpha <= 1.0 && 0 <= i < |xs|
    ensures 0.0 <= st.oldWt <= 1.0
  {
    Ewm(xs[SegmentStart(ids, i)..i + 1], alpha)
  }

  lemma EwmSnoc(ys: seq<Value>, alpha: real)
    requires |ys| > 1 && 0.0 < alpha <= 1.0
    ensures Ewm(ys, alpha) == EwmStep(Ewm(ys[..|ys| - 1], alpha), ys[|ys| - 1], alpha)
  {
  }

  /** The state restarts at a device's first row and otherwise steps from the previous row's. */
  lemma EmaStateStep(ids: seq<string>, xs: seq<Value>, alpha: real, i: int)
    requires |ids| == |xs| && 0.0 < alpha <= 1.0 && 0 <= i < |xs|
    ensures i > 0 && ids[i - 1] == ids[i] ==>
      EmaState(ids, xs, alpha, i) == EwmStep(EmaState(ids, xs, alpha, i - 1), xs[i], alpha)
    ensures !(i > 0 && ids[i - 1] == ids[i]) ==> EmaState(ids, xs, alpha, i) == EwmState(xs[i], 1.0)
  {
    if i > 0 && ids[i - 1] == ids[i] {
      SegmentStartStep(ids, i);
      var s := SegmentStart(ids, i);
      var seg := xs[s..i + 1];
      assert seg[..i - s] == xs[s..i];
      assert seg[i - s] == xs[i];
      EwmSnoc(seg, alpha);
    } else {
      assert xs[i..i + 1] == [xs[i]];
    }
  }

  /** The average per device: row `i` sees the cells of its run up to and including itself. */
  function EmaColumn(ids: seq<string>, xs: seq<Value>, alpha: real): (r: seq<Value>)
    requires |ids| == |xs| && 0.0 < alpha <= 1.0
    ensures |r| == |xs|
  {
    seq(|xs|, i requires 0 <= i < |xs| => EmaState(ids, xs, alpha, i).mean)
  }

  lemma EmaColumnAt(ids: seq<string>, xs: seq<Value>, alpha: real, i: int)
    requires |ids| == |xs| && 0.0 < alpha <= 1.0 && 0 <= i < |xs|
    ensures EmaColumn(ids, xs, alpha)[i] == EmaState(ids, xs, alpha, i).mean
  {
  }

  /** `g[col].ewm(span=..., adjust=False).mean()` for every device group: one pass that restarts
      the running state at the first row of each device. */
  method EmaPerDevice(ids: seq<string>, xs: seq<Value>, alpha: real) returns (r: seq<Value>)
    requires |ids| == |xs| && 0.0 < alpha <= 1.0
    ensures r == EmaColumn(ids, xs, alpha)
  {
    r := [];
    var st := EwmState(Missing, 1.0);
    var i := 0;
    while i < |xs|
      invariant 0 <= i <= |xs| && |r| == i
      invariant forall j :: 0 <= j < i ==> r[j] == EmaColumn(ids, xs, alpha)[j]
      invariant i > 0 ==> st == EmaState(ids, xs, alpha, i - 1)
    {
      EmaStateStep(ids, xs, alpha, i);
      if i > 0 && ids[i - 1] == ids[i] {
        st := EwmStep(st, xs[i], alpha);
      } else {
        st := EwmState(xs[i], 1.0);
      }
      EmaColumnAt(ids, xs, alpha, i);
      r := r + [st.mean];
      i := i + 1;
    }
  }

  // ---------------------------------------------------------------------------
  // EFC increment and temperature window.

  /** `g["EFC"].diff().fillna(0.0)`: 0 on a device's first row and wherever a side is missing. */
  function EfcDelta(ids: seq<string>, efc: seq<Value>): (r: seq<real>)
    requires |ids| == |efc|
    ensures |r| == |efc|
    ensures forall i :: 0 <= i < |efc| && (i == 0 || ids[i - 1] != ids[i]) ==> r[i] == 0.0
    ensures forall i :: 0 < i < |efc| && ids[i - 1] == ids[i] && efc[i].Num? && efc[i - 1].Num? ==>
      efc[i - 1].x + r[i] == efc[i].x
  {
    seq(|efc|, i requires 0 <= i < |efc| =>
      if i > 0 && ids[i - 1] == ids[i] && efc[i].Num? && efc[i - 1].Num? then efc[i].x - efc[i - 1].x else 0.0)
  }

  /** Within a device whose EFC is present, the increments from the device's first row add up to the
      change of EFC since that row. */
  lemma {:induction false} EfcDeltaPrefixSum(ids: seq<string>, efc: seq<Value>, i: int)
    requires |ids| == |efc| && 0 <= i < |efc|
    requires forall j :: SegmentStart(ids, i) <= j <= i ==> efc[j].Num?
    ensures Sum(EfcDelta(ids, efc)[SegmentStart(ids, i)..i + 1]) == efc[i].x - efc[SegmentStart(ids, i)].x
    decreases i
  {
    var s := SegmentStart(ids, i);
    var d := EfcDelta(ids, efc);
    if i == s {
      assert d[s..i + 1] == [d[s]];
      assert Sum(d[s..i + 1]) == Sum(d[s..i + 1][..0]) + d[s];
    } else {
      SegmentStartStep(ids, i);
      EfcDeltaPrefixSum(ids, efc, i - 1);
      assert d[s..i + 1][..i - s] == d[s..i];
    }
  }

  /** The increment is never negative where EFC does not decrease. */
  lemma EfcDeltaNonNeg(ids: seq<string>, efc: seq<Value>, i: int)
    requires |ids| == |efc| && 0 <= i < |efc|
    requires i > 0 && efc[i].Num? && efc[i - 1].Num? ==> efc[i - 1].x <= efc[i].x
    ensures EfcDelta(ids, efc)[i] >= 0.0
  {
  }

  /** The max of the present cells of a window, missing when there are none. */
  function WindowMax(cells: seq<Value>): (r: Value)
    ensures r.Missing? <==> Present(cells) == []
    ensures r.Num? ==> Num(r.x) in cells && forall k :: 0 <= k < |cells| && cells[k].Num? ==> cells[k].x <= r.x
  {
    var vals := Present(cells);
    if vals == [] then Missing else Num(MaxOf(vals))
  }

  lemma WindowMaxAtLeast(cells: seq<Value>, k: int)
    requires 0 <= k < |cells| && cells[k].Num?
    ensures WindowMax(cells).Num? && WindowMax(cells).x >= cells[k].x
  {
    assert Num(cells[k].x) in cells;
    assert cells[k].x in Present(cells);
  }

  /** The first row of row `i`'s trailing window: `win` rows back, but not before its device. */
  function WindowStart(ids: seq<string>, i: int, w: int): (lo: nat)
    requires 0 <= i < |ids| && w >= 1
    ensures lo <= i
  {
    Max(SegmentStart(ids, i), i - w + 1)
  }

  /** The trailing rolling max (`rolling(win, min_periods=1).max()`) within the device: the last
      `min(win, rows so far in the device)` temperatures, missing when none of them is present. */
  function TempMaxWin(ids: seq<string>, temps: seq<Value>, w: int): (r: seq<Value>)
    requires |ids| == |temps| && w >= 1
    ensures |r| == |temps|
    ensures forall i :: 0 <= i < |temps| ==> r[i] == WindowMax(temps[WindowStart(ids, i, w)..i + 1])
  {
    seq(|temps|, i requires 0 <= i < |temps| => WindowMax(temps[WindowStart(ids, i, w)..i + 1]))
  }

  /** The window max is at least the current temperature, and the window holds the last
      `min(win, i - start + 1)` rows of the device. */
  lemma TempMaxAtLeast(ids: seq<string>, temps: seq<Value>, w: int, i: int)
    requires |ids| == |temps| && w >= 1 && 0 <= i < |temps| && temps[i].Num?
    ensures TempMaxWin(ids, temps, w)[i].Num?
    ensures TempMaxWin(ids, temps, w)[i].x >= temps[i].x
    ensures i + 1 - WindowStart(ids, i, w) == Min(w, i + 1 - SegmentStart(ids, i))
  {
    var lo := WindowStart(ids, i, w);
    var win := temps[lo..i + 1];
    assert TempMaxWin(ids, temps, w)[i] == WindowMax(win);
    assert win[i - lo] == temps[i];
    WindowMaxAtLeast(win, i - lo);
    WindowLength(ids, i, w);
  }

  lemma WindowLength(ids: seq<string>, i: int, w: int)
    requires 0 <= i < |ids| && w >= 1
    ensures i + 1 - WindowStart(ids, i, w) == Min(w, i + 1 - SegmentStart(ids, i))
  {
  }

  // ---------------------------------------------------------------------------
  // The whole feature builder.

  /** The input columns `add_aging_features` may read. */
  datatype AgingColumn = SohFilledCol | EfcCol | TempCol | TpGbCol | EpbCol

  /** One input row; cells of absent columns are ignored. `throughputTotalGb` is
      `throughput_total_gb`, which nothing in the pipeline produces. */
  datatype AgingInput = AgingInput(
    deviceId: string,
    createdAt: int,
    sohFilled: Value,
    efc: Value,
    battTempC: Value,
    throughputTotalGb: Value,
    epbAvgJ: Value)

  datatype AgingFrame = AgingFrame(columns: set<AgingColumn>, rows: seq<AgingInput>)

  function AgingKeyLe(a: AgingInput, b: AgingInput): bool
  {
    KeyBefore(a.deviceId, a.createdAt, b.deviceId, b.createdAt)
  }

  lemma AgingKeyLePreorder()
    ensures TotalPreorder(AgingKeyLe)
  {
    forall a: AgingInput, b: AgingInput ensures AgingKeyLe(a, b) || AgingKeyLe(b, a) {
      KeyBeforeOrder(a.deviceId, a.createdAt, b.deviceId, b.createdAt, a.deviceId, a.createdAt);
    }
    forall a: AgingInput, b: AgingInput, c: AgingInput | AgingKeyLe(a, b) && AgingKeyLe(b, c)
      ensures AgingKeyLe(a, c)
    {
      KeyBeforeOrder(a.deviceId, a.createdAt, b.deviceId, b.createdAt, c.deviceId, c.createdAt);
    }
  }

  function SortAging(rows: seq<AgingInput>): (r: seq<AgingInput>)
    ensures |r| == |rows| && SortedBy(r, AgingKeyLe) && multiset(r) == multiset(rows)
  {
    AgingKeyLePreorder();
    SortBy(rows, AgingKeyLe)
  }

  function DeviceIds(rows: seq<AgingInput>): (r: seq<string>)
    ensures |r| == |rows|
  {
    seq(|rows|, i requires 0 <= i < |rows| => rows[i].deviceId)
  }

  function SohFilledColumn(rows: seq<AgingInput>): (r: seq<Value>)
    ensures |r| == |rows|
  {
    seq(|rows|, i requires 0 <= i < |rows| => rows[i].sohFilled)
  }

  /** The columns `add_aging_features` adds, aligned with the sorted rows. */
  datatype AgingTable = AgingTable(
    rows: seq<AgingInput>,
    sohFilled: seq<Value>,    // after ffill().bfill() over the whole frame
    sohEmaFast: seq<Value>,
    sohEmaSlow: seq<Value>,
    sohTrend: seq<Value>,
    efcDelta: seq<real>,
    tempEma: seq<Value>,
    tempMaxWin: seq<Value>,
    tpEma: seq<Value>,
    epbEma: seq<Value>)

  /** `ema_fast - ema_slow`, missing where either is. */
  function Trend(fast: seq<Value>, slow: seq<Value>): (r: seq<Value>)
    requires |fast| == |slow|
    ensures |r| == |fast|
    ensures forall i :: 0 <= i < |fast| ==> (r[i].Num? <==> fast[i].Num? && slow[i].Num?)
    ensures forall i :: 0 <= i < |fast| && r[i].Num? ==> slow[i].x + r[i].x == fast[i].x
  {
    seq(|fast|, i requires 0 <= i < |fast| =>
      if fast[i].Num? && slow[i].Num? then Num(fast[i].x - slow[i].x) else Missing)
  }

  /** An optional EMA feature: the fast average of the column when the frame has it, else 0.0. */
  function OptionalEma(f: AgingFrame, c: AgingColumn, ids: seq<string>, xs: seq<Value>, alpha: real): (r: seq<Value>)
    requires |ids| == |xs| && 0.0 < alpha <= 1.0
    ensures |r| == |xs|
    ensures c !in f.columns ==> r == ConstColumn(|xs|, 0.0)
  {
    if c in f.columns then EmaColumn(ids, xs, alpha) else ConstColumn(|xs|, 0.0)
  }

  /** `add_aging_features`. A frame without `SoH_filled`, or with rows and no `EFC`, or with rows
      and a span below 1, raises; the handler turns that into None. */
  function AddAgingFeatures(f: AgingFrame, winFast: int, winSlow: int): (r: Option<AgingTable>)
    ensures r.Some? <==>
      SohFilledCol in f.columns && (|f.rows| == 0 || (winFast >= 1 && winSlow >= 1 && EfcCol in f.columns))
  {
    if SohFilledCol !in f.columns then None
    else
      var rows := SortAging(f.rows);
      var n := |rows|;
      var ids := DeviceIds(rows);
      var filled := BFill(FFill(SohFilledColumn(rows)));
      if n == 0 then Some(AgingTable(rows, filled, [], [], [], [], [], [], [], []))
      else if winFast < 1 || winSlow < 1 || EfcCol !in f.columns then None
      else
        var af := Alpha(winFast);
        var fast := EmaColumn(ids, filled, af);
        var slow := EmaColumn(ids, filled, Alpha(winSlow));
        var temps := seq(n, i requires 0 <= i < n => rows[i].battTempC);
        Some(AgingTable(rows, filled, fast, slow, Trend(fast, slow),
          EfcDelta(ids, seq(n, i requires 0 <= i < n => rows[i].efc)),
          OptionalEma(f, TempCol, ids, temps, af),
          if TempCol in f.columns then TempMaxWin(ids, temps, winFast) else ConstColumn(n, 0.0),
          OptionalEma(f, TpGbCol, ids, seq(n, i requires 0 <= i < n => rows[i].throughputTotalGb), af),
          OptionalEma(f, EpbCol, ids, seq(n, i requires 0 <= i < n => rows[i].epbAvgJ), af)))
  }

  /** The method form: sort, fill, then each per-device column in the source's order, the running
      averages by `EmaPerDevice`. */
  method CalculateAgingFeatures(f: AgingFrame, winFast: int, winSlow: int) returns (r: Option<AgingTable>)
    ensures r == AddAgingFeatures(f, winFast, winSlow)
  {
    if SohFilledCol !in f.columns {
      return None;
    }
    var rows := SortAging(f.rows);
    var n := |rows|;
    var ids := DeviceIds(rows);
    var filled := BFill(FFill(SohFilledColumn(rows)));
    if n == 0 {
      return Some(AgingTable(rows, filled, [], [], [], [], [], [], [], []));
    }
    if winFast < 1 || winSlow < 1 || EfcCol !in f.columns {
      return None;
    }
    var af := Alpha(winFast);
    var fast := EmaPerDevice(ids, filled, af);
    var slow := EmaPerDevice(ids, filled, Alpha(winSlow));
    var trend := Trend(fast, slow);
    var efcDelta := EfcDelta(ids, seq(n, i requires 0 <= i < n => rows[i].efc));
    var temps := seq(n, i requires 0 <= i < n => rows[i].battTempC);
    var tempEma, tempMax;
    if TempCol in f.columns {
      tempEma := EmaPerDevice(ids, temps, af);
      tempMax := TempMaxWin(ids, temps, winFast);
    } else {
      tempEma, tempMax := ConstColumn(n, 0.0), ConstColumn(n, 0.0);
    }
    var tp := ConstColumn(n, 0.0);
    if TpGbCol in f.columns {
      tp := EmaPerDevice(ids, seq(n, i requires 0 <= i < n => rows[i].throughputTotalGb), af);
    }
    var epb := ConstColumn(n, 0.0);
    if EpbCol in f.columns {
      epb := EmaPerDevice(ids, seq(n, i requires 0 <= i < n => rows[i].epbAvgJ), af);
    }
    r := Some(AgingTable(rows, filled, fast, slow, trend, efcDelta, tempEma, tempMax, tp, epb));
  }

  // ---------------------------------------------------------------------------
  // Promises of the feature builder.

  /** The filled SoH proxy has no missing cell once any SoH value exists, and keeps every value
      that was there. The fill runs over the whole sorted frame, so one device's values can fill
      another device's leading or trailing gaps. */
  lemma SohFilledComplete(f: AgingFrame, winFast: int, winSlow: int, p: int)
    requires AddAgingFeatures(f, winFast, winSlow).Some?
    requires 0 <= p < |f.rows| && f.rows[p].sohFilled.Num?
    ensures var t := AddAgingFeatures(f, winFast, winSlow).value;
      && |t.sohFilled| == |t.rows|
      && (forall i :: 0 <= i < |t.rows| ==> t.sohFilled[i].Num?)
      && (forall i :: 0 <= i < |t.rows| && t.rows[i].sohFilled.Num? ==> t.sohFilled[i] == t.rows[i].sohFilled)
  {
    var rows := SortAging(f.rows);
    assert f.rows[p] in multiset(rows);
    var q :| 0 <= q < |rows| && rows[q] == f.rows[p];
    FFillBFillTotal(SohFilledColumn(rows), q);
  }

  /** A device whose filled SoH is one constant has a zero trend on every row. */
  lemma TrendZeroOnConstant(ids: seq<string>, filled: seq<Value>, c: real, fastSpan: int, slowSpan: int, i: int)
    requires |ids| == |filled| && fastSpan >= 1 && slowSpan >= 1 && 0 <= i < |filled|
    requires forall j :: SegmentStart(ids, i) <= j <= i ==> filled[j] == Num(c)
    ensures Trend(EmaColumn(ids, filled, Alpha(fastSpan)), EmaColumn(ids, filled, Alpha(slowSpan)))[i] == Num(0.0)
  {
    var s := SegmentStart(ids, i);
    var w := filled[s..i + 1];
    assert forall j :: 0 <= j < |w| ==> w[j] == filled[s + j];
    EwmConst(w, Alpha(fastSpan), c);
    EwmConst(w, Alpha(slowSpan), c);
  }

  /** Each per-device average stays within the values its device has shown so far. */
  lemma EmaColumnWithin(ids: seq<string>, xs: seq<Value>, alpha: real, i: int)
    requires |ids| == |xs| && 0.0 < alpha <= 1.0 && 0 <= i < |xs|
    requires Present(xs[SegmentStart(ids, i)..i + 1]) != []
    ensures var p := Present(xs[SegmentStart(ids, i)..i + 1]);
      EmaColumn(ids, xs, alpha)[i].Num? && MinOf(p) <= EmaColumn(ids, xs, alpha)[i].x <= MaxOf(p)
  {
    var seg := xs[SegmentStart(ids, i)..i + 1];
    EwmWithin(seg, alpha);
    EmaColumnAt(ids, xs, alpha, i);
  }

  /** Without a temperature column both temperature features are 0.0; without the throughput or
      energy-per-bit column that feature is 0.0. */
  lemma AgingDefaults(f: AgingFrame, winFast: int, winSlow: int, i: int)
    requires AddAgingFeatures(f, winFast, winSlow).Some?
    requires 0 <= i < |f.rows|
    ensures var t := AddAgingFeatures(f, winFast, winSlow).value;
      && (TempCol !in f.columns ==> t.tempEma[i] == Num(0.0) && t.tempMaxWin[i] == Num(0.0))
      && (TpGbCol !in f.columns ==> t.tpEma[i] == Num(0.0))
      && (EpbCol !in f.columns ==> t.epbEma[i] == Num(0.0))
  {
  }
}
