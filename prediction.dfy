/** The pure parts of src/api/controller/prediction_controller.py: the remaining-useful-life
    formula, the float sanitiser, the sliding-window builder and the summary of the model's
    predictions. The model and the scaler are outside the model: predictions are an input. */
module Prediction {
  import opened Values
  import opened Stats

  // ---------------------------------------------------------------------------
  // Remaining useful life (`estimate_rul_from_soh`).

  /** The `rul_config` constants read from the model's configuration file. */
  datatype RulConfig = RulConfig(kGlobal: real, sohEol: real, hoursPerCycle: real)

  datatype Rul = Rul(cycles: real, hours: real, months: real, years: real)

  /** `estimate_rul_from_soh`; a zero `k_global` raises ZeroDivisionError, which is re-raised, so
      there is no estimate. */
  function EstimateRul(sohPred: real, cfg: RulConfig): (r: Option<Rul>)
    ensures r.None? <==> cfg.kGlobal == 0.0
    ensures r.Some? ==>
      && r.value.cycles == (if (sohPred - cfg.sohEol) / cfg.kGlobal > 0.0 then (sohPred - cfg.sohEol) / cfg.kGlobal else 0.0)
      && r.value.hours == r.value.cycles * cfg.hoursPerCycle
      && r.value.months * 24.0 * 30.0 == r.value.hours
      && r.value.years * 24.0 * 365.0 == r.value.hours
  {
    if cfg.kGlobal == 0.0 then None
    else
      var delta := sohPred - cfg.sohEol;
      var q := delta / cfg.kGlobal;
      var cycles := if q > 0.0 then q else 0.0;
      var hours := cycles * cfg.hoursPerCycle;
      var days := hours / 24.0;
      Some(Rul(cycles, hours, days / 30.0, days / 365.0))
  }

  /** With a positive `k_global` the cycle count is never negative, and a prediction at or below
      the end-of-life threshold gives exactly 0 for every unit. */
  lemma RulAtOrBelowEol(sohPred: real, cfg: RulConfig)
    requires cfg.kGlobal > 0.0
    ensures EstimateRul(sohPred, cfg).Some? && EstimateRul(sohPred, cfg).value.cycles >= 0.0
    ensures sohPred <= cfg.sohEol ==> EstimateRul(sohPred, cfg).value == Rul(0.0, 0.0, 0.0, 0.0)
  {
    if sohPred <= cfg.sohEol {
      assert (sohPred - cfg.sohEol) / cfg.kGlobal <= 0.0;
    }
  }

  lemma MulMonotone(a: real, b: real, c: real)
    requires a <= b && c >= 0.0
    ensures a * c <= b * c
  {
    assert b * c - a * c == (b - a) * c;
  }

  /** With positive `k_global` and non-negative hours per cycle, every unit of remaining life is
      non-negative and non-decreasing in the predicted SoH. */
  lemma RulMonotone(s1: real, s2: real, cfg: RulConfig)
    requires cfg.kGlobal > 0.0 && cfg.hoursPerCycle >= 0.0 && s1 <= s2
    ensures var r1 := EstimateRul(s1, cfg).value; var r2 := EstimateRul(s2, cfg).value;
      && 0.0 <= r1.cycles <= r2.cycles
      && 0.0 <= r1.hours <= r2.hours
      && 0.0 <= r1.months <= r2.months
      && 0.0 <= r1.years <= r2.years
  {
    var r1 := EstimateRul(s1, cfg).value;
    var r2 := EstimateRul(s2, cfg).value;
    DivMonotone(s1 - cfg.sohEol, s2 - cfg.sohEol, cfg.kGlobal);
    MulMonotone(0.0, r1.cycles, cfg.hoursPerCycle);
    MulMonotone(r1.cycles, r2.cycles, cfg.hoursPerCycle);
    DivMonotone(0.0, r1.hours, 24.0);
    DivMonotone(r1.hours, r2.hours, 24.0);
    DivMonotone(0.0, r1.hours / 24.0, 30.0);
    DivMonotone(r1.hours / 24.0, r2.hours / 24.0, 30.0);
    DivMonotone(0.0, r1.hours / 24.0, 365.0);
    DivMonotone(r1.hours / 24.0, r2.hours / 24.0, 365.0);
  }

  // ---------------------------------------------------------------------------
  // `safe_float`.

  /** What `float(x)` makes of its argument: a finite number, NaN, an infinity, or an exception. */
  datatype FloatInput = Finite(x: real) | NaNInput | Infinite(positive: bool) | Unconvertible

  /** `safe_float`: the finite value, and 0.0 for everything else. */
  function SafeFloat(v: FloatInput): (r: real)
    ensures v.Finite? ==> r == v.x
    ensures !v.Finite? ==> r == 0.0
  {
    match v
    case Finite(x) => x
    case _ => 0.0
  }

  // ---------------------------------------------------------------------------
  // The sliding windows of `run_prediction_pipeline`.

  /** One row of `df_metrics[feature_cols].values`. */
  type FeatureRow = seq<Value>

  /** `values[i - win : i]`. */
  function WindowAt(values: seq<FeatureRow>, win: nat, i: int): (w: seq<FeatureRow>)
    requires win <= i <= |values|
    ensures |w| == win
    ensures forall k :: 0 <= k < win ==> w[k] == values[i - win + k]
  {
    values[i - win..i]
  }

  /** `float(soh) * 100.0`: NaN stays NaN. */
  function SohTrueOf(soh: Value): (r: Value)
    ensures r.Num? <==> soh.Num?
    ensures r.Num? ==> r.x == soh.x * 100.0
  {
    if soh.Num? then Num(soh.x * 100.0) else Missing
  }

  /** The three lists the loop fills. */
  datatype Windows = Windows(windows: seq<seq<FeatureRow>>, timestamps: seq<int>, sohTrue: seq<Value>)

  /** `for i in range(win_size, n)`: window i is rows [i - win, i) and carries row i's timestamp and
      SoH times 100. There are max(0, n - win) windows. */
  method BuildWindows(values: seq<FeatureRow>, createdAt: seq<int>, soh: seq<Value>, win: nat)
    returns (r: Windows)
    requires |createdAt| == |values| && |soh| == |values|
    ensures |r.windows| == |r.timestamps| == |r.sohTrue| == (if |values| > win then |values| - win else 0)
    ensures forall j :: 0 <= j < |r.windows| ==>
      && r.windows[j] == WindowAt(values, win, win + j)
      && r.timestamps[j] == createdAt[win + j]
      && r.sohTrue[j] == SohTrueOf(soh[win + j])
  {
    var windows: seq<seq<FeatureRow>> := [];
    var timestamps: seq<int> := [];
    var sohTrue: seq<Value> := [];
    var n := |values|;
    var i := win;
    while i < n
      invariant win <= i && (i == win || i <= n)
      invariant |windows| == |timestamps| == |sohTrue| == i - win
      invariant forall j :: 0 <= j < |windows| ==>
        && windows[j] == WindowAt(values, win, win + j)
        && timestamps[j] == createdAt[win + j]
        && sohTrue[j] == SohTrueOf(soh[win + j])
    {
      windows := windows + [values[i - win..i]];
      timestamps := timestamps + [createdAt[i]];
      sohTrue := sohTrue + [SohTrueOf(soh[i])];
      i := i + 1;
    }
    r := Windows(windows, timestamps, sohTrue);
  }

  /** 30 rows and windows of 24 give 6 windows, 20 rows give none. */
  method WindowCountExample(values30: seq<FeatureRow>, values20: seq<FeatureRow>)
    returns (n30: nat, n20: nat)
    requires |values30| == 30 && |values20| == 20
    ensures n30 == 6 && n20 == 0
  {
    var w30 := BuildWindows(values30, seq(30, _ => 0), seq(30, _ => Missing), 24);
    var w20 := BuildWindows(values20, seq(20, _ => 0), seq(20, _ => Missing), 24);
    n30, n20 := |w30.windows|, |w20.windows|;
  }

  /** The true-SoH column: `soh_smooth` when the metrics have it, else `soh_pct`. */
  function SohTrueColumn(sohSmooth: Option<seq<Value>>, sohPct: seq<Value>): (r: seq<Value>)
    ensures sohSmooth.Some? ==> r == sohSmooth.value
    ensures sohSmooth.None? ==> r == sohPct
  {
    match sohSmooth
    case Some(s) => s
    case None => sohPct
  }

  // ---------------------------------------------------------------------------
  // The summary of the predictions.

  datatype SeriesPoint = SeriesPoint(createdAt: int, sohTrue: Value, sohPred: real)

  datatype Summary = Summary(sohPredLast: real, sohPredPctLast: real, rul: Rul, series: seq<SeriesPoint>)

  /** `model.predict(...) * 100`, the last prediction as a fraction and as a percentage, the RUL
      estimate from the fraction, and the zipped series. No prediction (`soh_pred_arr[-1]` on an
      empty array) or a zero `k_global` raises, and there is no summary. `preds` are the model's
      outputs, one per window. */
  function Summarize(w: Windows, preds: seq<real>, cfg: RulConfig): (r: Option<Summary>)
    requires |w.timestamps| == |w.sohTrue|
    ensures r.Some? <==> |preds| > 0 && cfg.kGlobal != 0.0
    ensures r.Some? ==>
      && r.value.sohPredPctLast == preds[|preds| - 1] * 100.0
      && r.value.sohPredLast == r.value.sohPredPctLast / 100.0
      && Some(r.value.rul) == EstimateRul(r.value.sohPredLast, cfg)
      && |r.value.series| == (if |preds| < |w.timestamps| then |preds| else |w.timestamps|)
      && forall j :: 0 <= j < |r.value.series| ==>
           r.value.series[j] == SeriesPoint(w.timestamps[j], w.sohTrue[j], preds[j] * 100.0)
  {
    if |preds| == 0 then None
    else
      var pct := seq(|preds|, j requires 0 <= j < |preds| => preds[j] * 100.0);
      var last := pct[|pct| - 1] / 100.0;
      match EstimateRul(last, cfg)
      case None => None
      case Some(rul) =>
        var m := if |pct| < |w.timestamps| then |pct| else |w.timestamps|;
        Some(Summary(last, pct[|pct| - 1], rul,
          seq(m, j requires 0 <= j < m => SeriesPoint(w.timestamps[j], w.sohTrue[j], pct[j]))))
  }

  /** The summarised fraction is the model's last output. */
  lemma SummaryLastIsModelOutput(w: Windows, preds: seq<real>, cfg: RulConfig)
    requires |w.timestamps| == |w.sohTrue| && |preds| > 0 && cfg.kGlobal != 0.0
    ensures Summarize(w, preds, cfg).value.sohPredLast == preds[|preds| - 1]
  {
  }
}
