# Smartphone battery telemetry pipeline, modelled in Dafny

This project models the per-device battery-telemetry derivation pipeline of the smartphone-battery
back end and the small decision and arithmetic rules around it, and proves what the pipeline
promises about its outputs.

- **SoH / EFC estimator** (`soh_cycles.dfy`, module `SohCycles`): `_hampel` and
  `calculate_soh_cycles`. This covers the centred rolling-median/MAD Hampel filter and the
  `delta_t_s` clamp. It covers charge-source selection (charge counter, else integrated current,
  else an all-missing result) and sign inversion. Full-charge blocks are found by change points of
  the `is_full` flag, and each block gets one 95th-percentile capacity at its first argmax. Then come
  the rolling-max fallback, the nominal-capacity clip, the forward fill, the `C0_ref` cascade, the
  clipped SoH and its rolling median, and the capped discharge with cumulative EFC.
  - Each stage is a specification function.
  - The stages the source writes in place are methods proved equal to their stage function: the
    Hampel mask, the `delta_t_s` overwrites, the per-block Ct loop and the discharge cap (on an
    `array`).
  - `CalculateSohCycles` chains them and is proved equal to the composed specification.
- **Throughput / energy / BoT** (`telemetry.dfy`, `throughput_energy.dfy`): `base_guard`,
  `calculate_throughput`, `calculate_energy_consumption` and
  `calculate_throughput_energy_and_bot`.
  - Telemetry.BaseGuard also models `UsageCalculation._base_guard`, which is the same code up to
    its exception handler: `_base_guard` re-raises as `CustomException`, `base_guard` prints and
    returns None. Neither handler is reachable in the model, since the guard's only failure is
    timestamp parsing.
  - Float division keeps its IEEE outcomes for a zero divisor (+inf, -inf, NaN), so the zero-gap
    rows the code keeps are modelled as written.
- **Aging features** (`aging_features.dfy`): `add_aging_features` with `_per_dev`. The
  `adjust=False` EMAs are a single pass that restarts at each device, proved equal to the
  per-device specification.
- **Per-device z-score** (`zscore.dfy`): `add_per_device_zscore`, the loop over `cols` adding
  `_z` columns.
- **LSTM feature composition** (`lstm_features.dfy`): `make_lstm_features`. This is the per-device
  estimator, the left join on (device_id, created_at), and the aging features.
- **Prediction helpers** (`prediction.dfy`, `sequence.dfy`):
  - `estimate_rul_from_soh` and `safe_float`;
  - the sliding-window loop of `run_prediction_pipeline` and its summary;
  - `create_sequences`.
- **Usage ranking** (`usage.dfy`): `calculate_app_usage`, covering the clip-and-fill of deltas, the
  group sums, the derived metrics, the per-device rank and the top-k filter.
- **Small rules** (`services.dfy`): the `recommend_action` ladder, `carbon_to_car_km` and
  `compute_expiry_date`.

Shared definitions:
- `values.dfy`: pandas NaN as `Missing`.
- `order.dfy`: a stable sort and Python's string order.
- `stats.dfy`: numpy's linear-interpolation percentile, median and population variance.
- `rolling.dfy`: rolling windows with `min_periods`, the fills, `cumsum`, `diff` and `clip`.
- `segments.dfy`: runs of one device in a device-sorted frame.

Modelling choices:
- Numbers are `real`, and a missing cell is `Missing`.
- Timestamps are integer seconds.
- A frame is a sequence of rows, and a derived column is a sequence aligned with the rows.
- A `try`/`except` that prints and returns an empty frame or None becomes an explicit error or
  empty result.

Some quirks of the code are modelled as written, each with its own lemma:
- Rows with a zero gap are kept by `calculate_throughput` (ThroughputEnergy.ZeroGapKept).
- `SoH_filled` is filled across the whole frame rather than per device
  (AgingFeatures.SohFilledComplete).
- `tp_ema` reads `throughput_total_gb`, which nothing produces, so it is 0.0 in the composed
  pipeline (LstmFeatures.JoinedColumns, AgingFeatures.AgingDefaults).
- Integrated current is shifted by its minimum rather than its first value
  (SohCycles.CurrentChargeFloor).
- "The later block wins" never happens: the blocks are disjoint, so no block overwrites another's
  cell (SohCycles.PartialCtStep).

## Model

| member | source | states |
|---|---|---|
| Values.Present | src/core/soh_cycles.py:116 | `dropna()`: the result holds exactly the values of the present cells, and is never longer than the column |
| Values.PresentEmptyIff | src/core/soh_cycles.py:123 | a column has no present value exactly when every cell is missing (`isna().all()`) |
| Values.MapPresent | src/core/soh_cycles.py:86 | an element-wise operation keeps missing cells missing and maps every present cell |
| Values.MissingColumn | src/core/soh_cycles.py:93-101 | `df[c] = np.nan`: a column of the frame's length with every cell missing |
| Values.ConstColumn | src/core/aging_features.py:40-41 | `g[c] = 0.0`: a column of the frame's length with the constant in every cell |
| Order.SortBy | src/core/soh_cycles.py:53 | `sort_values`: the rows come back in key order, as a permutation of the input |
| Order.SortBySorted | src/core/soh_cycles.py:53 | the sort is stable: rows already in key order come back unchanged |
| Order.SortReals | src/core/soh_cycles.py:119 | the ascending order numpy's percentile works on: sorted and a permutation of the sample |
| Stats.MaxOf | src/core/soh_cycles.py:124 | the maximum is one of the values and no value exceeds it |
| Stats.MinOf | src/core/soh_cycles.py:89 | the minimum is one of the values and no value is below it |
| Stats.Sum | src/core/feature_engineering.py:83 | the sum of a sample, the numerator of `x.mean()` and of the variance; its properties are stated by `Stats.SumConcat` (additive over concatenation), `Stats.SumNonNeg` (non-negative on non-negative values) and `Stats.SumAtLeast`/`Stats.SumAtMost` (n values bounded by m sum to at most/at least m added n times) |
| Stats.Quantile | src/core/soh_cycles.py:136-138 | numpy's linear-interpolation percentile of a non-empty sample lies between its minimum and maximum |
| Stats.Median | src/core/soh_cycles.py:82 | the median of a non-empty sample lies between its minimum and maximum |
| Stats.Lerp | src/core/soh_cycles.py:119 | numpy's `_lerp(a, b, g)` with `a <= b` and `g` in [0, 1], the interpolation step of every percentile: the result lies between `a` and `b` |
| Stats.QuantileConst | src/core/soh_cycles.py:119 | every percentile of a constant sample is that constant |
| Stats.MedianOfNearConst | src/core/soh_cycles.py:24-25 | the median of at least three values of which all but one equal c is c: one outlier cannot move it |
| Stats.MeanBetween | src/core/feature_engineering.py:83 | `x.mean()` (`Stats.Mean`, the sum over the count of a non-empty sample) lies between the sample's smallest and largest value |
| Stats.Mean | src/core/feature_engineering.py:83 | `x.mean()`: the sum over the count of a non-empty sample; its bounds are `Stats.MeanBetween` |
| Stats.PopVar | src/core/feature_engineering.py:84 | the population variance (`ddof=0`) is never negative, so its square root exists |
| Rolling.WindowCells | src/core/soh_cycles.py:24 | a rolling window holds at most `window` cells and contains its own row |
| Rolling.RollingMedian | src/core/soh_cycles.py:24 | a rolling median is defined on a row exactly when the window holds at least `min_periods` (and at least one) present values |
| Rolling.RollingMax | src/core/soh_cycles.py:124 | a rolling max is defined on a row exactly when the window holds at least `min_periods` (and at least one) present values |
| Rolling.LastPresent | src/core/soh_cycles.py:130 | a value carried forward to row i comes from a row at or before i |
| Rolling.NextPresent | src/core/aging_features.py:25 | a value carried backward to row i comes from a row at or after i |
| Rolling.FFill | src/core/soh_cycles.py:130 | `ffill()` keeps the column's length and every present cell |
| Rolling.BFill | src/core/aging_features.py:25 | `bfill()` keeps the column's length and every present cell |
| Rolling.FFillMissingIff | src/core/soh_cycles.py:130 | after `ffill()` row i is missing exactly when every row up to i was missing |
| Rolling.FFillBFillTotal | src/core/aging_features.py:25 | `ffill().bfill()` leaves no missing cell once the column holds one value, and keeps every existing value |
| Rolling.CumSum | src/core/soh_cycles.py:88 | `cumsum()` skips missing cells: a running sum is present exactly where the cell is |
| Rolling.CumSumFirst | src/core/soh_cycles.py:88 | at the first present cell the running sum is that cell's value |
| Rolling.CumSumStep | src/core/soh_cycles.py:88 | each present cell adds its value to the running sum at the previous present cell, skipping missing cells |
| Rolling.CumSumLast | src/core/soh_cycles.py:88 | the last present cell holds the sum of all present values of the column |
| Rolling.DiffFill0 | src/core/soh_cycles.py:159 | `diff().fillna(0)`: row 0 is 0, a row with both neighbours present is their difference, any other row is 0 |
| Rolling.Clip | src/core/soh_cycles.py:142 | `np.clip` lands in [lower, upper] and keeps values already inside; with lower > upper every value becomes upper |
| Rolling.SeriesClip | src/core/soh_cycles.py:127-129 | pandas `clip` with two scalar bounds orders them first: the result lies between the two bounds whichever is larger, keeps values already between them, and equals `np.clip` when the bounds are in order |
| Rolling.ClipColumn | src/core/soh_cycles.py:127-129 | clipping a column keeps missing cells missing and puts every present cell between the two bounds, in either order, leaving cells already between them unchanged |
| Segments.SegmentStart | src/core/aging_features.py:57 | the group of a row in a device-sorted frame starts at the first row of its run of equal device ids: all rows in between share its id, and the row before it has another |
| Segments.SegmentStartStep | src/core/aging_features.py:57 | consecutive rows of the same device belong to the same group |
| Telemetry.KeyBeforeOrder | src/core/throughput_energy.py:32 | the (device_id, created_at) key order is total and transitive, so the sort is well defined |
| Telemetry.SortRows | src/core/throughput_energy.py:32 | the rows come back sorted by (device_id, created_at), as a permutation of the input |
| Telemetry.SortRowsSorted | src/core/throughput_energy.py:32 | the sort is stable: a frame already in key order is returned unchanged |
| Telemetry.BaseGuard | src/core/throughput_energy.py:27-33 | None and an empty frame come back as they are; any other frame comes back with the same columns and the same rows (as a multiset), sorted by (device_id, created_at) |
| Telemetry.BaseGuardIdempotent | src/core/throughput_energy.py:28-32 | guarding an already guarded frame changes nothing |
| Telemetry.SortedDeviceContiguous | src/core/throughput_energy.py:32 | after the sort, the rows of one device are contiguous |
| Telemetry.SortedDeviceTime | src/core/throughput_energy.py:32 | after the sort, the rows of one device are in time order |
| ThroughputEnergy.Quotient | src/core/throughput_energy.py:62-66 | float division: the real quotient for a non-zero divisor; for a zero divisor +inf, -inf or NaN according to the sign of the dividend |
| ThroughputEnergy.DivBy | src/core/throughput_energy.py:69-71 | dividing by a positive constant keeps finiteness and divides finite values |
| ThroughputEnergy.WithBytes | src/core/throughput_energy.py:53 | keeps exactly the rows that have both byte counters, and no others |
| ThroughputEnergy.WithBytesSorted | src/core/throughput_energy.py:53 | dropping rows keeps a key-sorted frame sorted |
| ThroughputEnergy.ThroughputOf | src/core/throughput_energy.py:54 | an output row carries its own sample and the gap in seconds to the previous kept row of its device |
| ThroughputEnergy.ThroughputRates | src/core/throughput_energy.py:54-71 | byte deltas are current minus previous; for a non-zero gap the rates are delta·8/gap and total = upload + download; for a zero gap no rate is finite; Mbit/s = bit/s / 10^6 |
| ThroughputEnergy.SurvivorsIff | src/core/throughput_energy.py:54-59 | a kept row survives the second dropna exactly when the row before it belongs to the same device |
| ThroughputEnergy.Survivors | src/core/throughput_energy.py:54-59 | the rows kept by the second `dropna`, in order: each has a previous row of the same device |
| ThroughputEnergy.SurvivorsIncreasing | src/core/throughput_energy.py:59 | the surviving rows keep their order |
| ThroughputEnergy.ThroughputRows | src/core/throughput_energy.py:54-71 | one output row per surviving kept row |
| ThroughputEnergy.ThroughputRowsIndex | src/core/throughput_energy.py:54-59 | every output row is computed from a kept row that has a predecessor in its device |
| ThroughputEnergy.ThroughputRowsHas | src/core/throughput_energy.py:54-59 | every kept row with a predecessor in its device gives an output row |
| ThroughputEnergy.ThroughputRowsMembers | src/core/throughput_energy.py:53-59 | the output rows are exactly the rows computed from each kept row and its same-device predecessor (both directions) |
| ThroughputEnergy.CalculateThroughput | src/core/throughput_energy.py:46-74 | None gives None; an empty frame gives no rows; a non-empty frame gives rows exactly when both byte-counter columns exist (otherwise the error handler's None) |
| ThroughputEnergy.ThroughputRowFacts | src/core/throughput_energy.py:54-71 | on sorted kept rows, each output row is a kept sample at a gap >= 0; with a positive gap total = upload + download; total Mbit/s = total bit/s / 10^6 |
| ThroughputEnergy.CalculateThroughputRows | src/core/throughput_energy.py:48-71 | every row returned is an input sample with both byte counters, at a gap >= 0; with a positive gap total = upload + download; Mbit/s = bit/s / 10^6 |
| ThroughputEnergy.ZeroGapKept | src/core/throughput_energy.py:58-59 | two samples of one device with the same timestamp are not dropped: the row is output with a zero gap and a total rate that is not finite |
| ThroughputEnergy.ExampleStep | src/core/throughput_energy.py:62-71 | a 10-second step with byte deltas dtx and drx gives 0.8·dtx and 0.8·drx bit/s and (dtx+drx)·8·10^-7 Mbit/s in total |
| ThroughputEnergy.ExampleRowsOut | src/core/throughput_energy.py:48-59 | for a three-sample device the output is the second and third samples, each against its predecessor |
| ThroughputEnergy.ThroughputExample | src/core/throughput_energy.py:53-71 | tx = [0, 1000, 3000] and rx = [0, 500, 1500] at 10 s steps give two rows with 0.0012 and 0.0024 Mbit/s in total; the first row is dropped |
| ThroughputEnergy.EnergyOf | src/core/throughput_energy.py:92-95 | delta_t is defined exactly when the previous row is of the same device; V = mV/1000, A = µA/10^6, and Wh = V·A·delta_t/3600, missing when any factor is missing |
| ThroughputEnergy.CalculateEnergy | src/core/throughput_energy.py:85-98 | None gives None; an empty frame gives no rows; otherwise rows exactly when the voltage and current columns exist, one per sorted input row, each computed from the sorted frame |
| ThroughputEnergy.EnergyFirstRowMissing | src/core/throughput_energy.py:92-95 | energy is missing on every device's first row |
| ThroughputEnergy.Matches | src/core/throughput_energy.py:119-123 | the joined rows of one throughput row are exactly its pairs with energy rows of the same key |
| ThroughputEnergy.JoinMembers | src/core/throughput_energy.py:119-123 | a row is in the inner join exactly when it pairs a throughput row and an energy row with equal (device, time) keys |
| ThroughputEnergy.Join | src/core/throughput_energy.py:119-123 | `pd.merge(..., how="inner")` before the sort: empty when no throughput row and energy row share a (device, time) key |
| ThroughputEnergy.Merge | src/core/throughput_energy.py:119-124 | the merged rows are the inner join's rows, re-sorted by (device, time) |
| ThroughputEnergy.ZeroToNaN | src/core/throughput_energy.py:127 | a zero throughput becomes NaN; every other value is kept |
| ThroughputEnergy.ZerosToNaN | src/core/throughput_energy.py:127 | the replacement is applied cell by cell |
| ThroughputEnergy.ReplaceZeros | src/core/throughput_energy.py:127 | the in-place replacement leaves the array equal to the cell-by-cell replacement of its old contents |
| ThroughputEnergy.EnergyPerBit | src/core/throughput_energy.py:130-131 | energy per bit is alpha/bps + beta; it is missing exactly when the throughput is NaN |
| ThroughputEnergy.Joules | src/core/throughput_energy.py:132-133 | nJ to J keeps missing cells missing |
| ThroughputEnergy.AvgOf | src/core/throughput_energy.py:134-136 | the average is present exactly when both values are, and lies between them |
| ThroughputEnergy.BotOf | src/core/throughput_energy.py:139-142 | BoT is finite exactly when the average energy per bit and the mean voltage are present and the voltage is non-zero |
| ThroughputEnergy.MeanVoltage | src/core/throughput_energy.py:139 | `batt_voltage_v.mean()` skips NaN: it is present exactly when some merged row has a voltage |
| ThroughputEnergy.ThroughputEnergyAndBot | src/core/throughput_energy.py:109-145 | None gives None; an empty frame comes back as it is; a merged table exactly when both sub-calculations succeed and the frame has batt_temp_c, and then its rows are the sorted join of the two |
| ThroughputEnergy.MergedFromBoth | src/core/throughput_energy.py:115-124 | a row is in the merged table exactly when it pairs a throughput row and an energy row of the same (device, time) key |
| ThroughputEnergy.CalculateThroughputEnergyAndBot | src/core/throughput_energy.py:109-143 | the step-by-step version, with the in-place zero replacement, returns the same result as the functional definition |
| ThroughputEnergy.BotStage | src/core/throughput_energy.py:127-142 | the column-by-column computation with the in-place zero replacement gives the table's columns |
| ThroughputEnergy.EpbMissingIff | src/core/throughput_energy.py:127-131 | after the zero replacement, energy per bit is missing exactly where the throughput was 0 or NaN |
| ThroughputEnergy.EpbDecreasing | src/core/throughput_energy.py:130-131 | for positive throughputs, a larger throughput gives strictly less upload and download energy per bit |
| ThroughputEnergy.BotColumnsAt | src/core/throughput_energy.py:127-142 | row by row: energy per bit is missing exactly where the throughput was 0 or NaN; the average lies between the upload and download values; BoT is finite exactly when the average and a non-zero mean voltage exist |
| ThroughputEnergy.BotColumns | src/core/throughput_energy.py:127-142 | the columns added to the merged rows: one cell per row, the local `V_avg` is the mean voltage, and BoT is finite only with a present, non-zero `V_avg` |
| ThroughputEnergy.BotProportional | src/core/throughput_energy.py:139-142 | with a non-zero mean voltage, BoT = average energy per bit × (8·10^9·1000/3600)/V_avg, one constant for all rows |
| SohCycles.AbsDev | src/core/soh_cycles.py:25 | `(s - med).abs()` is missing where either operand is, and is the absolute difference elsewhere |
| SohCycles.Hampel | src/core/soh_cycles.py:13-32 | the filter only turns cells into missing, never changes a value, and for k < 1 (pandas refuses the window, the handler returns the copy) changes nothing |
| SohCycles.Mask | src/core/soh_cycles.py:24-28 | the masked copy keeps the length; a cell is missing exactly when it was missing or flagged as an outlier, and a present cell keeps its value |
| SohCycles.HampelFilter | src/core/soh_cycles.py:23-29 | the copy-and-mask procedure computes the filter's specification |
| SohCycles.MaskCopy | src/core/soh_cycles.py:26-28 | writing NaN into the flagged rows of a copy gives the mask's specification |
| SohCycles.HampelMissingIff | src/core/soh_cycles.py:24-28 | a row ends up missing exactly when it was missing or its deviation from the window median exceeds nsigma · 1.4826 · MAD |
| SohCycles.HampelFewValid | src/core/soh_cycles.py:24 | a row whose window holds fewer than 3 present values keeps its value (`min_periods=3`) |
| SohCycles.SpikeWindow | src/core/soh_cycles.py:24 | with k >= 2 on at least three rows, each window of a constant column with one spike holds at least three values, all but one equal to the constant |
| SohCycles.SpikeMedian | src/core/soh_cycles.py:24 | on a constant column with one spike, the rolling median is the constant on every row |
| SohCycles.SpikeDeviation | src/core/soh_cycles.py:25 | deviations from that median are 0 except at the spike |
| SohCycles.SpikeMad | src/core/soh_cycles.py:25 | on a constant column with one spike, the MAD is 0 on every row |
| SohCycles.MaskSpike | src/core/soh_cycles.py:26-28 | with the constant as median and a zero MAD, exactly the spike row is masked, whatever nsigma is |
| SohCycles.HampelSpike | src/core/soh_cycles.py:13-29 | the Hampel filter removes a single spike from a constant column and changes nothing else |
| SohCycles.HampelExample | src/core/soh_cycles.py:79 | with the k = 7, nsigma = 5.0 used on the counter path, nine equal readings with a different one in the middle lose exactly the middle one |
| SohCycles.DeltaT | src/core/soh_cycles.py:56-59 | `delta_t_s` lies in [0, 3600]; it is 0 on a device's first row, and elsewhere it is the gap to the previous row when that gap is in [0, 3600] and 0 otherwise |
| SohCycles.ComputeDeltaT | src/core/soh_cycles.py:56-59 | the diff pass followed by the two overwriting masks computes `DeltaT` |
| SohCycles.RawGap | src/core/soh_cycles.py:56-57 | the grouped diff with NaN filled by 0: 0 on the first row, non-zero only on a row whose previous row has the same device, and there the time since that row |
| SohCycles.ClampGap | src/core/soh_cycles.py:58-59 | the two overwrites: a gap ends in [0, 3600], is kept when it already lies there, and becomes 0 otherwise |
| SohCycles.SelectSource | src/core/soh_cycles.py:66-70 | the charge counter is chosen exactly when either counter column holds a value; integrated current exactly when neither does and `current_avg_ua` does |
| SohCycles.ChargeSteps | src/core/soh_cycles.py:86-87 | the charge step of a row is present exactly when its current reading is |
| SohCycles.CurrentCharge | src/core/soh_cycles.py:85-90 | the integrated charge is present exactly where the current reading is |
| SohCycles.ShiftToMilli | src/core/soh_cycles.py:89-90 | `(Q_Ah - min) * 1000` keeps missing cells missing and shifts and scales present ones |
| SohCycles.CurrentChargeFloor | src/core/soh_cycles.py:88-90 | integrated charge, shifted by its minimum, is never negative and is 0 on some row |
| SohCycles.CurrentChargeStep | src/core/soh_cycles.py:85-90 | between two consecutive current readings the charge in mAh rises by the later reading's µA/10^6·dt/3600 step, times 1000 |
| SohCycles.CurrentChargeFirst | src/core/soh_cycles.py:85-90 | at the first current reading the charge is its own step minus the minimum of the running sums, in mAh |
| SohCycles.CounterChargeFromRaw | src/core/soh_cycles.py:73-83 | on the counter path a present charge comes from a present reading: the reading in mAh, negated exactly when the median of the filtered readings is negative |
| SohCycles.Charge | src/core/soh_cycles.py:72-102 | `Q_mAh` on the path `SelectSource` chooses (counter, integrated current, or all missing), one cell per row |
| SohCycles.FullThreshold | src/core/soh_cycles.py:105 | `max(threshold - 1, 98)`: at least 98 and at least threshold - 1, and equal to one of them |
| SohCycles.IsFull | src/core/soh_cycles.py:107 | a row is full exactly when its battery level is present and at least the threshold |
| SohCycles.RunId | src/core/soh_cycles.py:108 | the block counter starts at 1 (row 0 differs from the missing shifted value) |
| SohCycles.FullBlockId | src/core/soh_cycles.py:109 | a row has a block id exactly when it is full, and the id is its run number |
| SohCycles.RunIdMonotone | src/core/soh_cycles.py:108 | run numbers never decrease along the rows |
| SohCycles.RunIdSameIff | src/core/soh_cycles.py:108 | two rows share a run number exactly when the full flag does not change between them |
| SohCycles.SameBlockIff | src/core/soh_cycles.py:108-109 | two full rows are in the same block exactly when no non-full row lies between them |
| SohCycles.BlockIdsIncrease | src/core/soh_cycles.py:108-109 | block ids increase along the rows |
| SohCycles.BlockValuesMembers | src/core/soh_cycles.py:114-116 | a block's charge list holds exactly the charges of the block's rows that have one |
| SohCycles.FirstWith | src/core/soh_cycles.py:120 | the row found for a charge value is a row of the block holding that value |
| SohCycles.FirstWithFirst | src/core/soh_cycles.py:120 | `idxmax` semantics: the row found is the first with that value, and one is found whenever one exists |
| SohCycles.BlockCandidate | src/core/soh_cycles.py:115-121 | a block's candidate capacity is placed on a row of that block |
| SohCycles.BlockCandidateExists | src/core/soh_cycles.py:116-118 | a block is skipped exactly when it holds no charge |
| SohCycles.BlockCandidateArgmax | src/core/soh_cycles.py:119-121 | the candidate row is the first row holding the block's largest charge, and the capacity (the block's 95th percentile) does not exceed that charge |
| SohCycles.BlockCtUnique | src/core/soh_cycles.py:119-121 | each block writes its capacity into one row only |
| SohCycles.BlockCt | src/core/soh_cycles.py:110-121 | the `Ct_mAh` column after the block loop, one cell per row, each given by the block rule (`BlockCtAt`) |
| SohCycles.BlockCtAtArgmax | src/core/soh_cycles.py:119-121 | a row that received a capacity is the first row with its block's largest charge, and the capacity does not exceed that charge |
| SohCycles.BlockCtExists | src/core/soh_cycles.py:113-121 | every block that holds a charge receives a capacity |
| SohCycles.CandidatesWellPlaced | src/core/soh_cycles.py:115-121 | every candidate sits on a row of its own block |
| SohCycles.Candidates | src/core/soh_cycles.py:113-121 | the candidate (row, capacity) of every block id up to the last, indexed by block id |
| SohCycles.PartialCtStep | src/core/soh_cycles.py:121 | handling one block writes its candidate into a cell that no earlier block wrote, and changes nothing else |
| SohCycles.PartialCtStart | src/core/soh_cycles.py:110 | before the loop the column is all missing |
| SohCycles.PartialCtDone | src/core/soh_cycles.py:113-121 | after every block id has been visited, the loop has produced the block rule's column |
| SohCycles.BlockIdBound | src/core/soh_cycles.py:108-109 | no block id exceeds the last row's run number, so the loop visits every block |
| SohCycles.AssignBlockCt | src/core/soh_cycles.py:110-121 | the loop over the blocks in ascending id order computes the block rule's column |
| SohCycles.BlockLoopSetup | src/core/soh_cycles.py:108-115 | the candidates of a frame are well placed and block ids start at 1 |
| SohCycles.WriteCandidates | src/core/soh_cycles.py:115-121 | writing each block's candidate in turn into an all-missing column gives the loop's final column |
| SohCycles.NominalCapacity | src/core/soh_cycles.py:62-63 | the nominal capacity is known exactly when the first device is in the capacity table, and is its entry |
| SohCycles.WithFallback | src/core/soh_cycles.py:123-124 | when no block produced a capacity, the column is the trailing rolling max of the charge (6 rows, at least 3); otherwise it is unchanged |
| SohCycles.ClipNominal | src/core/soh_cycles.py:126-129 | with a nominal capacity every present capacity is clipped between 0.70 and 1.15 times it (the bounds swap for a negative entry); without one nothing changes; missing cells stay missing |
| SohCycles.CapacityTraceWithinNominal | src/core/soh_cycles.py:126-130 | with a nominal capacity every capacity, including forward-filled ones, lies in [0.70, 1.15] times it, or in [1.15, 0.70] times a negative one |
| SohCycles.CapacityTraceNoneBefore | src/core/soh_cycles.py:130 | the forward fill leaves a row missing exactly when no capacity was present up to that row |
| SohCycles.CapacityTrace | src/core/soh_cycles.py:123-130 | `Ct_mAh`: block capacities, the rolling-max fallback, the nominal clip and the forward fill, one cell per row |
| SohCycles.AtMost | src/core/soh_cycles.py:137 | `valid_ct[valid_ct <= hi]` keeps exactly the values up to `hi` |
| SohCycles.TrimmedP95 | src/core/soh_cycles.py:136-138 | the trimmed 95th percentile lies between the smallest capacity and the 99th percentile |
| SohCycles.C0Ref | src/core/soh_cycles.py:133-148 | the reference cascade: with data and a non-negative nominal capacity it lies in [0.95, 1.05] times the nominal, and is 1.05 times a negative one (`np.clip` does not swap); data alone gives the trimmed percentile; otherwise the nominal capacity; otherwise `default_C0` |
| SohCycles.C0RefWithinData | src/core/soh_cycles.py:136-144 | without a nominal capacity the reference lies within the range of the capacities |
| SohCycles.SohOf | src/core/soh_cycles.py:151 | SoH lies in [0, 1.2]; it is present exactly when Ct is present and not 0/0, and for a non-zero reference it is Ct / C0_ref clipped to [0, 1.2] |
| SohCycles.Soh | src/core/soh_cycles.py:151 | the `SoH` column: one cell per row, each the clipped ratio of that row's capacity to the reference |
| SohCycles.Percent | src/core/soh_cycles.py:155-156 | `* 100.0`: the percentage divided by 100 is the fraction, and SoH in [0, 1.2] gives a percentage in [0, 120] |
| SohCycles.SmoothWithinBounds | src/core/soh_cycles.py:152-154 | the smoothed SoH stays in [0, 1.2] |
| SohCycles.Discharge | src/core/soh_cycles.py:160 | discharge is never negative: the fall in charge where it fell, 0 elsewhere |
| SohCycles.Capped | src/core/soh_cycles.py:164 | values above the cap become the cap and the others are kept |
| SohCycles.CapInPlace | src/core/soh_cycles.py:164 | the masked write on the array leaves the capped column |
| SohCycles.CappedDischargeBounds | src/core/soh_cycles.py:160-164 | capped discharge lies in [0, q99] and is 0 where the charge did not fall |
| SohCycles.Efc | src/core/soh_cycles.py:165 | EFC is present on every row when the reference is non-zero, and nowhere when it is 0 |
| SohCycles.EfcMonotone | src/core/soh_cycles.py:165 | with a positive reference and non-negative discharge, EFC never decreases |
| SohCycles.CalculateSohCycles | src/core/soh_cycles.py:49-170 | the stage-by-stage procedure computes the estimator's specification |
| SohCycles.SohCycles | src/core/soh_cycles.py:49-170 | `calculate_soh_cycles` as a function: an empty frame fails; a non-empty frame with `battery_level` and `roll_win >= 1` succeeds; a success holds the input rows sorted by (device, time) as a permutation, and computes a reference capacity exactly on a charge path |
| SohCycles.ChargeColumn | src/core/soh_cycles.py:72-90 | the charge stage computes the `Q_mAh` specification |
| SohCycles.CapacityColumn | src/core/soh_cycles.py:105-130 | the capacity stage computes the `Ct_mAh` specification |
| SohCycles.DischargeColumn | src/core/soh_cycles.py:159-164 | the discharge stage computes the capped discharge |
| SohCycles.SohCyclesFailsIff | src/core/soh_cycles.py:62-170 | the estimator returns the empty frame exactly on an empty input, or on a charge path without `battery_level` or with `roll_win < 1` |
| SohCycles.SohCyclesNoSource | src/core/soh_cycles.py:91-102 | with no charge source every result column is NaN and no error is raised |
| SohCycles.SohCyclesShape | src/core/soh_cycles.py:51-59 | a successful result is the input sorted by (device, time) as a permutation, every column is aligned to it, and every gap is in [0, 3600] seconds |
| SohCycles.SohCyclesDataPath | src/core/soh_cycles.py:72-165 | on a charge path each result column is the corresponding stage applied to the previous ones, in the source's order |
| SohCycles.SohColumns | src/core/soh_cycles.py:151-156 | SoH and smoothed SoH lie in [0, 1.2] where defined, and the percentage columns are 100 times them |
| SohCycles.EfcStartsAtZero | src/core/soh_cycles.py:165 | on a non-negative discharge starting at 0, EFC starts at 0, is never negative and never decreases |
| SohCycles.EfcColumns | src/core/soh_cycles.py:159-165 | from any charge column: EFC starts at 0, is never negative and never decreases, and the discharge lies in [0, q99] and is 0 where the charge rose |
| AgingFeatures.Alpha | src/core/aging_features.py:30 | `ewm(span=s)` uses the smoothing factor 2 / (s + 1), which lies in (0, 1] for every span pandas accepts |
| AgingFeatures.EwmStep | src/core/aging_features.py:30 | one step of the `adjust=False` average keeps the old weight in [0, 1] |
| AgingFeatures.Ewm | src/core/aging_features.py:30 | the running state over a column keeps its old weight in [0, 1] |
| AgingFeatures.EwmWeights | src/core/aging_features.py:30 | the old weight is 1 until the first observation and right after every observation |
| AgingFeatures.EwmDefinedIff | src/core/aging_features.py:30 | the average is defined exactly from the first observation on (`ignore_na=False`) |
| AgingFeatures.EwmRecurrence | src/core/aging_features.py:30 | without missing cells the average is the textbook recurrence e0 = x0, e(t) = alpha·x(t) + (1 - alpha)·e(t-1) |
| AgingFeatures.BlendUnitWeight | src/core/aging_features.py:30 | with old weight 1 - alpha, the weighted blend is the textbook update |
| AgingFeatures.BlendBetween | src/core/aging_features.py:30 | a blend of the old average and a new value lies between them |
| AgingFeatures.EwmStepWithin | src/core/aging_features.py:30 | one step keeps the average within any bounds holding the old average and the new value |
| AgingFeatures.EwmWithin | src/core/aging_features.py:30-31 | the average lies between the smallest and the largest observation so far |
| AgingFeatures.EwmConst | src/core/aging_features.py:30-31 | a constant column has that constant as its average on every row |
| AgingFeatures.EwmSnoc | src/core/aging_features.py:30 | the state after one more cell is one step from the state before it |
| AgingFeatures.EmaStateStep | src/core/aging_features.py:28-31 | per device: the running state restarts at a device's first row and otherwise steps from the previous row |
| AgingFeatures.EmaColumnAt | src/core/aging_features.py:30 | each row of the per-device average is the running state at that row |
| AgingFeatures.EmaState | src/core/aging_features.py:28-31 | the running `adjust=False` state at a row, over the cells of its device up to that row; its old weight stays in [0, 1] |
| AgingFeatures.EmaColumn | src/core/aging_features.py:30-31 | the `soh_ema_fast` / `soh_ema_slow` column: one cell per row, each the mean of that row's running state |
| AgingFeatures.EmaPerDevice | src/core/aging_features.py:30-31 | the single pass that restarts at every device computes the per-device average |
| AgingFeatures.EfcDeltaPrefixSum | src/core/aging_features.py:33 | within a device with present EFC, the increments since the device's first row add up to the change in EFC since that row |
| AgingFeatures.EfcDelta | src/core/aging_features.py:33 | `efc_delta`: 0 on a device's first row, and on a later row with both EFC cells present the step that takes the previous EFC to the current one |
| AgingFeatures.EfcDeltaNonNeg | src/core/aging_features.py:33 | an increment is never negative where EFC does not decrease |
| AgingFeatures.WindowMaxAtLeast | src/core/aging_features.py:38 | the max of a window with a present cell is present and at least that cell |
| AgingFeatures.WindowMax | src/core/aging_features.py:38 | the window max is missing exactly when the window has no present cell; otherwise it is one of the window's values and at least every present one |
| AgingFeatures.WindowStart | src/core/aging_features.py:38 | the trailing window of a row starts at or before the row |
| AgingFeatures.TempMaxWin | src/core/aging_features.py:38 | `temp_max_win` on each row is the max of the present temperatures in its trailing window, which stays within the device |
| AgingFeatures.TempMaxAtLeast | src/core/aging_features.py:38 | the window max is present and at least the current temperature, and the window holds the last min(win, rows so far in the device) rows |
| AgingFeatures.WindowLength | src/core/aging_features.py:38 | the trailing window holds min(win, rows so far in the device) rows |
| AgingFeatures.AgingKeyLePreorder | src/core/aging_features.py:24 | the (device_id, created_at) order is a total preorder, so the sort is defined |
| AgingFeatures.SortAging | src/core/aging_features.py:24 | the rows come back sorted by (device_id, created_at), as a permutation of the input |
| AgingFeatures.OptionalEma | src/core/aging_features.py:44-53 | a feature whose input column is absent is 0.0 on every row |
| AgingFeatures.AddAgingFeatures | src/core/aging_features.py:12-60 | a result exists exactly when the frame has `SoH_filled` and either has no rows or has `EFC` and both spans are at least 1 (the `KeyError` and `ValueError` are caught and None returned) |
| AgingFeatures.CalculateAgingFeatures | src/core/aging_features.py:22-58 | sorting, filling and the per-device columns in the source's order compute the specification |
| AgingFeatures.SohFilledComplete | src/core/aging_features.py:25 | once any SoH value exists the filled column has no missing cell, and it keeps every value that was there |
| AgingFeatures.TrendZeroOnConstant | src/core/aging_features.py:30-32 | a device whose filled SoH is constant so far has a zero trend |
| AgingFeatures.Trend | src/core/aging_features.py:32 | `soh_trend`: present exactly where both averages are, and there the slow average plus the trend is the fast one |
| AgingFeatures.EmaColumnWithin | src/core/aging_features.py:30-31 | each per-device average stays within the values its device has shown so far |
| AgingFeatures.AgingDefaults | src/core/aging_features.py:36-53 | without a temperature column both temperature features are 0.0; without the throughput or energy-per-bit column that feature is 0.0 |
| ZScore.DeviceValuesStep | src/core/feature_engineering.py:82-84 | the statistics of a device see a row's value exactly when the row belongs to the device and its cell is present |
| ZScore.DeviceValuesConcat | src/core/feature_engineering.py:90 | a device's values over two blocks of rows are the values from each block in order |
| ZScore.DeviceValuesOther | src/core/feature_engineering.py:90 | rows of other devices contribute nothing to a device's statistics |
| ZScore.DeviceValuesMembers | src/core/feature_engineering.py:82-84 | every value a device's statistics see comes from a present cell on one of its rows |
| ZScore.DeviceValues | src/core/feature_engineering.py:82-84 | the present values of a column on one device's rows, in row order, never more than the rows |
| ZScore.PopStd | src/core/feature_engineering.py:84 | `x.std(ddof=0)`: NaN exactly when the device has no present value, and never negative when the square root is not |
| ZScore.Standardise | src/core/feature_engineering.py:88 | `(x - mu) / sigma` keeps NaN cells NaN and present cells present |
| ZScore.ZOf | src/core/feature_engineering.py:85-88 | a row's z is 0.0 when its device's standard deviation is 0 or NaN, whatever the cell holds; otherwise it is `(x - mu) / sigma` with the device's mean |
| ZScore.PopVarConst | src/core/feature_engineering.py:83-84 | a constant sample has mean equal to the constant and variance 0 |
| ZScore.ZConstantIsZero | src/core/feature_engineering.py:84-86 | when every present value of a device is the same, every row of that device gets z = 0.0, never NaN, including a device without present values |
| ZScore.ZFivesExample | src/core/feature_engineering.py:84-86 | five readings of 5 on one device all get z = 0.0 |
| ZScore.ZOnlyOwnDevice | src/core/feature_engineering.py:90 | adding rows of other devices leaves a device's z values as they were |
| ZScore.DeviceValuesOfZ | src/core/feature_engineering.py:88 | on a device's rows, the present z values are the device's values shifted by mu and divided by sigma |
| ZScore.ShiftedMeanZero | src/core/feature_engineering.py:83-88 | subtracting the mean and dividing by a non-zero sigma gives mean 0 |
| ZScore.SumScaledSquares | src/core/feature_engineering.py:84-88 | the squared deviations of z from 0 are those of x from its mean, divided by sigma squared |
| ZScore.ScaledVarianceOne | src/core/feature_engineering.py:84-88 | dividing by the population standard deviation gives population variance 1 |
| ZScore.ZColumnOnDevice | src/core/feature_engineering.py:78-90 | each row is normalised with the statistics of its own device |
| ZScore.ZColumn | src/core/feature_engineering.py:79-90 | the `<col>_z` column, one cell per row, each normalised by its own device's statistics |
| ZScore.ZOnDevice | src/core/feature_engineering.py:82-88 | on a device whose standard deviation is non-zero, the z column is `(x - mu) / sigma` with the device's own mean and standard deviation, NaN staying NaN |
| ZScore.StandardisedOnDevice | src/core/feature_engineering.py:83-88 | any column derived from a device's values as `(x - mu) / sigma` with the device's mean and population standard deviation has mean 0 and variance 1 on that device |
| ZScore.ZStandardised | src/core/feature_engineering.py:82-90 | where a device's standard deviation is not 0, its present z values have mean 0 and population variance 1 |
| ZScore.AddZ | src/core/feature_engineering.py:79-88 | every column of the frame keeps its length while `_z` columns are added |
| ZScore.AddPerDeviceZScore | src/core/feature_engineering.py:75-91 | the loop over `cols` keeps the rows and produces the columns of the specification |
| ZScore.AddZFrame | src/core/feature_engineering.py:79-88 | the loop only adds `_z` columns: every original column is still there, every new one is the `_z` of a listed column, and every column not named like that keeps its cells |
| ZScore.AddZOfColumn | src/core/feature_engineering.py:79-88 | a listed column present in the frame gets a `_z` companion holding the per-device z-scores of its own cells |
| ZScore.AddZLast | src/core/feature_engineering.py:79-88 | after the loop has passed a listed present column, its `_z` companion holds the z-scores of its cells |
| LstmFeatures.InsertDevice | src/core/feature_engineering.py:43 | adding a device to the sorted group keys keeps them strictly increasing and adds exactly that device |
| LstmFeatures.Devices | src/core/feature_engineering.py:43 | the group keys are the frame's devices, each once, in increasing order |
| LstmFeatures.RowsOf | src/core/feature_engineering.py:43 | a device's group holds exactly the frame's rows of that device |
| LstmFeatures.GroupSoh | src/core/feature_engineering.py:43-45 | a group whose estimate failed contributes no rows (the handler's empty frame); one that succeeded contributes one row per sample |
| LstmFeatures.GroupResult | src/core/feature_engineering.py:43-45 | `calculate_soh_cycles` on one device's group: fails on a device without rows, and a success holds a permutation of the group's samples |
| LstmFeatures.GroupSohTable | src/core/feature_engineering.py:43-45 | a group that succeeded contributes the estimator's rows, a permutation of the group's samples |
| LstmFeatures.GroupSohSample | src/core/feature_engineering.py:43-45 | every row a group contributes is a sample of that device from the frame |
| LstmFeatures.GroupSohOf | src/core/feature_engineering.py:43-45 | a group that succeeded contributes a row for each of its samples |
| LstmFeatures.GroupSohMembers | src/core/feature_engineering.py:43-45 | a group's rows are samples of that device, and a group that succeeded contributes every one of its samples |
| LstmFeatures.SohRowsOverMembers | src/core/feature_engineering.py:43-45 | the concatenated groups hold only samples of the listed devices, and every sample whose group succeeded is in the concatenation |
| LstmFeatures.GroupSohEmptyIff | src/core/feature_engineering.py:43-45 | a non-empty group contributes no rows exactly when its estimate failed |
| LstmFeatures.SohRowsOverEmpty | src/core/feature_engineering.py:43-45 | the concatenated groups are empty exactly when every group's estimate failed |
| LstmFeatures.DevicesGroups | src/core/feature_engineering.py:43 | every device of the frame is a group key, and every group key has rows |
| LstmFeatures.SohFrameMembers | src/core/feature_engineering.py:43-45 | every row of `soh_df` is a sample of the input, and every sample whose device's estimate succeeded is in `soh_df` |
| LstmFeatures.SohFrameEmptyIff | src/core/feature_engineering.py:43-45 | `soh_df` is empty exactly when every device's estimate failed |
| LstmFeatures.SohFrameRows | src/core/feature_engineering.py:43-45 | `soh_df`, the groups' results concatenated: every row is a sample of the input frame |
| LstmFeatures.MergedAligned | src/core/feature_engineering.py:48 | a merged throughput-energy table has every column aligned with its rows |
| LstmFeatures.TeRows | src/core/feature_engineering.py:53-63 | the selected right-hand columns: one row per throughput row, with its key and energy per bit |
| LstmFeatures.TeMatches | src/core/feature_engineering.py:64 | the right rows matching a left row are exactly those with the same (device_id, created_at) |
| LstmFeatures.LeftRows | src/core/feature_engineering.py:65 | a left row gives at least one joined row |
| LstmFeatures.LeftRowsMembers | src/core/feature_engineering.py:64-65 | the joined rows of one left row are that row with each of its matches, or the row alone when it has none |
| LstmFeatures.LeftJoinMembers | src/core/feature_engineering.py:51-66 | the left join holds exactly the pairs of a left row with a matching right row, and the left rows without any match on their own (both directions) |
| LstmFeatures.LeftJoinKeepsRows | src/core/feature_engineering.py:65 | `how="left"` keeps every left row: with each matching right row, or alone when there is none |
| LstmFeatures.TeMatchesAtMostOne | src/core/feature_engineering.py:64 | with unique right keys a left row has at most one match |
| LstmFeatures.LeftJoinLength | src/core/feature_engineering.py:51-66 | the join never loses a left row, and with unique right keys it keeps the left table's length |
| LstmFeatures.LeftJoin | src/core/feature_engineering.py:51-66 | `pd.merge(soh_df, te_df[...], how="left")`: never fewer rows than `soh_df` |
| LstmFeatures.AgingRow | src/core/feature_engineering.py:51-69 | a joined row passes on its device, time and EFC, the energy per bit of its match (missing without one), and a missing `throughput_total_gb` |
| LstmFeatures.JoinedColumns | src/core/feature_engineering.py:51-66 | the joined frame has `EFC` and `energy_per_bit_avg_J` but neither `SoH_filled` nor `throughput_total_gb`, and has `batt_temp_c` exactly when the raw frame does |
| LstmFeatures.MakeLstmFeaturesAsWritten | src/core/feature_engineering.py:33-72 | as written the function always returns None: the joined frame has no `SoH_filled`, so `add_aging_features` fails |
| LstmFeatures.SohProxy | src/core/soh_cycles.py:152-154 | the SoH proxy is the smoothed SoH where present and the raw SoH otherwise, and is present exactly when either is |
| LstmFeatures.JoinedFrame | src/core/feature_engineering.py:51-69 | the corrected joined frame has `SoH_filled` and `EFC` |
| LstmFeatures.MakeLstmFeatures | src/core/feature_engineering.py:41-70 | features exist only when the throughput table was built and `soh_df` is non-empty |
| LstmFeatures.LstmFeaturesOfJoined | src/core/feature_engineering.py:69 | on success the features are the aging features of the joined frame |
| LstmFeatures.AgingRowsSorted | src/core/aging_features.py:24-57 | the aging features keep the rows they are given, sorted by (device, time) |
| LstmFeatures.LstmFeaturesSomeIff | src/core/feature_engineering.py:41-70 | the features exist exactly when the throughput table was built and at least one device's SoH estimate succeeded |
| LstmFeatures.LstmFeaturesRows | src/core/feature_engineering.py:43-69 | the features are the joined rows sorted by (device, time), at least one per SoH row, and exactly one per SoH row when the throughput keys are unique |
| LstmFeatures.JoinedRowAt | src/core/feature_engineering.py:51-66 | every joined row gives its aging row |
| LstmFeatures.JoinedRowOf | src/core/feature_engineering.py:51-66 | every SoH row gives a joined row carrying its key, EFC and SoH proxy, with the energy per bit of its match or missing |
| LstmFeatures.LstmFeaturesKeepSoh | src/core/feature_engineering.py:43-69 | every SoH row reaches the features with its device, time, EFC and SoH proxy, and the energy per bit of a throughput row with the same key or, without one, missing |
| LstmFeatures.FilledFromRow | src/core/aging_features.py:25 | one present `SoH_filled` cell leaves no missing cell after the fill |
| LstmFeatures.LstmFeaturesFilled | src/core/feature_engineering.py:69 | once any SoH row has a smoothed or raw SoH value, the filled proxy has no missing cell in the features |
| Usage.ClipFill | src/service/usage_calculation.py:75-77 | `clip(lower=0).fillna(0)`: never negative; NaN and negative deltas become 0, non-negative ones are kept |
| Usage.DropMissingApp | src/service/usage_calculation.py:72 | keeps exactly the rows that have a foreground app |
| Usage.CleanDeltas | src/service/usage_calculation.py:75-78 | column by column, each row's deltas are clipped and filled, never negative, and its total is upload plus download |
| Usage.CleanRows | src/service/usage_calculation.py:75-78 | the cleaned table is the row rule applied to every row |
| Usage.Clean | src/service/usage_calculation.py:75-78 | one cleaned row: deltas never negative, non-negative deltas kept, total = upload + download, device and app carried over |
| Usage.KeyLtTrans | src/service/usage_calculation.py:83 | the (device_id, fg_pkg) order is transitive |
| Usage.KeyLtTotal | src/service/usage_calculation.py:83 | any two distinct (device_id, fg_pkg) keys are ordered |
| Usage.InsertKey | src/service/usage_calculation.py:83 | adding a key to the sorted key list keeps it strictly sorted and adds exactly that key |
| Usage.Keys | src/service/usage_calculation.py:81-88 | the groups are the distinct (device, app) keys of the rows, in sorted order, and every row has its group |
| Usage.GroupSum | src/service/usage_calculation.py:85-86 | a group's sum over non-negative cleaned deltas is never negative |
| Usage.DeviceSum | src/service/usage_calculation.py:83-86 | the sum of a field over one device's rows: non-negative on cleaned rows, 0 when the device has no row |
| Usage.KeysSum | src/service/usage_calculation.py:83-86 | the group sums of a device's keys added up: non-negative on cleaned rows, 0 when no key belongs to the device |
| Usage.KeysSumSnoc | src/service/usage_calculation.py:83-86 | one more row adds its value to its own group's sum and to no other |
| Usage.KeysPartition | src/service/usage_calculation.py:83-86 | summing the groups of a device gives the sum over the device's rows, when the keys are distinct and cover every row |
| Usage.GroupsPartitionDevice | src/service/usage_calculation.py:81-88 | per device, the app totals add up to the device's total: the groups partition its rows |
| Usage.Derive | src/service/usage_calculation.py:91-95 | `total_mb` is bytes / 10^6; with a positive duration the average rate times the duration gives back the megabits, otherwise the rate is 0.0; both are non-negative for non-negative bytes |
| Usage.Groups | src/service/usage_calculation.py:81-95 | one row per key, in key order, carrying the summed bytes and duration and the derived metrics |
| Usage.Rank | src/service/usage_calculation.py:98-102 | `rank(method="first", ascending=False)` per device: 1 plus the groups of the same device ranked before it, between 1 and the number of the device's groups |
| Usage.RankBeats | src/service/usage_calculation.py:101 | `ascending=False, method="first"`: more megabytes gives a smaller rank, and ties go to the group met first |
| Usage.RankDistinct | src/service/usage_calculation.py:101 | two groups of one device never share a rank |
| Usage.RankImageCard | src/service/usage_calculation.py:98-102 | a device's groups get as many distinct ranks as there are groups |
| Usage.RankImageRange | src/service/usage_calculation.py:98-102 | the ranks of a device's groups lie in 1 .. m for its m groups |
| Usage.RankPermutation | src/service/usage_calculation.py:98-102 | the ranks of a device's m groups are exactly 1, 2, ..., m |
| Usage.Ranked | src/service/usage_calculation.py:98 | each group carries its rank |
| Usage.FilterTop | src/service/usage_calculation.py:106 | keeps exactly the ranked rows whose rank is at most `top_rank`, without introducing repeats |
| Usage.UsageLePreorder | src/service/usage_calculation.py:107 | the (device_id, rank) order is a total preorder, so the final sort is defined |
| Usage.TopApps | src/service/usage_calculation.py:105-109 | the kept rows sorted by (device_id, rank), as a permutation of them |
| Usage.DistinctPerm | src/service/usage_calculation.py:107 | a rearrangement of rows without repeats has no repeats |
| Usage.RankedDistinct | src/service/usage_calculation.py:81-102 | every (device, app) group appears once |
| Usage.TopAppsMembers | src/service/usage_calculation.py:105-109 | the result holds each ranked row with rank at most `top_rank` exactly once, and nothing else |
| Usage.TopAppsStrict | src/service/usage_calculation.py:105-109 | two result rows of one device are in strictly increasing rank order |
| Usage.TopAppsIndex | src/service/usage_calculation.py:98-109 | each result row is a group with its rank, and that rank is at most `top_rank` |
| Usage.TopAppsExactly | src/service/usage_calculation.py:98-109 | the result rows are exactly the groups whose rank is at most `top_rank` (both directions) |
| Usage.TopAppsRankBounds | src/service/usage_calculation.py:98-109 | every rank in the result lies between 1 and `top_rank` |
| Usage.TopAppsRanks | src/service/usage_calculation.py:98-109 | the result is exactly the top groups, their ranks lie in 1 .. top_rank, and within a device they strictly increase |
| Usage.TopAppsPerDevice | src/service/usage_calculation.py:105-109 | the result holds at most `top_rank` rows of any one device |
| Usage.CalculateAppUsage | src/service/usage_calculation.py:45-115 | a None frame raises (`df.empty` is read first); an empty frame, a frame without `fg_pkg` or an empty throughput table gives an empty result; otherwise the result is the ranked top groups of the cleaned rows |
| Usage.CalculateAppUsageAsWritten | src/service/usage_calculation.py:45-68 | as written, None raises, an empty frame or one without `fg_pkg` gives an empty result, and every other frame raises at `MetricsCalculation(df)`: no ranking is ever returned |
| Usage.AppUsageAsWrittenRaises | src/service/usage_calculation.py:65 | a non-empty frame with `fg_pkg` raises as written, where the intended computation ranks any non-empty throughput table |
| Usage.UsageTotals | src/service/usage_calculation.py:72-95 | an app's totals in the result are the sums of its cleaned rows, and its megabytes and rate are never negative |
| Usage.CleanRowsNonNeg | src/service/usage_calculation.py:75-78 | every cleaned row has non-negative deltas |
| Usage.GroupTotals | src/service/usage_calculation.py:81-95 | a result row carries the summed bytes and duration of its own group and the metrics derived from them |
| Recommendation.RecommendAction | src/api/controller/recommendation_controller.py:24-33 | each of the four labels is returned exactly when its rule holds and no earlier rule does |
| Recommendation.ScreenOk | src/api/controller/recommendation_controller.py:25 | `screen_stats in {"safe", "warning"}`: a screen that passes is never "SEVERE" |
| Recommendation.DelayRule | src/api/controller/recommendation_controller.py:25 | the first rule; it excludes the repair rule |
| Recommendation.RepairRule | src/api/controller/recommendation_controller.py:27 | the second rule; when it holds, the replace rule can only fire on today's SoH below 0.7 |
| Recommendation.ReplaceRule | src/api/controller/recommendation_controller.py:29 | the third rule; with an accepted screen it holds exactly when today's SoH is below 0.7 or the RUL below half a year |
| Recommendation.DelayWinsOverLowSoh | src/api/controller/recommendation_controller.py:25-30 | the delay rule wins even when today's SoH is below 0.7 |
| Recommendation.UnknownScreenKeepsMonitoring | src/api/controller/recommendation_controller.py:25-33 | a screen status other than safe, warning or "SEVERE" (for example "severe") with a healthy battery gives KEEP_MONITORING |
| Recommendation.RepairAtOneYear | src/api/controller/recommendation_controller.py:27-28 | exactly one year of life with a future SoH in [0.7, 0.8) is a repair case |
| CarbonEquivalent.CarbonToCarKm | src/service/carbon_equivalent_calculation.py:23-28 | None gives 0; the result is never negative; non-negative input gives kg/0.192; negative input gives 0 (on real input; NaN and infinities are listed under Left out) |
| CarbonEquivalent.CarbonToCarKmMonotone | src/service/carbon_equivalent_calculation.py:27-28 | more carbon saved never gives fewer kilometres |
| ExpiryDate.ComputeExpiryDate | src/service/expiry_date_calculation.py:20-26 | None gives now; the result is never before now; non-positive months give now; otherwise now plus 30 days per month (the `CustomException` cases are listed under Left out) |
| ExpiryDate.ExpiryMonotone | src/service/expiry_date_calculation.py:24-25 | more remaining months never give an earlier date |
| Prediction.EstimateRul | src/api/controller/prediction_controller.py:73-92 | no estimate exactly when k_global is 0 (the re-raised division error); otherwise cycles = max((soh - eol)/k, 0), hours = cycles·hours_per_cycle, months = hours/24/30 and years = hours/24/365 |
| Prediction.RulAtOrBelowEol | src/api/controller/prediction_controller.py:74-75 | with k_global > 0 the cycle count is >= 0, and a prediction at or below the end-of-life threshold gives 0 in every unit |
| Prediction.RulMonotone | src/api/controller/prediction_controller.py:74-81 | with k_global > 0 and hours_per_cycle >= 0, cycles, hours, months and years are all >= 0 and non-decreasing in the predicted SoH |
| Prediction.SafeFloat | src/api/controller/prediction_controller.py:172-186 | a finite value is returned as it is; NaN, infinities and unconvertible input give 0.0 |
| Prediction.WindowAt | src/api/controller/prediction_controller.py:131 | window i has win rows, row k of it being row i - win + k |
| Prediction.SohTrueOf | src/api/controller/prediction_controller.py:134 | the true SoH is 100 times the row's SoH, and missing stays missing |
| Prediction.BuildWindows | src/api/controller/prediction_controller.py:121-134 | max(0, n - win) windows; window j is rows [j, j + win) and carries the timestamp and 100·SoH of row j + win |
| Prediction.WindowCountExample | src/api/controller/prediction_controller.py:130 | 30 rows with a window of 24 give 6 windows; 20 rows give none |
| Prediction.SohTrueColumn | src/api/controller/prediction_controller.py:118 | soh_smooth when the metrics have it, soh_pct otherwise |
| Prediction.Summarize | src/api/controller/prediction_controller.py:139-155 | a summary exactly when there is a prediction and k_global is non-zero; the last prediction ×100 and /100; the RUL of that fraction; the zipped series, as long as the shorter list |
| Prediction.SummaryLastIsModelOutput | src/api/controller/prediction_controller.py:139-142 | the summarised fraction is the model's last output |
| Sequence.CreateSequences | src/core/sequence.py:3-12 | max(0, len - window) sequences; sequence i is rows [i, i + window), of length window, and target i is row i + window |
| Sequence.SequencesMatchWindows | src/core/sequence.py:8-10 | training sequence j equals the prediction controller's window for row j + window, and its target is the row that window is labelled with |

## Left out

- Input and output are not modelled: the HTTP routes, the response schemas, database access, the
  jobs, logging, and the `print`/`raise CustomException` wrappers. The wrappers appear only as
  the error or empty results they produce.
- Model loading, the scaler and `model.predict` are foreign objects. The model's predictions are
  an input of Prediction.Summarize.
- The image damage classifier, the impact calculation stub and `ewaste_calculation` are not part
  of this model.
- Usage.CalculateAppUsage: as written, `MetricsCalculation(df)` passes an argument to a
  constructor that takes none, so `calculate_app_usage` raises `CustomException` for every
  non-empty frame with `fg_pkg` (Usage.CalculateAppUsageAsWritten). The model of the ranking takes
  the throughput rows that call was meant to return as a parameter; the metrics calculator
  itself is a stub and is not modelled.
- The pipeline's `compute_metrics` does not exist. The prediction helpers take the metric rows as
  a parameter.
- Prediction.SafeFloat models the one-argument definition. The controller calls it with two
  arguments, which raises `TypeError` in Python. That failure of the response construction is not
  modelled.
- Recommendation.RecommendAction: the inputs are real numbers, so NaN is outside the model. In the
  source every comparison with NaN is false:
  - a NaN future SoH or RUL fails the first two rules;
  - a NaN current SoH or RUL cannot trigger the third;
  - with all three NaN, the result is CONSIDER_NEW_DEVICE when `screen_stats == "SEVERE"`, and
    KEEP_MONITORING otherwise.
- `datetime.now()` is the parameter `now` of ExpiryDate.ComputeExpiryDate.
- ExpiryDate.ComputeExpiryDate: the model takes every finite real month count and returns
  `now` plus 30 days per month. The source re-raises as `CustomException` in cases the model leaves
  out:
  - an infinite or NaN `rul_months`, which `timedelta` refuses;
  - an argument `float()` cannot convert;
  - a date past `datetime`'s year-9999 limit, about 97,000 months ahead, where the addition
    raises `OverflowError`.
- CarbonEquivalent.CarbonToCarKm: the model takes real kilograms. A NaN input is outside it: the
  source returns NaN, since `max(nan, 0.0)` keeps its first argument, so its `km >= 0` holds
  only on non-NaN input. An infinite input gives +inf or 0.0 in the source and is outside the
  model as well.
- `pd.to_datetime` parsing is not modelled: timestamps are integer seconds. Unparseable
  timestamps (`errors="coerce"` gives NaT) are outside the model.
- The nominal-capacity table and the RUL constants are data, passed as parameters (`capacity`,
  `RulConfig`).
- IEEE floating-point rounding is not modelled; arithmetic is exact on reals.
- SohCycles.Efc: `cumsum / C0_ref` with a zero reference capacity gives inf or NaN in the source;
  the model marks those cells missing instead of distinguishing them.
- ZScore.ZStandardised: the population standard deviation needs a square root, which reals lack.
  The library's `sqrt` is a parameter, assumed to be a square root on non-negative reals
  (`IsSqrt`).
- pandas `groupby`/`apply` mechanics are modelled as an explicit partition by device. Group keys
  are taken in increasing order, as `groupby` sorts them by default.
- Usage.Ranked: pandas returns ranks as floats; the model uses natural numbers with the same
  values.
- AgingFeatures.AddAgingFeatures: `_per_dev` re-sorts each device on `created_at` alone with
  pandas' default unstable sort, so the order of rows of one device with equal timestamps is
  implementation-defined; the model keeps the stable (device_id, created_at) order.
- Telemetry.BaseGuard: the copy that `base_guard` makes is a value in the model, so aliasing
  between the input frame and the result is not represented.

## Findings

| source | as written | input that shows it | evidently intended | confidence | as-written member | corrected member |
|---|---|---|---|---|---|---|
| src/core/feature_engineering.py:51-69 | the frame handed to `add_aging_features` is the left join of `soh_df` with the throughput columns, and neither side has a `SoH_filled` column; `add_aging_features` reads `df["SoH_filled"]`, raises `KeyError`, its handler returns None, so `make_lstm_features` returns None for every input | any frame, e.g. one device with charge-counter readings and byte counters | `SoH_filled` taken from the SoH estimate (the smoothed SoH, else the raw SoH) before the aging features, so features exist exactly when the throughput table was built and some device's estimate succeeded (LstmFeatures.LstmFeaturesSomeIff) | high (not executed) | LstmFeatures.MakeLstmFeaturesAsWritten | LstmFeatures.MakeLstmFeatures |
| src/service/usage_calculation.py:65 | `MetricsCalculation(df).calculate_throughput()` passes a frame to `MetricsCalculation.__init__(self)`, which takes no argument (src/service/metrics_calculation.py:16) and has no `calculate_throughput`; the `TypeError` is re-raised as `CustomException`, so no ranking is ever returned | any non-empty frame with an `fg_pkg` column | the throughput rows of the guarded frame, cleaned, grouped by (device, app) and ranked, so each device's top apps are returned with totals that add up to the device's traffic (Usage.TopAppsExactly, Usage.GroupsPartitionDevice) | high (not executed) | Usage.CalculateAppUsageAsWritten | Usage.CalculateAppUsage |
