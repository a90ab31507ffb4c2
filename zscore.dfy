/** Per-device z-score normalisation, `add_per_device_zscore` of src/core/feature_engineering.py. */
module ZScore {
  import opened Values
  import opened Stats

  // ---------------------------------------------------------------------------
  // Per-device statistics.

  /** The present values of column `xs` on the rows of device `d`, in row order: what
      `x.mean()` and `x.std(ddof=0)` see inside the group of `d`. */
  function DeviceValues(ids: seq<string>, xs: seq<Value>, d: string): (r: seq<real>)
    requires |ids| == |xs|
    ensures |r| <= |xs|
    decreases |xs|
  {
    if |xs| == 0 then []
    else
      var n := |xs| - 1;
      DeviceValues(ids[..n], xs[..n], d) + (if ids[n] == d && xs[n].Num? then [xs[n].x] else [])
  }

  /** The last row adds its value when it belongs to `d` and is present. */
  lemma DeviceValuesStep(ids: seq<string>, xs: seq<Value>, d: string, pids: seq<string>, pxs: seq<Value>, lastId: string, lastX: Value)
    requires |ids| == |xs| > 0 && pids == ids[..|xs| - 1] && pxs == xs[..|xs| - 1]
    requires lastId == ids[|xs| - 1] && lastX == xs[|xs| - 1]
    ensures DeviceValues(ids, xs, d) == DeviceValues(pids, pxs, d) + (if lastId == d && lastX.Num? then [lastX.x] else [])
  {
  }

  lemma AppendAssoc(a: seq<real>, b: seq<real>, c: seq<real>)
    ensures (a + b) + c == a + (b + c)
  {
  }

  /** A device's values depend only on its own rows. */
  lemma {:induction false} DeviceValuesConcat(ids1: seq<string>, xs1: seq<Value>, ids2: seq<string>, xs2: seq<Value>, d: string)
    requires |ids1| == |xs1| && |ids2| == |xs2|
    ensures DeviceValues(ids1 + ids2, xs1 + xs2, d) == DeviceValues(ids1, xs1, d) + DeviceValues(ids2, xs2, d)
    decreases |xs2|
  {
    if |xs2| == 0 {
      assert ids1 + ids2 == ids1 && xs1 + xs2 == xs1;
    } else {
      var n := |xs2| - 1;
      var m := |xs1| + n;
      assert (ids1 + ids2)[..m] == ids1 + ids2[..n];
      assert (xs1 + xs2)[..m] == xs1 + xs2[..n];
      assert (ids1 + ids2)[m] == ids2[n] && (xs1 + xs2)[m] == xs2[n];
      DeviceValuesConcat(ids1, xs1, ids2[..n], xs2[..n], d);
      var tail := if ids2[n] == d && xs2[n].Num? then [xs2[n].x] else [];
      DeviceValuesStep(ids1 + ids2, xs1 + xs2, d, ids1 + ids2[..n], xs1 + xs2[..n], ids2[n], xs2[n]);
      DeviceValuesStep(ids2, xs2, d, ids2[..n], xs2[..n], ids2[n], xs2[n]);
      AppendAssoc(DeviceValues(ids1, xs1, d), DeviceValues(ids2[..n], xs2[..n], d), tail);
    }
  }

  /** Rows of other devices contribute nothing. */
  lemma {:induction false} DeviceValuesOther(ids: seq<string>, xs: seq<Value>, d: string)
    requires |ids| == |xs| && forall k :: 0 <= k < |ids| ==> ids[k] != d
    ensures DeviceValues(ids, xs, d) == []
    decreases |xs|
  {
    if |xs| > 0 {
      DeviceValuesOther(ids[..|xs| - 1], xs[..|xs| - 1], d);
    }
  }

  /** A device's values are the present cells of its rows. */
  lemma {:induction false} DeviceValuesMembers(ids: seq<string>, xs: seq<Value>, d: string)
    requires |ids| == |xs|
    ensures forall v :: v in DeviceValues(ids, xs, d) ==> exists k :: 0 <= k < |xs| && ids[k] == d && xs[k] == Num(v)
    decreases |xs|
  {
    if |xs| > 0 {
      var n := |xs| - 1;
      DeviceValuesMembers(ids[..n], xs[..n], d);
    }
  }

  /** `sqrt` is a square root on the non-negative reals (real arithmetic has none built in, so the
      library's square root is a parameter). */
  ghost predicate IsSqrt(sqrt: real -> real)
  {
    forall v :: v >= 0.0 ==> sqrt(v) >= 0.0 && sqrt(v) * sqrt(v) == v
  }

  /** `x.std(ddof=0)`; None is NaN (no present value in the group). */
  function PopStd(vals: seq<real>, sqrt: real -> real): (r: Option<real>)
    ensures r.None? <==> vals == []
    ensures (forall x :: x >= 0.0 ==> sqrt(x) >= 0.0) ==> (r.Some? ==> r.value >= 0.0)
  {
    if vals == [] then None else Some(sqrt(PopVar(vals)))
  }

  /** `(x - mu) / sigma` on one cell, NaN staying NaN. */
  function Standardise(x: Value, mu: real, sigma: real): (z: Value)
    requires sigma != 0.0
    ensures z.Num? <==> x.Num?
  {
    if x.Num? then Num((x.x - mu) / sigma) else Missing
  }

  /** The z-score of one cell given its device's values: 0.0 when the standard deviation is 0 or
      NaN, whatever the cell holds; otherwise `(x - mu) / sigma`, NaN staying NaN. */
  function ZOf(x: Value, vals: seq<real>, sqrt: real -> real): (z: Value)
    ensures PopStd(vals, sqrt).None? || PopStd(vals, sqrt).value == 0.0 ==> z == Num(0.0)
    ensures PopStd(vals, sqrt).Some? && PopStd(vals, sqrt).value != 0.0 ==>
      z == Standardise(x, Mean(vals), PopStd(vals, sqrt).value)
  {
    var sigma := PopStd(vals, sqrt);
    if sigma.None? || sigma.value == 0.0 then Num(0.0)
    else Standardise(x, Mean(vals), sigma.value)
  }

  /** The `<col>_z` column: each row normalised by the statistics of its own device. */
  function ZColumn(ids: seq<string>, xs: seq<Value>, sqrt: real -> real): (r: seq<Value>)
    requires |ids| == |xs|
    ensures |r| == |xs|
  {
    seq(|xs|, i requires 0 <= i < |xs| => ZOf(xs[i], DeviceValues(ids, xs, ids[i]), sqrt))
  }

  // ---------------------------------------------------------------------------
  // Arithmetic over sums.

  lemma {:induction false} SumAffine(xs: seq<real>, ys: seq<real>, a: real, b: real)
    requires |ys| == |xs| && forall k :: 0 <= k < |xs| ==> ys[k] == a * xs[k] + b
    ensures Sum(ys) == a * Sum(xs) + |xs| as real * b
    decreases |xs|
  {
    if |xs| > 0 {
      var n := |xs| - 1;
      SumAffine(xs[..n], ys[..n], a, b);
      assert a * (Sum(xs[..n]) + xs[n]) == a * Sum(xs[..n]) + a * xs[n];
    }
  }

  /** `ys` is `xs` multiplied by `a`, element by element. */
  predicate MultipleOf(ys: seq<real>, xs: seq<real>, a: real)
  {
    |ys| == |xs| && forall k :: 0 <= k < |xs| ==> ys[k] == a * xs[k]
  }

  lemma MultipleOfPrefix(ys: seq<real>, xs: seq<real>, a: real, n: int)
    requires MultipleOf(ys, xs, a) && 0 <= n <= |xs|
    ensures MultipleOf(ys[..n], xs[..n], a)
  {
    forall k | 0 <= k < n ensures ys[..n][k] == a * xs[..n][k] {
      assert ys[..n][k] == ys[k] && xs[..n][k] == xs[k];
    }
  }

  lemma ScaleStep(a: real, s: real, x: real, t: real, y: real)
    requires t == a * s && y == a * x
    ensures t + y == a * (s + x)
  {
  }

  lemma {:induction false} SumScale(xs: seq<real>, ys: seq<real>, a: real)
    requires MultipleOf(ys, xs, a)
    ensures Sum(ys) == a * Sum(xs)
    decreases |xs|
  {
    if |xs| > 0 {
      var n := |xs| - 1;
      MultipleOfPrefix(ys, xs, a, n);
      SumScale(xs[..n], ys[..n], a);
      ScaleStep(a, Sum(xs[..n]), xs[n], Sum(ys[..n]), ys[n]);
    }
  }

  /** A constant sample has population variance 0. */
  lemma PopVarConst(vals: seq<real>, c: real)
    requires |vals| > 0 && forall k :: 0 <= k < |vals| ==> vals[k] == c
    ensures Mean(vals) == c && PopVar(vals) == 0.0
  {
    SumAffine(vals, vals, 1.0, 0.0);
    var ones := seq(|vals|, _ => 0.0);
    SumAffine(ones, vals, 0.0, c);
    assert Mean(vals) == c;
    var d := SqDevs(vals, c);
    SumAffine(ones, d, 0.0, 0.0);
  }

  lemma SquarePos(s: real)
    requires s > 0.0
    ensures s * s > 0.0
  {
  }

  lemma SqrtZero(sqrt: real -> real)
    requires IsSqrt(sqrt)
    ensures sqrt(0.0) == 0.0
  {
    var s := sqrt(0.0);
    assert s >= 0.0 && s * s == 0.0;
    if s > 0.0 {
      calc {
        0.0;
      ==
        s * s;
      >
        { SquarePos(s); }
        0.0;
      }
    }
  }

  // ---------------------------------------------------------------------------
  // Promises of the z-score.

  /** When every present value of a device is the same, every row of that device gets z = 0.0,
      never NaN; this includes a device without any present value. */
  lemma ZConstantIsZero(ids: seq<string>, xs: seq<Value>, sqrt: real -> real, c: real, i: int)
    requires IsSqrt(sqrt) && |ids| == |xs| && 0 <= i < |xs|
    requires forall k :: 0 <= k < |xs| && ids[k] == ids[i] && xs[k].Num? ==> xs[k].x == c
    ensures ZColumn(ids, xs, sqrt)[i] == Num(0.0)
  {
    var vals := DeviceValues(ids, xs, ids[i]);
    if vals != [] {
      DeviceValuesMembers(ids, xs, ids[i]);
      forall k | 0 <= k < |vals| ensures vals[k] == c {
        assert vals[k] in vals;
      }
      PopVarConst(vals, c);
      SqrtZero(sqrt);
    }
  }

  /** `[5, 5, 5, 5, 5]` for one device gives z = 0.0 on every row. */
  lemma ZFivesExample(sqrt: real -> real, i: int)
    requires IsSqrt(sqrt) && 0 <= i < 5
    ensures ZColumn(["d", "d", "d", "d", "d"], [Num(5.0), Num(5.0), Num(5.0), Num(5.0), Num(5.0)], sqrt)[i] == Num(0.0)
  {
    ZConstantIsZero(["d", "d", "d", "d", "d"], [Num(5.0), Num(5.0), Num(5.0), Num(5.0), Num(5.0)], sqrt, 5.0, i);
  }

  /** Adding rows of other devices leaves a device's z-scores as they were. */
  lemma ZOnlyOwnDevice(ids: seq<string>, xs: seq<Value>, ids2: seq<string>, xs2: seq<Value>, sqrt: real -> real, i: int)
    requires |ids| == |xs| && |ids2| == |xs2| && 0 <= i < |xs|
    requires forall k :: 0 <= k < |ids2| ==> ids2[k] != ids[i]
    ensures ZColumn(ids + ids2, xs + xs2, sqrt)[i] == ZColumn(ids, xs, sqrt)[i]
  {
    DeviceValuesConcat(ids, xs, ids2, xs2, ids[i]);
    DeviceValuesOther(ids2, xs2, ids[i]);
    assert DeviceValues(ids, xs, ids[i]) + [] == DeviceValues(ids, xs, ids[i]);
    assert (ids + ids2)[i] == ids[i] && (xs + xs2)[i] == xs[i];
  }

  /** `z` is `v` shifted by `mu` and scaled by `1 / sigma`, element by element. */
  predicate Scaled(z: seq<real>, v: seq<real>, mu: real, sigma: real)
  {
    sigma != 0.0 && |z| == |v| && forall k :: 0 <= k < |v| ==> z[k] == (v[k] - mu) / sigma
  }

  /** On the rows of one device, the present z values are the device's values shifted by `mu` and
      scaled by `1 / sigma`. */
  lemma {:induction false} DeviceValuesOfZ(ids: seq<string>, xs: seq<Value>, zs: seq<Value>, d: string, mu: real, sigma: real)
    requires RowsScaled(ids, xs, zs, d, mu, sigma)
    ensures Scaled(DeviceValues(ids, zs, d), DeviceValues(ids, xs, d), mu, sigma)
    decreases |xs|
  {
    if |xs| > 0 {
      var n := |xs| - 1;
      DeviceValuesOfZ(ids[..n], xs[..n], zs[..n], d, mu, sigma);
    }
  }

  lemma AffineOfQuotient(x: real, mu: real, sigma: real)
    requires sigma != 0.0
    ensures (x - mu) / sigma == (1.0 / sigma) * x + (-mu / sigma)
  {
  }

  lemma ScaledIsAffine(z: seq<real>, v: seq<real>, mu: real, sigma: real)
    requires Scaled(z, v, mu, sigma)
    ensures forall k :: 0 <= k < |v| ==> z[k] == (1.0 / sigma) * v[k] + (-mu / sigma)
  {
    forall k | 0 <= k < |v| ensures z[k] == (1.0 / sigma) * v[k] + (-mu / sigma) {
      AffineOfQuotient(v[k], mu, sigma);
    }
  }

  lemma MeanZeroArith(t: real, tz: real, n: real, mu: real, sigma: real)
    requires n > 0.0 && sigma != 0.0 && t / n == mu && tz == (1.0 / sigma) * t + n * (-mu / sigma)
    ensures tz / n == 0.0
  {
    QuotientScale(t, n, mu);
    assert (1.0 / sigma) * (mu * n) == n * (mu / sigma);
  }

  /** Shifting by the mean and dividing by a non-zero `sigma` gives mean 0. */
  lemma ShiftedMeanZero(v: seq<real>, z: seq<real>, sigma: real)
    requires |v| > 0 && sigma != 0.0 && Scaled(z, v, Mean(v), sigma)
    ensures Mean(z) == 0.0
  {
    var mu := Mean(v);
    assert Sum(z) == (1.0 / sigma) * Sum(v) + |v| as real * (-mu / sigma) by {
      ScaledIsAffine(z, v, mu, sigma);
      SumAffine(v, z, 1.0 / sigma, -mu / sigma);
    }
    MeanZeroArith(Sum(v), Sum(z), |v| as real, mu, sigma);
  }

  lemma SquareOfQuotient(a: real, e: real, sigma: real, c: real)
    requires sigma != 0.0 && a == e / sigma && c == 1.0 / (sigma * sigma)
    ensures (a - 0.0) * (a - 0.0) == c * (e * e)
  {
  }

  lemma QuotientScale(t: real, n: real, q: real)
    requires n > 0.0 && t / n == q
    ensures t == q * n
  {
  }

  lemma ScaleBack(s2: real, n: real)
    requires s2 != 0.0 && n > 0.0
    ensures ((1.0 / s2) * (s2 * n) + n * 0.0) / n == 1.0
  {
  }

  lemma ScaledSquares(z: seq<real>, v: seq<real>, mu: real, sigma: real, c: real)
    requires Scaled(z, v, mu, sigma) && c == 1.0 / (sigma * sigma)
    ensures MultipleOf(SqDevs(z, 0.0), SqDevs(v, mu), c)
  {
    forall k | 0 <= k < |SqDevs(v, mu)| ensures SqDevs(z, 0.0)[k] == c * SqDevs(v, mu)[k] {
      SquareOfQuotient(z[k], v[k] - mu, sigma, c);
    }
  }

  /** The squared deviations of `z` from 0 are those of `v` from `mu`, divided by `sigma * sigma`. */
  lemma SumScaledSquares(z: seq<real>, v: seq<real>, mu: real, sigma: real, c: real)
    requires Scaled(z, v, mu, sigma) && c == 1.0 / (sigma * sigma)
    ensures Sum(SqDevs(z, 0.0)) == c * Sum(SqDevs(v, mu))
  {
    ScaledSquares(z, v, mu, sigma, c);
    SumScale(SqDevs(v, mu), SqDevs(z, 0.0), c);
  }

  lemma SquareNonZero(sigma: real)
    requires sigma != 0.0
    ensures sigma * sigma != 0.0
  {
  }

  lemma VarianceOneArith(tz: real, tv: real, nz: real, nv: real, s2: real, c: real)
    requires nv > 0.0 && nz == nv && s2 != 0.0 && tv / nv == s2 && c == 1.0 / s2 && tz == c * tv
    ensures tz / nz == 1.0
  {
    QuotientScale(tv, nv, s2);
    ScaleBack(s2, nv);
  }

  /** Dividing the deviations by the population standard deviation gives variance 1. */
  lemma ScaledVarianceOne(v: seq<real>, z: seq<real>, sigma: real)
    requires |v| > 0 && sigma != 0.0 && sigma * sigma == PopVar(v) && Scaled(z, v, Mean(v), sigma)
    requires Mean(z) == 0.0
    ensures PopVar(z) == 1.0
  {
    SquareNonZero(sigma);
    SumScaledSquares(z, v, Mean(v), sigma, 1.0 / (sigma * sigma));
    VarianceOneArith(Sum(SqDevs(z, 0.0)), Sum(SqDevs(v, Mean(v))), |z| as real, |v| as real, sigma * sigma, 1.0 / (sigma * sigma));
  }

  lemma ZOfOnDevice(x: Value, vals: seq<real>, sqrt: real -> real, mu: real, sigma: real, z: Value)
    requires PopStd(vals, sqrt) == Some(sigma) && sigma != 0.0 && vals != [] && mu == Mean(vals)
    requires z == ZOf(x, vals, sqrt)
    ensures z == Standardise(x, mu, sigma)
  {
  }

  /** On the rows of device `d`, `zs` is `xs` shifted by `mu` and scaled by `1 / sigma`, NaN
      staying NaN. */
  predicate RowsScaled(ids: seq<string>, xs: seq<Value>, zs: seq<Value>, d: string, mu: real, sigma: real)
  {
    && |ids| == |xs| && |zs| == |xs| && sigma != 0.0
    && forall k :: 0 <= k < |xs| && ids[k] == d ==> zs[k] == Standardise(xs[k], mu, sigma)
  }

  /** A row of device `d` is normalised with the values of `d`. */
  lemma ZColumnOnDevice(ids: seq<string>, xs: seq<Value>, sqrt: real -> real, d: string, k: int)
    requires |ids| == |xs| && 0 <= k < |xs| && ids[k] == d
    ensures ZColumn(ids, xs, sqrt)[k] == ZOf(xs[k], DeviceValues(ids, xs, d), sqrt)
  {
  }

  /** On the rows of device `d`, the z column is `(x - mu) / sigma` with the device's own statistics. */
  lemma ZOnDevice(ids: seq<string>, xs: seq<Value>, sqrt: real -> real, d: string, mu: real, sigma: real)
    requires |ids| == |xs|
    requires PopStd(DeviceValues(ids, xs, d), sqrt) == Some(sigma) && sigma != 0.0
    requires mu == Mean(DeviceValues(ids, xs, d))
    ensures RowsScaled(ids, xs, ZColumn(ids, xs, sqrt), d, mu, sigma)
  {
    forall k | 0 <= k < |xs| && ids[k] == d
      ensures ZColumn(ids, xs, sqrt)[k] == Standardise(xs[k], mu, sigma)
    {
      ZColumnOnDevice(ids, xs, sqrt, d, k);
      ZOfOnDevice(xs[k], DeviceValues(ids, xs, d), sqrt, mu, sigma, ZColumn(ids, xs, sqrt)[k]);
    }
  }

  /** Population mean 0 and variance 1. */
  predicate Standardised(z: seq<real>)
  {
    |z| > 0 && Mean(z) == 0.0 && PopVar(z) == 1.0
  }

  /** Any column related row by row to `xs` as `(x - mu) / sigma` on the rows of `d`, with the
      device's own mean and standard deviation, is standardised on that device. */
  lemma StandardisedOnDevice(ids: seq<string>, xs: seq<Value>, zs: seq<Value>, d: string, mu: real, sigma: real)
    requires RowsScaled(ids, xs, zs, d, mu, sigma) && |DeviceValues(ids, xs, d)| > 0
    requires mu == Mean(DeviceValues(ids, xs, d)) && sigma * sigma == PopVar(DeviceValues(ids, xs, d))
    ensures Standardised(DeviceValues(ids, zs, d))
  {
    var v := DeviceValues(ids, xs, d);
    DeviceValuesOfZ(ids, xs, zs, d, mu, sigma);
    var z := DeviceValues(ids, zs, d);
    ShiftedMeanZero(v, z, sigma);
    ScaledVarianceOne(v, z, sigma);
  }

  /** Where a device's standard deviation is not 0, its present z values have mean 0 and
      population variance 1. */
  lemma ZStandardised(ids: seq<string>, xs: seq<Value>, sqrt: real -> real, d: string)
    requires IsSqrt(sqrt) && |ids| == |xs|
    requires PopStd(DeviceValues(ids, xs, d), sqrt).Some? && PopStd(DeviceValues(ids, xs, d), sqrt).value != 0.0
    ensures Standardised(DeviceValues(ids, ZColumn(ids, xs, sqrt), d))
  {
    var v := DeviceValues(ids, xs, d);
    var sigma := sqrt(PopVar(v));
    assert sigma * sigma == PopVar(v);
    ZOnDevice(ids, xs, sqrt, d, Mean(v), sigma);
    StandardisedOnDevice(ids, xs, ZColumn(ids, xs, sqrt), d, Mean(v), sigma);
  }

  // ---------------------------------------------------------------------------
  // The column loop.

  /** A frame for normalisation: the device id of each row and the numeric columns by name. */
  datatype ZFrame = ZFrame(ids: seq<string>, columns: map<string, seq<Value>>)

  predicate WellFormed(f: ZFrame)
  {
    forall c :: c in f.columns ==> |f.columns[c]| == |f.ids|
  }

  function ZName(c: string): string { c + "_z" }

  /** The columns after the loop has handled `cols`: a column that is present gets its `_z`
      companion, computed from the column as it is at that point; an absent one is skipped. */
  function AddZ(ids: seq<string>, m: map<string, seq<Value>>, cols: seq<string>, sqrt: real -> real): (r: map<string, seq<Value>>)
    requires forall c :: c in m ==> |m[c]| == |ids|
    ensures forall c :: c in r ==> |r[c]| == |ids|
    decreases |cols|
  {
    if cols == [] then m
    else
      var n := |cols| - 1;
      var prev := AddZ(ids, m, cols[..n], sqrt);
      if cols[n] in prev then prev[ZName(cols[n]) := ZColumn(ids, prev[cols[n]], sqrt)] else prev
  }

  /** `add_per_device_zscore`: the loop over `cols`, adding one `_z` column per present column. */
  method AddPerDeviceZScore(f: ZFrame, cols: seq<string>, sqrt: real -> real) returns (r: ZFrame)
    requires WellFormed(f)
    ensures WellFormed(r) && r.ids == f.ids
    ensures r.columns == AddZ(f.ids, f.columns, cols, sqrt)
  {
    var m := f.columns;
    var i := 0;
    while i < |cols|
      invariant 0 <= i <= |cols|
      invariant m == AddZ(f.ids, f.columns, cols[..i], sqrt)
    {
      assert cols[..i + 1][..i] == cols[..i];
      var c := cols[i];
      if c in m {
        m := m[ZName(c) := ZColumn(f.ids, m[c], sqrt)];
      }
      i := i + 1;
    }
    assert cols[..|cols|] == cols;
    r := ZFrame(f.ids, m);
  }

  /** The loop only adds `_z` columns: every column it returns was there or is the `_z` of a
      listed column, and every column that is not such a `_z` name keeps its cells. */
  lemma {:induction false} AddZFrame(ids: seq<string>, m: map<string, seq<Value>>, cols: seq<string>, sqrt: real -> real)
    requires forall c :: c in m ==> |m[c]| == |ids|
    ensures var r := AddZ(ids, m, cols, sqrt);
      && m.Keys <= r.Keys
      && (forall k :: k in r ==> k in m || exists j :: 0 <= j < |cols| && k == ZName(cols[j]))
      && (forall k :: k in m && (forall j :: 0 <= j < |cols| ==> k != ZName(cols[j])) ==> r[k] == m[k])
    decreases |cols|
  {
    if cols != [] {
      var n := |cols| - 1;
      AddZFrame(ids, m, cols[..n], sqrt);
      var prev := AddZ(ids, m, cols[..n], sqrt);
      forall k | k in AddZ(ids, m, cols, sqrt)
        ensures k in m || exists j :: 0 <= j < |cols| && k == ZName(cols[j])
      {
        if k !in prev {
          assert k == ZName(cols[n]);
        } else if k !in m {
          var j :| 0 <= j < n && k == ZName(cols[..n][j]);
          assert k == ZName(cols[j]);
        }
      }
    }
  }

  /** A listed column present from the start, and not itself the `_z` of a listed column, gets
      the z-scores of its own cells. */
  lemma AddZOfColumn(ids: seq<string>, m: map<string, seq<Value>>, cols: seq<string>, sqrt: real -> real, c: string)
    requires forall k :: k in m ==> |m[k]| == |ids|
    requires c in m && c in cols
    requires forall j :: 0 <= j < |cols| ==> c != ZName(cols[j])
    ensures ZName(c) in AddZ(ids, m, cols, sqrt)
    ensures AddZ(ids, m, cols, sqrt)[ZName(c)] == ZColumn(ids, m[c], sqrt)
  {
    assert cols[..|cols|] == cols;
    AddZLast(ids, m, cols, sqrt, c, |cols|);
  }

  lemma {:induction false} AddZLast(ids: seq<string>, m: map<string, seq<Value>>, cols: seq<string>, sqrt: real -> real, c: string, n: int)
    requires forall k :: k in m ==> |m[k]| == |ids|
    requires c in m && 0 <= n <= |cols| && c in cols[..n]
    requires forall j :: 0 <= j < |cols| ==> c != ZName(cols[j])
    ensures ZName(c) in AddZ(ids, m, cols[..n], sqrt)
    ensures AddZ(ids, m, cols[..n], sqrt)[ZName(c)] == ZColumn(ids, m[c], sqrt)
    decreases n
  {
    var pre := cols[..n];
    var p := n - 1;
    assert pre[..p] == cols[..p];
    AddZFrame(ids, m, cols[..p], sqrt);
    var prev := AddZ(ids, m, cols[..p], sqrt);
    assert forall j :: 0 <= j < p ==> c != ZName(cols[..p][j]);
    assert prev[c] == m[c];
    if cols[p] == c {
    } else {
      assert c in cols[..p] by {
        var j :| 0 <= j < n && pre[j] == c;
        assert j < p;
        assert cols[..p][j] == c;
      }
      AddZLast(ids, m, cols, sqrt, c, p);
      if cols[p] in prev {
        assert ZName(cols[p]) != ZName(c) by {
          assert ZName(cols[p])[..|cols[p]|] == cols[p];
          if |cols[p]| == |c| {
            assert ZName(c)[..|c|] == c;
          }
        }
      }
    }
  }
}
