/** Network throughput, battery energy, energy per bit and the battery cost of traffic (BoT),
    after src/core/throughput_energy.py. */
module ThroughputEnergy {
  import opened Values
  import opened Order
  import opened Stats
  import opened Telemetry

  /** The inverse-law energy-per-bit coefficients (nJ per bit). */
  const AlphaTx: real := 446.0
  const BetaTx: real := 3.381132
  const AlphaRx: real := 357.5443
  const BetaRx: real := 1.969068

  /** A float that division can make infinite: the throughput and BoT columns divide by a gap or
      a mean voltage that may be 0. */
  datatype Ext = NaN | Fin(x: real) | PosInf | NegInf

  /** IEEE division `a / b`: a zero divisor gives a signed infinity, or NaN for 0 / 0. */
  function Quotient(a: real, b: real): (r: Ext)
    ensures b != 0.0 ==> r == Fin(a / b)
    ensures b == 0.0 ==> (r == PosInf <==> a > 0.0) && (r == NegInf <==> a < 0.0) && (r == NaN <==> a == 0.0)
  {
    if b != 0.0 then Fin(a / b)
    else if a > 0.0 then PosInf
    else if a < 0.0 then NegInf
    else NaN
  }

  /** Division by a positive constant, which leaves infinities and NaN as they are. */
  function DivBy(e: Ext, c: real): (r: Ext)
    requires c > 0.0
    ensures r.Fin? <==> e.Fin?
    ensures e.Fin? ==> r.x == e.x / c
  {
    match e
    case Fin(x) => Fin(x / c)
    case _ => e
  }

  // ---------------------------------------------------------------------------
  // calculate_throughput

  /** One output row of `calculate_throughput`: the raw sample and the columns added to it. */
  datatype ThroughputRow = ThroughputRow(
    sample: Sample,
    deltaT: real,             // seconds since the device's previous kept row
    deltaTx: real,
    deltaRx: real,
    uploadBps: Ext,
    downloadBps: Ext,
    totalBps: Ext,
    uploadMbps: Ext,
    downloadMbps: Ext,
    totalMbps: Ext)

  predicate HasBytes(s: Sample)
  {
    s.txTotalBytes.Num? && s.rxTotalBytes.Num?
  }

  /** `dropna(subset=["tx_total_bytes", "rx_total_bytes"])`, keeping the order. */
  function WithBytes(rows: seq<Sample>): (r: seq<Sample>)
    ensures |r| <= |rows|
    ensures forall s :: s in r <==> s in rows && HasBytes(s)
    ensures forall i :: 0 <= i < |r| ==> HasBytes(r[i])
    decreases |rows|
  {
    if rows == [] then []
    else (if HasBytes(rows[0]) then [rows[0]] else []) + WithBytes(rows[1..])
  }

  /** Dropping rows keeps a sorted frame sorted. */
  lemma {:induction false} WithBytesSorted(rows: seq<Sample>)
    requires SortedByKey(rows)
    ensures SortedByKey(WithBytes(rows))
    decreases |rows|
  {
    if rows != [] {
      assert SortedByKey(rows[1..]);
      WithBytesSorted(rows[1..]);
      var t := WithBytes(rows[1..]);
      forall j | 0 <= j < |t|
        ensures KeyLe(rows[0], t[j])
      {
        assert t[j] in rows[1..];
        var k :| 0 <= k < |rows[1..]| && rows[1..][k] == t[j];
        assert rows[k + 1] == t[j];
      }
    }
  }

  /** The columns computed from a kept row and the previous kept row of its device. */
  function ThroughputOf(prev: Sample, cur: Sample): (r: ThroughputRow)
    requires HasBytes(prev) && HasBytes(cur)
    ensures r.sample == cur
    ensures r.deltaT == (cur.createdAt - prev.createdAt) as real
  {
    var dt := (cur.createdAt - prev.createdAt) as real;
    var dtx := cur.txTotalBytes.x - prev.txTotalBytes.x;
    var drx := cur.rxTotalBytes.x - prev.rxTotalBytes.x;
    var up := Quotient(dtx * 8.0, dt);
    var down := Quotient(drx * 8.0, dt);
    var total := Quotient((dtx + drx) * 8.0, dt);
    ThroughputRow(cur, dt, dtx, drx, up, down, total,
      DivBy(up, 1000000.0), DivBy(down, 1000000.0), DivBy(total, 1000000.0))
  }

  /** Rates are byte differences times 8 over the gap; with a non-zero gap the total is the sum
      of upload and download, with a zero gap no rate is finite; Mbit/s is bit/s over 10^6. */
  lemma ThroughputRates(prev: Sample, cur: Sample)
    requires HasBytes(prev) && HasBytes(cur)
    ensures var r := ThroughputOf(prev, cur);
      && r.deltaTx == cur.txTotalBytes.x - prev.txTotalBytes.x
      && r.deltaRx == cur.rxTotalBytes.x - prev.rxTotalBytes.x
      && (r.deltaT != 0.0 ==>
            && r.uploadBps == Fin(r.deltaTx * 8.0 / r.deltaT)
            && r.downloadBps == Fin(r.deltaRx * 8.0 / r.deltaT)
            && r.totalBps == Fin(r.uploadBps.x + r.downloadBps.x))
      && (r.deltaT == 0.0 ==> !r.totalBps.Fin? && !r.uploadBps.Fin? && !r.downloadBps.Fin?)
      && r.uploadMbps == DivBy(r.uploadBps, 1000000.0)
      && r.downloadMbps == DivBy(r.downloadBps, 1000000.0)
      && r.totalMbps == DivBy(r.totalBps, 1000000.0)
  {
    var r := ThroughputOf(prev, cur);
    if r.deltaT != 0.0 {
      assert (r.deltaTx + r.deltaRx) * 8.0 / r.deltaT == r.deltaTx * 8.0 / r.deltaT + r.deltaRx * 8.0 / r.deltaT;
    }
  }

  /** The grouped `diff()` and the second `dropna`: the kept rows that survive are those with an
      earlier kept row of their device, which on a sorted frame is the row just before them. */
  function Survivors(kept: seq<Sample>): (r: seq<nat>)
    ensures |r| <= |kept|
    ensures forall j :: 0 <= j < |r| ==> 0 < r[j] < |kept| && HasPrevInDevice(kept, r[j])
    decreases |kept|
  {
    if |kept| == 0 then []
    else
      var n := |kept| - 1;
      Survivors(kept[..n]) + (if HasPrevInDevice(kept, n) then [n] else [])
  }

  /** A kept row survives exactly when it has a predecessor in its device ... */
  lemma {:induction false} SurvivorsIff(kept: seq<Sample>, i: int)
    ensures i in Survivors(kept) <==> 0 < i < |kept| && HasPrevInDevice(kept, i)
    decreases |kept|
  {
    if |kept| > 0 {
      var n := |kept| - 1;
      SurvivorsIff(kept[..n], i);
      if 0 < i < n {
        assert HasPrevInDevice(kept[..n], i) == HasPrevInDevice(kept, i);
      }
    }
  }

  /** ... and the survivors keep their order. */
  lemma {:induction false} SurvivorsIncreasing(kept: seq<Sample>, j: int, k: int)
    requires 0 <= j < k < |Survivors(kept)|
    ensures Survivors(kept)[j] < Survivors(kept)[k]
    decreases |kept|
  {
    var n := |kept| - 1;
    var init := Survivors(kept[..n]);
    if k < |init| {
      SurvivorsIncreasing(kept[..n], j, k);
    } else {
      assert init[j] < |kept[..n]|;
    }
  }

  function ThroughputRows(kept: seq<Sample>): (r: seq<ThroughputRow>)
    requires forall i :: 0 <= i < |kept| ==> HasBytes(kept[i])
    ensures |r| == |Survivors(kept)|
  {
    var idx := Survivors(kept);
    seq(|idx|, j requires 0 <= j < |idx| => ThroughputOf(kept[idx[j] - 1], kept[idx[j]]))
  }

  /** Every output row comes from a kept row with a predecessor in its device ... */
  lemma ThroughputRowsIndex(kept: seq<Sample>, t: ThroughputRow) returns (i: int)
    requires forall i :: 0 <= i < |kept| ==> HasBytes(kept[i])
    requires t in ThroughputRows(kept)
    ensures 0 < i < |kept| && HasPrevInDevice(kept, i) && t == ThroughputOf(kept[i - 1], kept[i])
  {
    var idx := Survivors(kept);
    var r := ThroughputRows(kept);
    var j :| 0 <= j < |r| && r[j] == t;
    i := idx[j];
  }

  /** ... and every such kept row gives an output row. */
  lemma ThroughputRowsHas(kept: seq<Sample>, i: int)
    requires forall i :: 0 <= i < |kept| ==> HasBytes(kept[i])
    requires 0 < i < |kept| && HasPrevInDevice(kept, i)
    ensures ThroughputOf(kept[i - 1], kept[i]) in ThroughputRows(kept)
  {
    var idx := Survivors(kept);
    SurvivorsIff(kept, i);
    var j :| 0 <= j < |idx| && idx[j] == i;
    assert ThroughputRows(kept)[j] == ThroughputOf(kept[i - 1], kept[i]);
  }

  /** The output rows are exactly the kept rows that have a predecessor in their device. */
  lemma ThroughputRowsMembers(kept: seq<Sample>, t: ThroughputRow)
    requires forall i :: 0 <= i < |kept| ==> HasBytes(kept[i])
    ensures t in ThroughputRows(kept) <==>
      exists i :: 0 < i < |kept| && HasPrevInDevice(kept, i) && t == ThroughputOf(kept[i - 1], kept[i])
  {
    if t in ThroughputRows(kept) {
      var i := ThroughputRowsIndex(kept, t);
    }
    if exists i :: 0 < i < |kept| && HasPrevInDevice(kept, i) && t == ThroughputOf(kept[i - 1], kept[i]) {
      var i :| 0 < i < |kept| && HasPrevInDevice(kept, i) && t == ThroughputOf(kept[i - 1], kept[i]);
      ThroughputRowsHas(kept, i);
    }
  }

  /** `calculate_throughput`: None comes back as None, an empty frame as no rows, and a frame
      without both byte counters raises, which the handler turns into None. */
  function CalculateThroughput(f: Option<Frame>): (r: Option<seq<ThroughputRow>>)
    ensures f.None? ==> r.None?
    ensures f.Some? && |f.value.rows| == 0 ==> r == Some([])
    ensures f.Some? && |f.value.rows| > 0 ==>
      (r.Some? <==> TxTotalBytes in f.value.columns && RxTotalBytes in f.value.columns)
  {
    match BaseGuard(f)
    case None => None
    case Some(g) =>
      if |g.rows| == 0 then Some([])
      else if TxTotalBytes !in g.columns || RxTotalBytes !in g.columns then None
      else Some(ThroughputRows(WithBytes(g.rows)))
  }

  /** On sorted kept rows, every throughput row comes from one of them at a gap that is never
      negative, and with a positive gap the total rate is the sum of upload and download. */
  lemma ThroughputRowFacts(kept: seq<Sample>, t: ThroughputRow)
    requires SortedByKey(kept) && forall i :: 0 <= i < |kept| ==> HasBytes(kept[i])
    requires t in ThroughputRows(kept)
    ensures t.sample in kept
    ensures t.deltaT >= 0.0
    ensures t.deltaT > 0.0 ==> t.totalBps == Fin(t.uploadBps.x + t.downloadBps.x)
    ensures t.totalMbps == DivBy(t.totalBps, 1000000.0)
  {
    var i := ThroughputRowsIndex(kept, t);
    SortedDeviceTime(kept, i - 1, i);
    ThroughputRates(kept[i - 1], kept[i]);
    assert t.sample == kept[i];
  }

  /** Every row `calculate_throughput` returns is an input sample with both byte counters, at a
      gap that is never negative; with a positive gap the total rate is upload plus download. */
  lemma CalculateThroughputRows(f: Option<Frame>, t: ThroughputRow)
    requires CalculateThroughput(f).Some? && t in CalculateThroughput(f).value
    ensures f.Some? && t.sample in f.value.rows && HasBytes(t.sample)
    ensures t.deltaT >= 0.0
    ensures t.deltaT > 0.0 ==> t.totalBps == Fin(t.uploadBps.x + t.downloadBps.x)
    ensures t.totalMbps == DivBy(t.totalBps, 1000000.0)
  {
    var g := BaseGuard(f).value;
    assert |g.rows| > 0;
    var kept := WithBytes(g.rows);
    assert CalculateThroughput(f).value == ThroughputRows(kept);
    WithBytesSorted(g.rows);
    ThroughputRowFacts(kept, t);
    assert t.sample in g.rows;
    assert t.sample in multiset(g.rows);
  }

  /** Two kept samples of one device with the same timestamp are not dropped: the row survives
      with a zero gap and a rate that is infinite or NaN. */
  lemma ZeroGapKept(kept: seq<Sample>, i: int)
    requires forall j :: 0 <= j < |kept| ==> HasBytes(kept[j])
    requires 0 < i < |kept| && kept[i - 1].deviceId == kept[i].deviceId
    requires kept[i - 1].createdAt == kept[i].createdAt
    ensures var t := ThroughputOf(kept[i - 1], kept[i]);
      t in ThroughputRows(kept) && t.deltaT == 0.0 && !t.totalBps.Fin?
  {
    ThroughputRowsHas(kept, i);
  }

  function ByteSample(t: int, tx: real, rx: real): Sample
  {
    Sample("dev", t, Missing, Missing, Missing, Missing, Missing, Missing, Num(tx), Num(rx), None)
  }

  function ExampleRows(): seq<Sample>
  {
    [ByteSample(0, 0.0, 0.0), ByteSample(10, 1000.0, 500.0), ByteSample(20, 3000.0, 1500.0)]
  }

  /** The example frame is already sorted ... */
  lemma ExampleSorted()
    ensures SortRows(ExampleRows()) == ExampleRows()
  {
    var rows := ExampleRows();
    forall i, j | 0 <= i < j < |rows|
      ensures KeyLe(rows[i], rows[j])
    {
      assert rows[i].deviceId == rows[j].deviceId && rows[i].createdAt <= rows[j].createdAt;
    }
    SortRowsSorted(rows);
  }

  /** ... and has every byte counter. */
  lemma ExampleKept()
    ensures WithBytes(ExampleRows()) == ExampleRows()
  {
    var rows := ExampleRows();
    assert WithBytes(rows[2..]) == rows[2..];
    assert WithBytes(rows[1..]) == rows[1..];
  }

  /** Only the first example row is dropped. */
  lemma ExampleSurvivors()
    ensures Survivors(ExampleRows()) == [1, 2]
  {
    var rows := ExampleRows();
    assert rows[..2][..1] == rows[..1];
    assert Survivors(rows[..1]) == [];
    assert Survivors(rows[..2]) == [1];
  }

  /** One example step: 10 seconds, upload and download byte differences `dtx` and `drx`, which
      give `up` and `down` bit/s and `total` Mbit/s. */
  lemma ExampleStep(prev: Sample, cur: Sample, dtx: real, drx: real, up: real, down: real, total: real)
    requires HasBytes(prev) && HasBytes(cur)
    requires cur.createdAt == prev.createdAt + 10
    requires cur.txTotalBytes.x - prev.txTotalBytes.x == dtx
    requires cur.rxTotalBytes.x - prev.rxTotalBytes.x == drx
    requires up == dtx * 0.8 && down == drx * 0.8 && total == (dtx + drx) * 0.0000008
    ensures var r := ThroughputOf(prev, cur);
      && r.uploadBps == Fin(up) && r.downloadBps == Fin(down) && r.totalMbps == Fin(total)
  {
    ThroughputRates(prev, cur);
  }

  lemma ExampleThroughputRows()
    ensures var rows := ExampleRows();
      ThroughputRows(rows) == [ThroughputOf(rows[0], rows[1]), ThroughputOf(rows[1], rows[2])]
  {
    ExampleSurvivors();
  }

  lemma ExampleCalculated()
    ensures var rows := ExampleRows();
      CalculateThroughput(Some(Frame({TxTotalBytes, RxTotalBytes}, rows))) == Some(ThroughputRows(rows))
  {
    ExampleSorted();
    ExampleKept();
  }

  /** The example's output is one row per step. */
  lemma ExampleRowsOut()
    ensures var rows := ExampleRows();
      CalculateThroughput(Some(Frame({TxTotalBytes, RxTotalBytes}, rows)))
        == Some([ThroughputOf(rows[0], rows[1]), ThroughputOf(rows[1], rows[2])])
  {
    ExampleThroughputRows();
    ExampleCalculated();
  }

  /** tx = [0, 1000, 3000] and rx = [0, 500, 1500] bytes at 10-second steps give total rates of
      0.0012 and 0.0024 Mbit/s, and the first row is dropped. */
  lemma ThroughputExample()
    ensures var r := CalculateThroughput(Some(Frame({TxTotalBytes, RxTotalBytes}, ExampleRows())));
      && r.Some? && |r.value| == 2
      && r.value[0].totalMbps == Fin(0.0012) && r.value[1].totalMbps == Fin(0.0024)
      && r.value[0].uploadBps == Fin(800.0) && r.value[1].downloadBps == Fin(800.0)
  {
    var rows := ExampleRows();
    ExampleRowsOut();
    ExampleStep(rows[0], rows[1], 1000.0, 500.0, 800.0, 400.0, 0.0012);
    ExampleStep(rows[1], rows[2], 2000.0, 1000.0, 1600.0, 800.0, 0.0024);
  }

  // ---------------------------------------------------------------------------
  // calculate_energy_consumption

  /** One output row of `calculate_energy_consumption`. */
  datatype EnergyRow = EnergyRow(
    sample: Sample,
    deltaT: Value,            // missing on the device's first row
    voltageV: Value,
    currentA: Value,
    energyWh: Value)

  /** The columns added to row `i` of the sorted frame. Energy is V · A · s / 3600, and any missing
      factor, including the first row's gap, makes it missing. */
  function EnergyOf(rows: seq<Sample>, i: int): (r: EnergyRow)
    requires 0 <= i < |rows|
    ensures r.sample == rows[i]
    ensures r.deltaT.Num? <==> HasPrevInDevice(rows, i)
    ensures r.deltaT.Num? ==> r.deltaT.x == (rows[i].createdAt - rows[i - 1].createdAt) as real
    ensures r.voltageV.Num? <==> rows[i].battVoltageMv.Num?
    ensures r.voltageV.Num? ==> r.voltageV.x == rows[i].battVoltageMv.x / 1000.0
    ensures r.currentA.Num? <==> rows[i].currentAvgUa.Num?
    ensures r.currentA.Num? ==> r.currentA.x == rows[i].currentAvgUa.x / 1000000.0
    ensures r.energyWh.Num? <==> r.deltaT.Num? && r.voltageV.Num? && r.currentA.Num?
    ensures r.energyWh.Num? ==> r.energyWh.x == r.voltageV.x * r.currentA.x * r.deltaT.x / 3600.0
  {
    var s := rows[i];
    var dt := if HasPrevInDevice(rows, i) then Num((s.createdAt - rows[i - 1].createdAt) as real) else Missing;
    var v := if s.battVoltageMv.Num? then Num(s.battVoltageMv.x / 1000.0) else Missing;
    var a := if s.currentAvgUa.Num? then Num(s.currentAvgUa.x / 1000000.0) else Missing;
    var e := if dt.Num? && v.Num? && a.Num? then Num(v.x * a.x * dt.x / 3600.0) else Missing;
    EnergyRow(s, dt, v, a, e)
  }

  /** `calculate_energy_consumption`: None as None, an empty frame as no rows, and a frame without
      voltage or current raises, which the handler turns into None. Every row is kept. */
  function CalculateEnergy(f: Option<Frame>): (r: Option<seq<EnergyRow>>)
    ensures f.None? ==> r.None?
    ensures f.Some? && |f.value.rows| == 0 ==> r == Some([])
    ensures f.Some? && |f.value.rows| > 0 ==>
      (r.Some? <==> BattVoltageMv in f.value.columns && CurrentAvgUa in f.value.columns)
    ensures r.Some? ==> |r.value| == |f.value.rows|
    ensures r.Some? && |f.value.rows| > 0 ==>
      forall i :: 0 <= i < |r.value| ==> r.value[i] == EnergyOf(SortRows(f.value.rows), i)
  {
    match BaseGuard(f)
    case None => None
    case Some(g) =>
      if |g.rows| == 0 then Some([])
      else if BattVoltageMv !in g.columns || CurrentAvgUa !in g.columns then None
      else Some(seq(|g.rows|, i requires 0 <= i < |g.rows| => EnergyOf(g.rows, i)))
  }

  /** Energy is undefined on the first row of every device. */
  lemma EnergyFirstRowMissing(f: Option<Frame>, i: int)
    requires CalculateEnergy(f).Some? && 0 <= i < |CalculateEnergy(f).value|
    requires !HasPrevInDevice(SortRows(f.value.rows), i)
    ensures CalculateEnergy(f).value[i].energyWh == Missing
  {
  }

  // ---------------------------------------------------------------------------
  // The merge and the energy per bit.

  /** A row of the inner join of the throughput and energy tables on (device, timestamp). */
  datatype JoinRow = JoinRow(
    deviceId: string,
    createdAt: int,
    totalBps: Ext,
    totalMbps: Ext,
    voltageV: Value,
    energyWh: Value,
    tempC: Value)

  predicate SameKey(t: ThroughputRow, e: EnergyRow)
  {
    t.sample.deviceId == e.sample.deviceId && t.sample.createdAt == e.sample.createdAt
  }

  function JoinOf(t: ThroughputRow, e: EnergyRow): JoinRow
  {
    JoinRow(t.sample.deviceId, t.sample.createdAt, t.totalBps, t.totalMbps, e.voltageV, e.energyWh,
      e.sample.battTempC)
  }

  /** The energy rows matching one throughput row, in order. */
  function Matches(t: ThroughputRow, eng: seq<EnergyRow>): (r: seq<JoinRow>)
    ensures forall j :: j in r <==> exists e :: e in eng && SameKey(t, e) && j == JoinOf(t, e)
    decreases |eng|
  {
    if eng == [] then []
    else
      assert eng == [eng[0]] + eng[1..];
      (if SameKey(t, eng[0]) then [JoinOf(t, eng[0])] else []) + Matches(t, eng[1..])
  }

  /** `pd.merge(..., how="inner")`: every pair of rows with equal keys, in the left table's order. */
  function Join(thr: seq<ThroughputRow>, eng: seq<EnergyRow>): (r: seq<JoinRow>)
    ensures (forall t, e :: t in thr && e in eng ==> !SameKey(t, e)) ==> r == []
    decreases |thr|
  {
    if thr == [] then []
    else
      var m := Matches(thr[0], eng);
      assert m != [] ==> m[0] in m;
      assert forall t :: t in thr[1..] ==> t in thr;
      m + Join(thr[1..], eng)
  }

  /** A merged row exists exactly for a throughput row and an energy row with the same key. */
  lemma {:induction false} JoinMembers(thr: seq<ThroughputRow>, eng: seq<EnergyRow>, j: JoinRow)
    ensures j in Join(thr, eng) <==>
      exists t, e :: t in thr && e in eng && SameKey(t, e) && j == JoinOf(t, e)
    decreases |thr|
  {
    if thr != [] {
      JoinMembers(thr[1..], eng, j);
      assert thr == [thr[0]] + thr[1..];
      if exists t, e :: t in thr && e in eng && SameKey(t, e) && j == JoinOf(t, e) {
        var t, e :| t in thr && e in eng && SameKey(t, e) && j == JoinOf(t, e);
        if t != thr[0] {
          assert t in thr[1..];
        }
      }
    }
  }

  function JoinKeyLe(a: JoinRow, b: JoinRow): bool
  {
    KeyBefore(a.deviceId, a.createdAt, b.deviceId, b.createdAt)
  }

  lemma JoinKeyLePreorder()
    ensures TotalPreorder(JoinKeyLe)
  {
    forall a: JoinRow, b: JoinRow ensures JoinKeyLe(a, b) || JoinKeyLe(b, a) {
      KeyBeforeOrder(a.deviceId, a.createdAt, b.deviceId, b.createdAt, a.deviceId, a.createdAt);
    }
    forall a: JoinRow, b: JoinRow, c: JoinRow | JoinKeyLe(a, b) && JoinKeyLe(b, c) ensures JoinKeyLe(a, c) {
      KeyBeforeOrder(a.deviceId, a.createdAt, b.deviceId, b.createdAt, c.deviceId, c.createdAt);
    }
  }

  /** The merge followed by `sort_values([device_id, created_at])`. */
  function Merge(thr: seq<ThroughputRow>, eng: seq<EnergyRow>): (r: seq<JoinRow>)
    ensures SortedBy(r, JoinKeyLe)
    ensures multiset(r) == multiset(Join(thr, eng))
  {
    JoinKeyLePreorder();
    SortBy(Join(thr, eng), JoinKeyLe)
  }

  /** `replace(0, np.nan)`. */
  function ZeroToNaN(e: Ext): (r: Ext)
    ensures r != Fin(0.0)
    ensures e != Fin(0.0) ==> r == e
  {
    if e == Fin(0.0) then NaN else e
  }

  function ZerosToNaN(s: seq<Ext>): (r: seq<Ext>)
    ensures |r| == |s|
    ensures forall i :: 0 <= i < |s| ==> r[i] == ZeroToNaN(s[i])
  {
    seq(|s|, i requires 0 <= i < |s| => ZeroToNaN(s[i]))
  }

  /** The zero replacement, in place on the throughput column. */
  method ReplaceZeros(a: array<Ext>)
    modifies a
    ensures a[..] == ZerosToNaN(old(a[..]))
  {
    var i := 0;
    while i < a.Length
      invariant 0 <= i <= a.Length
      invariant forall j :: 0 <= j < i ==> a[j] == ZeroToNaN(old(a[j]))
      invariant forall j :: i <= j < a.Length ==> a[j] == old(a[j])
    {
      if a[i] == Fin(0.0) {
        a[i] := NaN;
      }
      i := i + 1;
    }
  }

  /** `alpha / bps + beta` on a throughput that is never 0: NaN stays missing and an infinite
      throughput leaves `beta`. */
  function EnergyPerBit(bps: Ext, alpha: real, beta: real): (r: Value)
    requires bps != Fin(0.0)
    ensures r.Num? <==> !bps.NaN?
  {
    match bps
    case NaN => Missing
    case Fin(x) => Num(alpha / x + beta)
    case _ => Num(beta)
  }

  /** nJ to J. */
  function Joules(v: Value): (r: Value)
    ensures r.Num? <==> v.Num?
  {
    if v.Num? then Num(v.x * 0.000000001) else Missing
  }

  function AvgOf(a: Value, b: Value): (r: Value)
    ensures r.Num? <==> a.Num? && b.Num?
    ensures r.Num? ==> (a.x <= b.x ==> a.x <= r.x <= b.x) && (b.x <= a.x ==> b.x <= r.x <= a.x)
  {
    if a.Num? && b.Num? then Num((a.x + b.x) / 2.0) else Missing
  }

  /** `batt_voltage_v.mean()`, which skips missing cells and is NaN when none is present. */
  function MeanVoltage(rows: seq<JoinRow>): (r: Value)
    ensures r.Num? <==> exists i :: 0 <= i < |rows| && rows[i].voltageV.Num?
  {
    var col := seq(|rows|, i requires 0 <= i < |rows| => rows[i].voltageV);
    var vs := Present(col);
    PresentEmptyIff(col);
    assert forall i :: 0 <= i < |rows| ==> col[i] == rows[i].voltageV;
    if vs == [] then Missing else Num(Mean(vs))
  }

  const BotScale: real := 8000000000.0 * (1000.0 / 3600.0)

  /** `(epb_avg_J * 8e9 / V_avg) * (1000 / 3600)`: mAh per Gbit/s. */
  function BotOf(epb: Value, vAvg: Value): (r: Ext)
    ensures r.Fin? <==> epb.Num? && vAvg.Num? && vAvg.x != 0.0
  {
    if epb.Missing? || vAvg.Missing? then NaN
    else match Quotient(epb.x * 8000000000.0, vAvg.x)
      case Fin(y) => Fin(y * (1000.0 / 3600.0))
      case other => other
  }

  /** The table `calculate_throughput_energy_and_bot` returns: the merged rows and the columns added
      to them. `vAvg` is the local mean voltage, not a column. */
  datatype BotTable = BotTable(
    rows: seq<JoinRow>,
    totalBps: seq<Ext>,       // after the zero replacement
    epbTx: seq<Value>,
    epbRx: seq<Value>,
    epbTxJ: seq<Value>,
    epbRxJ: seq<Value>,
    epbAvgJ: seq<Value>,
    vAvg: Value,
    bot: seq<Ext>)

  /** None (given, or from a raised error), the empty frame as it came, or the merged table. */
  datatype BotResult = NoFrame | Unchanged(frame: Frame) | Merged(table: BotTable)

  /** The columns computed from the merged rows. */
  function BotColumns(rows: seq<JoinRow>): (t: BotTable)
    ensures t.rows == rows && t.vAvg == MeanVoltage(rows)
    ensures |t.totalBps| == |rows| && |t.epbAvgJ| == |rows| && |t.bot| == |rows|
    ensures forall i :: 0 <= i < |rows| ==> (t.bot[i].Fin? ==> t.vAvg.Num? && t.vAvg.x != 0.0)
  {
    var bps := ZerosToNaN(seq(|rows|, i requires 0 <= i < |rows| => rows[i].totalBps));
    var tx := seq(|bps|, i requires 0 <= i < |bps| => EnergyPerBit(bps[i], AlphaTx, BetaTx));
    var rx := seq(|bps|, i requires 0 <= i < |bps| => EnergyPerBit(bps[i], AlphaRx, BetaRx));
    var txJ := seq(|tx|, i requires 0 <= i < |tx| => Joules(tx[i]));
    var rxJ := seq(|rx|, i requires 0 <= i < |rx| => Joules(rx[i]));
    var avg := seq(|txJ|, i requires 0 <= i < |txJ| => AvgOf(txJ[i], rxJ[i]));
    var v := MeanVoltage(rows);
    BotTable(rows, bps, tx, rx, txJ, rxJ, avg, v, seq(|avg|, i requires 0 <= i < |avg| => BotOf(avg[i], v)))
  }

  /** `calculate_throughput_energy_and_bot`. Either sub-calculation failing, or a frame without
      `batt_temp_c`, makes the column selection raise; the handler turns that into None. */
  function ThroughputEnergyAndBot(f: Option<Frame>): (r: BotResult)
    ensures f.None? ==> r == NoFrame
    ensures f.Some? && |f.value.rows| == 0 ==> r == Unchanged(f.value)
    ensures r.Merged? ==>
      && f.Some? && BattTempC in f.value.columns
      && CalculateThroughput(f).Some? && CalculateEnergy(f).Some?
    ensures (f.Some? && |f.value.rows| > 0 && BattTempC in f.value.columns
             && CalculateThroughput(f).Some? && CalculateEnergy(f).Some?) ==>
      r.Merged? && r.table.rows == Merge(CalculateThroughput(f).value, CalculateEnergy(f).value)
    ensures r.Merged? ==> r.table == BotColumns(r.table.rows)
  {
    match BaseGuard(f)
    case None => NoFrame
    case Some(g) =>
      BaseGuardIdempotent(f);
      if |g.rows| == 0 then Unchanged(g)
      else
        var thr := CalculateThroughput(Some(g));
        var eng := CalculateEnergy(Some(g));
        if thr.None? || eng.None? || BattTempC !in g.columns then NoFrame
        else Merged(BotColumns(Merge(thr.value, eng.value)))
  }

  /** The table's rows are the sorted inner join of the two sub-calculations on the raw frame: a row
      is merged exactly when it pairs a throughput row and an energy row with the same
      (device, time) key. */
  lemma MergedFromBoth(f: Option<Frame>, j: JoinRow)
    requires ThroughputEnergyAndBot(f).Merged?
    ensures j in ThroughputEnergyAndBot(f).table.rows <==> exists t, e ::
      t in CalculateThroughput(f).value && e in CalculateEnergy(f).value && SameKey(t, e) && j == JoinOf(t, e)
  {
    var thr := CalculateThroughput(f).value;
    var eng := CalculateEnergy(f).value;
    var rows := ThroughputEnergyAndBot(f).table.rows;
    assert rows == Merge(thr, eng);
    assert j in rows <==> j in multiset(Join(thr, eng));
    JoinMembers(thr, eng, j);
  }

  /** The method form: the merged rows, then the in-place zero replacement, then the energy per bit
      and BoT columns one after another. */
  method CalculateThroughputEnergyAndBot(f: Option<Frame>) returns (r: BotResult)
    ensures r == ThroughputEnergyAndBot(f)
  {
    var guarded := BaseGuard(f);
    if guarded.None? {
      return NoFrame;
    }
    var g := guarded.value;
    if |g.rows| == 0 {
      return Unchanged(g);
    }
    var thr := CalculateThroughput(Some(g));
    var eng := CalculateEnergy(Some(g));
    if thr.None? || eng.None? || BattTempC !in g.columns {
      return NoFrame;
    }
    var rows := Merge(thr.value, eng.value);
    var t := BotStage(rows);
    r := Merged(t);
  }

  method BotStage(rows: seq<JoinRow>) returns (t: BotTable)
    ensures t == BotColumns(rows)
  {
    var a := new Ext[|rows|](i requires 0 <= i < |rows| => rows[i].totalBps);
    ReplaceZeros(a);
    var bps := a[..];
    var tx := seq(|bps|, i requires 0 <= i < |bps| => EnergyPerBit(bps[i], AlphaTx, BetaTx));
    var rx := seq(|bps|, i requires 0 <= i < |bps| => EnergyPerBit(bps[i], AlphaRx, BetaRx));
    var txJ := seq(|tx|, i requires 0 <= i < |tx| => Joules(tx[i]));
    var rxJ := seq(|rx|, i requires 0 <= i < |rx| => Joules(rx[i]));
    var avg := seq(|txJ|, i requires 0 <= i < |txJ| => AvgOf(txJ[i], rxJ[i]));
    var v := MeanVoltage(rows);
    var bot := seq(|avg|, i requires 0 <= i < |avg| => BotOf(avg[i], v));
    t := BotTable(rows, bps, tx, rx, txJ, rxJ, avg, v, bot);
  }

  // ---------------------------------------------------------------------------
  // Promises of the energy-per-bit columns.

  /** Energy per bit is missing exactly where the merged throughput was 0 or NaN. */
  lemma EpbMissingIff(bps: Ext, alpha: real, beta: real)
    ensures EnergyPerBit(ZeroToNaN(bps), alpha, beta).Missing? <==> bps == Fin(0.0) || bps == NaN
  {
  }

  /** For positive throughputs, more throughput means less energy per bit, in both directions. */
  lemma EpbDecreasing(x: real, y: real)
    requires 0.0 < x < y
    ensures EnergyPerBit(Fin(y), AlphaTx, BetaTx).x < EnergyPerBit(Fin(x), AlphaTx, BetaTx).x
    ensures EnergyPerBit(Fin(y), AlphaRx, BetaRx).x < EnergyPerBit(Fin(x), AlphaRx, BetaRx).x
  {
    InverseDecreasing(AlphaTx, x, y);
    InverseDecreasing(AlphaRx, x, y);
  }

  lemma InverseDecreasing(a: real, x: real, y: real)
    requires a > 0.0 && 0.0 < x < y
    ensures a / y < a / x
  {
    assert a / x - a / y == a * (y - x) / (x * y);
    assert a * (y - x) > 0.0;
    assert x * y > 0.0;
  }

  /** Row by row, the table's columns follow the merged throughput: energy per bit is missing
      exactly where it was 0 or NaN, the average lies between the upload and download values, and
      BoT is defined exactly where the average and a non-zero mean voltage are. */
  lemma BotColumnsAt(rows: seq<JoinRow>, i: int)
    requires 0 <= i < |rows|
    ensures var t := BotColumns(rows);
      && |t.totalBps| == |rows| && |t.epbAvgJ| == |rows| && |t.bot| == |rows|
      && (t.epbTx[i].Missing? <==> rows[i].totalBps == Fin(0.0) || rows[i].totalBps == NaN)
      && (t.epbRx[i].Missing? <==> rows[i].totalBps == Fin(0.0) || rows[i].totalBps == NaN)
      && (t.epbAvgJ[i].Num? <==> t.epbTx[i].Num?)
      && (t.epbAvgJ[i].Num? ==>
            && (t.epbTxJ[i].x <= t.epbRxJ[i].x ==> t.epbTxJ[i].x <= t.epbAvgJ[i].x <= t.epbRxJ[i].x)
            && (t.epbRxJ[i].x <= t.epbTxJ[i].x ==> t.epbRxJ[i].x <= t.epbAvgJ[i].x <= t.epbTxJ[i].x))
      && (t.bot[i].Fin? <==> t.epbAvgJ[i].Num? && t.vAvg.Num? && t.vAvg.x != 0.0)
  {
  }

  /** BoT of a present average and a non-zero voltage. */
  lemma BotOfScale(e: real, v: real)
    requires v != 0.0
    ensures BotOf(Num(e), Num(v)) == Fin(e * (BotScale / v))
  {
    assert e * 8000000000.0 / v * (1000.0 / 3600.0) == e * (BotScale / v);
  }

  /** With a non-zero mean voltage, BoT is one constant times the average energy per bit. */
  lemma BotProportional(rows: seq<JoinRow>, i: int)
    requires 0 <= i < |rows|
    requires MeanVoltage(rows).Num? && MeanVoltage(rows).x != 0.0
    requires BotColumns(rows).epbAvgJ[i].Num?
    ensures var t := BotColumns(rows);
      t.bot[i] == Fin(t.epbAvgJ[i].x * (BotScale / t.vAvg.x))
  {
    var t := BotColumns(rows);
    assert t.bot[i] == BotOf(t.epbAvgJ[i], t.vAvg);
    BotOfScale(t.epbAvgJ[i].x, t.vAvg.x);
  }
}
