/** `make_lstm_features` of src/core/feature_engineering.py: the SoH estimator run on every device
    group, the throughput and energy table left-joined onto its rows by (device, time), and the
    aging features computed on the joined frame. */
module LstmFeatures {
  import opened Values
  import opened Order
  import opened Telemetry
  import opened SohCycles
  import opened ThroughputEnergy
  import opened AgingFeatures

  // ---------------------------------------------------------------------------
  // The device groups of `groupby(device_id)`, visited in sorted key order.

  predicate StrLt(a: string, b: string)
  {
    StrLe(a, b) && a != b
  }

  lemma StrLtTrans(a: string, b: string, c: string)
    requires StrLt(a, b) && StrLt(b, c)
    ensures StrLt(a, c)
  {
    StrLeTrans(a, b, c);
    if a == c {
      StrLeAntisym(a, b);
    }
  }

  predicate StrictlyIncreasing(s: seq<string>)
  {
    forall i, j :: 0 <= i < j < |s| ==> StrLt(s[i], s[j])
  }

  function InsertDevice(d: string, s: seq<string>): (r: seq<string>)
    requires StrictlyIncreasing(s)
    ensures StrictlyIncreasing(r)
    ensures forall x :: x in r <==> x in s || x == d
    decreases |s|
  {
    if s == [] then [d]
    else if d == s[0] then s
    else if StrLe(d, s[0]) then
      assert forall j :: 0 <= j < |s| ==> StrLt(d, s[j]) by {
        forall j | 0 <= j < |s| ensures StrLt(d, s[j]) {
          if j > 0 { StrLtTrans(d, s[0], s[j]); }
        }
      }
      [d] + s
    else
      StrLeTotal(d, s[0]);
      var t := InsertDevice(d, s[1..]);
      assert forall j :: 0 <= j < |t| ==> StrLt(s[0], t[j]) by {
        forall j | 0 <= j < |t| ensures StrLt(s[0], t[j]) {
          if t[j] != d {
            assert t[j] in s[1..];
            var m :| 0 <= m < |s[1..]| && s[1..][m] == t[j];
            assert s[m + 1] == t[j];
          }
        }
      }
      [s[0]] + t
  }

  /** The group keys: every device of the frame once, in increasing order. */
  function Devices(rows: seq<Sample>): (r: seq<string>)
    ensures StrictlyIncreasing(r)
    ensures forall i :: 0 <= i < |rows| ==> rows[i].deviceId in r
    ensures forall d :: d in r ==> exists i :: 0 <= i < |rows| && rows[i].deviceId == d
    decreases |rows|
  {
    if rows == [] then []
    else
      var n := |rows| - 1;
      var r := InsertDevice(rows[n].deviceId, Devices(rows[..n]));
      assert forall d :: d in r ==> exists i :: 0 <= i < |rows| && rows[i].deviceId == d by {
        forall d | d in r ensures exists i :: 0 <= i < |rows| && rows[i].deviceId == d {
          if d != rows[n].deviceId {
            var i :| 0 <= i < n && rows[..n][i].deviceId == d;
            assert rows[i].deviceId == d;
          }
        }
      }
      assert forall i :: 0 <= i < |rows| ==> rows[i].deviceId in r by {
        forall i | 0 <= i < |rows| ensures rows[i].deviceId in r {
          if i < n { assert rows[..n][i] == rows[i]; }
        }
      }
      r
  }

  /** One device's group, its rows in their original order. */
  function RowsOf(rows: seq<Sample>, d: string): (r: seq<Sample>)
    ensures forall x :: x in r <==> x in rows && x.deviceId == d
    decreases |rows|
  {
    if rows == [] then []
    else
      assert forall x :: x in rows <==> x == rows[0] || x in rows[1..];
      (if rows[0].deviceId == d then [rows[0]] else []) + RowsOf(rows[1..], d)
  }

  function GroupFrame(f: Frame, d: string): Frame
  {
    Frame(f.columns, RowsOf(f.rows, d))
  }

  // ---------------------------------------------------------------------------
  // `soh_df`: the estimator on every group, with its default arguments.

  const DefaultC0: int := 5000
  const CycleThreshold: real := 100.0
  const SmoothWindow: int := 3

  /** The estimator on one device's group. */
  function GroupResult(f: Frame, d: string, capacity: map<string, real>): (r: SohResult)
    ensures RowsOf(f.rows, d) == [] ==> r.SohFailed?
    ensures r.SohOk? ==> multiset(r.table.rows) == multiset(RowsOf(f.rows, d))
  {
    SohCycles.SohCycles(GroupFrame(f, d), capacity, DefaultC0, CycleThreshold, SmoothWindow)
  }

  /** The columns of one row of `soh_df` that the rest of the pipeline reads. */
  datatype SohRow = SohRow(sample: Sample, soh: Value, sohSmooth: Value, efc: Value)

  /** The rows one group contributes: none when the estimator failed (the handler's empty frame),
      otherwise its sorted rows with their SoH and EFC cells. */
  function GroupSoh(f: Frame, d: string, capacity: map<string, real>): (r: seq<SohRow>)
    ensures GroupResult(f, d, capacity).SohFailed? ==> r == []
    ensures GroupResult(f, d, capacity).SohOk? ==> |r| == |RowsOf(f.rows, d)|
  {
    var g := GroupFrame(f, d);
    match SohCycles.SohCycles(g, capacity, DefaultC0, CycleThreshold, SmoothWindow)
    case SohFailed => []
    case SohOk(t, _) =>
      SohCyclesShape(g, capacity, DefaultC0, CycleThreshold, SmoothWindow);
      seq(|t.rows|, i requires 0 <= i < |t.rows| => SohRow(t.rows[i], t.soh[i], t.sohSmooth[i], t.efc[i]))
  }

  /** A group that succeeded returns the estimator's rows, a permutation of the group's samples. */
  lemma GroupSohTable(f: Frame, d: string, capacity: map<string, real>)
    requires GroupResult(f, d, capacity).SohOk?
    ensures var t := GroupResult(f, d, capacity).table;
      var r := GroupSoh(f, d, capacity);
      && |r| == |t.rows| && multiset(t.rows) == multiset(RowsOf(f.rows, d))
      && forall i :: 0 <= i < |r| ==> r[i].sample == t.rows[i]
  {
    SohCyclesShape(GroupFrame(f, d), capacity, DefaultC0, CycleThreshold, SmoothWindow);
  }

  lemma GroupSohSample(f: Frame, d: string, capacity: map<string, real>, s: SohRow)
    requires s in GroupSoh(f, d, capacity)
    ensures s.sample in f.rows && s.sample.deviceId == d
  {
    var r := GroupSoh(f, d, capacity);
    var t := GroupResult(f, d, capacity).table;
    GroupSohTable(f, d, capacity);
    var i :| 0 <= i < |r| && r[i] == s;
    assert t.rows[i] in multiset(RowsOf(f.rows, d));
  }

  lemma GroupSohOf(f: Frame, d: string, capacity: map<string, real>, x: Sample) returns (s: SohRow)
    requires GroupResult(f, d, capacity).SohOk?
    requires x in f.rows && x.deviceId == d
    ensures s in GroupSoh(f, d, capacity) && s.sample == x
  {
    var r := GroupSoh(f, d, capacity);
    var t := GroupResult(f, d, capacity).table;
    GroupSohTable(f, d, capacity);
    assert x in multiset(RowsOf(f.rows, d));
    assert x in multiset(t.rows);
    var i :| 0 <= i < |t.rows| && t.rows[i] == x;
    s := r[i];
  }

  /** A group's rows are samples of that device, and a group that succeeded returns every one of
      its samples. */
  lemma GroupSohMembers(f: Frame, d: string, capacity: map<string, real>)
    ensures forall s :: s in GroupSoh(f, d, capacity) ==> s.sample in f.rows && s.sample.deviceId == d
    ensures GroupResult(f, d, capacity).SohOk? ==>
      forall x :: x in f.rows && x.deviceId == d ==> exists s :: s in GroupSoh(f, d, capacity) && s.sample == x
  {
    forall s | s in GroupSoh(f, d, capacity) ensures s.sample in f.rows && s.sample.deviceId == d {
      GroupSohSample(f, d, capacity, s);
    }
    if GroupResult(f, d, capacity).SohOk? {
      forall x | x in f.rows && x.deviceId == d ensures exists s :: s in GroupSoh(f, d, capacity) && s.sample == x {
        var s := GroupSohOf(f, d, capacity, x);
      }
    }
  }

  /** The groups' rows concatenated in the order of `devices`. */
  function SohRowsOver(f: Frame, devices: seq<string>, capacity: map<string, real>): seq<SohRow>
    decreases |devices|
  {
    if devices == [] then [] else GroupSoh(f, devices[0], capacity) + SohRowsOver(f, devices[1..], capacity)
  }

  /** `df_raw.groupby(DEVICE_COL, group_keys=False).apply(calculate_soh_cycles)`. */
  function SohFrameRows(f: Frame, capacity: map<string, real>): (r: seq<SohRow>)
    ensures forall s :: s in r ==> s.sample in f.rows
  {
    SohRowsOverMembers(f, Devices(f.rows), capacity);
    SohRowsOver(f, Devices(f.rows), capacity)
  }

  lemma {:induction false} SohRowsOverMembers(f: Frame, devices: seq<string>, capacity: map<string, real>)
    ensures forall s :: s in SohRowsOver(f, devices, capacity) ==> s.sample in f.rows && s.sample.deviceId in devices
    ensures forall x :: x in f.rows && x.deviceId in devices && GroupResult(f, x.deviceId, capacity).SohOk? ==>
      exists s :: s in SohRowsOver(f, devices, capacity) && s.sample == x
    decreases |devices|
  {
    if devices != [] {
      SohRowsOverMembers(f, devices[1..], capacity);
      GroupSohMembers(f, devices[0], capacity);
      var here := GroupSoh(f, devices[0], capacity);
      var rest := SohRowsOver(f, devices[1..], capacity);
      assert SohRowsOver(f, devices, capacity) == here + rest;
      forall x | x in f.rows && x.deviceId in devices && GroupResult(f, x.deviceId, capacity).SohOk?
        ensures exists s: SohRow :: s in here + rest && s.sample == x
      {
        if x.deviceId == devices[0] {
          var s :| s in here && s.sample == x;
          assert s in here + rest;
        } else {
          assert x.deviceId in devices[1..];
          var s :| s in rest && s.sample == x;
          assert s in here + rest;
        }
      }
    }
  }

  /** A non-empty group contributes rows exactly when its estimate succeeded. */
  lemma GroupSohEmptyIff(f: Frame, d: string, capacity: map<string, real>)
    requires RowsOf(f.rows, d) != []
    ensures GroupSoh(f, d, capacity) == [] <==> GroupResult(f, d, capacity).SohFailed?
  {
  }

  lemma {:induction false} SohRowsOverEmpty(f: Frame, devices: seq<string>, capacity: map<string, real>)
    requires forall d :: d in devices ==> RowsOf(f.rows, d) != []
    ensures SohRowsOver(f, devices, capacity) == [] <==>
      forall d :: d in devices ==> GroupResult(f, d, capacity).SohFailed?
    decreases |devices|
  {
    if devices != [] {
      assert forall d :: d in devices[1..] ==> d in devices;
      SohRowsOverEmpty(f, devices[1..], capacity);
      GroupSohEmptyIff(f, devices[0], capacity);
    }
  }

  /** Every device of the frame is a group key, and every group key has rows. */
  lemma DevicesGroups(rows: seq<Sample>)
    ensures forall x :: x in rows ==> x.deviceId in Devices(rows)
    ensures forall d :: d in Devices(rows) ==> RowsOf(rows, d) != []
  {
    var ds := Devices(rows);
    forall x | x in rows ensures x.deviceId in ds {
      var i :| 0 <= i < |rows| && rows[i] == x;
    }
    forall d | d in ds ensures RowsOf(rows, d) != [] {
      var i :| 0 <= i < |rows| && rows[i].deviceId == d;
      assert rows[i] in RowsOf(rows, d);
    }
  }

  /** Every row of `soh_df` is a sample of the input, and every sample whose device group
      succeeded is in `soh_df`. */
  lemma SohFrameMembers(f: Frame, capacity: map<string, real>)
    ensures forall s :: s in SohFrameRows(f, capacity) ==> s.sample in f.rows
    ensures forall x :: x in f.rows && GroupResult(f, x.deviceId, capacity).SohOk? ==>
      exists s :: s in SohFrameRows(f, capacity) && s.sample == x
  {
    DevicesGroups(f.rows);
    SohRowsOverMembers(f, Devices(f.rows), capacity);
  }

  /** `soh_df` is empty exactly when every device's estimate failed. */
  lemma SohFrameEmptyIff(f: Frame, capacity: map<string, real>)
    ensures SohFrameRows(f, capacity) == [] <==>
      forall x :: x in f.rows ==> GroupResult(f, x.deviceId, capacity).SohFailed?
  {
    var ds := Devices(f.rows);
    DevicesGroups(f.rows);
    SohRowsOverEmpty(f, ds, capacity);
    if forall x :: x in f.rows ==> GroupResult(f, x.deviceId, capacity).SohFailed? {
      forall d | d in ds ensures GroupResult(f, d, capacity).SohFailed? {
        var x := RowsOf(f.rows, d)[0];
        assert x in RowsOf(f.rows, d);
      }
    }
  }

  // ---------------------------------------------------------------------------
  // The columns selected from `te_df`.

  datatype TeRow = TeRow(deviceId: string, createdAt: int, totalBps: Ext, totalMbps: Ext, energyWh: Value,
    epbAvgJ: Value, bot: Ext)

  predicate Aligned(t: BotTable)
  {
    |t.totalBps| == |t.rows| && |t.epbAvgJ| == |t.rows| && |t.bot| == |t.rows|
  }

  lemma MergedAligned(f: Option<Frame>)
    requires ThroughputEnergyAndBot(f).Merged?
    ensures Aligned(ThroughputEnergyAndBot(f).table)
  {
  }

  /** `te_df[[device_id, created_at, throughput_total_bps, throughput_total_mbps, energy_wh,
      energy_per_bit_avg_J, BoT_mAh_per_Gbps]]`. */
  function TeRows(t: BotTable): (r: seq<TeRow>)
    requires Aligned(t)
    ensures |r| == |t.rows|
    ensures forall i :: 0 <= i < |r| ==>
      r[i].deviceId == t.rows[i].deviceId && r[i].createdAt == t.rows[i].createdAt && r[i].epbAvgJ == t.epbAvgJ[i]
  {
    seq(|t.rows|, i requires 0 <= i < |t.rows| =>
      TeRow(t.rows[i].deviceId, t.rows[i].createdAt, t.totalBps[i], t.rows[i].totalMbps, t.rows[i].energyWh,
        t.epbAvgJ[i], t.bot[i]))
  }

  // ---------------------------------------------------------------------------
  // `pd.merge(soh_df, te, on=[device_id, created_at], how="left")`.

  /** A joined row: the SoH row and the matching throughput row, or none (all its cells missing). */
  datatype MergedRow = MergedRow(soh: SohRow, te: Option<TeRow>)

  predicate JoinsWith(s: SohRow, e: TeRow)
  {
    s.sample.deviceId == e.deviceId && s.sample.createdAt == e.createdAt
  }

  function TeMatches(s: SohRow, te: seq<TeRow>): (r: seq<TeRow>)
    ensures forall e :: e in r <==> e in te && JoinsWith(s, e)
    decreases |te|
  {
    if te == [] then []
    else
      assert forall e :: e in te <==> e == te[0] || e in te[1..];
      (if JoinsWith(s, te[0]) then [te[0]] else []) + TeMatches(s, te[1..])
  }

  /** The joined rows of one left row: one per match, in the right table's order, or the row alone. */
  function LeftRows(s: SohRow, te: seq<TeRow>): (r: seq<MergedRow>)
    ensures |r| >= 1
  {
    var m := TeMatches(s, te);
    if m == [] then [MergedRow(s, None)]
    else seq(|m|, i requires 0 <= i < |m| => MergedRow(s, Some(m[i])))
  }

  function LeftJoin(soh: seq<SohRow>, te: seq<TeRow>): (r: seq<MergedRow>)
    ensures |r| >= |soh|
    decreases |soh|
  {
    if soh == [] then [] else LeftRows(soh[0], te) + LeftJoin(soh[1..], te)
  }

  /** The joined row a left row and its possible match make. */
  predicate JoinedFrom(m: MergedRow, soh: seq<SohRow>, te: seq<TeRow>)
  {
    && m.soh in soh
    && (m.te.Some? ==> m.te.value in te && JoinsWith(m.soh, m.te.value))
    && (m.te.None? ==> forall e :: e in te ==> !JoinsWith(m.soh, e))
  }

  lemma LeftRowsMembers(s: SohRow, te: seq<TeRow>, m: MergedRow)
    ensures m in LeftRows(s, te) <==> m.soh == s && JoinedFrom(m, [s], te)
  {
    var ms := TeMatches(s, te);
    if ms != [] && m.soh == s && m.te.Some? && m.te.value in te && JoinsWith(s, m.te.value) {
      var i :| 0 <= i < |ms| && ms[i] == m.te.value;
      assert LeftRows(s, te)[i] == m;
    }
    if ms != [] {
      assert ms[0] in ms;
    }
  }

  /** A left join holds exactly the pairs of a left row with a matching right row, and the left
      rows without any match on their own. */
  lemma {:induction false} LeftJoinMembers(soh: seq<SohRow>, te: seq<TeRow>, m: MergedRow)
    ensures m in LeftJoin(soh, te) <==> JoinedFrom(m, soh, te)
    decreases |soh|
  {
    if soh != [] {
      LeftJoinMembers(soh[1..], te, m);
      LeftRowsMembers(soh[0], te, m);
      assert forall s :: s in soh <==> s == soh[0] || s in soh[1..];
    }
  }

  /** Every left row is kept: with each matching right row, or alone when there is none. */
  lemma LeftJoinKeepsRows(soh: seq<SohRow>, te: seq<TeRow>, s: SohRow)
    requires s in soh
    ensures exists m :: m in LeftJoin(soh, te) && m.soh == s
    ensures (forall e :: e in te ==> !JoinsWith(s, e)) ==> MergedRow(s, None) in LeftJoin(soh, te)
    ensures forall e :: e in te && JoinsWith(s, e) ==> MergedRow(s, Some(e)) in LeftJoin(soh, te)
  {
    forall e | e in te && JoinsWith(s, e) ensures MergedRow(s, Some(e)) in LeftJoin(soh, te) {
      LeftJoinMembers(soh, te, MergedRow(s, Some(e)));
    }
    if forall e :: e in te ==> !JoinsWith(s, e) {
      LeftJoinMembers(soh, te, MergedRow(s, None));
    } else {
      var e :| e in te && JoinsWith(s, e);
      assert MergedRow(s, Some(e)) in LeftJoin(soh, te);
    }
  }

  /** The right table has one row per (device, time) key. */
  predicate UniqueKeys(te: seq<TeRow>)
  {
    forall i, j :: 0 <= i < j < |te| ==> te[i].deviceId != te[j].deviceId || te[i].createdAt != te[j].createdAt
  }

  lemma {:induction false} TeMatchesAtMostOne(s: SohRow, te: seq<TeRow>)
    requires UniqueKeys(te)
    ensures |TeMatches(s, te)| <= 1
    decreases |te|
  {
    if te != [] {
      TeMatchesAtMostOne(s, te[1..]);
      if TeMatches(s, te[1..]) != [] {
        var e := TeMatches(s, te[1..])[0];
        assert e in te[1..];
        var j :| 0 <= j < |te[1..]| && te[1..][j] == e;
        assert te[j + 1] == e;
      }
    }
  }

  /** The join never loses a left row, and with unique right keys it keeps the left table's length. */
  lemma {:induction false} LeftJoinLength(soh: seq<SohRow>, te: seq<TeRow>)
    ensures |LeftJoin(soh, te)| >= |soh|
    ensures UniqueKeys(te) ==> |LeftJoin(soh, te)| == |soh|
    decreases |soh|
  {
    if soh != [] {
      LeftJoinLength(soh[1..], te);
      if UniqueKeys(te) {
        TeMatchesAtMostOne(soh[0], te);
      }
    }
  }

  // ---------------------------------------------------------------------------
  // The frame handed to `add_aging_features`.

  /** The aging inputs of a joined row. No column named `throughput_total_gb` is produced, so that
      cell is missing; the energy per bit comes from the matched throughput row. */
  function AgingRow(m: MergedRow, sohFilled: Value): (a: AgingInput)
    ensures a.deviceId == m.soh.sample.deviceId && a.createdAt == m.soh.sample.createdAt
    ensures a.sohFilled == sohFilled && a.efc == m.soh.efc
    ensures a.epbAvgJ == (if m.te.Some? then m.te.value.epbAvgJ else Missing)
  {
    AgingInput(m.soh.sample.deviceId, m.soh.sample.createdAt, sohFilled, m.soh.efc, m.soh.sample.battTempC,
      Missing, if m.te.Some? then m.te.value.epbAvgJ else Missing)
  }

  /** The aging columns of the joined frame: `EFC` from `soh_df`, `energy_per_bit_avg_J` from
      `te_df`, and `batt_temp_c` when the raw frame has it. */
  function JoinedColumns(f: Frame): (c: set<AgingColumn>)
    ensures EfcCol in c && EpbCol in c && SohFilledCol !in c && TpGbCol !in c
    ensures TempCol in c <==> BattTempC in f.columns
  {
    {EfcCol, EpbCol} + (if BattTempC in f.columns then {TempCol} else {})
  }

  const WinFast: int := 6
  const WinSlow: int := 48

  /** `make_lstm_features` as written. Without a `Merged` throughput table the column selection
      raises, and with an empty `soh_df` the merge finds no key column; the handler turns both
      into None. The joined frame has no `SoH_filled` column, so `add_aging_features` raises too. */
  function MakeLstmFeaturesAsWritten(f: Frame, capacity: map<string, real>): (r: Option<AgingTable>)
    ensures r == None
  {
    var soh := SohFrameRows(f, capacity);
    var te := ThroughputEnergyAndBot(Some(f));
    if !te.Merged? || soh == [] then None
    else
      MergedAligned(Some(f));
      AddAgingFeatures(AgingFrame(JoinedColumns(f), UnfilledRows(LeftJoin(soh, TeRows(te.table)))), WinFast, WinSlow)
  }

  /** The joined rows with nothing in the `SoH_filled` slot. */
  function UnfilledRows(merged: seq<MergedRow>): seq<AgingInput>
  {
    seq(|merged|, i requires 0 <= i < |merged| => AgingRow(merged[i], Missing))
  }

  // ---------------------------------------------------------------------------
  // The pipeline with the SoH proxy filled in.

  /** The continuous SoH proxy: the smoothed SoH where it is present, the raw SoH otherwise. */
  function SohProxy(s: SohRow): (v: Value)
    ensures s.sohSmooth.Num? ==> v == s.sohSmooth
    ensures s.sohSmooth.Missing? ==> v == s.soh
    ensures v.Num? <==> s.sohSmooth.Num? || s.soh.Num?
  {
    if s.sohSmooth.Num? then s.sohSmooth else s.soh
  }

  function JoinedRows(f: Frame, capacity: map<string, real>, t: BotTable): (r: seq<AgingInput>)
    requires Aligned(t)
  {
    var merged := LeftJoin(SohFrameRows(f, capacity), TeRows(t));
    seq(|merged|, i requires 0 <= i < |merged| => AgingRow(merged[i], SohProxy(merged[i].soh)))
  }

  /** The joined frame with its `SoH_filled` column. */
  function JoinedFrame(f: Frame, capacity: map<string, real>, t: BotTable): (af: AgingFrame)
    requires Aligned(t)
    ensures SohFilledCol in af.columns && EfcCol in af.columns
  {
    AgingFrame(JoinedColumns(f) + {SohFilledCol}, JoinedRows(f, capacity, t))
  }

  /** `make_lstm_features` with `SoH_filled` taken from the SoH columns before the aging features. */
  function MakeLstmFeatures(f: Frame, capacity: map<string, real>): (r: Option<AgingTable>)
    ensures r.Some? ==> ThroughputEnergyAndBot(Some(f)).Merged? && SohFrameRows(f, capacity) != []
  {
    var soh := SohFrameRows(f, capacity);
    var te := ThroughputEnergyAndBot(Some(f));
    if !te.Merged? || soh == [] then None
    else
      MergedAligned(Some(f));
      AddAgingFeatures(JoinedFrame(f, capacity, te.table), WinFast, WinSlow)
  }

  /** On success the features are the aging features of the joined frame. */
  lemma LstmFeaturesOfJoined(f: Frame, capacity: map<string, real>)
    requires MakeLstmFeatures(f, capacity).Some?
    ensures Aligned(ThroughputEnergyAndBot(Some(f)).table)
    ensures MakeLstmFeatures(f, capacity)
      == AddAgingFeatures(JoinedFrame(f, capacity, ThroughputEnergyAndBot(Some(f)).table), WinFast, WinSlow)
  {
    MergedAligned(Some(f));
  }

  /** The aging features keep the rows they are given, sorted by (device, time). */
  lemma AgingRowsSorted(af: AgingFrame)
    requires AddAgingFeatures(af, WinFast, WinSlow).Some?
    ensures SortedBy(AddAgingFeatures(af, WinFast, WinSlow).value.rows, AgingKeyLe)
    ensures multiset(AddAgingFeatures(af, WinFast, WinSlow).value.rows) == multiset(af.rows)
  {
  }

  /** The features exist exactly when the throughput table was built and at least one device's
      SoH estimate succeeded. */
  lemma LstmFeaturesSomeIff(f: Frame, capacity: map<string, real>)
    ensures MakeLstmFeatures(f, capacity).Some? <==>
      ThroughputEnergyAndBot(Some(f)).Merged? && exists x :: x in f.rows && GroupResult(f, x.deviceId, capacity).SohOk?
  {
    SohFrameEmptyIff(f, capacity);
  }

  /** The features are the joined rows sorted by (device, time): one or more per SoH row, each with
      that row's EFC and SoH proxy, and the throughput row of the same key or missing cells. */
  lemma LstmFeaturesRows(f: Frame, capacity: map<string, real>)
    requires MakeLstmFeatures(f, capacity).Some?
    ensures var out := MakeLstmFeatures(f, capacity).value;
      var te := ThroughputEnergyAndBot(Some(f)).table;
      && Aligned(te)
      && SortedBy(out.rows, AgingKeyLe)
      && multiset(out.rows) == multiset(JoinedRows(f, capacity, te))
      && |out.rows| >= |SohFrameRows(f, capacity)|
      && (UniqueKeys(TeRows(te)) ==> |out.rows| == |SohFrameRows(f, capacity)|)
  {
    LstmFeaturesOfJoined(f, capacity);
    var te := ThroughputEnergyAndBot(Some(f)).table;
    var af := JoinedFrame(f, capacity, te);
    AgingRowsSorted(af);
    LeftJoinLength(SohFrameRows(f, capacity), TeRows(te));
    assert |MakeLstmFeatures(f, capacity).value.rows| == |af.rows|;
  }

  /** `a` is the aging input of SoH row `s`: same device, time, EFC and SoH proxy, and the energy
      per bit of a throughput row with the same key, or missing when there is none. */
  predicate Carries(a: AgingInput, s: SohRow, te: seq<TeRow>)
  {
    && a.deviceId == s.sample.deviceId && a.createdAt == s.sample.createdAt
    && a.efc == s.efc && a.sohFilled == SohProxy(s)
    && (if exists e :: e in te && JoinsWith(s, e)
        then exists e :: e in te && JoinsWith(s, e) && a.epbAvgJ == e.epbAvgJ
        else a.epbAvgJ == Missing)
  }

  /** Every joined row gives its aging row. */
  lemma JoinedRowAt(f: Frame, capacity: map<string, real>, t: BotTable, m: MergedRow)
    requires Aligned(t) && m in LeftJoin(SohFrameRows(f, capacity), TeRows(t))
    ensures AgingRow(m, SohProxy(m.soh)) in JoinedRows(f, capacity, t)
  {
    var merged := LeftJoin(SohFrameRows(f, capacity), TeRows(t));
    var i :| 0 <= i < |merged| && merged[i] == m;
    assert JoinedRows(f, capacity, t)[i] == AgingRow(m, SohProxy(m.soh));
  }

  /** The joined row a SoH row gives, with its match when there is one. */
  lemma JoinedRowOf(f: Frame, capacity: map<string, real>, t: BotTable, s: SohRow)
    requires Aligned(t) && s in SohFrameRows(f, capacity)
    ensures exists a :: a in JoinedRows(f, capacity, t) && Carries(a, s, TeRows(t))
  {
    var soh := SohFrameRows(f, capacity);
    var tes := TeRows(t);
    if exists e :: e in tes && JoinsWith(s, e) {
      var e :| e in tes && JoinsWith(s, e);
      var m := MergedRow(s, Some(e));
      LeftJoinMembers(soh, tes, m);
      JoinedRowAt(f, capacity, t, m);
      assert Carries(AgingRow(m, SohProxy(s)), s, tes);
    } else {
      var m := MergedRow(s, None);
      LeftJoinMembers(soh, tes, m);
      JoinedRowAt(f, capacity, t, m);
      assert Carries(AgingRow(m, SohProxy(s)), s, tes);
    }
  }

  /** Every SoH row reaches the features: some output row has its device, time, EFC and SoH proxy,
      and an energy per bit from a throughput row of the same key or, without one, missing. */
  lemma LstmFeaturesKeepSoh(f: Frame, capacity: map<string, real>, s: SohRow)
    requires MakeLstmFeatures(f, capacity).Some?
    requires s in SohFrameRows(f, capacity)
    ensures var out := MakeLstmFeatures(f, capacity).value;
      var te := ThroughputEnergyAndBot(Some(f)).table;
      && Aligned(te)
      && exists a :: a in out.rows && Carries(a, s, TeRows(te))
  {
    LstmFeaturesRows(f, capacity);
    var te := ThroughputEnergyAndBot(Some(f)).table;
    var out := MakeLstmFeatures(f, capacity).value;
    JoinedRowOf(f, capacity, te, s);
    var a :| a in JoinedRows(f, capacity, te) && Carries(a, s, TeRows(te));
    assert a in multiset(out.rows);
  }

  lemma FilledFromRow(af: AgingFrame, a: AgingInput)
    requires AddAgingFeatures(af, WinFast, WinSlow).Some?
    requires a in af.rows && a.sohFilled.Num?
    ensures var t := AddAgingFeatures(af, WinFast, WinSlow).value;
      |t.sohFilled| == |t.rows| && forall i :: 0 <= i < |t.rows| ==> t.sohFilled[i].Num?
  {
    var p :| 0 <= p < |af.rows| && af.rows[p] == a;
    SohFilledComplete(af, WinFast, WinSlow, p);
  }

  /** Once any SoH row has a smoothed or raw SoH value, the filled proxy has no missing cell. */
  lemma LstmFeaturesFilled(f: Frame, capacity: map<string, real>, s: SohRow)
    requires MakeLstmFeatures(f, capacity).Some?
    requires s in SohFrameRows(f, capacity) && (s.sohSmooth.Num? || s.soh.Num?)
    ensures var out := MakeLstmFeatures(f, capacity).value;
      |out.sohFilled| == |out.rows| && forall i :: 0 <= i < |out.rows| ==> out.sohFilled[i].Num?
  {
    LstmFeaturesOfJoined(f, capacity);
    var te := ThroughputEnergyAndBot(Some(f)).table;
    var af := JoinedFrame(f, capacity, te);
    JoinedRowOf(f, capacity, te, s);
    var a :| a in af.rows && Carries(a, s, TeRows(te));
    FilledFromRow(af, a);
  }
}
