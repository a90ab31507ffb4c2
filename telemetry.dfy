/** Raw telemetry records, the frame that holds them, and the (device_id, created_at) sort shared by
    `base_guard` (src/core/throughput_energy.py) and `UsageCalculation._base_guard` (src/service/usage_calculation.py). */
module Telemetry {
  import opened Values
  import opened Order

  /** The optional columns of a raw frame; `device_id` and `created_at` are always there. */
  datatype Column =
    | ChargeCounterUah | ChargeCounter | CurrentAvgUa | BatteryLevel
    | BattVoltageMv | BattTempC | TxTotalBytes | RxTotalBytes | FgPkg

  /** One telemetry row. Cells of columns the frame does not have are ignored. */
  datatype Sample = Sample(
    deviceId: string,
    createdAt: int,             // seconds
    chargeCounterUah: Value,    // µAh
    chargeCounter: Value,
    currentAvgUa: Value,        // µA
    batteryLevel: Value,        // percent
    battVoltageMv: Value,       // mV
    battTempC: Value,
    txTotalBytes: Value,
    rxTotalBytes: Value,
    fgPkg: Option<string>)

  datatype Frame = Frame(columns: set<Column>, rows: seq<Sample>)

  /** The order of `sort_values([device_id, created_at])` on the (device, time) key. */
  predicate KeyBefore(d1: string, t1: int, d2: string, t2: int)
  {
    (StrLe(d1, d2) && d1 != d2) || (d1 == d2 && t1 <= t2)
  }

  /** The key order is total and transitive. */
  lemma KeyBeforeOrder(d1: string, t1: int, d2: string, t2: int, d3: string, t3: int)
    ensures KeyBefore(d1, t1, d2, t2) || KeyBefore(d2, t2, d1, t1)
    ensures KeyBefore(d1, t1, d2, t2) && KeyBefore(d2, t2, d3, t3) ==> KeyBefore(d1, t1, d3, t3)
  {
    StrLeTotal(d1, d2);
    if KeyBefore(d1, t1, d2, t2) && KeyBefore(d2, t2, d3, t3) && d1 != d2 && d2 != d3 {
      StrLeTrans(d1, d2, d3);
      if d1 == d3 {
        StrLeAntisym(d1, d2);
      }
    }
  }

  function KeyLe(a: Sample, b: Sample): bool
  {
    KeyBefore(a.deviceId, a.createdAt, b.deviceId, b.createdAt)
  }

  lemma KeyLePreorder()
    ensures TotalPreorder(KeyLe)
  {
    forall a: Sample, b: Sample ensures KeyLe(a, b) || KeyLe(b, a) {
      KeyBeforeOrder(a.deviceId, a.createdAt, b.deviceId, b.createdAt, a.deviceId, a.createdAt);
    }
    forall a: Sample, b: Sample, c: Sample | KeyLe(a, b) && KeyLe(b, c) ensures KeyLe(a, c) {
      KeyBeforeOrder(a.deviceId, a.createdAt, b.deviceId, b.createdAt, c.deviceId, c.createdAt);
    }
  }

  predicate SortedByKey(rows: seq<Sample>)
  {
    SortedBy(rows, KeyLe)
  }

  /** `sort_values([device_id, created_at])` (stable). */
  function SortRows(rows: seq<Sample>): (r: seq<Sample>)
    ensures |r| == |rows|
    ensures SortedByKey(r)
    ensures multiset(r) == multiset(rows)
  {
    KeyLePreorder();
    SortBy(rows, KeyLe)
  }

  lemma SortRowsSorted(rows: seq<Sample>)
    requires SortedByKey(rows)
    ensures SortRows(rows) == rows
  {
    KeyLePreorder();
    SortBySorted(rows, KeyLe);
  }

  /** `base_guard`: None and empty input come back as they are; anything else comes back as a copy
      sorted by (device_id, created_at), with the same rows and the same columns. */
  function BaseGuard(f: Option<Frame>): (r: Option<Frame>)
    ensures f.None? ==> r.None?
    ensures f.Some? && |f.value.rows| == 0 ==> r == f
    ensures f.Some? && |f.value.rows| > 0 ==>
      && r.Some?
      && r.value.columns == f.value.columns
      && SortedByKey(r.value.rows)
      && multiset(r.value.rows) == multiset(f.value.rows)
  {
    if f.None? || |f.value.rows| == 0 then f
    else Some(Frame(f.value.columns, SortRows(f.value.rows)))
  }

  /** Guarding a guarded frame changes nothing. */
  lemma BaseGuardIdempotent(f: Option<Frame>)
    ensures BaseGuard(BaseGuard(f)) == BaseGuard(f)
  {
    if f.Some? && |f.value.rows| > 0 {
      SortRowsSorted(SortRows(f.value.rows));
    }
  }

  /** After the sort, the rows of one device are contiguous ... */
  lemma SortedDeviceContiguous(rows: seq<Sample>, i: int, j: int, k: int)
    requires SortedByKey(rows)
    requires 0 <= i < j < k < |rows| && rows[i].deviceId == rows[k].deviceId
    ensures rows[j].deviceId == rows[i].deviceId
  {
    assert KeyLe(rows[i], rows[j]) && KeyLe(rows[j], rows[k]);
    if rows[j].deviceId != rows[i].deviceId {
      StrLeAntisym(rows[i].deviceId, rows[j].deviceId);
    }
  }

  /** ... and ordered by time. */
  lemma SortedDeviceTime(rows: seq<Sample>, i: int, j: int)
    requires SortedByKey(rows)
    requires 0 <= i < j < |rows| && rows[i].deviceId == rows[j].deviceId
    ensures rows[i].createdAt <= rows[j].createdAt
  {
    assert KeyLe(rows[i], rows[j]);
  }

  /** On a frame sorted by device, `groupby(device_id).diff()` looks at the previous row exactly when
      it belongs to the same device. */
  predicate HasPrevInDevice(rows: seq<Sample>, i: int)
    requires 0 <= i < |rows|
  {
    i > 0 && rows[i - 1].deviceId == rows[i].deviceId
  }

  /** The numeric cell of column `c` (`fg_pkg` holds strings and has no numeric cell). */
  function Cell(s: Sample, c: Column): Value
    requires c != FgPkg
  {
    match c
    case ChargeCounterUah => s.chargeCounterUah
    case ChargeCounter => s.chargeCounter
    case CurrentAvgUa => s.currentAvgUa
    case BatteryLevel => s.batteryLevel
    case BattVoltageMv => s.battVoltageMv
    case BattTempC => s.battTempC
    case TxTotalBytes => s.txTotalBytes
    case RxTotalBytes => s.rxTotalBytes
  }

  /** `df[c]` as a column of values. */
  function ColumnValues(rows: seq<Sample>, c: Column): (r: seq<Value>)
    requires c != FgPkg
    ensures |r| == |rows|
    ensures forall i :: 0 <= i < |rows| ==> r[i] == Cell(rows[i], c)
  {
    seq(|rows|, i requires 0 <= i < |rows| => Cell(rows[i], c))
  }

  /** `c in df.columns and df[c].notna().any()`. */
  predicate HasValues(f: Frame, c: Column)
    requires c != FgPkg
  {
    c in f.columns && !AllMissing(ColumnValues(f.rows, c))
  }
}
