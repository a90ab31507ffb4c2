/** Per-app usage statistics, `UsageCalculation.calculate_app_usage` of
    src/service/usage_calculation.py: clean the per-sample byte deltas, sum them per (device, app),
    derive megabytes and average throughput, rank the apps of each device by megabytes and keep the
    top ones. The throughput rows come in as a parameter: the metrics calculator that would produce
    them is not part of this model. */
module Usage {
  import opened Values
  import opened Order
  import opened Telemetry

  // ---------------------------------------------------------------------------
  // Rows and their cleaning (lines 71-78).

  /** One row of the throughput table: the foreground app and the deltas since the previous sample. */
  datatype ThrRow = ThrRow(deviceId: string, fgPkg: Option<string>, deltaT: Value, deltaTx: Value, deltaRx: Value)

  /** A row after `dropna(subset=["fg_pkg"])` and the clip-and-fill of its deltas. */
  datatype CleanRow = CleanRow(deviceId: string, app: string, deltaT: real, deltaTx: real, deltaRx: real, deltaTotal: real)

  /** `clip(lower=0).fillna(0)`: NaN survives the clip and then becomes 0. */
  function ClipFill(v: Value): (r: real)
    ensures r >= 0.0
    ensures v.Missing? ==> r == 0.0
    ensures v.Num? && v.x >= 0.0 ==> r == v.x
    ensures v.Num? && v.x < 0.0 ==> r == 0.0
  {
    match v
    case Missing => 0.0
    case Num(x) => if x < 0.0 then 0.0 else x
  }

  /** `dropna(subset=["fg_pkg"])`: the rows with an app, in their order. */
  function DropMissingApp(rows: seq<ThrRow>): (r: seq<ThrRow>)
    ensures |r| <= |rows|
    ensures forall i :: 0 <= i < |r| ==> r[i].fgPkg.Some?
    ensures forall x :: x in r <==> x in rows && x.fgPkg.Some?
    decreases |rows|
  {
    if rows == [] then []
    else
      var n := |rows| - 1;
      DropMissingApp(rows[..n]) + (if rows[n].fgPkg.Some? then [rows[n]] else [])
  }

  predicate NonNeg(c: CleanRow)
  {
    c.deltaT >= 0.0 && c.deltaTx >= 0.0 && c.deltaRx >= 0.0 && c.deltaTotal >= 0.0
  }

  /** The cleaned form of one row (lines 75-78). */
  function Clean(r: ThrRow): (c: CleanRow)
    requires r.fgPkg.Some?
    ensures NonNeg(c) && c.deltaTotal == c.deltaTx + c.deltaRx
    ensures c.deviceId == r.deviceId && c.app == r.fgPkg.value
    ensures r.deltaTx.Num? && r.deltaTx.x >= 0.0 ==> c.deltaTx == r.deltaTx.x
    ensures r.deltaRx.Num? && r.deltaRx.x >= 0.0 ==> c.deltaRx == r.deltaRx.x
  {
    var tx := ClipFill(r.deltaTx);
    var rx := ClipFill(r.deltaRx);
    CleanRow(r.deviceId, r.fgPkg.value, ClipFill(r.deltaT), tx, rx, tx + rx)
  }

  /** Lines 75-78, one column after the other over the whole table: every delta is clipped at 0
      with NaN as 0, and the total is upload plus download. */
  method CleanDeltas(rows: seq<ThrRow>) returns (r: seq<CleanRow>)
    requires forall i :: 0 <= i < |rows| ==> rows[i].fgPkg.Some?
    ensures |r| == |rows|
    ensures forall i :: 0 <= i < |rows| ==>
      && r[i] == Clean(rows[i])
      && NonNeg(r[i])
      && r[i].deviceId == rows[i].deviceId && r[i].app == rows[i].fgPkg.value
      && r[i].deltaTotal == r[i].deltaTx + r[i].deltaRx
  {
    r := [];
    var i := 0;
    while i < |rows|
      invariant 0 <= i <= |rows| && |r| == i
      invariant forall j :: 0 <= j < i ==> r[j] == Clean(rows[j])
    {
      r := r + [Clean(rows[i])];
      i := i + 1;
    }
  }

  /** The cleaned table, as the method above leaves it. */
  function CleanRows(rows: seq<ThrRow>): (r: seq<CleanRow>)
    requires forall i :: 0 <= i < |rows| ==> rows[i].fgPkg.Some?
    ensures |r| == |rows| && forall i :: 0 <= i < |rows| ==> r[i] == Clean(rows[i])
  {
    seq(|rows|, i requires 0 <= i < |rows| => Clean(rows[i]))
  }

  // ---------------------------------------------------------------------------
  // The (device_id, fg_pkg) groups, in the sorted order of `groupby` (lines 81-88).

  datatype AppKey = AppKey(deviceId: string, app: string)

  function KeyOf(c: CleanRow): AppKey { AppKey(c.deviceId, c.app) }

  /** Strictly before in the (device_id, fg_pkg) order. */
  predicate KeyLt(a: AppKey, b: AppKey)
  {
    || (StrLe(a.deviceId, b.deviceId) && a.deviceId != b.deviceId)
    || (a.deviceId == b.deviceId && StrLe(a.app, b.app) && a.app != b.app)
  }

  lemma KeyLtTrans(a: AppKey, b: AppKey, c: AppKey)
    requires KeyLt(a, b) && KeyLt(b, c)
    ensures KeyLt(a, c)
  {
    if a.deviceId != b.deviceId && b.deviceId != c.deviceId {
      StrLeTrans(a.deviceId, b.deviceId, c.deviceId);
      if a.deviceId == c.deviceId {
        StrLeAntisym(a.deviceId, b.deviceId);
      }
    } else if a.deviceId == b.deviceId && b.deviceId == c.deviceId {
      StrLeTrans(a.app, b.app, c.app);
      if a.app == c.app {
        StrLeAntisym(a.app, b.app);
      }
    }
  }

  lemma KeyLtTotal(a: AppKey, b: AppKey)
    requires a != b
    ensures KeyLt(a, b) || KeyLt(b, a)
  {
    StrLeTotal(a.deviceId, b.deviceId);
    StrLeTotal(a.app, b.app);
  }

  predicate StrictlySorted(s: seq<AppKey>)
  {
    forall i, j :: 0 <= i < j < |s| ==> KeyLt(s[i], s[j])
  }

  /** Adds one key to a strictly sorted list of keys, once. */
  function InsertKey(k: AppKey, s: seq<AppKey>): (r: seq<AppKey>)
    requires StrictlySorted(s)
    ensures StrictlySorted(r)
    ensures forall x :: x in r <==> x in s || x == k
    decreases |s|
  {
    if s == [] then [k]
    else if k == s[0] then s
    else if KeyLt(k, s[0]) then
      assert forall j :: 0 <= j < |s| ==> KeyLt(k, s[j]) by {
        forall j | 0 <= j < |s| ensures KeyLt(k, s[j]) {
          if j > 0 { KeyLtTrans(k, s[0], s[j]); }
        }
      }
      [k] + s
    else
      KeyLtTotal(k, s[0]);
      var t := InsertKey(k, s[1..]);
      assert forall j :: 0 <= j < |t| ==> KeyLt(s[0], t[j]) by {
        forall j | 0 <= j < |t| ensures KeyLt(s[0], t[j]) {
          if t[j] != k {
            assert t[j] in s[1..];
            var m :| 0 <= m < |s[1..]| && s[1..][m] == t[j];
            assert s[m + 1] == t[j];
          }
        }
      }
      [s[0]] + t
  }

  /** The distinct (device_id, fg_pkg) keys of the rows, in sorted order. */
  function Keys(rows: seq<CleanRow>): (r: seq<AppKey>)
    ensures StrictlySorted(r)
    ensures forall i :: 0 <= i < |rows| ==> KeyOf(rows[i]) in r
    ensures forall x :: x in r ==> exists i :: 0 <= i < |rows| && KeyOf(rows[i]) == x
    decreases |rows|
  {
    if rows == [] then []
    else
      var n := |rows| - 1;
      var r := InsertKey(KeyOf(rows[n]), Keys(rows[..n]));
      assert forall x :: x in r ==> exists i :: 0 <= i < |rows| && KeyOf(rows[i]) == x by {
        forall x | x in r ensures exists i :: 0 <= i < |rows| && KeyOf(rows[i]) == x {
          if x != KeyOf(rows[n]) {
            var i :| 0 <= i < n && KeyOf(rows[..n][i]) == x;
            assert KeyOf(rows[i]) == x;
          }
        }
      }
      assert forall i :: 0 <= i < |rows| ==> KeyOf(rows[i]) in r by {
        forall i | 0 <= i < |rows| ensures KeyOf(rows[i]) in r {
          if i < n { assert rows[..n][i] == rows[i]; }
        }
      }
      r
  }

  /** The two aggregated columns: `total_bytes` sums `delta_total_bytes`, `total_duration_s` sums
      `delta_t`. */
  datatype Field = Bytes | Duration

  function FieldOf(c: CleanRow, f: Field): real
  {
    match f
    case Bytes => c.deltaTotal
    case Duration => c.deltaT
  }

  /** The sum of a field over the rows of one (device, app) group. */
  function GroupSum(rows: seq<CleanRow>, k: AppKey, f: Field): (s: real)
    ensures (forall i :: 0 <= i < |rows| ==> NonNeg(rows[i])) ==> s >= 0.0
    decreases |rows|
  {
    if rows == [] then 0.0
    else
      var n := |rows| - 1;
      GroupSum(rows[..n], k, f) + (if KeyOf(rows[n]) == k then FieldOf(rows[n], f) else 0.0)
  }

  /** The sum of a field over all rows of one device. */
  function DeviceSum(rows: seq<CleanRow>, d: string, f: Field): (s: real)
    ensures (forall i :: 0 <= i < |rows| ==> NonNeg(rows[i])) ==> s >= 0.0
    ensures (forall i :: 0 <= i < |rows| ==> rows[i].deviceId != d) ==> s == 0.0
    decreases |rows|
  {
    if rows == [] then 0.0
    else
      var n := |rows| - 1;
      DeviceSum(rows[..n], d, f) + (if rows[n].deviceId == d then FieldOf(rows[n], f) else 0.0)
  }

  /** The group sums of the keys in `ks` that belong to device `d`, added up. */
  function KeysSum(rows: seq<CleanRow>, ks: seq<AppKey>, d: string, f: Field): (s: real)
    ensures (forall i :: 0 <= i < |rows| ==> NonNeg(rows[i])) ==> s >= 0.0
    ensures (forall i :: 0 <= i < |ks| ==> ks[i].deviceId != d) ==> s == 0.0
    decreases |ks|
  {
    if ks == [] then 0.0
    else
      var n := |ks| - 1;
      KeysSum(rows, ks[..n], d, f) + (if ks[n].deviceId == d then GroupSum(rows, ks[n], f) else 0.0)
  }

  lemma {:induction false} KeysSumNoRows(ks: seq<AppKey>, d: string, f: Field)
    ensures KeysSum([], ks, d, f) == 0.0
    decreases |ks|
  {
    if ks != [] {
      KeysSumNoRows(ks[..|ks| - 1], d, f);
    }
  }

  /** One more row adds its field to the sum of its own group and to no other. */
  lemma {:induction false} KeysSumSnoc(rows: seq<CleanRow>, c: CleanRow, ks: seq<AppKey>, d: string, f: Field)
    requires StrictlySorted(ks)
    ensures KeysSum(rows + [c], ks, d, f)
      == KeysSum(rows, ks, d, f) + (if c.deviceId == d && KeyOf(c) in ks then FieldOf(c, f) else 0.0)
    decreases |ks|
  {
    if ks != [] {
      var n := |ks| - 1;
      assert StrictlySorted(ks[..n]);
      KeysSumSnoc(rows, c, ks[..n], d, f);
      assert (rows + [c])[..|rows|] == rows;
      assert KeyOf(c) in ks <==> KeyOf(c) in ks[..n] || KeyOf(c) == ks[n] by {
        assert ks == ks[..n] + [ks[n]];
      }
      if KeyOf(c) == ks[n] {
        assert KeyOf(c) !in ks[..n] by {
          forall j | 0 <= j < n ensures ks[..n][j] != ks[n] {
            assert KeyLt(ks[j], ks[n]);
          }
        }
      }
    }
  }

  /** Summing the groups of a device gives the sum over the device's rows, when the keys are
      distinct and include every row's key. */
  lemma {:induction false} KeysPartition(rows: seq<CleanRow>, ks: seq<AppKey>, d: string, f: Field)
    requires StrictlySorted(ks)
    requires forall i :: 0 <= i < |rows| ==> KeyOf(rows[i]) in ks
    ensures KeysSum(rows, ks, d, f) == DeviceSum(rows, d, f)
    decreases |rows|
  {
    if rows == [] {
      KeysSumNoRows(ks, d, f);
    } else {
      var n := |rows| - 1;
      KeysPartition(rows[..n], ks, d, f);
      KeysSumSnoc(rows[..n], rows[n], ks, d, f);
      assert rows[..n] + [rows[n]] == rows;
    }
  }

  /** Per device, the app totals add up to the device's total: the groups partition its rows. */
  lemma GroupsPartitionDevice(rows: seq<CleanRow>, d: string, f: Field)
    ensures KeysSum(rows, Keys(rows), d, f) == DeviceSum(rows, d, f)
  {
    KeysPartition(rows, Keys(rows), d, f);
  }

  // ---------------------------------------------------------------------------
  // Derived metrics (lines 90-95).

  /** One row of `grouped_df` with its derived columns. */
  datatype AppStats = AppStats(
    deviceId: string, app: string,
    totalBytes: real, totalDurationS: real,
    totalMb: real, avgThroughputMbps: real)

  /** `total_mb` is bytes in megabytes; `avg_throughput_mbps` is megabits per second when the
      duration is positive and 0.0 otherwise, so rate times duration gives back the megabits. */
  function Derive(k: AppKey, bytes: real, dur: real): (a: AppStats)
    ensures a.deviceId == k.deviceId && a.app == k.app && a.totalBytes == bytes && a.totalDurationS == dur
    ensures a.totalMb * 1000000.0 == bytes
    ensures dur > 0.0 ==> a.avgThroughputMbps * dur == 8.0 * a.totalMb
    ensures dur <= 0.0 ==> a.avgThroughputMbps == 0.0
    ensures bytes >= 0.0 ==> a.totalMb >= 0.0 && a.avgThroughputMbps >= 0.0
  {
    var avg := if dur > 0.0 then (bytes * 8.0 / dur) / 1000000.0 else 0.0;
    assert dur > 0.0 ==> avg * dur == (bytes * 8.0) / 1000000.0;
    AppStats(k.deviceId, k.app, bytes, dur, bytes / 1000000.0, avg)
  }

  /** `grouped_df`: one row per key, in key order, with the summed bytes and duration. */
  function Groups(rows: seq<CleanRow>): (g: seq<AppStats>)
    ensures var ks := Keys(rows);
      && |g| == |ks|
      && forall i :: 0 <= i < |g| ==>
           g[i] == Derive(ks[i], GroupSum(rows, ks[i], Bytes), GroupSum(rows, ks[i], Duration))
  {
    var ks := Keys(rows);
    seq(|ks|, i requires 0 <= i < |ks| => Derive(ks[i], GroupSum(rows, ks[i], Bytes), GroupSum(rows, ks[i], Duration)))
  }

  // ---------------------------------------------------------------------------
  // Ranking within a device (lines 97-102).

  /** Group `j` comes before group `i` in `rank(method="first", ascending=False)`: more megabytes,
      or as many and earlier in the table. */
  predicate Beats(g: seq<AppStats>, j: int, i: int)
    requires 0 <= i < |g| && 0 <= j < |g|
  {
    g[j].totalMb > g[i].totalMb || (g[j].totalMb == g[i].totalMb && j < i)
  }

  /** The positions of the groups of device `d`. */
  function DeviceIndices(g: seq<AppStats>, d: string): set<int>
  {
    set j | 0 <= j < |g| && g[j].deviceId == d
  }

  /** The groups of the same device that come before group `i`. */
  function Above(g: seq<AppStats>, i: int): set<int>
    requires 0 <= i < |g|
  {
    set j | 0 <= j < |g| && g[j].deviceId == g[i].deviceId && Beats(g, j, i)
  }

  /** One plus the number of groups of the same device that come before it. */
  function Rank(g: seq<AppStats>, i: int): (r: nat)
    requires 0 <= i < |g|
    ensures 1 <= r <= |DeviceIndices(g, g[i].deviceId)|
  {
    var d := g[i].deviceId;
    assert Above(g, i) <= DeviceIndices(g, d) - {i};
    SubsetCard(Above(g, i), DeviceIndices(g, d) - {i});
    1 + |Above(g, i)|
  }

  /** The ranks 1, 2, ..., m. */
  function RangeSet(m: int): set<int>
    decreases if m > 0 then m else 0
  {
    if m <= 0 then {} else RangeSet(m - 1) + {m}
  }

  lemma {:induction false} RangeSetMembers(m: int)
    ensures forall x :: x in RangeSet(m) <==> 1 <= x <= m
    decreases if m > 0 then m else 0
  {
    if m > 0 {
      RangeSetMembers(m - 1);
    }
  }

  lemma {:induction false} RangeSetCard(m: int)
    ensures |RangeSet(m)| == if m > 0 then m else 0
    decreases if m > 0 then m else 0
  {
    if m > 0 {
      RangeSetCard(m - 1);
      RangeSetMembers(m - 1);
      assert m !in RangeSet(m - 1);
    }
  }

  lemma {:induction false} SubsetCard(a: set<int>, b: set<int>)
    requires a <= b
    ensures |a| <= |b|
  {
    assert b == a + (b - a);
  }

  /** An injective map keeps the size of a set (of indices below `n`). */
  lemma {:induction false} ImageCard(s: set<int>, f: int -> int, n: int)
    requires forall x :: x in s ==> 0 <= x < n
    requires forall x, y :: x in s && y in s && x != y ==> f(x) != f(y)
    ensures |set x | x in s :: f(x)| == |s|
    decreases if n > 0 then n else 0
  {
    if n <= 0 {
      assert forall x :: x !in s;
      assert s == {};
    } else {
      var t := s - {n - 1};
      ImageCard(t, f, n - 1);
      var img := set y | y in s :: f(y);
      var imgT := set y | y in t :: f(y);
      if n - 1 in s {
        assert img == imgT + {f(n - 1)};
        assert f(n - 1) !in imgT;
      } else {
        assert t == s;
      }
    }
  }

  /** A group that comes first gets a smaller rank: more megabytes rank higher, and ties go to the
      group met first. */
  lemma RankBeats(g: seq<AppStats>, i: int, j: int)
    requires 0 <= i < |g| && 0 <= j < |g| && g[i].deviceId == g[j].deviceId && Beats(g, j, i)
    ensures Rank(g, j) < Rank(g, i)
  {
    forall x | x in Above(g, j) ensures x in Above(g, i) - {j} {
      assert Beats(g, x, j);
    }
    SubsetCard(Above(g, j), Above(g, i) - {j});
    assert j in Above(g, i);
  }

  /** Two groups of one device never share a rank. */
  lemma RankDistinct(g: seq<AppStats>, i: int, j: int)
    requires 0 <= i < |g| && 0 <= j < |g| && i != j && g[i].deviceId == g[j].deviceId
    ensures Rank(g, i) != Rank(g, j)
  {
    if Beats(g, j, i) {
      RankBeats(g, i, j);
    } else {
      RankBeats(g, j, i);
    }
  }

  /** A subset as large as its superset is the superset. */
  lemma SubsetSameCard(a: set<int>, b: set<int>)
    requires a <= b && |a| == |b|
    ensures a == b
  {
    assert b == a + (b - a);
    assert |b - a| == 0;
    assert b == a + {};
  }

  /** The ranks of a device's groups are distinct, so there are as many as groups. */
  lemma RankImageCard(g: seq<AppStats>, d: string)
    ensures |set i | i in DeviceIndices(g, d) :: Rank(g, i)| == |DeviceIndices(g, d)|
  {
    var s := DeviceIndices(g, d);
    var f := (i: int) => if 0 <= i < |g| then Rank(g, i) as int else 0;
    forall x, y | x in s && y in s && x != y ensures f(x) != f(y) {
      RankDistinct(g, x, y);
    }
    ImageCard(s, f, |g|);
    assert (set i | i in s :: f(i)) == set i | i in s :: Rank(g, i);
  }

  /** The ranks of a device's groups lie between 1 and the number of groups. */
  lemma RankImageRange(g: seq<AppStats>, d: string)
    ensures (set i | i in DeviceIndices(g, d) :: Rank(g, i)) <= RangeSet(|DeviceIndices(g, d)|)
  {
    var s := DeviceIndices(g, d);
    RangeSetMembers(|s|);
    assert forall i :: i in s ==> Rank(g, i) in RangeSet(|s|);
  }

  /** The ranks of a device's groups are exactly 1, 2, ..., m for its m groups. */
  lemma RankPermutation(g: seq<AppStats>, d: string)
    ensures (set i | i in DeviceIndices(g, d) :: Rank(g, i)) == RangeSet(|DeviceIndices(g, d)|)
  {
    RankImageCard(g, d);
    RankImageRange(g, d);
    RangeSetCard(|DeviceIndices(g, d)|);
    SubsetSameCard(set i | i in DeviceIndices(g, d) :: Rank(g, i), RangeSet(|DeviceIndices(g, d)|));
  }

  // ---------------------------------------------------------------------------
  // Top apps (lines 104-109).

  /** A row of the result: the group, its derived metrics and its rank. */
  datatype AppUsage = AppUsage(stats: AppStats, rank: nat)

  /** `grouped_df["rank"] = ...`: every group with its rank. */
  function Ranked(g: seq<AppStats>): (u: seq<AppUsage>)
    ensures |u| == |g| && forall i :: 0 <= i < |g| ==> u[i] == AppUsage(g[i], Rank(g, i))
  {
    seq(|g|, i requires 0 <= i < |g| => AppUsage(g[i], Rank(g, i)))
  }

  predicate Distinct<T(==)>(s: seq<T>)
  {
    forall i, j :: 0 <= i < j < |s| ==> s[i] != s[j]
  }

  /** `grouped_df[grouped_df["rank"] <= top_rank]`. */
  function FilterTop(u: seq<AppUsage>, topRank: int): (r: seq<AppUsage>)
    ensures forall x :: x in r <==> x in u && x.rank <= topRank
    ensures Distinct(u) ==> Distinct(r)
    decreases |u|
  {
    if u == [] then []
    else
      var n := |u| - 1;
      var r := FilterTop(u[..n], topRank);
      if u[n].rank <= topRank then
        assert Distinct(u) ==> u[n] !in u[..n];
        r + [u[n]]
      else r
  }

  /** The (device_id, rank) order of the final `sort_values`. */
  function UsageLe(a: AppUsage, b: AppUsage): bool
  {
    KeyBefore(a.stats.deviceId, a.rank, b.stats.deviceId, b.rank)
  }

  lemma UsageLePreorder()
    ensures TotalPreorder(UsageLe)
  {
    forall a: AppUsage, b: AppUsage ensures UsageLe(a, b) || UsageLe(b, a) {
      KeyBeforeOrder(a.stats.deviceId, a.rank, b.stats.deviceId, b.rank, a.stats.deviceId, a.rank);
    }
    forall a: AppUsage, b: AppUsage, c: AppUsage | UsageLe(a, b) && UsageLe(b, c) ensures UsageLe(a, c) {
      KeyBeforeOrder(a.stats.deviceId, a.rank, b.stats.deviceId, b.rank, c.stats.deviceId, c.rank);
    }
  }

  /** The top rows, sorted by (device_id, rank). */
  function TopApps(u: seq<AppUsage>, topRank: int): (r: seq<AppUsage>)
    ensures SortedBy(r, UsageLe)
    ensures multiset(r) == multiset(FilterTop(u, topRank))
  {
    UsageLePreorder();
    SortBy(FilterTop(u, topRank), UsageLe)
  }

  // ---------------------------------------------------------------------------
  // Properties of the result.

  lemma {:induction false} MultiplicityDistinct<T>(b: seq<T>, x: T)
    requires Distinct(b)
    ensures multiset(b)[x] <= 1
    decreases |b|
  {
    if b != [] {
      var n := |b| - 1;
      assert b == b[..n] + [b[n]];
      MultiplicityDistinct(b[..n], x);
      if x == b[n] {
        assert x !in b[..n];
      }
    }
  }

  lemma MultiplicityTwo<T>(a: seq<T>, i: int, j: int)
    requires 0 <= i < j < |a| && a[i] == a[j]
    ensures multiset(a)[a[i]] >= 2
  {
    assert a == a[..j] + [a[j]] + a[j + 1..];
    assert a[i] in a[..j];
  }

  /** A rearrangement of a sequence without repeats has no repeats. */
  lemma DistinctPerm<T>(a: seq<T>, b: seq<T>)
    requires multiset(a) == multiset(b) && Distinct(b)
    ensures Distinct(a)
  {
    forall i, j | 0 <= i < j < |a| ensures a[i] != a[j] {
      if a[i] == a[j] {
        MultiplicityTwo(a, i, j);
        MultiplicityDistinct(b, a[i]);
        assert false;
      }
    }
  }

  /** Every (device, app) group appears once. */
  lemma RankedDistinct(rows: seq<CleanRow>)
    ensures Distinct(Ranked(Groups(rows)))
  {
    var ks := Keys(rows);
    var u := Ranked(Groups(rows));
    forall i, j | 0 <= i < j < |u| ensures u[i] != u[j] {
      assert KeyLt(ks[i], ks[j]);
    }
  }

  /** The result holds the ranked rows whose rank is at most `top_rank`, each once. */
  lemma TopAppsMembers(u: seq<AppUsage>, topRank: int)
    requires Distinct(u)
    ensures var out := TopApps(u, topRank);
      && Distinct(out)
      && forall x :: x in out <==> x in u && x.rank <= topRank
  {
    var f := FilterTop(u, topRank);
    var out := TopApps(u, topRank);
    DistinctPerm(out, f);
    forall x ensures x in out <==> x in f {
      assert x in out <==> x in multiset(out);
      assert x in f <==> x in multiset(f);
    }
  }

  /** Two rows of one device in the result have different ranks. */
  lemma TopAppsStrict(g: seq<AppStats>, topRank: int, p: int, q: int)
    requires Distinct(Ranked(g))
    requires var out := TopApps(Ranked(g), topRank);
      0 <= p < q < |out| && out[p].stats.deviceId == out[q].stats.deviceId
    ensures var out := TopApps(Ranked(g), topRank); out[p].rank < out[q].rank
  {
    var u := Ranked(g);
    var out := TopApps(u, topRank);
    TopAppsMembers(u, topRank);
    assert UsageLe(out[p], out[q]);
    if out[p].rank == out[q].rank {
      assert out[p] in out && out[q] in out;
      var a :| 0 <= a < |u| && u[a] == out[p];
      var b :| 0 <= b < |u| && u[b] == out[q];
      if a != b {
        RankDistinct(g, a, b);
      }
      assert false;
    }
  }

  /** A row of the result is a ranked group whose rank is at most `top_rank`. */
  lemma TopAppsIndex(rows: seq<CleanRow>, topRank: int, x: AppUsage) returns (i: int)
    requires x in TopApps(Ranked(Groups(rows)), topRank)
    ensures var g := Groups(rows); 0 <= i < |g| && Rank(g, i) <= topRank && x == AppUsage(g[i], Rank(g, i))
  {
    var u := Ranked(Groups(rows));
    RankedDistinct(rows);
    TopAppsMembers(u, topRank);
    assert x in u;
    i :| 0 <= i < |u| && u[i] == x;
  }

  /** The rows of the result are exactly the groups whose rank is at most `top_rank`. */
  lemma TopAppsExactly(rows: seq<CleanRow>, topRank: int)
    ensures var g := Groups(rows); var out := TopApps(Ranked(g), topRank);
      forall x :: x in out <==> exists i :: 0 <= i < |g| && Rank(g, i) <= topRank && x == AppUsage(g[i], Rank(g, i))
  {
    var g := Groups(rows);
    var u := Ranked(g);
    var out := TopApps(u, topRank);
    RankedDistinct(rows);
    TopAppsMembers(u, topRank);
    forall x ensures x in out <==> exists i :: 0 <= i < |g| && Rank(g, i) <= topRank && x == AppUsage(g[i], Rank(g, i)) {
      if x in out {
        var i := TopAppsIndex(rows, topRank, x);
      }
    }
  }

  /** Every rank in the result lies between 1 and `top_rank`. */
  lemma TopAppsRankBounds(rows: seq<CleanRow>, topRank: int)
    ensures var out := TopApps(Ranked(Groups(rows)), topRank);
      forall p :: 0 <= p < |out| ==> 1 <= out[p].rank <= topRank
  {
    var g := Groups(rows);
    var out := TopApps(Ranked(g), topRank);
    forall p | 0 <= p < |out| ensures 1 <= out[p].rank <= topRank {
      assert out[p] in out;
      var i := TopAppsIndex(rows, topRank, out[p]);
      assert Rank(g, i) >= 1;
    }
  }

  /** Within a device the result is ordered by strictly increasing rank, each rank between 1 and
      `top_rank`, and its rows are exactly the groups whose rank is at most `top_rank`. */
  lemma TopAppsRanks(rows: seq<CleanRow>, topRank: int)
    ensures var g := Groups(rows); var out := TopApps(Ranked(g), topRank);
      && (forall x :: x in out <==> exists i :: 0 <= i < |g| && Rank(g, i) <= topRank && x == AppUsage(g[i], Rank(g, i)))
      && (forall p :: 0 <= p < |out| ==> 1 <= out[p].rank <= topRank)
      && (forall p, q :: 0 <= p < q < |out| && out[p].stats.deviceId == out[q].stats.deviceId ==>
            out[p].rank < out[q].rank)
  {
    var g := Groups(rows);
    var out := TopApps(Ranked(g), topRank);
    TopAppsExactly(rows, topRank);
    TopAppsRankBounds(rows, topRank);
    RankedDistinct(rows);
    forall p, q | 0 <= p < q < |out| && out[p].stats.deviceId == out[q].stats.deviceId
      ensures out[p].rank < out[q].rank
    {
      TopAppsStrict(g, topRank, p, q);
    }
  }

  /** The result holds at most `top_rank` rows of any one device. */
  lemma TopAppsPerDevice(rows: seq<CleanRow>, topRank: int, d: string)
    ensures var out := TopApps(Ranked(Groups(rows)), topRank);
      |set p | 0 <= p < |out| && out[p].stats.deviceId == d| <= if topRank > 0 then topRank else 0
  {
    var out := TopApps(Ranked(Groups(rows)), topRank);
    TopAppsRanks(rows, topRank);
    var s := set p | 0 <= p < |out| && out[p].stats.deviceId == d;
    var f := (p: int) => if 0 <= p < |out| then out[p].rank as int else 0;
    forall x, y | x in s && y in s && x != y ensures f(x) != f(y) {
      if x < y {
        assert out[x].rank < out[y].rank;
      } else {
        assert out[y].rank < out[x].rank;
      }
    }
    ImageCard(s, f, |out|);
    var img := set p | p in s :: f(p);
    RangeSetMembers(topRank);
    assert img <= RangeSet(topRank);
    SubsetCard(img, RangeSet(topRank));
    RangeSetCard(topRank);
  }

  // ---------------------------------------------------------------------------
  // The whole calculation (lines 45-115).

  /** An error (raised as CustomException), an empty frame, or the top-app table. */
  datatype UsageResult = UsageFailed | NoUsage | Usage(rows: seq<AppUsage>)

  /** `calculate_app_usage`. `df` is the instance's frame and `thr` the throughput table computed
      from it. `df.empty` is read before `df is None` is checked, so a None frame raises; an empty
      frame, a frame without `fg_pkg` or an empty throughput table gives an empty result. */
  function CalculateAppUsage(df: Option<Frame>, thr: seq<ThrRow>, topRank: int): (r: UsageResult)
    ensures r.UsageFailed? <==> df.None?
    ensures r.NoUsage? <==> df.Some? && (df.value.rows == [] || FgPkg !in df.value.columns || thr == [])
    ensures r.Usage? ==> r.rows == TopApps(Ranked(Groups(CleanRows(DropMissingApp(thr)))), topRank)
  {
    match BaseGuard(df)
    case None => UsageFailed
    case Some(f) =>
      if f.rows == [] || FgPkg !in f.columns || thr == [] then NoUsage
      else Usage(TopApps(Ranked(Groups(CleanRows(DropMissingApp(thr)))), topRank))
  }

  /** `calculate_app_usage` as written: past the guard and the `fg_pkg` check it calls
      `MetricsCalculation(df)`, whose constructor takes no argument, and the `TypeError` is re-raised
      as a `CustomException`. No frame ever reaches the ranking. */
  function CalculateAppUsageAsWritten(df: Option<Frame>): (r: UsageResult)
    ensures r.NoUsage? <==> df.Some? && (df.value.rows == [] || FgPkg !in df.value.columns)
    ensures !r.Usage?
  {
    match BaseGuard(df)
    case None => UsageFailed
    case Some(f) => if f.rows == [] || FgPkg !in f.columns then NoUsage else UsageFailed
  }

  /** Every non-empty frame with `fg_pkg` raises as written, where the intended computation ranks
      the apps of any non-empty throughput table. */
  lemma AppUsageAsWrittenRaises(df: Option<Frame>, thr: seq<ThrRow>, topRank: int)
    requires df.Some? && df.value.rows != [] && FgPkg in df.value.columns && thr != []
    ensures CalculateAppUsageAsWritten(df) == UsageFailed
    ensures CalculateAppUsage(df, thr, topRank).Usage?
  {
  }

  /** An app's totals in the result are the sums of its rows after cleaning, and its megabytes
      are never negative. */
  lemma UsageTotals(thr: seq<ThrRow>, topRank: int, x: AppUsage)
    requires x in TopApps(Ranked(Groups(CleanRows(DropMissingApp(thr)))), topRank)
    ensures var rows := CleanRows(DropMissingApp(thr)); var k := AppKey(x.stats.deviceId, x.stats.app);
      && k in Keys(rows)
      && x.stats.totalBytes == GroupSum(rows, k, Bytes)
      && x.stats.totalDurationS == GroupSum(rows, k, Duration)
      && x.stats.totalMb >= 0.0 && x.stats.avgThroughputMbps >= 0.0
  {
    var rows := CleanRows(DropMissingApp(thr));
    var k := AppKey(x.stats.deviceId, x.stats.app);
    GroupTotals(rows, topRank, x);
    CleanRowsNonNeg(DropMissingApp(thr));
    GroupSumNonNeg(rows, k, Bytes);
  }

  /** Every cleaned row has non-negative deltas. */
  lemma CleanRowsNonNeg(rows: seq<ThrRow>)
    requires forall i :: 0 <= i < |rows| ==> rows[i].fgPkg.Some?
    ensures forall i :: 0 <= i < |rows| ==> NonNeg(CleanRows(rows)[i])
  {
  }

  lemma GroupSumNonNeg(rows: seq<CleanRow>, k: AppKey, f: Field)
    requires forall i :: 0 <= i < |rows| ==> NonNeg(rows[i])
    ensures GroupSum(rows, k, f) >= 0.0
  {
  }

  /** A row of the result carries the summed bytes and duration of its own group. */
  lemma GroupTotals(rows: seq<CleanRow>, topRank: int, x: AppUsage)
    requires x in TopApps(Ranked(Groups(rows)), topRank)
    ensures var k := AppKey(x.stats.deviceId, x.stats.app);
      && k in Keys(rows)
      && x.stats == Derive(k, GroupSum(rows, k, Bytes), GroupSum(rows, k, Duration))
  {
    var i := TopAppsIndex(rows, topRank, x);
    var k := Keys(rows)[i];
    assert k in Keys(rows);
    assert Groups(rows)[i] == Derive(k, GroupSum(rows, k, Bytes), GroupSum(rows, k, Duration));
  }
}
