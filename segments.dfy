/** Runs of one device in a frame sorted by device: a `groupby(device_id)` computation that only
    looks backwards restarts at the first row of each run. */
module Segments {

  /** The first row of the run of equal device ids that contains row `i`. */
  function SegmentStart(ids: seq<string>, i: int): (s: nat)
    requires 0 <= i < |ids|
    ensures s <= i
    ensures forall j :: s <= j <= i ==> ids[j] == ids[i]
    ensures s == 0 || ids[s - 1] != ids[i]
    decreases i
  {
    if i > 0 && ids[i - 1] == ids[i] then SegmentStart(ids, i - 1) else i
  }

  /** Rows of one run share the run's start. */
  lemma SegmentStartStep(ids: seq<string>, i: int)
    requires 0 < i < |ids| && ids[i - 1] == ids[i]
    ensures SegmentStart(ids, i) == SegmentStart(ids, i - 1)
  {
  }

  /** The device ids of a frame, as a column. */
  function Ids<T>(rows: seq<T>, id: T -> string): (r: seq<string>)
    ensures |r| == |rows|
    ensures forall i :: 0 <= i < |rows| ==> r[i] == id(rows[i])
  {
    seq(|rows|, i requires 0 <= i < |rows| => id(rows[i]))
  }
}
