/** `create_sequences` of src/core/sequence.py: training sequences and their next-row targets. */
module Sequence {
  import opened Values
  import opened Prediction

  /** Sequence i is rows [i, i + window) and its target is row i + window, the row right after it. */
  datatype Sequences = Sequences(sequences: seq<seq<FeatureRow>>, targets: seq<FeatureRow>)

  /** `for i in range(len(data) - window)`: max(0, len - window) sequences. */
  method CreateSequences(data: seq<FeatureRow>, window: nat) returns (r: Sequences)
    ensures |r.sequences| == |r.targets| == (if |data| > window then |data| - window else 0)
    ensures forall i :: 0 <= i < |r.sequences| ==>
      && |r.sequences[i]| == window
      && r.sequences[i] == data[i..i + window]
      && r.targets[i] == data[i + window]
  {
    var sequences: seq<seq<FeatureRow>> := [];
    var targets: seq<FeatureRow> := [];
    var i := 0;
    while i < |data| - window
      invariant 0 <= i && |sequences| == |targets| == i
      invariant |data| > window ==> i <= |data| - window
      invariant |data| <= window ==> i == 0
      invariant forall j :: 0 <= j < i ==> sequences[j] == data[j..j + window] && targets[j] == data[j + window]
    {
      sequences := sequences + [data[i..i + window]];
      targets := targets + [data[i + window]];
      i := i + 1;
    }
    r := Sequences(sequences, targets);
  }

  /** Training and inference slice alike: sequence j is the controller's window for row j + window,
      whose target row is the row the controller attaches to that window. */
  method SequencesMatchWindows(data: seq<FeatureRow>, createdAt: seq<int>, soh: seq<Value>, window: nat)
    returns (s: Sequences, w: Windows)
    requires |createdAt| == |data| && |soh| == |data|
    ensures |s.sequences| == |s.targets| == |w.windows| == |w.timestamps|
      == (if |data| > window then |data| - window else 0)
    ensures forall j :: 0 <= j < |s.sequences| ==>
      s.sequences[j] == w.windows[j] && s.targets[j] == data[window + j] && w.timestamps[j] == createdAt[window + j]
  {
    s := CreateSequences(data, window);
    w := BuildWindows(data, createdAt, soh, window);
  }
}
