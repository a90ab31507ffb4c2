/** Cells of numeric columns and the missing-value rules shared by every stage. */
module Values {

  /** A cell of a numeric column; `Missing` is pandas' NaN. */
  datatype Value = Missing | Num(x: real)

  datatype Option<T> = None | Some(value: T)

  /** The present values of a column, in order (`Series.dropna()`). */
  function Present(s: seq<Value>): (r: seq<real>)
    ensures |r| <= |s|
    ensures forall v :: v in r <==> Num(v) in s
    decreases |s|
  {
    if s == [] then []
    else
      var init := s[..|s| - 1];
      assert s == init + [s[|s| - 1]];
      Present(init) + (if s[|s| - 1].Num? then [s[|s| - 1].x] else [])
  }

  lemma {:induction false} PresentConcat(a: seq<Value>, b: seq<Value>)
    ensures Present(a + b) == Present(a) + Present(b)
    decreases |b|
  {
    if b == [] {
      assert a + b == a;
    } else {
      var b' := b[..|b| - 1];
      assert (a + b)[..|a + b| - 1] == a + b';
      PresentConcat(a, b');
    }
  }

  lemma PresentSnoc(a: seq<Value>, v: Value)
    ensures Present(a + [v]) == Present(a) + (if v.Num? then [v.x] else [])
  {
    assert (a + [v])[..|a + [v]| - 1] == a;
  }

  /** A column with no present value at all (`isna().all()`). */
  predicate AllMissing(s: seq<Value>)
  {
    forall i :: 0 <= i < |s| ==> s[i] == Missing
  }

  lemma {:induction false} PresentEmptyIff(s: seq<Value>)
    ensures Present(s) == [] <==> AllMissing(s)
  {
    if Present(s) != [] {
      var v := Present(s)[0];
      assert v in Present(s);
      assert Num(v) in s;
    }
  }

  /** Applies `f` to present cells and keeps `Missing` cells (NaN propagation). */
  function MapPresent(s: seq<Value>, f: real -> real): (r: seq<Value>)
    ensures |r| == |s|
    ensures forall i :: 0 <= i < |s| ==> (r[i].Num? <==> s[i].Num?)
    ensures forall i :: 0 <= i < |s| && s[i].Num? ==> r[i] == Num(f(s[i].x))
  {
    seq(|s|, i requires 0 <= i < |s| => if s[i].Num? then Num(f(s[i].x)) else Missing)
  }

  /** A column of `n` missing cells (`df[c] = np.nan`). */
  function MissingColumn(n: nat): (r: seq<Value>)
    ensures |r| == n && AllMissing(r)
  {
    seq(n, _ => Missing)
  }

  /** A column of `n` copies of one constant (`df[c] = 0.0`). */
  function ConstColumn(n: nat, c: real): (r: seq<Value>)
    ensures |r| == n
    ensures forall i :: 0 <= i < n ==> r[i] == Num(c)
  {
    seq(n, _ => Num(c))
  }

  /** A float column without missing cells, as a column of values. */
  function Nums(s: seq<real>): (r: seq<Value>)
    ensures |r| == |s|
    ensures forall i :: 0 <= i < |s| ==> r[i] == Num(s[i])
  {
    seq(|s|, i requires 0 <= i < |s| => Num(s[i]))
  }
}
