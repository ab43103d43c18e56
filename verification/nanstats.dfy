/** pandas' NaN-skipping aggregates over a column of floats, with a missing
    value (NaN) written None: the mean, maximum and minimum ignore missing
    values and are missing themselves only when every value is; the rolling
    mean with `min_periods=1` is the mean over its trailing window; and
    `pct_change` pads missing values forward before dividing. */
module NanStats {
  import opened Wrappers
  import opened Numeric

  /** The values of xs that are not NaN, in order. */
  function Present(xs: seq<Option<real>>): (r: seq<real>)
    ensures |r| <= |xs|
  {
    if |xs| == 0 then []
    else (if xs[0].Some? then [xs[0].value] else []) + Present(xs[1..])
  }

  /** Present keeps exactly the non-missing values. */
  lemma {:induction false} PresentMembers(xs: seq<Option<real>>)
    ensures forall v :: v in Present(xs) <==> Some(v) in xs
    ensures |Present(xs)| == 0 <==> forall i :: 0 <= i < |xs| ==> xs[i].None?
  {
    if |xs| > 0 {
      PresentMembers(xs[1..]);
      assert xs == [xs[0]] + xs[1..];
      if xs[0].None? {
        forall i | 0 <= i < |xs| && i > 0 ensures xs[i] == xs[1..][i - 1] { }
      }
    }
  }

  /** `Series.mean()`: the mean of the non-missing values, missing when
      there are none. It lies between two of the values it averages. */
  function NanMean(xs: seq<Option<real>>): (m: Option<real>)
    ensures m.None? <==> forall i :: 0 <= i < |xs| ==> xs[i].None?
    ensures m.Some? ==> exists i :: 0 <= i < |xs| && xs[i].Some? && xs[i].value <= m.value
    ensures m.Some? ==> exists i :: 0 <= i < |xs| && xs[i].Some? && m.value <= xs[i].value
  {
    PresentMembers(xs);
    var p := Present(xs);
    if |p| == 0 then None
    else
      var lo := MinOf(p);
      var hi := MaxOf(p);
      assert Some(lo) in xs && Some(hi) in xs;
      Some(Mean(p))
  }

  /** `Series.max()`, skipping missing values. */
  function NanMax(xs: seq<Option<real>>): (m: Option<real>)
    ensures m.None? <==> forall i :: 0 <= i < |xs| ==> xs[i].None?
    ensures m.Some? ==> Some(m.value) in xs
    ensures m.Some? ==> forall i :: 0 <= i < |xs| && xs[i].Some? ==> xs[i].value <= m.value
  {
    PresentMembers(xs);
    var p := Present(xs);
    if |p| == 0 then None
    else
      assert forall i :: 0 <= i < |xs| && xs[i].Some? ==> xs[i].value in p by {
        forall i | 0 <= i < |xs| && xs[i].Some? ensures xs[i].value in p {
          var v := xs[i].value;
          assert xs[i] == Some(v);
          assert Some(v) in xs;
        }
      }
      Some(MaxOf(p))
  }

  /** `Series.min()`, skipping missing values. */
  function NanMin(xs: seq<Option<real>>): (m: Option<real>)
    ensures m.None? <==> forall i :: 0 <= i < |xs| ==> xs[i].None?
    ensures m.Some? ==> Some(m.value) in xs
    ensures m.Some? ==> forall i :: 0 <= i < |xs| && xs[i].Some? ==> m.value <= xs[i].value
  {
    PresentMembers(xs);
    var p := Present(xs);
    if |p| == 0 then None
    else
      assert forall i :: 0 <= i < |xs| && xs[i].Some? ==> xs[i].value in p by {
        forall i | 0 <= i < |xs| && xs[i].Some? ensures xs[i].value in p {
          var v := xs[i].value;
          assert xs[i] == Some(v);
          assert Some(v) in xs;
        }
      }
      Some(MinOf(p))
  }

  /** Averaging a column without missing values is the plain mean. */
  lemma {:induction false} NanMeanOfComplete(vs: seq<real>)
    requires |vs| > 0
    ensures NanMean(seq(|vs|, i requires 0 <= i < |vs| => Some(vs[i]))) == Some(Mean(vs))
  {
    PresentOfComplete(vs);
  }

  lemma {:induction false} PresentOfComplete(vs: seq<real>)
    ensures Present(seq(|vs|, i requires 0 <= i < |vs| => Some(vs[i]))) == vs
  {
    var xs := seq(|vs|, i requires 0 <= i < |vs| => Some(vs[i]));
    if |vs| > 0 {
      assert xs[1..] == seq(|vs[1..]|, i requires 0 <= i < |vs[1..]| => Some(vs[1..][i]));
      PresentOfComplete(vs[1..]);
      assert vs == [vs[0]] + vs[1..];
    }
  }

  /* ------------------------------------------------------ rolling mean */

  /** `rolling(window=w, min_periods=1).mean()` at row i: the NaN-skipping
      mean of the last w rows up to i (fewer while fewer exist). */
  function RollingMean(xs: seq<Option<real>>, i: nat, w: nat): (m: Option<real>)
    requires w >= 1 && i < |xs|
    ensures xs[i].Some? ==> m.Some?
  {
    var win := TrailingWindow(xs, i, w);
    assert win[|win| - 1] == xs[i];
    NanMean(win)
  }

  /** The rolling mean at row i is decided by rows up to i: appending or
      changing later rows leaves it unchanged. */
  lemma RollingMeanIgnoresLaterRows(xs: seq<Option<real>>, ys: seq<Option<real>>, i: nat, w: nat)
    requires w >= 1 && i < |xs| && i < |ys| && xs[..i + 1] == ys[..i + 1]
    ensures RollingMean(xs, i, w) == RollingMean(ys, i, w)
  {
    TrailingWindowIgnoresLaterRows(xs, ys, i, w);
  }

  /** With fewer than w rows so far the average runs over all of them, so
      the result exists as soon as one of them has a value. */
  lemma RollingMeanOfShortPrefix(xs: seq<Option<real>>, i: nat, w: nat)
    requires w >= 1 && i < |xs| && i + 1 < w
    ensures RollingMean(xs, i, w) == NanMean(xs[..i + 1])
  {
    assert TrailingWindow(xs, i, w) == xs[..i + 1];
  }

  /* ------------------------------------------------------- pct_change */

  /** `ffill()`: each missing value takes the last value before it. */
  function FFill(xs: seq<Option<real>>): (r: seq<Option<real>>)
    ensures |r| == |xs|
    decreases |xs|
  {
    if |xs| == 0 then []
    else
      var p := FFill(xs[..|xs| - 1]);
      var last := xs[|xs| - 1];
      p + [if last.Some? || |p| == 0 then last else p[|p| - 1]]
  }

  /** Padding keeps present values, carries the previous one into a gap,
      and leaves a leading gap missing. */
  lemma {:induction false} FFillSpec(xs: seq<Option<real>>, i: nat)
    requires i < |xs|
    ensures xs[i].Some? ==> FFill(xs)[i] == xs[i]
    ensures xs[i].None? && i == 0 ==> FFill(xs)[i].None?
    ensures xs[i].None? && i > 0 ==> FFill(xs)[i] == FFill(xs)[i - 1]
    decreases |xs|
  {
    var n := |xs| - 1;
    var p := FFill(xs[..n]);
    if i < n {
      FFillSpec(xs[..n], i);
      if i > 0 {
        assert FFill(xs)[i - 1] == p[i - 1];
      }
    }
  }

  /** `(x / x.shift(1)) - 1` on float quotients: the relative change from
      one value to the next, an infinity when the earlier value is zero. */
  function RatioMinusOne(cur: real, prev: real): (e: Ext)
    ensures prev != 0.0 ==> e == Fin((cur - prev) / prev)
    ensures prev == 0.0 && cur == 0.0 ==> e == NaN
  {
    match Div(cur, prev)
    case Fin(v) =>
      QuotientShift(cur, prev);
      Fin(v - 1.0)
    case other => other
  }

  lemma QuotientShift(cur: real, prev: real)
    requires prev != 0.0
    ensures cur / prev - 1.0 == (cur - prev) / prev
  {
    var r1 := cur / prev - 1.0;
    var r2 := (cur - prev) / prev;
    assert r1 * prev == cur - prev;
    assert r2 * prev == cur - prev;
    assert (r1 - r2) * prev == 0.0;
    assert r1 - r2 == ((r1 - r2) * prev) / prev;
  }

  /** `pct_change()` at row i of a column: missing at the first row and
      wherever either padded value is still missing. */
  function PctChange(xs: seq<Option<real>>, i: nat): (e: Ext)
    requires i < |xs|
    ensures i == 0 ==> e == NaN
  {
    if i == 0 then NaN
    else
      var f := FFill(xs);
      match (f[i], f[i - 1])
      case (Some(cur), Some(prev)) => RatioMinusOne(cur, prev)
      case _ => NaN
  }

  /** Without gaps, the change at row i compares rows i and i - 1 directly. */
  lemma PctChangeOfPresent(xs: seq<Option<real>>, i: nat)
    requires 0 < i < |xs| && xs[i].Some? && xs[i - 1].Some? && xs[i - 1].value != 0.0
    ensures PctChange(xs, i) == Fin((xs[i].value - xs[i - 1].value) / xs[i - 1].value)
  {
    FFillSpec(xs, i);
    FFillSpec(xs, i - 1);
  }
}
