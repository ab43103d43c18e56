/** Exact-real arithmetic shared by the pipeline: sums and means, the
    trailing partial window that pandas' `rolling(window=w, min_periods=1)`
    averages over, extremes of a non-empty sequence, two-decimal rounding,
    truncation toward zero, and IEEE-style division whose zero divisor yields
    an infinity or NaN instead of an error. */
module Numeric {

  /* ---------------------------------------------------------------- sums */

  function Sum(xs: seq<real>): real
  {
    if |xs| == 0 then 0.0 else xs[0] + Sum(xs[1..])
  }

  /** Every element in [lo, hi] puts the sum in [n*lo, n*hi]. */
  lemma {:induction false} SumBounds(xs: seq<real>, lo: real, hi: real)
    requires forall i :: 0 <= i < |xs| ==> lo <= xs[i] <= hi
    ensures (|xs| as real) * lo <= Sum(xs) <= (|xs| as real) * hi
  {
    if |xs| > 0 {
      SumBounds(xs[1..], lo, hi);
      var n := |xs| as real;
      assert n * lo == lo + (n - 1.0) * lo;
      assert n * hi == hi + (n - 1.0) * hi;
    }
  }

  /* -------------------------------------------------------------- extremes */

  function MaxOf(xs: seq<real>): (m: real)
    requires |xs| > 0
    ensures exists i :: 0 <= i < |xs| && xs[i] == m
    ensures forall i :: 0 <= i < |xs| ==> xs[i] <= m
  {
    if |xs| == 1 then xs[0]
    else
      var rest := MaxOf(xs[1..]);
      if xs[0] >= rest then xs[0] else rest
  }

  function MinOf(xs: seq<real>): (m: real)
    requires |xs| > 0
    ensures exists i :: 0 <= i < |xs| && xs[i] == m
    ensures forall i :: 0 <= i < |xs| ==> m <= xs[i]
  {
    if |xs| == 1 then xs[0]
    else
      var rest := MinOf(xs[1..]);
      if xs[0] <= rest then xs[0] else rest
  }

  /* ----------------------------------------------------------------- means */

  /** Arithmetic mean; it always lies between the smallest and the largest
      element it averages. */
  function Mean(xs: seq<real>): (m: real)
    requires |xs| > 0
    ensures MinOf(xs) <= m <= MaxOf(xs)
  {
    SumBounds(xs, MinOf(xs), MaxOf(xs));
    QuotientBounds(Sum(xs), |xs| as real, MinOf(xs), MaxOf(xs));
    Sum(xs) / (|xs| as real)
  }

  lemma QuotientBounds(s: real, n: real, lo: real, hi: real)
    requires n > 0.0 && n * lo <= s <= n * hi
    ensures lo <= s / n <= hi
  {
    var q := s / n;
    assert q * n == s;
    assert (q - lo) * n >= 0.0;
    assert (hi - q) * n >= 0.0;
  }

  /** First index of the trailing window of (at most) w rows ending at row i. */
  function WindowStart(i: nat, w: nat): (start: nat)
    requires w >= 1
    ensures start <= i
    ensures i + 1 - start == if i + 1 < w then i + 1 else w
  {
    if i + 1 < w then 0 else i + 1 - w
  }

  /** The rows a `rolling(window=w, min_periods=1)` aggregate sees at row i:
      the last w rows up to and including i, or all of them while fewer than
      w exist. */
  function TrailingWindow<T>(xs: seq<T>, i: nat, w: nat): (win: seq<T>)
    requires w >= 1 && i < |xs|
    ensures |win| == if i + 1 < w then i + 1 else w
    ensures |win| >= 1 && win[|win| - 1] == xs[i]
  {
    xs[WindowStart(i, w)..i + 1]
  }

  /** A trailing window is decided by the rows up to i alone. */
  lemma TrailingWindowIgnoresLaterRows<T>(xs: seq<T>, ys: seq<T>, i: nat, w: nat)
    requires w >= 1 && i < |xs| && i < |ys| && xs[..i + 1] == ys[..i + 1]
    ensures TrailingWindow(xs, i, w) == TrailingWindow(ys, i, w)
  {
    var s := WindowStart(i, w);
    assert xs[s..i + 1] == xs[..i + 1][s..];
    assert ys[s..i + 1] == ys[..i + 1][s..];
  }

  /* -------------------------------------------------------------- rounding */

  /** Half-up rounding to two decimals: the result is a multiple of 0.01
      within half a cent of x. */
  function Round2(x: real): (r: real)
    ensures x - 0.005 < r <= x + 0.005
    ensures (r * 100.0).Floor as real == r * 100.0
  {
    ((x * 100.0 + 0.5).Floor as real) / 100.0
  }

  /** Rounding keeps a percentage within [0, 100]. */
  lemma Round2InPercentRange(x: real)
    requires 0.0 <= x <= 100.0
    ensures 0.0 <= Round2(x) <= 100.0
  {
    var f := (x * 100.0 + 0.5).Floor;
    assert 0 <= f <= 10000;
  }

  /** Python's `int(x)`: truncation toward zero. */
  function TruncToInt(x: real): (n: int)
    ensures x >= 0.0 ==> 0 <= n && n as real <= x < n as real + 1.0
    ensures x < 0.0 ==> n <= 0 && n as real - 1.0 < x <= n as real
  {
    if x >= 0.0 then x.Floor else -((-x).Floor)
  }

  /* ------------------------------------------------- IEEE-style division */

  /** A float quotient: finite, one of the two infinities, or NaN. */
  datatype Ext = Fin(v: real) | PosInf | NegInf | NaN

  /** `a / b` as numpy evaluates it: x/0 is +inf or -inf by the sign of x,
      and 0/0 is NaN. */
  function Div(a: real, b: real): (q: Ext)
    ensures b != 0.0 <==> q.Fin?
    ensures q.Fin? ==> q.v * b == a
    ensures q == NaN <==> (a == 0.0 && b == 0.0)
  {
    if b != 0.0 then Fin(a / b)
    else if a > 0.0 then PosInf
    else if a < 0.0 then NegInf
    else NaN
  }

  /** `e > t` for a float e: NaN compares false, +inf exceeds every bound. */
  predicate GreaterThan(e: Ext, t: real)
  {
    match e
    case Fin(v) => v > t
    case PosInf => true
    case NegInf => false
    case NaN => false
  }

  /** `abs(e)` for a float e. */
  function AbsExt(e: Ext): (a: Ext)
    ensures a.Fin? <==> e.Fin?
    ensures a.Fin? ==> a.v >= 0.0 && (a.v == e.v || a.v == -e.v)
    ensures a == NaN <==> e == NaN
  {
    match e
    case Fin(v) => Fin(if v < 0.0 then -v else v)
    case PosInf => PosInf
    case NegInf => PosInf
    case NaN => NaN
  }

  function ScaleExt(e: Ext, k: real): Ext
    requires k > 0.0
  {
    match e
    case Fin(v) => Fin(v * k)
    case _ => e
  }

  function Round2Ext(e: Ext): Ext
  {
    match e
    case Fin(v) => Fin(Round2(v))
    case _ => e
  }
}
