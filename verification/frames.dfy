/** The tables the pipeline passes around: a daily OHLCV bar per stock and
    trading day, and a frame, which is a set of column names over a
    sequence of rows. Dates are day ordinals; a NaN cell is None. */
module Frames {
  import opened Wrappers

  datatype Column =
    | Date | Symbol | Open | High | Low | Close | Volume
    | PrevClose | High52W | Low52W | Sma(period: int)

  /** One row of a stock's history. */
  datatype Bar = Bar(
    date: int,
    open: Option<real>,
    high: Option<real>,
    low: Option<real>,
    close: Option<real>,
    volume: Option<real>)

  /** A DataFrame: the columns it has and its rows in order. */
  datatype Frame<R> = Frame(columns: set<Column>, rows: seq<R>)

  /** `DataFrame.empty`: no rows, or no columns. */
  predicate IsEmpty<R>(f: Frame<R>)
  {
    |f.rows| == 0 || f.columns == {}
  }

  /** The columns of a stock history file. */
  const BarColumns: set<Column> := {Date, Open, High, Low, Close, Volume}

  function DateOf(b: Bar): int
  {
    b.date
  }

  function Closes(bars: seq<Bar>): (xs: seq<Option<real>>)
    ensures |xs| == |bars| && forall i :: 0 <= i < |bars| ==> xs[i] == bars[i].close
  {
    seq(|bars|, i requires 0 <= i < |bars| => bars[i].close)
  }

  function Highs(bars: seq<Bar>): (xs: seq<Option<real>>)
    ensures |xs| == |bars| && forall i :: 0 <= i < |bars| ==> xs[i] == bars[i].high
  {
    seq(|bars|, i requires 0 <= i < |bars| => bars[i].high)
  }

  function Lows(bars: seq<Bar>): (xs: seq<Option<real>>)
    ensures |xs| == |bars| && forall i :: 0 <= i < |bars| ==> xs[i] == bars[i].low
  {
    seq(|bars|, i requires 0 <= i < |bars| => bars[i].low)
  }

  function Volumes(bars: seq<Bar>): (xs: seq<Option<real>>)
    ensures |xs| == |bars| && forall i :: 0 <= i < |bars| ==> xs[i] == bars[i].volume
  {
    seq(|bars|, i requires 0 <= i < |bars| => bars[i].volume)
  }

  /** A column of a prefix is the prefix of the column. */
  lemma ClosesOfPrefix(bars: seq<Bar>, n: nat)
    requires n <= |bars|
    ensures Closes(bars[..n]) == Closes(bars)[..n]
  {
  }
}
