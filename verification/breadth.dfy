/** The breadth engine: sixteen metrics computed from one day's snapshot.
    Every metric is a count of snapshot rows meeting a condition, turned
    into a percentage of the row count (or, for the 4.5 ratio, a quotient
    of two counts). Comparisons with a missing value are false, as in
    pandas, so a row with a missing cell counts on neither side. */
module Breadth {
  import opened Wrappers
  import opened Numeric
  import opened Frames
  import Config
  import Consolidator
  import Seqs

  type SnapRow = Consolidator.SnapRow

  /** `a > b` between two cells; false when either is missing. */
  predicate Gt(a: Option<real>, b: Option<real>)
  {
    a.Some? && b.Some? && a.value > b.value
  }

  /** `a >= b` between two cells; false when either is missing. */
  predicate Ge(a: Option<real>, b: Option<real>)
  {
    a.Some? && b.Some? && a.value >= b.value
  }

  /** The `SMA_p` cell of a row; missing when the row has none. */
  function SmaCell(row: SnapRow, p: int): Option<real>
  {
    if p in row.sma then row.sma[p] else None
  }

  /* ---------------------------------------------------- daily change */

  /** `.replace(0, np.nan)`: a zero price is no usable base. */
  function NonZero(x: Option<real>): (r: Option<real>)
    ensures r.Some? <==> x.Some? && x.value != 0.0
    ensures r.Some? ==> r == x
  {
    if x.Some? && x.value != 0.0 then x else None
  }

  /** `(close - base) / base * 100`, missing when either side is. */
  function ChangeOver(close: Option<real>, base: Option<real>): (r: Option<real>)
    requires base.Some? ==> base.value != 0.0
    ensures r.Some? <==> close.Some? && base.Some?
    ensures r.Some? ==> r.value * base.value == (close.value - base.value) * 100.0
  {
    if close.Some? && base.Some? then
      Some((close.value - base.value) / base.value * 100.0)
    else None
  }

  /** The row's daily change in percent: against the previous close when
      the snapshot has that column, otherwise against the open, zero read
      as missing; a row whose change is still missing retries against its
      open. */
  function DailyChange(columns: set<Column>, row: SnapRow): (r: Option<real>)
    ensures r.Some? ==> row.close.Some?
    ensures row.close.None? ==> r.None?
  {
    var base := if PrevClose in columns then NonZero(row.prevClose) else NonZero(row.open);
    var first := ChangeOver(row.close, base);
    if first.Some? then first else ChangeOver(row.close, NonZero(row.open))
  }

  /** The base the change is measured against: the previous close when its
      column exists and the value is present and non-zero, otherwise a
      non-zero open; with neither the change is missing. */
  lemma DailyChangeBase(columns: set<Column>, row: SnapRow)
    requires row.close.Some?
    ensures var c := row.close.value;
      && (PrevClose in columns && row.prevClose.Some? && row.prevClose.value != 0.0 ==>
            DailyChange(columns, row) == Some((c - row.prevClose.value) / row.prevClose.value * 100.0))
      && (!(PrevClose in columns && row.prevClose.Some? && row.prevClose.value != 0.0) ==>
            DailyChange(columns, row) == ChangeOver(row.close, NonZero(row.open)))
      && (DailyChange(columns, row).None? <==>
            !(PrevClose in columns && row.prevClose.Some? && row.prevClose.value != 0.0)
            && !(row.open.Some? && row.open.value != 0.0))
  {
  }

  /* ------------------------------------------------------------ counts */

  /** The conditions the engine counts. */
  datatype Cond =
    | AtHigh       // close >= 52-week high
    | AtLow        // close <= 52-week low
    | UpBig        // daily change > +4.5 %
    | DownBig      // daily change < -4.5 %
    | Above(p: int) // close > SMA_p
    | Below(p: int) // close < SMA_p

  predicate Holds(columns: set<Column>, row: SnapRow, c: Cond)
  {
    match c
    case AtHigh => Ge(row.close, row.high52)
    case AtLow => Ge(row.low52, row.close)
    case UpBig =>
      var d := DailyChange(columns, row);
      d.Some? && d.value > Config.DailyChangeThreshold
    case DownBig =>
      var d := DailyChange(columns, row);
      d.Some? && d.value < -Config.DailyChangeThreshold
    case Above(p) => Gt(row.close, SmaCell(row, p))
    case Below(p) => Gt(SmaCell(row, p), row.close)
  }

  /** `(condition).sum()`: how many rows meet the condition. */
  function Count(columns: set<Column>, rows: seq<SnapRow>, c: Cond): (k: nat)
    ensures k <= |rows|
  {
    if |rows| == 0 then 0
    else (if Holds(columns, rows[0], c) then 1 else 0) + Count(columns, rows[1..], c)
  }

  /** No row meets the condition exactly when the count is 0, and every
      row does exactly when it is the row count. */
  lemma {:induction false} CountExtremes(columns: set<Column>, rows: seq<SnapRow>, c: Cond)
    ensures Count(columns, rows, c) == 0 <==> forall i :: 0 <= i < |rows| ==> !Holds(columns, rows[i], c)
    ensures Count(columns, rows, c) == |rows| <==> forall i :: 0 <= i < |rows| ==> Holds(columns, rows[i], c)
  {
    if |rows| > 0 {
      CountExtremes(columns, rows[1..], c);
      assert forall i :: 1 <= i < |rows| ==> rows[i] == rows[1..][i - 1];
    }
  }

  /** Counts add up over a split of the rows. */
  lemma {:induction false} CountAppend(columns: set<Column>, xs: seq<SnapRow>, ys: seq<SnapRow>, c: Cond)
    ensures Count(columns, xs + ys, c) == Count(columns, xs, c) + Count(columns, ys, c)
  {
    if |xs| > 0 {
      assert (xs + ys)[0] == xs[0] && (xs + ys)[1..] == xs[1..] + ys;
      CountAppend(columns, xs[1..], ys, c);
    } else {
      assert xs + ys == ys;
    }
  }

  /** Two conditions no row meets together count at most all rows. */
  lemma {:induction false} CountDisjoint(columns: set<Column>, rows: seq<SnapRow>, a: Cond, b: Cond)
    requires forall i :: 0 <= i < |rows| ==> !(Holds(columns, rows[i], a) && Holds(columns, rows[i], b))
    ensures Count(columns, rows, a) + Count(columns, rows, b) <= |rows|
  {
    if |rows| > 0 {
      assert forall i :: 0 <= i < |rows[1..]| ==> rows[1..][i] == rows[i + 1];
      CountDisjoint(columns, rows[1..], a, b);
    }
  }

  /** A close equal to its moving average is neither above nor below it,
      and a missing close or average is neither either. */
  lemma TiesCountNeither(columns: set<Column>, row: SnapRow, p: int)
    requires row.close == SmaCell(row, p) || row.close.None? || SmaCell(row, p).None?
    ensures !Holds(columns, row, Above(p)) && !Holds(columns, row, Below(p))
  {
  }

  /** Above and below a moving average are exclusive, so their counts
      never exceed the number of rows. */
  lemma AboveBelowExclusive(columns: set<Column>, rows: seq<SnapRow>, p: int)
    ensures Count(columns, rows, Above(p)) + Count(columns, rows, Below(p)) <= |rows|
  {
    CountDisjoint(columns, rows, Above(p), Below(p));
  }

  /** A row is never both up and down by more than 4.5 %, and a row without
      a usable base is neither. */
  lemma BigMovesExclusive(columns: set<Column>, rows: seq<SnapRow>)
    ensures Count(columns, rows, UpBig) + Count(columns, rows, DownBig) <= |rows|
    ensures forall i :: 0 <= i < |rows| && DailyChange(columns, rows[i]).None? ==>
              !Holds(columns, rows[i], UpBig) && !Holds(columns, rows[i], DownBig)
  {
    CountDisjoint(columns, rows, UpBig, DownBig);
  }

  /* ----------------------------------------------------------- metrics */

  /** `round(k / n * 100, 2)`: within half a hundredth of the exact share,
      and a percentage whenever k <= n. */
  function Percent(k: nat, n: nat): (r: real)
    requires n > 0
    ensures (k as real) / (n as real) * 100.0 - 0.005 < r <= (k as real) / (n as real) * 100.0 + 0.005
    ensures k <= n ==> 0.0 <= r <= 100.0
    ensures k == 0 ==> r == 0.0
    ensures k == n ==> r == 100.0
  {
    ShareFacts(k, n);
    Round2((k as real) / (n as real) * 100.0)
  }

  lemma ShareFacts(k: nat, n: nat)
    requires n > 0
    ensures var x := (k as real) / (n as real) * 100.0;
      && (k <= n ==> 0.0 <= Round2(x) <= 100.0)
      && (k == 0 ==> Round2(x) == 0.0)
      && (k == n ==> Round2(x) == 100.0)
  {
    var x := (k as real) / (n as real) * 100.0;
    if k <= n {
      QuotientBounds(k as real, n as real, 0.0, 1.0);
      Round2InPercentRange(x);
    }
    if k == 0 {
      Round2OfWhole(0);
    }
    if k == n {
      var q := (k as real) / (n as real);
      assert q * (n as real) == n as real;
      assert (q - 1.0) * (n as real) == 0.0;
      assert q == 1.0;
      Round2OfWhole(100);
    }
  }

  /** Whole numbers are their own two-place rounding. */
  lemma Round2OfWhole(m: int)
    ensures Round2(m as real) == m as real
  {
    var r := Round2(m as real);
    var k := (r * 100.0).Floor;
    assert k as real == r * 100.0;
    assert (m * 100) as real - 0.5 < k as real <= (m * 100) as real + 0.5;
    assert k == m * 100;
  }

  /** The 4.5 ratio: up / down to two places, with the sentinels 0.0 (no
      move either way) and 99.99 (moves only upward). */
  function Ratio(up: nat, down: nat): (r: real)
    ensures r >= 0.0
    ensures down > 0 ==> (up as real) / (down as real) - 0.005 < r <= (up as real) / (down as real) + 0.005
    ensures down == 0 ==> (r == 0.0 <==> up == 0)
    ensures down == 0 && up > 0 ==> r == 99.99
    ensures up == 0 ==> r == 0.0
  {
    if down > 0 then
      Round2OfWhole(0);
      Round2((up as real) / (down as real))
    else if up == 0 then 0.0
    else 99.99
  }

  /** The two percentages of one moving average. */
  datatype SmaSplit = SmaSplit(above: real, below: real)

  /** One breadth record: the sixteen columns of the ledger. */
  datatype BreadthRecord = BreadthRecord(
    date: int,
    high52: real,
    low52: real,
    up45: real,
    down45: real,
    sma10: SmaSplit,
    sma20: SmaSplit,
    sma50: SmaSplit,
    sma200: SmaSplit,
    ratio45: real,
    count20: nat,
    count50: nat)

  /** The above/below percentages for one period; both 0.0 when the
      snapshot has no `SMA_p` column. */
  function SmaSplitOf(snap: Frame<SnapRow>, p: int): (s: SmaSplit)
    requires |snap.rows| > 0
    ensures Sma(p) !in snap.columns ==> s == SmaSplit(0.0, 0.0)
    ensures 0.0 <= s.above <= 100.0 && 0.0 <= s.below <= 100.0
  {
    var n := |snap.rows|;
    if Sma(p) in snap.columns then
      SmaSplit(Percent(Count(snap.columns, snap.rows, Above(p)), n),
               Percent(Count(snap.columns, snap.rows, Below(p)), n))
    else SmaSplit(0.0, 0.0)
  }

  /** The raw count of closes above `SMA_p`; 0 without the column. */
  function RawAbove(snap: Frame<SnapRow>, p: int): (k: nat)
    ensures k <= |snap.rows|
    ensures Sma(p) !in snap.columns ==> k == 0
  {
    if Sma(p) in snap.columns then Count(snap.columns, snap.rows, Above(p)) else 0
  }

  /** `calculate_breadth_metrics`: nothing for an empty snapshot (no
      division happens), otherwise the record of the day's metrics, each
      percentage within [0, 100]. */
  function CalculateBreadth(snap: Frame<SnapRow>, day: int): (r: Option<BreadthRecord>)
    ensures r.None? <==> |snap.rows| == 0
    ensures r.Some? ==> r.value.date == day
    ensures r.Some? ==> var m := r.value;
      && 0.0 <= m.high52 <= 100.0 && 0.0 <= m.low52 <= 100.0
      && 0.0 <= m.up45 <= 100.0 && 0.0 <= m.down45 <= 100.0
      && m.ratio45 >= 0.0
      && m.count20 <= |snap.rows| && m.count50 <= |snap.rows|
  {
    var n := |snap.rows|;
    if n == 0 then None
    else
      var cols := snap.columns;
      var up := Count(cols, snap.rows, UpBig);
      var down := Count(cols, snap.rows, DownBig);
      Some(BreadthRecord(
        day,
        Percent(Count(cols, snap.rows, AtHigh), n),
        Percent(Count(cols, snap.rows, AtLow), n),
        Percent(up, n),
        Percent(down, n),
        SmaSplitOf(snap, 10),
        SmaSplitOf(snap, 20),
        SmaSplitOf(snap, 50),
        SmaSplitOf(snap, 200),
        Ratio(up, down),
        RawAbove(snap, 20),
        RawAbove(snap, 50)))
  }

  /** The split of period p holds the shares of closes above and below
      `SMA_p` when the column exists, and 0.0 for both when it does not. */
  predicate SplitCounts(snap: Frame<SnapRow>, p: int, s: SmaSplit)
    requires |snap.rows| > 0
  {
    var n := |snap.rows|;
    if Sma(p) in snap.columns then
      s == SmaSplit(Percent(Count(snap.columns, snap.rows, Above(p)), n),
                    Percent(Count(snap.columns, snap.rows, Below(p)), n))
    else s == SmaSplit(0.0, 0.0)
  }

  /** Every percentage of the record is the share of rows meeting its
      condition: `52WH(%)` counts closes at or above the 52-week high,
      `52WL(%)` closes at or below the low, `4.5±(%)` the big daily moves,
      and `p+(%)`/`p-(%)` closes above and below `SMA_p` when that column
      exists, 0.0 for both when it does not. */
  lemma BreadthValues(snap: Frame<SnapRow>, day: int)
    requires |snap.rows| > 0
    ensures var m := CalculateBreadth(snap, day).value;
      var cols := snap.columns;
      var rows := snap.rows;
      var n := |rows|;
      && m.high52 == Percent(Count(cols, rows, AtHigh), n)
      && m.low52 == Percent(Count(cols, rows, AtLow), n)
      && m.up45 == Percent(Count(cols, rows, UpBig), n)
      && m.down45 == Percent(Count(cols, rows, DownBig), n)
      && SplitCounts(snap, 10, m.sma10) && SplitCounts(snap, 20, m.sma20)
      && SplitCounts(snap, 50, m.sma50) && SplitCounts(snap, 200, m.sma200)
  {
  }

  /** The `20sma` and `50sma` columns are the raw counts behind `20+(%)`
      and `50+(%)`: the percentage is exactly that count's share. */
  lemma RawCountsMatchPercentages(snap: Frame<SnapRow>, day: int)
    requires |snap.rows| > 0
    ensures var m := CalculateBreadth(snap, day).value;
      && (Sma(20) in snap.columns ==> m.sma20.above == Percent(m.count20, |snap.rows|))
      && (Sma(50) in snap.columns ==> m.sma50.above == Percent(m.count50, |snap.rows|))
      && (Sma(20) !in snap.columns ==> m.count20 == 0 && m.sma20 == SmaSplit(0.0, 0.0))
      && (Sma(50) !in snap.columns ==> m.count50 == 0 && m.sma50 == SmaSplit(0.0, 0.0))
  {
  }

  /** The 4.5 ratio is built from the same counts as `4.5+(%)` and
      `4.5-(%)`: with no downward move the ratio is the sentinel 99.99
      exactly when some move was upward, and 0.0 exactly when none was. */
  lemma RatioMatchesMoves(snap: Frame<SnapRow>, day: int)
    requires |snap.rows| > 0
    ensures var m := CalculateBreadth(snap, day).value;
      var up := Count(snap.columns, snap.rows, UpBig);
      var down := Count(snap.columns, snap.rows, DownBig);
      && m.up45 == Percent(up, |snap.rows|) && m.down45 == Percent(down, |snap.rows|)
      && (down == 0 ==> m.down45 == 0.0 && (m.ratio45 == 99.99 <==> up > 0) && (m.ratio45 == 0.0 <==> up == 0))
  {
  }

  /** Counts depend only on which rows the snapshot holds, not on their
      order. */
  lemma {:induction false} CountOfPermutation(columns: set<Column>, xs: seq<SnapRow>, ys: seq<SnapRow>, c: Cond)
    requires multiset(xs) == multiset(ys)
    ensures Count(columns, xs, c) == Count(columns, ys, c)
    decreases |xs|
  {
    if |xs| > 0 {
      var x := xs[0];
      var j := Seqs.MatchHead(xs, ys);
      var pre, post := ys[..j], ys[j + 1..];
      assert ys == pre + [x] + post;
      CountAppend(columns, pre + [x], post, c);
      CountAppend(columns, pre, [x], c);
      CountAppend(columns, pre, post, c);
      CountAppend(columns, [x], xs[1..], c);
      assert xs == [x] + xs[1..];
      CountOfPermutation(columns, xs[1..], pre + post, c);
    } else {
      assert ys == [];
    }
  }

  /** The metrics depend only on which rows the snapshot holds, not on the
      order of the tickers that produced them. */
  lemma BreadthOfPermutation(snap: Frame<SnapRow>, other: seq<SnapRow>, day: int)
    requires multiset(snap.rows) == multiset(other)
    ensures CalculateBreadth(snap, day) == CalculateBreadth(Frame(snap.columns, other), day)
  {
    var cols := snap.columns;
    assert |snap.rows| == |other| by {
      assert |multiset(snap.rows)| == |multiset(other)|;
    }
    forall c: Cond ensures Count(cols, snap.rows, c) == Count(cols, other, c) {
      CountOfPermutation(cols, snap.rows, other, c);
    }
  }
}
