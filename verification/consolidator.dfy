/** The date-wise consolidation: each stock's stored history gets its
    moving averages and 52-week extremes, and the bar of the target day
    becomes one row of that day's snapshot. Stored histories come from an
    oracle from file-name ticker to bars. */
module Consolidator {
  import opened Wrappers
  import Seqs
  import opened Frames
  import opened NanStats
  import Config
  import Fetcher

  /** Bars in a 52-week window: roughly a year of trading days. */
  const YearBars := 252

  /* ------------------------------------------------ moving averages */

  /** A bar with its `SMA_p` columns. */
  datatype SmaRow = SmaRow(bar: Bar, sma: map<int, Option<real>>)

  function BarsOf(rows: seq<SmaRow>): (bars: seq<Bar>)
    ensures |bars| == |rows| && forall i :: 0 <= i < |rows| ==> bars[i] == rows[i].bar
  {
    seq(|rows|, i requires 0 <= i < |rows| => rows[i].bar)
  }

  /** The `SMA_p` cells of row i: one rolling mean of the closes per
      period. */
  function SmaMap(closes: seq<Option<real>>, i: nat, periods: seq<int>): (m: map<int, Option<real>>)
    requires i < |closes| && forall p :: p in periods ==> p >= 1
    ensures m.Keys == set p | p in periods
    ensures forall p :: p in periods ==> m[p] == RollingMean(closes, i, p)
  {
    map p | p in periods :: RollingMean(closes, i, p)
  }

  /** Closes that agree up to row i give the same `SMA_p` cells there. */
  lemma SmaMapIgnoresLaterRows(c1: seq<Option<real>>, c2: seq<Option<real>>, i: nat, periods: seq<int>)
    requires i < |c1| && i < |c2| && c1[..i + 1] == c2[..i + 1]
    requires forall p :: p in periods ==> p >= 1
    ensures SmaMap(c1, i, periods) == SmaMap(c2, i, periods)
  {
    forall p | p in periods ensures SmaMap(c1, i, periods)[p] == SmaMap(c2, i, periods)[p] {
      RollingMeanIgnoresLaterRows(c1, c2, i, p);
    }
  }

  /** `calculate_sma`: the history sorted by date, each row extended with
      one column per period holding the partial-window rolling mean of the
      closes up to and including that row. */
  function CalculateSma(bars: seq<Bar>, periods: seq<int>): (r: seq<SmaRow>)
    requires forall p :: p in periods ==> p >= 1
    ensures BarsOf(r) == Seqs.SortBy(bars, DateOf)
    ensures multiset(BarsOf(r)) == multiset(bars) && Seqs.SortedBy(BarsOf(r), DateOf)
    ensures forall i :: 0 <= i < |r| ==> r[i].sma == SmaMap(Closes(BarsOf(r)), i, periods)
  {
    var sorted := Seqs.SortBy(bars, DateOf);
    var closes := Closes(sorted);
    var r := seq(|sorted|, i requires 0 <= i < |sorted| => SmaRow(sorted[i], SmaMap(closes, i, periods)));
    assert BarsOf(r) == sorted;
    r
  }

  /** The moving average at row i exists whenever that row has a close,
      and over the first p - 1 rows it averages every close so far. */
  lemma SmaDefinedEarly(bars: seq<Bar>, i: nat, p: int)
    requires p in Config.SmaPeriods && i < |bars|
    ensures var r := CalculateSma(bars, Config.SmaPeriods);
      && (r[i].bar.close.Some? ==> r[i].sma[p].Some?)
      && (i + 1 < p ==> r[i].sma[p] == NanMean(Closes(BarsOf(r))[..i + 1]))
  {
    var r := CalculateSma(bars, Config.SmaPeriods);
    if i + 1 < p {
      RollingMeanOfShortPrefix(Closes(BarsOf(r)), i, p);
    }
  }

  /* ------------------------------------------------- 52-week extremes */

  /** The bars `calculate_52week_high_low` looks at: those dated on or
      before the reference day, sorted, and of those the last 252. */
  function YearWindow(bars: seq<Bar>, day: int): (w: seq<Bar>)
    ensures |w| <= YearBars
  {
    LastYearOf(Seqs.Upto(Seqs.SortBy(bars, DateOf), DateOf, day))
  }

  /** The last 252 of the bars up to the day. */
  function LastYearOf(upto: seq<Bar>): (w: seq<Bar>)
    ensures |w| <= YearBars
  {
    if |upto| <= YearBars then upto else upto[|upto| - YearBars..]
  }

  /** The window is sorted and holds bars of the history dated on or
      before the day. */
  lemma YearWindowMembers(bars: seq<Bar>, day: int)
    ensures var w := YearWindow(bars, day);
      && Seqs.SortedBy(w, DateOf)
      && (forall b :: b in w ==> b in bars && b.date <= day)
  {
    var sorted := Seqs.SortBy(bars, DateOf);
    var upto := Seqs.Upto(sorted, DateOf, day);
    Seqs.SortMembers(bars, DateOf);
    Seqs.UptoMembers(sorted, DateOf, day);
    Seqs.UptoSorted(sorted, DateOf, day);
    TailOfSorted(upto, if |upto| <= YearBars then 0 else |upto| - YearBars);
  }

  /** The window holds min(252, n) bars, n the number dated on or before
      the day. */
  lemma YearWindowLength(bars: seq<Bar>, day: int)
    ensures var n := |Seqs.Upto(bars, DateOf, day)|;
      |YearWindow(bars, day)| == if n <= YearBars then n else YearBars
  {
    Seqs.UptoOfSort(bars, DateOf, day);
  }

  /** No bar the window leaves out is later than one it keeps: a bar dated
      on or before the day and after some kept bar is kept too. */
  lemma YearWindowRecent(bars: seq<Bar>, day: int)
    ensures var w := YearWindow(bars, day);
      forall b, c :: b in bars && b.date <= day && c in w && c.date < b.date ==> b in w
  {
    var sorted := Seqs.SortBy(bars, DateOf);
    var upto := Seqs.Upto(sorted, DateOf, day);
    Seqs.SortMembers(bars, DateOf);
    Seqs.UptoMembers(sorted, DateOf, day);
    Seqs.UptoSorted(sorted, DateOf, day);
    TailOfSorted(upto, if |upto| <= YearBars then 0 else |upto| - YearBars);
  }

  /** A suffix of a date-sorted sequence is sorted, holds only its members,
      and every bar it keeps is no earlier than any bar it drops; a bar
      later than one it keeps is kept. */
  lemma TailOfSorted(s: seq<Bar>, start: nat)
    requires start <= |s| && Seqs.SortedBy(s, DateOf)
    ensures Seqs.SortedBy(s[start..], DateOf)
    ensures forall b :: b in s[start..] ==> b in s
    ensures forall b, c :: b in s && c in s[start..] && c.date < b.date ==> b in s[start..]
  {
    var w := s[start..];
    forall b, c | b in s && c in w && c.date < b.date ensures b in w {
      var k :| 0 <= k < |s| && s[k] == b;
      var j :| 0 <= j < |w| && w[j] == c;
      assert s[start + j] == c;
      if k < start {
        assert false;
      }
      assert w[k - start] == b;
    }
  }

  /** The highest High and the lowest Low of a window, each skipping
      missing values, both missing for an empty window; the high is a High
      of the window at least every other, the low a Low at most every other. */
  function Extremes(w: seq<Bar>): (r: (Option<real>, Option<real>))
    ensures |w| == 0 ==> r == (None, None)
    ensures r.0.Some? ==> (exists k :: 0 <= k < |w| && w[k].high == r.0)
                          && forall k :: 0 <= k < |w| && w[k].high.Some? ==> w[k].high.value <= r.0.value
    ensures r.1.Some? ==> (exists k :: 0 <= k < |w| && w[k].low == r.1)
                          && forall k :: 0 <= k < |w| && w[k].low.Some? ==> r.1.value <= w[k].low.value
    ensures r.0.None? <==> forall k :: 0 <= k < |w| ==> w[k].high.None?
    ensures r.1.None? <==> forall k :: 0 <= k < |w| ==> w[k].low.None?
  {
    if |w| == 0 then (None, None)
    else
      var hs := Highs(w);
      var ls := Lows(w);
      var hi := NanMax(hs);
      var lo := NanMin(ls);
      assert hi.Some? ==> exists k :: 0 <= k < |hs| && hs[k] == hi;
      assert lo.Some? ==> exists k :: 0 <= k < |ls| && ls[k] == lo;
      (hi, lo)
  }

  /** `calculate_52week_high_low`: the extremes of the 52-week window. */
  function High52Low52(bars: seq<Bar>, day: int): (r: (Option<real>, Option<real>))
  {
    Extremes(YearWindow(bars, day))
  }

  /** Both extremes are missing when no bar is dated on or before the
      day; a present high is the High of a bar of the history dated on or
      before the day, a present low likewise. */
  lemma High52Low52Spec(bars: seq<Bar>, day: int)
    ensures var r := High52Low52(bars, day);
      && (|Seqs.Upto(bars, DateOf, day)| == 0 ==> r == (None, None))
      && (r.0.Some? ==> exists b :: b in bars && b.date <= day && b.high == r.0)
      && (r.1.Some? ==> exists b :: b in bars && b.date <= day && b.low == r.1)
  {
    YearWindowLength(bars, day);
    YearWindowMembers(bars, day);
    var w := YearWindow(bars, day);
    var r := Extremes(w);
    if r.0.Some? {
      var k :| 0 <= k < |w| && w[k].high == r.0;
      assert w[k] in w;
    }
    if r.1.Some? {
      var k :| 0 <= k < |w| && w[k].low == r.1;
      assert w[k] in w;
    }
  }

  /** Point in time: bars dated after the reference day change neither the
      window nor the extremes. */
  lemma High52PointInTime(xs: seq<Bar>, ys: seq<Bar>, day: int)
    requires forall i :: 0 <= i < |ys| ==> ys[i].date > day
    ensures YearWindow(xs + ys, day) == YearWindow(xs, day)
    ensures High52Low52(xs + ys, day) == High52Low52(xs, day)
  {
    Seqs.SortedUptoIgnoresLaterRows(xs, ys, DateOf, day);
    assert YearWindow(xs + ys, day) == YearWindow(xs, day);
  }

  /* ---------------------------------------------------- snapshot rows */

  /** A row of the consolidated snapshot. `prevClose` is never filled by
      the consolidation; a snapshot built elsewhere may carry it. */
  datatype SnapRow = SnapRow(
    symbol: string,
    open: Option<real>,
    high: Option<real>,
    low: Option<real>,
    close: Option<real>,
    volume: Option<real>,
    prevClose: Option<real>,
    high52: Option<real>,
    low52: Option<real>,
    sma: map<int, Option<real>>)

  /** The columns of a non-empty consolidated snapshot. */
  const SnapColumns: set<Column> :=
    {Symbol, Open, High, Low, Close, Volume, High52W, Low52W} + set p | p in Config.SmaPeriods :: Sma(p)

  /** Index of the first bar dated `day`. */
  function FirstOnDay(bars: seq<Bar>, day: int): (r: Option<nat>)
    ensures r.Some? ==> r.value < |bars| && bars[r.value].date == day
    ensures r.Some? ==> forall j :: 0 <= j < r.value ==> bars[j].date != day
    ensures r.None? ==> forall j :: 0 <= j < |bars| ==> bars[j].date != day
  {
    if |bars| == 0 then None
    else if bars[0].date == day then Some(0)
    else match FirstOnDay(bars[1..], day)
      case None => None
      case Some(k) => Some(k + 1)
  }

  /** The first bar of `day` in the sorted history exists exactly when the
      history has a bar of that day. */
  lemma FirstOnDayOfSorted(bars: seq<Bar>, day: int)
    ensures FirstOnDay(Seqs.SortBy(bars, DateOf), day).Some? <==> Seqs.HasKey(bars, DateOf, day)
  {
    var sorted := Seqs.SortBy(bars, DateOf);
    Seqs.SortMembers(bars, DateOf);
    if Seqs.HasKey(bars, DateOf, day) {
      var k :| 0 <= k < |bars| && bars[k].date == day;
      assert bars[k] in sorted;
      var j :| 0 <= j < |sorted| && sorted[j] == bars[k];
    }
    match FirstOnDay(sorted, day)
    case None =>
    case Some(i) =>
      assert sorted[i] in bars;
  }

  /** The snapshot row of one ticker's history for `day`: the first bar of
      that day after sorting, its moving averages, the 52-week extremes,
      and the given name; nothing without a bar that day. */
  function SnapshotOf(name: string, bars: seq<Bar>, day: int): (r: Option<SnapRow>)
    ensures r.Some? ==> r.value.symbol == name && r.value.prevClose.None?
  {
    SnapshotOfRows(name, CalculateSma(bars, Config.SmaPeriods), day)
  }

  /** The snapshot row read off sorted rows with their moving averages. */
  function SnapshotOfRows(name: string, rows: seq<SmaRow>, day: int): (r: Option<SnapRow>)
    ensures r.Some? ==> r.value.symbol == name && r.value.prevClose.None?
  {
    var sorted := BarsOf(rows);
    match FirstOnDay(sorted, day)
    case None => None
    case Some(i) =>
      var b := sorted[i];
      var (h, l) := High52Low52(sorted, day);
      Some(SnapRow(name, b.open, b.high, b.low, b.close, b.volume, None, h, l, rows[i].sma))
  }

  /** A history yields a row exactly when it has a bar of the day; the row
      copies one of those bars, carries the 52-week extremes of the history
      up to the day, and has a moving average per period. */
  lemma SnapshotOfSpec(name: string, bars: seq<Bar>, day: int)
    ensures var r := SnapshotOf(name, bars, day);
      && (r.Some? <==> Seqs.HasKey(bars, DateOf, day))
      && (r.Some? ==> r.value.sma.Keys == set p | p in Config.SmaPeriods)
      && (r.Some? ==> exists b :: (b in bars && b.date == day &&
            (r.value.open, r.value.high, r.value.low, r.value.close, r.value.volume)
            == (b.open, b.high, b.low, b.close, b.volume)))
      && (r.Some? ==> (r.value.high52, r.value.low52) == High52Low52(bars, day))
  {
    FirstOnDayOfSorted(bars, day);
    High52OfSorted(bars, day);
    Seqs.SortMembers(bars, DateOf);
    var rows := CalculateSma(bars, Config.SmaPeriods);
    match FirstOnDay(BarsOf(rows), day)
    case None =>
    case Some(i) =>
      assert BarsOf(rows)[i] in Seqs.SortBy(bars, DateOf);
  }

  /** The row is built from the first bar of the day in date order: it
      copies that bar's prices and volume, and its `SMA_p` cell is the
      rolling mean of the sorted closes at that bar. */
  lemma SnapshotOfCells(name: string, bars: seq<Bar>, day: int)
    ensures var sorted := Seqs.SortBy(bars, DateOf);
      var r := SnapshotOf(name, bars, day);
      match FirstOnDay(sorted, day)
      case None => r.None?
      case Some(i) =>
        && r.Some?
        && (r.value.open, r.value.high, r.value.low, r.value.close, r.value.volume)
           == (sorted[i].open, sorted[i].high, sorted[i].low, sorted[i].close, sorted[i].volume)
        && forall p :: p in Config.SmaPeriods ==>
             p in r.value.sma && r.value.sma[p] == RollingMean(Closes(sorted), i, p)
  {
    var rows := CalculateSma(bars, Config.SmaPeriods);
    assert BarsOf(rows) == Seqs.SortBy(bars, DateOf);
  }

  /** Point in time: appending bars dated after the target day to a
      history leaves its snapshot row unchanged. */
  lemma SnapshotPointInTime(name: string, xs: seq<Bar>, ys: seq<Bar>, day: int)
    requires forall i :: 0 <= i < |ys| ==> ys[i].date > day
    ensures SnapshotOf(name, xs + ys, day) == SnapshotOf(name, xs, day)
  {
    RowsAgreeAtDay(xs, ys, day);
    SnapshotsAgree(name, CalculateSma(xs + ys, Config.SmaPeriods), CalculateSma(xs, Config.SmaPeriods), day);
  }

  /** With only later bars appended, the sorted rows of both histories
      find the day at the same row, agree on that row and have the same
      extremes. */
  lemma RowsAgreeAtDay(xs: seq<Bar>, ys: seq<Bar>, day: int)
    requires forall i :: 0 <= i < |ys| ==> ys[i].date > day
    ensures var r1 := CalculateSma(xs + ys, Config.SmaPeriods);
      var r2 := CalculateSma(xs, Config.SmaPeriods);
      && FirstOnDay(BarsOf(r1), day) == FirstOnDay(BarsOf(r2), day)
      && High52Low52(BarsOf(r1), day) == High52Low52(BarsOf(r2), day)
      && (FirstOnDay(BarsOf(r1), day).Some? ==>
            var i := FirstOnDay(BarsOf(r1), day).value;
            r1[i] == r2[i])
  {
    var s1 := Seqs.SortBy(xs + ys, DateOf);
    var s2 := Seqs.SortBy(xs, DateOf);
    var n := SortedPrefixAgrees(xs, ys, day);
    FirstOnDaySamePrefix(s1, s2, n, day);
    High52PointInTime(xs, ys, day);
    High52OfSorted(xs + ys, day);
    High52OfSorted(xs, day);
    match FirstOnDay(s2, day)
    case None =>
    case Some(i) =>
      ShorterPrefixAgrees(s1, s2, n, i + 1);
      SmaRowsAgree(xs + ys, xs, i);
  }

  lemma ShorterPrefixAgrees(s1: seq<Bar>, s2: seq<Bar>, n: nat, k: nat)
    requires k <= n <= |s1| && n <= |s2| && s1[..n] == s2[..n]
    ensures s1[..k] == s2[..k] && (k > 0 ==> s1[k - 1] == s2[k - 1])
  {
    assert s1[..k] == s1[..n][..k];
    assert s2[..k] == s2[..n][..k];
    if k > 0 {
      assert s1[k - 1] == s1[..k][k - 1];
      assert s2[k - 1] == s2[..k][k - 1];
    }
  }

  /** Two histories give the same snapshot row when their sorted forms
      find the day at the same row, hold the same bar and moving averages
      there, and have the same extremes. */
  lemma SnapshotsAgree(name: string, r1: seq<SmaRow>, r2: seq<SmaRow>, day: int)
    requires FirstOnDay(BarsOf(r1), day) == FirstOnDay(BarsOf(r2), day)
    requires High52Low52(BarsOf(r1), day) == High52Low52(BarsOf(r2), day)
    requires FirstOnDay(BarsOf(r1), day).Some? ==>
      var i := FirstOnDay(BarsOf(r1), day).value;
      r1[i] == r2[i]
    ensures SnapshotOfRows(name, r1, day) == SnapshotOfRows(name, r2, day)
  {
  }

  /** The extremes of an already sorted history are those of the history. */
  lemma High52OfSorted(bars: seq<Bar>, day: int)
    ensures High52Low52(Seqs.SortBy(bars, DateOf), day) == High52Low52(bars, day)
  {
    var sorted := Seqs.SortBy(bars, DateOf);
    Seqs.SortOfSorted(sorted, DateOf);
    assert Seqs.SortBy(sorted, DateOf) == sorted;
  }

  /** Sorting with and without the later bars gives sequences that agree
      on the prefix of bars up to the day, after which only later bars
      follow. */
  lemma SortedPrefixAgrees(xs: seq<Bar>, ys: seq<Bar>, day: int) returns (n: nat)
    requires forall i :: 0 <= i < |ys| ==> ys[i].date > day
    ensures var s1 := Seqs.SortBy(xs + ys, DateOf); var s2 := Seqs.SortBy(xs, DateOf);
      && n <= |s1| && n <= |s2| && s1[..n] == s2[..n]
      && (forall j :: n <= j < |s1| ==> s1[j].date > day)
      && (forall j :: n <= j < |s2| ==> s2[j].date > day)
  {
    var s1 := Seqs.SortBy(xs + ys, DateOf);
    var s2 := Seqs.SortBy(xs, DateOf);
    Seqs.SortedUptoIgnoresLaterRows(xs, ys, DateOf, day);
    Seqs.UptoIsPrefix(s1, DateOf, day);
    Seqs.UptoIsPrefix(s2, DateOf, day);
    Seqs.UptoRest(s1, DateOf, day);
    Seqs.UptoRest(s2, DateOf, day);
    n := |Seqs.Upto(s1, DateOf, day)|;
  }

  /** Two histories whose sorted forms agree up to row i have the same
      moving averages at row i. */
  lemma SmaRowsAgree(xs: seq<Bar>, ys: seq<Bar>, i: nat)
    requires var s1 := Seqs.SortBy(xs, DateOf); var s2 := Seqs.SortBy(ys, DateOf);
      i < |s1| && i < |s2| && s1[..i + 1] == s2[..i + 1]
    ensures CalculateSma(xs, Config.SmaPeriods)[i] == CalculateSma(ys, Config.SmaPeriods)[i]
  {
    var s1 := Seqs.SortBy(xs, DateOf);
    var s2 := Seqs.SortBy(ys, DateOf);
    assert s1[i] == s1[..i + 1][i] == s2[..i + 1][i] == s2[i];
    ClosesOfPrefix(s1, i + 1);
    ClosesOfPrefix(s2, i + 1);
    SmaMapIgnoresLaterRows(Closes(s1), Closes(s2), i, Config.SmaPeriods);
  }

  /** Two sequences that agree on a prefix and have no bar of `day` after
      it find the same first bar of that day. */
  lemma FirstOnDaySamePrefix(s1: seq<Bar>, s2: seq<Bar>, n: nat, day: int)
    requires n <= |s1| && n <= |s2| && s1[..n] == s2[..n]
    requires forall j :: n <= j < |s1| ==> s1[j].date > day
    requires forall j :: n <= j < |s2| ==> s2[j].date > day
    ensures FirstOnDay(s1, day) == FirstOnDay(s2, day)
    ensures FirstOnDay(s1, day).Some? ==> FirstOnDay(s1, day).value < n
  {
    var a := FirstOnDay(s1, day);
    var b := FirstOnDay(s2, day);
    assert forall j :: 0 <= j < n ==> s1[j] == s2[j] by {
      forall j | 0 <= j < n ensures s1[j] == s2[j] {
        assert s1[..n][j] == s2[..n][j];
      }
    }
    if a.Some? {
      assert s2[a.value] == s1[a.value];
    }
    if b.Some? {
      assert s1[b.value] == s2[b.value];
    }
  }

  /* --------------------------------------------------------- snapshot */

  /** The row one ticker contributes: nothing when its stored history is
      missing or empty. `files` maps file names to stored rows, read
      through `Fetcher.LoadStockData`, so the ticker is stored under its
      name without ".NS". */
  function RowFor(files: string -> Option<seq<Bar>>, symbol: string, day: int): Option<SnapRow>
  {
    match Fetcher.LoadStockData(files, symbol)
    case None => None
    case Some(bars) =>
      if |bars| == 0 then None else SnapshotOf(Fetcher.StripSuffix(symbol), bars, day)
  }

  /** The rows of `consolidate_date`: one per ticker that yields one, in the
      order the tickers are listed. */
  function ConsolidateRows(rowFor: string -> Option<SnapRow>, symbols: seq<string>): (rows: seq<SnapRow>)
    ensures |rows| <= |symbols|
  {
    if |symbols| == 0 then []
    else
      (match rowFor(symbols[0]) case None => [] case Some(row) => [row])
        + ConsolidateRows(rowFor, symbols[1..])
  }

  /** `consolidate_date`: the snapshot frame; with no qualifying ticker an
      empty frame without columns. No minimum number of rows is demanded. */
  function ConsolidateDate(files: string -> Option<seq<Bar>>, symbols: seq<string>, day: int)
    : (f: Frame<SnapRow>)
    ensures |f.rows| <= |symbols|
    ensures |f.rows| > 0 ==> f.columns == SnapColumns
    ensures |f.rows| == 0 ==> f.columns == {}
  {
    var rows := ConsolidateRows(s => RowFor(files, s, day), symbols);
    if |rows| == 0 then Frame({}, []) else Frame(SnapColumns, rows)
  }

  /** A ticker yields a row exactly when its stored history has a bar of
      the day; the row carries the ticker's file name. */
  lemma RowForSpec(files: string -> Option<seq<Bar>>, symbol: string, day: int)
    ensures var f := Fetcher.StripSuffix(symbol);
      && (RowFor(files, symbol, day).Some? <==> files(f).Some? && Seqs.HasKey(files(f).value, DateOf, day))
      && (RowFor(files, symbol, day).Some? ==> RowFor(files, symbol, day).value.symbol == f)
  {
    match Fetcher.LoadStockData(files, symbol)
    case None =>
    case Some(bars) =>
      SnapshotOfSpec(Fetcher.StripSuffix(symbol), bars, day);
  }

  /** Tickers contribute independently and in order. */
  lemma {:induction false} ConsolidateRowsAppend(rowFor: string -> Option<SnapRow>, a: seq<string>, b: seq<string>)
    ensures ConsolidateRows(rowFor, a + b) == ConsolidateRows(rowFor, a) + ConsolidateRows(rowFor, b)
  {
    if |a| > 0 {
      assert (a + b)[0] == a[0] && (a + b)[1..] == a[1..] + b;
      ConsolidateRowsAppend(rowFor, a[1..], b);
    } else {
      assert a + b == b;
    }
  }

  /** The snapshot is empty exactly when no ticker qualifies. */
  lemma {:induction false} ConsolidateEmptyIff(rowFor: string -> Option<SnapRow>, symbols: seq<string>)
    ensures ConsolidateRows(rowFor, symbols) == [] <==>
            forall k :: 0 <= k < |symbols| ==> rowFor(symbols[k]).None?
  {
    if |symbols| > 0 {
      ConsolidateEmptyIff(rowFor, symbols[1..]);
      assert forall k :: 1 <= k < |symbols| ==> symbols[k] == symbols[1..][k - 1];
    }
  }

  /** Every row is the row of a listed ticker. */
  lemma {:induction false} ConsolidateRowsFromTickers(rowFor: string -> Option<SnapRow>, symbols: seq<string>)
    ensures forall row :: row in ConsolidateRows(rowFor, symbols) ==>
              exists k :: 0 <= k < |symbols| && rowFor(symbols[k]) == Some(row)
  {
    if |symbols| > 0 {
      ConsolidateRowsFromTickers(rowFor, symbols[1..]);
      forall row | row in ConsolidateRows(rowFor, symbols)
        ensures exists k :: 0 <= k < |symbols| && rowFor(symbols[k]) == Some(row)
      {
        if rowFor(symbols[0]) != Some(row) {
          var k :| 0 <= k < |symbols[1..]| && rowFor(symbols[1..][k]) == Some(row);
          assert symbols[k + 1] == symbols[1..][k];
        }
      }
    }
  }

  /** Every qualifying ticker contributes its row. */
  lemma {:induction false} ConsolidateRowsComplete(rowFor: string -> Option<SnapRow>, symbols: seq<string>)
    ensures forall k :: 0 <= k < |symbols| && rowFor(symbols[k]).Some? ==>
              rowFor(symbols[k]).value in ConsolidateRows(rowFor, symbols)
  {
    if |symbols| > 0 {
      ConsolidateRowsComplete(rowFor, symbols[1..]);
      forall k | 0 <= k < |symbols| && rowFor(symbols[k]).Some?
        ensures rowFor(symbols[k]).value in ConsolidateRows(rowFor, symbols)
      {
        if k > 0 {
          assert symbols[k] == symbols[1..][k - 1];
        }
      }
    }
  }
}
