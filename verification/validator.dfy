/** Data-quality checks on stock histories and snapshots: the per-history
    validation with its list of issues, the snapshot gate, the quality
    statistics, and the row-cleaning filter. Comparisons with a missing
    cell are false, as in pandas. */
module Validator {
  import opened Wrappers
  import Seqs
  import opened Frames
  import Config
  import Consolidator
  import NanStats

  /** The columns a stock history must have, in the order they are checked. */
  const Required: seq<Column> := [Date, Open, High, Low, Close, Volume]

  /** The price columns, in the order they are checked. */
  const Prices: seq<Column> := [Open, High, Low, Close]

  /** The columns a snapshot must have. */
  const SnapRequired: seq<Column> := [Symbol, Open, High, Low, Close, Volume]

  /** The columns of `wanted` a frame lacks, in order. */
  function MissingColumns(columns: set<Column>, wanted: seq<Column>): (m: seq<Column>)
    ensures forall c :: c in m <==> c in wanted && c !in columns
    ensures |m| <= |wanted|
    ensures |m| == 0 <==> forall c :: c in wanted ==> c in columns
  {
    assert |wanted| > 0 ==> wanted[0] in wanted;
    if |wanted| == 0 then []
    else (if wanted[0] in columns then [] else [wanted[0]]) + MissingColumns(columns, wanted[1..])
  }

  /** The cell of a price or volume column; a date is never missing. */
  function Cell(b: Bar, c: Column): Option<real>
  {
    match c
    case Open => b.open
    case High => b.high
    case Low => b.low
    case Close => b.close
    case Volume => b.volume
    case _ => Some(b.date as real)
  }

  /** `a < b` between two cells; false when either is missing. */
  predicate Lt(a: Option<real>, b: Option<real>)
  {
    a.Some? && b.Some? && a.value < b.value
  }

  /** How many rows satisfy p. */
  function Tally(rows: seq<Bar>, p: Bar -> bool): (k: nat)
    ensures k <= |rows|
  {
    if |rows| == 0 then 0 else (if p(rows[0]) then 1 else 0) + Tally(rows[1..], p)
  }

  /** No row satisfies p exactly when the tally is 0. */
  lemma {:induction false} TallyZero(rows: seq<Bar>, p: Bar -> bool)
    ensures Tally(rows, p) == 0 <==> forall i :: 0 <= i < |rows| ==> !p(rows[i])
  {
    if |rows| > 0 {
      TallyZero(rows[1..], p);
      assert forall i :: 1 <= i < |rows| ==> rows[i] == rows[1..][i - 1];
    }
  }

  /** `df["Date"].duplicated().sum()`: rows whose date already occurred
      earlier. */
  function DuplicateCount(rows: seq<Bar>): (k: nat)
    ensures k <= |rows|
    decreases |rows|
  {
    if |rows| == 0 then 0
    else
      var init := rows[..|rows| - 1];
      DuplicateCount(init) + (if Seqs.HasKey(init, DateOf, rows[|rows| - 1].date) then 1 else 0)
  }

  /** No date repeats exactly when no row is counted as a duplicate. */
  lemma {:induction false} DuplicateCountZero(rows: seq<Bar>)
    ensures DuplicateCount(rows) == 0 <==> Seqs.UniqueKeys(rows, DateOf)
    decreases |rows|
  {
    if |rows| > 0 {
      var n := |rows| - 1;
      var init := rows[..n];
      DuplicateCountZero(init);
      assert forall i :: 0 <= i < n ==> init[i] == rows[i];
      if Seqs.UniqueKeys(rows, DateOf) {
        assert Seqs.UniqueKeys(init, DateOf);
      }
    }
  }

  /* -------------------------------------------------- validate_stock_data */

  datatype Issue =
    | EmptyFrame
    | MissingCols(columns: seq<Column>)
    | Nulls(column: Column, count: nat)
    | BelowMinPrice(column: Column, count: nat)
    | NegativeVolume(count: nat)
    | HighBelowLow(count: nat)
    | CloseOutsideRange(count: nat)
    | DuplicateDates(count: nat)

  predicate IsNull(b: Bar, c: Column)
  {
    Cell(b, c).None?
  }

  predicate BelowMin(b: Bar, c: Column)
  {
    Lt(Cell(b, c), Some(Config.MinPrice))
  }

  predicate HighUnderLow(b: Bar)
  {
    Lt(b.high, b.low)
  }

  predicate CloseOutside(b: Bar)
  {
    Lt(b.high, b.close) || Lt(b.close, b.low)
  }

  predicate VolumeNegative(b: Bar)
  {
    Lt(b.volume, Some(Config.MinVolume))
  }

  /** One issue per column with missing cells, in column order. */
  function NullIssues(rows: seq<Bar>, cols: seq<Column>): (r: seq<Issue>)
    ensures forall x :: x in r ==> x.Nulls? && x.column in cols && x.count > 0
  {
    if |cols| == 0 then []
    else
      var k := Tally(rows, (b: Bar) => IsNull(b, cols[0]));
      (if k > 0 then [Nulls(cols[0], k)] else []) + NullIssues(rows, cols[1..])
  }

  /** A column gets a null issue exactly when one of its cells is missing. */
  lemma {:induction false} NullIssuesExact(rows: seq<Bar>, cols: seq<Column>, c: Column)
    ensures (exists x :: x in NullIssues(rows, cols) && x.column == c) <==>
            c in cols && exists i :: 0 <= i < |rows| && IsNull(rows[i], c)
  {
    if |cols| > 0 {
      NullIssuesExact(rows, cols[1..], c);
      var p := (b: Bar) => IsNull(b, cols[0]);
      TallyZero(rows, p);
      var k := Tally(rows, p);
      var here := if k > 0 then [Nulls(cols[0], k)] else [];
      assert NullIssues(rows, cols) == here + NullIssues(rows, cols[1..]);
      assert c in cols <==> c == cols[0] || c in cols[1..];
      if c == cols[0] && k > 0 {
        assert here[0] in NullIssues(rows, cols);
      }
    }
  }

  /** One issue per price column with values under the minimum price. */
  function PriceIssues(rows: seq<Bar>, cols: seq<Column>): (r: seq<Issue>)
    ensures forall x :: x in r ==> x.BelowMinPrice? && x.column in cols && x.count > 0
  {
    if |cols| == 0 then []
    else
      var k := Tally(rows, (b: Bar) => BelowMin(b, cols[0]));
      (if k > 0 then [BelowMinPrice(cols[0], k)] else []) + PriceIssues(rows, cols[1..])
  }

  /** A price column gets an issue exactly when one of its values is under
      the minimum price. */
  lemma {:induction false} PriceIssuesExact(rows: seq<Bar>, cols: seq<Column>, c: Column)
    ensures (exists x :: x in PriceIssues(rows, cols) && x.column == c) <==>
            c in cols && exists i :: 0 <= i < |rows| && BelowMin(rows[i], c)
  {
    if |cols| > 0 {
      PriceIssuesExact(rows, cols[1..], c);
      var p := (b: Bar) => BelowMin(b, cols[0]);
      TallyZero(rows, p);
      var k := Tally(rows, p);
      var here := if k > 0 then [BelowMinPrice(cols[0], k)] else [];
      assert PriceIssues(rows, cols) == here + PriceIssues(rows, cols[1..]);
      assert c in cols <==> c == cols[0] || c in cols[1..];
      if c == cols[0] && k > 0 {
        assert here[0] in PriceIssues(rows, cols);
      }
    }
  }

  /** The issue of one whole-row check: present exactly when some row
      fails it, carrying how many do. */
  function CheckIssue(rows: seq<Bar>, p: Bar -> bool, make: nat -> Issue): (r: seq<Issue>)
    ensures |r| <= 1
    ensures |r| == 1 <==> exists i :: 0 <= i < |rows| && p(rows[i])
    ensures |r| == 1 ==> r[0] == make(Tally(rows, p))
  {
    TallyZero(rows, p);
    var k := Tally(rows, p);
    if k > 0 then [make(k)] else []
  }

  /** The duplicate-date issue: present exactly when a date repeats. */
  function DuplicateIssue(rows: seq<Bar>): (r: seq<Issue>)
    ensures |r| <= 1
    ensures |r| == 1 <==> !Seqs.UniqueKeys(rows, DateOf)
    ensures |r| == 1 ==> r[0] == DuplicateDates(DuplicateCount(rows))
  {
    DuplicateCountZero(rows);
    var k := DuplicateCount(rows);
    if k > 0 then [DuplicateDates(k)] else []
  }

  /** The issues of the row checks, in the order they are made. */
  function RowIssues(rows: seq<Bar>): seq<Issue>
  {
    NullIssues(rows, Required)
    + PriceIssues(rows, Prices)
    + CheckIssue(rows, VolumeNegative, (k: nat) => NegativeVolume(k))
    + CheckIssue(rows, HighUnderLow, (k: nat) => HighBelowLow(k))
    + CheckIssue(rows, CloseOutside, (k: nat) => CloseOutsideRange(k))
    + DuplicateIssue(rows)
  }

  /** `validate_stock_data`: an empty history is reported alone, so is a
      history lacking required columns; otherwise every row check adds
      its issue, and the history is valid exactly when none did. */
  function ValidateStockData(f: Option<Frame<Bar>>): (r: (bool, seq<Issue>))
    ensures r.0 <==> |r.1| == 0
    ensures f.None? || IsEmpty(f.value) ==> r == (false, [EmptyFrame])
    ensures f.Some? && !IsEmpty(f.value) && |MissingColumns(f.value.columns, Required)| > 0 ==>
              r == (false, [MissingCols(MissingColumns(f.value.columns, Required))])
  {
    if f.None? || IsEmpty(f.value) then (false, [EmptyFrame])
    else
      var missing := MissingColumns(f.value.columns, Required);
      if |missing| > 0 then (false, [MissingCols(missing)])
      else
        var issues := RowIssues(f.value.rows);
        (|issues| == 0, issues)
  }

  /** No null issue exactly when no listed column has a missing cell. */
  lemma NullIssuesEmpty(rows: seq<Bar>, cols: seq<Column>)
    ensures |NullIssues(rows, cols)| == 0 <==>
            forall i, c :: 0 <= i < |rows| && c in cols ==> !IsNull(rows[i], c)
  {
    var r := NullIssues(rows, cols);
    if |r| > 0 {
      assert r[0] in r;
      NullIssuesExact(rows, cols, r[0].column);
    }
    forall i, c | 0 <= i < |rows| && c in cols && IsNull(rows[i], c) ensures |r| > 0 {
      NullIssuesExact(rows, cols, c);
    }
  }

  /** No price issue exactly when no listed column has a value under the
      minimum price. */
  lemma PriceIssuesEmpty(rows: seq<Bar>, cols: seq<Column>)
    ensures |PriceIssues(rows, cols)| == 0 <==>
            forall i, c :: 0 <= i < |rows| && c in cols ==> !BelowMin(rows[i], c)
  {
    var r := PriceIssues(rows, cols);
    if |r| > 0 {
      assert r[0] in r;
      PriceIssuesExact(rows, cols, r[0].column);
    }
    forall i, c | 0 <= i < |rows| && c in cols && BelowMin(rows[i], c) ensures |r| > 0 {
      PriceIssuesExact(rows, cols, c);
    }
  }

  /** A history with all its columns passes exactly when no cell is
      missing, no price is under the minimum, no volume is negative, every
      bar has High >= Low and its close within [Low, High], and no date
      repeats. */
  lemma ValidIff(f: Frame<Bar>)
    requires !IsEmpty(f) && |MissingColumns(f.columns, Required)| == 0
    ensures ValidateStockData(Some(f)).0 <==>
      && (forall i, c :: 0 <= i < |f.rows| && c in Required ==> !IsNull(f.rows[i], c))
      && (forall i, c :: 0 <= i < |f.rows| && c in Prices ==> !BelowMin(f.rows[i], c))
      && (forall i :: 0 <= i < |f.rows| ==> !VolumeNegative(f.rows[i]))
      && (forall i :: 0 <= i < |f.rows| ==> !HighUnderLow(f.rows[i]))
      && (forall i :: 0 <= i < |f.rows| ==> !CloseOutside(f.rows[i]))
      && Seqs.UniqueKeys(f.rows, DateOf)
  {
    NullIssuesEmpty(f.rows, Required);
    PriceIssuesEmpty(f.rows, Prices);
  }

  /** A clean bar of a history with a Volume column passes every row check
      except possibly the volume check. */
  lemma CleanPassesChecks(columns: set<Column>, b: Bar)
    requires Volume in columns && Clean(columns, b)
    ensures forall c :: c in Required ==> !IsNull(b, c)
    ensures forall c :: c in Prices ==> !BelowMin(b, c)
    ensures !HighUnderLow(b) && !CloseOutside(b)
  {
  }

  /* ------------------------------------------ validate_consolidated_data */

  datatype Verdict =
    | Passed
    | NoRows
    | TooFew(available: nat, total: nat)
    | SnapMissingCols(columns: seq<Column>)

  /** `validate_consolidated_data`: empty, then too few stocks, then
      missing columns, checked in that order; the snapshot passes only
      when none applies. */
  function ValidateConsolidated<R>(f: Option<Frame<R>>, total: nat): (v: Verdict)
    ensures v.Passed? <==> f.Some? && !IsEmpty(f.value) && |f.value.rows| >= Config.MinValidStocks
                           && forall c :: c in SnapRequired ==> c in f.value.columns
    ensures f.None? || IsEmpty(f.value) ==> v == NoRows
    ensures v.TooFew? ==> v.available == |f.value.rows| < Config.MinValidStocks && v.total == total
    ensures v.SnapMissingCols? ==> |v.columns| > 0 && |f.value.rows| >= Config.MinValidStocks
  {
    if f.None? || IsEmpty(f.value) then NoRows
    else if |f.value.rows| < Config.MinValidStocks then TooFew(|f.value.rows|, total)
    else
      var missing := MissingColumns(f.value.columns, SnapRequired);
      if |missing| > 0 then SnapMissingCols(missing) else Passed
  }

  /* -------------------------------------------------- check_data_quality */

  /** The statistics of `check_data_quality`; the price range only when
      the history has a Close column, each end missing when every close is. */
  datatype Quality = Quality(
    totalRows: nat,
    nullValues: nat,
    duplicateDates: nat,
    zeroVolume: nat,
    priceRange: Option<(Option<real>, Option<real>)>)

  /** Missing cells over the columns the frame has. */
  function NullCells(columns: set<Column>, rows: seq<Bar>): (k: nat)
    ensures k <= 5 * |rows|
  {
    if |rows| == 0 then 0
    else
      var b := rows[0];
      (if Open in columns && b.open.None? then 1 else 0)
      + (if High in columns && b.high.None? then 1 else 0)
      + (if Low in columns && b.low.None? then 1 else 0)
      + (if Close in columns && b.close.None? then 1 else 0)
      + (if Volume in columns && b.volume.None? then 1 else 0)
      + NullCells(columns, rows[1..])
  }

  predicate ZeroVolume(b: Bar)
  {
    b.volume == Some(0.0)
  }

  function CheckDataQuality(f: Frame<Bar>): (q: Quality)
    ensures q.totalRows == |f.rows|
    ensures Date !in f.columns ==> q.duplicateDates == 0
    ensures Volume !in f.columns ==> q.zeroVolume == 0
    ensures q.priceRange.Some? <==> Close in f.columns
    ensures q.duplicateDates == 0 <==> Date !in f.columns || Seqs.UniqueKeys(f.rows, DateOf)
    ensures q.zeroVolume == 0 <==> Volume !in f.columns || forall i :: 0 <= i < |f.rows| ==> !ZeroVolume(f.rows[i])
  {
    DuplicateCountZero(f.rows);
    TallyZero(f.rows, ZeroVolume);
    Quality(
      |f.rows|,
      NullCells(f.columns, f.rows),
      if Date in f.columns then DuplicateCount(f.rows) else 0,
      if Volume in f.columns then Tally(f.rows, ZeroVolume) else 0,
      if Close in f.columns then Some((NanStats.NanMin(Closes(f.rows)), NanStats.NanMax(Closes(f.rows)))) else None)
  }

  /** A history without missing cells reports none. */
  lemma {:induction false} NoNullCells(columns: set<Column>, rows: seq<Bar>)
    requires forall i, c :: 0 <= i < |rows| && c in Required ==> !IsNull(rows[i], c)
    ensures NullCells(columns, rows) == 0
  {
    if |rows| > 0 {
      assert forall i, c :: 0 <= i < |rows[1..]| && c in Required ==> !IsNull(rows[1..][i], c) by {
        forall i, c | 0 <= i < |rows[1..]| && c in Required ensures !IsNull(rows[1..][i], c) {
          assert rows[1..][i] == rows[i + 1];
        }
      }
      NoNullCells(columns, rows[1..]);
      assert Open in Required && High in Required && Low in Required && Close in Required && Volume in Required;
      assert !IsNull(rows[0], Open) && !IsNull(rows[0], High) && !IsNull(rows[0], Low)
          && !IsNull(rows[0], Close) && !IsNull(rows[0], Volume);
    }
  }

  /* ------------------------------------------------- remove_invalid_rows */

  /** The rows `remove_invalid_rows` keeps before de-duplication: no
      missing cell in any column the frame has, every price strictly
      above the minimum, High >= Low, and Low <= Close <= High. Volume is
      not checked beyond being present. */
  predicate Clean(columns: set<Column>, b: Bar)
  {
    && b.open.Some? && b.high.Some? && b.low.Some? && b.close.Some?
    && (Volume in columns ==> b.volume.Some?)
    && b.open.value > Config.MinPrice && b.high.value > Config.MinPrice
    && b.low.value > Config.MinPrice && b.close.value > Config.MinPrice
    && b.high.value >= b.low.value
    && b.low.value <= b.close.value <= b.high.value
  }

  /** `remove_invalid_rows`: the clean rows in order, keeping for each
      date only its last clean row. Without a Date or price column pandas
      raises KeyError, which is None here. */
  function RemoveInvalidRows(f: Frame<Bar>): (r: Option<Frame<Bar>>)
    ensures r.None? <==> exists c :: c in Required && c != Volume && c !in f.columns
    ensures r.Some? ==> r.value.columns == f.columns
    ensures r.Some? ==> Seqs.IsSubseq(r.value.rows, f.rows)
    ensures r.Some? ==> forall i :: 0 <= i < |r.value.rows| ==> Clean(f.columns, r.value.rows[i])
    ensures r.Some? ==> Seqs.UniqueKeys(r.value.rows, DateOf)
  {
    if !(Date in f.columns && Open in f.columns && High in f.columns && Low in f.columns && Close in f.columns) then
      None
    else
      var keep := (b: Bar) => Clean(f.columns, b);
      var clean := Seqs.Filter(f.rows, keep);
      var rows := Seqs.DedupeLast(clean, DateOf);
      Seqs.SubseqTransitive(rows, clean, f.rows);
      assert forall b :: b in rows ==> b in clean;
      assert forall i :: 0 <= i < |rows| ==> rows[i] in clean;
      Some(Frame(f.columns, rows))
  }

  /** For every date with a clean row the result holds the last clean row
      of that date, and no dates appear that had no clean row. */
  lemma RemoveKeepsLast(f: Frame<Bar>)
    requires RemoveInvalidRows(f).Some?
    ensures var clean := Seqs.Filter(f.rows, (b: Bar) => Clean(f.columns, b));
      var rows := RemoveInvalidRows(f).value.rows;
      && (forall i :: 0 <= i < |clean| && Seqs.IsLastOf(clean, DateOf, i) ==> clean[i] in rows)
      && (forall d :: Seqs.HasKey(rows, DateOf, d) <==> Seqs.HasKey(clean, DateOf, d))
  {
    var clean := Seqs.Filter(f.rows, (b: Bar) => Clean(f.columns, b));
    forall i | 0 <= i < |clean| && Seqs.IsLastOf(clean, DateOf, i)
      ensures clean[i] in Seqs.DedupeLast(clean, DateOf)
    {
      Seqs.DedupeKeepsLast(clean, DateOf, i);
    }
  }

  /** Cleaning a cleaned history changes nothing. */
  lemma RemoveIdempotent(f: Frame<Bar>)
    requires RemoveInvalidRows(f).Some?
    ensures RemoveInvalidRows(RemoveInvalidRows(f).value) == RemoveInvalidRows(f)
  {
    var g := RemoveInvalidRows(f).value;
    var keep := (b: Bar) => Clean(g.columns, b);
    Seqs.FilterAll(g.rows, keep);
    Seqs.DedupeOfUnique(g.rows, DateOf);
  }

  /** No volume filter: a single clean bar survives even with a negative
      volume, which `validate_stock_data` would report. */
  lemma NegativeVolumeSurvives(b: Bar)
    requires Clean(BarColumns, b) && b.volume.value < Config.MinVolume
    ensures RemoveInvalidRows(Frame(BarColumns, [b])) == Some(Frame(BarColumns, [b]))
    ensures !ValidateStockData(Some(Frame(BarColumns, [b]))).0
  {
    var keep := (x: Bar) => Clean(BarColumns, x);
    Seqs.FilterAll([b], keep);
    Seqs.DedupeOfUnique([b], DateOf);
    ValidIff(Frame(BarColumns, [b]));
  }

  /** A cleaned history with all columns and no negative volume passes
      validation. */
  lemma CleanedIsValid(f: Frame<Bar>)
    requires BarColumns <= f.columns
    requires var g := RemoveInvalidRows(f).value;
      |g.rows| > 0 && forall i :: 0 <= i < |g.rows| ==> !VolumeNegative(g.rows[i])
    ensures ValidateStockData(RemoveInvalidRows(f)).0
  {
    var g := RemoveInvalidRows(f).value;
    assert Volume in g.columns;
    forall i | 0 <= i < |g.rows| ensures
      && (forall c :: c in Required ==> !IsNull(g.rows[i], c))
      && (forall c :: c in Prices ==> !BelowMin(g.rows[i], c))
      && !HighUnderLow(g.rows[i]) && !CloseOutside(g.rows[i])
    {
      CleanPassesChecks(g.columns, g.rows[i]);
    }
    ValidIff(g);
  }
}
