/** The breadth ledger: one record per date, kept in date order. A new
    day's record replaces any record of the same date; the latest date is
    the largest date recorded. The ledger file is `None` before it is first
    written. */
module Ledger {
  import opened Wrappers
  import Seqs
  import opened Frames
  import Breadth
  import Consolidator
  import Config

  type BreadthRecord = Breadth.BreadthRecord
  type SnapRow = Consolidator.SnapRow

  function RecordDate(r: BreadthRecord): int
  {
    r.date
  }

  /** The ledger minus every record of one date. */
  function WithoutDate(ledger: seq<BreadthRecord>, d: int): (r: seq<BreadthRecord>)
    ensures forall x :: x in r <==> x in ledger && x.date != d
    ensures Seqs.IsSubseq(r, ledger)
  {
    var keep := (x: BreadthRecord) => x.date != d;
    Seqs.FilterMembers(ledger, keep);
    Seqs.Filter(ledger, keep)
  }

  /** Replace the records of `rec`'s date by `rec`, then sort by date. */
  function Upsert(ledger: seq<BreadthRecord>, rec: BreadthRecord): (r: seq<BreadthRecord>)
    ensures Seqs.SortedBy(r, RecordDate)
    ensures multiset(r) == multiset(WithoutDate(ledger, rec.date)) + multiset{rec}
  {
    Seqs.SortBy(WithoutDate(ledger, rec.date) + [rec], RecordDate)
  }

  /** After the upsert the date has exactly one record, the new one; every
      record of another date is kept and nothing else is added. */
  lemma UpsertSpec(ledger: seq<BreadthRecord>, rec: BreadthRecord)
    ensures var r := Upsert(ledger, rec);
      && rec in r
      && (forall x :: x in r && x.date == rec.date ==> x == rec)
      && (forall i, j :: 0 <= i < |r| && 0 <= j < |r| && r[i].date == rec.date && r[j].date == rec.date ==> i == j)
      && (forall x: BreadthRecord :: x.date != rec.date ==> (x in r <==> x in ledger))
  {
    var w := WithoutDate(ledger, rec.date);
    var r := Upsert(ledger, rec);
    Seqs.SortMembers(w + [rec], RecordDate);
    assert forall x :: x in r <==> x in w || x == rec;
    assert multiset(r)[rec] == 1 by {
      assert rec !in w;
      assert multiset(w)[rec] == 0;
    }
    forall i, j | 0 <= i < |r| && 0 <= j < |r| && r[i].date == rec.date && r[j].date == rec.date
      ensures i == j
    {
      assert r[i] in r && r[j] in r;
      if i != j {
        assert r[i] == rec && r[j] == rec;
        TwoPositions(r, i, j);
      }
    }
  }

  /** A value at two positions occurs at least twice. */
  lemma TwoPositions<T>(s: seq<T>, i: nat, j: nat)
    requires i < |s| && j < |s| && i != j && s[i] == s[j]
    ensures multiset(s)[s[i]] >= 2
  {
    var lo, hi := if i < j then i else j, if i < j then j else i;
    assert s == s[..lo] + [s[lo]] + s[lo + 1..hi] + [s[hi]] + s[hi + 1..];
    assert multiset(s) == multiset(s[..lo]) + multiset{s[lo]} + multiset(s[lo + 1..hi])
                          + multiset{s[hi]} + multiset(s[hi + 1..]);
  }

  /** A ledger with one record per date keeps that shape, now strictly
      ascending by date. */
  lemma UpsertStrict(ledger: seq<BreadthRecord>, rec: BreadthRecord)
    requires Seqs.StrictlyIncreasing(ledger, RecordDate)
    ensures Seqs.StrictlyIncreasing(Upsert(ledger, rec), RecordDate)
  {
    var w := WithoutDate(ledger, rec.date);
    Seqs.SubseqStrict(w, ledger, RecordDate);
    assert Seqs.UniqueKeys(w + [rec], RecordDate) by {
      forall i, j | 0 <= i < j < |w + [rec]| ensures (w + [rec])[i].date != (w + [rec])[j].date {
        if j < |w| {
          assert w[i].date < w[j].date;
        } else {
          assert w[i] in w;
        }
      }
    }
    Seqs.SortUniqueIsStrict(w + [rec], RecordDate);
  }

  /** Upserting the same record twice gives the ledger once. */
  lemma UpsertIdempotent(ledger: seq<BreadthRecord>, rec: BreadthRecord)
    requires Seqs.StrictlyIncreasing(ledger, RecordDate)
    ensures Upsert(Upsert(ledger, rec), rec) == Upsert(ledger, rec)
  {
    var once := Upsert(ledger, rec);
    var twice := Upsert(once, rec);
    UpsertStrict(ledger, rec);
    UpsertStrict(once, rec);
    UpsertSpec(ledger, rec);
    UpsertSpec(once, rec);
    forall x ensures x in twice <==> x in once {
      if x.date != rec.date {
        assert x in twice <==> x in once;
      } else {
        assert x in twice <==> x == rec;
        assert x in once <==> x == rec;
      }
    }
    Seqs.StrictSameMembersEqual(twice, once, RecordDate);
  }

  /** `append_breadth_metrics` on an in-memory ledger: without a snapshot,
      or with an empty one, nothing is written; otherwise the day's record
      starts a new ledger or is upserted into the existing one. */
  function AppendBreadthMetrics(snap: Option<Frame<SnapRow>>, ledger: Option<seq<BreadthRecord>>, day: int)
    : (r: Option<seq<BreadthRecord>>)
    ensures snap.None? || IsEmpty(snap.value) ==> r == ledger
    ensures snap.Some? && !IsEmpty(snap.value) ==> r.Some?
  {
    if snap.None? || IsEmpty(snap.value) then ledger
    else
      match Breadth.CalculateBreadth(snap.value, day)
      case None => ledger
      case Some(rec) =>
        match ledger
        case None => Some([rec])
        case Some(l) => Some(Upsert(l, rec))
  }

  /** With a snapshot, the written ledger holds the day's record exactly
      once, keeps every other date's records, and stays strictly ascending
      when it was. */
  lemma AppendSpec(snap: Frame<SnapRow>, ledger: Option<seq<BreadthRecord>>, day: int)
    requires !IsEmpty(snap)
    requires ledger.Some? ==> Seqs.StrictlyIncreasing(ledger.value, RecordDate)
    ensures var r := AppendBreadthMetrics(Some(snap), ledger, day).value;
      var rec := Breadth.CalculateBreadth(snap, day).value;
      && rec in r && rec.date == day
      && (forall x :: x in r && x.date == day ==> x == rec)
      && (forall x: BreadthRecord :: x.date != day ==> (x in r <==> ledger.Some? && x in ledger.value))
      && Seqs.StrictlyIncreasing(r, RecordDate)
  {
    var rec := Breadth.CalculateBreadth(snap, day).value;
    if ledger.Some? {
      UpsertSpec(ledger.value, rec);
      UpsertStrict(ledger.value, rec);
    }
  }

  /** `get_latest_breadth_date`: the largest date of the ledger; nothing
      when there is no ledger or it is empty. */
  function LatestDate(ledger: Option<seq<BreadthRecord>>): (d: Option<int>)
    ensures d.None? <==> ledger.None? || |ledger.value| == 0
    ensures d.Some? ==> (exists i :: 0 <= i < |ledger.value| && ledger.value[i].date == d.value)
                        && forall i :: 0 <= i < |ledger.value| ==> ledger.value[i].date <= d.value
  {
    if ledger.None? || |ledger.value| == 0 then None else Some(MaxDate(ledger.value))
  }

  function MaxDate(l: seq<BreadthRecord>): (m: int)
    requires |l| > 0
    ensures (exists i :: 0 <= i < |l| && l[i].date == m) && forall i :: 0 <= i < |l| ==> l[i].date <= m
  {
    if |l| == 1 then l[0].date
    else
      var rest := MaxDate(l[1..]);
      assert forall i :: 1 <= i < |l| ==> l[i] == l[1..][i - 1];
      if l[0].date >= rest then l[0].date else rest
  }

  /** Of a date-sorted ledger the latest date is its last record's. */
  lemma LatestOfSorted(ledger: seq<BreadthRecord>)
    requires |ledger| > 0 && Seqs.SortedBy(ledger, RecordDate)
    ensures LatestDate(Some(ledger)) == Some(ledger[|ledger| - 1].date)
  {
  }

  /** After a day's record is appended the latest date is at least that day. */
  lemma LatestAfterAppend(snap: Frame<SnapRow>, ledger: Option<seq<BreadthRecord>>, day: int)
    requires !IsEmpty(snap)
    ensures var d := LatestDate(AppendBreadthMetrics(Some(snap), ledger, day));
      d.Some? && d.value >= day
      && (ledger.Some? && LatestDate(ledger).Some? ==> d.value >= LatestDate(ledger).value)
  {
    var rec := Breadth.CalculateBreadth(snap, day).value;
    if ledger.Some? {
      LatestAfterUpsert(ledger.value, rec);
    } else {
      assert [rec][0] == rec;
    }
  }

  lemma LatestAfterUpsert(l: seq<BreadthRecord>, rec: BreadthRecord)
    ensures var d := LatestDate(Some(Upsert(l, rec)));
      d.Some? && d.value >= rec.date
      && (|l| > 0 ==> d.value >= LatestDate(Some(l)).value)
  {
    var r := Upsert(l, rec);
    UpsertSpec(l, rec);
    var k :| 0 <= k < |r| && r[k] == rec;
    if |l| > 0 {
      var i :| 0 <= i < |l| && l[i].date == LatestDate(Some(l)).value;
      if l[i].date != rec.date {
        assert l[i] in r;
        var j :| 0 <= j < |r| && r[j] == l[i];
      }
    }
  }

  /* ----------------------------------------------------- file layout */

  /** A cell of the ledger file: the date, a percentage or ratio, or a
      whole count. */
  datatype Cell = Day(n: int) | Num(x: real) | Whole(k: int)

  /** The dictionary `calculate_breadth_metrics` fills, keyed by column
      name, in the order it fills it: the ratio comes right after the 4.5%
      percentages. */
  function Metrics(r: BreadthRecord): map<string, Cell>
  {
    map[
      "Date" := Day(r.date),
      "52WH(%)" := Num(r.high52), "52WL(%)" := Num(r.low52),
      "4.5+(%)" := Num(r.up45), "4.5-(%)" := Num(r.down45),
      "4.5r" := Num(r.ratio45),
      "10+(%)" := Num(r.sma10.above), "10-(%)" := Num(r.sma10.below),
      "20+(%)" := Num(r.sma20.above), "20-(%)" := Num(r.sma20.below),
      "50+(%)" := Num(r.sma50.above), "50-(%)" := Num(r.sma50.below),
      "200+(%)" := Num(r.sma200.above), "200-(%)" := Num(r.sma200.below),
      "20sma" := Whole(r.count20), "50sma" := Whole(r.count50)]
  }

  /** `df[columns]` on one row: the named cells in the order asked for;
      None when a name is not a column, where pandas raises `KeyError`. */
  function SelectColumns(row: map<string, Cell>, cols: seq<string>): (r: Option<seq<Cell>>)
    ensures r.Some? <==> forall i :: 0 <= i < |cols| ==> cols[i] in row
    ensures r.Some? ==> |r.value| == |cols| && forall i :: 0 <= i < |cols| ==> r.value[i] == row[cols[i]]
  {
    if |cols| == 0 then Some([])
    else if cols[0] !in row then None
    else
      match SelectColumns(row, cols[1..])
      case None => None
      case Some(rest) => Some([row[cols[0]]] + rest)
  }

  /** The row `append_breadth_metrics` writes for one record. */
  function LedgerRow(r: BreadthRecord): Option<seq<Cell>>
  {
    SelectColumns(Metrics(r), Config.BreadthColumns)
  }

  /** The header names exactly the keys of the metrics dictionary. */
  lemma HeaderNamesMetrics(r: BreadthRecord)
    ensures Metrics(r).Keys == set c | c in Config.BreadthColumns
  {
  }

  /** The column selection never fails and gives the record's Layout:
      the date first, and the ratio moved after the moving-average
      percentages. */
  lemma HeaderMatchesMetrics(r: BreadthRecord)
    ensures LedgerRow(r) == Some(Layout(r))
  {
    var cols := Config.BreadthColumns;
    var m := Metrics(r);
    HeaderNamesMetrics(r);
    assert forall i :: 0 <= i < |cols| ==> cols[i] in m;
    var row := LedgerRow(r).value;
    forall i | 0 <= i < 16 ensures row[i] == Layout(r)[i] {
      assert row[i] == m[cols[i]];
      MetricAt(r, i);
    }
    assert row == Layout(r);
  }

  /** The ledger row of a record, column by column. */
  function Layout(r: BreadthRecord): (cells: seq<Cell>)
    ensures |cells| == 16
  {
    [Day(r.date), Num(r.high52), Num(r.low52), Num(r.up45), Num(r.down45),
     Num(r.sma10.above), Num(r.sma10.below), Num(r.sma20.above), Num(r.sma20.below),
     Num(r.sma50.above), Num(r.sma50.below), Num(r.sma200.above), Num(r.sma200.below),
     Num(r.ratio45), Whole(r.count20), Whole(r.count50)]
  }

  /** The dictionary entry under the i-th header name is the i-th cell. */
  lemma MetricAt(r: BreadthRecord, i: int)
    requires 0 <= i < 16
    ensures Config.BreadthColumns[i] in Metrics(r)
    ensures Metrics(r)[Config.BreadthColumns[i]] == Layout(r)[i]
  {
  }

  /** The written row keeps every metric: records written alike are equal. */
  lemma LedgerRowInjective(r1: BreadthRecord, r2: BreadthRecord)
    ensures LedgerRow(r1) == LedgerRow(r2) ==> r1 == r2
  {
    HeaderMatchesMetrics(r1);
    HeaderMatchesMetrics(r2);
  }
}
