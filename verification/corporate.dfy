/** The anomaly detectors run over a stock's history: day-to-day close jumps
    of more than 20 % (a split or bonus the adjusted data should not
    show), volume spikes against the trailing 20-row average volume, the
    data-quality report over the universe, and the filter for recently
    logged actions. Float quotients are `Ext` values, so a jump from a zero
    close is an infinite change. */
module Corporate {
  import opened Wrappers
  import opened Numeric
  import Seqs
  import opened Frames
  import opened NanStats
  import Clock
  import Fetcher

  /** A day-to-day change beyond this many percent is reported. */
  const JumpThreshold: real := 20.0

  /** Rows averaged for the volume baseline. */
  const VolumeWindow: nat := 20

  /** The default volume multiple that counts as a spike. */
  const DefaultVolumeThreshold: real := 5.0

  const SplitOrBonus: string := "potential_split_or_bonus"

  /* ------------------------------------------------------- index filter */

  /** The indices in [lo, n) satisfying p, ascending. */
  function Indices(lo: nat, n: nat, p: nat -> bool): (r: seq<nat>)
    ensures forall k :: 0 <= k < |r| ==> lo <= r[k] < n && p(r[k])
    ensures forall a, b :: 0 <= a < b < |r| ==> r[a] < r[b]
    ensures forall i :: lo <= i < n && p(i) ==> i in r
    ensures |r| <= n - lo || lo > n
    decreases n - lo
  {
    if lo >= n then []
    else
      var rest := Indices(lo + 1, n, p);
      if p(lo) then [lo] + rest else rest
  }

  /* ------------------------------------------------- corporate actions */

  /** A reported jump: the row's date and close, the change rounded to two
      places. The detection time stamp is not modelled. */
  datatype Action = Action(symbol: string, date: int, kind: string, changePct: Ext, close: Option<real>)

  /** `Close.pct_change() * 100` at row i. */
  function Change(closes: seq<Option<real>>, i: nat): Ext
    requires i < |closes|
  {
    ScaleExt(PctChange(closes, i), 100.0)
  }

  /** `abs(Price_Change) > 20`; a NaN change never qualifies. */
  predicate Jump(closes: seq<Option<real>>, i: nat)
    requires i < |closes|
  {
    GreaterThan(AbsExt(Change(closes, i)), JumpThreshold)
  }

  /** The first row has no predecessor and is never reported. */
  lemma FirstRowNeverJumps(closes: seq<Option<real>>)
    requires |closes| > 0
    ensures !Jump(closes, 0)
  {
  }

  /** Between two present closes the test is the plain relative change;
      a zero previous close makes any other close an infinite jump. */
  lemma JumpOfPresent(closes: seq<Option<real>>, i: nat)
    requires 0 < i < |closes| && closes[i].Some? && closes[i - 1].Some?
    ensures var c, p := closes[i].value, closes[i - 1].value;
      && (p != 0.0 ==> (Jump(closes, i) <==>
            100.0 * (c - p) / p > JumpThreshold || 100.0 * (c - p) / p < -JumpThreshold))
      && (p == 0.0 ==> (Jump(closes, i) <==> c != 0.0))
  {
    var c, p := closes[i].value, closes[i - 1].value;
    FFillSpec(closes, i);
    FFillSpec(closes, i - 1);
    if p != 0.0 {
      assert 100.0 * (c - p) / p == (c - p) / p * 100.0;
    }
  }

  function JumpRows(closes: seq<Option<real>>): (r: seq<nat>)
    ensures forall k :: 0 <= k < |r| ==> r[k] < |closes| && Jump(closes, r[k])
    ensures forall i :: 0 <= i < |closes| && Jump(closes, i) ==> i in r
    ensures forall a, b :: 0 <= a < b < |r| ==> r[a] < r[b]
  {
    Indices(0, |closes|, (i: nat) => i < |closes| && Jump(closes, i))
  }

  function ActionAt(symbol: string, sorted: seq<Bar>, i: nat): Action
    requires i < |sorted|
  {
    var closes := Closes(sorted);
    Action(symbol, sorted[i].date, SplitOrBonus, Round2Ext(Change(closes, i)), sorted[i].close)
  }

  /** One action per jump row of a history already in date order. */
  function ActionsFrom(symbol: string, sorted: seq<Bar>): (r: seq<Action>)
    ensures |r| <= |sorted|
  {
    var rows := JumpRows(Closes(sorted));
    StrictIndicesBound(rows, |sorted|);
    seq(|rows|, k requires 0 <= k < |rows| => ActionAt(symbol, sorted, rows[k]))
  }

  /** a is the record of some jump row of the sorted history. */
  predicate RecordsJump(symbol: string, sorted: seq<Bar>, a: Action)
  {
    exists i :: 0 < i < |sorted| && Jump(Closes(sorted), i) && a == ActionAt(symbol, sorted, i)
  }

  /** Every action reported for a sorted history is the record of a jump
      row, never the first row. */
  lemma ActionsAreJumps(symbol: string, sorted: seq<Bar>)
    ensures var r := ActionsFrom(symbol, sorted);
      forall k :: 0 <= k < |r| ==> RecordsJump(symbol, sorted, r[k])
  {
    var closes := Closes(sorted);
    var rows := JumpRows(closes);
    var r := ActionsFrom(symbol, sorted);
    if |sorted| > 0 {
      FirstRowNeverJumps(closes);
    }
    forall k | 0 <= k < |r| ensures RecordsJump(symbol, sorted, r[k]) {
      var i := rows[k];
      assert i < |sorted| && Jump(closes, i) && i != 0;
      assert r[k] == ActionAt(symbol, sorted, i);
    }
  }

  /** Every jump row of a sorted history is reported. */
  lemma JumpsAreActions(symbol: string, sorted: seq<Bar>)
    ensures var r := ActionsFrom(symbol, sorted);
      forall i :: 0 <= i < |sorted| && Jump(Closes(sorted), i) ==>
        (exists k :: 0 <= k < |r| && r[k] == ActionAt(symbol, sorted, i))
  {
    var rows := JumpRows(Closes(sorted));
    var r := ActionsFrom(symbol, sorted);
    forall i | 0 <= i < |sorted| && Jump(Closes(sorted), i)
      ensures exists k :: 0 <= k < |r| && r[k] == ActionAt(symbol, sorted, i)
    {
      var k :| 0 <= k < |rows| && rows[k] == i;
      assert r[k] == ActionAt(symbol, sorted, i);
    }
  }

  /** Actions of a date-sorted history come in date order. */
  lemma ActionsFromOrdered(symbol: string, sorted: seq<Bar>)
    requires Seqs.SortedBy(sorted, DateOf)
    ensures var r := ActionsFrom(symbol, sorted);
      forall a, b :: 0 <= a < b < |r| ==> r[a].date <= r[b].date
  {
    var rows := JumpRows(Closes(sorted));
    var r := ActionsFrom(symbol, sorted);
    forall a, b | 0 <= a < b < |r| ensures r[a].date <= r[b].date {
      assert r[a].date == sorted[rows[a]].date && r[b].date == sorted[rows[b]].date;
    }
  }

  /** `check_corporate_actions`: nothing for fewer than two rows; otherwise
      the actions of the date-sorted history. */
  function CheckCorporateActions(symbol: string, bars: seq<Bar>): (r: seq<Action>)
    ensures |bars| < 2 ==> r == []
    ensures |bars| >= 2 ==> r == ActionsFrom(symbol, Seqs.SortBy(bars, DateOf))
    ensures |r| <= |bars|
    ensures forall a :: a in r ==> a.symbol == symbol && a.kind == SplitOrBonus
  {
    if |bars| < 2 then [] else ActionsFrom(symbol, Seqs.SortBy(bars, DateOf))
  }

  /** A strictly increasing list of indices below n has at most n entries. */
  lemma {:induction false} StrictIndicesBound(r: seq<nat>, n: nat)
    requires forall k :: 0 <= k < |r| ==> r[k] < n
    requires forall a, b :: 0 <= a < b < |r| ==> r[a] < r[b]
    ensures |r| <= n
    decreases n
  {
    if |r| > 0 {
      var m := r[|r| - 1];
      assert forall k :: 0 <= k < |r| - 1 ==> r[k] < m;
      StrictIndicesBound(r[..|r| - 1], m);
    }
  }

  /* ------------------------------------------------------ volume spikes */

  /** A reported spike: volume and average volume truncated to integers,
      the ratio rounded to two places. */
  datatype Anomaly = Anomaly(date: int, volume: int, avgVolume: int, ratio: Ext)

  /** `Volume / Avg_Volume` at row i, the average over up to 20 rows. */
  function VolumeRatio(vols: seq<Option<real>>, i: nat): (e: Ext)
    requires i < |vols|
    ensures e != NaN ==> vols[i].Some?
  {
    var avg := RollingMean(vols, i, VolumeWindow);
    if vols[i].Some? && avg.Some? then Div(vols[i].value, avg.value) else NaN
  }

  predicate Spike(vols: seq<Option<real>>, i: nat, threshold: real)
    requires i < |vols|
  {
    GreaterThan(VolumeRatio(vols, i), threshold)
  }

  /** A spike compares the volume with the mean of every non-missing
      volume so far while fewer than 20 rows exist, and with the mean of
      the last 20 after that: the same partial window as the moving
      averages. */
  lemma SpikeWindow(vols: seq<Option<real>>, i: nat, threshold: real)
    requires i < |vols| && vols[i].Some?
    ensures var avg := if i + 1 < VolumeWindow then NanMean(vols[..i + 1])
                       else NanMean(vols[i + 1 - VolumeWindow..i + 1]);
      avg.Some? && (Spike(vols, i, threshold) <==> GreaterThan(Div(vols[i].value, avg.value), threshold))
  {
    if i + 1 < VolumeWindow {
      RollingMeanOfShortPrefix(vols, i, VolumeWindow);
    }
  }

  /** The first row's average is its own volume, so with a multiple of at
      least 1 it is never a spike. */
  lemma FirstRowNeverSpikes(vols: seq<Option<real>>, threshold: real)
    requires |vols| > 0 && threshold >= 1.0
    ensures !Spike(vols, 0, threshold)
  {
    var v := vols[0];
    assert TrailingWindow(vols, 0, VolumeWindow) == [v];
    if v.Some? {
      var x := v.value;
      NanMeanOfComplete([x]);
      assert [v] == seq(1, i requires 0 <= i < 1 => Some([x][i]));
      assert Mean([x]) == x;
      assert RollingMean(vols, 0, VolumeWindow) == Some(x);
      assert VolumeRatio(vols, 0) == Div(x, x);
      if x != 0.0 {
        assert Div(x, x).v * x == x;
        assert Div(x, x) == Fin(1.0);
      }
    } else {
      assert VolumeRatio(vols, 0) == NaN;
    }
  }

  function AnomalyAt(sorted: seq<Bar>, i: nat, threshold: real): Anomaly
    requires i < |sorted|
  {
    var vols := Volumes(sorted);
    var avg := RollingMean(vols, i, VolumeWindow);
    Anomaly(sorted[i].date, TruncToInt(vols[i].GetOr(0.0)), TruncToInt(avg.GetOr(0.0)),
            Round2Ext(VolumeRatio(vols, i)))
  }

  function SpikeRows(vols: seq<Option<real>>, threshold: real): (r: seq<nat>)
    ensures forall k :: 0 <= k < |r| ==> r[k] < |vols| && Spike(vols, r[k], threshold)
    ensures forall i :: 0 <= i < |vols| && Spike(vols, i, threshold) ==> i in r
    ensures forall a, b :: 0 <= a < b < |r| ==> r[a] < r[b]
  {
    Indices(0, |vols|, (i: nat) => i < |vols| && Spike(vols, i, threshold))
  }

  /** One anomaly per spike row of a history already in date order. */
  function AnomaliesFrom(sorted: seq<Bar>, threshold: real): (r: seq<Anomaly>)
    ensures |r| <= |sorted|
  {
    var rows := SpikeRows(Volumes(sorted), threshold);
    StrictIndicesBound(rows, |sorted|);
    seq(|rows|, k requires 0 <= k < |rows| => AnomalyAt(sorted, rows[k], threshold))
  }

  /** a is the record of some spike row of the sorted history. */
  predicate RecordsSpike(sorted: seq<Bar>, threshold: real, a: Anomaly)
  {
    exists i :: 0 <= i < |sorted| && Spike(Volumes(sorted), i, threshold) && a == AnomalyAt(sorted, i, threshold)
  }

  /** Every anomaly reported for a sorted history is the record of a
      spike row. */
  lemma AnomaliesAreSpikes(sorted: seq<Bar>, threshold: real)
    ensures var r := AnomaliesFrom(sorted, threshold);
      forall k :: 0 <= k < |r| ==> RecordsSpike(sorted, threshold, r[k])
  {
    var rows := SpikeRows(Volumes(sorted), threshold);
    var r := AnomaliesFrom(sorted, threshold);
    forall k | 0 <= k < |r| ensures RecordsSpike(sorted, threshold, r[k]) {
      var i := rows[k];
      assert i < |sorted| && Spike(Volumes(sorted), i, threshold);
      assert r[k] == AnomalyAt(sorted, i, threshold);
    }
  }

  /** Every spike row of a sorted history is reported. */
  lemma SpikesAreAnomalies(sorted: seq<Bar>, threshold: real)
    ensures var r := AnomaliesFrom(sorted, threshold);
      forall i :: 0 <= i < |sorted| && Spike(Volumes(sorted), i, threshold) ==>
        (exists k :: 0 <= k < |r| && r[k] == AnomalyAt(sorted, i, threshold))
  {
    var rows := SpikeRows(Volumes(sorted), threshold);
    var r := AnomaliesFrom(sorted, threshold);
    forall i | 0 <= i < |sorted| && Spike(Volumes(sorted), i, threshold)
      ensures exists k :: 0 <= k < |r| && r[k] == AnomalyAt(sorted, i, threshold)
    {
      var k :| 0 <= k < |rows| && rows[k] == i;
      assert r[k] == AnomalyAt(sorted, i, threshold);
    }
  }

  /** `check_volume_anomaly`: nothing for fewer than 20 rows; otherwise the
      anomalies of the date-sorted history. */
  function CheckVolumeAnomaly(bars: seq<Bar>, threshold: real): (r: seq<Anomaly>)
    ensures |bars| < VolumeWindow ==> r == []
    ensures |bars| >= VolumeWindow ==> r == AnomaliesFrom(Seqs.SortBy(bars, DateOf), threshold)
    ensures |r| <= |bars|
  {
    if |bars| < VolumeWindow then [] else AnomaliesFrom(Seqs.SortBy(bars, DateOf), threshold)
  }

  /* ------------------------------------------------ data-quality report */

  datatype DataIssue = NoData(symbol: string) | ActionOn(symbol: string, date: int)

  datatype Report = Report(
    totalSymbols: nat,
    withData: nat,
    withoutData: nat,
    corporateActions: nat,
    issues: seq<DataIssue>)

  /** A stored history that is present and has rows. Here and below
      `files` maps file names to stored rows, read through
      `Fetcher.LoadStockData`. */
  predicate HasData(files: string -> Option<seq<Bar>>, symbol: string)
  {
    Fetcher.LoadStockData(files, symbol).Some? && |Fetcher.LoadStockData(files, symbol).value| > 0
  }

  function ActionsOf(files: string -> Option<seq<Bar>>, symbol: string): seq<Action>
  {
    if HasData(files, symbol) then CheckCorporateActions(symbol, Fetcher.LoadStockData(files, symbol).value) else []
  }

  /** Symbols without data, counted over the universe. */
  function MissingCount(files: string -> Option<seq<Bar>>, symbols: seq<string>): (k: nat)
    ensures k <= |symbols|
  {
    if |symbols| == 0 then 0
    else MissingCount(files, symbols[..|symbols| - 1]) + (if HasData(files, symbols[|symbols| - 1]) then 0 else 1)
  }

  /** Actions found, summed over the universe. */
  function ActionTotal(files: string -> Option<seq<Bar>>, symbols: seq<string>): nat
  {
    if |symbols| == 0 then 0
    else ActionTotal(files, symbols[..|symbols| - 1]) + |ActionsOf(files, symbols[|symbols| - 1])|
  }

  /** One issue per action found for a symbol. */
  function ActionIssues(symbol: string, found: seq<Action>): (r: seq<DataIssue>)
    ensures |r| == |found|
    ensures forall x :: x in r ==> x.ActionOn?
  {
    seq(|found|, k requires 0 <= k < |found| => ActionOn(symbol, found[k].date))
  }

  /** `generate_data_quality_report`: every symbol counts as with or without
      data; each symbol without data is one issue and each action found
      another. */
  method GenerateReport(symbols: seq<string>, files: string -> Option<seq<Bar>>) returns (report: Report)
    ensures report.totalSymbols == |symbols|
    ensures report.withData + report.withoutData == report.totalSymbols
    ensures report.withoutData == MissingCount(files, symbols)
    ensures report.corporateActions == ActionTotal(files, symbols)
    ensures |report.issues| == report.withoutData + report.corporateActions
    ensures forall x :: x in report.issues && x.NoData? ==> x.symbol in symbols && !HasData(files, x.symbol)
  {
    var withData, withoutData, actions := 0, 0, 0;
    var issues: seq<DataIssue> := [];
    for i := 0 to |symbols|
      invariant withData + withoutData == i
      invariant withoutData == MissingCount(files, symbols[..i])
      invariant actions == ActionTotal(files, symbols[..i])
      invariant |issues| == withoutData + actions
      invariant forall x :: x in issues && x.NoData? ==> x.symbol in symbols[..i] && !HasData(files, x.symbol)
    {
      var s := symbols[i];
      assert symbols[..i + 1][..i] == symbols[..i] && symbols[..i + 1][i] == s;
      var stored := Fetcher.LoadStockData(files, s);
      if !HasData(files, s) {
        withoutData := withoutData + 1;
        issues := issues + [NoData(s)];
      } else {
        withData := withData + 1;
        var found := CheckCorporateActions(s, stored.value);
        actions := actions + |found|;
        assert found == ActionsOf(files, s);
        issues := issues + ActionIssues(s, found);
      }
    }
    assert symbols[..|symbols|] == symbols;
    report := Report(|symbols|, withData, withoutData, actions, issues);
  }

  /* ------------------------------------------------------ recent actions */

  /** Midnight IST of an action's date. */
  function ActionMoment(a: Action): Clock.DateTime
  {
    Clock.DateTime(a.date, 0, Some(Clock.Ist))
  }

  /** `get_recent_actions` with the clock passed in: the logged actions,
      in order, whose date at midnight IST is not before `now` minus
      `days` days. */
  function RecentActions(actions: seq<Action>, now: Clock.DateTime, days: int): (r: seq<Action>)
    requires now.zone.Some?
    ensures Seqs.IsSubseq(r, actions)
    ensures forall a :: a in r <==> a in actions && Clock.LessEq(Clock.SubDays(now, days), ActionMoment(a)) == Some(true)
  {
    var cutoff := Clock.SubDays(now, days);
    var keep := (a: Action) => Clock.LessEq(cutoff, ActionMoment(a)) == Some(true);
    Seqs.FilterMembers(actions, keep);
    Seqs.Filter(actions, keep)
  }

  /** An action is recent exactly when its date is after the cutoff's IST
      date, or is that date with the cutoff at midnight. */
  lemma RecentByDate(a: Action, now: Clock.DateTime, days: int)
    requires now.zone.Some?
    ensures var c := Clock.InIst(Clock.SubDays(now, days));
      Clock.LessEq(Clock.SubDays(now, days), ActionMoment(a)) == Some(true) <==>
      a.date > c.ordinal || (a.date == c.ordinal && c.seconds == 0)
  {
    var cutoff := Clock.SubDays(now, days);
    var c := Clock.InIst(cutoff);
    assert Clock.Instant(c) == Clock.Instant(cutoff);
    assert Clock.Instant(ActionMoment(a)) == a.date * Clock.SecondsPerDay - Clock.IstOffset;
    assert Clock.Instant(c) == c.ordinal * Clock.SecondsPerDay + c.seconds - Clock.IstOffset;
  }
}
