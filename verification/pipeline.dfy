/** The orchestration in the entry point: the one-day run (fetch every
    symbol, stop below the minimum number of fetched symbols, consolidate,
    then compute breadth), the historical initialisation, and the
    incremental catch-up from the ledger's latest date. Network fetches,
    file writes and failures are effects supplied from outside; each run
    is described by the trace of steps it takes. */
module Pipeline {
  import opened Wrappers
  import Seqs
  import Config
  import opened Clock
  import Calendar

  /** A step the pipeline takes. `Fetch` records whether the symbol's
      download returned rows and was stored; `Daily` is one call of the
      one-day run from the incremental catch-up. */
  datatype Step =
    | Fetch(symbol: string, ok: bool)
    | Consolidate(date: DateTime)
    | Breadth(date: DateTime)
    | Initialize
    | Daily(date: DateTime)

  /** What the outside world does: whether a symbol's fetch yields rows
      (neither empty nor raising), and whether consolidating or computing
      breadth for a date completes without raising. */
  datatype Effects = Effects(
    fetchOk: string -> bool,
    consolidateOk: DateTime -> bool,
    breadthOk: DateTime -> bool)

  /* ------------------------------------------------------ fetch loop */

  /** Symbols whose fetch succeeds, counted over a prefix-closed walk. */
  function CountOk(symbols: seq<string>, ok: string -> bool): (n: nat)
  {
    if |symbols| == 0 then 0
    else CountOk(symbols[..|symbols| - 1], ok) + (if ok(symbols[|symbols| - 1]) then 1 else 0)
  }

  /** The count lies between zero and the number of symbols, and reaches
      the number of symbols exactly when every fetch succeeds. */
  lemma {:induction false} CountOkBounds(symbols: seq<string>, ok: string -> bool)
    ensures CountOk(symbols, ok) <= |symbols|
    ensures CountOk(symbols, ok) == |symbols| <==> forall i :: 0 <= i < |symbols| ==> ok(symbols[i])
    ensures CountOk(symbols, ok) == 0 <==> forall i :: 0 <= i < |symbols| ==> !ok(symbols[i])
  {
    if |symbols| > 0 {
      var init := symbols[..|symbols| - 1];
      CountOkBounds(init, ok);
      assert forall i :: 0 <= i < |init| ==> init[i] == symbols[i];
    }
  }

  /** The symbols whose fetch fails, in universe order. */
  function FailedOf(symbols: seq<string>, ok: string -> bool): (r: seq<string>)
  {
    if |symbols| == 0 then []
    else
      var last := symbols[|symbols| - 1];
      FailedOf(symbols[..|symbols| - 1], ok) + (if ok(last) then [] else [last])
  }

  /** The failed list keeps universe order, holds exactly the symbols
      whose fetch fails, and together with the successes accounts for
      every symbol. */
  lemma {:induction false} FailedOfSpec(symbols: seq<string>, ok: string -> bool)
    ensures Seqs.IsSubseq(FailedOf(symbols, ok), symbols)
    ensures forall s :: s in FailedOf(symbols, ok) <==> s in symbols && !ok(s)
    ensures CountOk(symbols, ok) + |FailedOf(symbols, ok)| == |symbols|
  {
    if |symbols| == 0 {
      Seqs.SubseqReflexive(symbols);
    } else {
      var init := symbols[..|symbols| - 1];
      var last := symbols[|symbols| - 1];
      FailedOfSpec(init, ok);
      assert symbols == init + [last];
      assert FailedOf(symbols, ok) == FailedOf(init, ok) + (if ok(last) then [] else [last]);
      assert forall s :: s in symbols <==> s in init || s == last;
      if ok(last) {
        assert FailedOf(symbols, ok) == FailedOf(init, ok);
        Seqs.SubseqExtend(FailedOf(init, ok), init, last);
      } else {
        Seqs.SubseqAppendBoth(FailedOf(init, ok), init, last);
      }
    }
  }

  /** The loop over the universe shared by the one-day run and the
      initialisation: one Fetch step per symbol in order, a success count,
      and the failed symbols in order. */
  method FetchAll(symbols: seq<string>, ok: string -> bool)
    returns (steps: seq<Step>, success: nat, failed: seq<string>)
    ensures |steps| == |symbols|
    ensures forall i :: 0 <= i < |symbols| ==> steps[i] == Fetch(symbols[i], ok(symbols[i]))
    ensures success == CountOk(symbols, ok)
    ensures success + |failed| == |symbols|
    ensures Seqs.IsSubseq(failed, symbols)
    ensures forall s :: s in failed <==> s in symbols && !ok(s)
  {
    steps, success, failed := [], 0, [];
    for i := 0 to |symbols|
      invariant |steps| == i
      invariant forall j :: 0 <= j < i ==> steps[j] == Fetch(symbols[j], ok(symbols[j]))
      invariant success == CountOk(symbols[..i], ok)
      invariant failed == FailedOf(symbols[..i], ok)
    {
      var s := symbols[i];
      assert symbols[..i + 1][..i] == symbols[..i];
      steps := steps + [Fetch(s, ok(s))];
      if ok(s) {
        success := success + 1;
      } else {
        failed := failed + [s];
      }
    }
    assert symbols[..|symbols|] == symbols;
    FailedOfSpec(symbols, ok);
  }

  /* ------------------------------------------------------ one-day run */

  /** The steps after the fetch loop of a one-day run: nothing below the
      minimum of fetched symbols, otherwise consolidation and, unless that
      raised, breadth. No coverage check of the consolidated snapshot
      stands between the two. */
  function AfterFetch(fx: Effects, date: DateTime, success: nat): (r: seq<Step>)
    ensures success < Config.MinValidStocks ==> r == []
    ensures Consolidate(date) in r <==> success >= Config.MinValidStocks
    ensures Breadth(date) in r <==> success >= Config.MinValidStocks && fx.consolidateOk(date)
    ensures forall s :: s in r ==> !s.Fetch?
  {
    if success < Config.MinValidStocks then []
    else if fx.consolidateOk(date) then [Consolidate(date), Breadth(date)]
    else [Consolidate(date)]
  }

  /** `fetch_daily_data(target_date)`: the date defaults to the previous
      trading day before `now`; a non-trading date ends the run before
      anything is fetched; otherwise every symbol is fetched, and the rest
      follows AfterFetch. */
  method FetchDaily(lib: Calendar.HolidayLibrary, fx: Effects, symbols: seq<string>,
                    target: Option<DateTime>, now: DateTime)
    returns (date: DateTime, steps: seq<Step>)
    ensures target.Some? ==> date == target.value
    ensures target.None? ==> 1 <= now.ordinal - date.ordinal <= Calendar.MaxAttempts + 1
    ensures !Calendar.IsTradingDay(lib, date) ==> steps == []
    ensures Calendar.IsTradingDay(lib, date) ==>
      && |symbols| <= |steps|
      && (forall i :: 0 <= i < |symbols| ==> steps[i] == Fetch(symbols[i], fx.fetchOk(symbols[i])))
      && steps[|symbols|..] == AfterFetch(fx, date, CountOk(symbols, fx.fetchOk))
    ensures Consolidate(date) in steps <==>
      Calendar.IsTradingDay(lib, date) && CountOk(symbols, fx.fetchOk) >= Config.MinValidStocks
    ensures Breadth(date) in steps ==> Consolidate(date) in steps && fx.consolidateOk(date)
  {
    if target.Some? {
      date := target.value;
    } else {
      date := Calendar.PreviousTradingDay(lib, now);
    }
    if !Calendar.IsTradingDay(lib, date) {
      return date, [];
    }
    var fetched, success, failed := FetchAll(symbols, fx.fetchOk);
    var rest := AfterFetch(fx, date, success);
    steps := fetched + rest;
    assert steps[|symbols|..] == rest;
    forall s | s in fetched ensures !s.Consolidate? && !s.Breadth? {
      var i :| 0 <= i < |fetched| && fetched[i] == s;
    }
  }

  /* -------------------------------------------- historical initialisation */

  /** The processing steps for the days of the initialisation, in order:
      consolidation, then breadth unless consolidation raised. */
  function ProcessDays(fx: Effects, days: seq<DateTime>): (r: seq<Step>)
  {
    if |days| == 0 then []
    else
      var d := days[|days| - 1];
      ProcessDays(fx, days[..|days| - 1])
        + [Consolidate(d)] + (if fx.consolidateOk(d) then [Breadth(d)] else [])
  }

  /** Days whose consolidation and breadth both complete. */
  function CountProcessed(fx: Effects, days: seq<DateTime>): (n: nat)
    ensures n <= |days|
  {
    if |days| == 0 then 0
    else
      var d := days[|days| - 1];
      CountProcessed(fx, days[..|days| - 1]) + (if fx.consolidateOk(d) && fx.breadthOk(d) then 1 else 0)
  }

  /** Each day is consolidated once; breadth runs for exactly the days
      whose consolidation completed. */
  lemma {:induction false} ProcessDaysSpec(fx: Effects, days: seq<DateTime>)
    ensures forall d :: Consolidate(d) in ProcessDays(fx, days) <==> d in days
    ensures forall d :: Breadth(d) in ProcessDays(fx, days) <==> d in days && fx.consolidateOk(d)
    ensures forall s :: s in ProcessDays(fx, days) ==> s.Consolidate? || s.Breadth?
  {
    if |days| > 0 {
      var init := days[..|days| - 1];
      ProcessDaysSpec(fx, init);
      assert days == init + [days[|days| - 1]];
    }
  }

  /** `initialize_historical_data(days_back)` with `now` the IST clock
      reading: fetch every symbol over [now - days_back, now], then
      consolidate and compute breadth for each trading day of that range.
      Every symbol ends up counted as fetched or failed, and every day as
      processed or failed. */
  method InitializeHistorical(lib: Calendar.HolidayLibrary, fx: Effects, symbols: seq<string>,
                              now: DateTime, daysBack: int)
    returns (steps: seq<Step>, success: nat, failed: seq<string>,
             days: seq<DateTime>, processed: nat, failedDays: nat)
    requires now.zone == Some(Ist)
    ensures success + |failed| == |symbols|
    ensures forall s :: s in failed <==> s in symbols && !fx.fetchOk(s)
    ensures processed + failedDays == |days|
    ensures processed == CountProcessed(fx, days)
    ensures forall x :: x in days <==>
      Calendar.OnDailyGrid(SubDays(now, daysBack), x) && LessEq(x, now) == Some(true) && Calendar.IsTradingDay(lib, x)
    ensures forall a, b :: 0 <= a < b < |days| ==> days[a].ordinal < days[b].ordinal
    ensures daysBack < 0 ==> days == []
    ensures |symbols| <= |steps| && steps[|symbols|..] == ProcessDays(fx, days)
  {
    var fetched;
    fetched, success, failed := FetchAll(symbols, fx.fetchOk);
    var start := SubDays(now, daysBack);
    var range := Calendar.TradingDaysInRange(lib, start, now);
    days := range.value;
    if daysBack < 0 {
      assert LessEq(start, now) == Some(false);
    }
    var work: seq<Step> := [];
    processed, failedDays := 0, 0;
    for i := 0 to |days|
      invariant processed + failedDays == i
      invariant processed == CountProcessed(fx, days[..i])
      invariant work == ProcessDays(fx, days[..i])
    {
      var d := days[i];
      assert days[..i + 1][..i] == days[..i];
      work := work + [Consolidate(d)];
      if fx.consolidateOk(d) {
        work := work + [Breadth(d)];
      }
      if fx.consolidateOk(d) && fx.breadthOk(d) {
        processed := processed + 1;
      } else {
        failedDays := failedDays + 1;
      }
    }
    assert days[..|days|] == days;
    steps := fetched + work;
    assert steps[|symbols|..] == work;
  }

  /* ------------------------------------------------- incremental update */

  /** A naive midnight, as the dates read back from the ledger are. */
  function Naive(n: int): (dt: DateTime)
    ensures dt.ordinal == n && dt.seconds == 0 && dt.zone.None?
  {
    DateTime(n, 0, None)
  }

  /** The trading-day test of a holiday library as a function value. */
  function Trades(lib: Calendar.HolidayLibrary): DateTime -> bool
  {
    x => Calendar.IsTradingDay(lib, x)
  }

  /** The intended catch-up: the trading days among the naive midnights
      lo, lo + 1, ..., hi, ascending. */
  function CatchUpDays(trading: DateTime -> bool, lo: int, hi: int): (r: seq<DateTime>)
    decreases hi - lo + 1
  {
    if lo > hi then []
    else (if trading(Naive(lo)) then [Naive(lo)] else []) + CatchUpDays(trading, lo + 1, hi)
  }

  /** The catch-up visits each trading day of [lo, hi] once, in ascending
      order, and nothing else. */
  lemma {:induction false} CatchUpDaysSpec(trading: DateTime -> bool, lo: int, hi: int)
    ensures var r := CatchUpDays(trading, lo, hi);
      && (forall x :: x in r <==> x == Naive(x.ordinal) && lo <= x.ordinal <= hi && trading(x))
      && (forall a, b :: 0 <= a < b < |r| ==> r[a].ordinal < r[b].ordinal)
    decreases hi - lo + 1
  {
    if lo <= hi {
      CatchUpDaysSpec(trading, lo + 1, hi);
      var rest := CatchUpDays(trading, lo + 1, hi);
      var r := CatchUpDays(trading, lo, hi);
      if trading(Naive(lo)) {
        assert r == [Naive(lo)] + rest;
        forall a, b | 0 <= a < b < |r| ensures r[a].ordinal < r[b].ordinal {
          if a > 0 {
            assert r[a] == rest[a - 1] && r[b] == rest[b - 1];
          } else {
            assert r[b] == rest[b - 1] && r[b] in rest;
          }
        }
      } else {
        assert r == rest;
      }
    }
  }

  /** `Daily` steps for a list of dates. */
  function DailySteps(days: seq<DateTime>): (r: seq<Step>)
    ensures |r| == |days|
    ensures forall i :: 0 <= i < |days| ==> r[i] == Daily(days[i])
  {
    seq(|days|, i requires 0 <= i < |days| => Daily(days[i]))
  }

  /** The corrected catch-up, which compares calendar dates as the
      up-to-date check does: with no ledger only the full initialisation
      runs; when the ledger is already at or past the target date nothing
      runs; otherwise the one-day run is called for each trading day after
      the latest ledger date up to and including the target date. */
  function IncrementalPlan(lib: Calendar.HolidayLibrary, latest: Option<int>, target: DateTime): (r: seq<Step>)
    ensures latest.None? ==> r == [Initialize]
    ensures latest.Some? && latest.value >= target.ordinal ==> r == []
  {
    if latest.None? then [Initialize]
    else if latest.value >= target.ordinal then []
    else DailySteps(CatchUpDays(Trades(lib), latest.value + 1, target.ordinal))
  }

  /** The Daily steps of a catch-up are exactly one per trading day of
      [lo, hi], ascending. */
  lemma {:induction false} CatchUpStepsSpec(trading: DateTime -> bool, lo: int, hi: int)
    ensures var r := DailySteps(CatchUpDays(trading, lo, hi));
      && (forall s :: s in r ==> s.Daily?)
      && (forall n :: Daily(Naive(n)) in r <==> lo <= n <= hi && trading(Naive(n)))
      && (forall a, b :: 0 <= a < b < |r| ==> r[a].date.ordinal < r[b].date.ordinal)
  {
    var days := CatchUpDays(trading, lo, hi);
    CatchUpDaysSpec(trading, lo, hi);
    var r := DailySteps(days);
    forall n ensures Daily(Naive(n)) in r <==> lo <= n <= hi && trading(Naive(n)) {
      if Daily(Naive(n)) in r {
        var i :| 0 <= i < |r| && r[i] == Daily(Naive(n));
        assert days[i] == Naive(n);
      }
      if lo <= n <= hi && trading(Naive(n)) {
        assert Naive(n) in days;
        var i :| 0 <= i < |days| && days[i] == Naive(n);
        assert r[i] == Daily(Naive(n));
      }
    }
  }

  /** Every date handed to the one-day run is a trading day strictly after
      the latest ledger date and no later than the target date, each such
      day is handed over exactly once, and they come in ascending order. */
  lemma IncrementalPlanSpec(lib: Calendar.HolidayLibrary, latest: int, target: DateTime)
    requires latest < target.ordinal
    ensures var r := IncrementalPlan(lib, Some(latest), target);
      && (forall s :: s in r ==> s.Daily?)
      && (forall n :: Daily(Naive(n)) in r <==> latest < n <= target.ordinal && Calendar.IsTradingDay(lib, Naive(n)))
      && (forall a, b :: 0 <= a < b < |r| ==> r[a].date.ordinal < r[b].date.ordinal)
  {
    var trading := Trades(lib);
    CatchUpStepsSpec(trading, latest + 1, target.ordinal);
    assert IncrementalPlan(lib, Some(latest), target) == DailySteps(CatchUpDays(trading, latest + 1, target.ordinal));
    forall n ensures trading(Naive(n)) == Calendar.IsTradingDay(lib, Naive(n)) {
    }
  }

  /** `update_incremental()` with the corrected catch-up, with `now` the IST
      clock reading: the target is the previous trading day before now and
      the plan is IncrementalPlan. */
  method UpdateIncremental(lib: Calendar.HolidayLibrary, latest: Option<int>, now: DateTime)
    returns (target: DateTime, steps: seq<Step>)
    requires now.zone == Some(Ist)
    ensures target.zone == Some(Ist)
    ensures 1 <= now.ordinal - target.ordinal <= Calendar.MaxAttempts + 1
    ensures steps == IncrementalPlan(lib, latest, target)
  {
    target := Calendar.PreviousTradingDay(lib, now);
    steps := IncrementalPlan(lib, latest, target);
  }

  /* ----------------------------------------------- the catch-up as written */

  /** How a run ends: with its steps, or with an uncaught TypeError. */
  datatype Outcome = Done(steps: seq<Step>) | Crash

  /** The catch-up loop as written: while `date <= target`, call the
      one-day run on trading days and step one day. The comparison raises
      as soon as one side is naive and the other aware. */
  function WalkAsWritten(trading: DateTime -> bool, date: DateTime, target: DateTime): (o: Outcome)
    ensures date.zone.None? != target.zone.None? ==> o == Crash
    decreases Calendar.SortKey(target) - Calendar.SortKey(date)
  {
    match LessEq(date, target)
    case None => Crash
    case Some(false) => Done([])
    case Some(true) =>
      var head := if trading(date) then [Daily(date)] else [];
      match WalkAsWritten(trading, AddDays(date, 1), target)
      case Crash => Crash
      case Done(rest) => Done(head + rest)
  }

  /** `update_incremental()` as written: the ledger's latest date is a
      naive midnight read back from the ledger file, the target comes from
      the previous-trading-day walk and is aware, and the loop compares the
      two. */
  function IncrementalAsWritten(lib: Calendar.HolidayLibrary, latest: Option<int>, target: DateTime): (o: Outcome)
    ensures latest.None? ==> o == Done([Initialize])
    ensures latest.Some? && latest.value >= target.ordinal ==> o == Done([])
  {
    if latest.None? then Done([Initialize])
    else if latest.value >= target.ordinal then Done([])
    else WalkAsWritten(Trades(lib), Naive(latest.value + 1), target)
  }

  /** Whenever there is anything to catch up, the loop as written compares
      a naive date with the aware target and raises before processing a
      single day. */
  lemma AsWrittenCrashesWithWork(lib: Calendar.HolidayLibrary, latest: int, target: DateTime)
    requires target.zone.Some? && latest < target.ordinal
    ensures IncrementalAsWritten(lib, Some(latest), target) == Crash
  {
  }

  /** A concrete instance: the ledger ends on Tuesday 2 January 2024
      (ordinal 738887) and the target is Wednesday 3 January at midnight
      IST. With no holidays the intended plan runs that Wednesday, while
      the loop as written raises. */
  lemma AsWrittenCounterexample()
    ensures var lib: Calendar.HolidayLibrary := y => [];
      var target := DateTime(738888, 0, Some(Ist));
      && IncrementalAsWritten(lib, Some(738887), target) == Crash
      && IncrementalPlan(lib, Some(738887), target) == [Daily(Naive(738888))]
  {
    var lib: Calendar.HolidayLibrary := y => [];
    var target := DateTime(738888, 0, Some(Ist));
    assert Calendar.IsTradingDay(lib, Naive(738888));
    assert CatchUpDays(Trades(lib), 738889, 738888) == [];
  }

  /** The target the walk produces is always aware, so with the ledger
      behind the target the as-written update never completes. */
  method UpdateIncrementalAsWritten(lib: Calendar.HolidayLibrary, latest: Option<int>, now: DateTime)
    returns (target: DateTime, o: Outcome)
    requires now.zone == Some(Ist)
    ensures latest.Some? && latest.value < target.ordinal ==> o == Crash
    ensures latest.None? ==> o == Done([Initialize])
    ensures 1 <= now.ordinal - target.ordinal <= Calendar.MaxAttempts + 1
  {
    target := Calendar.PreviousTradingDay(lib, now);
    o := IncrementalAsWritten(lib, latest, target);
  }
}
