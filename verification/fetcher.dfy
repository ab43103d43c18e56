/** The per-stock side of the Yahoo Finance fetcher: ticker suffix handling,
    the merge of newly fetched bars into a stock's stored history, the
    exact-date filter of a day's fetch, and the latest stored date. The
    download itself is an oracle from ticker to bars. */
module Fetcher {
  import opened Wrappers
  import Seqs
  import opened Frames
  import Config

  predicate EndsWith(s: string, suffix: string)
  {
    |suffix| <= |s| && s[|s| - |suffix|..] == suffix
  }

  /** The ticker Yahoo expects: ".NS" appended unless already there. */
  function NormalizeSymbol(s: string): (r: string)
    ensures EndsWith(r, Config.YFinanceSuffix)
    ensures |s| <= |r| && r[..|s|] == s
    ensures EndsWith(s, Config.YFinanceSuffix) <==> r == s
  {
    if EndsWith(s, Config.YFinanceSuffix) then s else s + Config.YFinanceSuffix
  }

  lemma NormalizeIdempotent(s: string)
    ensures NormalizeSymbol(NormalizeSymbol(s)) == NormalizeSymbol(s)
  {
  }

  /** `s.replace(".NS", "")`: removes every occurrence, scanning from the
      left without overlaps, not just a trailing one. */
  function StripSuffix(s: string): (r: string)
    ensures |r| <= |s|
  {
    if |s| < 3 then s
    else if s[..3] == Config.YFinanceSuffix then StripSuffix(s[3..])
    else [s[0]] + StripSuffix(s[1..])
  }

  /** ".NS" occurs at position i of s. */
  predicate SuffixAt(s: string, i: int)
  {
    0 <= i && i + 3 <= |s| && s[i..i + 3] == Config.YFinanceSuffix
  }

  /** A string with no ".NS" in it is left alone. */
  lemma {:induction false} StripWithoutSuffix(s: string)
    requires forall i :: !SuffixAt(s, i)
    ensures StripSuffix(s) == s
  {
    if |s| >= 3 {
      assert !SuffixAt(s, 0) && s[..3] == s[0..3];
      forall i ensures !SuffixAt(s[1..], i) {
        assert !SuffixAt(s, i + 1);
        if 0 <= i && i + 3 <= |s[1..]| {
          assert s[1..][i..i + 3] == s[i + 1..i + 4];
        }
      }
      StripWithoutSuffix(s[1..]);
      assert s == [s[0]] + s[1..];
    }
  }

  /** Stripping the appended suffix gives back what stripping the bare
      ticker gives: file names agree whichever form a caller passes. */
  lemma {:induction false} StripOfAppendedSuffix(s: string)
    ensures StripSuffix(s + Config.YFinanceSuffix) == StripSuffix(s)
  {
    var t := s + Config.YFinanceSuffix;
    if |s| == 0 {
      assert t[..3] == Config.YFinanceSuffix && t[3..] == "";
    } else if |s| < 3 {
      assert t[..3] != Config.YFinanceSuffix by {
        if |s| == 1 { assert t[1] == '.'; } else { assert t[2] == '.'; }
      }
      assert t[1..] == s[1..] + Config.YFinanceSuffix;
      StripOfAppendedSuffix(s[1..]);
      if |s| == 2 {
        assert StripSuffix(s[1..]) == s[1..];
      }
      assert s == [s[0]] + s[1..];
    } else if s[..3] == Config.YFinanceSuffix {
      assert t[..3] == s[..3] && t[3..] == s[3..] + Config.YFinanceSuffix;
      StripOfAppendedSuffix(s[3..]);
    } else {
      assert t[..3] == s[..3] && t[1..] == s[1..] + Config.YFinanceSuffix;
      StripOfAppendedSuffix(s[1..]);
    }
  }

  lemma StripOfNormalized(s: string)
    ensures StripSuffix(NormalizeSymbol(s)) == StripSuffix(s)
  {
    if !EndsWith(s, Config.YFinanceSuffix) {
      StripOfAppendedSuffix(s);
    }
  }

  /** `load_stock_data`: a ticker's stored history. `files` maps a file
      name, which is the ticker without ".NS", to its rows, and is None
      where no file exists. */
  function LoadStockData(files: string -> Option<seq<Bar>>, symbol: string): Option<seq<Bar>>
  {
    files(StripSuffix(symbol))
  }

  /** The bare and the suffixed spelling of a ticker read the same file. */
  lemma LoadEitherSpelling(files: string -> Option<seq<Bar>>, symbol: string)
    ensures LoadStockData(files, NormalizeSymbol(symbol)) == LoadStockData(files, symbol)
  {
    StripOfNormalized(symbol);
  }

  /** An inner ".NS" goes too, not only the trailing one. */
  lemma StripRemovesInnerSuffix()
    ensures StripSuffix("M.NSX.NS") == "MX"
  {
    assert "M.NSX.NS"[..3] == "M.N";
    assert "M.NSX.NS"[1..] == ".NSX.NS";
    assert ".NSX.NS"[..3] == ".NS" && ".NSX.NS"[3..] == "X.NS";
    assert "X.NS"[..3] == "X.N" && "X.NS"[1..] == ".NS";
    assert ".NS"[..3] == ".NS" && ".NS"[3..] == "";
  }

  /* ------------------------------------------------------------ merge */

  /** The stored history after `append_stock_data`: with no file the new
      bars are saved as they are; otherwise old and new are concatenated,
      de-duplicated on date keeping the last (newest) row, and sorted by
      date. */
  function MergeSeries(existing: Option<seq<Bar>>, incoming: seq<Bar>): (r: seq<Bar>)
    ensures existing.None? ==> r == incoming
    ensures existing.Some? ==> Seqs.StrictlyIncreasing(r, DateOf)
    ensures existing.Some? ==> forall b :: b in r ==> b in existing.value || b in incoming
    ensures existing.Some? ==> forall d :: Seqs.HasKey(r, DateOf, d) <==>
              Seqs.HasKey(existing.value, DateOf, d) || Seqs.HasKey(incoming, DateOf, d)
  {
    match existing
    case None => incoming
    case Some(stored) =>
      var deduped := Seqs.DedupeLast(stored + incoming, DateOf);
      Seqs.SortUniqueIsStrict(deduped, DateOf);
      Seqs.SortMembers(deduped, DateOf);
      HasKeyOfSameMembers(Seqs.SortBy(deduped, DateOf), deduped);
      HasKeyOfAppend(stored, incoming);
      Seqs.SortBy(deduped, DateOf)
  }

  lemma HasKeyOfSameMembers(a: seq<Bar>, b: seq<Bar>)
    requires forall y :: y in a <==> y in b
    ensures forall d :: Seqs.HasKey(a, DateOf, d) <==> Seqs.HasKey(b, DateOf, d)
  {
    forall d ensures Seqs.HasKey(a, DateOf, d) ==> Seqs.HasKey(b, DateOf, d) {
      if Seqs.HasKey(a, DateOf, d) {
        var i :| 0 <= i < |a| && a[i].date == d;
        assert a[i] in b;
        var j :| 0 <= j < |b| && b[j] == a[i];
      }
    }
    forall d ensures Seqs.HasKey(b, DateOf, d) ==> Seqs.HasKey(a, DateOf, d) {
      if Seqs.HasKey(b, DateOf, d) {
        var i :| 0 <= i < |b| && b[i].date == d;
        assert b[i] in a;
        var j :| 0 <= j < |a| && a[j] == b[i];
      }
    }
  }

  lemma HasKeyOfAppend(xs: seq<Bar>, ys: seq<Bar>)
    ensures forall d :: Seqs.HasKey(xs + ys, DateOf, d) <==> Seqs.HasKey(xs, DateOf, d) || Seqs.HasKey(ys, DateOf, d)
  {
    var zs := xs + ys;
    forall d ensures Seqs.HasKey(zs, DateOf, d) ==> Seqs.HasKey(xs, DateOf, d) || Seqs.HasKey(ys, DateOf, d) {
      if Seqs.HasKey(zs, DateOf, d) {
        var i :| 0 <= i < |zs| && zs[i].date == d;
        if i >= |xs| {
          assert ys[i - |xs|] == zs[i];
        }
      }
    }
    forall d ensures Seqs.HasKey(ys, DateOf, d) ==> Seqs.HasKey(zs, DateOf, d) {
      if Seqs.HasKey(ys, DateOf, d) {
        var i :| 0 <= i < |ys| && ys[i].date == d;
        assert zs[|xs| + i] == ys[i];
      }
    }
    forall d ensures Seqs.HasKey(xs, DateOf, d) ==> Seqs.HasKey(zs, DateOf, d) {
      if Seqs.HasKey(xs, DateOf, d) {
        var i :| 0 <= i < |xs| && xs[i].date == d;
        assert zs[i] == xs[i];
      }
    }
  }

  /** On a date present in the new bars, the merged history holds the last
      new bar of that date and no other bar of that date. */
  lemma NewBarWins(stored: seq<Bar>, incoming: seq<Bar>, i: int)
    requires 0 <= i < |incoming| && Seqs.IsLastOf(incoming, DateOf, i)
    ensures incoming[i] in MergeSeries(Some(stored), incoming)
    ensures forall b :: b in MergeSeries(Some(stored), incoming) && b.date == incoming[i].date ==> b == incoming[i]
  {
    var all := stored + incoming;
    var k := |stored| + i;
    assert all[k] == incoming[i];
    assert Seqs.IsLastOf(all, DateOf, k) by {
      forall j | k < j < |all| ensures all[j].date != all[k].date {
        assert all[j] == incoming[j - |stored|];
      }
    }
    var deduped := Seqs.DedupeLast(all, DateOf);
    Seqs.DedupeKeepsLast(all, DateOf, k);
    Seqs.SortMembers(deduped, DateOf);
    forall b | b in MergeSeries(Some(stored), incoming) && b.date == incoming[i].date
      ensures b == incoming[i]
    {
      Seqs.DedupeSurvivorIsLast(all, DateOf, k, b);
    }
  }

  /** A stored bar whose date the new bars do not touch survives, provided
      it was the last stored bar of its date. */
  lemma UntouchedBarSurvives(stored: seq<Bar>, incoming: seq<Bar>, i: int)
    requires 0 <= i < |stored| && Seqs.IsLastOf(stored, DateOf, i)
    requires !Seqs.HasKey(incoming, DateOf, stored[i].date)
    ensures stored[i] in MergeSeries(Some(stored), incoming)
  {
    var all := stored + incoming;
    assert all[i] == stored[i];
    assert Seqs.IsLastOf(all, DateOf, i) by {
      forall j | i < j < |all| ensures all[j].date != all[i].date {
        if j >= |stored| {
          assert all[j] == incoming[j - |stored|];
        }
      }
    }
    Seqs.DedupeKeepsLast(all, DateOf, i);
    Seqs.SortMembers(Seqs.DedupeLast(all, DateOf), DateOf);
  }

  /** Merging the same bars a second time changes nothing. */
  lemma MergeIdempotent(stored: seq<Bar>, incoming: seq<Bar>)
    ensures MergeSeries(Some(MergeSeries(Some(stored), incoming)), incoming) == MergeSeries(Some(stored), incoming)
  {
    var m := MergeSeries(Some(stored), incoming);
    var m2 := MergeSeries(Some(m), incoming);
    forall b ensures b in m2 <==> b in m {
      if Seqs.HasKey(incoming, DateOf, b.date) {
        var i := LastOfDate(incoming, b.date);
        NewBarWins(stored, incoming, i);
        NewBarWins(m, incoming, i);
      } else if b in m {
        var j :| 0 <= j < |m| && m[j] == b;
        StrictIsLast(m, j);
        UntouchedBarSurvives(m, incoming, j);
      }
    }
    Seqs.StrictSameMembersEqual(m2, m, DateOf);
  }

  /** In a strictly increasing sequence every row is the last of its date. */
  lemma StrictIsLast(s: seq<Bar>, i: int)
    requires 0 <= i < |s| && Seqs.StrictlyIncreasing(s, DateOf)
    ensures Seqs.IsLastOf(s, DateOf, i)
  {
  }

  /** The index of the last bar of a date that occurs. */
  lemma LastOfDate(s: seq<Bar>, d: int) returns (i: int)
    requires Seqs.HasKey(s, DateOf, d)
    ensures 0 <= i < |s| && s[i].date == d && Seqs.IsLastOf(s, DateOf, i)
  {
    var k :| 0 <= k < |s| && s[k].date == d;
    i := k;
    while exists j :: i < j < |s| && s[j].date == d
      invariant 0 <= i < |s| && s[i].date == d
      decreases |s| - i
    {
      var next :| i < next < |s| && s[next].date == d;
      i := next;
    }
  }

  /* ------------------------------------------------------ day's fetch */

  /** The bars of a download that fall on day `day`. */
  function OnDay(bars: seq<Bar>, day: int): (r: seq<Bar>)
    ensures forall b :: b in r <==> b in bars && b.date == day
    ensures Seqs.IsSubseq(r, bars)
  {
    var onDay := (b: Bar) => b.date == day;
    Seqs.FilterMembers(bars, onDay);
    Seqs.Filter(bars, onDay)
  }

  /** `fetch_all_stocks_for_date`: for each ticker, the downloaded bars of
      the target day; tickers with no download or no bar that day are
      absent. A ticker listed twice keeps its last entry, which is the
      same download. */
  function FetchAllForDate(symbols: seq<string>, fetch: string -> Option<seq<Bar>>, day: int)
    : (r: map<string, seq<Bar>>)
    ensures forall s :: s in r <==> s in symbols && fetch(s).Some? && OnDay(fetch(s).value, day) != []
    ensures forall s :: s in r ==> r[s] == OnDay(fetch(s).value, day)
    decreases |symbols|
  {
    if |symbols| == 0 then map[]
    else
      var n := |symbols| - 1;
      var prev := FetchAllForDate(symbols[..n], fetch, day);
      var s := symbols[n];
      assert symbols == symbols[..n] + [s];
      match fetch(s)
      case Some(bars) =>
        var hits := OnDay(bars, day);
        if hits != [] then prev[s := hits] else prev
      case None => prev
  }

  /* --------------------------------------------------- latest date */

  /** `get_latest_date_for_symbol`: the greatest stored date, or None with
      no file or an empty one. */
  function LatestDate(stored: Option<seq<Bar>>): (r: Option<int>)
    ensures r.None? <==> stored.None? || |stored.value| == 0
    ensures r.Some? ==> Seqs.HasKey(stored.value, DateOf, r.value)
    ensures r.Some? ==> forall b :: b in stored.value ==> b.date <= r.value
  {
    match stored
    case None => None
    case Some(bars) => if |bars| == 0 then None else Some(MaxDate(bars))
  }

  function MaxDate(bars: seq<Bar>): (m: int)
    requires |bars| > 0
    ensures Seqs.HasKey(bars, DateOf, m)
    ensures forall b :: b in bars ==> b.date <= m
  {
    if |bars| == 1 then bars[0].date
    else
      var rest := MaxDate(bars[1..]);
      var i :| 0 <= i < |bars[1..]| && bars[1..][i].date == rest;
      assert bars[i + 1] == bars[1..][i];
      assert forall b :: b in bars ==> b == bars[0] || b in bars[1..];
      if bars[0].date >= rest then bars[0].date else rest
  }
}
