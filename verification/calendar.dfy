/** The NSE trading calendar: the per-year holiday list, the trading-day
    test, the bounded walks to the next and previous trading day, and the
    enumeration of trading days in a range. The holidays of the Indian
    `holidays` library are an abstract oracle from a year to the ordinals
    of its holidays. */
module Calendar {
  import opened Wrappers
  import Seqs
  import Civil
  import opened Clock

  /** Year -> ordinals of that year's holidays according to the library. */
  type HolidayLibrary = int -> seq<int>

  /** The safety limit on extra steps in both walks. */
  const MaxAttempts := 30

  function Id(x: int): int { x }

  /** The manually maintained NSE closures: none are listed for any year. */
  function SpecialHolidays(year: int): seq<int>
  {
    []
  }

  /** Inserts x into an ascending, duplicate-free list, unless present. */
  function InsertUnique(x: int, s: seq<int>): (r: seq<int>)
    requires Seqs.StrictlyIncreasing(s, Id)
    ensures Seqs.StrictlyIncreasing(r, Id)
    ensures forall d :: d in r <==> d == x || d in s
  {
    if |s| == 0 then [x]
    else if x < s[0] then
      Seqs.ConsStrict(x, s, Id);
      [x] + s
    else if x == s[0] then s
    else
      Seqs.TailStrict(s, Id);
      var rest := InsertUnique(x, s[1..]);
      assert forall q :: 0 <= q < |rest| ==> Id(s[0]) < Id(rest[q]) by {
        forall q | 0 <= q < |rest| ensures Id(s[0]) < Id(rest[q]) {
          assert rest[q] in rest;
        }
      }
      Seqs.ConsStrict(s[0], rest, Id);
      assert s == [s[0]] + s[1..];
      [s[0]] + rest
  }

  /** `sorted(set(xs))`: the distinct members of xs, ascending. */
  function SortedSet(xs: seq<int>): (r: seq<int>)
    ensures Seqs.StrictlyIncreasing(r, Id)
    ensures forall d :: d in r <==> d in xs
  {
    if |xs| == 0 then []
    else
      assert xs == [xs[0]] + xs[1..];
      InsertUnique(xs[0], SortedSet(xs[1..]))
  }

  /** `get_nse_holidays(year)`: library holidays plus the special list,
      duplicates removed, ascending. */
  function NseHolidays(lib: HolidayLibrary, year: int): (hs: seq<int>)
    ensures Seqs.StrictlyIncreasing(hs, Id)
    ensures forall d :: d in hs <==> d in lib(year) + SpecialHolidays(year)
  {
    SortedSet(lib(year) + SpecialHolidays(year))
  }

  /** The holiday list depends only on which days the library names: two
      libraries naming the same days give the same list. */
  lemma NseHolidaysCanonical(lib1: HolidayLibrary, lib2: HolidayLibrary, year: int)
    requires forall d :: d in lib1(year) <==> d in lib2(year)
    ensures NseHolidays(lib1, year) == NseHolidays(lib2, year)
  {
    Seqs.StrictSameMembersEqual(NseHolidays(lib1, year), NseHolidays(lib2, year), Id);
  }

  function YearOf(n: int): int
  {
    Civil.FromOrdinal(n).year
  }

  /** Reference definition: a weekday that is not a holiday of its year. */
  predicate IsTradingOrdinal(lib: HolidayLibrary, n: int)
  {
    Civil.Weekday(n) < 5 && n !in lib(YearOf(n))
  }

  /** Midnight IST of a holiday, as the library list stores it. */
  function HolidayAt(h: int): DateTime
  {
    DateTime(h, 0, Some(Ist))
  }

  /** The loop over the holiday list: does the (aware) midnight equal any
      holiday's midnight? Aware datetimes are equal when their instants
      are. */
  function MatchesHoliday(midnight: DateTime, hs: seq<int>): bool
    requires midnight.zone.Some?
  {
    |hs| > 0 && (Instant(midnight) == Instant(HolidayAt(hs[0])) || MatchesHoliday(midnight, hs[1..]))
  }

  /** An IST midnight matches exactly the holidays of its own day; a UTC
      midnight lies five and a half hours off every IST midnight and so
      matches none. */
  lemma {:induction false} MatchesHolidayIff(midnight: DateTime, hs: seq<int>)
    requires midnight.zone.Some? && midnight.seconds == 0
    ensures MatchesHoliday(midnight, hs) <==> midnight.zone == Some(Ist) && midnight.ordinal in hs
  {
    if |hs| > 0 {
      MatchesHolidayIff(midnight, hs[1..]);
      assert hs == [hs[0]] + hs[1..];
      var h := hs[0];
      assert (h - midnight.ordinal) * SecondsPerDay
          == Instant(HolidayAt(h)) - Instant(midnight) + IstOffset - Offset(midnight.zone.value);
    }
  }

  /** `is_trading_day(date)`. A naive date is taken as IST; weekday and
      year are read on the date's own clock; the holiday match is an
      aware-datetime equality, that is, equality of instants. */
  function IsTradingDay(lib: HolidayLibrary, dt: DateTime): (b: bool)
    ensures Civil.Weekday(dt.ordinal) >= 5 ==> !b
    ensures dt.zone != Some(Utc) ==> (b <==> IsTradingOrdinal(lib, dt.ordinal))
    ensures dt.zone == Some(Utc) ==> (b <==> Civil.Weekday(dt.ordinal) < 5)
  {
    var d := AssumeZone(dt, Ist);
    if Civil.Weekday(d.ordinal) >= 5 then false
    else
      var hs := NseHolidays(lib, YearOf(d.ordinal));
      var midnight := ReplaceTime(d, 0);
      MatchesHolidayIff(midnight, hs);
      assert lib(YearOf(d.ordinal)) + SpecialHolidays(YearOf(d.ordinal)) == lib(YearOf(d.ordinal));
      !MatchesHoliday(midnight, hs)
  }

  /** Trading status is a property of the calendar day: the time of day
      plays no part. */
  lemma TradingDayIgnoresTime(lib: HolidayLibrary, dt: DateTime, sod: int)
    requires 0 <= sod < SecondsPerDay
    ensures IsTradingDay(lib, ReplaceTime(dt, sod)) == IsTradingDay(lib, dt)
  {
  }

  /** Saturdays and Sundays are never trading days. */
  lemma WeekendNeverTrades(lib: HolidayLibrary, dt: DateTime)
    requires Civil.Weekday(dt.ordinal) >= 5
    ensures !IsTradingDay(lib, dt)
  {
  }

  /* ---------------------------------------------------------- walks */

  /** The forward walk for any trading test: starts the day after `date`
      and takes at most 30 further steps. A day found in time comes back
      at midnight; after the last step the day 31 days ahead is returned
      with its time of day unchanged, whether or not it trades. */
  method WalkForward(trading: DateTime -> bool, date: DateTime) returns (r: DateTime)
    ensures var k := r.ordinal - date.ordinal;
      && 1 <= k <= MaxAttempts + 1
      && (forall j :: 1 <= j < k ==> !trading(AddDays(date, j)))
      && (k <= MaxAttempts ==> trading(AddDays(date, k)) && r == ReplaceTime(AddDays(date, k), 0))
      && (k == MaxAttempts + 1 ==> r == AddDays(date, k))
  {
    var next := AddDays(date, 1);
    var attempts := 0;
    while !trading(next) && attempts < MaxAttempts
      invariant 0 <= attempts <= MaxAttempts
      invariant next == AddDays(date, attempts + 1)
      invariant forall j :: 1 <= j <= attempts ==> !trading(AddDays(date, j))
    {
      next := AddDays(next, 1);
      attempts := attempts + 1;
    }
    if attempts >= MaxAttempts {
      return next;
    }
    return ReplaceTime(next, 0);
  }

  /** The backward walk, the mirror image of WalkForward. */
  method WalkBackward(trading: DateTime -> bool, date: DateTime) returns (r: DateTime)
    ensures var k := date.ordinal - r.ordinal;
      && 1 <= k <= MaxAttempts + 1
      && (forall j :: 1 <= j < k ==> !trading(SubDays(date, j)))
      && (k <= MaxAttempts ==> trading(SubDays(date, k)) && r == ReplaceTime(SubDays(date, k), 0))
      && (k == MaxAttempts + 1 ==> r == SubDays(date, k))
  {
    var prev := SubDays(date, 1);
    var attempts := 0;
    while !trading(prev) && attempts < MaxAttempts
      invariant 0 <= attempts <= MaxAttempts
      invariant prev == SubDays(date, attempts + 1)
      invariant forall j :: 1 <= j <= attempts ==> !trading(SubDays(date, j))
    {
      prev := SubDays(prev, 1);
      attempts := attempts + 1;
    }
    if attempts >= MaxAttempts {
      return prev;
    }
    return ReplaceTime(prev, 0);
  }

  /** `get_next_trading_day(date)`: a naive date is taken as IST. The
      result lies 1 to 31 days ahead with no trading day strictly between;
      within 30 days it is a trading day at midnight, otherwise it is the
      day 31 days ahead at the original time. */
  method NextTradingDay(lib: HolidayLibrary, dt: DateTime) returns (r: DateTime)
    ensures r.zone == AssumeZone(dt, Ist).zone
    ensures 1 <= r.ordinal - dt.ordinal <= MaxAttempts + 1
    ensures forall j :: 1 <= j < r.ordinal - dt.ordinal ==> !IsTradingDay(lib, AddDays(AssumeZone(dt, Ist), j))
    ensures r.ordinal - dt.ordinal <= MaxAttempts ==> IsTradingDay(lib, r) && r.seconds == 0
    ensures r.ordinal - dt.ordinal == MaxAttempts + 1 ==> r == AddDays(AssumeZone(dt, Ist), MaxAttempts + 1)
  {
    var date := AssumeZone(dt, Ist);
    r := WalkForward(x => IsTradingDay(lib, x), date);
    if r.ordinal - date.ordinal <= MaxAttempts {
      TradingDayIgnoresTime(lib, AddDays(date, r.ordinal - date.ordinal), 0);
    }
  }

  /** `get_previous_trading_day(date)`: the mirror image of NextTradingDay. */
  method PreviousTradingDay(lib: HolidayLibrary, dt: DateTime) returns (r: DateTime)
    ensures r.zone == AssumeZone(dt, Ist).zone
    ensures 1 <= dt.ordinal - r.ordinal <= MaxAttempts + 1
    ensures forall j :: 1 <= j < dt.ordinal - r.ordinal ==> !IsTradingDay(lib, SubDays(AssumeZone(dt, Ist), j))
    ensures dt.ordinal - r.ordinal <= MaxAttempts ==> IsTradingDay(lib, r) && r.seconds == 0
    ensures dt.ordinal - r.ordinal == MaxAttempts + 1 ==> r == SubDays(AssumeZone(dt, Ist), MaxAttempts + 1)
  {
    var date := AssumeZone(dt, Ist);
    r := WalkBackward(x => IsTradingDay(lib, x), date);
    if date.ordinal - r.ordinal <= MaxAttempts {
      TradingDayIgnoresTime(lib, SubDays(date, date.ordinal - r.ordinal), 0);
    }
  }

  /* ------------------------------------------------------- enumeration */

  /** x is one of start, start + 1 day, start + 2 days, ... */
  predicate OnDailyGrid(start: DateTime, x: DateTime)
  {
    x.zone == start.zone && x.seconds == start.seconds && x.ordinal >= start.ordinal
  }

  /** The position a `<=` comparison uses: the instant of an aware
      datetime, the wall clock of a naive one. */
  function SortKey(dt: DateTime): int
  {
    if dt.zone.Some? then Instant(dt) else dt.Wall()
  }

  /** The enumeration loop for any trading test: every day start,
      start + 1 day, ... for which `<= end` holds and the test passes,
      ascending. Comparing a naive with an aware bound raises TypeError,
      here None. */
  method EnumerateRange(trading: DateTime -> bool, start: DateTime, end: DateTime)
    returns (r: Option<seq<DateTime>>)
    ensures r.None? <==> LessEq(start, end).None?
    ensures r.Some? ==> forall x :: x in r.value <==>
              OnDailyGrid(start, x) && LessEq(x, end) == Some(true) && trading(x)
    ensures r.Some? ==> forall a, b :: 0 <= a < b < |r.value| ==> r.value[a].ordinal < r.value[b].ordinal
    ensures LessEq(start, end) == Some(false) ==> r == Some([])
  {
    if LessEq(start, end).None? {
      return None;
    }
    var days: seq<DateTime> := [];
    var current := start;
    while LessEq(current, end) == Some(true)
      invariant OnDailyGrid(start, current)
      invariant forall x :: OnDailyGrid(start, x) && x.ordinal < current.ordinal ==> LessEq(x, end) == Some(true)
      invariant forall x :: x in days <==>
                  OnDailyGrid(start, x) && x.ordinal < current.ordinal && trading(x)
      invariant forall a, b :: 0 <= a < b < |days| ==> days[a].ordinal < days[b].ordinal
      invariant forall a :: 0 <= a < |days| ==> days[a].ordinal < current.ordinal
      invariant current.ordinal == start.ordinal ==> days == []
      decreases SortKey(end) - SortKey(current)
    {
      if trading(current) {
        days := days + [current];
      }
      current := AddDays(current, 1);
    }
    forall x | OnDailyGrid(start, x) && x.ordinal >= current.ordinal
      ensures LessEq(x, end) == Some(false)
    {
      assert x.Wall() >= current.Wall();
    }
    return Some(days);
  }

  /** `get_trading_days_in_range(start, end)`: the trading days among
      start, start + 1 day, ... up to end inclusive, ascending. */
  method TradingDaysInRange(lib: HolidayLibrary, start: DateTime, end: DateTime)
    returns (r: Option<seq<DateTime>>)
    ensures r.None? <==> LessEq(start, end).None?
    ensures r.Some? ==> forall x :: x in r.value <==>
              OnDailyGrid(start, x) && LessEq(x, end) == Some(true) && IsTradingDay(lib, x)
    ensures r.Some? ==> forall a, b :: 0 <= a < b < |r.value| ==> r.value[a].ordinal < r.value[b].ordinal
    ensures LessEq(start, end) == Some(false) ==> r == Some([])
  {
    r := EnumerateRange(x => IsTradingDay(lib, x), start, end);
  }
}
