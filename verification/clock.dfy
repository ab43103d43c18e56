/** Python datetimes at whole-second resolution, with the two time zones the
    pipeline uses: Asia/Kolkata (IST, a fixed UTC+05:30) and UTC. Covers the
    IST/UTC conversions, the market-hours test, the midnight helpers, the
    historical date range and the file-name date. */
module Clock {
  import opened Wrappers
  import Civil

  const SecondsPerDay := 86400

  /** Asia/Kolkata's offset from UTC: five and a half hours. */
  const IstOffset := 19800

  /** 09:15 and 15:30 as seconds after midnight. */
  const MarketOpen := 9 * 3600 + 15 * 60
  const MarketClose := 15 * 3600 + 30 * 60

  datatype Zone = Ist | Utc

  function Offset(z: Zone): int
  {
    match z
    case Ist => IstOffset
    case Utc => 0
  }

  type SecondOfDay = s: int | 0 <= s < SecondsPerDay

  /** A datetime: the ordinal of its calendar date and the second of that
      day, both on its own wall clock, and its tzinfo (None when naive). */
  datatype DateTime = DateTime(ordinal: int, seconds: SecondOfDay, zone: Option<Zone>)
  {
    /** Wall-clock reading as a single count of seconds. */
    function Wall(): int
    {
      ordinal * SecondsPerDay + seconds
    }
  }

  /** The wall clock reading w, split into day and second. */
  function FromWall(w: int, zone: Option<Zone>): (dt: DateTime)
    ensures dt.Wall() == w && dt.zone == zone
  {
    DateTime(w / SecondsPerDay, w % SecondsPerDay, zone)
  }

  /** Position on the UTC time line of an aware datetime. */
  function Instant(dt: DateTime): int
    requires dt.zone.Some?
  {
    dt.Wall() - Offset(dt.zone.value)
  }

  /** `dt.replace(tzinfo=z)` applied only when dt is naive. */
  function AssumeZone(dt: DateTime, z: Zone): (r: DateTime)
    ensures r.zone.Some? && r.ordinal == dt.ordinal && r.seconds == dt.seconds
    ensures dt.zone.Some? ==> r == dt
  {
    if dt.zone.None? then dt.(zone := Some(z)) else dt
  }

  /** `dt.astimezone(z)`: the same instant read on z's clock. */
  function AsTimeZone(dt: DateTime, z: Zone): (r: DateTime)
    requires dt.zone.Some?
    ensures r.zone == Some(z) && Instant(r) == Instant(dt)
  {
    FromWall(Instant(dt) + Offset(z), Some(z))
  }

  /** The normalisation at the top of most helpers: a naive datetime is
      taken to be IST, an aware one is converted to IST. */
  function InIst(dt: DateTime): (r: DateTime)
    ensures r.zone == Some(Ist)
    ensures dt.zone.None? ==> r == dt.(zone := Some(Ist))
    ensures dt.zone.Some? ==> Instant(r) == Instant(dt)
  {
    if dt.zone.None? then dt.(zone := Some(Ist)) else AsTimeZone(dt, Ist)
  }

  /** `dt.replace(hour=.., minute=.., second=.., microsecond=0)`. */
  function ReplaceTime(dt: DateTime, sod: int): (r: DateTime)
    requires 0 <= sod < SecondsPerDay
    ensures r == DateTime(dt.ordinal, sod, dt.zone)
  {
    dt.(seconds := sod)
  }

  /** `dt + timedelta(days=k)`: the wall clock moves by whole days. */
  function AddDays(dt: DateTime, k: int): (r: DateTime)
    ensures r == DateTime(dt.ordinal + k, dt.seconds, dt.zone)
    ensures r.Wall() == dt.Wall() + k * SecondsPerDay
  {
    dt.(ordinal := dt.ordinal + k)
  }

  /** `dt - timedelta(days=k)`. */
  function SubDays(dt: DateTime, k: int): (r: DateTime)
    ensures r == DateTime(dt.ordinal - k, dt.seconds, dt.zone)
  {
    dt.(ordinal := dt.ordinal - k)
  }

  /** Python's `a <= b` on datetimes. Aware datetimes compare as instants
      and naive ones by their wall clocks; mixing the two raises TypeError,
      which is None here. */
  function LessEq(a: DateTime, b: DateTime): (r: Option<bool>)
    ensures r.None? <==> a.zone.Some? != b.zone.Some?
  {
    if a.zone.Some? && b.zone.Some? then Some(Instant(a) <= Instant(b))
    else if a.zone.None? && b.zone.None? then Some(a.Wall() <= b.Wall())
    else None
  }

  /* ---------------------------------------------------- conversions */

  /** `convert_ist_to_utc`: a naive input is read as IST. */
  function IstToUtc(dt: DateTime): (r: DateTime)
    ensures r.zone == Some(Utc)
    ensures dt.zone.None? ==> r.Wall() == dt.Wall() - IstOffset
    ensures dt.zone.Some? ==> Instant(r) == Instant(dt)
  {
    AsTimeZone(AssumeZone(dt, Ist), Utc)
  }

  /** `convert_utc_to_ist`: a naive input is read as UTC. */
  function UtcToIst(dt: DateTime): (r: DateTime)
    ensures r.zone == Some(Ist)
    ensures dt.zone.None? ==> r.Wall() == dt.Wall() + IstOffset
    ensures dt.zone.Some? ==> Instant(r) == Instant(dt)
  {
    AsTimeZone(AssumeZone(dt, Utc), Ist)
  }

  /** Converting an IST (or naive) datetime to UTC and back restores it,
      now explicitly tagged IST. */
  lemma IstUtcRoundTrip(dt: DateTime)
    requires dt.zone != Some(Utc)
    ensures UtcToIst(IstToUtc(dt)) == dt.(zone := Some(Ist))
  {
  }

  /** The mirror image for UTC (or naive) datetimes. */
  lemma UtcIstRoundTrip(dt: DateTime)
    requires dt.zone != Some(Ist)
    ensures IstToUtc(UtcToIst(dt)) == dt.(zone := Some(Utc))
  {
  }

  /** 15:30 IST is 10:00 UTC on the same day. */
  lemma MarketCloseInUtc(n: int)
    ensures IstToUtc(DateTime(n, MarketClose, Some(Ist))) == DateTime(n, 10 * 3600, Some(Utc))
  {
  }

  /* ---------------------------------------------------- market hours */

  /** `is_market_hours`: compares dt with 09:15 and 15:30 of its own IST
      day, both ends inclusive. */
  function IsMarketHours(dt: DateTime): (b: bool)
    ensures b <==> MarketOpen <= InIst(dt).seconds <= MarketClose
  {
    var d := InIst(dt);
    LessEq(ReplaceTime(d, MarketOpen), d) == Some(true)
      && LessEq(d, ReplaceTime(d, MarketClose)) == Some(true)
  }

  /** Only the time of day matters: the same clock time on any other day,
      weekend or holiday included, gets the same answer. */
  lemma MarketHoursIgnoresDate(dt: DateTime, k: int)
    ensures IsMarketHours(AddDays(dt, k)) == IsMarketHours(dt)
  {
    if dt.zone.Some? {
      var w := Instant(dt) + IstOffset;
      assert Instant(AddDays(dt, k)) + IstOffset == w + k * SecondsPerDay;
      FromWallShift(w, k, Some(Ist));
    }
  }

  /** Moving a wall-clock reading by whole days keeps its time of day. */
  lemma FromWallShift(w: int, k: int, zone: Option<Zone>)
    ensures FromWall(w + k * SecondsPerDay, zone).seconds == FromWall(w, zone).seconds
  {
    var q, r := w / SecondsPerDay, w % SecondsPerDay;
    assert w + k * SecondsPerDay == (q + k) * SecondsPerDay + r;
  }

  /* ---------------------------------------------------- midnight helpers */

  /** `get_previous_trading_date`: midnight IST of the previous calendar
      day, holidays ignored. */
  function PreviousTradingDate(dt: DateTime): (r: DateTime)
    ensures r.zone == Some(Ist) && r.seconds == 0
    ensures r.ordinal == InIst(dt).ordinal - 1
    ensures Instant(InIst(dt)) - 2 * SecondsPerDay < Instant(r) <= Instant(InIst(dt)) - SecondsPerDay
  {
    ReplaceTime(AddDays(InIst(dt), -1), 0)
  }

  /** `normalize_to_date`: midnight IST of dt's IST calendar day. */
  function NormalizeToDate(dt: DateTime): (r: DateTime)
    ensures r.zone == Some(Ist) && r.seconds == 0
    ensures r.ordinal == InIst(dt).ordinal
    ensures Instant(r) <= Instant(InIst(dt)) < Instant(r) + SecondsPerDay
  {
    ReplaceTime(InIst(dt), 0)
  }

  lemma NormalizeIdempotent(dt: DateTime)
    ensures NormalizeToDate(NormalizeToDate(dt)) == NormalizeToDate(dt)
  {
  }

  /** `get_trading_date_range`, with the current IST wall clock `nowWall`
      passed in: from midnight `daysBack` days before today to 23:59:59
      today. */
  function TradingDateRange(nowWall: int, daysBack: int): (r: (DateTime, DateTime))
    ensures r.0.zone == Some(Ist) && r.1.zone == Some(Ist)
    ensures r.1.ordinal == FromWall(nowWall, Some(Ist)).ordinal && r.1.seconds == SecondsPerDay - 1
    ensures r.0.ordinal == r.1.ordinal - daysBack && r.0.seconds == 0
    ensures daysBack >= 0 ==> LessEq(r.0, r.1) == Some(true)
  {
    var end := ReplaceTime(FromWall(nowWall, Some(Ist)), SecondsPerDay - 1);
    (ReplaceTime(AddDays(end, -daysBack), 0), end)
  }

  /** `format_date_for_filename`: the IST calendar date as "YYYY-MM-DD";
      the name reads back as exactly that date. */
  function FormatDateForFilename(dt: DateTime): (s: string)
    requires 1 <= InIst(dt).ordinal <= Civil.MaxOrdinal
    ensures |s| == 10
    ensures Civil.ParseIso(s) == Some(InIst(dt).ordinal)
  {
    Civil.ParseFormat(InIst(dt).ordinal);
    Civil.FormatIso(InIst(dt).ordinal)
  }
}
