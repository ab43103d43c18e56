/** The pipeline's tuning constants. Prices and volumes are exact reals. */
module Config {
  /** Moving-average lengths computed per stock. */
  const SmaPeriods: seq<int> := [10, 20, 50, 200]

  /** The daily move, in percent, that counts as a 4.5% up or down day. */
  const DailyChangeThreshold: real := 4.5

  /** Fetches needed before a day is consolidated. */
  const MinValidStocks: int := 350

  /** Calendar days of history fetched on the first run. */
  const HistoricalDays: int := 365

  /** Exchange suffix of an NSE ticker. */
  const YFinanceSuffix: string := ".NS"

  /** Bounds a bar must respect. */
  const MinVolume: real := 0.0
  const MinPrice: real := 0.01

  /** Header of the breadth ledger: the date, then the fifteen metrics. */
  const BreadthColumns: seq<string> := [
    "Date", "52WH(%)", "52WL(%)", "4.5+(%)", "4.5-(%)",
    "10+(%)", "10-(%)", "20+(%)", "20-(%)", "50+(%)", "50-(%)",
    "200+(%)", "200-(%)", "4.5r", "20sma", "50sma"]
}
