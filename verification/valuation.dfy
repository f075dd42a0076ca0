/** One row of the daily valuation data both the company and the sector pages
    read: a ticker, its trade date and its valuation multiples. */
module Valuation {
  import opened Wrappers

  /** A valuation row whose trade date has type `D`: the CSV text as
      `read_csv` leaves it, or a day number once `pd.to_datetime` has parsed
      it. */
  datatype ValRow<D> = ValRow(
    ticker: string,
    tradeDate: D,
    pe: Option<real>,
    pb: Option<real>,
    ps: Option<real>,
    evEbitda: Option<real>)

  /** The columns 'P/E', 'P/B', 'P/S' and 'EV/EBITDA'. */
  datatype Metric = PE | PB | PS | EvEbitda

  /** The sector page parses TRADE_DATE, so its dates compare as days. */
  type DatedRow = ValRow<int>

  /** The company page keeps TRADE_DATE as read, so its dates compare as
      text. */
  type TextRow = ValRow<string>

  function MetricOf<D>(r: ValRow<D>, m: Metric): Option<real> {
    match m
    case PE => r.pe
    case PB => r.pb
    case PS => r.ps
    case EvEbitda => r.evEbitda
  }
}
