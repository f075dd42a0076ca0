/** The headline figures of the company page: the latest P/E, P/B and
    EV/EBITDA of the ticker and its current market capitalisation. */
module KeyData {
  import opened Wrappers
  import opened Valuation
  import opened Strings

  /** One row of the market-capitalisation data. */
  datatype McapRow = McapRow(ticker: string, curMktCap: Option<real>)

  /** The figures shown; None when the data has no value for one. */
  datatype KeyFigures = KeyFigures(pe: Option<real>, pb: Option<real>, evEbitda: Option<real>, mcap: Option<real>)

  /** A row of the ticker with a number in column `m`. */
  predicate Candidate(x: TextRow, ticker: string, m: Metric) {
    x.ticker == ticker && MetricOf(x, m).Some?
  }

  /** `r` is what sorting the ticker's rows by descending trade date and
      taking the first non-null value of `m` can give: None when there is no
      such value, otherwise the value of a row whose date no other such row
      sorts after. The dates are the CSV text, so "sorts after" is the
      code-point order of strings. The sort is not stable, so when several
      such rows share that date any of them may be the one read. */
  predicate IsLatest(vals: seq<TextRow>, ticker: string, m: Metric, r: Option<real>) {
    && (r.None? <==> forall x :: x in vals ==> !Candidate(x, ticker, m))
    && (r.Some? ==> exists x :: x in vals && Candidate(x, ticker, m) && MetricOf(x, m) == r &&
                       forall y :: y in vals && Candidate(y, ticker, m) ==> !Less(x.tradeDate, y.tradeDate))
  }

  /** The latest non-null value of `m` for the ticker, by trade date. */
  method LatestValue(vals: seq<TextRow>, ticker: string, m: Metric) returns (r: Option<real>)
    ensures IsLatest(vals, ticker, m, r)
  {
    r := None;
    var best := "";
    var at: nat := 0;
    for i := 0 to |vals|
      invariant r.None? <==> forall j :: 0 <= j < i ==> !Candidate(vals[j], ticker, m)
      invariant r.Some? ==> at < i && Candidate(vals[at], ticker, m) && r == MetricOf(vals[at], m)
                            && best == vals[at].tradeDate
      invariant r.Some? ==> forall j :: 0 <= j < i && Candidate(vals[j], ticker, m) ==> !Less(best, vals[j].tradeDate)
    {
      if Candidate(vals[i], ticker, m) && (r.None? || Less(best, vals[i].tradeDate)) {
        if r.Some? {
          forall j | 0 <= j < i && Candidate(vals[j], ticker, m)
            ensures !Less(vals[i].tradeDate, vals[j].tradeDate)
          {
            LessThen(best, vals[i].tradeDate, vals[j].tradeDate);
          }
        }
        LessIrreflexive(vals[i].tradeDate);
        r := MetricOf(vals[i], m);
        best := vals[i].tradeDate;
        at := i;
      }
    }
    if r.Some? {
      assert vals[at] in vals;
    }
  }

  /** The only freedom the unstable sort leaves is between rows that share
      the latest date: when the ticker's dated values all have distinct
      dates, the latest value is determined. */
  lemma LatestDetermined(vals: seq<TextRow>, ticker: string, m: Metric, r1: Option<real>, r2: Option<real>)
    requires forall i, j :: 0 <= i < j < |vals| && Candidate(vals[i], ticker, m) && Candidate(vals[j], ticker, m) ==>
               vals[i].tradeDate != vals[j].tradeDate
    requires IsLatest(vals, ticker, m, r1) && IsLatest(vals, ticker, m, r2)
    ensures r1 == r2
  {
    if r1.Some? && r2.Some? {
      var x1 :| x1 in vals && Candidate(x1, ticker, m) && MetricOf(x1, m) == r1 &&
                forall y :: y in vals && Candidate(y, ticker, m) ==> !Less(x1.tradeDate, y.tradeDate);
      var x2 :| x2 in vals && Candidate(x2, ticker, m) && MetricOf(x2, m) == r2 &&
                forall y :: y in vals && Candidate(y, ticker, m) ==> !Less(x2.tradeDate, y.tradeDate);
      var i :| 0 <= i < |vals| && vals[i] == x1;
      var j :| 0 <= j < |vals| && vals[j] == x2;
      LessTrichotomy(x1.tradeDate, x2.tradeDate);
      assert x1.tradeDate == x2.tradeDate;
      assert i == j;
    }
  }

  /** Text order is not date order: "1/9/2024" sorts after "1/10/2024", so
      for unpadded month/day/year dates the descending sort reads 9 January
      before 10 January. */
  lemma TextDateOrder()
    ensures Less("1/10/2024", "1/9/2024")
  {
  }

  /** `mcap_vals.iloc[0]`: the market capitalisation on the ticker's first
      row, None when the ticker has no row. A NaN there is None as well. */
  function FirstMcap(mcaps: seq<McapRow>, ticker: string): (r: Option<real>)
    ensures (forall x :: x in mcaps ==> x.ticker != ticker) ==> r.None?
  {
    if |mcaps| == 0 then None
    else if mcaps[0].ticker == ticker then mcaps[0].curMktCap
    else FirstMcap(mcaps[1..], ticker)
  }

  /** When the ticker has a row, the figure is the one on its first row. */
  lemma {:induction false} FirstMcapIsFirst(mcaps: seq<McapRow>, ticker: string, i: nat)
    requires i < |mcaps| && mcaps[i].ticker == ticker
    requires forall j :: 0 <= j < i ==> mcaps[j].ticker != ticker
    ensures FirstMcap(mcaps, ticker) == mcaps[i].curMktCap
  {
    if i > 0 {
      FirstMcapIsFirst(mcaps[1..], ticker, i - 1);
    }
  }

  /** `extract_key_data`: the latest P/E, P/B and EV/EBITDA of the ticker
      and its first market capitalisation. */
  method ExtractKeyData(vals: seq<TextRow>, mcaps: seq<McapRow>, ticker: string) returns (r: KeyFigures)
    ensures IsLatest(vals, ticker, PE, r.pe)
    ensures IsLatest(vals, ticker, PB, r.pb)
    ensures IsLatest(vals, ticker, EvEbitda, r.evEbitda)
    ensures r.mcap == FirstMcap(mcaps, ticker)
  {
    var pe := LatestValue(vals, ticker, PE);
    var pb := LatestValue(vals, ticker, PB);
    var ev := LatestValue(vals, ticker, EvEbitda);
    r := KeyFigures(pe, pb, ev, FirstMcap(mcaps, ticker));
  }
}
