/** The sector valuation page: the tickers of each L2 sector, the valuation
    rows of a selection of tickers since a start date, the rows at the
    latest trade date among them, and the optional y-axis limit. */
module Sector {
  import opened Wrappers
  import opened Seqs
  import opened Valuation

  // ---------------------------------------------------------------------------
  // Sectors

  /** One row of the stock list: a ticker and its L2 sector; None is a blank
      (NaN) sector cell. */
  datatype StockRow = StockRow(ticker: string, l2: Option<string>)

  /** The sector dictionary in insertion order: (sector, tickers) pairs. */
  type SectorDict = seq<(Option<string>, seq<string>)>

  /** `stock_set['L2'] == l2`: NaN equals nothing, itself included. */
  function InSector(l2: Option<string>): StockRow -> bool {
    (x: StockRow) => l2.Some? && x.l2 == l2
  }

  function TickersOf(rows: seq<StockRow>): (r: seq<string>)
    ensures |r| == |rows| && forall i :: 0 <= i < |rows| ==> r[i] == rows[i].ticker
  {
    seq(|rows|, i requires 0 <= i < |rows| => rows[i].ticker)
  }

  /** The L2 column. */
  function Sectors(rows: seq<StockRow>): (r: seq<Option<string>>)
    ensures |r| == |rows| && forall i :: 0 <= i < |rows| ==> r[i] == rows[i].l2
  {
    seq(|rows|, i requires 0 <= i < |rows| => rows[i].l2)
  }

  /** `sector_ticker_list`: for each distinct L2 value in order of first
      appearance, the tickers of the rows whose L2 equals it, in row order. */
  method SectorTickerList(rows: seq<StockRow>) returns (d: SectorDict)
    ensures |d| == |Dedup(Sectors(rows))|
    ensures forall i :: 0 <= i < |d| ==>
      d[i].0 == Dedup(Sectors(rows))[i] && d[i].1 == TickersOf(Filter(rows, InSector(d[i].0)))
  {
    var keys := Dedup(Sectors(rows));
    d := [];
    for n := 0 to |keys|
      invariant |d| == n
      invariant forall i :: 0 <= i < n ==> d[i].0 == keys[i] && d[i].1 == TickersOf(Filter(rows, InSector(keys[i])))
    {
      d := d + [(keys[n], TickersOf(Filter(rows, InSector(keys[n]))))];
    }
  }

  function DictKeys(d: SectorDict): (r: seq<Option<string>>)
    ensures |r| == |d| && forall i :: 0 <= i < |d| ==> r[i] == d[i].0
  {
    seq(|d|, i requires 0 <= i < |d| => d[i].0)
  }

  /** The sectors are the distinct L2 values, each once, in the order they
      first appear; a blank cell gives a blank sector with no tickers. */
  lemma SectorKeys(rows: seq<StockRow>, d: SectorDict)
    requires |d| == |Dedup(Sectors(rows))|
    requires forall i :: 0 <= i < |d| ==>
      d[i].0 == Dedup(Sectors(rows))[i] && d[i].1 == TickersOf(Filter(rows, InSector(d[i].0)))
    ensures DictKeys(d) == Dedup(Sectors(rows)) && Distinct(DictKeys(d))
    ensures forall k :: k in DictKeys(d) <==> exists x :: x in rows && x.l2 == k
    ensures forall i :: 0 <= i < |d| && d[i].0.None? ==> d[i].1 == []
  {
    var keys := Dedup(Sectors(rows));
    assert DictKeys(d) == keys;
    forall k ensures k in keys <==> exists x :: x in rows && x.l2 == k {
      if k in keys {
        var i :| 0 <= i < |rows| && Sectors(rows)[i] == k;
        assert rows[i] in rows;
      }
      if x :| x in rows && x.l2 == k {
        var i :| 0 <= i < |rows| && rows[i] == x;
        assert Sectors(rows)[i] == k;
      }
    }
    forall i | 0 <= i < |d| && d[i].0.None? ensures d[i].1 == [] {
      FilterNone(rows, InSector(d[i].0));
    }
  }

  /** A ticker is listed under a sector exactly when some row gives it that
      (non-blank) sector. */
  lemma SectorMembers(rows: seq<StockRow>, l2: Option<string>, t: string)
    ensures t in TickersOf(Filter(rows, InSector(l2))) <==> exists x :: x in rows && x.ticker == t && l2.Some? && x.l2 == l2
  {
    var kept := Filter(rows, InSector(l2));
    var ts := TickersOf(kept);
    if t in ts {
      var i :| 0 <= i < |ts| && ts[i] == t;
      assert kept[i] in kept;
    }
    if x :| x in rows && x.ticker == t && l2.Some? && x.l2 == l2 {
      assert x in kept;
      var i :| 0 <= i < |kept| && kept[i] == x;
      assert ts[i] == t;
    }
  }

  // ---------------------------------------------------------------------------
  // The valuation box plot

  /** `df['TICKER'].isin(tickers)` and `TRADE_DATE >= start_date`. */
  function Selected(tickers: seq<string>, startDate: int): DatedRow -> bool {
    (x: DatedRow) => x.ticker in tickers && x.tradeDate >= startDate
  }

  /** The rows the box plot is drawn from, in data order: every selected row
      as often as it occurs, and no other row. */
  function FilterValuation(vals: seq<DatedRow>, tickers: seq<string>, startDate: int): (r: seq<DatedRow>)
    ensures forall x :: x in r <==> x in vals && x.ticker in tickers && x.tradeDate >= startDate
    ensures forall x :: multiset(r)[x] ==
                        if x.ticker in tickers && x.tradeDate >= startDate then multiset(vals)[x] else 0
  {
    var r := Filter(vals, Selected(tickers, startDate));
    forall x ensures multiset(r)[x] == if x.ticker in tickers && x.tradeDate >= startDate then multiset(vals)[x] else 0 {
      FilterMultiset(vals, Selected(tickers, startDate), x);
    }
    r
  }

  /** `TRADE_DATE.max()`: None (NaT) for no rows. */
  function MaxDate(rows: seq<DatedRow>): (r: Option<int>)
    ensures r.None? <==> |rows| == 0
    ensures r.Some? ==> (exists x :: x in rows && x.tradeDate == r.value) &&
                        forall x :: x in rows ==> x.tradeDate <= r.value
  {
    if |rows| == 0 then None
    else
      assert rows == [rows[0]] + rows[1..];
      match MaxDate(rows[1..])
      case None => Some(rows[0].tradeDate)
      case Some(m) => Some(if rows[0].tradeDate >= m then rows[0].tradeDate else m)
  }

  /** The maximum depends on which rows there are, not on their order. */
  lemma MaxDateOrderFree(a: seq<DatedRow>, b: seq<DatedRow>)
    requires multiset(a) == multiset(b)
    ensures MaxDate(a) == MaxDate(b)
  {
    assert |a| == |multiset(a)| == |multiset(b)| == |b|;
    if |a| > 0 {
      var ma, mb := MaxDate(a).value, MaxDate(b).value;
      var wa :| wa in a && wa.tradeDate == ma;
      var wb :| wb in b && wb.tradeDate == mb;
      assert wa in multiset(b);
      assert wb in multiset(a);
      assert ma <= mb && mb <= ma;
    }
  }

  function OnDate(date: Option<int>): DatedRow -> bool {
    (x: DatedRow) => date.Some? && x.tradeDate == date.value
  }

  /** `df_current`: the filtered rows at their latest trade date (none when
      there are no filtered rows, since nothing equals NaT). */
  function CurrentRows(filtered: seq<DatedRow>): (r: seq<DatedRow>)
    ensures forall x :: x in r <==> x in filtered && forall y :: y in filtered ==> y.tradeDate <= x.tradeDate
  {
    Filter(filtered, OnDate(MaxDate(filtered)))
  }

  /** There are current rows exactly when there are filtered rows. */
  lemma CurrentRowsEmpty(filtered: seq<DatedRow>)
    ensures |CurrentRows(filtered)| == 0 <==> |filtered| == 0
  {
    var r := CurrentRows(filtered);
    if |filtered| > 0 {
      var w :| w in filtered && w.tradeDate == MaxDate(filtered).value;
      assert w in r;
    }
  }

  /** The current rows do not depend on the order of the data: the same
      rows, each as often, whatever the order. */
  lemma CurrentRowsOrderFree(a: seq<DatedRow>, b: seq<DatedRow>)
    requires multiset(a) == multiset(b)
    ensures multiset(CurrentRows(a)) == multiset(CurrentRows(b))
  {
    MaxDateOrderFree(a, b);
    var p := OnDate(MaxDate(a));
    forall x ensures multiset(CurrentRows(a))[x] == multiset(CurrentRows(b))[x] {
      FilterMultiset(a, p, x);
      FilterMultiset(b, p, x);
    }
  }

  /** Every current row is a filtered row, each as often as it is there. */
  lemma CurrentRowsSub(filtered: seq<DatedRow>)
    ensures multiset(CurrentRows(filtered)) <= multiset(filtered)
  {
    var p := OnDate(MaxDate(filtered));
    forall x ensures multiset(CurrentRows(filtered))[x] <= multiset(filtered)[x] {
      FilterMultiset(filtered, p, x);
    }
  }

  /** `y_max`: the number input, where 0.0 means no limit. */
  function YLimit(input: Option<real>): (r: Option<real>)
    ensures r.None? <==> input.None? || input == Some(0.0)
    ensures r.Some? ==> r == input
  {
    if input == Some(0.0) then None else input
  }

  /** What the plot shows: a box of metric values per ticker over the
      filtered rows, the current values as markers, and the y-axis range
      when a limit is set. */
  datatype ValuationPlot = ValuationPlot(
    box: seq<(string, Option<real>)>,
    current: seq<(string, Option<real>)>,
    yRange: Option<(real, real)>)

  function Points(rows: seq<DatedRow>, metric: Metric): (r: seq<(string, Option<real>)>)
    ensures |r| == |rows| && forall i :: 0 <= i < |rows| ==> r[i] == (rows[i].ticker, MetricOf(rows[i], metric))
  {
    seq(|rows|, i requires 0 <= i < |rows| => (rows[i].ticker, MetricOf(rows[i], metric)))
  }

  /** `plot_valuation_scatter` with the page's y-axis input. */
  function PlotValuationScatter(vals: seq<DatedRow>, tickers: seq<string>, metric: Metric, startDate: int,
                                yInput: Option<real>): (r: ValuationPlot)
    ensures r.box == Points(FilterValuation(vals, tickers, startDate), metric)
    ensures r.current == Points(CurrentRows(FilterValuation(vals, tickers, startDate)), metric)
    ensures r.yRange.None? <==> yInput.None? || yInput == Some(0.0)
    ensures r.yRange.Some? ==> r.yRange.value.0 == 0.0 && Some(r.yRange.value.1) == yInput
  {
    var filtered := FilterValuation(vals, tickers, startDate);
    var yMax := YLimit(yInput);
    ValuationPlot(Points(filtered, metric), Points(CurrentRows(filtered), metric),
      if yMax.Some? then Some((0.0, yMax.value)) else None)
  }
}
