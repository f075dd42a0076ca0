/** The free plot of the banking page: one keycode drawn for several banks
    over time, one line per bank that has rows in the chosen years. */
module LineChart {
  import opened Wrappers
  import opened Seqs
  import opened Frames
  import opened Bank
  import Dicts

  /** One line: the bank, its period labels and the keycode's values. */
  datatype Trace = Trace(name: string, x: seq<string>, y: seq<Option<real>>)

  /** The figure: empty when no bank had rows, otherwise titled lines with
      an optional `%` tick suffix. */
  datatype Chart =
    | NoLines
    | Lines(title: string, yTitle: string, unit: Option<string>, traces: seq<Trace>)

  const TITLE_PREFIX: string := "Multi Ticker Data - "

  /** The rows of `ticker` reported in `startperiod` or later. */
  function Selected(ticker: string, startperiod: int): BankRow -> bool {
    (x: BankRow) => x.ticker == ticker && x.year >= startperiod
  }

  /** The rows behind one line, in period order. */
  function Points(rows: seq<BankRow>, ticker: string, startperiod: int): seq<BankRow> {
    SortByPeriod(Filter(rows, Selected(ticker, startperiod)))
  }

  /** A value on the line: the cell, times 100 for a percentage keycode. */
  function Shown(x: BankRow, keycode: string, pct: bool): Option<real> {
    if pct then ScaleCell(Percent, Cell(x, keycode)) else Cell(x, keycode)
  }

  /** The line of one bank. */
  function TickerTrace(rows: seq<BankRow>, ticker: string, keycode: string, pct: bool, startperiod: int): (r: Trace)
    ensures r.name == ticker
    ensures |r.x| == |r.y| == |Points(rows, ticker, startperiod)|
  {
    var pts := Points(rows, ticker, startperiod);
    Trace(ticker,
      seq(|pts|, k requires 0 <= k < |pts| => Date(pts[k])),
      seq(|pts|, k requires 0 <= k < |pts| => Shown(pts[k], keycode, pct)))
  }

  /** `ticker` has a row in `startperiod` or later. */
  predicate HasRows(rows: seq<BankRow>, ticker: string, startperiod: int) {
    exists x :: x in rows && x.ticker == ticker && x.year >= startperiod
  }

  function HasRowsIn(rows: seq<BankRow>, startperiod: int): string -> bool {
    (t: string) => HasRows(rows, t, startperiod)
  }

  /** The line drawer for the chosen keycode and years. */
  function Line(rows: seq<BankRow>, keycode: string, pct: bool, startperiod: int): string -> Trace {
    (t: string) => TickerTrace(rows, t, keycode, pct, startperiod)
  }

  /** The lines `line` draws for `tickers`, in order, leaving out the empty
      ones. */
  function Drawn(tickers: seq<string>, line: string -> Trace): (r: seq<Trace>)
    ensures |r| <= |tickers|
  {
    if |tickers| == 0 then []
    else
      (if |line(tickers[0]).x| > 0 then [line(tickers[0])] else []) + Drawn(tickers[1..], line)
  }

  /** The lines added, in the order of `tickers`: one per bank with rows. */
  function Traces(rows: seq<BankRow>, tickers: seq<string>, keycode: string, pct: bool, startperiod: int): (r: seq<Trace>)
    ensures |r| <= |tickers|
  {
    Drawn(tickers, Line(rows, keycode, pct, startperiod))
  }

  /** Sorting keeps every selected row. */
  lemma PointsSize(rows: seq<BankRow>, ticker: string, startperiod: int)
    ensures |Points(rows, ticker, startperiod)| == |Filter(rows, Selected(ticker, startperiod))|
  {
    var kept := Filter(rows, Selected(ticker, startperiod));
    assert |multiset(Points(rows, ticker, startperiod))| == |multiset(kept)|;
  }

  /** A bank gets a line exactly when it has a row in the chosen years. */
  lemma PointsEmpty(rows: seq<BankRow>, ticker: string, startperiod: int)
    ensures |Points(rows, ticker, startperiod)| > 0 <==> HasRows(rows, ticker, startperiod)
  {
    PointsSize(rows, ticker, startperiod);
    var kept := Filter(rows, Selected(ticker, startperiod));
    if |kept| > 0 {
      assert kept[0] in kept;
    }
    if x :| x in rows && x.ticker == ticker && x.year >= startperiod {
      assert x in kept;
    }
  }

  function Names(ts: seq<Trace>): seq<string> {
    seq(|ts|, k requires 0 <= k < |ts| => ts[k].name)
  }

  lemma NamesAppend(a: seq<Trace>, b: seq<Trace>)
    ensures Names(a + b) == Names(a) + Names(b)
  {
  }

  /** The lines are named after the banks that have rows, in the order
      given. */
  lemma {:induction false} TraceNames(rows: seq<BankRow>, tickers: seq<string>, keycode: string, pct: bool, startperiod: int)
    ensures Names(Traces(rows, tickers, keycode, pct, startperiod)) == Filter(tickers, HasRowsIn(rows, startperiod))
  {
    if |tickers| > 0 {
      var t := tickers[0];
      var rest := Traces(rows, tickers[1..], keycode, pct, startperiod);
      TraceNames(rows, tickers[1..], keycode, pct, startperiod);
      PointsEmpty(rows, t, startperiod);
      var tr := TickerTrace(rows, t, keycode, pct, startperiod);
      var head := if |tr.x| > 0 then [tr] else [];
      assert Traces(rows, tickers, keycode, pct, startperiod) == head + rest;
      NamesAppend(head, rest);
      assert Names(head) == if HasRowsIn(rows, startperiod)(t) then [t] else [];
      assert Filter(tickers, HasRowsIn(rows, startperiod)) ==
        (if HasRowsIn(rows, startperiod)(t) then [t] else []) + Filter(tickers[1..], HasRowsIn(rows, startperiod));
    }
  }

  /** Each line kept is the non-empty line of one of the banks. */
  lemma {:induction false} LinesFrom(tickers: seq<string>, line: string -> Trace, k: nat)
    requires k < |Drawn(tickers, line)|
    ensures exists j :: 0 <= j < |tickers| && Drawn(tickers, line)[k] == line(tickers[j]) && |line(tickers[j]).x| > 0
  {
    var first := line(tickers[0]);
    var rest := Drawn(tickers[1..], line);
    if |first.x| > 0 && k == 0 {
      assert Drawn(tickers, line)[k] == line(tickers[0]);
    } else {
      var n := if |first.x| > 0 then 1 else 0;
      assert Drawn(tickers, line)[k] == rest[k - n];
      LinesFrom(tickers[1..], line, k - n);
      var j :| 0 <= j < |tickers[1..]| && rest[k - n] == line(tickers[1..][j]) && |line(tickers[1..][j]).x| > 0;
      assert tickers[1..][j] == tickers[j + 1];
    }
  }

  /** Every line is the line of the bank it is named after. */
  lemma TracesAre(rows: seq<BankRow>, tickers: seq<string>, keycode: string, pct: bool, startperiod: int, k: nat)
    requires k < |Traces(rows, tickers, keycode, pct, startperiod)|
    ensures var tr := Traces(rows, tickers, keycode, pct, startperiod)[k];
      tr == TickerTrace(rows, tr.name, keycode, pct, startperiod) && tr.name in tickers && |tr.x| > 0
  {
    var line := Line(rows, keycode, pct, startperiod);
    LinesFrom(tickers, line, k);
    var j :| 0 <= j < |tickers| && Drawn(tickers, line)[k] == line(tickers[j]) && |line(tickers[j]).x| > 0;
    assert line(tickers[j]) == TickerTrace(rows, tickers[j], keycode, pct, startperiod);
  }

  /** There are no lines exactly when no bank has a row in the chosen
      years. */
  lemma {:induction false} TracesEmpty(rows: seq<BankRow>, tickers: seq<string>, keycode: string, pct: bool, startperiod: int)
    ensures |Traces(rows, tickers, keycode, pct, startperiod)| == 0 <==>
      forall t :: t in tickers ==> !HasRows(rows, t, startperiod)
  {
    TraceNames(rows, tickers, keycode, pct, startperiod);
    var kept := Filter(tickers, HasRowsIn(rows, startperiod));
    if |kept| > 0 {
      assert kept[0] in kept;
    }
    if t :| t in tickers && HasRows(rows, t, startperiod) {
      assert t in kept;
    }
  }

  /** The points of a line: the bank's rows from `startperiod` on, sorted
      by period, the rows of one period in data order; the x values are
      their period labels and the y values their cells, scaled by 100 for a
      percentage keycode. */
  lemma TracePoints(rows: seq<BankRow>, ticker: string, keycode: string, pct: bool, startperiod: int, y: int, l: int)
    ensures var pts := Points(rows, ticker, startperiod);
      && SortedByPeriod(pts)
      && multiset(pts) == multiset(Filter(rows, Selected(ticker, startperiod)))
      && OfPeriod(pts, y, l) == OfPeriod(Filter(rows, Selected(ticker, startperiod)), y, l)
      && (forall x :: x in pts <==> x in rows && x.ticker == ticker && x.year >= startperiod)
    ensures var tr := TickerTrace(rows, ticker, keycode, pct, startperiod);
      var pts := Points(rows, ticker, startperiod);
      forall k :: 0 <= k < |pts| ==>
        && tr.x[k] == PeriodLabel(pts[k].year, pts[k].length)
        && (pct ==> tr.y[k] == ScaleCell(Percent, Cell(pts[k], keycode)))
        && (!pct ==> tr.y[k] == Cell(pts[k], keycode))
  {
    var kept := Filter(rows, Selected(ticker, startperiod));
    var pts := Points(rows, ticker, startperiod);
    SortStable(kept, y, l);
    forall x ensures x in pts <==> x in kept {
      assert x in pts <==> x in multiset(pts);
    }
  }

  /** `visualize_multi_ticker_data`: raises when there is a bank to draw and
      the keycode is not a column (the `df_ticker[keycode]` read comes
      before any check); gives the empty figure when no bank has rows;
      otherwise a line per such bank, titled with the keycode's name (the
      keycode itself when `d` does not name it), with a `%` suffix for a
      percentage keycode. */
  function VisualizeMultiTicker(df: BankFrame, tickers: seq<string>, keycode: string, caPct: seq<string>,
                                d: Dicts.Dict, startperiod: int): (r: Result<Chart, FrameError>)
    ensures r.Failure? <==> |tickers| > 0 && keycode !in df.columns
    ensures r.Failure? ==> r.error == MissingColumn(keycode)
    ensures r.Success? ==>
      (r.value.NoLines? <==> forall t :: t in tickers ==> !HasRows(df.rows, t, startperiod))
    ensures r.Success? && r.value.Lines? ==>
      && r.value.title == TITLE_PREFIX + Dicts.GetOr(d, keycode, keycode)
      && r.value.yTitle == Dicts.GetOr(d, keycode, keycode)
      && (r.value.unit == Some("%") <==> keycode in caPct)
      && (r.value.unit.None? <==> keycode !in caPct)
      && r.value.traces == Traces(df.rows, tickers, keycode, keycode in caPct, startperiod)
  {
    if |tickers| > 0 && keycode !in df.columns then Failure(MissingColumn(keycode))
    else
      var pct := keycode in caPct;
      var ts := Traces(df.rows, tickers, keycode, pct, startperiod);
      var name := Dicts.GetOr(d, keycode, keycode);
      TracesEmpty(df.rows, tickers, keycode, pct, startperiod);
      if |ts| == 0 then Success(NoLines)
      else Success(Lines(TITLE_PREFIX + name, name, if pct then Some("%") else None, ts))
  }
}
