/** The banking page: the `YYYYQn` period labels, the keycode dictionaries
    read from the mapping sheet, the single-bank (metric by period) and
    multi-bank (metric by ticker) tables, the panel grid they are drawn in,
    and the multi-ticker line chart of one keycode. */
module Bank {
  import opened Wrappers
  import opened Seqs
  import opened Strings
  import opened Frames
  import Dicts

  // ---------------------------------------------------------------------------
  // Period labels

  /** `YEARREPORT.astype(str) + 'Q' + LENGTHREPORT.astype(str)`. */
  function PeriodLabel(year: int, length: int): string {
    IntToString(year) + "Q" + IntToString(length)
  }

  /** Reads a period label back into its year and report length. */
  function ParsePeriod(s: string): Option<(int, int)> {
    match IndexOf(s, 'Q')
    case None => None
    case Some(p) =>
      match (ParseInt(s[..p]), ParseInt(s[p + 1..]))
      case (Some(year), Some(length)) => Some((year, length))
      case _ => None
  }

  /** The text of an integer has no `Q` in it. */
  lemma NoQ(i: int)
    ensures 'Q' !in IntToString(i)
  {
    var s := IntToString(i);
    forall n | 0 <= n < |s| ensures s[n] != 'Q' {
      if !IsDigits(s) && n > 0 {
        assert s[n] == s[1..][n - 1];
      }
    }
  }

  /** A period label determines its year and report length. */
  lemma PeriodLabelRoundTrip(year: int, length: int)
    ensures ParsePeriod(PeriodLabel(year, length)) == Some((year, length))
  {
    var ys, ls := IntToString(year), IntToString(length);
    var s := PeriodLabel(year, length);
    NoQ(year);
    assert s[..|ys|] == ys && s[|ys|] == 'Q' && s[|ys| + 1..] == ls;
    IndexOfUnique(s, 'Q', |ys|);
    IntToStringRoundTrip(year);
    IntToStringRoundTrip(length);
  }

  /** Different periods never share a label, so a label names one column. */
  lemma PeriodLabelInjective(y1: int, l1: int, y2: int, l2: int)
    ensures PeriodLabel(y1, l1) == PeriodLabel(y2, l2) <==> y1 == y2 && l1 == l2
  {
    PeriodLabelRoundTrip(y1, l1);
    PeriodLabelRoundTrip(y2, l2);
  }

  lemma PeriodLabelExample()
    ensures PeriodLabel(2025, 1) == "2025Q1"
  {
    assert NatToString(2) == "2";
    assert NatToString(20) == "20";
    assert NatToString(202) == "202";
    assert NatToString(2025) == "2025";
  }

  // ---------------------------------------------------------------------------
  // The keycode mapping

  /** A row of the keycode sheet; `dwhCode` is None where the cell is blank. */
  datatype MappingRow = MappingRow(dwhCode: Option<string>, keyCode: string, name: string, format: string)

  /** The rows of the sheet that have a warehouse code; the others are
      dropped before anything is built from the sheet. */
  function Mapped(mapping: seq<MappingRow>): (r: seq<MappingRow>)
    ensures forall m :: m in r <==> m in mapping && m.dwhCode.Some?
  {
    Filter(mapping, (m: MappingRow) => m.dwhCode.Some?)
  }

  /** A capital-adequacy keycode (prefix `CA.`) stored as a percentage. */
  predicate IsCaPct(m: MappingRow) {
    StartsWith(m.keyCode, "CA.") && m.format == "pct"
  }

  function KeyCodes(ms: seq<MappingRow>): (r: seq<string>)
    ensures |r| == |ms| && forall i :: 0 <= i < |ms| ==> r[i] == ms[i].keyCode
  {
    seq(|ms|, i requires 0 <= i < |ms| => ms[i].keyCode)
  }

  /** `ca_pct`: the keycodes of the mapped rows that are capital-adequacy
      percentages, in sheet order. */
  function CaPct(mapping: seq<MappingRow>): (r: seq<string>)
    ensures forall c :: c in r <==> exists m :: m in mapping && m.dwhCode.Some? && IsCaPct(m) && m.keyCode == c
  {
    var rows := Filter(Mapped(mapping), IsCaPct);
    var r := KeyCodes(rows);
    assert forall c :: c in r <==> exists m :: m in rows && m.keyCode == c by {
      forall c ensures c in r <==> exists m :: m in rows && m.keyCode == c {
        if c in r {
          var i :| 0 <= i < |r| && r[i] == c;
          assert rows[i] in rows;
        }
        if exists m :: m in rows && m.keyCode == c {
          var m :| m in rows && m.keyCode == c;
          var i :| 0 <= i < |rows| && rows[i] == m;
          assert r[i] == c;
        }
      }
    }
    r
  }

  /** The (KeyCode, Name) pairs of the mapped rows, in sheet order. */
  function KeyNamePairs(mapping: seq<MappingRow>): (r: seq<(string, string)>)
    ensures forall p :: p in r <==> exists m :: m in mapping && m.dwhCode.Some? && p == (m.keyCode, m.name)
  {
    var rows := Mapped(mapping);
    var r := seq(|rows|, i requires 0 <= i < |rows| => (rows[i].keyCode, rows[i].name));
    assert forall p :: p in r <==> exists m :: m in rows && p == (m.keyCode, m.name) by {
      forall p ensures p in r <==> exists m :: m in rows && p == (m.keyCode, m.name) {
        if p in r {
          var i :| 0 <= i < |r| && r[i] == p;
          assert rows[i] in rows;
        }
        if exists m :: m in rows && p == (m.keyCode, m.name) {
          var m :| m in rows && p == (m.keyCode, m.name);
          var i :| 0 <= i < |rows| && rows[i] == m;
          assert r[i] == p;
        }
      }
    }
    r
  }

  const DIVIDEND: string := "Dividend"

  /** `keycode_to_name_dict`: KeyCode to Name over the mapped rows, a later
      row overwriting an earlier one with the same KeyCode, then "Dividend"
      popped; the pop raises when "Dividend" is not a KeyCode. */
  function KeycodeToName(mapping: seq<MappingRow>): (r: Result<Dicts.Dict, FrameError>)
    ensures r.Failure? <==> forall m :: m in mapping && m.dwhCode.Some? ==> m.keyCode != DIVIDEND
    ensures r.Success? ==> Dicts.DistinctKeys(r.value) && DIVIDEND !in Dicts.Keys(r.value)
  {
    var d := Dicts.FromPairs(KeyNamePairs(mapping));
    Dicts.FromPairsKeys(KeyNamePairs(mapping), DIVIDEND);
    KeyNamesHas(mapping, DIVIDEND);
    match Dicts.Pop(d, DIVIDEND)
    case Failure(k) => Failure(MissingKey(k))
    case Success(d') => Success(d')
  }

  lemma KeyNamesHas(mapping: seq<MappingRow>, k: string)
    ensures (exists i :: 0 <= i < |KeyNamePairs(mapping)| && KeyNamePairs(mapping)[i].0 == k) <==>
            exists m :: m in mapping && m.dwhCode.Some? && m.keyCode == k
  {
    var ps := KeyNamePairs(mapping);
    if exists m :: m in mapping && m.dwhCode.Some? && m.keyCode == k {
      var m :| m in mapping && m.dwhCode.Some? && m.keyCode == k;
      assert (m.keyCode, m.name) in ps;
    }
    if exists i :: 0 <= i < |ps| && ps[i].0 == k {
      var i :| 0 <= i < |ps| && ps[i].0 == k;
      assert ps[i] in ps;
    }
  }

  /** What the dictionary says: a keycode other than "Dividend" names the
      Name of the LAST mapped row with that keycode; "Dividend" and keycodes
      only on rows without a warehouse code have no entry. */
  lemma KeycodeToNameGet(mapping: seq<MappingRow>, k: string, n: string)
    requires KeycodeToName(mapping).Success?
    ensures Dicts.Get(KeycodeToName(mapping).value, k) == Some(n) <==>
      k != DIVIDEND && Dicts.LastFor(KeyNamePairs(mapping), k, n)
  {
    var d := Dicts.FromPairs(KeyNamePairs(mapping));
    Dicts.FromPairsLastWins(KeyNamePairs(mapping), k, n);
    Dicts.FromPairsKeys(KeyNamePairs(mapping), DIVIDEND);
    KeyNamesHas(mapping, DIVIDEND);
  }

  /** A keycode has a name exactly when it is not "Dividend" and some
      mapped row carries it. */
  lemma KeycodeToNameKeys(mapping: seq<MappingRow>, k: string)
    requires KeycodeToName(mapping).Success?
    ensures k in Dicts.Keys(KeycodeToName(mapping).value) <==>
      k != DIVIDEND && exists m :: m in mapping && m.dwhCode.Some? && m.keyCode == k
  {
    var d := Dicts.FromPairs(KeyNamePairs(mapping));
    Dicts.FromPairsKeys(KeyNamePairs(mapping), k);
    Dicts.FromPairsKeys(KeyNamePairs(mapping), DIVIDEND);
    KeyNamesHas(mapping, k);
    KeyNamesHas(mapping, DIVIDEND);
    if k != DIVIDEND {
      assert Dicts.Get(KeycodeToName(mapping).value, k) == Dicts.Get(d, k);
    }
  }

  /** `name_to_keycode_dict`: the inverse dictionary, Name to KeyCode; when
      several keycodes share a name the one iterated last wins. */
  function NameToKeycode(d: Dicts.Dict): (r: Dicts.Dict)
    ensures Dicts.DistinctKeys(r)
    ensures forall v :: v in Dicts.Keys(r) <==> v in Dicts.Values(d)
  {
    forall v ensures v in Dicts.Keys(Dicts.Invert(d)) <==> v in Dicts.Values(d) {
      Dicts.InvertKeys(d, v);
    }
    Dicts.Invert(d)
  }

  /** Every name the chart selector offers leads, through its keycode, back
      to itself. */
  lemma NameToKeycodeRoundTrip(mapping: seq<MappingRow>, name: string)
    requires KeycodeToName(mapping).Success?
    requires name in Dicts.Keys(NameToKeycode(KeycodeToName(mapping).value))
    ensures var d := KeycodeToName(mapping).value;
      Dicts.Get(d, Dicts.Get(NameToKeycode(d), name).value) == Some(name)
  {
    Dicts.InvertRoundTrip(KeycodeToName(mapping).value, name);
  }

  // ---------------------------------------------------------------------------
  // Bank data and the wide tables

  /** One row of the quarterly bank data: the ticker, the report year and
      length, and the value of each keycode column it has. */
  datatype BankRow = BankRow(ticker: string, year: int, length: int, metrics: map<string, Option<real>>)

  /** A bank data frame: its keycode columns and its rows. */
  datatype BankFrame = BankFrame(columns: set<string>, rows: seq<BankRow>)

  /** The value of keycode column `c` on row `x`; NaN when the row has none. */
  function Cell(x: BankRow, c: string): Option<real> {
    if c in x.metrics then x.metrics[c] else None
  }

  /** The `DATE` column. */
  function Date(x: BankRow): string {
    PeriodLabel(x.year, x.length)
  }

  function Ticker(x: BankRow): string {
    x.ticker
  }

  /** The four statements shown for banks. */
  datatype BankSection = Income | Size | EarningsQuality | AssetQuality

  /** The keycodes of a statement, in display order (`cols[1:]`). */
  function Metrics(s: BankSection): seq<string> {
    match s
    case Income => ["IS.3", "IS.1", "IS.2", "IS.6", "IS.14", "IS.15", "IS.16", "IS.17", "IS.18", "IS.24"]
    case Size => ["BS.1", "CA.16", "BS.13", "Nt.97", "BS.56", "BS.65"]
    case EarningsQuality => ["CA.25", "CA.35", "CA.38", "CA.41", "CA.26", "CA.44", "CA.47", "CA.49", "CA.27", "CA.28", "CA.14"]
    case AssetQuality => ["CA.5", "CA.13", "CA.6", "CA.10", "CA.15"]
  }

  lemma MetricsDistinct(s: BankSection)
    ensures |Metrics(s)| > 0 && Distinct(Metrics(s))
  {
  }

  /** The first of `cs` that is not a column: the label `df[cols]` raises a
      KeyError for. */
  function FirstMissing(columns: set<string>, cs: seq<string>): (r: Option<string>)
    ensures r.None? <==> forall c :: c in cs ==> c in columns
    ensures r.Some? ==> r.value in cs && r.value !in columns
  {
    if |cs| == 0 then None
    else if cs[0] !in columns then Some(cs[0])
    else FirstMissing(columns, cs[1..])
  }

  /** The observations of one melted column: one per row, labelled by the
      row's identifier. */
  function Block(rows: seq<BankRow>, m: string, id: BankRow -> string): (r: seq<Obs>)
    ensures |r| == |rows|
    ensures forall b :: 0 <= b < |rows| ==> r[b] == Obs(m, id(rows[b]), Cell(rows[b], m))
  {
    seq(|rows|, b requires 0 <= b < |rows| => Obs(m, id(rows[b]), Cell(rows[b], m)))
  }

  /** `df.melt(id_vars=<id>, var_name='Metric', value_name='Value')` over
      the columns `ms`: the rows of the first column, then of the second, and
      so on. */
  function Melt(rows: seq<BankRow>, ms: seq<string>, id: BankRow -> string): seq<Obs>
    decreases |ms|
  {
    if |ms| == 0 then [] else Block(rows, ms[0], id) + Melt(rows, ms[1..], id)
  }

  /** Melting yields one observation per (column, row) and nothing else. */
  lemma {:induction false} MeltMember(rows: seq<BankRow>, ms: seq<string>, id: BankRow -> string, o: Obs)
    ensures o in Melt(rows, ms, id) <==>
      exists a, b :: 0 <= a < |ms| && 0 <= b < |rows| && o == Obs(ms[a], id(rows[b]), Cell(rows[b], ms[a]))
    decreases |ms|
  {
    if |ms| > 0 {
      MeltMember(rows, ms[1..], id, o);
      var blk := Block(rows, ms[0], id);
      if o in blk {
        var b :| 0 <= b < |rows| && blk[b] == o;
        assert o == Obs(ms[0], id(rows[b]), Cell(rows[b], ms[0]));
      }
      if exists a, b :: 0 <= a < |ms| && 0 <= b < |rows| && o == Obs(ms[a], id(rows[b]), Cell(rows[b], ms[a])) {
        var a, b :| 0 <= a < |ms| && 0 <= b < |rows| && o == Obs(ms[a], id(rows[b]), Cell(rows[b], ms[a]));
        if a == 0 {
          assert blk[b] == o;
        } else {
          assert ms[1..][a - 1] == ms[a];
        }
      }
      if exists a, b :: 0 <= a < |ms| - 1 && 0 <= b < |rows| && o == Obs(ms[1..][a], id(rows[b]), Cell(rows[b], ms[1..][a])) {
        var a, b :| 0 <= a < |ms| - 1 && 0 <= b < |rows| && o == Obs(ms[1..][a], id(rows[b]), Cell(rows[b], ms[1..][a]));
        assert ms[1..][a] == ms[a + 1];
      }
    }
  }

  /** Two rows share an identifier. */
  predicate IdClash(rows: seq<BankRow>, id: BankRow -> string) {
    exists b, b' :: 0 <= b < b' < |rows| && id(rows[b]) == id(rows[b'])
  }

  /** Within one melted column two observations share a cell exactly when
      their rows share an identifier. */
  lemma BlockDuplicate(rows: seq<BankRow>, m: string, id: BankRow -> string)
    ensures HasDuplicate(Block(rows, m, id)) <==> IdClash(rows, id)
  {
    var blk := Block(rows, m, id);
    if IdClash(rows, id) {
      var b, b' :| 0 <= b < b' < |rows| && id(rows[b]) == id(rows[b']);
      assert blk[b].col == blk[b'].col;
    }
  }

  /** Every melted observation is labelled by one of the melted columns. */
  lemma MeltKeys(rows: seq<BankRow>, ms: seq<string>, id: BankRow -> string, n: nat)
    requires n < |Melt(rows, ms, id)|
    ensures Melt(rows, ms, id)[n].key in ms
  {
    var obs := Melt(rows, ms, id);
    MeltMember(rows, ms, id, obs[n]);
  }

  /** Melting distinct columns puts two values in one (column, identifier)
      cell exactly when two rows share an identifier, so `pivot` raises
      exactly then. */
  lemma {:induction false} MeltDuplicate(rows: seq<BankRow>, ms: seq<string>, id: BankRow -> string)
    requires |ms| > 0 && Distinct(ms)
    ensures HasDuplicate(Melt(rows, ms, id)) <==> IdClash(rows, id)
    decreases |ms|
  {
    var blk := Block(rows, ms[0], id);
    var rest := Melt(rows, ms[1..], id);
    HasDuplicateAppend(blk, rest);
    BlockDuplicate(rows, ms[0], id);
    assert ms[0] !in ms[1..];
    forall i, j | 0 <= i < |blk| && 0 <= j < |rest| ensures blk[i].key != rest[j].key {
      MeltKeys(rows, ms[1..], id, j);
    }
    if |ms| > 1 {
      DistinctTail(ms);
      MeltDuplicate(rows, ms[1..], id);
    } else {
      assert rest == [];
    }
  }

  /** The identifiers that become columns: those of the rows, when there is
      at least one melted column; each melted column has an observation when
      there is at least one row. */
  lemma MeltCols(rows: seq<BankRow>, ms: seq<string>, id: BankRow -> string, c: string)
    requires |ms| > 0
    ensures c in ObsCols(Melt(rows, ms, id)) <==> exists x :: x in rows && id(x) == c
  {
    var obs := Melt(rows, ms, id);
    if c in ObsCols(obs) {
      var n :| 0 <= n < |obs| && ObsCols(obs)[n] == c;
      MeltMember(rows, ms, id, obs[n]);
      var a, b :| 0 <= a < |ms| && 0 <= b < |rows| && obs[n] == Obs(ms[a], id(rows[b]), Cell(rows[b], ms[a]));
      assert rows[b] in rows;
    }
    if exists x :: x in rows && id(x) == c {
      var x :| x in rows && id(x) == c;
      var b :| 0 <= b < |rows| && rows[b] == x;
      assert obs[b] == Block(rows, ms[0], id)[b];
      assert ObsCols(obs)[b] == c;
    }
  }

  /** A melted table pivoted to column-name by identifier and reindexed to
      the melted columns: one row per melted column, in order, and one
      column per identifier of the rows, sorted. `pivot` raises when two
      rows share an identifier. */
  function WideTable(rows: seq<BankRow>, ms: seq<string>, id: BankRow -> string): (r: Result<Table, FrameError>)
    requires |ms| > 0 && Distinct(ms)
    ensures r.Failure? <==> IdClash(rows, id)
    ensures r.Success? ==>
      && WellFormed(r.value) && Labels(r.value) == ms
      && StrictlySorted(r.value.cols)
      && forall c :: c in r.value.cols <==> exists x :: x in rows && id(x) == c
  {
    MeltDuplicate(rows, ms, id);
    match Pivot(Melt(rows, ms, id))
    case Failure(e) => Failure(e)
    case Success(p) =>
      forall c ensures c in p.cols <==> exists x :: x in rows && id(x) == c {
        MeltCols(rows, ms, id, c);
      }
      Success(Reindex(p, ms))
  }

  /** In a wide table the cell of column `ms[i]` under a row's identifier is
      that row's value, NaN included. */
  lemma WideCell(rows: seq<BankRow>, ms: seq<string>, id: BankRow -> string, i: nat, j: nat, b: nat)
    requires |ms| > 0 && Distinct(ms) && i < |ms| && b < |rows|
    requires WideTable(rows, ms, id).Success?
    requires j < |WideTable(rows, ms, id).value.cols|
    requires id(rows[b]) == WideTable(rows, ms, id).value.cols[j]
    ensures WideTable(rows, ms, id).value.rows[i].cells[j] == Cell(rows[b], ms[i])
  {
    var obs := Melt(rows, ms, id);
    MeltDuplicate(rows, ms, id);
    var p := Pivot(obs).value;
    var x := rows[b];
    var m, c := ms[i], p.cols[j];
    var o := Obs(m, id(x), Cell(x, m));
    MeltMember(rows, ms, id, o);
    var n :| 0 <= n < |obs| && obs[n] == o;
    assert ObsKeys(obs)[n] == m;
    PivotReindexAgrees(obs, ms, i, j);
    var cell := Reindex(p, ms).rows[i].cells[j];
    if cell.Some? {
      MeltedValue(rows, ms, id, m, c, cell.value, b);
    } else if Cell(x, m).Some? {
      assert false;
    }
  }

  /** With identifiers unique, a value melted under (`m`, `c`) is the cell
      of column `m` in the one row whose identifier is `c`. */
  lemma MeltedValue(rows: seq<BankRow>, ms: seq<string>, id: BankRow -> string, m: string, c: string, v: real, b: nat)
    requires !IdClash(rows, id) && b < |rows| && id(rows[b]) == c
    requires Obs(m, c, Some(v)) in Melt(rows, ms, id)
    ensures Cell(rows[b], m) == Some(v)
  {
    MeltMember(rows, ms, id, Obs(m, c, Some(v)));
    var a, b' :| 0 <= a < |ms| && 0 <= b' < |rows| && Obs(m, c, Some(v)) == Obs(ms[a], id(rows[b']), Cell(rows[b'], ms[a]));
    if b' != b {
      assert false;
    }
  }

  /** The rows reported in `startperiod` or later. */
  function SinceYear(rows: seq<BankRow>, startperiod: int): (r: seq<BankRow>)
    ensures forall x :: x in r <==> x in rows && x.year >= startperiod
  {
    Filter(rows, (x: BankRow) => x.year >= startperiod)
  }

  /** `single_ticker`: the rows of one ticker. */
  function SingleTicker(df: BankFrame, ticker: string): (r: BankFrame)
    ensures r.columns == df.columns
    ensures forall x :: x in r.rows <==> x in df.rows && x.ticker == ticker
  {
    BankFrame(df.columns, Filter(df.rows, (x: BankRow) => x.ticker == ticker))
  }

  /** `single_income_statement`, `single_size`, `single_earnings_quality`
      and `single_asset_quality`: the rows from `startperiod` on, melted over
      the statement's keycodes, pivoted to keycode by period, reindexed to
      the statement's order and renamed through `d`. Raises when a keycode is
      not a column, or (`pivot`) when two kept rows share a period. */
  function SingleTable(df: BankFrame, s: BankSection, d: Dicts.Dict, startperiod: int): (r: Result<Table, FrameError>)
    ensures r.Failure? <==>
      FirstMissing(df.columns, Metrics(s)).Some? || IdClash(SinceYear(df.rows, startperiod), Date)
    ensures r.Success? ==>
      && WellFormed(r.value)
      && Labels(r.value) == RenameLabels(d, Metrics(s))
      && StrictlySorted(r.value.cols)
      && (forall c :: c in r.value.cols <==> exists x :: x in df.rows && x.year >= startperiod && Date(x) == c)
  {
    MetricsDistinct(s);
    match FirstMissing(df.columns, Metrics(s))
    case Some(c) => Failure(MissingColumn(c))
    case None =>
      match WideTable(SinceYear(df.rows, startperiod), Metrics(s), Date)
      case Failure(e) => Failure(e)
      case Success(t) => Success(Rename(t, d))
  }

  /** A cell of a single-bank table is the value the bank reported for that
      keycode in that period. */
  lemma SingleCell(df: BankFrame, s: BankSection, d: Dicts.Dict, startperiod: int, i: nat, j: nat, x: BankRow)
    requires SingleTable(df, s, d, startperiod).Success?
    requires i < |Metrics(s)| && j < |SingleTable(df, s, d, startperiod).value.cols|
    requires x in df.rows && x.year >= startperiod && Date(x) == SingleTable(df, s, d, startperiod).value.cols[j]
    ensures SingleTable(df, s, d, startperiod).value.rows[i].cells[j] == Cell(x, Metrics(s)[i])
  {
    var kept := SinceYear(df.rows, startperiod);
    MetricsDistinct(s);
    var b :| 0 <= b < |kept| && kept[b] == x;
    WideCell(kept, Metrics(s), Date, i, j, b);
  }

  /** The rows of period `period` whose ticker is one of `tickers`. */
  function AtPeriod(rows: seq<BankRow>, tickers: seq<string>, period: string): (r: seq<BankRow>)
    ensures forall x :: x in r <==> x in rows && Date(x) == period && x.ticker in tickers
  {
    Filter(rows, (x: BankRow) => Date(x) == period && x.ticker in tickers)
  }

  /** `income_statement_multi`, `size_multi`, `earnings_quality_multi` and
      `asset_quality_multi`: the selected tickers' rows of one period, melted
      over the statement's keycodes and spread to keycode by ticker,
      reindexed to the statement's order and renamed through `d`. The income
      statement uses `pivot_table(aggfunc='first')`, which keeps the first
      non-NaN value and drops tickers without any; the others use `pivot`,
      which raises when a ticker has two rows. */
  function MultiTable(df: BankFrame, s: BankSection, d: Dicts.Dict, tickers: seq<string>, period: string)
    : (r: Result<Table, FrameError>)
    ensures r.Failure? <==>
      FirstMissing(df.columns, Metrics(s)).Some? || (s != Income && IdClash(AtPeriod(df.rows, tickers, period), Ticker))
    ensures r.Success? ==>
      && WellFormed(r.value)
      && Labels(r.value) == RenameLabels(d, Metrics(s))
      && StrictlySorted(r.value.cols)
      && (s != Income ==> forall c :: c in r.value.cols <==>
            exists x :: x in df.rows && Date(x) == period && x.ticker in tickers && x.ticker == c)
      && (s == Income ==> forall c :: c in r.value.cols <==>
            HasValue(AtPeriod(df.rows, tickers, period), Metrics(s), Ticker, c))
  {
    var kept := AtPeriod(df.rows, tickers, period);
    match FirstMissing(df.columns, Metrics(s))
    case Some(c) => Failure(MissingColumn(c))
    case None =>
      match MultiWide(kept, s)
      case Failure(e) => Failure(e)
      case Success(t) => Success(Rename(t, d))
  }

  /** Some row with identifier `c` has a non-NaN value in one of `ms`. */
  predicate HasValue(rows: seq<BankRow>, ms: seq<string>, id: BankRow -> string, c: string) {
    exists a, b :: 0 <= a < |ms| && 0 <= b < |rows| && id(rows[b]) == c && Cell(rows[b], ms[a]).Some?
  }

  lemma MeltValues(rows: seq<BankRow>, ms: seq<string>, id: BankRow -> string, c: string)
    ensures (exists o :: o in Melt(rows, ms, id) && o.col == c && o.val.Some?) <==> HasValue(rows, ms, id, c)
  {
    var obs := Melt(rows, ms, id);
    if exists o :: o in obs && o.col == c && o.val.Some? {
      var o :| o in obs && o.col == c && o.val.Some?;
      MeltMember(rows, ms, id, o);
    }
    if HasValue(rows, ms, id, c) {
      var a, b :| 0 <= a < |ms| && 0 <= b < |rows| && id(rows[b]) == c && Cell(rows[b], ms[a]).Some?;
      MeltMember(rows, ms, id, Obs(ms[a], id(rows[b]), Cell(rows[b], ms[a])));
    }
  }

  /** A melted table spread with `pivot_table(aggfunc='first')` and
      reindexed to the melted columns: one row per melted column, in order;
      a column for each identifier that has a non-NaN value, sorted. */
  function FirstWide(rows: seq<BankRow>, ms: seq<string>, id: BankRow -> string): (r: Table)
    ensures WellFormed(r) && Labels(r) == ms && StrictlySorted(r.cols)
    ensures forall c :: c in r.cols <==> HasValue(rows, ms, id, c)
  {
    forall c ensures (exists o :: o in Melt(rows, ms, id) && o.col == c && o.val.Some?) <==> HasValue(rows, ms, id, c) {
      MeltValues(rows, ms, id, c);
    }
    Reindex(PivotFirst(Melt(rows, ms, id)), ms)
  }

  /** A cell of a `first` spread is the first non-NaN value of its column
      among the rows with its identifier, in row order. */
  lemma FirstWideCell(rows: seq<BankRow>, ms: seq<string>, id: BankRow -> string, i: nat, j: nat)
    requires Distinct(ms) && i < |ms| && j < |FirstWide(rows, ms, id).cols|
    ensures var t := FirstWide(rows, ms, id);
      FirstIn(rows, ms[i], t.cols[j], id, t.rows[i].cells[j])
  {
    var obs := Melt(rows, ms, id);
    var pf := PivotFirst(obs);
    var m, c := ms[i], pf.cols[j];
    var cell := Reindex(pf, ms).rows[i].cells[j];
    StrictlySortedIsDistinct(Labels(pf));
    if m in Labels(pf) {
      var q :| 0 <= q < |pf.rows| && Labels(pf)[q] == m;
      assert Reindex(pf, ms).rows[i].cells == pf.rows[q].cells;
    }
    assert FirstAgrees(obs, m, c, cell);
    FirstAgreesUnique(obs, m, c, cell);
    MeltFirstValue(rows, ms, id, i, c);
    BlockFirst(rows, m, c, id);
  }

  /** The statement's keycodes spread to keycode by ticker, the way each
      multi-bank table does it. */
  function MultiWide(kept: seq<BankRow>, s: BankSection): (r: Result<Table, FrameError>)
    ensures r.Failure? <==> s != Income && IdClash(kept, Ticker)
    ensures r.Success? ==> WellFormed(r.value) && Labels(r.value) == Metrics(s) && StrictlySorted(r.value.cols)
    ensures r.Success? && s != Income ==> forall c :: c in r.value.cols <==> exists x :: x in kept && x.ticker == c
    ensures r.Success? && s == Income ==> forall c :: c in r.value.cols <==> HasValue(kept, Metrics(s), Ticker, c)
  {
    MetricsDistinct(s);
    if s == Income then Success(FirstWide(kept, Metrics(s), Ticker))
    else WideTable(kept, Metrics(s), Ticker)
  }

  /** A cell of a multi-bank balance-sheet or ratio table is the value the
      ticker reported for that keycode in the period. */
  lemma MultiCell(df: BankFrame, s: BankSection, d: Dicts.Dict, tickers: seq<string>, period: string,
                  i: nat, j: nat, x: BankRow)
    requires s != Income && MultiTable(df, s, d, tickers, period).Success?
    requires i < |Metrics(s)| && j < |MultiTable(df, s, d, tickers, period).value.cols|
    requires x in df.rows && Date(x) == period && x.ticker in tickers
    requires x.ticker == MultiTable(df, s, d, tickers, period).value.cols[j]
    ensures MultiTable(df, s, d, tickers, period).value.rows[i].cells[j] == Cell(x, Metrics(s)[i])
  {
    var kept := AtPeriod(df.rows, tickers, period);
    MetricsDistinct(s);
    var b :| 0 <= b < |kept| && kept[b] == x;
    WideCell(kept, Metrics(s), Ticker, i, j, b);
  }

  /** `cell` is the first non-NaN value of column `m` among the rows whose
      identifier is `c`, in row order; NaN when there is none. */
  predicate FirstIn(rows: seq<BankRow>, m: string, c: string, id: BankRow -> string, cell: Option<real>) {
    && (cell.Some? ==>
          exists b :: 0 <= b < |rows| && id(rows[b]) == c && Cell(rows[b], m) == cell &&
            forall b' :: 0 <= b' < b && id(rows[b']) == c ==> Cell(rows[b'], m).None?)
    && (cell.None? ==> forall b :: 0 <= b < |rows| && id(rows[b]) == c ==> Cell(rows[b], m).None?)
  }

  /** The first value melting finds for (`ms[i]`, `c`) is the first in
      column `ms[i]`'s own block: the other blocks hold other keycodes. */
  lemma {:induction false} MeltFirstValue(rows: seq<BankRow>, ms: seq<string>, id: BankRow -> string, i: nat, c: string)
    requires Distinct(ms) && i < |ms|
    ensures FirstValue(Melt(rows, ms, id), ms[i], c) == FirstValue(Block(rows, ms[i], id), ms[i], c)
    decreases |ms|
  {
    var blk := Block(rows, ms[0], id);
    var rest := Melt(rows, ms[1..], id);
    FirstValueAppend(blk, rest, ms[i], c);
    DistinctTail(ms);
    if i == 0 {
      forall o | o in rest ensures !Hit(o, ms[0], c) {
        var n :| 0 <= n < |rest| && rest[n] == o;
        MeltKeys(rows, ms[1..], id, n);
      }
      FirstValueNoHit(rest, ms[0], c);
      if !exists o :: o in blk && Hit(o, ms[0], c) {
        FirstValueNoHit(blk, ms[0], c);
      }
    } else {
      assert ms[1..][i - 1] == ms[i];
      forall o | o in blk ensures !Hit(o, ms[i], c) {
        var n :| 0 <= n < |blk| && blk[n] == o;
      }
      MeltFirstValue(rows, ms[1..], id, i - 1, c);
    }
  }

  /** The first value of a block is the first non-NaN value of its column
      among the rows with identifier `c`. */
  lemma BlockFirst(rows: seq<BankRow>, m: string, c: string, id: BankRow -> string)
    ensures FirstIn(rows, m, c, id, FirstValue(Block(rows, m, id), m, c))
  {
    var blk := Block(rows, m, id);
    FirstValueIsFirst(blk, m, c);
    var cell := FirstValue(blk, m, c);
    assert forall b :: 0 <= b < |rows| ==> (Hit(blk[b], m, c) <==> id(rows[b]) == c && Cell(rows[b], m).Some?);
    if cell.Some? {
      var n :| 0 <= n < |blk| && Hit(blk[n], m, c) && blk[n].val == cell
               && forall b' :: 0 <= b' < n ==> !Hit(blk[b'], m, c);
      assert id(rows[n]) == c && Cell(rows[n], m) == cell;
    } else {
      forall b | 0 <= b < |rows| && id(rows[b]) == c ensures Cell(rows[b], m).None? {
        assert blk[b] in blk;
      }
    }
  }

  /** A cell of the multi-bank income statement is the ticker's first
      non-NaN value for that keycode among the period's rows, in row order,
      and NaN when it has none: duplicates resolve to the first value. */
  lemma MultiIncomeCell(df: BankFrame, d: Dicts.Dict, tickers: seq<string>, period: string, i: nat, j: nat)
    requires MultiTable(df, Income, d, tickers, period).Success?
    requires i < |Metrics(Income)| && j < |MultiTable(df, Income, d, tickers, period).value.cols|
    ensures var t := MultiTable(df, Income, d, tickers, period).value;
      FirstIn(AtPeriod(df.rows, tickers, period), Metrics(Income)[i], t.cols[j], Ticker, t.rows[i].cells[j])
  {
    MetricsDistinct(Income);
    FirstWideCell(AtPeriod(df.rows, tickers, period), Metrics(Income), Ticker, i, j);
  }

  // ---------------------------------------------------------------------------
  // The panel grid of a bank table

  /** One bar panel: the rows `.loc` finds for the panel's label, drawn
      over the table's columns (one row when the labels are distinct). */
  datatype BankPanel = BankPanel(title: string, row: nat, col: nat, bars: seq<seq<Option<real>>>)

  /** The subplot grid: its row count, the figure height in pixels, the x
      axis shared by the panels, and the panels. */
  datatype BankFigure = BankFigure(gridRows: nat, height: nat, dates: seq<string>, panels: seq<BankPanel>)

  const BANK_PANEL_HEIGHT: nat := 400

  function BankPanels(t: Table): (r: seq<BankPanel>)
    requires WellFormed(t)
    ensures |r| == |t.rows|
  {
    seq(|t.rows|, i requires 0 <= i < |t.rows| =>
      BankPanel(t.rows[i].name, i / 2 + 1, i % 2 + 1, Loc(t.rows, t.rows[i].name)))
  }

  /** `plot` as written: `n // 2 + 1` grid rows, and the height taken from
      the loop variable `row`, which after the loop holds the last panel's
      row (or the grid row count when there is no panel). */
  function Plot(t: Table): (r: BankFigure)
    requires WellFormed(t)
  {
    var n := |t.rows|;
    var gridRows := n / 2 + 1;
    var lastRow := if n == 0 then gridRows else (n - 1) / 2 + 1;
    BankFigure(gridRows, BANK_PANEL_HEIGHT * lastRow, t.cols, BankPanels(t))
  }

  /** Panel `i` of `plot` is titled by the label of row `i` and sits at grid
      row `i / 2 + 1` and column `i % 2 + 1` of a grid of `n // 2 + 1` rows,
      in a cell of its own. The height is 400 pixels per row up to the last
      panel's row. */
  lemma PlotLayout(t: Table)
    requires WellFormed(t)
    ensures var g := Plot(t);
      && |g.panels| == |t.rows|
      && g.dates == t.cols
      && g.gridRows == |t.rows| / 2 + 1
      && (forall i :: 0 <= i < |t.rows| ==>
            && g.panels[i].title == t.rows[i].name
            && g.panels[i].row == i / 2 + 1 && g.panels[i].col == i % 2 + 1
            && 1 <= g.panels[i].row <= g.gridRows)
      && (forall i, j :: 0 <= i < j < |t.rows| ==>
            (g.panels[i].row, g.panels[i].col) != (g.panels[j].row, g.panels[j].col))
      && (|t.rows| > 0 ==> g.height == BANK_PANEL_HEIGHT * g.panels[|t.rows| - 1].row)
  {
    var g := Plot(t);
    forall i, j | 0 <= i < j < |t.rows|
      ensures (g.panels[i].row, g.panels[i].col) != (g.panels[j].row, g.panels[j].col)
    {
      assert i == 2 * (i / 2) + i % 2 && j == 2 * (j / 2) + j % 2;
    }
  }

  /** The bars of panel `i` are what `df_temp.loc[metric]` finds: every row
      carrying the panel's label, each as wide as the x axis, and row `i`
      alone when the labels are distinct. */
  lemma PlotBars(t: Table, i: nat)
    requires WellFormed(t) && i < |t.rows|
    ensures var g := Plot(t);
      && (forall cs :: cs in g.panels[i].bars <==>
            exists k :: 0 <= k < |t.rows| && t.rows[k].name == g.panels[i].title && t.rows[k].cells == cs)
      && (forall cs :: cs in g.panels[i].bars ==> |cs| == |g.dates|)
      && (Distinct(Labels(t)) ==> g.panels[i].bars == [t.rows[i].cells])
  {
    assert Plot(t).panels[i].bars == Loc(t.rows, t.rows[i].name);
    LocOfRow(t, i);
  }

  /** With an even, non-zero number of rows the grid `plot` makes has one
      row more than its panels use: the bottom row stays empty, and the
      height covers only the rows in use. A six-row table (the balance-sheet
      sizes) gets four grid rows and a 1200-pixel figure. */
  lemma PlotSpareRow(t: Table)
    requires WellFormed(t) && |t.rows| > 0 && |t.rows| % 2 == 0
    ensures var g := Plot(t);
      && (forall i :: 0 <= i < |t.rows| ==> g.panels[i].row < g.gridRows)
      && g.height == BANK_PANEL_HEIGHT * (g.gridRows - 1)
  {
  }

  lemma PlotSpareRowExample(t: Table)
    requires WellFormed(t) && |t.rows| == 6
    ensures Plot(t).gridRows == 4 && Plot(t).height == 1200
    ensures forall i :: 0 <= i < 6 ==> Plot(t).panels[i].row <= 3
  {
  }

  /** The grid `plot` evidently means to draw, as the company page draws its
      own: `(n + 1) // 2` rows (one when there is no panel), 400 pixels
      each. */
  function FittedPlot(t: Table): (r: BankFigure)
    requires WellFormed(t)
  {
    var n := |t.rows|;
    var gridRows := if n == 0 then 1 else (n + 1) / 2;
    BankFigure(gridRows, BANK_PANEL_HEIGHT * gridRows, t.cols, BankPanels(t))
  }

  /** The fitted grid holds every panel in a cell of its own, its last row
      is in use, and its height is 400 pixels per grid row. */
  lemma FittedPlotLayout(t: Table)
    requires WellFormed(t)
    ensures var g := FittedPlot(t);
      && g.gridRows == (if |t.rows| == 0 then 1 else (|t.rows| + 1) / 2)
      && (forall i :: 0 <= i < |t.rows| ==>
            && g.panels[i].row == i / 2 + 1 && g.panels[i].col == i % 2 + 1
            && 1 <= g.panels[i].row <= g.gridRows)
      && (forall i, j :: 0 <= i < j < |t.rows| ==>
            (g.panels[i].row, g.panels[i].col) != (g.panels[j].row, g.panels[j].col))
      && (|t.rows| > 0 ==> g.panels[|t.rows| - 1].row == g.gridRows)
      && g.height == BANK_PANEL_HEIGHT * g.gridRows
  {
    var g := FittedPlot(t);
    forall i, j | 0 <= i < j < |t.rows|
      ensures (g.panels[i].row, g.panels[i].col) != (g.panels[j].row, g.panels[j].col)
    {
      assert i == 2 * (i / 2) + i % 2 && j == 2 * (j / 2) + j % 2;
    }
  }

  // ---------------------------------------------------------------------------
  // Ordering rows by period

  /** `a` comes no later than `b` in (YEARREPORT, LENGTHREPORT) order. */
  predicate PeriodLe(a: BankRow, b: BankRow) {
    a.year < b.year || (a.year == b.year && a.length <= b.length)
  }

  /** Each row comes no later than the next one. */
  predicate SortedByPeriod(s: seq<BankRow>)
    decreases |s|
  {
    |s| <= 1 || (PeriodLe(s[0], s[1]) && SortedByPeriod(s[1..]))
  }

  /** Ordered neighbours order every pair. */
  lemma {:induction false} SortedPairs(s: seq<BankRow>, i: nat, j: nat)
    requires SortedByPeriod(s) && i < j < |s|
    ensures PeriodLe(s[i], s[j])
  {
    if i > 0 {
      SortedPairs(s[1..], i - 1, j - 1);
    } else if j > 1 {
      SortedPairs(s[1..], 0, j - 1);
    }
  }

  /** The rows of `s` from report year `y` and length `l`, in order. */
  function OfPeriod(s: seq<BankRow>, y: int, l: int): seq<BankRow> {
    if |s| == 0 then []
    else (if s[0].year == y && s[0].length == l then [s[0]] else []) + OfPeriod(s[1..], y, l)
  }

  /** `[x]` when `x` is from report year `y` and length `l`, else empty. */
  function IfOfPeriod(x: BankRow, y: int, l: int): seq<BankRow> {
    if x.year == y && x.length == l then [x] else []
  }

  /** Puts `x` into `s` after the leading rows of the same or an earlier
      period. */
  function InsertByPeriod(x: BankRow, s: seq<BankRow>): (r: seq<BankRow>)
    ensures |r| == |s| + 1
    ensures multiset(r) == multiset(s) + multiset{x}
  {
    if |s| == 0 then [x]
    else if PeriodLe(s[0], x) then
      assert s == [s[0]] + s[1..];
      [s[0]] + InsertByPeriod(x, s[1..])
    else [x] + s
  }

  /** Insertion into a sorted sequence keeps it sorted. */
  lemma {:induction false} InsertSorted(x: BankRow, s: seq<BankRow>)
    requires SortedByPeriod(s)
    ensures SortedByPeriod(InsertByPeriod(x, s))
  {
    if |s| > 0 && PeriodLe(s[0], x) {
      InsertSorted(x, s[1..]);
      var r := InsertByPeriod(x, s);
      assert r[1..] == InsertByPeriod(x, s[1..]);
    }
  }

  /** `sort_values(['YEARREPORT', 'LENGTHREPORT'])`: a stable sort by
      period. */
  function SortByPeriod(s: seq<BankRow>): (r: seq<BankRow>)
    ensures SortedByPeriod(r)
    ensures multiset(r) == multiset(s)
  {
    if |s| == 0 then []
    else
      assert s == s[..|s| - 1] + [s[|s| - 1]];
      InsertSorted(s[|s| - 1], SortByPeriod(s[..|s| - 1]));
      InsertByPeriod(s[|s| - 1], SortByPeriod(s[..|s| - 1]))
  }

  lemma OfPeriodCons(h: BankRow, t: seq<BankRow>, y: int, l: int)
    ensures OfPeriod([h] + t, y, l) == IfOfPeriod(h, y, l) + OfPeriod(t, y, l)
  {
    assert ([h] + t)[1..] == t;
  }

  /** Putting the same row in front of two sequences keeps a relation
      between their rows of one period. */
  lemma ConsBoth(h: BankRow, a: seq<BankRow>, b: seq<BankRow>, t: seq<BankRow>, y: int, l: int)
    requires OfPeriod(a, y, l) == OfPeriod(b, y, l) + t
    ensures OfPeriod([h] + a, y, l) == OfPeriod([h] + b, y, l) + t
  {
    OfPeriodCons(h, a, y, l);
    OfPeriodCons(h, b, y, l);
    AppendAssoc(IfOfPeriod(h, y, l), OfPeriod(b, y, l), t);
  }

  /** A row put in front of a sequence without rows of its period ends up
      last among the rows of its period. */
  lemma ConsFront(x: BankRow, s: seq<BankRow>, y: int, l: int)
    requires x.year == y && x.length == l ==> OfPeriod(s, y, l) == []
    ensures OfPeriod([x] + s, y, l) == OfPeriod(s, y, l) + IfOfPeriod(x, y, l)
  {
    OfPeriodCons(x, s, y, l);
    if x.year == y && x.length == l {
      assert OfPeriod([x] + s, y, l) == [x] + [];
    } else {
      assert OfPeriod([x] + s, y, l) == [] + OfPeriod(s, y, l);
    }
  }

  /** A sorted sequence that starts after `x` holds no row of the period of
      `x`. */
  lemma {:induction false} NoneOfPeriod(x: BankRow, s: seq<BankRow>)
    requires SortedByPeriod(s) && (|s| > 0 ==> !PeriodLe(s[0], x))
    ensures OfPeriod(s, x.year, x.length) == []
  {
    if |s| > 0 {
      NoneOfPeriod(x, s[1..]);
    }
  }

  /** Inserting `x` into a sorted sequence appends it to the rows of its own
      period and leaves the rows of every other period as they were. */
  lemma {:induction false} InsertStable(x: BankRow, s: seq<BankRow>, y: int, l: int)
    requires SortedByPeriod(s)
    ensures OfPeriod(InsertByPeriod(x, s), y, l) == OfPeriod(s, y, l) + IfOfPeriod(x, y, l)
  {
    if |s| == 0 {
      OfPeriodCons(x, [], y, l);
    } else if PeriodLe(s[0], x) {
      InsertStable(x, s[1..], y, l);
      assert InsertByPeriod(x, s) == [s[0]] + InsertByPeriod(x, s[1..]);
      assert s == [s[0]] + s[1..];
      ConsBoth(s[0], InsertByPeriod(x, s[1..]), s[1..], IfOfPeriod(x, y, l), y, l);
    } else {
      assert InsertByPeriod(x, s) == [x] + s;
      if x.year == y && x.length == l {
        NoneOfPeriod(x, s);
      }
      ConsFront(x, s, y, l);
    }
  }

  /** Taking the rows of one period commutes with dropping the last row. */
  lemma {:induction false} OfPeriodSnoc(s: seq<BankRow>, y: int, l: int)
    requires |s| > 0
    ensures OfPeriod(s, y, l) == OfPeriod(s[..|s| - 1], y, l) + IfOfPeriod(s[|s| - 1], y, l)
  {
    var x := s[|s| - 1];
    if |s| == 1 {
      assert s == [x] + [];
      ConsFront(x, [], y, l);
    } else {
      OfPeriodSnoc(s[1..], y, l);
      assert s[1..][..|s| - 2] == s[..|s| - 1][1..];
      assert s[..|s| - 1] == [s[0]] + s[..|s| - 1][1..];
      assert s == [s[0]] + s[1..];
      ConsBoth(s[0], s[1..], s[..|s| - 1][1..], IfOfPeriod(x, y, l), y, l);
    }
  }

  /** The sort is stable: the rows of any one period keep their input
      order. */
  lemma {:induction false} SortStable(s: seq<BankRow>, y: int, l: int)
    ensures OfPeriod(SortByPeriod(s), y, l) == OfPeriod(s, y, l)
  {
    if |s| > 0 {
      SortStable(s[..|s| - 1], y, l);
      InsertStable(s[|s| - 1], SortByPeriod(s[..|s| - 1]), y, l);
      OfPeriodSnoc(s, y, l);
    }
  }
}
