/** The company page: the income-statement, balance-sheet and cash-flow
    tables built from long-format fundamentals, the bar-and-moving-average
    panels, and the latest valuation figures. */
module Company {
  import opened Wrappers
  import opened Seqs
  import opened Strings
  import opened Frames
  import Dicts
  import Rolling

  const IS: seq<string> := ["Net_Revenue", "Gross_Profit", "EBIT", "EBITDA", "NPATMI"]
  const MARGIN: seq<string> := ["Gross_Margin", "EBIT_Margin", "EBITDA_Margin", "NPAT_Margin"]
  const BS: seq<string> := [
    "Total_Asset", "Cash", "Cash_Equivalent", "Inventory", "Account_Receivable",
    "Tangible_Fixed_Asset", "Total_Liabilities", "ST_Debt", "LT_Debt",
    "TOTAL_Equity", "Invested_Capital"]
  const CF: seq<string> := ["Operating_CF", "Dep_Expense", "Inv_CF", "Capex", "Fin_CF", "FCF"]

  /** The row order of the financial summary: each income line, its growth,
      then the margin that goes with it. */
  const IS_ORDER: seq<string> := [
    "Net_Revenue", "Net_Revenue_Gr", "Gross_Profit", "Gross_Profit_Gr", "Gross_Margin",
    "EBIT", "EBIT_Gr", "EBIT_Margin", "EBITDA", "EBITDA_Gr", "EBITDA_Margin",
    "NPATMI", "NPATMI_Gr", "NPAT_Margin"]

  const GROWTH_SUFFIX: string := "_Gr"

  /** The growth rows' labels: each income line with the growth suffix. */
  const IS_GROWTH: seq<string> := ["Net_Revenue_Gr", "Gross_Profit_Gr", "EBIT_Gr", "EBITDA_Gr", "NPATMI_Gr"]

  /** One long-format fundamentals row: a line item (`keycode`) of one
      company for one reporting period, with its year-on-year growth. */
  datatype FaRow = FaRow(
    ticker: string,
    keycode: string,
    date: string,
    value: Option<real>,
    yoy: Option<real>)

  /** Which of the two numeric columns a table is built from. */
  datatype Field = Value | YoY

  function FieldOf(x: FaRow, f: Field): Option<real> {
    match f
    case Value => x.value
    case YoY => x.yoy
  }

  /** The row belongs to `ticker` and to one of the `section` line items. */
  predicate Selected(x: FaRow, ticker: string, section: seq<string>) {
    x.ticker == ticker && x.keycode in section
  }

  /** The row supplies a number for line item `k` in period `c`. */
  predicate Feeds(x: FaRow, ticker: string, k: string, c: string, f: Field) {
    x.ticker == ticker && x.keycode == k && x.date == c && FieldOf(x, f).Some?
  }

  function ToObs(x: FaRow, f: Field): Obs {
    Obs(x.keycode, x.date, FieldOf(x, f))
  }

  /** The selected rows, in order, as (line item, period, value)
      observations. */
  function SectionObs(rows: seq<FaRow>, ticker: string, section: seq<string>, f: Field): seq<Obs>
    decreases |rows|
  {
    if |rows| == 0 then []
    else (if Selected(rows[0], ticker, section) then [ToObs(rows[0], f)] else [])
         + SectionObs(rows[1..], ticker, section, f)
  }

  lemma {:induction false} SectionObsMember(rows: seq<FaRow>, ticker: string, section: seq<string>, f: Field, o: Obs)
    ensures o in SectionObs(rows, ticker, section, f) <==>
      exists x :: x in rows && Selected(x, ticker, section) && o == ToObs(x, f)
    decreases |rows|
  {
    if |rows| > 0 {
      var tl := rows[1..];
      SectionObsMember(tl, ticker, section, f, o);
      var pre := if Selected(rows[0], ticker, section) then [ToObs(rows[0], f)] else [];
      assert SectionObs(rows, ticker, section, f) == pre + SectionObs(tl, ticker, section, f);
      if o in pre {
        assert rows[0] in rows;
      } else if o in SectionObs(tl, ticker, section, f) {
        var x :| x in tl && Selected(x, ticker, section) && o == ToObs(x, f);
        assert x in rows;
      }
      if exists x :: x in rows && Selected(x, ticker, section) && o == ToObs(x, f) {
        var x :| x in rows && Selected(x, ticker, section) && o == ToObs(x, f);
        if x != rows[0] {
          assert x in tl;
        }
      }
    }
  }

  /** Two selected rows report the same line item for the same period. */
  predicate RowClash(rows: seq<FaRow>, ticker: string, section: seq<string>) {
    exists i, j :: 0 <= i < j < |rows| && Selected(rows[i], ticker, section) && Selected(rows[j], ticker, section)
      && rows[i].keycode == rows[j].keycode && rows[i].date == rows[j].date
  }

  /** The selected first row shares a line item and a period with a
      selected later row. */
  predicate HeadClash(rows: seq<FaRow>, ticker: string, section: seq<string>)
    requires |rows| > 0
  {
    Selected(rows[0], ticker, section) &&
    exists x :: x in rows[1..] && Selected(x, ticker, section)
                && x.keycode == rows[0].keycode && x.date == rows[0].date
  }

  lemma RowClashCons(rows: seq<FaRow>, ticker: string, section: seq<string>)
    requires |rows| > 0
    ensures RowClash(rows, ticker, section) <==>
      RowClash(rows[1..], ticker, section) || HeadClash(rows, ticker, section)
  {
    if RowClash(rows, ticker, section) {
      RowClashSplit(rows, ticker, section);
    }
    if RowClash(rows[1..], ticker, section) || HeadClash(rows, ticker, section) {
      RowClashJoin(rows, ticker, section);
    }
  }

  /** A clash either involves the first row or lies in the rest. */
  lemma RowClashSplit(rows: seq<FaRow>, ticker: string, section: seq<string>)
    requires |rows| > 0 && RowClash(rows, ticker, section)
    ensures RowClash(rows[1..], ticker, section) || HeadClash(rows, ticker, section)
  {
    var tl := rows[1..];
    var i, j :| 0 <= i < j < |rows| && Selected(rows[i], ticker, section) && Selected(rows[j], ticker, section)
      && rows[i].keycode == rows[j].keycode && rows[i].date == rows[j].date;
    if i == 0 {
      assert rows[j] in tl;
    } else {
      assert tl[i - 1] == rows[i] && tl[j - 1] == rows[j];
    }
  }

  /** A clash in the rest or one with the first row is a clash. */
  lemma RowClashJoin(rows: seq<FaRow>, ticker: string, section: seq<string>)
    requires |rows| > 0 && (RowClash(rows[1..], ticker, section) || HeadClash(rows, ticker, section))
    ensures RowClash(rows, ticker, section)
  {
    var tl := rows[1..];
    if RowClash(tl, ticker, section) {
      var i, j :| 0 <= i < j < |tl| && Selected(tl[i], ticker, section) && Selected(tl[j], ticker, section)
        && tl[i].keycode == tl[j].keycode && tl[i].date == tl[j].date;
      assert rows[i + 1] == tl[i] && rows[j + 1] == tl[j];
    } else {
      var x :| x in tl && Selected(x, ticker, section) && x.keycode == rows[0].keycode && x.date == rows[0].date;
      var j :| 0 <= j < |tl| && tl[j] == x;
      assert rows[j + 1] == x;
    }
  }

  /** `pivot` raises exactly when two selected rows share a line item and a
      period; which numeric column is read plays no part. */
  lemma {:induction false} SectionObsClash(rows: seq<FaRow>, ticker: string, section: seq<string>, f: Field)
    ensures HasDuplicate(SectionObs(rows, ticker, section, f)) <==> RowClash(rows, ticker, section)
    decreases |rows|
  {
    if |rows| == 0 {
    } else {
      var tl := rows[1..];
      var h := rows[0];
      var rest := SectionObs(tl, ticker, section, f);
      SectionObsClash(tl, ticker, section, f);
      RowClashCons(rows, ticker, section);
      if Selected(h, ticker, section) {
        assert SectionObs(rows, ticker, section, f) == [ToObs(h, f)] + rest;
        HasDuplicateCons(ToObs(h, f), rest);
        var partnerObs := exists o :: o in rest && o.key == h.keycode && o.col == h.date;
        var partnerRow := exists x :: x in tl && Selected(x, ticker, section) && x.keycode == h.keycode && x.date == h.date;
        if partnerObs {
          var o :| o in rest && o.key == h.keycode && o.col == h.date;
          SectionObsMember(tl, ticker, section, f, o);
        }
        if partnerRow {
          var x :| x in tl && Selected(x, ticker, section) && x.keycode == h.keycode && x.date == h.date;
          SectionObsMember(tl, ticker, section, f, ToObs(x, f));
        }
        assert partnerObs <==> partnerRow;
      } else {
        assert SectionObs(rows, ticker, section, f) == rest;
      }
    }
  }

  /** The periods and line items the observations mention are those of the
      selected rows. */
  lemma SectionObsLabels(rows: seq<FaRow>, ticker: string, section: seq<string>, f: Field, k: string, c: string)
    ensures c in ObsCols(SectionObs(rows, ticker, section, f)) <==>
      exists x :: x in rows && Selected(x, ticker, section) && x.date == c
    ensures k in ObsKeys(SectionObs(rows, ticker, section, f)) <==>
      exists x :: x in rows && Selected(x, ticker, section) && x.keycode == k
  {
    var obs := SectionObs(rows, ticker, section, f);
    if c in ObsCols(obs) {
      var n :| 0 <= n < |obs| && ObsCols(obs)[n] == c;
      SectionObsMember(rows, ticker, section, f, obs[n]);
    }
    if exists x :: x in rows && Selected(x, ticker, section) && x.date == c {
      var x :| x in rows && Selected(x, ticker, section) && x.date == c;
      SectionObsMember(rows, ticker, section, f, ToObs(x, f));
      var n :| 0 <= n < |obs| && obs[n] == ToObs(x, f);
      assert ObsCols(obs)[n] == c;
    }
    if k in ObsKeys(obs) {
      var n :| 0 <= n < |obs| && ObsKeys(obs)[n] == k;
      SectionObsMember(rows, ticker, section, f, obs[n]);
    }
    if exists x :: x in rows && Selected(x, ticker, section) && x.keycode == k {
      var x :| x in rows && Selected(x, ticker, section) && x.keycode == k;
      SectionObsMember(rows, ticker, section, f, ToObs(x, f));
      var n :| 0 <= n < |obs| && obs[n] == ToObs(x, f);
      assert ObsKeys(obs)[n] == k;
    }
  }

  /** One section of a company's statements: the selected rows pivoted to
      line item by period (periods sorted), reindexed to the section's own
      line-item order so that missing items become all-NaN rows, then put in
      display units. Fails, as `pivot` raises, when two selected rows share a
      line item and a period. */
  function SectionTable(rows: seq<FaRow>, ticker: string, section: seq<string>, f: Field, s: Scaling)
    : (r: Result<Table, FrameError>)
    ensures r.Failure? <==> RowClash(rows, ticker, section)
    ensures r.Success? ==>
      && WellFormed(r.value)
      && Labels(r.value) == section
      && StrictlySorted(r.value.cols)
  {
    var obs := SectionObs(rows, ticker, section, f);
    SectionObsClash(rows, ticker, section, f);
    match Pivot(obs)
    case Failure(e) => Failure(e)
    case Success(t) => Success(ScaleTable(Reindex(t, section), s))
  }

  /** The periods of a section table are exactly those of its selected
      rows. */
  lemma SectionCols(rows: seq<FaRow>, ticker: string, section: seq<string>, f: Field, s: Scaling, c: string)
    requires SectionTable(rows, ticker, section, f, s).Success?
    ensures c in SectionTable(rows, ticker, section, f, s).value.cols <==>
      exists x :: x in rows && Selected(x, ticker, section) && x.date == c
  {
    SectionObsClash(rows, ticker, section, f);
    SectionObsLabels(rows, ticker, section, f, "", c);
  }

  /** Where a row of the financial summary takes its numbers from: a line
      item, the column read, and the display unit. */
  datatype Origin = Origin(keycode: string, field: Field, scaling: Scaling)

  /** A cell holds what the rows supply for line item `o.keycode` in period
      `col`: it is a number exactly when some row of the ticker has one in
      column `o.field`, and then it is that number in unit `o.scaling`. */
  predicate CellFrom(rows: seq<FaRow>, ticker: string, o: Origin, col: string, cell: Option<real>) {
    && (cell.Some? <==> exists x :: x in rows && Feeds(x, ticker, o.keycode, col, o.field))
    && forall x :: x in rows && Feeds(x, ticker, o.keycode, col, o.field) ==>
         cell == Some(Apply(o.scaling, FieldOf(x, o.field).value))
  }

  /** What a section cell holds: it is a number exactly when some row of the
      ticker supplies one for that line item and period, and then it is that
      row's number in display units. No other row reaches the table. */
  lemma SectionCells(rows: seq<FaRow>, ticker: string, section: seq<string>, f: Field, s: Scaling, i: nat, j: nat)
    requires SectionTable(rows, ticker, section, f, s).Success?
    requires i < |section|
    requires j < |SectionTable(rows, ticker, section, f, s).value.cols|
    ensures var t := SectionTable(rows, ticker, section, f, s).value;
      CellFrom(rows, ticker, Origin(section[i], f, s), t.cols[j], t.rows[i].cells[j])
  {
    var obs := SectionObs(rows, ticker, section, f);
    SectionObsClash(rows, ticker, section, f);
    var t0 := Pivot(obs).value;
    var ti := Reindex(t0, section);
    var t := SectionTable(rows, ticker, section, f, s).value;
    assert t == ScaleTable(ti, s);
    assert t.cols[j] == t0.cols[j];
    assert t.rows[i].cells[j] == ScaleCell(s, ti.rows[i].cells[j]);
    PivotedCell(rows, ticker, section, f, i, j);
  }

  /** `cell` is the unscaled value the rows supply for (`k`, `col`). */
  predicate RawFrom(rows: seq<FaRow>, ticker: string, k: string, col: string, f: Field, cell: Option<real>) {
    && (cell.Some? <==> exists x :: x in rows && Feeds(x, ticker, k, col, f))
    && forall x :: x in rows && Feeds(x, ticker, k, col, f) ==> cell == FieldOf(x, f)
  }

  /** The pivoted and reindexed cell, before the change of unit. */
  lemma PivotedCell(rows: seq<FaRow>, ticker: string, section: seq<string>, f: Field, i: nat, j: nat)
    requires !RowClash(rows, ticker, section)
    requires i < |section|
    requires Pivot(SectionObs(rows, ticker, section, f)).Success?
    requires j < |Pivot(SectionObs(rows, ticker, section, f)).value.cols|
    ensures var t0 := Pivot(SectionObs(rows, ticker, section, f)).value;
      RawFrom(rows, ticker, section[i], t0.cols[j], f, Reindex(t0, section).rows[i].cells[j])
  {
    var obs := SectionObs(rows, ticker, section, f);
    var t0 := Pivot(obs).value;
    var ti := Reindex(t0, section);
    assert Labels(ti)[i] == section[i];
    var k := section[i];
    var c := t0.cols[j];
    var cell0 := ti.rows[i].cells[j];
    StrictlySortedIsDistinct(Labels(t0));
    if k in Labels(t0) {
      var p :| 0 <= p < |t0.rows| && Labels(t0)[p] == k;
      assert ti.rows[i].cells == t0.rows[p].cells;
      assert Agrees(obs, k, c, cell0);
      forall x | x in rows && Feeds(x, ticker, k, c, f)
        ensures cell0 == FieldOf(x, f)
      {
        assert section[i] in section;
        SectionObsMember(rows, ticker, section, f, ToObs(x, f));
        assert Hit(ToObs(x, f), k, c);
      }
      if cell0.Some? {
        SectionObsMember(rows, ticker, section, f, Obs(k, c, cell0));
        var x :| x in rows && Selected(x, ticker, section) && Obs(k, c, cell0) == ToObs(x, f);
        assert Feeds(x, ticker, k, c, f);
      }
    } else {
      forall x | x in rows && Feeds(x, ticker, k, c, f)
        ensures false
      {
        assert section[i] in section;
        SectionObsLabels(rows, ticker, section, f, k, c);
      }
    }
  }

  function Suffixed(section: seq<string>): (r: seq<string>)
    ensures |r| == |section|
    ensures forall i :: 0 <= i < |section| ==> r[i] == section[i] + GROWTH_SUFFIX
  {
    seq(|section|, i requires 0 <= i < |section| => section[i] + GROWTH_SUFFIX)
  }

  lemma SuffixedIS()
    ensures Suffixed(IS) == IS_GROWTH
  {
    assert IS[0] + GROWTH_SUFFIX == IS_GROWTH[0];
    assert IS[1] + GROWTH_SUFFIX == IS_GROWTH[1];
    assert IS[2] + GROWTH_SUFFIX == IS_GROWTH[2];
    assert IS[3] + GROWTH_SUFFIX == IS_GROWTH[3];
    assert IS[4] + GROWTH_SUFFIX == IS_GROWTH[4];
  }

  /** `{i: f"{i}_Gr" for i in section}`. */
  function GrowthNames(section: seq<string>): Dicts.Dict {
    Dicts.FromPairs(seq(|section|, i requires 0 <= i < |section| => (section[i], section[i] + GROWTH_SUFFIX)))
  }

  lemma GrowthNamesGet(section: seq<string>, i: nat)
    requires i < |section|
    ensures Dicts.Get(GrowthNames(section), section[i]) == Some(section[i] + GROWTH_SUFFIX)
  {
    var ps := seq(|section|, i requires 0 <= i < |section| => (section[i], section[i] + GROWTH_SUFFIX));
    var k := section[i];
    Dicts.FromPairsKeys(ps, k);
    assert ps[i].0 == k;
    var v := Dicts.Get(GrowthNames(section), k).value;
    Dicts.FromPairsLastWins(ps, k, v);
  }

  /** The growth section: the same pivot and reindex as `SectionTable`, read
      from the YoY column and shown in percent, with every line item renamed
      to its `_Gr` label. */
  function GrowthTable(rows: seq<FaRow>, ticker: string, section: seq<string>): (r: Result<Table, FrameError>)
    ensures r.Failure? <==> RowClash(rows, ticker, section)
    ensures r.Success? ==>
      var plain := SectionTable(rows, ticker, section, YoY, Percent).value;
      && WellFormed(r.value)
      && Labels(r.value) == Suffixed(section)
      && r.value.cols == plain.cols
      && forall i :: 0 <= i < |section| ==> r.value.rows[i].cells == plain.rows[i].cells
  {
    match SectionTable(rows, ticker, section, YoY, Percent)
    case Failure(e) => Failure(e)
    case Success(t) =>
      var r := Rename(t, GrowthNames(section));
      assert Labels(r) == Suffixed(section) by {
        forall i | 0 <= i < |section| ensures Labels(r)[i] == Suffixed(section)[i] {
          assert Labels(t)[i] == section[i];
          GrowthNamesGet(section, i);
        }
      }
      Success(r)
  }

  /** What stacking needs to know about one section table, stated without
      reference to how the table was built: its rows line up with `section`,
      its periods are distinct and cover every selected row, and every cell
      holds what the rows supply. */
  predicate SectionFacts(rows: seq<FaRow>, ticker: string, section: seq<string>, f: Field, s: Scaling, t: Table) {
    && WellFormed(t)
    && |t.rows| == |section|
    && Distinct(t.cols)
    && (forall x :: x in rows && Selected(x, ticker, section) ==> x.date in t.cols)
    && forall p, q :: 0 <= p < |section| && 0 <= q < |t.cols| ==>
         CellFrom(rows, ticker, Origin(section[p], f, s), t.cols[q], t.rows[p].cells[q])
  }

  lemma SectionFactsHold(rows: seq<FaRow>, ticker: string, section: seq<string>, f: Field, s: Scaling)
    requires SectionTable(rows, ticker, section, f, s).Success?
    ensures SectionFacts(rows, ticker, section, f, s, SectionTable(rows, ticker, section, f, s).value)
  {
    var t := SectionTable(rows, ticker, section, f, s).value;
    StrictlySortedIsDistinct(t.cols);
    forall x | x in rows && Selected(x, ticker, section) ensures x.date in t.cols {
      SectionCols(rows, ticker, section, f, s, x.date);
    }
    forall p, q | 0 <= p < |section| && 0 <= q < |t.cols|
      ensures CellFrom(rows, ticker, Origin(section[p], f, s), t.cols[q], t.rows[p].cells[q])
    {
      SectionCells(rows, ticker, section, f, s, p, q);
    }
  }

  /** The growth table has the facts of the YoY section it renames. */
  lemma GrowthFactsHold(rows: seq<FaRow>, ticker: string, section: seq<string>)
    requires GrowthTable(rows, ticker, section).Success?
    ensures SectionFacts(rows, ticker, section, YoY, Percent, GrowthTable(rows, ticker, section).value)
  {
    SectionFactsHold(rows, ticker, section, YoY, Percent);
  }

  /** A section cell moved onto the columns `to` the way `concat` moves it
      still holds what the rows supply for its period; a period the section
      lacks is NaN, and no row supplies a number for it. */
  lemma RealignedCell(rows: seq<FaRow>, ticker: string, section: seq<string>, f: Field, s: Scaling,
                      t: Table, p: nat, to: seq<string>, j: nat)
    requires SectionFacts(rows, ticker, section, f, s, t)
    requires p < |section| && j < |to|
    ensures CellFrom(rows, ticker, Origin(section[p], f, s), to[j], Realign(t.cols, t.rows[p], to).cells[j])
  {
    if to[j] in t.cols {
      var q :| 0 <= q < |t.cols| && t.cols[q] == to[j];
      assert Realign(t.cols, t.rows[p], to).cells[j] == t.rows[p].cells[q];
    } else {
      assert section[p] in section;
      assert forall x :: x in rows && Feeds(x, ticker, section[p], to[j], f) ==> Selected(x, ticker, section);
    }
  }

  /** An income line reads VALUE in billions, a margin reads VALUE in
      percent, and an income line's `_Gr` label reads its YoY in percent. */
  function OriginOf(name: string): Option<Origin> {
    var n := |name| - |GROWTH_SUFFIX|;
    if name in IS then Some(Origin(name, Value, Billions))
    else if name in MARGIN then Some(Origin(name, Value, Percent))
    else if n >= 0 && name[n..] == GROWTH_SUFFIX && name[..n] in IS then Some(Origin(name[..n], YoY, Percent))
    else None
  }

  /** The rows `concat` stacks: the income lines, their growth, the margins. */
  const STACKED: seq<string> := IS + IS_GROWTH + MARGIN

  lemma StackedLabels()
    ensures Distinct(STACKED)
    ensures |STACKED| == 14
    ensures forall l :: l in IS_ORDER ==> l in STACKED
  {
  }

  lemma StackedOrigin(p: nat)
    requires p < |STACKED|
    ensures OriginOf(STACKED[p]) ==
      if p < 5 then Some(Origin(IS[p], Value, Billions))
      else if p < 10 then Some(Origin(IS[p - 5], YoY, Percent))
      else Some(Origin(MARGIN[p - 10], Value, Percent))
  {
    if 5 <= p < 10 {
      var l := IS_GROWTH[p - 5];
      assert l == STACKED[p];
      assert l !in IS && l !in MARGIN;
      assert l == IS[p - 5] + GROWTH_SUFFIX by { SuffixedIS(); }
      assert l[|l| - 3..] == GROWTH_SUFFIX && l[..|l| - 3] == IS[p - 5];
    }
  }

  /** `create_fs_table_main`: the income section in billions, its growth
      section and the margin section in percent, stacked by `concat` and
      reindexed to `IS_ORDER`. The grouping column the original adds to each
      section and drops after stacking never reaches the result, so it is not
      modelled. Fails when either pivot does. */
  function FsTable(rows: seq<FaRow>, ticker: string): (r: Result<Table, FrameError>)
    ensures r.Failure? <==> RowClash(rows, ticker, IS) || RowClash(rows, ticker, MARGIN)
    ensures r.Success? ==>
      && WellFormed(r.value)
      && Labels(r.value) == IS_ORDER
      && Distinct(r.value.cols)
      && forall c :: c in r.value.cols <==>
           exists x :: x in rows && (Selected(x, ticker, IS) || Selected(x, ticker, MARGIN)) && x.date == c
  {
    var income := SectionTable(rows, ticker, IS, Value, Billions);
    var growth := GrowthTable(rows, ticker, IS);
    var margin := SectionTable(rows, ticker, MARGIN, Value, Percent);
    if income.Failure? || growth.Failure? || margin.Failure? then Failure(DuplicateEntries)
    else
      StackedShape(rows, ticker);
      Success(Stacked(income.value, growth.value, margin.value))
  }

  /** The three sections stacked and put in `IS_ORDER`. */
  function Stacked(a: Table, b: Table, c: Table): Table
    requires WellFormed(a) && WellFormed(b) && WellFormed(c)
  {
    Concat3(a, b, c);
    Reindex(Concat([a, b, c]), IS_ORDER)
  }

  lemma StackedShape(rows: seq<FaRow>, ticker: string)
    requires SectionTable(rows, ticker, IS, Value, Billions).Success?
    requires GrowthTable(rows, ticker, IS).Success?
    requires SectionTable(rows, ticker, MARGIN, Value, Percent).Success?
    ensures var a := SectionTable(rows, ticker, IS, Value, Billions).value;
      var b := GrowthTable(rows, ticker, IS).value;
      var c := SectionTable(rows, ticker, MARGIN, Value, Percent).value;
      var t := Stacked(a, b, c);
      && WellFormed(t)
      && Labels(t) == IS_ORDER
      && t.cols == Dedup(a.cols + b.cols + c.cols)
      && Distinct(t.cols)
      && forall col :: col in t.cols <==>
           exists x :: x in rows && (Selected(x, ticker, IS) || Selected(x, ticker, MARGIN)) && x.date == col
  {
    var a := SectionTable(rows, ticker, IS, Value, Billions).value;
    var b := GrowthTable(rows, ticker, IS).value;
    var c := SectionTable(rows, ticker, MARGIN, Value, Percent).value;
    var plain := SectionTable(rows, ticker, IS, YoY, Percent).value;
    Concat3(a, b, c);
    var t := Stacked(a, b, c);
    forall col
      ensures col in t.cols <==>
        exists x :: x in rows && (Selected(x, ticker, IS) || Selected(x, ticker, MARGIN)) && x.date == col
    {
      assert col in t.cols <==> col in a.cols || col in plain.cols || col in c.cols;
      SectionCols(rows, ticker, IS, Value, Billions, col);
      SectionCols(rows, ticker, IS, YoY, Percent, col);
      SectionCols(rows, ticker, MARGIN, Value, Percent, col);
      if exists x :: x in rows && (Selected(x, ticker, IS) || Selected(x, ticker, MARGIN)) && x.date == col {
        var x :| x in rows && (Selected(x, ticker, IS) || Selected(x, ticker, MARGIN)) && x.date == col;
        if Selected(x, ticker, IS) {
          assert col in a.cols;
        } else {
          assert col in c.cols;
        }
      }
    }
  }

  /** Before the final reindex: the p-th stacked row satisfies `CellFrom` for
      the origin of its label. */
  lemma StackedCell(rows: seq<FaRow>, ticker: string, a: Table, b: Table, c: Table, p: nat, j: nat)
    requires SectionFacts(rows, ticker, IS, Value, Billions, a)
    requires SectionFacts(rows, ticker, IS, YoY, Percent, b)
    requires SectionFacts(rows, ticker, MARGIN, Value, Percent, c)
    requires p < |STACKED| && j < |Dedup(a.cols + b.cols + c.cols)|
    ensures OriginOf(STACKED[p]).Some?
    ensures var cat := Concat([a, b, c]);
      && p < |cat.rows| && j < |cat.rows[p].cells|
      && CellFrom(rows, ticker, OriginOf(STACKED[p]).value, Dedup(a.cols + b.cols + c.cols)[j], cat.rows[p].cells[j])
  {
    var cols := Dedup(a.cols + b.cols + c.cols);
    var cat := Concat([a, b, c]);
    Concat3(a, b, c);
    StackedOrigin(p);
    if p < 5 {
      assert cat.rows[p] == Realign(a.cols, a.rows[p], cols);
      RealignedCell(rows, ticker, IS, Value, Billions, a, p, cols, j);
    } else if p < 10 {
      assert cat.rows[5 + (p - 5)] == Realign(b.cols, b.rows[p - 5], cols);
      RealignedCell(rows, ticker, IS, YoY, Percent, b, p - 5, cols, j);
    } else {
      assert cat.rows[5 + 5 + (p - 10)] == Realign(c.cols, c.rows[p - 10], cols);
      RealignedCell(rows, ticker, MARGIN, Value, Percent, c, p - 10, cols, j);
    }
  }

  /** What a cell of the financial summary holds: the row labelled `l` reads
      `OriginOf(l)`, and a cell is a number exactly when some row of the
      ticker supplies one for that line item and period, then that number in
      the row's display unit. */
  lemma FsCells(rows: seq<FaRow>, ticker: string, i: nat, j: nat)
    requires FsTable(rows, ticker).Success?
    requires i < |IS_ORDER| && j < |FsTable(rows, ticker).value.cols|
    ensures OriginOf(IS_ORDER[i]).Some?
    ensures var t := FsTable(rows, ticker).value;
      CellFrom(rows, ticker, OriginOf(IS_ORDER[i]).value, t.cols[j], t.rows[i].cells[j])
  {
    var a := SectionTable(rows, ticker, IS, Value, Billions).value;
    var b := GrowthTable(rows, ticker, IS).value;
    var c := SectionTable(rows, ticker, MARGIN, Value, Percent).value;
    StackedShape(rows, ticker);
    SectionFactsHold(rows, ticker, IS, Value, Billions);
    GrowthFactsHold(rows, ticker, IS);
    SectionFactsHold(rows, ticker, MARGIN, Value, Percent);
    SuffixedIS();
    ReorderedCell(rows, ticker, a, b, c, i, j);
  }

  /** After the reindex to `IS_ORDER`: row i reads the origin of its label. */
  lemma ReorderedCell(rows: seq<FaRow>, ticker: string, a: Table, b: Table, c: Table, i: nat, j: nat)
    requires SectionFacts(rows, ticker, IS, Value, Billions, a) && Labels(a) == IS
    requires SectionFacts(rows, ticker, IS, YoY, Percent, b) && Labels(b) == IS_GROWTH
    requires SectionFacts(rows, ticker, MARGIN, Value, Percent, c) && Labels(c) == MARGIN
    requires i < |IS_ORDER| && j < |Dedup(a.cols + b.cols + c.cols)|
    ensures OriginOf(IS_ORDER[i]).Some?
    ensures var t := Stacked(a, b, c);
      && i < |t.rows| && j < |t.rows[i].cells|
      && CellFrom(rows, ticker, OriginOf(IS_ORDER[i]).value, Dedup(a.cols + b.cols + c.cols)[j], t.rows[i].cells[j])
  {
    Concat3(a, b, c);
    var cat := Concat([a, b, c]);
    StackedLabels();
    assert IS_ORDER[i] in STACKED;
    var p :| 0 <= p < |STACKED| && STACKED[p] == IS_ORDER[i];
    StackedCell(rows, ticker, a, b, c, p, j);
    assert Labels(cat) == STACKED;
    assert Stacked(a, b, c).rows[i].cells == cat.rows[p].cells;
  }

  /** `create_bs_table`: the balance-sheet section in billions, rows in `BS`
      order. */
  function BsTable(rows: seq<FaRow>, ticker: string): (r: Result<Table, FrameError>)
    ensures r.Failure? <==> RowClash(rows, ticker, BS)
    ensures r.Success? ==> WellFormed(r.value) && Labels(r.value) == BS
  {
    SectionTable(rows, ticker, BS, Value, Billions)
  }

  /** `create_cf_table`: the cash-flow section in billions, rows in `CF`
      order. */
  function CfTable(rows: seq<FaRow>, ticker: string): (r: Result<Table, FrameError>)
    ensures r.Failure? <==> RowClash(rows, ticker, CF)
    ensures r.Success? ==> WellFormed(r.value) && Labels(r.value) == CF
  {
    SectionTable(rows, ticker, CF, Value, Billions)
  }

  // ---------------------------------------------------------------------------
  // The bar panels: one per plotted line item, periods along the x axis, each
  // with its four-period moving average, laid out two to a row.

  const FA_PLOT_COLS: seq<string> := ["Net_Revenue", "Gross_Profit", "EBIT", "NPATMI"]
  const MARGIN_PLOT_COLS: seq<string> := ["Gross_Margin", "EBIT_Margin", "EBITDA_Margin", "NPAT_Margin"]
  const COLORS: seq<string> := ["royalblue", "darkorange", "green", "gray"]
  const PANEL_HEIGHT: nat := 400

  /** One subplot: a bar series for line item `name` and its moving average. */
  datatype Panel = Panel(
    name: string,
    title: string,
    row: nat,
    col: nat,
    color: string,
    bars: seq<Option<real>>,
    trend: seq<Option<real>>)

  /** `go.Figure()` when nothing can be plotted, otherwise a grid of panels
      over the periods `dates`. */
  datatype Figure =
    | EmptyFigure
    | Grid(title: string, suffix: string, gridRows: nat, height: nat, dates: seq<string>, panels: seq<Panel>)

  /** The three figures of the page. */
  datatype Chart = Fundamentals | Growth | Margins

  function ChartSection(k: Chart): seq<string> {
    if k == Margins then MARGIN else IS
  }

  function ChartField(k: Chart): Field {
    if k == Growth then YoY else Value
  }

  function ChartScaling(k: Chart): Scaling {
    if k == Fundamentals then Billions else Percent
  }

  function ChartCandidates(k: Chart): seq<string> {
    if k == Margins then MARGIN_PLOT_COLS else FA_PLOT_COLS
  }

  function ChartSuffix(k: Chart): string {
    if k == Fundamentals then "bn" else "%"
  }

  function ChartTitle(k: Chart): string {
    if k == Margins then "Margins Overview - " else "Income Statement Overview - "
  }

  /** The candidates that are columns of the table, in candidate order. */
  function PlotColumns(candidates: seq<string>, available: seq<string>): (r: seq<string>)
    ensures forall c :: c in r <==> c in candidates && c in available
    ensures Distinct(candidates) ==> Distinct(r)
  {
    FilteredDistinct(candidates, (c: string) => c in available);
    Filter(candidates, (c: string) => c in available)
  }

  lemma {:induction false} FilteredDistinct(s: seq<string>, p: string -> bool)
    ensures Distinct(s) ==> Distinct(Filter(s, p))
  {
    if |s| > 0 && Distinct(s) {
      assert Distinct(s[1..]) by {
        forall i, j | 0 <= i < j < |s| - 1 ensures s[1..][i] != s[1..][j] {
          assert s[1..][i] == s[i + 1] && s[1..][j] == s[j + 1];
        }
      }
      FilteredDistinct(s[1..], p);
      assert s[0] !in s[1..];
    }
  }

  /** Keeping the candidates present commutes with splitting the candidate
      list, so the plotted columns appear in candidate order. */
  lemma PlotColumnsOrder(front: seq<string>, back: seq<string>, available: seq<string>)
    ensures PlotColumns(front + back, available) == PlotColumns(front, available) + PlotColumns(back, available)
  {
    FilterAppend(front, back, (c: string) => c in available);
  }

  /** The selected rows as (period, line item, value) observations: the
      pivot with periods as rows and line items as columns. */
  function ChartObs(rows: seq<FaRow>, ticker: string, k: Chart): seq<Obs> {
    Transpose(SectionObs(rows, ticker, ChartSection(k), ChartField(k)))
  }

  function Panels(t: Table, names: seq<string>): (r: seq<Panel>)
    requires WellFormed(t) && forall c :: c in names ==> c in t.cols
    ensures |r| == |names|
  {
    seq(|names|, i requires 0 <= i < |names| =>
      var bars := Column(t, names[i]);
      Panel(names[i], ReplaceChar(names[i], '_', ' '), i / 2 + 1, i % 2 + 1, COLORS[i % |COLORS|],
            bars, Rolling.MovingAverage(bars)))
  }

  /** The ticker has a row for line item `c` in the chart's section. */
  predicate Reported(rows: seq<FaRow>, ticker: string, k: Chart, c: string) {
    exists x :: x in rows && Selected(x, ticker, ChartSection(k)) && x.keycode == c
  }

  /** The ticker reports some line item of the chart's section for period `d`. */
  predicate ReportedIn(rows: seq<FaRow>, ticker: string, k: Chart, d: string) {
    exists x :: x in rows && Selected(x, ticker, ChartSection(k)) && x.date == d
  }

  /** The data behind a chart: the ticker's rows of the section pivoted to
      period by line item, in the chart's unit. The periods and the line
      items come out sorted, and are exactly those the ticker reports; the
      pivot fails on a repeated (line item, period) pair. */
  function ChartTable(rows: seq<FaRow>, ticker: string, k: Chart): (r: Result<Table, FrameError>)
    ensures r.Failure? <==> RowClash(rows, ticker, ChartSection(k))
    ensures r.Success? ==>
      && WellFormed(r.value)
      && StrictlySorted(Labels(r.value)) && StrictlySorted(r.value.cols)
      && (forall c :: c in r.value.cols <==> Reported(rows, ticker, k, c))
      && (forall d :: d in Labels(r.value) <==> ReportedIn(rows, ticker, k, d))
  {
    TransposeDuplicate(SectionObs(rows, ticker, ChartSection(k), ChartField(k)));
    SectionObsClash(rows, ticker, ChartSection(k), ChartField(k));
    match Pivot(ChartObs(rows, ticker, k))
    case Failure(e) => Failure(e)
    case Success(pivoted) =>
      ChartAxes(rows, ticker, k);
      Success(ScaleTable(pivoted, ChartScaling(k)))
  }

  lemma ChartAxes(rows: seq<FaRow>, ticker: string, k: Chart)
    requires Pivot(ChartObs(rows, ticker, k)).Success?
    ensures var t := Pivot(ChartObs(rows, ticker, k)).value;
      && WellFormed(t)
      && StrictlySorted(Labels(t)) && StrictlySorted(t.cols)
      && (forall c :: c in t.cols <==> Reported(rows, ticker, k, c))
      && (forall d :: d in Labels(t) <==> ReportedIn(rows, ticker, k, d))
  {
    var t := Pivot(ChartObs(rows, ticker, k)).value;
    forall c ensures c in t.cols <==> Reported(rows, ticker, k, c) {
      SectionObsLabels(rows, ticker, ChartSection(k), ChartField(k), c, "");
    }
    forall d ensures d in Labels(t) <==> ReportedIn(rows, ticker, k, d) {
      SectionObsLabels(rows, ticker, ChartSection(k), ChartField(k), "", d);
    }
  }

  /** `create_FA_plots`, `create_gr_plots` and `create_margin_plots` with
      `create_subplot_figure`: keep the candidate line items that are
      columns of the chart table and give each a panel. Fails when the
      pivot does. */
  function ChartFigure(rows: seq<FaRow>, ticker: string, k: Chart): (r: Result<Figure, FrameError>)
    ensures r.Failure? <==> RowClash(rows, ticker, ChartSection(k))
  {
    match ChartTable(rows, ticker, k)
    case Failure(e) => Failure(e)
    case Success(t) =>
      var names := PlotColumns(ChartCandidates(k), t.cols);
      if |names| == 0 then Success(EmptyFigure)
      else
        var gridRows := (|names| + 1) / 2;
        Success(Grid(ChartTitle(k) + ticker, ChartSuffix(k), gridRows, PANEL_HEIGHT * gridRows,
                     Labels(t), Panels(t, names)))
  }

  /** A chart is empty exactly when the ticker reports none of the candidate
      line items. */
  lemma ChartEmpty(rows: seq<FaRow>, ticker: string, k: Chart)
    requires ChartFigure(rows, ticker, k).Success?
    ensures ChartFigure(rows, ticker, k).value.EmptyFigure? <==>
      forall c :: c in ChartCandidates(k) ==> !Reported(rows, ticker, k, c)
  {
    var t := ChartTable(rows, ticker, k).value;
    var names := PlotColumns(ChartCandidates(k), t.cols);
    if |names| > 0 {
      assert names[0] in names;
    }
    if exists c :: c in ChartCandidates(k) && Reported(rows, ticker, k, c) {
      var c :| c in ChartCandidates(k) && Reported(rows, ticker, k, c);
      assert c in names;
    }
  }

  /** Panel `i` sits at row `i / 2 + 1` and column `i % 2 + 1`: the grid of
      `(n + 1) / 2` rows holds every panel, no two panels share a cell and
      the last row is used. Each panel takes the colours in turn, is titled
      by its line item with underscores as spaces, draws that line item's
      column as bars and the moving average of the bars as the trend. */
  lemma PanelLayout(t: Table, names: seq<string>)
    requires WellFormed(t) && |names| > 0 && forall c :: c in names ==> c in t.cols
    ensures var ps := Panels(t, names);
      var n := |names|;
      && (forall i :: 0 <= i < n ==>
            && ps[i].name == names[i]
            && ps[i].row == i / 2 + 1 && ps[i].col == i % 2 + 1
            && 1 <= ps[i].row <= (n + 1) / 2
            && ps[i].col in {1, 2}
            && ps[i].color == COLORS[i % 4]
            && ps[i].title == ReplaceChar(names[i], '_', ' ')
            && ps[i].bars == Column(t, names[i])
            && |ps[i].bars| == |t.rows|
            && ps[i].trend == Rolling.MovingAverage(ps[i].bars))
      && (forall i, j :: 0 <= i < j < n ==> (ps[i].row, ps[i].col) != (ps[j].row, ps[j].col))
      && ps[n - 1].row == (n + 1) / 2
  {
    var ps := Panels(t, names);
    forall i, j | 0 <= i < j < |names|
      ensures (ps[i].row, ps[i].col) != (ps[j].row, ps[j].col)
    {
      assert i == 2 * (i / 2) + i % 2 && j == 2 * (j / 2) + j % 2;
    }
  }

  /** No line item is a candidate twice, so no line item gets two panels. */
  lemma CandidatesDistinct(k: Chart)
    ensures Distinct(ChartCandidates(k))
  {
    var s := ChartCandidates(k);
    if k == Margins {
      assert s[0][0] == 'G' && s[1][0] == 'E' && s[2][0] == 'E' && s[3][0] == 'N';
      assert s[1][4] == '_' && s[2][4] == 'D';
    } else {
      assert s[0][0] == 'N' && s[1][0] == 'G' && s[2][0] == 'E' && s[3][0] == 'N';
      assert s[0][1] == 'e' && s[3][1] == 'P';
    }
  }

  /** The panels of a non-empty chart are those of the candidate line items
      the ticker reports, in candidate order and each once; the grid has
      `(n + 1) / 2` rows of 400 pixels, and the x axis runs over the sorted
      periods the ticker reports. */
  lemma ChartLayout(rows: seq<FaRow>, ticker: string, k: Chart)
    requires ChartFigure(rows, ticker, k).Success? && ChartFigure(rows, ticker, k).value.Grid?
    ensures var g := ChartFigure(rows, ticker, k).value;
      var t := ChartTable(rows, ticker, k).value;
      var names := PlotColumns(ChartCandidates(k), t.cols);
      && g.panels == Panels(t, names)
      && |names| > 0
      && Distinct(names)
      && (forall c :: c in names <==> c in ChartCandidates(k) && Reported(rows, ticker, k, c))
      && g.gridRows == (|names| + 1) / 2
      && g.height == PANEL_HEIGHT * g.gridRows
      && g.dates == Labels(t)
      && StrictlySorted(g.dates)
      && (forall d :: d in g.dates <==> ReportedIn(rows, ticker, k, d))
  {
    CandidatesDistinct(k);
  }

  /** A cell of the pivoted chart data is the unscaled number the ticker's
      rows supply for that line item and period. */
  lemma ChartRawCell(rows: seq<FaRow>, ticker: string, k: Chart, d: nat, p: nat)
    requires Pivot(ChartObs(rows, ticker, k)).Success?
    requires d < |Pivot(ChartObs(rows, ticker, k)).value.rows|
    requires p < |Pivot(ChartObs(rows, ticker, k)).value.cols|
    ensures var t := Pivot(ChartObs(rows, ticker, k)).value;
      RawFrom(rows, ticker, t.cols[p], t.rows[d].name, ChartField(k), t.rows[d].cells[p])
  {
    var section, f := ChartSection(k), ChartField(k);
    var obs := SectionObs(rows, ticker, section, f);
    var t := Pivot(ChartObs(rows, ticker, k)).value;
    var name, date, cell := t.cols[p], t.rows[d].name, t.rows[d].cells[p];
    assert Agrees(ChartObs(rows, ticker, k), date, name, cell);
    forall x | x in rows && Feeds(x, ticker, name, date, f)
      ensures cell == FieldOf(x, f)
    {
      ChartAxes(rows, ticker, k);
      assert name in t.cols;
      var y :| y in rows && Selected(y, ticker, section) && y.keycode == name;
      assert Selected(x, ticker, section);
      SectionObsMember(rows, ticker, section, f, ToObs(x, f));
      TransposeMember(obs, Obs(date, name, FieldOf(x, f)));
      assert Hit(Obs(date, name, FieldOf(x, f)), date, name);
    }
    if cell.Some? {
      TransposeMember(obs, Obs(date, name, cell));
      SectionObsMember(rows, ticker, section, f, Obs(name, date, cell));
      var x :| x in rows && Selected(x, ticker, section) && Obs(name, date, cell) == ToObs(x, f);
      assert Feeds(x, ticker, name, date, f);
    }
  }

  /** What a bar shows: the number the ticker's rows supply for the panel's
      line item in that period, in the chart's unit, and a gap exactly when
      no row supplies one. */
  lemma ChartBars(rows: seq<FaRow>, ticker: string, k: Chart, i: nat, d: nat)
    requires ChartFigure(rows, ticker, k).Success? && ChartFigure(rows, ticker, k).value.Grid?
    requires i < |ChartFigure(rows, ticker, k).value.panels|
    requires d < |ChartFigure(rows, ticker, k).value.dates|
    ensures var g := ChartFigure(rows, ticker, k).value;
      d < |g.panels[i].bars| &&
      CellFrom(rows, ticker, Origin(g.panels[i].name, ChartField(k), ChartScaling(k)), g.dates[d], g.panels[i].bars[d])
  {
    var g := ChartFigure(rows, ticker, k).value;
    var t := ChartTable(rows, ticker, k).value;
    var pivoted := Pivot(ChartObs(rows, ticker, k)).value;
    assert t == ScaleTable(pivoted, ChartScaling(k));
    var names := PlotColumns(ChartCandidates(k), t.cols);
    assert g.panels == Panels(t, names) && g.dates == Labels(t);
    var name := names[i];
    assert name in t.cols;
    var p := IndexOf(t.cols, name).value;
    assert g.panels[i].bars[d] == t.rows[d].cells[p];
    assert t.rows[d].name == pivoted.rows[d].name by {
      assert Labels(t)[d] == Labels(pivoted)[d];
    }
    ChartRawCell(rows, ticker, k, d, p);
  }
}
