/** The slice of pandas the dashboards reshape their data with: long-format
    observations, the wide table `pivot` builds from them, and the
    `reindex`, `rename`, cell-wise scaling and `concat` steps applied after.
    A cell is `Some(x)` for a number and `None` for NaN. */
module Frames {
  import opened Wrappers
  import opened Seqs
  import opened Strings
  import Dicts

  datatype FrameError =
    | DuplicateEntries       // `pivot` saw one (index, column) pair twice
    | MissingColumn(name: string)  // `df[cols]` named a column the frame lacks
    | MissingKey(key: string)      // `dict.pop` of an absent key

  /** One long-format observation: the label of the row it goes to, the label
      of its column, and its value. */
  datatype Obs = Obs(key: string, col: string, val: Option<real>)

  datatype Row = Row(name: string, cells: seq<Option<real>>)

  /** A wide table: column labels, and rows whose cells line up with them. */
  datatype Table = Table(cols: seq<string>, rows: seq<Row>)

  predicate WellFormed(t: Table) {
    forall i :: 0 <= i < |t.rows| ==> |t.rows[i].cells| == |t.cols|
  }

  function Labels(t: Table): seq<string> {
    seq(|t.rows|, i requires 0 <= i < |t.rows| => t.rows[i].name)
  }

  function ObsKeys(obs: seq<Obs>): seq<string> {
    seq(|obs|, i requires 0 <= i < |obs| => obs[i].key)
  }

  function ObsCols(obs: seq<Obs>): seq<string> {
    seq(|obs|, i requires 0 <= i < |obs| => obs[i].col)
  }

  /** Two observations land in the same cell. */
  predicate HasDuplicate(obs: seq<Obs>) {
    exists i, j :: 0 <= i < j < |obs| && obs[i].key == obs[j].key && obs[i].col == obs[j].col
  }

  /** A duplicate in `[x] + s` is either inside `s` or pairs `x` with an
      element of `s`. */
  lemma HasDuplicateCons(x: Obs, s: seq<Obs>)
    ensures HasDuplicate([x] + s) <==>
      HasDuplicate(s) || exists o :: o in s && o.key == x.key && o.col == x.col
  {
    var xs := [x] + s;
    if HasDuplicate(xs) {
      var i, j :| 0 <= i < j < |xs| && xs[i].key == xs[j].key && xs[i].col == xs[j].col;
      if i == 0 {
        assert xs[j] in s;
      } else {
        assert s[i - 1] == xs[i] && s[j - 1] == xs[j];
      }
    }
    if HasDuplicate(s) {
      var i, j :| 0 <= i < j < |s| && s[i].key == s[j].key && s[i].col == s[j].col;
      assert xs[i + 1] == s[i] && xs[j + 1] == s[j];
    }
    if exists o :: o in s && o.key == x.key && o.col == x.col {
      var o :| o in s && o.key == x.key && o.col == x.col;
      var j :| 0 <= j < |s| && s[j] == o;
      assert xs[0] == x && xs[j + 1] == o;
      assert 0 < j + 1 < |xs| && xs[0].key == xs[j + 1].key && xs[0].col == xs[j + 1].col;
    }
  }

  /** The observations with their row and column labels swapped: what
      pivoting the same long rows the other way round sees. */
  function Transpose(obs: seq<Obs>): (r: seq<Obs>)
    ensures |r| == |obs|
    ensures ObsKeys(r) == ObsCols(obs) && ObsCols(r) == ObsKeys(obs)
  {
    seq(|obs|, i requires 0 <= i < |obs| => Obs(obs[i].col, obs[i].key, obs[i].val))
  }

  /** An observation of `a` and one of `b` land in the same cell. */
  predicate CrossDuplicate(a: seq<Obs>, b: seq<Obs>) {
    exists i, j :: 0 <= i < |a| && 0 <= j < |b| && a[i].key == b[j].key && a[i].col == b[j].col
  }

  /** A duplicate in `a + b` lies inside `a`, inside `b`, or pairs an
      element of `a` with one of `b`. */
  lemma HasDuplicateAppend(a: seq<Obs>, b: seq<Obs>)
    ensures HasDuplicate(a + b) <==> HasDuplicate(a) || HasDuplicate(b) || CrossDuplicate(a, b)
  {
    if HasDuplicate(a + b) {
      DuplicateSplit(a, b);
    }
    if HasDuplicate(a) || HasDuplicate(b) || CrossDuplicate(a, b) {
      DuplicateJoin(a, b);
    }
  }

  lemma DuplicateSplit(a: seq<Obs>, b: seq<Obs>)
    requires HasDuplicate(a + b)
    ensures HasDuplicate(a) || HasDuplicate(b) || CrossDuplicate(a, b)
  {
    var s := a + b;
    var i, j :| 0 <= i < j < |s| && s[i].key == s[j].key && s[i].col == s[j].col;
    if j < |a| {
      assert a[i] == s[i] && a[j] == s[j];
    } else if i >= |a| {
      assert b[i - |a|] == s[i] && b[j - |a|] == s[j];
    } else {
      assert a[i] == s[i] && b[j - |a|] == s[j];
    }
  }

  lemma DuplicateJoin(a: seq<Obs>, b: seq<Obs>)
    requires HasDuplicate(a) || HasDuplicate(b) || CrossDuplicate(a, b)
    ensures HasDuplicate(a + b)
  {
    var s := a + b;
    if HasDuplicate(a) {
      var i, j :| 0 <= i < j < |a| && a[i].key == a[j].key && a[i].col == a[j].col;
      assert s[i] == a[i] && s[j] == a[j];
    } else if HasDuplicate(b) {
      var i, j :| 0 <= i < j < |b| && b[i].key == b[j].key && b[i].col == b[j].col;
      assert s[i + |a|] == b[i] && s[j + |a|] == b[j];
    } else {
      var i, j :| 0 <= i < |a| && 0 <= j < |b| && a[i].key == b[j].key && a[i].col == b[j].col;
      assert s[i] == a[i] && s[j + |a|] == b[j];
    }
  }

  /** The first non-NaN value is the only value with the first-value
      property. */
  lemma FirstAgreesUnique(obs: seq<Obs>, k: string, c: string, cell: Option<real>)
    requires FirstAgrees(obs, k, c, cell)
    ensures cell == FirstValue(obs, k, c)
  {
    FirstValueIsFirst(obs, k, c);
    var r := FirstValue(obs, k, c);
    if cell.Some? && r.Some? {
      var n :| 0 <= n < |obs| && Hit(obs[n], k, c) && obs[n].val == cell
               && forall m :: 0 <= m < n ==> !Hit(obs[m], k, c);
      var n' :| 0 <= n' < |obs| && Hit(obs[n'], k, c) && obs[n'].val == r
                && forall m :: 0 <= m < n' ==> !Hit(obs[m], k, c);
      assert n == n';
    }
  }

  /** With no observation for (`k`, `c`) there is no first value. */
  lemma FirstValueNoHit(obs: seq<Obs>, k: string, c: string)
    requires forall o :: o in obs ==> !Hit(o, k, c)
    ensures FirstValue(obs, k, c).None?
  {
    FirstValueIsFirst(obs, k, c);
  }

  /** The first value in `a + b` is the first in `a` when `a` has one, and
      otherwise the first in `b`. */
  lemma {:induction false} FirstValueAppend(a: seq<Obs>, b: seq<Obs>, k: string, c: string)
    ensures FirstValue(a + b, k, c) ==
      if exists o :: o in a && Hit(o, k, c) then FirstValue(a, k, c) else FirstValue(b, k, c)
  {
    if |a| == 0 {
      assert a + b == b;
    } else {
      assert (a + b)[0] == a[0] && (a + b)[1..] == a[1..] + b;
      FirstValueAppend(a[1..], b, k, c);
      assert forall o :: o in a <==> o == a[0] || o in a[1..] by {
        assert a == [a[0]] + a[1..];
      }
    }
  }

  /** Transposing swaps each observation's key and column and keeps nothing
      else. */
  lemma TransposeMember(obs: seq<Obs>, o: Obs)
    ensures o in Transpose(obs) <==> Obs(o.col, o.key, o.val) in obs
  {
    var r := Transpose(obs);
    if o in r {
      var n :| 0 <= n < |r| && r[n] == o;
      assert obs[n] == Obs(o.col, o.key, o.val);
    }
    if Obs(o.col, o.key, o.val) in obs {
      var n :| 0 <= n < |obs| && obs[n] == Obs(o.col, o.key, o.val);
      assert r[n] == o;
    }
  }

  lemma TransposeDuplicate(obs: seq<Obs>)
    ensures HasDuplicate(Transpose(obs)) <==> HasDuplicate(obs)
  {
    var r := Transpose(obs);
    if HasDuplicate(obs) {
      var i, j :| 0 <= i < j < |obs| && obs[i].key == obs[j].key && obs[i].col == obs[j].col;
      assert r[i].key == r[j].key && r[i].col == r[j].col;
    }
  }

  /** `o` is a non-NaN observation for cell (`k`, `c`). */
  predicate Hit(o: Obs, k: string, c: string) {
    o.key == k && o.col == c && o.val.Some?
  }

  /** `cell` is what the observations say about cell (`k`, `c`) when no two
      of them share it: the value of the observation there, NaN if there is
      none (or it is NaN). */
  predicate Agrees(obs: seq<Obs>, k: string, c: string, cell: Option<real>) {
    && (cell.Some? ==> Obs(k, c, cell) in obs)
    && (forall o :: o in obs && Hit(o, k, c) ==> cell == o.val)
  }

  /** `cell` is the first non-NaN value observed for cell (`k`, `c`), NaN if
      there is none: what pandas' `first` aggregation keeps. */
  predicate FirstAgrees(obs: seq<Obs>, k: string, c: string, cell: Option<real>) {
    && (cell.Some? ==> exists n :: 0 <= n < |obs| && Hit(obs[n], k, c) && obs[n].val == cell
                                 && forall m :: 0 <= m < n ==> !Hit(obs[m], k, c))
    && (cell.None? ==> forall o :: o in obs ==> !Hit(o, k, c))
  }

  function FirstValue(obs: seq<Obs>, k: string, c: string): Option<real> {
    if |obs| == 0 then None
    else if Hit(obs[0], k, c) then obs[0].val
    else FirstValue(obs[1..], k, c)
  }

  lemma {:induction false} FirstValueIsFirst(obs: seq<Obs>, k: string, c: string)
    ensures FirstAgrees(obs, k, c, FirstValue(obs, k, c))
  {
    if |obs| > 0 && !Hit(obs[0], k, c) {
      FirstValueIsFirst(obs[1..], k, c);
      assert obs == [obs[0]] + obs[1..];
      var r := FirstValue(obs, k, c);
      if r.Some? {
        var n :| 0 <= n < |obs[1..]| && Hit(obs[1..][n], k, c) && obs[1..][n].val == r
                 && forall m :: 0 <= m < n ==> !Hit(obs[1..][m], k, c);
        assert Hit(obs[n + 1], k, c) && obs[n + 1].val == r;
        assert forall m :: 0 <= m < n + 1 ==> !Hit(obs[m], k, c) by {
          forall m | 0 <= m < n + 1 ensures !Hit(obs[m], k, c) {
            if m > 0 { assert obs[m] == obs[1..][m - 1]; }
          }
        }
      }
    }
  }

  /** Without duplicates the first non-NaN value is the only one. */
  lemma FirstValueUnique(obs: seq<Obs>, k: string, c: string)
    requires !HasDuplicate(obs)
    ensures Agrees(obs, k, c, FirstValue(obs, k, c))
  {
    FirstValueIsFirst(obs, k, c);
    var r := FirstValue(obs, k, c);
    if r.Some? {
      var n :| 0 <= n < |obs| && Hit(obs[n], k, c) && obs[n].val == r
               && forall m :: 0 <= m < n ==> !Hit(obs[m], k, c);
      assert obs[n] == Obs(k, c, r);
      forall o | o in obs && Hit(o, k, c)
        ensures r == o.val
      {
        var p :| 0 <= p < |obs| && obs[p] == o;
      }
    }
  }

  /** The table with one row per key and one column per column label, each
      cell holding the first non-NaN observation for it. */
  function Spread(obs: seq<Obs>, keys: seq<string>, cols: seq<string>): (t: Table)
    ensures WellFormed(t) && Labels(t) == keys && t.cols == cols
  {
    Table(cols, seq(|keys|, i requires 0 <= i < |keys| =>
      Row(keys[i], seq(|cols|, j requires 0 <= j < |cols| => FirstValue(obs, keys[i], cols[j])))))
  }

  /** `DataFrame.pivot(index=key, columns=col, values=val)`: the distinct keys
      become the rows and the distinct column labels the columns, both sorted;
      a repeated (key, column) pair raises. */
  function Pivot(obs: seq<Obs>): (r: Result<Table, FrameError>)
    ensures r.Failure? <==> HasDuplicate(obs)
    ensures r.Success? ==>
      && WellFormed(r.value)
      && StrictlySorted(Labels(r.value)) && StrictlySorted(r.value.cols)
      && (forall k :: k in Labels(r.value) <==> k in ObsKeys(obs))
      && (forall c :: c in r.value.cols <==> c in ObsCols(obs))
      && (forall i, j :: 0 <= i < |r.value.rows| && 0 <= j < |r.value.cols| ==>
            Agrees(obs, r.value.rows[i].name, r.value.cols[j], r.value.rows[i].cells[j]))
  {
    if HasDuplicate(obs) then Failure(DuplicateEntries)
    else
      var t := Spread(obs, SortedDistinct(ObsKeys(obs)), SortedDistinct(ObsCols(obs)));
      assert forall i, j :: 0 <= i < |t.rows| && 0 <= j < |t.cols| ==>
               Agrees(obs, t.rows[i].name, t.cols[j], t.rows[i].cells[j]) by {
        forall i, j | 0 <= i < |t.rows| && 0 <= j < |t.cols|
          ensures Agrees(obs, t.rows[i].name, t.cols[j], t.rows[i].cells[j])
        {
          assert t.rows[i].name == Labels(t)[i];
          FirstValueUnique(obs, t.rows[i].name, t.cols[j]);
        }
      }
      Success(t)
  }

  function NonNull(obs: seq<Obs>): seq<Obs> {
    Filter(obs, (o: Obs) => o.val.Some?)
  }

  /** A key labels a non-NaN observation exactly when some observation
      with that key has a value. */
  lemma NonNullKeys(obs: seq<Obs>)
    ensures forall k :: k in ObsKeys(NonNull(obs)) <==> exists o :: o in obs && o.key == k && o.val.Some?
  {
    var present := NonNull(obs);
    forall k ensures k in ObsKeys(present) <==> exists o :: o in obs && o.key == k && o.val.Some? {
      if exists o :: o in obs && o.key == k && o.val.Some? {
        var o :| o in obs && o.key == k && o.val.Some?;
        var n :| 0 <= n < |present| && present[n] == o;
        assert ObsKeys(present)[n] == k;
      }
      if k in ObsKeys(present) {
        var n :| 0 <= n < |present| && ObsKeys(present)[n] == k;
        assert present[n] in present;
      }
    }
  }

  /** The same for column labels. */
  lemma NonNullCols(obs: seq<Obs>)
    ensures forall c :: c in ObsCols(NonNull(obs)) <==> exists o :: o in obs && o.col == c && o.val.Some?
  {
    var present := NonNull(obs);
    forall c ensures c in ObsCols(present) <==> exists o :: o in obs && o.col == c && o.val.Some? {
      if exists o :: o in obs && o.col == c && o.val.Some? {
        var o :| o in obs && o.col == c && o.val.Some?;
        var n :| 0 <= n < |present| && present[n] == o;
        assert ObsCols(present)[n] == c;
      }
      if c in ObsCols(present) {
        var n :| 0 <= n < |present| && ObsCols(present)[n] == c;
        assert present[n] in present;
      }
    }
  }

  /** `DataFrame.pivot_table(index=key, columns=col, values=val,
      aggfunc='first')`: a cell keeps the first non-NaN value observed for it,
      and rows and columns with no non-NaN value at all are dropped
      (`dropna=True`). Never raises on duplicates. */
  function PivotFirst(obs: seq<Obs>): (t: Table)
    ensures WellFormed(t)
    ensures StrictlySorted(Labels(t)) && StrictlySorted(t.cols)
    ensures forall k :: k in Labels(t) <==> exists o :: o in obs && o.key == k && o.val.Some?
    ensures forall c :: c in t.cols <==> exists o :: o in obs && o.col == c && o.val.Some?
    ensures forall i, j :: 0 <= i < |t.rows| && 0 <= j < |t.cols| ==>
      FirstAgrees(obs, t.rows[i].name, t.cols[j], t.rows[i].cells[j])
  {
    var present := NonNull(obs);
    var t := Spread(obs, SortedDistinct(ObsKeys(present)), SortedDistinct(ObsCols(present)));
    NonNullKeys(obs);
    NonNullCols(obs);
    assert forall i, j :: 0 <= i < |t.rows| && 0 <= j < |t.cols| ==>
             FirstAgrees(obs, t.rows[i].name, t.cols[j], t.rows[i].cells[j]) by {
      forall i, j | 0 <= i < |t.rows| && 0 <= j < |t.cols|
        ensures FirstAgrees(obs, t.rows[i].name, t.cols[j], t.rows[i].cells[j])
      {
        FirstValueIsFirst(obs, t.rows[i].name, t.cols[j]);
      }
    }
    t
  }

  function BlankCells(n: nat): (r: seq<Option<real>>)
    ensures |r| == n && forall j :: 0 <= j < n ==> r[j].None?
  {
    seq(n, j => None)
  }

  /** `DataFrame.reindex(target)`: exactly the rows `target` names, in its
      order; a label the table lacks gets an all-NaN row. */
  function Reindex(t: Table, target: seq<string>): (r: Table)
    requires WellFormed(t)
    ensures WellFormed(r) && r.cols == t.cols && Labels(r) == target
    ensures Distinct(Labels(t)) ==>
      forall i, p :: 0 <= i < |target| && 0 <= p < |t.rows| && t.rows[p].name == target[i] ==>
        r.rows[i].cells == t.rows[p].cells
    ensures forall i, j :: 0 <= i < |target| && target[i] !in Labels(t) && 0 <= j < |t.cols| ==>
      r.rows[i].cells[j].None?
  {
    var r := Table(t.cols, seq(|target|, i requires 0 <= i < |target| =>
      Row(target[i],
        match IndexOf(Labels(t), target[i])
        case Some(p) => t.rows[p].cells
        case None => BlankCells(|t.cols|))));
    assert Distinct(Labels(t)) ==>
      forall i, p :: 0 <= i < |target| && 0 <= p < |t.rows| && t.rows[p].name == target[i] ==>
        r.rows[i].cells == t.rows[p].cells by {
      if Distinct(Labels(t)) {
        forall i, p | 0 <= i < |target| && 0 <= p < |t.rows| && t.rows[p].name == target[i]
          ensures r.rows[i].cells == t.rows[p].cells
        {
          assert Labels(t)[p] == target[i];
          IndexOfDistinct(Labels(t), p);
        }
      }
    }
    r
  }

  /** After reindexing a pivot, the row of a key the observations mention
      still agrees with them. */
  lemma PivotReindexAgrees(obs: seq<Obs>, target: seq<string>, i: nat, j: nat)
    requires Pivot(obs).Success?
    requires i < |target| && target[i] in ObsKeys(obs)
    requires j < |Pivot(obs).value.cols|
    ensures j < |Reindex(Pivot(obs).value, target).rows[i].cells|
    ensures Agrees(obs, target[i], Pivot(obs).value.cols[j], Reindex(Pivot(obs).value, target).rows[i].cells[j])
  {
    var p := Pivot(obs).value;
    var q :| 0 <= q < |p.rows| && Labels(p)[q] == target[i];
    StrictlySortedIsDistinct(Labels(p));
    assert Reindex(p, target).rows[i].cells == p.rows[q].cells;
  }

  /** Each label looked up in `d`, kept as it is when `d` lacks it. */
  function RenameLabels(d: Dicts.Dict, ks: seq<string>): (r: seq<string>)
    ensures |r| == |ks|
    ensures forall i :: 0 <= i < |ks| ==> r[i] == Dicts.GetOr(d, ks[i], ks[i])
  {
    seq(|ks|, i requires 0 <= i < |ks| => Dicts.GetOr(d, ks[i], ks[i]))
  }

  /** `DataFrame.rename(index=d)`: a label that is a key of `d` becomes its
      value; any other label is kept. Cells and columns do not change. */
  function Rename(t: Table, d: Dicts.Dict): (r: Table)
    ensures r.cols == t.cols && |r.rows| == |t.rows| && (WellFormed(t) ==> WellFormed(r))
    ensures forall i :: 0 <= i < |t.rows| ==> r.rows[i].cells == t.rows[i].cells
    ensures Labels(r) == RenameLabels(d, Labels(t))
  {
    Table(t.cols, seq(|t.rows|, i requires 0 <= i < |t.rows| =>
      Row(Dicts.GetOr(d, t.rows[i].name, t.rows[i].name), t.rows[i].cells)))
  }

  /** The unit change applied to a cell before it is displayed. */
  datatype Scaling = Percent | Billions

  function Apply(s: Scaling, x: real): real {
    match s
    case Percent => x * 100.0
    case Billions => x / 1000000000.0
  }

  function ScaleCell(s: Scaling, c: Option<real>): Option<real> {
    match c
    case Some(x) => Some(Apply(s, x))
    case None => None
  }

  /** Applies `s` to every cell; NaN stays NaN. */
  function ScaleTable(t: Table, s: Scaling): (r: Table)
    ensures r.cols == t.cols && Labels(r) == Labels(t) && (WellFormed(t) ==> WellFormed(r))
    ensures forall i, j :: 0 <= i < |t.rows| && 0 <= j < |t.rows[i].cells| ==>
      |r.rows[i].cells| == |t.rows[i].cells| &&
      (r.rows[i].cells[j].Some? <==> t.rows[i].cells[j].Some?) &&
      (t.rows[i].cells[j].Some? ==> r.rows[i].cells[j].value == Apply(s, t.rows[i].cells[j].value))
  {
    Table(t.cols, seq(|t.rows|, i requires 0 <= i < |t.rows| =>
      Row(t.rows[i].name, seq(|t.rows[i].cells|, j requires 0 <= j < |t.rows[i].cells| =>
        ScaleCell(s, t.rows[i].cells[j])))))
  }

  /** The cells of `row` (laid out along `cols`) moved to the columns `to`:
      a label missing from `cols` gives NaN. */
  function Realign(cols: seq<string>, row: Row, to: seq<string>): (r: Row)
    requires |row.cells| == |cols|
    ensures r.name == row.name && |r.cells| == |to|
    ensures forall j :: 0 <= j < |to| && to[j] !in cols ==> r.cells[j].None?
    ensures forall j, p :: 0 <= j < |to| && 0 <= p < |cols| && Distinct(cols) && cols[p] == to[j] ==>
      r.cells[j] == row.cells[p]
  {
    var r := Row(row.name, seq(|to|, j requires 0 <= j < |to| =>
      match IndexOf(cols, to[j])
      case Some(p) => row.cells[p]
      case None => None));
    assert forall j, p :: 0 <= j < |to| && 0 <= p < |cols| && Distinct(cols) && cols[p] == to[j] ==>
      r.cells[j] == row.cells[p] by {
      forall j, p | 0 <= j < |to| && 0 <= p < |cols| && Distinct(cols) && cols[p] == to[j]
        ensures r.cells[j] == row.cells[p]
      {
        IndexOfDistinct(cols, p);
      }
    }
    r
  }

  function AllCols(ts: seq<Table>): seq<string> {
    if |ts| == 0 then [] else ts[0].cols + AllCols(ts[1..])
  }

  /** Every row of `t` moved to the columns `to`. */
  function RealignAll(t: Table, to: seq<string>): (r: seq<Row>)
    requires WellFormed(t)
    ensures |r| == |t.rows| && WellFormed(Table(to, r)) && Labels(Table(to, r)) == Labels(t)
    ensures forall i :: 0 <= i < |t.rows| ==> r[i] == Realign(t.cols, t.rows[i], to)
  {
    seq(|t.rows|, i requires 0 <= i < |t.rows| => Realign(t.cols, t.rows[i], to))
  }

  function AllRows(ts: seq<Table>, to: seq<string>): seq<Row>
    requires forall t :: t in ts ==> WellFormed(t)
  {
    if |ts| == 0 then []
    else
      assert ts[0] in ts;
      RealignAll(ts[0], to) + AllRows(ts[1..], to)
  }

  /** `pd.concat(ts)`: the rows of every table one after the other, over the
      union of their columns in first-appearance order. */
  function Concat(ts: seq<Table>): (r: Table)
    requires forall t :: t in ts ==> WellFormed(t)
  {
    var cols := Dedup(AllCols(ts));
    Table(cols, AllRows(ts, cols))
  }

  /** Concatenating three tables: the rows of `a`, then `b`, then `c`, each
      moved onto the union of the three column lists. */
  lemma Concat3(a: Table, b: Table, c: Table)
    requires WellFormed(a) && WellFormed(b) && WellFormed(c)
    ensures var r := Concat([a, b, c]);
      var cols := Dedup(a.cols + b.cols + c.cols);
      && r.cols == cols
      && WellFormed(r)
      && Labels(r) == Labels(a) + Labels(b) + Labels(c)
      && (forall p :: 0 <= p < |a.rows| ==> r.rows[p] == Realign(a.cols, a.rows[p], cols))
      && (forall p :: 0 <= p < |b.rows| ==> r.rows[|a.rows| + p] == Realign(b.cols, b.rows[p], cols))
      && (forall p :: 0 <= p < |c.rows| ==> r.rows[|a.rows| + |b.rows| + p] == Realign(c.cols, c.rows[p], cols))
  {
    var cols := Dedup(a.cols + b.cols + c.cols);
    ConcatUnfold3(a, b, c);
    StackedRows(a, b, c, cols);
  }

  /** The rows of three tables moved onto the columns `to` and stacked: each
      as wide as `to`, labelled as in the tables, and in table order. */
  lemma StackedRows(a: Table, b: Table, c: Table, to: seq<string>)
    requires WellFormed(a) && WellFormed(b) && WellFormed(c)
    ensures var r := Table(to, RealignAll(a, to) + RealignAll(b, to) + RealignAll(c, to));
      && WellFormed(r)
      && Labels(r) == Labels(a) + Labels(b) + Labels(c)
      && (forall p :: 0 <= p < |a.rows| ==> r.rows[p] == Realign(a.cols, a.rows[p], to))
      && (forall p :: 0 <= p < |b.rows| ==> r.rows[|a.rows| + p] == Realign(b.cols, b.rows[p], to))
      && (forall p :: 0 <= p < |c.rows| ==> r.rows[|a.rows| + |b.rows| + p] == Realign(c.cols, c.rows[p], to))
  {
    var ra, rb, rc := RealignAll(a, to), RealignAll(b, to), RealignAll(c, to);
    var r := Table(to, ra + rb + rc);
    WellFormedCat(to, ra, rb);
    WellFormedCat(to, ra + rb, rc);
    LabelsCat(to, ra, rb);
    LabelsCat(to, ra + rb, rc);
    Cat3(ra, rb, rc);
  }

  /** Stacking two well-formed row lists over the same columns keeps the
      table well formed. */
  lemma WellFormedCat(to: seq<string>, x: seq<Row>, y: seq<Row>)
    requires WellFormed(Table(to, x)) && WellFormed(Table(to, y))
    ensures WellFormed(Table(to, x + y))
  {
    forall p | 0 <= p < |x + y| ensures |(x + y)[p].cells| == |to| {
      if p >= |x| { assert (x + y)[p] == y[p - |x|]; }
    }
  }

  /** The labels of stacked rows are the labels of each part in turn. */
  lemma LabelsCat(to: seq<string>, x: seq<Row>, y: seq<Row>)
    ensures Labels(Table(to, x + y)) == Labels(Table(to, x)) + Labels(Table(to, y))
  {
    var l := Labels(Table(to, x + y));
    forall p | 0 <= p < |l| ensures l[p] == (Labels(Table(to, x)) + Labels(Table(to, y)))[p] {
      if p >= |x| { assert (x + y)[p] == y[p - |x|]; }
    }
  }

  /** Where the parts of a three-way concatenation sit. */
  lemma Cat3<T>(x: seq<T>, y: seq<T>, z: seq<T>)
    ensures forall p :: 0 <= p < |x| ==> (x + y + z)[p] == x[p]
    ensures forall p :: 0 <= p < |y| ==> (x + y + z)[|x| + p] == y[p]
    ensures forall p :: 0 <= p < |z| ==> (x + y + z)[|x| + |y| + p] == z[p]
  {
  }

  /** The three-table concatenation unfolded: its columns are the union of
      the three column lists, and its rows those of each table in turn. */
  lemma ConcatUnfold3(a: Table, b: Table, c: Table)
    requires WellFormed(a) && WellFormed(b) && WellFormed(c)
    ensures var cols := Dedup(a.cols + b.cols + c.cols);
      Concat([a, b, c]) == Table(cols, RealignAll(a, cols) + RealignAll(b, cols) + RealignAll(c, cols))
  {
    var ts := [a, b, c];
    assert ts[1..] == [b, c] && [b, c][1..] == [c] && [c][1..] == [];
    assert AllCols([c]) == c.cols;
    assert AllCols([b, c]) == b.cols + c.cols;
    assert AllCols(ts) == a.cols + b.cols + c.cols;
    var cols := Dedup(AllCols(ts));
    assert AllRows([c], cols) == RealignAll(c, cols);
    assert AllRows([b, c], cols) == RealignAll(b, cols) + RealignAll(c, cols);
  }


  /** `df[c]`: the values of column `c`, top to bottom. pandas raises on a
      column the frame lacks, so the column must be there. */
  function Column(t: Table, c: string): (r: seq<Option<real>>)
    requires WellFormed(t) && c in t.cols
    ensures |r| == |t.rows|
    ensures exists p :: 0 <= p < |t.cols| && t.cols[p] == c &&
                        forall i :: 0 <= i < |t.rows| ==> r[i] == t.rows[i].cells[p]
  {
    var p := IndexOf(t.cols, c).value;
    seq(|t.rows|, i requires 0 <= i < |t.rows| => t.rows[i].cells[p])
  }

  /** `df.loc[key]`: the cells of every row labelled `key`, top to
      bottom. */
  function Loc(rows: seq<Row>, key: string): (r: seq<seq<Option<real>>>)
    ensures |r| <= |rows|
  {
    if |rows| == 0 then []
    else (if rows[0].name == key then [rows[0].cells] else []) + Loc(rows[1..], key)
  }

  /** `.loc` finds exactly the rows that carry the label. */
  lemma {:induction false} LocMember(rows: seq<Row>, key: string, cs: seq<Option<real>>)
    ensures cs in Loc(rows, key) <==> exists i :: 0 <= i < |rows| && rows[i].name == key && rows[i].cells == cs
  {
    if |rows| > 0 {
      LocMember(rows[1..], key, cs);
      var head := if rows[0].name == key then [rows[0].cells] else [];
      assert Loc(rows, key) == head + Loc(rows[1..], key);
      if exists i :: 0 <= i < |rows| && rows[i].name == key && rows[i].cells == cs {
        var i :| 0 <= i < |rows| && rows[i].name == key && rows[i].cells == cs;
        if i > 0 { assert rows[1..][i - 1] == rows[i]; }
      }
      if exists i :: 0 <= i < |rows[1..]| && rows[1..][i].name == key && rows[1..][i].cells == cs {
        var i :| 0 <= i < |rows[1..]| && rows[1..][i].name == key && rows[1..][i].cells == cs;
        assert rows[i + 1] == rows[1..][i];
      }
    }
  }

  /** A label no row carries finds nothing. */
  lemma {:induction false} LocNone(rows: seq<Row>, key: string)
    requires forall i :: 0 <= i < |rows| ==> rows[i].name != key
    ensures Loc(rows, key) == []
  {
    if |rows| > 0 {
      assert forall i :: 0 <= i < |rows[1..]| ==> rows[1..][i].name == rows[i + 1].name;
      LocNone(rows[1..], key);
    }
  }

  /** `.loc` of the label of row `i`: the cells of every row with that
      label, each as wide as the table; row `i` alone when the labels are
      distinct. */
  lemma LocOfRow(t: Table, i: nat)
    requires WellFormed(t) && i < |t.rows|
    ensures var bars := Loc(t.rows, t.rows[i].name);
      && (forall cs :: cs in bars <==>
            exists k :: 0 <= k < |t.rows| && t.rows[k].name == t.rows[i].name && t.rows[k].cells == cs)
      && (forall cs :: cs in bars ==> |cs| == |t.cols|)
      && (Distinct(Labels(t)) ==> bars == [t.rows[i].cells])
  {
    forall cs ensures cs in Loc(t.rows, t.rows[i].name) <==>
        exists k :: 0 <= k < |t.rows| && t.rows[k].name == t.rows[i].name && t.rows[k].cells == cs {
      LocMember(t.rows, t.rows[i].name, cs);
    }
    if Distinct(Labels(t)) {
      LocDistinct(t, i);
    }
  }

  /** With distinct labels, `.loc` of a row's label is that row alone. */
  lemma {:induction false} LocDistinct(t: Table, i: nat)
    requires Distinct(Labels(t)) && i < |t.rows|
    ensures Loc(t.rows, t.rows[i].name) == [t.rows[i].cells]
    decreases i
  {
    var rows, key := t.rows, t.rows[i].name;
    var tail := Table(t.cols, rows[1..]);
    assert Labels(tail) == Labels(t)[1..];
    DistinctTail(Labels(t));
    if i == 0 {
      forall k | 0 <= k < |rows[1..]| ensures rows[1..][k].name != key {
        assert Labels(t)[k + 1] == rows[1..][k].name && Labels(t)[0] == key;
      }
      LocNone(rows[1..], key);
    } else {
      assert Labels(t)[0] == rows[0].name && Labels(t)[i] == key;
      LocDistinct(tail, i - 1);
    }
  }
}
