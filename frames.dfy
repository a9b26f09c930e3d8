/** Tables as the pipeline handles them (pandas DataFrames / GeoDataFrames with
    the default integer index, so a row's label is its position): an ordered list
    of column names and a list of rows, each row a map from column name to cell.
    The table stages are functions on these values. */
module Frames {
  import opened Errors
  import opened Geometry
  import opened Text
  import opened Units

  /** A cell: a string, a number, a geometry, or NaN (a missing value). */
  datatype Value = Str(s: string) | Num(r: real) | Geo(g: Shape) | NaN

  type Row = map<string, Value>

  datatype Frame = Frame(columns: seq<string>, rows: seq<Row>)

  function ColumnSet(cols: seq<string>): set<string>
  {
    set c | c in cols
  }

  predicate Distinct(cols: seq<string>)
  {
    forall i, j :: 0 <= i < j < |cols| ==> cols[i] != cols[j]
  }

  /** Column names are unique and every row has exactly one cell per column. */
  predicate WellFormed(f: Frame)
  {
    && Distinct(f.columns)
    && forall j :: 0 <= j < |f.rows| ==> f.rows[j].Keys == ColumnSet(f.columns)
  }

  /** The first of `wanted` that is not among `have`, if any. */
  function FirstMissing(wanted: seq<string>, have: seq<string>): (m: Option<string>)
    ensures m.None? <==> forall c :: c in wanted ==> c in have
    ensures m.Some? ==> m.value in wanted && m.value !in have
  {
    if wanted == [] then None
    else if wanted[0] !in have then Some(wanted[0])
    else FirstMissing(wanted[1..], have)
  }

  // ---------------------------------------------------------------------------
  // Writing cells and columns in place (the loop bodies and column assignments)
  // ---------------------------------------------------------------------------

  /** `df.loc[i, col] = v`. Setting a column that does not exist yet appends it,
      and every other row holds NaN in it. */
  function WithCell(f: Frame, i: nat, col: string, v: Value): (r: Frame)
    requires WellFormed(f) && i < |f.rows|
    ensures r.columns == if col in f.columns then f.columns else f.columns + [col]
    ensures |r.rows| == |f.rows|
    ensures forall j :: 0 <= j < |f.rows| ==> r.rows[j].Keys == f.rows[j].Keys + {col}
    ensures r.rows[i][col] == v
    ensures forall j :: 0 <= j < |f.rows| && j != i ==>
      r.rows[j][col] == if col in f.columns then f.rows[j][col] else NaN
    ensures forall j, c :: 0 <= j < |f.rows| && c in f.rows[j] && c != col ==> r.rows[j][c] == f.rows[j][c]
  {
    if col in f.columns then
      Frame(f.columns, f.rows[i := f.rows[i][col := v]])
    else
      var rows := seq(|f.rows|, j requires 0 <= j < |f.rows| => f.rows[j][col := if j == i then v else NaN]);
      Frame(f.columns + [col], rows)
  }

  /** Writing a cell keeps the table well formed. */
  lemma WithCellWellFormed(f: Frame, i: nat, col: string, v: Value)
    requires WellFormed(f) && i < |f.rows|
    ensures WellFormed(WithCell(f, i, col, v))
  {
    if col !in f.columns {
      assert ColumnSet(f.columns + [col]) == ColumnSet(f.columns) + {col};
    }
  }

  /** `df[col] = v` for a single value `v`: every row holds `v` in that column. */
  function WithColumn(f: Frame, col: string, v: Value): (r: Frame)
    requires WellFormed(f)
    ensures WellFormed(r)
    ensures r.columns == if col in f.columns then f.columns else f.columns + [col]
    ensures |r.rows| == |f.rows|
    ensures forall j :: 0 <= j < |f.rows| ==> r.rows[j][col] == v
    ensures forall j, c :: 0 <= j < |f.rows| && c in f.rows[j] && c != col ==> r.rows[j][c] == f.rows[j][c]
  {
    var cols := if col in f.columns then f.columns else f.columns + [col];
    assert ColumnSet(cols) == ColumnSet(f.columns) + {col};
    Frame(cols, seq(|f.rows|, j requires 0 <= j < |f.rows| => f.rows[j][col := v]))
  }

  /** A cell `round(2)` accepts: a number or NaN. */
  predicate Numeric(v: Value)
  {
    v.Num? || v.NaN?
  }

  /** `round(2)` of one cell: numbers are rounded to hundredths, NaN stays NaN. */
  function RoundCell(v: Value): (w: Value)
    requires Numeric(v)
    ensures Numeric(w) && (v.NaN? <==> w.NaN?)
    ensures v.Num? ==> IsHundredths(w.r) && -0.005 <= w.r - v.r <= 0.005
  {
    if v.Num? then
      Round2Spec(v.r);
      Num(Round2(v.r))
    else v
  }

  /** The column holds only numbers and NaN. */
  predicate NumericColumn(f: Frame, col: string)
    requires WellFormed(f) && col in f.columns
  {
    forall j :: 0 <= j < |f.rows| ==> Numeric(f.rows[j][col])
  }

  /** `df.col = df.col.round(2)`: the whole column rounded to two decimals, nothing
      else touched. A missing column is an AttributeError, a non-numeric cell a TypeError. */
  function RoundedColumn(f: Frame, col: string): (r: Result<Frame>)
    requires WellFormed(f)
    ensures r.Err? <==> col !in f.columns || !NumericColumn(f, col)
    ensures r.Err? ==> r.error == (if col !in f.columns then MissingColumn(col) else NotNumeric(col))
    ensures r.Ok? ==> WellFormed(r.value) && r.value.columns == f.columns && |r.value.rows| == |f.rows|
    ensures r.Ok? ==> forall j :: 0 <= j < |f.rows| ==> r.value.rows[j][col] == RoundCell(f.rows[j][col])
    ensures r.Ok? ==> forall j, c :: 0 <= j < |f.rows| && c in f.rows[j] && c != col ==> r.value.rows[j][c] == f.rows[j][c]
  {
    if col !in f.columns then Err(MissingColumn(col))
    else if !NumericColumn(f, col) then Err(NotNumeric(col))
    else Ok(Frame(f.columns, seq(|f.rows|, j requires 0 <= j < |f.rows| => f.rows[j][col := RoundCell(f.rows[j][col])])))
  }

  /** Rounding a column that was just rounded changes nothing. */
  lemma RoundedColumnIdempotent(f: Frame, col: string)
    requires WellFormed(f)
    requires RoundedColumn(f, col).Ok?
    ensures RoundedColumn(RoundedColumn(f, col).value, col) == RoundedColumn(f, col)
  {
    var g := RoundedColumn(f, col).value;
    assert NumericColumn(g, col);
    var h := RoundedColumn(g, col).value;
    forall j | 0 <= j < |g.rows|
      ensures h.rows[j] == g.rows[j]
    {
      if g.rows[j][col].Num? {
        Round2Idempotent(f.rows[j][col].r);
      }
      assert h.rows[j][col] == g.rows[j][col];
    }
    assert h.rows == g.rows;
  }

  // ---------------------------------------------------------------------------
  // Selecting rows
  // ---------------------------------------------------------------------------

  /** The row's `col` cell is a string starting with `prefix`. */
  predicate HasPrefix(row: Row, col: string, prefix: string)
  {
    col in row && row[col].Str? && StartsWith(row[col].s, prefix)
  }

  /** The rows that have the prefix, in their original order. */
  function KeepPrefixed(rows: seq<Row>, col: string, prefix: string): (kept: seq<Row>)
    ensures |kept| <= |rows|
    ensures forall row :: row in kept ==> row in rows && HasPrefix(row, col, prefix)
  {
    if rows == [] then []
    else
      var last := rows[|rows| - 1];
      KeepPrefixed(rows[..|rows| - 1], col, prefix) + (if HasPrefix(last, col, prefix) then [last] else [])
  }

  /** The positions of the rows `KeepPrefixed` keeps. */
  function KeptIndices(rows: seq<Row>, col: string, prefix: string): (idx: seq<nat>)
  {
    if rows == [] then []
    else
      KeptIndices(rows[..|rows| - 1], col, prefix) + (if HasPrefix(rows[|rows| - 1], col, prefix) then [|rows| - 1] else [])
  }

  /** The positions `KeptIndices` lists are increasing positions of `rows`, and
      they are exactly the positions of the rows with the prefix. */
  lemma {:induction false} KeptIndicesExactly(rows: seq<Row>, col: string, prefix: string)
    ensures var idx := KeptIndices(rows, col, prefix);
      && (forall k :: 0 <= k < |idx| ==> idx[k] < |rows|)
      && (forall k, m :: 0 <= k < m < |idx| ==> idx[k] < idx[m])
      && (forall i :: 0 <= i < |rows| ==> (HasPrefix(rows[i], col, prefix) <==> i in idx))
  {
    if rows != [] {
      var front := rows[..|rows| - 1];
      KeptIndicesExactly(front, col, prefix);
      assert forall i :: 0 <= i < |front| ==> front[i] == rows[i];
    }
  }

  /** The k-th kept row is the row at the k-th kept position. */
  lemma {:induction false} KeptRowsAtIndices(rows: seq<Row>, col: string, prefix: string)
    ensures var kept, idx := KeepPrefixed(rows, col, prefix), KeptIndices(rows, col, prefix);
      && |idx| == |kept|
      && (forall k :: 0 <= k < |idx| ==> idx[k] < |rows| && kept[k] == rows[idx[k]])
  {
    if rows != [] {
      var front := rows[..|rows| - 1];
      KeptRowsAtIndices(front, col, prefix);
      var kept0, idx0 := KeepPrefixed(front, col, prefix), KeptIndices(front, col, prefix);
      var kept, idx := KeepPrefixed(rows, col, prefix), KeptIndices(rows, col, prefix);
      var last := rows[|rows| - 1];
      if HasPrefix(last, col, prefix) {
        assert kept == kept0 + [last] && idx == idx0 + [|rows| - 1];
      } else {
        assert kept == kept0 && idx == idx0;
      }
      forall k | 0 <= k < |idx0|
        ensures idx[k] < |rows| && kept[k] == rows[idx[k]]
      {
        assert idx[k] == idx0[k] && kept[k] == kept0[k] && front[idx0[k]] == rows[idx0[k]];
      }
    }
  }

  /** The filter keeps exactly the rows with the prefix, each once, in their
      original order: the k-th kept row is the row at the k-th increasing position
      that has the prefix, and every position with the prefix is among them. */
  lemma KeepPrefixedExactly(rows: seq<Row>, col: string, prefix: string)
    ensures var kept, idx := KeepPrefixed(rows, col, prefix), KeptIndices(rows, col, prefix);
      && |idx| == |kept|
      && (forall k :: 0 <= k < |idx| ==> idx[k] < |rows| && kept[k] == rows[idx[k]])
      && (forall k, m :: 0 <= k < m < |idx| ==> idx[k] < idx[m])
      && (forall i :: 0 <= i < |rows| ==> (HasPrefix(rows[i], col, prefix) <==> i in idx))
  {
    KeptIndicesExactly(rows, col, prefix);
    KeptRowsAtIndices(rows, col, prefix);
  }

  /** `df[df[col].str.startswith(prefix)]`. A missing column is a KeyError; a cell
      that is not a string makes the mask NaN there, which pandas refuses (ValueError). */
  function FilterByPrefix(f: Frame, col: string, prefix: string): (r: Result<Frame>)
    requires WellFormed(f)
    ensures r.Err? <==> col !in f.columns || exists j :: 0 <= j < |f.rows| && !f.rows[j][col].Str?
    ensures r.Ok? ==> WellFormed(r.value) && r.value.columns == f.columns
    ensures r.Ok? ==> r.value.rows == KeepPrefixed(f.rows, col, prefix)
    ensures r.Ok? ==> forall row: Row :: row in r.value.rows <==> row in f.rows && HasPrefix(row, col, prefix)
  {
    if col !in f.columns then Err(MissingColumn(col))
    else if exists j :: 0 <= j < |f.rows| && !f.rows[j][col].Str? then Err(NotText(col))
    else
      var kept := KeepPrefixed(f.rows, col, prefix);
      KeepPrefixedExactly(f.rows, col, prefix);
      Ok(Frame(f.columns, kept))
  }

  // ---------------------------------------------------------------------------
  // Selecting, dropping and renaming columns
  // ---------------------------------------------------------------------------

  /** `cols` without the names in `drop`, order kept. */
  function Without(cols: seq<string>, drop: set<string>): (r: seq<string>)
    ensures forall c :: c in r <==> c in cols && c !in drop
    ensures Distinct(cols) ==> Distinct(r)
  {
    if cols == [] then []
    else (if cols[0] in drop then [] else [cols[0]]) + Without(cols[1..], drop)
  }

  /** `df.drop(columns=drop)`: every named column must exist (KeyError otherwise);
      all other columns and all cells of them are kept. */
  function DropColumns(f: Frame, drop: seq<string>): (r: Result<Frame>)
    requires WellFormed(f)
    ensures r.Err? <==> exists c :: c in drop && c !in f.columns
    ensures r.Ok? ==> WellFormed(r.value) && |r.value.rows| == |f.rows|
    ensures r.Ok? ==> forall c :: c in r.value.columns <==> c in f.columns && c !in drop
    ensures r.Ok? ==> forall j, c :: 0 <= j < |f.rows| && c in f.columns && c !in drop ==>
      c in r.value.rows[j] && r.value.rows[j][c] == f.rows[j][c]
  {
    match FirstMissing(drop, f.columns)
    case Some(c) => Err(MissingColumn(c))
    case None =>
      var gone := ColumnSet(drop);
      var cols := Without(f.columns, gone);
      assert ColumnSet(cols) == ColumnSet(f.columns) - gone;
      Ok(Frame(cols, seq(|f.rows|, j requires 0 <= j < |f.rows| => f.rows[j] - gone)))
  }

  /** `df[cols]`: exactly these columns, in this order (KeyError for a missing one). */
  function SelectColumns(f: Frame, cols: seq<string>): (r: Result<Frame>)
    requires WellFormed(f) && Distinct(cols)
    ensures r.Err? <==> exists c :: c in cols && c !in f.columns
    ensures r.Ok? ==> WellFormed(r.value) && r.value.columns == cols && |r.value.rows| == |f.rows|
    ensures r.Ok? ==> forall j, c :: 0 <= j < |f.rows| && c in cols ==> r.value.rows[j][c] == f.rows[j][c]
  {
    match FirstMissing(cols, f.columns)
    case Some(c) => Err(MissingColumn(c))
    case None =>
      var keep := ColumnSet(cols);
      Ok(Frame(cols, seq(|f.rows|, j requires 0 <= j < |f.rows| => map c | c in keep :: f.rows[j][c])))
  }

  /** The name a column has after `rename(columns=names)`: unlisted names are kept. */
  function Renamed(c: string, names: map<string, string>): string
  {
    if c in names then names[c] else c
  }

  /** No two columns end up with the same name. */
  predicate RenameKeepsDistinct(cols: seq<string>, names: map<string, string>)
  {
    forall i, j :: 0 <= i < j < |cols| ==> Renamed(cols[i], names) != Renamed(cols[j], names)
  }

  /** No two cells of `row` get the same name. */
  predicate RenameInjective(row: Row, names: map<string, string>)
  {
    forall c, d :: c in row && d in row && c != d ==> Renamed(c, names) != Renamed(d, names)
  }

  function RenameRow(row: Row, names: map<string, string>): (r: Row)
    requires RenameInjective(row, names)
    ensures r.Keys == set c | c in row :: Renamed(c, names)
    ensures forall c :: c in row ==> r[Renamed(c, names)] == row[c]
  {
    map c | c in row :: Renamed(c, names) := row[c]
  }

  /** The column list after renaming, position by position. */
  function RenamedNames(cols: seq<string>, names: map<string, string>): (r: seq<string>)
    ensures |r| == |cols| && forall i :: 0 <= i < |cols| ==> r[i] == Renamed(cols[i], names)
  {
    seq(|cols|, i requires 0 <= i < |cols| => Renamed(cols[i], names))
  }

  lemma RowRenameInjective(f: Frame, names: map<string, string>, j: nat)
    requires WellFormed(f) && RenameKeepsDistinct(f.columns, names) && j < |f.rows|
    ensures RenameInjective(f.rows[j], names)
  {
    forall c, d | c in f.rows[j] && d in f.rows[j] && c != d
      ensures Renamed(c, names) != Renamed(d, names)
    {
      assert c in ColumnSet(f.columns) && d in ColumnSet(f.columns);
      var i :| 0 <= i < |f.columns| && f.columns[i] == c;
      var k :| 0 <= k < |f.columns| && f.columns[k] == d;
      assert i != k;
    }
  }

  lemma RenamedRowKeys(f: Frame, names: map<string, string>, j: nat)
    requires WellFormed(f) && RenameKeepsDistinct(f.columns, names) && j < |f.rows|
    requires RenameInjective(f.rows[j], names)
    ensures RenameRow(f.rows[j], names).Keys == ColumnSet(RenamedNames(f.columns, names))
  {
    var cols := RenamedNames(f.columns, names);
    var r := RenameRow(f.rows[j], names);
    forall c | c in ColumnSet(cols)
      ensures c in r.Keys
    {
      var i :| 0 <= i < |cols| && cols[i] == c;
      assert f.columns[i] in f.rows[j];
    }
    forall c | c in r.Keys
      ensures c in ColumnSet(cols)
    {
      var d :| d in f.rows[j] && Renamed(d, names) == c;
      assert d in ColumnSet(f.columns);
      var i :| 0 <= i < |f.columns| && f.columns[i] == d;
      assert cols[i] == c;
    }
  }

  /** `df.rename(columns=names)`: columns listed in `names` get their new name, in
      place; names not among the columns are ignored; every cell keeps its value. */
  function RenameColumns(f: Frame, names: map<string, string>): (r: Frame)
    requires WellFormed(f) && RenameKeepsDistinct(f.columns, names)
    ensures WellFormed(r)
    ensures |r.columns| == |f.columns|
    ensures forall i :: 0 <= i < |f.columns| ==> r.columns[i] == Renamed(f.columns[i], names)
    ensures |r.rows| == |f.rows|
    ensures forall j, c :: 0 <= j < |f.rows| && c in f.columns ==> r.rows[j][Renamed(c, names)] == f.rows[j][c]
  {
    var cols := RenamedNames(f.columns, names);
    forall j | 0 <= j < |f.rows|
      ensures RenameInjective(f.rows[j], names)
      ensures RenameRow(f.rows[j], names).Keys == ColumnSet(cols)
    {
      RowRenameInjective(f, names, j);
      RenamedRowKeys(f, names, j);
    }
    var rows := seq(|f.rows|, j requires 0 <= j < |f.rows| => RenameRow(f.rows[j], names));
    Frame(cols, rows)
  }

  // ---------------------------------------------------------------------------
  // Inner equality join
  // ---------------------------------------------------------------------------

  /** The key column is present in every row. */
  predicate KeyedBy(rows: seq<Row>, key: string)
  {
    forall j :: 0 <= j < |rows| ==> key in rows[j]
  }

  /** One left row combined with each right row whose key equals its key, in right order. */
  function MatchesOf(l: Row, rs: seq<Row>, lk: string, rk: string): (m: seq<Row>)
    requires lk in l && KeyedBy(rs, rk)
  {
    if rs == [] then []
    else (if rs[0][rk] == l[lk] then [l + rs[0]] else []) + MatchesOf(l, rs[1..], lk, rk)
  }

  /** All matching pairs, left row by left row. */
  function JoinRows(ls: seq<Row>, rs: seq<Row>, lk: string, rk: string): (m: seq<Row>)
    requires KeyedBy(ls, lk) && KeyedBy(rs, rk)
  {
    if ls == [] then []
    else MatchesOf(ls[0], rs, lk, rk) + JoinRows(ls[1..], rs, lk, rk)
  }

  lemma {:induction false} MatchesOfMembership(l: Row, rs: seq<Row>, lk: string, rk: string, out: Row)
    requires lk in l && KeyedBy(rs, rk)
    ensures out in MatchesOf(l, rs, lk, rk) <==> exists j :: 0 <= j < |rs| && rs[j][rk] == l[lk] && out == l + rs[j]
  {
    if rs != [] {
      MatchesOfMembership(l, rs[1..], lk, rk, out);
      if out in MatchesOf(l, rs[1..], lk, rk) {
        var j :| 0 <= j < |rs[1..]| && rs[1..][j][rk] == l[lk] && out == l + rs[1..][j];
        assert rs[j + 1] == rs[1..][j];
      }
      if exists j :: 0 <= j < |rs| && rs[j][rk] == l[lk] && out == l + rs[j] {
        var j :| 0 <= j < |rs| && rs[j][rk] == l[lk] && out == l + rs[j];
        if j > 0 {
          assert rs[1..][j - 1] == rs[j];
        }
      }
    }
  }

  /** The join holds a combined row exactly when some left row and some right row
      have equal keys: rows without a partner on the other side are dropped. */
  lemma {:induction false} JoinRowsMembership(ls: seq<Row>, rs: seq<Row>, lk: string, rk: string, out: Row)
    requires KeyedBy(ls, lk) && KeyedBy(rs, rk)
    ensures out in JoinRows(ls, rs, lk, rk) <==>
      exists i, j :: 0 <= i < |ls| && 0 <= j < |rs| && ls[i][lk] == rs[j][rk] && out == ls[i] + rs[j]
  {
    if ls != [] {
      MatchesOfMembership(ls[0], rs, lk, rk, out);
      JoinRowsMembership(ls[1..], rs, lk, rk, out);
      if out in JoinRows(ls[1..], rs, lk, rk) {
        var i, j :| 0 <= i < |ls[1..]| && 0 <= j < |rs| && ls[1..][i][lk] == rs[j][rk] && out == ls[1..][i] + rs[j];
        assert ls[i + 1] == ls[1..][i];
      }
      if exists i, j :: 0 <= i < |ls| && 0 <= j < |rs| && ls[i][lk] == rs[j][rk] && out == ls[i] + rs[j] {
        var i, j :| 0 <= i < |ls| && 0 <= j < |rs| && ls[i][lk] == rs[j][rk] && out == ls[i] + rs[j];
        if i > 0 {
          assert ls[1..][i - 1] == ls[i];
        }
      }
    }
  }

  lemma {:induction false} JoinRowsKeys(ls: seq<Row>, rs: seq<Row>, lk: string, rk: string, keys: set<string>)
    requires KeyedBy(ls, lk) && KeyedBy(rs, rk)
    requires forall i, j :: 0 <= i < |ls| && 0 <= j < |rs| ==> (ls[i] + rs[j]).Keys == keys
    ensures forall out :: out in JoinRows(ls, rs, lk, rk) ==> out.Keys == keys
  {
    forall out | out in JoinRows(ls, rs, lk, rk)
      ensures out.Keys == keys
    {
      JoinRowsMembership(ls, rs, lk, rk, out);
    }
  }

  /** Every pair of rows with equal keys appears in the join. */
  lemma JoinRowsHasPairs(ls: seq<Row>, rs: seq<Row>, lk: string, rk: string)
    requires KeyedBy(ls, lk) && KeyedBy(rs, rk)
    ensures forall i, j :: 0 <= i < |ls| && 0 <= j < |rs| && ls[i][lk] == rs[j][rk] ==> ls[i] + rs[j] in JoinRows(ls, rs, lk, rk)
  {
    forall i, j | 0 <= i < |ls| && 0 <= j < |rs| && ls[i][lk] == rs[j][rk]
      ensures ls[i] + rs[j] in JoinRows(ls, rs, lk, rk)
    {
      JoinRowsMembership(ls, rs, lk, rk, ls[i] + rs[j]);
    }
  }

  /** Two lists of distinct names with no name in common concatenate to a list of
      distinct names. */
  lemma ConcatDistinct(a: seq<string>, b: seq<string>)
    requires Distinct(a) && Distinct(b) && ColumnSet(a) !! ColumnSet(b)
    ensures Distinct(a + b) && ColumnSet(a + b) == ColumnSet(a) + ColumnSet(b)
  {
    var ab := a + b;
    forall i, j | 0 <= i < j < |ab|
      ensures ab[i] != ab[j]
    {
      if i < |a| && j >= |a| {
        assert ab[i] in ColumnSet(a) && ab[j] in ColumnSet(b);
      }
    }
    assert ColumnSet(ab) == ColumnSet(a) + ColumnSet(b);
  }

  /** `pd.merge(left, right, left_on=lk, right_on=rk, how="inner")`: a KeyError when
      a key column is missing; otherwise the columns of both sides, and one row per
      pair of left and right rows with equal keys. */
  function InnerJoin(left: Frame, right: Frame, lk: string, rk: string): (r: Result<Frame>)
    requires WellFormed(left) && WellFormed(right)
    requires ColumnSet(left.columns) !! ColumnSet(right.columns)
    ensures r.Err? <==> lk !in left.columns || rk !in right.columns
    ensures r.Ok? ==> WellFormed(r.value) && r.value.columns == left.columns + right.columns
    ensures r.Ok? ==> forall i, j ::
      0 <= i < |left.rows| && 0 <= j < |right.rows| && left.rows[i][lk] == right.rows[j][rk]
      ==> left.rows[i] + right.rows[j] in r.value.rows
  {
    if lk !in left.columns then Err(MissingColumn(lk))
    else if rk !in right.columns then Err(MissingColumn(rk))
    else
      var rows := JoinRows(left.rows, right.rows, lk, rk);
      var cols := left.columns + right.columns;
      ConcatDistinct(left.columns, right.columns);
      JoinRowsKeys(left.rows, right.rows, lk, rk, ColumnSet(cols));
      JoinRowsHasPairs(left.rows, right.rows, lk, rk);
      Ok(Frame(cols, rows))
  }

  /** The join holds nothing else: every joined row is a left row next to a right
      row with an equal key. */
  lemma InnerJoinOnlyPairs(left: Frame, right: Frame, lk: string, rk: string, out: Row)
    requires WellFormed(left) && WellFormed(right)
    requires ColumnSet(left.columns) !! ColumnSet(right.columns)
    requires InnerJoin(left, right, lk, rk).Ok? && out in InnerJoin(left, right, lk, rk).value.rows
    ensures exists i, j ::
      0 <= i < |left.rows| && 0 <= j < |right.rows| && left.rows[i][lk] == right.rows[j][rk] && out == left.rows[i] + right.rows[j]
  {
    JoinRowsMembership(left.rows, right.rows, lk, rk, out);
  }

  /** In every joined row the two key columns hold the same value. */
  lemma JoinedKeysAgree(left: Frame, right: Frame, lk: string, rk: string)
    requires WellFormed(left) && WellFormed(right)
    requires ColumnSet(left.columns) !! ColumnSet(right.columns)
    requires lk in left.columns && rk in right.columns
    ensures forall out :: out in InnerJoin(left, right, lk, rk).value.rows ==> lk in out && rk in out && out[lk] == out[rk]
  {
    forall out | out in InnerJoin(left, right, lk, rk).value.rows
      ensures lk in out && rk in out && out[lk] == out[rk]
    {
      InnerJoinOnlyPairs(left, right, lk, rk, out);
      var i, j :| 0 <= i < |left.rows| && 0 <= j < |right.rows| &&
        left.rows[i][lk] == right.rows[j][rk] && out == left.rows[i] + right.rows[j];
      assert lk in ColumnSet(left.columns) && lk !in ColumnSet(right.columns);
      assert lk in left.rows[i] && lk !in right.rows[j] && rk in right.rows[j];
    }
  }

  // ---------------------------------------------------------------------------
  // Geometry columns
  // ---------------------------------------------------------------------------

  /** The geometry column, row by row: `None` where a row has no geometry. */
  function Geometries(f: Frame): (gs: seq<Option<Shape>>)
    ensures |gs| == |f.rows|
    ensures forall j :: 0 <= j < |f.rows| ==> (gs[j].Some? <==> "geometry" in f.rows[j] && f.rows[j]["geometry"].Geo?)
    ensures forall j :: 0 <= j < |f.rows| && gs[j].Some? ==> gs[j].value == f.rows[j]["geometry"].g
  {
    seq(|f.rows|, j requires 0 <= j < |f.rows| =>
      if "geometry" in f.rows[j] && f.rows[j]["geometry"].Geo? then Some(f.rows[j]["geometry"].g) else None)
  }
}
