/** The shared price table and apply_transformations, which walks over the
    tickers and writes five derived columns into the table in place. */
module Transform {
  import opened Series
  import opened Rolling
  import opened Indicators

  /** The five columns the transformation writes, in the order it writes them. */
  const DerivedNames: seq<string> := ["SMA_20", "EMA_20", "Bollinger_Upper", "Bollinger_Lower", "RSI_14"]

  const CloseName: string := "Close"

  /** The five derived series of one ticker's closing prices, in the order of
      DerivedNames. */
  function DerivedSeries(close: Series, sqrt: real -> real): (r: seq<Series>)
    ensures |r| == |DerivedNames|
    ensures forall k :: 0 <= k < |r| ==> |r[k]| == |close|
  {
    var bands := BollingerBands(close, 20, sqrt);
    [Sma(close, 20), Ema(close, 20), bands.upper, bands.lower, Rsi(close, 14)]
  }

  predicate Distinct(cols: seq<string>)
  {
    forall i, j :: 0 <= i < j < |cols| ==> cols[i] != cols[j]
  }

  /** The derived names are five different columns, none of them the closing price. */
  lemma DerivedNamesDistinct()
    ensures Distinct(DerivedNames) && CloseName !in DerivedNames
  {
    assert |DerivedNames[0]| == |DerivedNames[1]| == |DerivedNames[4]| == 6;
    assert |DerivedNames[2]| == |DerivedNames[3]| == 15 && |CloseName| == 5;
    assert DerivedNames[0][0] == 'S' && DerivedNames[1][0] == 'E' && DerivedNames[4][0] == 'R';
    assert DerivedNames[2][10] == 'U' && DerivedNames[3][10] == 'L';
  }

  // ---------------------------------------------------------------------------
  // Column order

  /** The column order after assigning to column c: a new column goes to the end. */
  function WithColumn(cols: seq<string>, c: string): (r: seq<string>)
    ensures forall d :: d in r <==> d in cols || d == c
    ensures cols <= r
  {
    if c in cols then cols else cols + [c]
  }

  /** The column order after assigning to the columns in names, one after the other. */
  function WithColumns(cols: seq<string>, names: seq<string>): seq<string>
    decreases |names|
  {
    if names == [] then cols else WithColumns(WithColumn(cols, names[0]), names[1..])
  }

  /** Assigning to a list of columns keeps the existing columns first and in their
      order, adds exactly the missing names and never duplicates a column. */
  lemma {:induction false} WithColumnsShape(cols: seq<string>, names: seq<string>)
    ensures cols <= WithColumns(cols, names)
    ensures forall d :: d in WithColumns(cols, names) <==> d in cols || d in names
    ensures Distinct(cols) ==> Distinct(WithColumns(cols, names))
    decreases |names|
  {
    if names != [] {
      var next := WithColumn(cols, names[0]);
      WithColumnsShape(next, names[1..]);
      assert forall d :: d in names <==> d == names[0] || d in names[1..];
      if Distinct(cols) && names[0] !in cols {
        assert Distinct(next) by {
          forall i, j | 0 <= i < j < |next|
            ensures next[i] != next[j]
          {
            if j == |cols| {
              assert next[i] == cols[i];
            }
          }
        }
      }
    }
  }

  /** Assigning to columns that all exist already leaves the order alone. */
  lemma {:induction false} WithColumnsPresent(cols: seq<string>, names: seq<string>)
    requires forall d :: d in names ==> d in cols
    ensures WithColumns(cols, names) == cols
    decreases |names|
  {
    if names != [] {
      assert names[0] in names;
      assert forall d :: d in names[1..] ==> d in names;
      WithColumnsPresent(cols, names[1..]);
    }
  }

  /** Running the transformation a second time does not change the column order. */
  lemma WithColumnsIdempotent(cols: seq<string>, names: seq<string>)
    ensures WithColumns(WithColumns(cols, names), names) == WithColumns(cols, names)
  {
    WithColumnsShape(cols, names);
    WithColumnsPresent(WithColumns(cols, names), names);
  }

  // ---------------------------------------------------------------------------
  // Cells: for every column, each ticker's slice of it

  type Cells = map<string, map<string, Series>>

  /** Every column has a slice for every ticker, of that ticker's number of dates,
      and the columns are exactly the listed ones, each listed once. */
  ghost predicate Shaped(rows: map<string, nat>, columns: seq<string>, cells: Cells)
  {
    && (forall c :: c in columns <==> c in cells)
    && Distinct(columns)
    && (forall c :: c in cells ==> cells[c].Keys == rows.Keys)
    && (forall c, tk :: c in cells && tk in rows ==> |cells[c][tk]| == rows[tk])
  }

  /** A column newly created by a partial assignment: missing everywhere. */
  function Unset(rows: map<string, nat>): (m: map<string, Series>)
    ensures m.Keys == rows.Keys
    ensures forall tk :: tk in rows ==> m[tk] == Missing(rows[tk])
  {
    map tk | tk in rows :: Missing(rows[tk])
  }

  /** The cells after data.loc[tk, col] = s. */
  function Assign(cells: Cells, rows: map<string, nat>, tk: string, col: string, s: Series): Cells
  {
    cells[col := (if col in cells then cells[col] else Unset(rows))[tk := s]]
  }

  /** data.loc[tk, col] = s adds col to the columns if needed, sets ticker tk's slice
      of col to s, leaves every other column and every other ticker's slice of col
      as it was, and fills the other tickers' rows of a new column with NaN. */
  lemma AssignEffect(cells: Cells, rows: map<string, nat>, tk: string, col: string, s: Series)
    ensures var r := Assign(cells, rows, tk, col, s);
            && r.Keys == cells.Keys + {col}
            && r[col].Keys == (if col in cells then cells[col].Keys else rows.Keys) + {tk}
            && r[col][tk] == s
            && (forall c :: c in cells && c != col ==> r[c] == cells[c])
            && (col in cells ==> forall o :: o in cells[col] && o != tk ==> r[col][o] == cells[col][o])
            && (col !in cells ==> forall o :: o in rows && o != tk ==> r[col][o] == Missing(rows[o]))
  {
  }

  /** A slice assignment of the right length keeps the table's shape, with a new
      column appended to the order. */
  lemma AssignShaped(rows: map<string, nat>, columns: seq<string>, cells: Cells, tk: string, col: string, s: Series)
    requires Shaped(rows, columns, cells) && tk in rows && |s| == rows[tk]
    ensures Shaped(rows, WithColumn(columns, col), Assign(cells, rows, tk, col, s))
  {
    var cols := WithColumn(columns, col);
    if col !in columns {
      assert Distinct(cols) by {
        forall i, j | 0 <= i < j < |cols|
          ensures cols[i] != cols[j]
        {
          if j == |columns| {
            assert cols[i] == columns[i];
          }
        }
      }
    }
  }

  /** The cells after assigning the series values[k] to column names[k] for ticker
      tk, for each k in turn. */
  function AssignAll(cells: Cells, rows: map<string, nat>, tk: string, names: seq<string>, values: seq<Series>): (r: Cells)
    requires |names| == |values|
    decreases |names|
  {
    if names == [] then cells
    else AssignAll(Assign(cells, rows, tk, names[0], values[0]), rows, tk, names[1..], values[1..])
  }

  /** Assigning a list of columns adds exactly those that were not there. */
  lemma {:induction false} AssignAllKeys(cells: Cells, rows: map<string, nat>, tk: string, names: seq<string>, values: seq<Series>)
    requires |names| == |values|
    ensures forall c :: c in AssignAll(cells, rows, tk, names, values) <==> c in cells || c in names
    decreases |names|
  {
    if names != [] {
      var next := Assign(cells, rows, tk, names[0], values[0]);
      AssignAllKeys(next, rows, tk, names[1..], values[1..]);
      assert forall c :: c in names <==> c == names[0] || c in names[1..];
    }
  }

  /** Assigning one ticker's slices of distinct columns leaves those slices holding
      the assigned series, every other column as it was, every other ticker's rows
      of the assigned columns as they were, and those rows missing where the column
      did not exist before. */
  lemma {:induction false} AssignAllEffect(cells: Cells, rows: map<string, nat>, tk: string, names: seq<string>, values: seq<Series>)
    requires |names| == |values| && Distinct(names)
    ensures var r := AssignAll(cells, rows, tk, names, values);
            && (forall k :: 0 <= k < |names| ==> names[k] in r && tk in r[names[k]] && r[names[k]][tk] == values[k])
            && (forall c :: c in cells && c !in names ==> c in r && r[c] == cells[c])
            && (forall c, other :: c in cells && other != tk && other in cells[c] ==>
                  c in r && other in r[c] && r[c][other] == cells[c][other])
            && (forall c, other :: c in names && c !in cells && other != tk && other in rows ==>
                  c in r && other in r[c] && r[c][other] == Missing(rows[other]))
    decreases |names|
  {
    if names != [] {
      var next := Assign(cells, rows, tk, names[0], values[0]);
      assert Distinct(names[1..]);
      AssignAllEffect(next, rows, tk, names[1..], values[1..]);
      var r := AssignAll(cells, rows, tk, names, values);
      assert r == AssignAll(next, rows, tk, names[1..], values[1..]);
      forall k | 0 <= k < |names|
        ensures names[k] in r && tk in r[names[k]] && r[names[k]][tk] == values[k]
      {
        if k == 0 {
          assert names[0] !in names[1..];
        } else {
          assert names[1..][k - 1] == names[k];
        }
      }
      assert forall c :: c in names <==> c == names[0] || c in names[1..];
    }
  }

  /** The derived columns hold, for ticker tk, the indicators of the closing prices close. */
  ghost predicate Written(cells: Cells, tk: string, close: Series, sqrt: real -> real)
  {
    forall k :: 0 <= k < |DerivedNames| ==>
      DerivedNames[k] in cells && tk in cells[DerivedNames[k]] &&
      cells[DerivedNames[k]][tk] == DerivedSeries(close, sqrt)[k]
  }

  /** Every column outside names is as it was. */
  ghost predicate KeepsOthers(before: Cells, after: Cells, names: seq<string>)
  {
    forall c :: c in before && c !in names ==> c in after && after[c] == before[c]
  }

  /** The five assignments of one loop pass, written out. */
  lemma AssignFive(cells: Cells, rows: map<string, nat>, tk: string, names: seq<string>, values: seq<Series>)
    requires |names| == 5 && |values| == 5
    ensures AssignAll(cells, rows, tk, names, values) ==
            var c0 := Assign(cells, rows, tk, names[0], values[0]);
            var c1 := Assign(c0, rows, tk, names[1], values[1]);
            var c2 := Assign(c1, rows, tk, names[2], values[2]);
            var c3 := Assign(c2, rows, tk, names[3], values[3]);
            Assign(c3, rows, tk, names[4], values[4])
  {
    var c0 := Assign(cells, rows, tk, names[0], values[0]);
    var c1 := Assign(c0, rows, tk, names[1], values[1]);
    var c2 := Assign(c1, rows, tk, names[2], values[2]);
    var c3 := Assign(c2, rows, tk, names[3], values[3]);
    var c4 := Assign(c3, rows, tk, names[4], values[4]);
    assert AssignAll(c4, rows, tk, names[5..], values[5..]) == c4;
    assert AssignAll(c3, rows, tk, names[4..], values[4..]) == c4 by {
      assert names[4..][1..] == names[5..] && values[4..][1..] == values[5..];
    }
    assert AssignAll(c2, rows, tk, names[3..], values[3..]) == c4 by {
      assert names[3..][1..] == names[4..] && values[3..][1..] == values[4..];
    }
    assert AssignAll(c1, rows, tk, names[2..], values[2..]) == c4 by {
      assert names[2..][1..] == names[3..] && values[2..][1..] == values[3..];
    }
    assert AssignAll(c0, rows, tk, names[1..], values[1..]) == c4 by {
      assert names[1..][1..] == names[2..] && values[1..][1..] == values[2..];
    }
  }

  lemma WithColumnsFive(cols: seq<string>, names: seq<string>)
    requires |names| == 5
    ensures WithColumns(cols, names) ==
            WithColumn(WithColumn(WithColumn(WithColumn(WithColumn(cols, names[0]), names[1]), names[2]), names[3]), names[4])
  {
    var c0 := WithColumn(cols, names[0]);
    var c1 := WithColumn(c0, names[1]);
    var c2 := WithColumn(c1, names[2]);
    var c3 := WithColumn(c2, names[3]);
    var c4 := WithColumn(c3, names[4]);
    assert WithColumns(c4, names[5..]) == c4;
    assert WithColumns(c3, names[4..]) == c4 by { assert names[4..][1..] == names[5..]; }
    assert WithColumns(c2, names[3..]) == c4 by { assert names[3..][1..] == names[4..]; }
    assert WithColumns(c1, names[2..]) == c4 by { assert names[2..][1..] == names[3..]; }
    assert WithColumns(c0, names[1..]) == c4 by { assert names[1..][1..] == names[2..]; }
  }

  /** One loop pass in terms of the cells: the tickers already done stay done,
      the current one becomes done, and the other columns stay as they were. */
  lemma PassPreserves(start: Cells, before: Cells, rows: map<string, nat>, close: map<string, Series>,
                      done: set<string>, tk: string, sqrt: real -> real)
    requires tk !in done && tk in close
    requires KeepsOthers(start, before, DerivedNames)
    requires forall t :: t in done ==> t in close && Written(before, t, close[t], sqrt)
    ensures var after := AssignAll(before, rows, tk, DerivedNames, DerivedSeries(close[tk], sqrt));
            && KeepsOthers(start, after, DerivedNames)
            && (forall t :: t in done + {tk} ==> Written(after, t, close[t], sqrt))
  {
    DerivedNamesDistinct();
    var after := AssignAll(before, rows, tk, DerivedNames, DerivedSeries(close[tk], sqrt));
    AssignAllEffect(before, rows, tk, DerivedNames, DerivedSeries(close[tk], sqrt));
    forall t | t in done + {tk}
      ensures Written(after, t, close[t], sqrt)
    {
      if t != tk {
        assert Written(before, t, close[t], sqrt);
        forall k | 0 <= k < |DerivedNames|
          ensures DerivedNames[k] in after && t in after[DerivedNames[k]]
          ensures after[DerivedNames[k]][t] == DerivedSeries(close[t], sqrt)[k]
        {
          assert DerivedNames[k] in before && t in before[DerivedNames[k]];
        }
      }
    }
  }

  /** What holds between loop passes: the tickers outside todo are done, the other
      columns are as they were, and before the first pass nothing has changed. */
  ghost predicate Progress(rows: map<string, nat>, columns: seq<string>, cells: Cells, todo: set<string>,
                           start: seq<string>, startCells: Cells, sqrt: real -> real)
    requires CloseName in startCells
  {
    && todo <= rows.Keys
    && (columns == if todo == rows.Keys then start else WithColumns(start, DerivedNames))
    && (todo == rows.Keys ==> cells == startCells)
    && KeepsOthers(startCells, cells, DerivedNames)
    && (forall tk :: tk in rows && tk !in todo ==>
          tk in startCells[CloseName] && Written(cells, tk, startCells[CloseName][tk], sqrt))
  }

  /** The closing prices are never overwritten. */
  lemma CloseKept(rows: map<string, nat>, columns: seq<string>, cells: Cells, todo: set<string>,
                  start: seq<string>, startCells: Cells, sqrt: real -> real)
    requires CloseName in startCells
    requires Progress(rows, columns, cells, todo, start, startCells, sqrt)
    ensures CloseName in cells && cells[CloseName] == startCells[CloseName]
  {
    DerivedNamesDistinct();
  }

  /** Once no ticker is left, the loop's postcondition holds. */
  lemma ProgressDone(rows: map<string, nat>, columns: seq<string>, cells: Cells,
                     start: seq<string>, startCells: Cells, sqrt: real -> real)
    requires CloseName in startCells
    requires Progress(rows, columns, cells, {}, start, startCells, sqrt)
    ensures columns == if rows == map[] then start else WithColumns(start, DerivedNames)
    ensures KeepsOthers(startCells, cells, DerivedNames)
    ensures rows == map[] ==> cells == startCells
    ensures forall tk :: tk in rows ==> tk in startCells[CloseName] && Written(cells, tk, startCells[CloseName][tk], sqrt)
  {
    if rows == map[] {
      assert rows.Keys == {};
    } else {
      var tk :| tk in rows;
      assert tk in rows.Keys;
    }
  }

  /** One pass over a ticker still to do keeps the progress invariant. */
  lemma ProgressStep(rows: map<string, nat>, columns: seq<string>, cells: Cells, todo: set<string>,
                     start: seq<string>, startCells: Cells, sqrt: real -> real, tk: string,
                     columnsAfter: seq<string>, cellsAfter: Cells)
    requires CloseName in startCells && startCells[CloseName].Keys == rows.Keys
    requires Progress(rows, columns, cells, todo, start, startCells, sqrt) && tk in todo
    requires CloseName in cells && cells[CloseName] == startCells[CloseName]
    requires columnsAfter == WithColumns(columns, DerivedNames)
    requires cellsAfter == AssignAll(cells, rows, tk, DerivedNames, DerivedSeries(cells[CloseName][tk], sqrt))
    ensures Progress(rows, columnsAfter, cellsAfter, todo - {tk}, start, startCells, sqrt)
  {
    DerivedNamesDistinct();
    var close := startCells[CloseName];
    var after := AssignAll(cells, rows, tk, DerivedNames, DerivedSeries(close[tk], sqrt));
    PassPreserves(startCells, cells, rows, close, rows.Keys - todo, tk, sqrt);
    if todo != rows.Keys {
      WithColumnsIdempotent(start, DerivedNames);
    }
    assert forall t :: t in rows && t !in todo - {tk} ==> t in rows.Keys - todo + {tk};
  }

  /** The combined table: for every ticker its number of dates, the column order,
      and for every column each ticker's slice of it. */
  class Table {
    var rows: map<string, nat>
    var columns: seq<string>
    var cells: Cells

    ghost predicate Valid()
      reads this
    {
      Shaped(rows, columns, cells)
    }

    constructor (rows: map<string, nat>, columns: seq<string>, cells: Cells)
      requires Shaped(rows, columns, cells)
      ensures Valid()
      ensures this.rows == rows && this.columns == columns && this.cells == cells
    {
      this.rows := rows;
      this.columns := columns;
      this.cells := cells;
    }

    /** data.loc[tk, col] = s: the ticker's slice of the column is replaced; a new
        column is appended and is missing for every other ticker. */
    method SetSlice(tk: string, col: string, s: Series)
      requires Valid() && tk in rows && |s| == rows[tk]
      modifies this`columns, this`cells
      ensures Valid() && rows == old(rows)
      ensures columns == WithColumn(old(columns), col)
      ensures cells == Assign(old(cells), rows, tk, col, s)
    {
      AssignShaped(rows, columns, cells, tk, col, s);
      var column := if col in cells then cells[col] else Unset(rows);
      if col !in columns {
        columns := columns + [col];
      }
      cells := cells[col := column[tk := s]];
    }

    /** One pass of the loop body: the five derived columns of one ticker, each
        computed from that ticker's closing prices. */
    method WriteIndicators(tk: string, sqrt: real -> real)
      requires Valid() && tk in rows && CloseName in cells
      modifies this`columns, this`cells
      ensures Valid() && rows == old(rows)
      ensures columns == WithColumns(old(columns), DerivedNames)
      ensures cells == AssignAll(old(cells), rows, tk, DerivedNames, DerivedSeries(old(cells)[CloseName][tk], sqrt))
    {
      var close := cells[CloseName][tk];
      var values := DerivedSeries(close, sqrt);
      AssignFive(cells, rows, tk, DerivedNames, values);
      WithColumnsFive(columns, DerivedNames);
      SetSlice(tk, DerivedNames[0], values[0]);
      SetSlice(tk, DerivedNames[1], values[1]);
      SetSlice(tk, DerivedNames[2], values[2]);
      SetSlice(tk, DerivedNames[3], values[3]);
      SetSlice(tk, DerivedNames[4], values[4]);
    }

    /** One pass of the loop of apply_transformations, stated against the progress
        invariant: the ticker tk moves from the tickers to do to the tickers done. */
    method Pass(tk: string, ghost todo: set<string>, ghost start: seq<string>, ghost startCells: Cells, sqrt: real -> real)
      requires Valid() && CloseName in startCells && startCells[CloseName].Keys == rows.Keys
      requires Progress(rows, columns, cells, todo, start, startCells, sqrt) && tk in todo
      modifies this`columns, this`cells
      ensures Valid() && rows == old(rows)
      ensures Progress(rows, columns, cells, todo - {tk}, start, startCells, sqrt)
    {
      CloseKept(rows, columns, cells, todo, start, startCells, sqrt);
      ghost var columnsBefore, cellsBefore := columns, cells;
      WriteIndicators(tk, sqrt);
      ProgressStep(rows, columnsBefore, cellsBefore, todo, start, startCells, sqrt, tk, columns, cells);
    }

    /** apply_transformations: every ticker's derived columns are its own indicators,
        every other column is untouched, and a table without tickers is left alone. */
    method ApplyTransformations(sqrt: real -> real)
      requires Valid() && (rows != map[] ==> CloseName in cells)
      modifies this`columns, this`cells
      ensures Valid() && rows == old(rows)
      ensures columns == if rows == map[] then old(columns) else WithColumns(old(columns), DerivedNames)
      ensures KeepsOthers(old(cells), cells, DerivedNames)
      ensures rows == map[] ==> cells == old(cells)
      ensures forall tk :: tk in rows ==> CloseName in old(cells) && Written(cells, tk, old(cells)[CloseName][tk], sqrt)
    {
      var todo := rows.Keys;
      if todo == {} {
        // groupby yields no group, so the loop body never runs
        assert rows == map[];
        return;
      }
      ghost var start, startCells := columns, cells;
      while todo != {}
        invariant Valid() && rows == old(rows)
        invariant CloseName in startCells && startCells[CloseName].Keys == rows.Keys
        invariant Progress(rows, columns, cells, todo, start, startCells, sqrt)
        decreases todo
      {
        var tk :| tk in todo;
        Pass(tk, todo, start, startCells, sqrt);
        todo := todo - {tk};
      }
      ProgressDone(rows, columns, cells, start, startCells, sqrt);
    }
  }
}
