/** A tab-separated table read into memory: an ordered list of column names
    and an ordered list of rows, each row mapping every column name to its
    cell. `Frame` is the mutable table object that the statistics script
    extends column by column. */
module Tables {
  import opened Seqs

  /** One cell: text (a variant identifier, a note), a number, or NaN (an
      empty cell, or the float result of 0 / 0). Integer columns are held as
      the equal real number. */
  datatype Cell = Str(s: string) | Num(x: real) | NaN

  type Row = map<string, Cell>

  datatype Table = Table(columns: seq<string>, rows: seq<Row>)

  /** The set of column names of `t`. */
  function ColumnSet(t: Table): set<string>
  {
    set c | c in t.columns
  }

  /** Column names are unique (the reader renames repeated headers) and every
      row has a cell under every column and nowhere else. */
  ghost predicate WellFormed(t: Table)
  {
    && Distinct(t.columns)
    && forall i :: 0 <= i < |t.rows| ==> t.rows[i].Keys == ColumnSet(t)
  }

  /** `t["name"] = values`: positional assignment of one value per row. An
      existing column is overwritten where it stands; a new one is appended
      as the last column. */
  function WithColumn(t: Table, name: string, values: seq<Cell>): (r: Table)
    requires |values| == |t.rows|
    ensures |r.rows| == |t.rows|
    ensures r.columns == if name in t.columns then t.columns else t.columns + [name]
    ensures forall i :: 0 <= i < |r.rows| ==> r.rows[i].Keys == t.rows[i].Keys + {name}
    ensures forall i :: 0 <= i < |r.rows| ==> r.rows[i][name] == values[i]
    ensures forall i, c :: 0 <= i < |r.rows| && c in t.rows[i] && c != name ==> r.rows[i][c] == t.rows[i][c]
  {
    Table(if name in t.columns then t.columns else t.columns + [name],
          seq(|t.rows|, i requires 0 <= i < |t.rows| => t.rows[i][name := values[i]]))
  }

  /** Assigning a column keeps a table well formed. */
  lemma WithColumnWellFormed(t: Table, name: string, values: seq<Cell>)
    requires WellFormed(t) && |values| == |t.rows|
    ensures WellFormed(WithColumn(t, name, values))
    ensures ColumnSet(WithColumn(t, name, values)) == ColumnSet(t) + {name}
  {
    var r := WithColumn(t, name, values);
    assert ColumnSet(r) == ColumnSet(t) + {name};
  }

  /** Re-assigning a column the values it already holds changes nothing. */
  lemma {:induction false} WithColumnSameValues(t: Table, name: string, values: seq<Cell>)
    requires WellFormed(t) && name in t.columns && |values| == |t.rows|
    requires forall i :: 0 <= i < |t.rows| ==> t.rows[i][name] == values[i]
    ensures WithColumn(t, name, values) == t
  {
    var r := WithColumn(t, name, values);
    forall i | 0 <= i < |t.rows|
      ensures r.rows[i] == t.rows[i]
    {
      assert name in t.rows[i];
    }
  }

  /** The names of a list of column assignments, in order. */
  function Names(cols: seq<(string, seq<Cell>)>): seq<string>
  {
    seq(|cols|, j requires 0 <= j < |cols| => cols[j].0)
  }

  /** Every assignment in `cols` provides one value per row of `t`. */
  ghost predicate Fits(t: Table, cols: seq<(string, seq<Cell>)>)
  {
    forall j :: 0 <= j < |cols| ==> |cols[j].1| == |t.rows|
  }

  /** The column assignments `cols`, made one after another. */
  function AssignAll(t: Table, cols: seq<(string, seq<Cell>)>): (r: Table)
    requires Fits(t, cols)
    ensures |r.rows| == |t.rows|
    decreases |cols|
  {
    if cols == [] then t
    else AssignAll(WithColumn(t, cols[0].0, cols[0].1), cols[1..])
  }

  /** The names of `cols` are its first name followed by the names of the rest. */
  lemma NamesTail(cols: seq<(string, seq<Cell>)>)
    requires cols != []
    ensures Names(cols) == [cols[0].0] + Names(cols[1..])
    ensures Distinct(Names(cols)) ==> Distinct(Names(cols[1..])) && cols[0].0 !in Names(cols[1..])
  {
    assert Names(cols) == [cols[0].0] + Names(cols[1..]);
    if Distinct(Names(cols)) {
      forall k | 0 <= k < |cols[1..]| ensures Names(cols[1..])[k] != cols[0].0 {
        assert Names(cols)[0] != Names(cols)[k + 1];
      }
      forall k, l | 0 <= k < l < |cols[1..]| ensures Names(cols[1..])[k] != Names(cols[1..])[l] {
        assert Names(cols)[k + 1] != Names(cols)[l + 1];
      }
    }
  }

  /** A sequence of assignments keeps a table well formed and adds exactly
      the assigned names to its columns. */
  lemma {:induction false} AssignAllColumns(t: Table, cols: seq<(string, seq<Cell>)>)
    requires WellFormed(t) && Fits(t, cols)
    ensures WellFormed(AssignAll(t, cols))
    ensures ColumnSet(AssignAll(t, cols)) == ColumnSet(t) + (set c | c in Names(cols))
    decreases |cols|
  {
    if cols != [] {
      WithColumnWellFormed(t, cols[0].0, cols[0].1);
      AssignAllColumns(WithColumn(t, cols[0].0, cols[0].1), cols[1..]);
      NamesTail(cols);
    }
  }

  /** When none of the (distinct) assigned names is a column yet, the new
      columns are appended in the order assigned. */
  lemma {:induction false} AssignAllAppends(t: Table, cols: seq<(string, seq<Cell>)>)
    requires Fits(t, cols) && Distinct(Names(cols))
    requires forall j :: 0 <= j < |cols| ==> cols[j].0 !in t.columns
    ensures AssignAll(t, cols).columns == t.columns + Names(cols)
    decreases |cols|
  {
    if cols != [] {
      var u := WithColumn(t, cols[0].0, cols[0].1);
      NamesTail(cols);
      forall j | 0 <= j < |cols[1..]|
        ensures cols[1..][j].0 !in u.columns
      {
        assert Names(cols[1..])[j] == cols[1..][j].0;
        assert cols[1..][j] == cols[j + 1];
      }
      AssignAllAppends(u, cols[1..]);
    }
  }

  /** After a sequence of assignments with distinct names, each assigned
      column holds the values assigned to it, and every other cell is as it
      was. */
  lemma {:induction false} AssignAllValues(t: Table, cols: seq<(string, seq<Cell>)>)
    requires Fits(t, cols) && Distinct(Names(cols))
    ensures forall i, j :: 0 <= i < |t.rows| && 0 <= j < |cols| ==>
              cols[j].0 in AssignAll(t, cols).rows[i] && AssignAll(t, cols).rows[i][cols[j].0] == cols[j].1[i]
    ensures forall i, c :: 0 <= i < |t.rows| && c in t.rows[i] && c !in Names(cols) ==>
              c in AssignAll(t, cols).rows[i] && AssignAll(t, cols).rows[i][c] == t.rows[i][c]
    decreases |cols|
  {
    if cols != [] {
      var u := WithColumn(t, cols[0].0, cols[0].1);
      NamesTail(cols);
      AssignAllValues(u, cols[1..]);
      var r := AssignAll(t, cols);
      forall i, j | 0 <= i < |t.rows| && 0 <= j < |cols|
        ensures cols[j].0 in r.rows[i] && r.rows[i][cols[j].0] == cols[j].1[i]
      {
        assert r == AssignAll(u, cols[1..]) && |u.rows| == |t.rows|;
        if j > 0 {
          assert cols[1..][j - 1] == cols[j];
          assert cols[1..][j - 1].0 in r.rows[i] && r.rows[i][cols[1..][j - 1].0] == cols[1..][j - 1].1[i];
        } else {
          assert cols[0].0 in u.rows[i] && u.rows[i][cols[0].0] == cols[0].1[i];
        }
      }
      forall i, c | 0 <= i < |t.rows| && c in t.rows[i] && c !in Names(cols)
        ensures c in r.rows[i] && r.rows[i][c] == t.rows[i][c]
      {
        assert c != cols[0].0;
      }
    }
  }

  /** Assigning columns the values they already hold changes nothing. */
  lemma {:induction false} AssignAllSameValues(t: Table, cols: seq<(string, seq<Cell>)>)
    requires WellFormed(t) && Fits(t, cols)
    requires forall j :: 0 <= j < |cols| ==> cols[j].0 in t.columns
    requires forall i, j :: 0 <= i < |t.rows| && 0 <= j < |cols| ==> t.rows[i][cols[j].0] == cols[j].1[i]
    ensures AssignAll(t, cols) == t
    decreases |cols|
  {
    if cols != [] {
      WithColumnSameValues(t, cols[0].0, cols[0].1);
      AssignAllSameValues(t, cols[1..]);
    }
  }

  /** Appending one more assignment is assigning it after the others. */
  lemma {:induction false} AssignAllSnoc(t: Table, cols: seq<(string, seq<Cell>)>, c: (string, seq<Cell>))
    requires Fits(t, cols + [c])
    ensures Fits(t, cols) && |AssignAll(t, cols).rows| == |c.1|
    ensures AssignAll(t, cols + [c]) == WithColumn(AssignAll(t, cols), c.0, c.1)
    decreases |cols|
  {
    assert forall j :: 0 <= j < |cols| ==> cols[j] == (cols + [c])[j];
    assert (cols + [c])[|cols|] == c;
    if cols == [] {
      assert (cols + [c])[1..] == [];
    } else {
      var u := WithColumn(t, cols[0].0, cols[0].1);
      assert (cols + [c])[0] == cols[0];
      assert (cols + [c])[1..] == cols[1..] + [c];
      AssignAllSnoc(u, cols[1..], c);
    }
  }

  /** One step of a sequence of assignments: after the first `k` have been
      made, making the next one gives the state after the first `k + 1`. */
  lemma AssignStep(t: Table, cols: seq<(string, seq<Cell>)>, k: nat)
    requires Fits(t, cols) && k < |cols|
    ensures |AssignAll(t, cols[..k]).rows| == |cols[k].1|
    ensures AssignAll(t, cols[..k + 1]) == WithColumn(AssignAll(t, cols[..k]), cols[k].0, cols[k].1)
  {
    assert cols[..k + 1] == cols[..k] + [cols[k]];
    AssignAllSnoc(t, cols[..k], cols[k]);
  }

  /** A data frame whose columns are assigned in place. */
  class Frame {
    var columns: seq<string>
    var rows: seq<Row>

    /** The table the frame currently holds. */
    function Value(): Table
      reads this
    {
      Table(columns, rows)
    }

    ghost predicate Valid()
      reads this
    {
      WellFormed(Value())
    }

    constructor (t: Table)
      requires WellFormed(t)
      ensures Valid() && Value() == t
    {
      columns, rows := t.columns, t.rows;
    }

    /** `frame[name] = values`. */
    method Assign(name: string, values: seq<Cell>)
      requires Valid() && |values| == |rows|
      modifies this
      ensures Valid() && Value() == WithColumn(old(Value()), name, values)
    {
      WithColumnWellFormed(Value(), name, values);
      var t := WithColumn(Value(), name, values);
      columns, rows := t.columns, t.rows;
    }
  }
}
