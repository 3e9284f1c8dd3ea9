/** The tabular data of the pipeline: cells, rows, tables and the in-place frame.
    A frame is a table of rows; a row maps each column name to a cell, and a cell
    is a string or missing (null / NA). */
module Tables {

  datatype Option<+T> = None | Some(value: T)

  /** The failures the modelled code can raise. */
  datatype Error =
    | MissingColumn(column: string)  // a column read by name is not in the frame
    | ConfigIsNone                   // an attribute is read from an unset configuration

  datatype Result<+T> = Ok(value: T) | Err(error: Error) {
    predicate IsFailure() { Err? }

    function PropagateFailure<U>(): Result<U>
      requires Err?
    {
      Err(error)
    }

    function Extract(): T
      requires Ok?
    {
      value
    }
  }

  /** A cell: a string, or missing. */
  type Value = Option<string>

  /** A row: column name to cell. */
  type Row = map<string, Value>

  /** A frame's value: its ordered schema and its rows in order. */
  datatype Table = Table(columns: seq<string>, rows: seq<Row>)

  predicate Distinct<T(==)>(s: seq<T>) {
    forall i, j :: 0 <= i < j < |s| ==> s[i] != s[j]
  }

  lemma DistinctTail<T>(s: seq<T>)
    requires |s| > 0 && Distinct(s)
    ensures s[0] !in s[1..] && Distinct(s[1..])
  {
    forall j | 0 <= j < |s[1..]| ensures s[1..][j] != s[0] {
      assert s[j + 1] != s[0];
    }
    forall i, j | 0 <= i < j < |s[1..]| ensures s[1..][i] != s[1..][j] {
      assert s[i + 1] != s[j + 1];
    }
  }

  function ColumnSet(columns: seq<string>): set<string> {
    set c | c in columns
  }

  /** Column names are distinct and every row has exactly the schema's columns. */
  ghost predicate WellFormed(t: Table) {
    && Distinct(t.columns)
    && forall k :: 0 <= k < |t.rows| ==> t.rows[k].Keys == ColumnSet(t.columns)
  }

  /** The cell of column `c`; a column the row lacks reads as missing. */
  function Cell(r: Row, c: string): Value {
    if c in r then r[c] else None
  }

  /** `astype("string").fillna("")`: a missing cell reads as the empty string. */
  function Str(v: Value): string {
    match v
    case None => ""
    case Some(s) => s
  }

  /** A row with no missing cell: what `dropna()` keeps. */
  predicate Complete(r: Row) {
    forall c :: c in r ==> r[c].Some?
  }

  /** `df[name] = values`: add column `name` at the end of the schema, or overwrite it. */
  function Assign(t: Table, name: string, values: seq<Value>): (u: Table)
    requires |values| == |t.rows|
    ensures |u.rows| == |t.rows|
  {
    Table(if name in t.columns then t.columns else t.columns + [name],
          seq(|t.rows|, k requires 0 <= k < |t.rows| => t.rows[k][name := values[k]]))
  }

  lemma AssignWellFormed(t: Table, name: string, values: seq<Value>)
    requires WellFormed(t) && |values| == |t.rows|
    ensures WellFormed(Assign(t, name, values))
  {
    var u := Assign(t, name, values);
    forall k | 0 <= k < |u.rows|
      ensures u.rows[k].Keys == ColumnSet(u.columns)
    {
      assert ColumnSet(u.columns) == ColumnSet(t.columns) + {name};
    }
  }

  /** The schema without the names in `names`, order kept. */
  function RemoveNames(columns: seq<string>, names: set<string>): (r: seq<string>)
    ensures forall c :: c in r <==> c in columns && c !in names
  {
    if columns == [] then []
    else (if columns[0] in names then [] else [columns[0]]) + RemoveNames(columns[1..], names)
  }

  /** The frame with the named columns removed from the schema and every row; the
      names are expected to be present (see `DropColumns`). */
  function Drop(t: Table, names: seq<string>): (u: Table)
    ensures |u.rows| == |t.rows|
  {
    var gone := set c | c in names;
    Table(RemoveNames(t.columns, gone),
          seq(|t.rows|, k requires 0 <= k < |t.rows| => t.rows[k] - gone))
  }

  /** The first of `cols` that the schema lacks, if any. */
  function FirstMissing(cols: seq<string>, schema: seq<string>): (m: Option<string>)
    ensures m.None? <==> forall c :: c in cols ==> c in schema
    ensures m.Some? ==> m.value in cols && m.value !in schema
  {
    if cols == [] then None
    else if cols[0] !in schema then Some(cols[0])
    else FirstMissing(cols[1..], schema)
  }

  /** `df.drop(names)` as the library does it: the names are removed in list order, and
      the first one the frame lacks raises. */
  function DropColumns(t: Table, names: seq<string>): (r: Result<Table>)
    ensures r.Ok? <==> forall c :: c in names ==> c in t.columns
    ensures r.Ok? ==> r.value == Drop(t, names)
    ensures r.Err? ==> exists c :: c in names && c !in t.columns && r.error == MissingColumn(c)
  {
    match FirstMissing(names, t.columns)
    case Some(c) => Err(MissingColumn(c))
    case None => Ok(Drop(t, names))
  }

  /** The rows without a missing cell, order kept. */
  function CompleteRows(rows: seq<Row>): (r: seq<Row>)
    ensures |r| <= |rows|
    ensures forall k :: 0 <= k < |r| ==> Complete(r[k]) && r[k] in rows
    ensures forall x :: x in r <==> x in rows && Complete(x)
  {
    if rows == [] then []
    else (if Complete(rows[0]) then [rows[0]] else []) + CompleteRows(rows[1..])
  }

  /** `df.dropna()`: drop every row with a missing cell in any column. */
  function DropNA(t: Table): (u: Table)
    ensures u.columns == t.columns
  {
    Table(t.columns, CompleteRows(t.rows))
  }

  function Strip(rows: seq<Row>, gone: set<string>): (s: seq<Row>)
    ensures |s| == |rows|
  {
    seq(|rows|, k requires 0 <= k < |rows| => rows[k] - gone)
  }

  lemma StripAppend(a: seq<Row>, b: seq<Row>, gone: set<string>)
    ensures Strip(a + b, gone) == Strip(a, gone) + Strip(b, gone)
  {
  }

  lemma {:induction false} CompleteRowsAppend(a: seq<Row>, b: seq<Row>)
    ensures CompleteRows(a + b) == CompleteRows(a) + CompleteRows(b)
  {
    if a == [] {
      assert a + b == b;
    } else {
      assert (a + b)[1..] == a[1..] + b;
      CompleteRowsAppend(a[1..], b);
    }
  }

  /** Two drops in a row remove both sets of names from every row. */
  lemma DropTwice(t: Table, n1: seq<string>, n2: seq<string>)
    ensures Drop(Drop(t, n1), n2).rows == Strip(t.rows, (set c | c in n1) + (set c | c in n2))
  {
    var g1, g2 := set c | c in n1, set c | c in n2;
    forall k | 0 <= k < |t.rows| ensures (t.rows[k] - g1) - g2 == t.rows[k] - (g1 + g2) {
      assert ((t.rows[k] - g1) - g2).Keys == (t.rows[k] - (g1 + g2)).Keys;
    }
  }

  lemma {:induction false} RemoveNamesAll(a: seq<string>, names: set<string>)
    requires forall c :: c in a ==> c in names
    ensures RemoveNames(a, names) == []
  {
    if a != [] {
      RemoveNamesAll(a[1..], names);
    }
  }

  lemma RemoveNamesTwice(a: seq<string>, n1: set<string>, n2: set<string>)
    ensures RemoveNames(RemoveNames(a, n1), n2) == RemoveNames(a, n1 + n2)
  {
    if a != [] {
      RemoveNamesTwice(a[1..], n1, n2);
      RemoveNamesAppend(if a[0] in n1 then [] else [a[0]], RemoveNames(a[1..], n1), n2);
    }
  }

  lemma {:induction false} RemoveNamesAppend(a: seq<string>, b: seq<string>, names: set<string>)
    ensures RemoveNames(a + b, names) == RemoveNames(a, names) + RemoveNames(b, names)
  {
    if a == [] {
      assert a + b == b;
    } else {
      assert (a + b)[1..] == a[1..] + b;
      RemoveNamesAppend(a[1..], b, names);
    }
  }

  lemma {:induction false} RemoveNamesSame(a: seq<string>, n1: set<string>, n2: set<string>)
    requires forall c :: c in a ==> (c in n1 <==> c in n2)
    ensures RemoveNames(a, n1) == RemoveNames(a, n2)
  {
    if a != [] {
      RemoveNamesSame(a[1..], n1, n2);
    }
  }

  lemma {:induction false} RemoveNamesNone(a: seq<string>, names: set<string>)
    requires forall c :: c in a ==> c !in names
    ensures RemoveNames(a, names) == a
  {
    if a != [] {
      RemoveNamesNone(a[1..], names);
    }
  }

  /** A sequence is empty or holds its first element. */
  lemma HeadMember<T>(s: seq<T>)
    ensures s == [] || s[0] in s
  {
  }

  /** A frame that is updated in place: assigning a column changes the frame itself. */
  class Frame {
    var columns: seq<string>
    var rows: seq<Row>

    function Snapshot(): Table
      reads this
    {
      Table(columns, rows)
    }

    ghost predicate Valid()
      reads this
    {
      WellFormed(Snapshot())
    }

    constructor (t: Table)
      requires WellFormed(t)
      ensures Valid() && Snapshot() == t
    {
      columns := t.columns;
      rows := t.rows;
    }

    /** `self[name] = values`. */
    method SetColumn(name: string, values: seq<Value>)
      requires Valid() && |values| == |rows|
      modifies this
      ensures Valid()
      ensures Snapshot() == Assign(old(Snapshot()), name, values)
    {
      AssignWellFormed(Snapshot(), name, values);
      var u := Assign(Snapshot(), name, values);
      columns, rows := u.columns, u.rows;
    }
  }
}
