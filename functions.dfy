/** The join-key builders: `concat_cols` and `add_join_column`.
    Both assign one string column to a frame in place and return its name. */
module Functions {
  import opened Tables

  const DefaultName := "concat_col"
  const DefaultDivider := "|"

  /** The six address columns `add_join_column` reads, in key order. */
  const AddressColumns: seq<string> := ["paon", "street", "locality", "towncity", "district", "country"]

  // ---------------------------------------------------------------------------
  // Keys as joined segments

  /** The parts with `d` between adjacent parts only. */
  function Join(parts: seq<string>, d: string): string {
    if |parts| == 0 then ""
    else if |parts| == 1 then parts[0]
    else parts[0] + d + Join(parts[1..], d)
  }

  /** The inverse of `Join` for a one-character divider: the pieces between the `c`s. */
  function Split(s: string, c: char): (r: seq<string>)
    ensures |r| >= 1
  {
    if |s| == 0 then [""]
    else
      var rest := Split(s[1..], c);
      if s[0] == c then [""] + rest else [[s[0]] + rest[0]] + rest[1..]
  }

  function CountChar(s: string, c: char): nat {
    if |s| == 0 then 0 else (if s[0] == c then 1 else 0) + CountChar(s[1..], c)
  }

  /** No part contains the divider character. */
  predicate Unescaped(parts: seq<string>, c: char) {
    forall j :: 0 <= j < |parts| ==> c !in parts[j]
  }

  /** Appending a part appends the divider and the part: how the `concat_cols` loop grows a key. */
  lemma {:induction false} JoinSnoc(parts: seq<string>, p: string, d: string)
    requires |parts| >= 1
    ensures Join(parts + [p], d) == Join(parts, d) + d + p
  {
    if |parts| == 1 {
      assert parts + [p] == [parts[0], p];
      assert Join([p], d) == p;
    } else {
      assert (parts + [p])[1..] == parts[1..] + [p];
      JoinSnoc(parts[1..], p, d);
    }
  }

  lemma {:induction false} SplitPlain(x: string, c: char)
    requires c !in x
    ensures Split(x, c) == [x]
  {
    if |x| > 0 {
      SplitPlain(x[1..], c);
      assert [x[0]] + x[1..] == x;
    }
  }

  lemma {:induction false} SplitCons(x: string, y: string, c: char)
    requires c !in x
    ensures Split(x + [c] + y, c) == [x] + Split(y, c)
  {
    if |x| == 0 {
      assert x + [c] + y == [c] + y;
      assert ([c] + y)[1..] == y;
    } else {
      assert (x + [c] + y)[1..] == x[1..] + [c] + y;
      SplitCons(x[1..], y, c);
      assert [x[0]] + x[1..] == x;
    }
  }

  /** Round trip: splitting a key at its divider gives back the parts. */
  lemma {:induction false} SplitJoin(parts: seq<string>, c: char)
    requires |parts| >= 1 && Unescaped(parts, c)
    ensures Split(Join(parts, [c]), c) == parts
  {
    if |parts| == 1 {
      SplitPlain(parts[0], c);
    } else {
      assert c !in parts[0];
      SplitCons(parts[0], Join(parts[1..], [c]), c);
      SplitJoin(parts[1..], c);
      assert [parts[0]] + parts[1..] == parts;
    }
  }

  /** With unescaped parts, equal keys come only from equal parts. */
  lemma JoinInjective(a: seq<string>, b: seq<string>, c: char)
    requires |a| >= 1 && |b| >= 1 && Unescaped(a, c) && Unescaped(b, c)
    ensures Join(a, [c]) == Join(b, [c]) <==> a == b
  {
    if Join(a, [c]) == Join(b, [c]) {
      SplitJoin(a, c);
      SplitJoin(b, c);
      assert a == Split(Join(a, [c]), c) == Split(Join(b, [c]), c) == b;
    }
  }

  lemma {:induction false} CountCharAppend(x: string, y: string, c: char)
    ensures CountChar(x + y, c) == CountChar(x, c) + CountChar(y, c)
  {
    if |x| > 0 {
      assert (x + y)[0] == x[0];
      assert (x + y)[1..] == x[1..] + y;
      CountCharAppend(x[1..], y, c);
    } else {
      assert x + y == y;
    }
  }

  lemma {:induction false} CountCharAbsent(x: string, c: char)
    requires c !in x
    ensures CountChar(x, c) == 0
  {
    if |x| > 0 {
      CountCharAbsent(x[1..], c);
    }
  }

  /** A key of k unescaped parts holds exactly k - 1 dividers. */
  lemma {:induction false} JoinDividerCount(parts: seq<string>, c: char)
    requires |parts| >= 1 && Unescaped(parts, c)
    ensures CountChar(Join(parts, [c]), c) == |parts| - 1
  {
    CountCharAbsent(parts[0], c);
    if |parts| > 1 {
      CountCharAppend(parts[0] + [c], Join(parts[1..], [c]), c);
      CountCharAppend(parts[0], [c], c);
      JoinDividerCount(parts[1..], c);
    }
  }

  // ---------------------------------------------------------------------------
  // concat_cols

  /** A row's key parts: each column's cell as a string, a missing cell as "". */
  function Segments(r: Row, cols: seq<string>): (p: seq<string>)
    ensures |p| == |cols|
  {
    seq(|cols|, j requires 0 <= j < |cols| => Str(Cell(r, cols[j])))
  }

  /** One row's new cell at step `first` (i == 0) or a later step of the `concat_cols` loop.
      String `+` on a missing cell gives a missing cell. */
  function ConcatValue(r: Row, first: bool, col: string, name: string, d: string): Value {
    if first then Some(Str(Cell(r, col)))
    else match Cell(r, name)
      case None => None
      case Some(acc) => Some(acc + d + Str(Cell(r, col)))
  }

  function StepValues(rows: seq<Row>, first: bool, col: string, name: string, d: string): (v: seq<Value>)
    ensures |v| == |rows|
  {
    seq(|rows|, k requires 0 <= k < |rows| => ConcatValue(rows[k], first, col, name, d))
  }

  /** One pass of the loop body: `dt[name] = ...` over the whole frame. */
  function ConcatStep(t: Table, first: bool, col: string, name: string, d: string): Table {
    Assign(t, name, StepValues(t.rows, first, col, name, d))
  }

  /** The frame after the call, and what the call returns (or raises). */
  datatype Effect = Effect(table: Table, result: Result<string>)

  /** The loop from index `i` on, starting from frame `t`; reading an absent column
      raises, leaving the frame as the earlier steps left it. */
  function ConcatLoop(t: Table, cols: seq<string>, i: nat, name: string, d: string): Effect
    decreases |cols| - i
  {
    if i >= |cols| then Effect(t, Ok(name))
    else if cols[i] !in t.columns then Effect(t, Err(MissingColumn(cols[i])))
    else ConcatLoop(ConcatStep(t, i == 0, cols[i], name, d), cols, i + 1, name, d)
  }

  /** `concat_cols(dt, cols, name, divider)`: the loop, then the final cast, which reads
      column `name` and so raises when the loop never created it. */
  function ConcatColsSpec(t: Table, cols: seq<string>, name: string, d: string): Effect {
    var e := ConcatLoop(t, cols, 0, name, d);
    if e.result.Err? then e
    else if name !in e.table.columns then Effect(e.table, Err(MissingColumn(name)))
    else Effect(e.table, Ok(name))
  }

  method ConcatCols(dt: Frame, cols: seq<string>, name: string := DefaultName, divider: string := DefaultDivider)
    returns (r: Result<string>)
    requires dt.Valid()
    modifies dt
    ensures dt.Valid()
    ensures Effect(dt.Snapshot(), r) == ConcatColsSpec(old(dt.Snapshot()), cols, name, divider)
  {
    var i := 0;
    while i < |cols|
      invariant 0 <= i <= |cols|
      invariant dt.Valid()
      invariant ConcatLoop(dt.Snapshot(), cols, i, name, divider)
             == ConcatLoop(old(dt.Snapshot()), cols, 0, name, divider)
    {
      var col := cols[i];
      if col !in dt.columns {
        return Err(MissingColumn(col));
      }
      dt.SetColumn(name, StepValues(dt.rows, i == 0, col, name, divider));
      i := i + 1;
    }
    if name !in dt.columns {
      return Err(MissingColumn(name));
    }
    r := Ok(name);
  }

  /** The key column the loop intends: every row's parts joined by the divider. */
  function KeyValues(rows: seq<Row>, cols: seq<string>, d: string): (v: seq<Value>)
    ensures |v| == |rows|
  {
    seq(|rows|, k requires 0 <= k < |rows| => Some(Join(Segments(rows[k], cols), d)))
  }

  lemma AssignTwice(t: Table, name: string, v1: seq<Value>, v2: seq<Value>)
    requires |v1| == |t.rows| && |v2| == |t.rows|
    ensures Assign(Assign(t, name, v1), name, v2) == Assign(t, name, v2)
  {
    var a, b := Assign(Assign(t, name, v1), name, v2), Assign(t, name, v2);
    assert a.columns == b.columns;
    forall k | 0 <= k < |a.rows| ensures a.rows[k] == b.rows[k] {}
  }

  /** A loop step after the first extends each row's key by one part. */
  lemma StepExtends(t: Table, cols: seq<string>, i: nat, name: string, d: string)
    requires 1 <= i < |cols| && name != cols[i]
    ensures ConcatStep(Assign(t, name, KeyValues(t.rows, cols[..i], d)), false, cols[i], name, d)
         == Assign(t, name, KeyValues(t.rows, cols[..i + 1], d))
  {
    var cur := Assign(t, name, KeyValues(t.rows, cols[..i], d));
    var vs := StepValues(cur.rows, false, cols[i], name, d);
    forall k | 0 <= k < |t.rows|
      ensures vs[k] == KeyValues(t.rows, cols[..i + 1], d)[k]
    {
      var r := t.rows[k];
      assert Cell(cur.rows[k], cols[i]) == Cell(r, cols[i]);
      assert Segments(r, cols[..i + 1]) == Segments(r, cols[..i]) + [Str(Cell(r, cols[i]))];
      JoinSnoc(Segments(r, cols[..i]), Str(Cell(r, cols[i])), d);
    }
    assert vs == KeyValues(t.rows, cols[..i + 1], d);
    AssignTwice(t, name, KeyValues(t.rows, cols[..i], d), vs);
  }

  lemma {:induction false} ConcatLoopFrom(t: Table, cols: seq<string>, i: nat, name: string, d: string)
    requires 1 <= i <= |cols|
    requires forall c :: c in cols ==> c in t.columns
    requires name !in cols
    ensures ConcatLoop(Assign(t, name, KeyValues(t.rows, cols[..i], d)), cols, i, name, d)
         == Effect(Assign(t, name, KeyValues(t.rows, cols, d)), Ok(name))
    decreases |cols| - i
  {
    if i == |cols| {
      assert cols[..i] == cols;
    } else {
      var cur := Assign(t, name, KeyValues(t.rows, cols[..i], d));
      assert cols[i] in cur.columns;
      StepExtends(t, cols, i, name, d);
      ConcatLoopFrom(t, cols, i + 1, name, d);
    }
  }

  /** `concat_cols` with a non-empty list of present columns, none of them `name`: it
      returns `name`, and each row's new `name` cell is its column values in list order,
      missing ones as "", with the divider between adjacent values. */
  lemma ConcatColsKey(t: Table, cols: seq<string>, name: string, d: string)
    requires |cols| >= 1
    requires forall c :: c in cols ==> c in t.columns
    requires name !in cols
    ensures ConcatColsSpec(t, cols, name, d) == Effect(Assign(t, name, KeyValues(t.rows, cols, d)), Ok(name))
  {
    var first := ConcatStep(t, true, cols[0], name, d);
    assert cols[0] in t.columns;
    forall k | 0 <= k < |t.rows|
      ensures StepValues(t.rows, true, cols[0], name, d)[k] == KeyValues(t.rows, cols[..1], d)[k]
    {
      assert Segments(t.rows[k], cols[..1]) == [Str(Cell(t.rows[k], cols[0]))];
    }
    assert StepValues(t.rows, true, cols[0], name, d) == KeyValues(t.rows, cols[..1], d);
    ConcatLoopFrom(t, cols, 1, name, d);
  }

  /** Once the first step has run, every row has a key, and later steps keep it. */
  lemma {:induction false} ConcatLoopKeepsKey(t: Table, cols: seq<string>, i: nat, name: string, d: string)
    requires i >= 1
    requires forall k :: 0 <= k < |t.rows| ==> Cell(t.rows[k], name).Some?
    ensures var e := ConcatLoop(t, cols, i, name, d);
      |e.table.rows| == |t.rows| && forall k :: 0 <= k < |e.table.rows| ==> Cell(e.table.rows[k], name).Some?
    decreases |cols| - i
  {
    if i < |cols| && cols[i] in t.columns {
      var next := ConcatStep(t, false, cols[i], name, d);
      forall k | 0 <= k < |next.rows| ensures Cell(next.rows[k], name).Some? {
        assert Cell(t.rows[k], name).Some?;
      }
      ConcatLoopKeepsKey(next, cols, i + 1, name, d);
    }
  }

  /** The key is never missing: even a row whose every key column is missing gets one,
      whatever the columns are (`name` among them included). */
  lemma ConcatColsNeverMissing(t: Table, cols: seq<string>, name: string, d: string)
    requires |cols| >= 1
    requires ConcatColsSpec(t, cols, name, d).result.Ok?
    ensures var u := ConcatColsSpec(t, cols, name, d).table;
      |u.rows| == |t.rows| && forall k :: 0 <= k < |u.rows| ==> Cell(u.rows[k], name).Some?
  {
    ConcatLoopKeepsKey(ConcatStep(t, true, cols[0], name, d), cols, 1, name, d);
  }

  /** An empty column list raises unless the frame already has a `name` column,
      which is then left as it is. */
  lemma ConcatColsEmpty(t: Table, name: string, d: string)
    ensures ConcatColsSpec(t, [], name, d)
         == Effect(t, if name in t.columns then Ok(name) else Err(MissingColumn(name)))
  {
  }

  /** The frame after a call differs from the frame before only in column `name`. */
  ghost predicate ChangesOnly(t: Table, u: Table, name: string) {
    && (u.columns == t.columns || (name !in t.columns && u.columns == t.columns + [name]))
    && |u.rows| == |t.rows|
    && forall k :: 0 <= k < |u.rows| ==> u.rows[k] - {name} == t.rows[k] - {name}
  }

  lemma {:induction false} ConcatLoopChangesOnly(t: Table, cols: seq<string>, i: nat, name: string, d: string)
    ensures ChangesOnly(t, ConcatLoop(t, cols, i, name, d).table, name)
    decreases |cols| - i
  {
    if i < |cols| && cols[i] in t.columns {
      var next := ConcatStep(t, i == 0, cols[i], name, d);
      forall k | 0 <= k < |next.rows| ensures next.rows[k] - {name} == t.rows[k] - {name} {}
      ConcatLoopChangesOnly(next, cols, i + 1, name, d);
    }
  }

  /** `concat_cols` adds or overwrites column `name` and nothing else, and returns `name`
      when it succeeds. */
  lemma ConcatColsChangesOnly(t: Table, cols: seq<string>, name: string, d: string)
    ensures var e := ConcatColsSpec(t, cols, name, d);
      ChangesOnly(t, e.table, name) && (e.result.Ok? ==> e.result.value == name)
  {
    ConcatLoopChangesOnly(t, cols, 0, name, d);
  }

  /** Every key column value of a row, as the key reads it, free of the divider. */
  predicate UnescapedRow(r: Row, cols: seq<string>, c: char) {
    Unescaped(Segments(r, cols), c)
  }

  /** With a one-character divider that no value contains, two rows get equal keys iff
      their values on `cols` (missing read as "") are pairwise equal. */
  lemma ConcatColsKeyInjective(t: Table, cols: seq<string>, name: string, c: char, k1: nat, k2: nat)
    requires |cols| >= 1
    requires forall col :: col in cols ==> col in t.columns
    requires name !in cols
    requires k1 < |t.rows| && k2 < |t.rows|
    requires UnescapedRow(t.rows[k1], cols, c) && UnescapedRow(t.rows[k2], cols, c)
    ensures var u := ConcatColsSpec(t, cols, name, [c]).table;
      && k1 < |u.rows| && k2 < |u.rows|
      && (Cell(u.rows[k1], name) == Cell(u.rows[k2], name) <==> Segments(t.rows[k1], cols) == Segments(t.rows[k2], cols))
  {
    ConcatColsKey(t, cols, name, [c]);
    JoinInjective(Segments(t.rows[k1], cols), Segments(t.rows[k2], cols), c);
  }

  /** With a one-character divider that no value contains, a key over k columns holds
      exactly k - 1 dividers, and splitting it at them gives back the values. */
  lemma ConcatColsKeyShape(t: Table, cols: seq<string>, name: string, c: char, k: nat)
    requires |cols| >= 1
    requires forall col :: col in cols ==> col in t.columns
    requires name !in cols
    requires k < |t.rows| && UnescapedRow(t.rows[k], cols, c)
    ensures var u := ConcatColsSpec(t, cols, name, [c]).table;
      && k < |u.rows| && Cell(u.rows[k], name).Some?
      && CountChar(Cell(u.rows[k], name).value, c) == |cols| - 1
      && Split(Cell(u.rows[k], name).value, c) == Segments(t.rows[k], cols)
  {
    ConcatColsKey(t, cols, name, [c]);
    JoinDividerCount(Segments(t.rows[k], cols), c);
    SplitJoin(Segments(t.rows[k], cols), c);
  }

  // ---------------------------------------------------------------------------
  // add_join_column

  /** String `+` on two cells: missing when either side is missing. */
  function Plus(a: Value, b: Value): Value {
    if a.Some? && b.Some? then Some(a.value + b.value) else None
  }

  /** `paon + d + street + d + locality + d + towncity + d + district + d + country`,
      evaluated left to right, with no fill of missing cells. */
  function JoinKey(r: Row, d: string): Value {
    var sep := Some(d);
    Plus(Plus(Plus(Plus(Plus(Plus(Plus(Plus(Plus(Plus(
      Cell(r, "paon"), sep), Cell(r, "street")), sep), Cell(r, "locality")), sep),
      Cell(r, "towncity")), sep), Cell(r, "district")), sep), Cell(r, "country"))
  }

  /** The cells of `cols`, in order. */
  function Project(r: Row, cols: seq<string>): (p: seq<Value>)
    ensures |p| == |cols|
  {
    seq(|cols|, j requires 0 <= j < |cols| => Cell(r, cols[j]))
  }

  predicate AllPresent(p: seq<Value>) {
    forall j :: 0 <= j < |p| ==> p[j].Some?
  }

  /** Six parts joined: the divider between adjacent parts only. */
  lemma JoinSix(s: seq<string>, d: string)
    requires |s| == 6
    ensures Join(s, d) == s[0] + d + s[1] + d + s[2] + d + s[3] + d + s[4] + d + s[5]
  {
    assert Join(s[5..], d) == s[5];
    assert Join(s[4..], d) == s[4] + d + s[5] by { assert s[4..][1..] == s[5..]; }
    assert Join(s[3..], d) == s[3] + d + Join(s[4..], d) by { assert s[3..][1..] == s[4..]; }
    assert Join(s[2..], d) == s[2] + d + Join(s[3..], d) by { assert s[2..][1..] == s[3..]; }
    assert Join(s[1..], d) == s[1] + d + Join(s[2..], d) by { assert s[1..][1..] == s[2..]; }
    assert Join(s, d) == s[0] + d + Join(s[1..], d);
  }

  /** The key is the six address values in their fixed order with the divider between
      adjacent values only; it is missing exactly when one of them is. */
  lemma JoinKeyFixedOrder(r: Row, d: string)
    ensures JoinKey(r, d) == if AllPresent(Project(r, AddressColumns))
                             then Some(Join(Segments(r, AddressColumns), d)) else None
  {
    var s := Segments(r, AddressColumns);
    var p := Project(r, AddressColumns);
    if AllPresent(p) {
      assert p[0].Some? && p[1].Some? && p[2].Some? && p[3].Some? && p[4].Some? && p[5].Some?;
      assert p[0].value == s[0] && p[1].value == s[1] && p[2].value == s[2];
      assert p[3].value == s[3] && p[4].value == s[4] && p[5].value == s[5];
      JoinSix(s, d);
    } else {
      var j :| 0 <= j < |p| && p[j].None?;
      assert Cell(r, AddressColumns[j]).None?;
    }
  }

  /** The key reads only the six address cells: setting another column leaves it alone. */
  lemma JoinKeyIgnores(r: Row, name: string, v: Value, d: string)
    requires name !in AddressColumns
    ensures JoinKey(r[name := v], d) == JoinKey(r, d)
  {
    var r2 := r[name := v];
    forall j | 0 <= j < 6 ensures Cell(r2, AddressColumns[j]) == Cell(r, AddressColumns[j]) {
      assert AddressColumns[j] in AddressColumns;
    }
    assert Cell(r2, "paon") == Cell(r, "paon") by { assert AddressColumns[0] == "paon"; }
    assert Cell(r2, "street") == Cell(r, "street") by { assert AddressColumns[1] == "street"; }
    assert Cell(r2, "locality") == Cell(r, "locality") by { assert AddressColumns[2] == "locality"; }
    assert Cell(r2, "towncity") == Cell(r, "towncity") by { assert AddressColumns[3] == "towncity"; }
    assert Cell(r2, "district") == Cell(r, "district") by { assert AddressColumns[4] == "district"; }
    assert Cell(r2, "country") == Cell(r, "country") by { assert AddressColumns[5] == "country"; }
  }

  function JoinKeys(rows: seq<Row>, d: string): (v: seq<Value>)
    ensures |v| == |rows|
  {
    seq(|rows|, k requires 0 <= k < |rows| => JoinKey(rows[k], d))
  }

  /** `add_join_column(df, name, divider)` on the frame's value: reading an absent address
      column raises before anything is assigned. */
  function AddJoinColumnSpec(t: Table, name: string, d: string): Result<Table> {
    match FirstMissing(AddressColumns, t.columns)
    case Some(c) => Err(MissingColumn(c))
    case None => Ok(Assign(t, name, JoinKeys(t.rows, d)))
  }

  method AddJoinColumn(df: Frame, name: string := DefaultName, divider: string := DefaultDivider)
    returns (r: Result<string>)
    requires df.Valid()
    modifies df
    ensures df.Valid()
    ensures var s := AddJoinColumnSpec(old(df.Snapshot()), name, divider);
      && (s.Ok? ==> r == Ok(name) && df.Snapshot() == s.value)
      && (s.Err? ==> r == Err(s.error) && df.Snapshot() == old(df.Snapshot()))
  {
    var missing := FirstMissing(AddressColumns, df.columns);
    if missing.Some? {
      return Err(MissingColumn(missing.value));
    }
    df.SetColumn(name, JoinKeys(df.rows, divider));
    r := Ok(name);
  }

  /** `add_join_column` succeeds iff the six address columns are present; it then adds or
      overwrites column `name` only, each row's new cell being its address key. */
  lemma AddJoinColumnShape(t: Table, name: string, d: string)
    ensures AddJoinColumnSpec(t, name, d).Ok? <==> forall c :: c in AddressColumns ==> c in t.columns
    ensures AddJoinColumnSpec(t, name, d).Ok? ==>
      var u := AddJoinColumnSpec(t, name, d).value;
      && ChangesOnly(t, u, name)
      && forall k :: 0 <= k < |u.rows| ==> u.rows[k][name] == JoinKey(t.rows[k], d)
  {
    if AddJoinColumnSpec(t, name, d).Ok? {
      var u := AddJoinColumnSpec(t, name, d).value;
      forall k | 0 <= k < |u.rows| ensures u.rows[k] - {name} == t.rows[k] - {name} {}
    }
  }

  /** Where all six address values are present, `add_join_column` and `concat_cols` over
      the address columns give the same key; where one is missing, `concat_cols` still
      gives a key and `add_join_column` gives a missing cell. */
  lemma AddJoinAgreesWithConcat(t: Table, name: string, d: string, k: nat)
    requires forall c :: c in AddressColumns ==> c in t.columns
    requires name !in AddressColumns
    requires k < |t.rows|
    ensures var u := AddJoinColumnSpec(t, name, d).value;
            var v := ConcatColsSpec(t, AddressColumns, name, d).table;
      && v.rows[k][name].Some?
      && (AllPresent(Project(t.rows[k], AddressColumns)) <==> u.rows[k][name] == v.rows[k][name])
  {
    ConcatColsKey(t, AddressColumns, name, d);
    JoinKeyFixedOrder(t.rows[k], d);
  }

  /** With no `|` in any address value, two rows with present keys have equal keys iff
      they have equal address values. */
  lemma JoinKeyInjective(r1: Row, r2: Row)
    requires JoinKey(r1, DefaultDivider).Some? && JoinKey(r2, DefaultDivider).Some?
    requires UnescapedRow(r1, AddressColumns, '|') && UnescapedRow(r2, AddressColumns, '|')
    ensures JoinKey(r1, DefaultDivider) == JoinKey(r2, DefaultDivider)
        <==> Project(r1, AddressColumns) == Project(r2, AddressColumns)
  {
    JoinKeyFixedOrder(r1, DefaultDivider);
    JoinKeyFixedOrder(r2, DefaultDivider);
    var s1, s2 := Segments(r1, AddressColumns), Segments(r2, AddressColumns);
    var p1, p2 := Project(r1, AddressColumns), Project(r2, AddressColumns);
    JoinInjective(s1, s2, '|');
    if s1 == s2 {
      forall j | 0 <= j < 6 ensures p1[j] == p2[j] {
        assert s1[j] == s2[j];
      }
    }
    if p1 == p2 {
      forall j | 0 <= j < 6 ensures s1[j] == s2[j] {
        assert p1[j] == p2[j];
      }
    }
  }

  /** The divider is not escaped: two different address rows can share a key. */
  lemma KeyCollision()
    ensures var r1 := map["paon" := Some("1|A"), "street" := Some("B"), "locality" := Some(""),
                          "towncity" := Some(""), "district" := Some(""), "country" := Some("")];
            var r2 := map["paon" := Some("1"), "street" := Some("A|B"), "locality" := Some(""),
                          "towncity" := Some(""), "district" := Some(""), "country" := Some("")];
            Project(r1, AddressColumns) != Project(r2, AddressColumns)
            && JoinKey(r1, DefaultDivider) == JoinKey(r2, DefaultDivider)
  {
    var r1 := map["paon" := Some("1|A"), "street" := Some("B"), "locality" := Some(""),
                  "towncity" := Some(""), "district" := Some(""), "country" := Some("")];
    var r2 := map["paon" := Some("1"), "street" := Some("A|B"), "locality" := Some(""),
                  "towncity" := Some(""), "district" := Some(""), "country" := Some("")];
    assert Project(r1, AddressColumns)[0] != Project(r2, AddressColumns)[0];
    assert Cell(r1, "paon") == Some("1|A") && Cell(r1, "street") == Some("B");
    assert Cell(r2, "paon") == Some("1") && Cell(r2, "street") == Some("A|B");
    assert Cell(r1, "locality") == Cell(r2, "locality") == Some("");
    assert Cell(r1, "towncity") == Cell(r2, "towncity") == Some("");
    assert Cell(r1, "district") == Cell(r2, "district") == Some("");
    assert Cell(r1, "country") == Cell(r2, "country") == Some("");
    assert "1|A" + "|" + "B" == "1" + "|" + "A|B";
  }
}
