/** The duplicate-address pipeline: count rows per address group, keep the groups seen
    more than twice, and semi-join the source rows back to those groups. */
module Process {
  import opened Tables
  import opened Functions

  /** A group is kept when its row count is strictly greater than this. */
  const Threshold: nat := 2

  /** The suffix the join gives a right-hand column whose name the left side also has. */
  const Suffix := "_r"

  // ---------------------------------------------------------------------------
  // Grouping and counting (process_grouping_data)

  /** A row's values on the group-by columns. */
  type Tuple = seq<Value>

  /** One row of the grouped frame: a group's values and its `count` aggregate. */
  datatype Group = Group(key: Tuple, count: nat)

  function Tuples(rows: seq<Row>, cols: seq<string>): (ts: seq<Tuple>)
    ensures |ts| == |rows|
  {
    seq(|rows|, k requires 0 <= k < |rows| => Project(rows[k], cols))
  }

  /** How many of `ts` equal `t`. */
  function Occurrences(ts: seq<Tuple>, t: Tuple): nat {
    if ts == [] then 0
    else Occurrences(ts[..|ts| - 1], t) + (if ts[|ts| - 1] == t then 1 else 0)
  }

  function Keys(gs: seq<Group>): (ks: seq<Tuple>)
    ensures |ks| == |gs|
  {
    seq(|gs|, j requires 0 <= j < |gs| => gs[j].key)
  }

  /** The count held for `t`, 0 when no group has key `t`. */
  function CountOf(gs: seq<Group>, t: Tuple): nat {
    if gs == [] then 0
    else if gs[0].key == t then gs[0].count
    else CountOf(gs[1..], t)
  }

  /** The sum of the counts. */
  function Total(gs: seq<Group>): nat {
    if gs == [] then 0 else gs[0].count + Total(gs[1..])
  }

  /** Count one more row with values `t`: increment its group, or open a new one. */
  function Bump(gs: seq<Group>, t: Tuple): seq<Group> {
    if gs == [] then [Group(t, 1)]
    else if gs[0].key == t then [Group(t, gs[0].count + 1)] + gs[1..]
    else [gs[0]] + Bump(gs[1..], t)
  }

  /** `groupby(...).agg(count)`: the rows counted one by one into a table of groups,
      groups in order of first occurrence. */
  function Aggregate(ts: seq<Tuple>): seq<Group> {
    if ts == [] then [] else Bump(Aggregate(ts[..|ts| - 1]), ts[|ts| - 1])
  }

  /** Counting one more row raises its tuple's count by one and leaves every other count. */
  lemma {:induction false} BumpCounts(gs: seq<Group>, t: Tuple)
    ensures forall u :: CountOf(Bump(gs, t), u) == CountOf(gs, u) + (if u == t then 1 else 0)
    ensures Total(Bump(gs, t)) == Total(gs) + 1
  {
    if gs != [] {
      var b := Bump(gs, t);
      if gs[0].key == t {
        assert b[1..] == gs[1..];
      } else {
        BumpCounts(gs[1..], t);
        assert b[1..] == Bump(gs[1..], t);
      }
    }
  }

  /** Counting one more row keeps the group keys distinct and adds its tuple to them. */
  lemma {:induction false} BumpKeys(gs: seq<Group>, t: Tuple)
    requires Distinct(Keys(gs))
    ensures Distinct(Keys(Bump(gs, t)))
    ensures forall u :: u in Keys(Bump(gs, t)) <==> u in Keys(gs) || u == t
  {
    if gs == [] {
      assert Keys(Bump(gs, t)) == [t];
    } else if gs[0].key == t {
      assert Keys(Bump(gs, t)) == Keys(gs);
      assert Keys(gs)[0] == t;
    } else {
      var rest := gs[1..];
      assert Keys(gs) == [gs[0].key] + Keys(rest);
      DistinctTail(Keys(gs));
      BumpKeys(rest, t);
      var b := Bump(gs, t);
      var kb := Keys(Bump(rest, t));
      assert Keys(b) == [gs[0].key] + kb;
      assert gs[0].key !in kb;
      forall i, j | 0 <= i < j < |b| ensures Keys(b)[i] != Keys(b)[j] {
        if i > 0 {
          assert Keys(b)[i] == kb[i - 1] && Keys(b)[j] == kb[j - 1];
        } else {
          assert Keys(b)[j] in kb;
        }
      }
    }
  }

  /** The counting is right: group keys are distinct and are exactly the tuples seen,
      each group counts the rows with its tuple, and the counts sum to the row count. */
  lemma {:induction false} AggregateCounts(ts: seq<Tuple>)
    ensures Distinct(Keys(Aggregate(ts)))
    ensures forall t :: t in Keys(Aggregate(ts)) <==> t in ts
    ensures forall t :: CountOf(Aggregate(ts), t) == Occurrences(ts, t)
    ensures Total(Aggregate(ts)) == |ts|
  {
    if ts != [] {
      var init := ts[..|ts| - 1];
      AggregateCounts(init);
      BumpCounts(Aggregate(init), ts[|ts| - 1]);
      BumpKeys(Aggregate(init), ts[|ts| - 1]);
      assert ts == init + [ts[|ts| - 1]];
      forall t ensures t in ts <==> t in init || t == ts[|ts| - 1] {
        if t in ts {
          var k :| 0 <= k < |ts| && ts[k] == t;
          if k < |ts| - 1 { assert init[k] == t; }
        }
      }
    }
  }

  /** The per-group counts as a map from group values to count. */
  function KeyCounts(ts: seq<Tuple>): map<Tuple, nat> {
    var gs := Aggregate(ts);
    map t | t in Keys(gs) :: CountOf(gs, t)
  }

  /** The count map holds exactly the tuples seen, each with its number of rows. */
  lemma KeyCountsCorrect(ts: seq<Tuple>)
    ensures forall t :: t in KeyCounts(ts) <==> t in ts
    ensures forall t :: t in KeyCounts(ts) ==> KeyCounts(ts)[t] == Occurrences(ts, t)
  {
    AggregateCounts(ts);
  }

  /** The groups whose count is strictly greater than the threshold, order kept. */
  function Having(gs: seq<Group>): seq<Group> {
    if gs == [] then []
    else (if gs[0].count > Threshold then [gs[0]] else []) + Having(gs[1..])
  }

  /** The filter keeps a group iff its count is over the threshold. */
  lemma {:induction false} HavingKeys(gs: seq<Group>)
    requires Distinct(Keys(gs))
    ensures forall t :: t in Keys(Having(gs)) <==> CountOf(gs, t) > Threshold
    ensures forall t :: t in Keys(Having(gs)) ==> t in Keys(gs)
  {
    if gs != [] {
      var rest := gs[1..];
      assert Keys(gs) == [gs[0].key] + Keys(rest);
      DistinctTail(Keys(gs));
      HavingKeys(rest);
      var head := if gs[0].count > Threshold then [gs[0]] else [];
      assert Keys(Having(gs)) == Keys(head) + Keys(Having(rest));
      forall t | t in Keys(Having(rest)) ensures t in Keys(rest) {
        CountOfPositive(rest, t);
      }
      forall t ensures t in Keys(Having(gs)) <==> CountOf(gs, t) > Threshold {
        if t == gs[0].key {
          assert t !in Keys(Having(rest));
          if gs[0].count > Threshold { assert Keys(Having(gs))[0] == t; }
        } else {
          assert t !in Keys(head);
        }
      }
    }
  }

  /** The filter keeps the group keys distinct. */
  lemma {:induction false} HavingDistinct(gs: seq<Group>)
    requires Distinct(Keys(gs))
    ensures Distinct(Keys(Having(gs)))
  {
    if gs != [] {
      var rest := gs[1..];
      assert Keys(gs) == [gs[0].key] + Keys(rest);
      DistinctTail(Keys(gs));
      HavingDistinct(rest);
      HavingKeys(rest);
      var h := Having(gs);
      var kr := Keys(Having(rest));
      if gs[0].count > Threshold {
        assert Keys(h) == [gs[0].key] + kr;
        assert gs[0].key !in kr;
        forall i, j | 0 <= i < j < |h| ensures Keys(h)[i] != Keys(h)[j] {
          if i > 0 {
            assert Keys(h)[i] == kr[i - 1] && Keys(h)[j] == kr[j - 1];
          } else {
            assert Keys(h)[j] in kr;
          }
        }
      } else {
        assert Keys(h) == kr;
      }
    }
  }

  lemma {:induction false} CountOfPositive(gs: seq<Group>, t: Tuple)
    requires CountOf(gs, t) > 0
    ensures t in Keys(gs)
  {
    if gs[0].key != t {
      CountOfPositive(gs[1..], t);
      assert Keys(gs) == [gs[0].key] + Keys(gs[1..]);
    } else {
      assert Keys(gs)[0] == t;
    }
  }

  /** A row holding `vals` under the columns `cols`. */
  function TupleRow(cols: seq<string>, vals: Tuple): Row
    requires |cols| == |vals|
  {
    if cols == [] then map[] else TupleRow(cols[1..], vals[1..])[cols[0] := vals[0]]
  }

  lemma {:induction false} TupleRowFacts(cols: seq<string>, vals: Tuple)
    requires |cols| == |vals| && Distinct(cols)
    ensures TupleRow(cols, vals).Keys == ColumnSet(cols)
    ensures Project(TupleRow(cols, vals), cols) == vals
  {
    if cols != [] {
      assert Distinct(cols[1..]) by {
        forall i, j | 0 <= i < j < |cols[1..]| ensures cols[1..][i] != cols[1..][j] {
          assert cols[i + 1] != cols[j + 1];
        }
      }
      TupleRowFacts(cols[1..], vals[1..]);
      assert ColumnSet(cols) == {cols[0]} + ColumnSet(cols[1..]);
      var r := TupleRow(cols, vals);
      forall j | 0 <= j < |cols| ensures Project(r, cols)[j] == vals[j] {
        if j > 0 {
          assert cols[j] != cols[0];
          assert Project(TupleRow(cols[1..], vals[1..]), cols[1..])[j - 1] == vals[j];
        }
      }
    }
  }

  function GroupRows(cols: seq<string>, gs: seq<Group>): (rs: seq<Row>)
    requires forall j :: 0 <= j < |gs| ==> |gs[j].key| == |cols|
    ensures |rs| == |gs|
  {
    seq(|gs|, j requires 0 <= j < |gs| => TupleRow(cols, gs[j].key))
  }

  lemma {:induction false} GroupKeyLengths(ts: seq<Tuple>, n: nat, gs: seq<Group>)
    requires forall k :: 0 <= k < |ts| ==> |ts[k]| == n
    requires forall t :: t in Keys(gs) ==> t in ts
    ensures forall j :: 0 <= j < |gs| ==> |gs[j].key| == n
  {
    forall j | 0 <= j < |gs| ensures |gs[j].key| == n {
      assert Keys(gs)[j] == gs[j].key;
      assert Keys(gs)[j] in Keys(gs);
      var k :| 0 <= k < |ts| && ts[k] == gs[j].key;
    }
  }

  /** `process_grouping_data(df, groupby)`: count rows per group of `groupby` values, keep
      the groups counted more than twice, and drop the count, leaving the `groupby`
      columns. Grouping on an absent column raises. */
  function ProcessGroupingData(df: Table, groupby: seq<string> := []): (r: Result<Table>)
    ensures r.Ok? <==> forall c :: c in groupby ==> c in df.columns
    ensures r.Ok? ==> r.value.columns == groupby
  {
    match FirstMissing(groupby, df.columns)
    case Some(c) => Err(MissingColumn(c))
    case None =>
      var ts := Tuples(df.rows, groupby);
      var kept := Having(Aggregate(ts));
      AggregateCounts(ts);
      HavingKeys(Aggregate(ts));
      HavingDistinct(Aggregate(ts));
      GroupKeyLengths(ts, |groupby|, kept);
      Ok(Table(groupby, GroupRows(groupby, kept)))
  }

  /** The grouped frame holds one row per tuple of `groupby` values, the tuples are
      pairwise distinct, and a tuple is present iff more than two rows of `df` have it:
      one seen twice is left out, one seen three times is kept. */
  lemma GroupingSelects(df: Table, groupby: seq<string>)
    requires Distinct(groupby)
    requires forall c :: c in groupby ==> c in df.columns
    ensures ProcessGroupingData(df, groupby).Ok?
    ensures var dh := ProcessGroupingData(df, groupby).value;
      && WellFormed(dh)
      && Distinct(Tuples(dh.rows, groupby))
      && forall t :: t in Tuples(dh.rows, groupby) <==> Occurrences(Tuples(df.rows, groupby), t) > Threshold
  {
    var ts := Tuples(df.rows, groupby);
    var gs := Aggregate(ts);
    var kept := Having(gs);
    AggregateCounts(ts);
    HavingKeys(gs);
    HavingDistinct(gs);
    GroupKeyLengths(ts, |groupby|, kept);
    var dh := ProcessGroupingData(df, groupby).value;
    assert dh.rows == GroupRows(groupby, kept);
    forall j | 0 <= j < |dh.rows|
      ensures dh.rows[j].Keys == ColumnSet(groupby)
      ensures Tuples(dh.rows, groupby)[j] == Keys(kept)[j]
    {
      TupleRowFacts(groupby, kept[j].key);
    }
    assert Tuples(dh.rows, groupby) == Keys(kept);
  }

  /** Before the threshold, the per-group counts sum to the number of rows. */
  lemma GroupCountsSum(df: Table, groupby: seq<string>)
    ensures Total(Aggregate(Tuples(df.rows, groupby))) == |df.rows|
  {
    AggregateCounts(Tuples(df.rows, groupby));
  }

  // ---------------------------------------------------------------------------
  // Joining (process_joining_data)

  /** The name a right-hand column takes in the joined frame: suffixed when the left
      frame has a column of the same name. */
  function Rename(c: string, left: seq<string>): string {
    if c in left then c + Suffix else c
  }

  function RenameAll(cols: seq<string>, left: seq<string>): (r: seq<string>)
    ensures |r| == |cols|
  {
    seq(|cols|, j requires 0 <= j < |cols| => Rename(cols[j], left))
  }

  function SuffixAll(cols: seq<string>): (r: seq<string>)
    ensures |r| == |cols|
  {
    seq(|cols|, j requires 0 <= j < |cols| => cols[j] + Suffix)
  }

  /** A joined row: the left row plus the right row's cells under their joined names. */
  function Merge(l: Row, r: Row, rcols: seq<string>, left: seq<string>): Row {
    if rcols == [] then l
    else Merge(l, r, rcols[1..], left)[Rename(rcols[0], left) := Cell(r, rcols[0])]
  }

  /** The joined rows of one left row: one per right row with the same key cell. */
  function Matches(l: Row, rights: seq<Row>, on: string, rcols: seq<string>, left: seq<string>): seq<Row> {
    if rights == [] then []
    else (if Cell(rights[0], on) == Cell(l, on) then [Merge(l, rights[0], rcols, left)] else [])
         + Matches(l, rights[1..], on, rcols, left)
  }

  function JoinRows(lefts: seq<Row>, rights: seq<Row>, on: string, rcols: seq<string>, left: seq<string>): seq<Row> {
    if lefts == [] then []
    else Matches(lefts[0], rights, on, rcols, left) + JoinRows(lefts[1..], rights, on, rcols, left)
  }

  /** `df.join(dc, on=on, how="inner", rsuffix="_r")`: every pair of a left and a right row
      with equal key cells, in left order; joining on an absent column raises. */
  function InnerJoin(df: Table, dc: Table, on: string): Result<Table> {
    if on !in df.columns || on !in dc.columns then Err(MissingColumn(on))
    else Ok(Table(df.columns + RenameAll(dc.columns, df.columns),
                  JoinRows(df.rows, dc.rows, on, dc.columns, df.columns)))
  }

  /** The non-empty branch after the key is added to `dh`: join, drop every row with a
      missing cell, drop the right-hand copies of the group columns, then drop the key
      and its right-hand copy. A drop of a column the joined frame lacks raises. */
  function JoinChain(df: Table, dc: Table, groupby: seq<string>, name: string): Result<Table> {
    var dj :- InnerJoin(df, dc, name);
    var dn := DropNA(dj);
    var dg :- DropColumns(dn, SuffixAll(groupby));
    DropColumns(dg, [name, name + Suffix])
  }

  /** An empty frame with the source's columns (the key column left out). */
  function EmptyResult(df: Table): Table {
    Table(RemoveNames(df.columns, {DefaultName}), [])
  }

  /** `process_joining_data(df, dh, groupby)` with the empty branch as intended: with no
      duplicate group there is no join and the result has no rows. */
  function JoiningSpec(df: Table, dh: Table, groupby: seq<string>): Result<Table> {
    if |dh.rows| > 0 then
      var dc :- AddJoinColumnSpec(dh, DefaultName, DefaultDivider);
      JoinChain(df, dc, groupby, DefaultName)
    else Ok(EmptyResult(df))
  }

  /** `process_joining_data` as written: the empty branch calls `empty_dataframe` on the
      module-level configuration, which the entry point never sets (it assigns a local of
      the same name), so reading the file path from it raises. */
  function JoiningAsWritten(df: Table, dh: Table, groupby: seq<string>): Result<Table> {
    if |dh.rows| > 0 then JoiningSpec(df, dh, groupby) else Err(ConfigIsNone)
  }

  /** The as-written code raises whenever there is no duplicate group, where the intended
      result is an empty frame with the source's columns; otherwise the two agree. */
  lemma EmptyBranchDefect(df: Table, dh: Table, groupby: seq<string>)
    ensures |dh.rows| == 0 ==> JoiningAsWritten(df, dh, groupby) == Err(ConfigIsNone)
    ensures |dh.rows| == 0 ==> JoiningSpec(df, dh, groupby) == Ok(Table(RemoveNames(df.columns, {DefaultName}), []))
    ensures |dh.rows| > 0 ==> JoiningAsWritten(df, dh, groupby) == JoiningSpec(df, dh, groupby)
  {
  }

  method ProcessJoiningData(df: Table, dh: Frame, groupby: seq<string> := []) returns (r: Result<Table>)
    requires dh.Valid()
    modifies dh
    ensures dh.Valid()
    ensures r == JoiningSpec(df, old(dh.Snapshot()), groupby)
    ensures var added := AddJoinColumnSpec(old(dh.Snapshot()), DefaultName, DefaultDivider);
      dh.Snapshot() == if |old(dh.rows)| > 0 && added.Ok? then added.value else old(dh.Snapshot())
  {
    if |dh.rows| > 0 {
      var joinCol :- AddJoinColumn(dh);
      r := JoinChain(df, dh.Snapshot(), groupby, joinCol);
    } else {
      r := Ok(EmptyResult(df));
    }
  }

  // ---------------------------------------------------------------------------
  // What the join chain computes

  /** `n` copies of `x`. */
  function Rep(x: Row, n: nat): (s: seq<Row>)
    ensures |s| == n && forall k :: 0 <= k < n ==> s[k] == x
  {
    if n == 0 then [] else [x] + Rep(x, n - 1)
  }

  /** How many of `vs` equal the present cell `v` (a missing cell matches nothing). */
  function CountKey(vs: seq<Value>, v: Value): nat {
    if vs == [] then 0 else (if v.Some? && vs[0] == v then 1 else 0) + CountKey(vs[1..], v)
  }

  /** The rows the join chain yields, as a reference definition: each complete source row,
      without its key column, once per group row with the same present key. */
  function Expand(rows: seq<Row>, keys: seq<Value>): seq<Row> {
    if rows == [] then []
    else (if Complete(rows[0]) then Rep(rows[0] - {DefaultName}, CountKey(keys, Cell(rows[0], DefaultName))) else [])
         + Expand(rows[1..], keys)
  }

  /** The frames `process_joining_data` gets from the pipeline: `df` carries the key
      column, `dh` holds exactly the six address columns, and no column of `df` already
      has a right-hand copy's name. */
  ghost predicate JoinReady(df: Table, dh: Table) {
    && WellFormed(df) && WellFormed(dh)
    && dh.columns == AddressColumns
    && (forall c :: c in AddressColumns ==> c in df.columns)
    && DefaultName in df.columns
    && (forall c :: c in AddressColumns ==> c + Suffix !in df.columns)
    && DefaultName + Suffix !in df.columns
  }

  lemma SuffixInjective(a: string, b: string)
    ensures a + Suffix == b + Suffix <==> a == b
  {
    assert a == (a + Suffix)[..|a|];
    assert b == (b + Suffix)[..|b|];
  }

  /** The merge hypotheses: every right column is also a left column (so it is suffixed),
      and the left row has no suffixed name already. */
  ghost predicate Mergeable(l: Row, rcols: seq<string>, left: seq<string>) {
    && Distinct(rcols)
    && (forall c :: c in rcols ==> c in left)
    && (forall c :: c in rcols ==> c + Suffix !in l)
  }

  lemma {:induction false} MergeFacts(l: Row, r: Row, rcols: seq<string>, left: seq<string>)
    requires Mergeable(l, rcols, left)
    ensures forall c :: c in Merge(l, r, rcols, left) <==> c in l || c in SuffixAll(rcols)
    ensures forall c :: c in l ==> Merge(l, r, rcols, left)[c] == l[c]
    ensures forall j :: 0 <= j < |rcols| ==>
      rcols[j] + Suffix in Merge(l, r, rcols, left) && Merge(l, r, rcols, left)[rcols[j] + Suffix] == Cell(r, rcols[j])
  {
    if rcols != [] {
      var rest := rcols[1..];
      DistinctTail(rcols);
      MergeFacts(l, r, rest, left);
      var m := Merge(l, r, rest, left);
      var k0 := rcols[0] + Suffix;
      assert Merge(l, r, rcols, left) == m[k0 := Cell(r, rcols[0])];
      assert SuffixAll(rcols) == [k0] + SuffixAll(rest);
      assert k0 !in l;
      forall j | 0 <= j < |rest| ensures rest[j] + Suffix != k0 {
        SuffixInjective(rest[j], rcols[0]);
      }
      forall j | 0 <= j < |rcols|
        ensures rcols[j] + Suffix in Merge(l, r, rcols, left) && Merge(l, r, rcols, left)[rcols[j] + Suffix] == Cell(r, rcols[j])
      {
        if j > 0 {
          assert rest[j - 1] == rcols[j];
        }
      }
    }
  }

  /** A joined row is complete iff its left row is and its right row has every cell. */
  lemma MergeComplete(l: Row, r: Row, rcols: seq<string>, left: seq<string>)
    requires Mergeable(l, rcols, left)
    ensures Complete(Merge(l, r, rcols, left)) <==> Complete(l) && AllPresent(Project(r, rcols))
  {
    MergeFacts(l, r, rcols, left);
    var m := Merge(l, r, rcols, left);
    if Complete(m) {
      forall j | 0 <= j < |rcols| ensures Project(r, rcols)[j].Some? {
        assert m[rcols[j] + Suffix].Some?;
      }
    }
    if Complete(l) && AllPresent(Project(r, rcols)) {
      forall c | c in m ensures m[c].Some? {
        if c !in l {
          var j :| 0 <= j < |rcols| && SuffixAll(rcols)[j] == c;
          assert Project(r, rcols)[j].Some?;
        }
      }
    }
  }

  /** Dropping a set holding every suffixed name leaves the left row's part. */
  lemma MergeStrip(l: Row, r: Row, rcols: seq<string>, left: seq<string>, gone: set<string>)
    requires Mergeable(l, rcols, left)
    requires forall c :: c in rcols ==> c + Suffix in gone
    ensures Merge(l, r, rcols, left) - gone == l - gone
  {
    MergeFacts(l, r, rcols, left);
    forall j | 0 <= j < |rcols| ensures SuffixAll(rcols)[j] in gone {
      assert rcols[j] in rcols;
    }
    var m := Merge(l, r, rcols, left);
    assert (m - gone).Keys == (l - gone).Keys;
  }

  /** How many right rows share the left row's key cell and have every cell present. */
  function MatchCount(l: Row, rights: seq<Row>, on: string, rcols: seq<string>): nat {
    if rights == [] then 0
    else (if Cell(rights[0], on) == Cell(l, on) && AllPresent(Project(rights[0], rcols)) then 1 else 0)
         + MatchCount(l, rights[1..], on, rcols)
  }

  /** One right row's contribution after `dropna` and the drops. */
  lemma MatchHead(l: Row, r: Row, on: string, rcols: seq<string>, left: seq<string>, gone: set<string>)
    requires Mergeable(l, rcols, left)
    requires forall c :: c in rcols ==> c + Suffix in gone
    ensures var head := if Cell(r, on) == Cell(l, on) then [Merge(l, r, rcols, left)] else [];
      Strip(CompleteRows(head), gone)
        == if Complete(l) && Cell(r, on) == Cell(l, on) && AllPresent(Project(r, rcols)) then [l - gone] else []
  {
    MergeComplete(l, r, rcols, left);
    MergeStrip(l, r, rcols, left, gone);
    if Cell(r, on) == Cell(l, on) {
      var m := Merge(l, r, rcols, left);
      assert CompleteRows([m]) == if Complete(m) then [m] else [] by {
        assert [m][1..] == [];
      }
    }
  }

  lemma {:induction false} MatchesClean(l: Row, rights: seq<Row>, on: string, rcols: seq<string>, left: seq<string>, gone: set<string>)
    requires Mergeable(l, rcols, left)
    requires forall c :: c in rcols ==> c + Suffix in gone
    ensures Strip(CompleteRows(Matches(l, rights, on, rcols, left)), gone)
         == if Complete(l) then Rep(l - gone, MatchCount(l, rights, on, rcols)) else []
  {
    if rights != [] {
      var r := rights[0];
      var head := if Cell(r, on) == Cell(l, on) then [Merge(l, r, rcols, left)] else [];
      var tail := Matches(l, rights[1..], on, rcols, left);
      assert Matches(l, rights, on, rcols, left) == head + tail;
      MatchesClean(l, rights[1..], on, rcols, left, gone);
      CompleteRowsAppend(head, tail);
      StripAppend(CompleteRows(head), CompleteRows(tail), gone);
      MatchHead(l, r, on, rcols, left, gone);
    }
  }

  lemma {:induction false} JoinRowsClean(lefts: seq<Row>, rights: seq<Row>, on: string, rcols: seq<string>, left: seq<string>, gone: set<string>)
    requires forall k :: 0 <= k < |lefts| ==> Mergeable(lefts[k], rcols, left)
    requires forall c :: c in rcols ==> c + Suffix in gone
    ensures Strip(CompleteRows(JoinRows(lefts, rights, on, rcols, left)), gone)
         == Flat(lefts, rights, on, rcols, gone)
  {
    if lefts != [] {
      JoinRowsClean(lefts[1..], rights, on, rcols, left, gone);
      MatchesClean(lefts[0], rights, on, rcols, left, gone);
      CompleteRowsAppend(Matches(lefts[0], rights, on, rcols, left), JoinRows(lefts[1..], rights, on, rcols, left));
      StripAppend(CompleteRows(Matches(lefts[0], rights, on, rcols, left)),
                  CompleteRows(JoinRows(lefts[1..], rights, on, rcols, left)), gone);
    }
  }

  function Flat(lefts: seq<Row>, rights: seq<Row>, on: string, rcols: seq<string>, gone: set<string>): seq<Row> {
    if lefts == [] then []
    else (if Complete(lefts[0]) then Rep(lefts[0] - gone, MatchCount(lefts[0], rights, on, rcols)) else [])
         + Flat(lefts[1..], rights, on, rcols, gone)
  }

  /** A right row of the keyed group frame matches a left row iff both carry the same
      present key: the key is missing exactly when an address value is. */
  lemma {:induction false} MatchCountKeys(l: Row, rights: seq<Row>)
    requires forall k :: 0 <= k < |rights| ==> Cell(rights[k], DefaultName) == JoinKey(rights[k], DefaultDivider)
    ensures MatchCount(l, rights, DefaultName, AddressColumns + [DefaultName])
         == CountKey(JoinKeys(rights, DefaultDivider), Cell(l, DefaultName))
  {
    if rights != [] {
      var r := rights[0];
      var cols := AddressColumns + [DefaultName];
      JoinKeyFixedOrder(r, DefaultDivider);
      var p := Project(r, cols);
      assert p[..6] == Project(r, AddressColumns);
      assert p[6] == JoinKey(r, DefaultDivider);
      assert AllPresent(p) <==> JoinKey(r, DefaultDivider).Some? by {
        if JoinKey(r, DefaultDivider).Some? {
          forall j | 0 <= j < 7 ensures p[j].Some? {
            if j < 6 { assert p[j] == p[..6][j]; }
          }
        }
      }
      assert JoinKeys(rights, DefaultDivider)[1..] == JoinKeys(rights[1..], DefaultDivider);
      MatchCountKeys(l, rights[1..]);
    }
  }

  /** The rows of `df` under the join chain's hypotheses: a complete row loses exactly its
      key column when the right-hand copies are dropped. */
  lemma {:induction false} FlatExpand(lefts: seq<Row>, dcRows: seq<Row>, df: Table, gone: set<string>)
    requires forall k :: 0 <= k < |lefts| ==> lefts[k].Keys == ColumnSet(df.columns)
    requires DefaultName in gone
    requires forall c :: c in df.columns && c in gone ==> c == DefaultName
    requires forall k :: 0 <= k < |dcRows| ==> Cell(dcRows[k], DefaultName) == JoinKey(dcRows[k], DefaultDivider)
    ensures Flat(lefts, dcRows, DefaultName, AddressColumns + [DefaultName], gone)
         == Expand(lefts, JoinKeys(dcRows, DefaultDivider))
  {
    if lefts != [] {
      var l := lefts[0];
      assert (l - gone).Keys == (l - {DefaultName}).Keys;
      assert l - gone == l - {DefaultName};
      MatchCountKeys(l, dcRows);
      FlatExpand(lefts[1..], dcRows, df, gone);
    }
  }

  /** The names the two drops remove. */
  function Gone(): set<string> {
    (set c | c in SuffixAll(AddressColumns)) + (set c | c in [DefaultName, DefaultName + Suffix])
  }

  /** The hypotheses of `JoinReady` on `df` say the drops hit every right-hand copy and,
      of `df`'s own columns, the key only. */
  lemma GoneFacts(df: Table)
    requires forall c :: c in AddressColumns ==> c + Suffix !in df.columns
    requires DefaultName + Suffix !in df.columns
    ensures forall c :: c in AddressColumns + [DefaultName] ==> c + Suffix in Gone()
    ensures DefaultName in Gone()
    ensures forall c :: c in df.columns && c in Gone() ==> c == DefaultName
  {
    var rcols := AddressColumns + [DefaultName];
    forall c | c in rcols ensures c + Suffix in Gone() {
      var j :| 0 <= j < |rcols| && rcols[j] == c;
      if j < 6 { assert SuffixAll(AddressColumns)[j] == c + Suffix; }
    }
    forall j | 0 <= j < 6 ensures SuffixAll(AddressColumns)[j] !in df.columns {
      assert AddressColumns[j] in AddressColumns;
    }
  }

  /** Neither the key nor its right-hand copy is a right-hand copy of an address column,
      so the first drop leaves both for the second. */
  lemma KeyNotSuffixed()
    ensures forall c :: c in SuffixAll(AddressColumns) ==> c != DefaultName && c != DefaultName + Suffix
  {
    forall j | 0 <= j < |AddressColumns|
      ensures SuffixAll(AddressColumns)[j] != DefaultName && SuffixAll(AddressColumns)[j] != DefaultName + Suffix
    {
      var a := AddressColumns[j];
      assert a in AddressColumns;
      SuffixInjective(a, DefaultName);
      assert (a + Suffix)[|a| + 1] == 'r' && DefaultName[|DefaultName| - 1] == 'l';
    }
  }

  /** The join chain on the keyed group frame `dc` yields `Expand` over its keys. */
  lemma ChainExpands(df: Table, dc: Table)
    requires WellFormed(df) && DefaultName in df.columns
    requires forall c :: c in AddressColumns ==> c in df.columns
    requires forall c :: c in AddressColumns ==> c + Suffix !in df.columns
    requires DefaultName + Suffix !in df.columns
    requires dc.columns == AddressColumns + [DefaultName]
    requires forall k :: 0 <= k < |dc.rows| ==> Cell(dc.rows[k], DefaultName) == JoinKey(dc.rows[k], DefaultDivider)
    ensures JoinChain(df, dc, AddressColumns, DefaultName)
         == Ok(Table(RemoveNames(df.columns, {DefaultName}), Expand(df.rows, JoinKeys(dc.rows, DefaultDivider))))
  {
    var name := DefaultName;
    var rcols := dc.columns;
    GoneFacts(df);
    assert RenameAll(rcols, df.columns) == SuffixAll(rcols);
    assert Distinct(rcols);
    forall k | 0 <= k < |df.rows| ensures Mergeable(df.rows[k], rcols, df.columns) {}
    var joined := JoinRows(df.rows, dc.rows, name, rcols, df.columns);
    var dj := Table(df.columns + SuffixAll(rcols), joined);
    assert InnerJoin(df, dc, name) == Ok(dj);
    var dn := DropNA(dj);
    forall j | 0 <= j < |AddressColumns| ensures SuffixAll(AddressColumns)[j] in dn.columns {
      assert SuffixAll(AddressColumns)[j] == SuffixAll(rcols)[j];
    }
    var dg := Drop(dn, SuffixAll(AddressColumns));
    assert DropColumns(dn, SuffixAll(AddressColumns)) == Ok(dg);
    KeyNotSuffixed();
    assert name in dg.columns by { assert name in dn.columns; }
    assert name + Suffix in dg.columns by { assert SuffixAll(rcols)[6] == name + Suffix; }
    assert JoinChain(df, dc, AddressColumns, name) == Ok(Drop(dg, [name, name + Suffix]));
    DropTwice(DropNA(dj), SuffixAll(AddressColumns), [name, name + Suffix]);
    JoinRowsClean(df.rows, dc.rows, name, rcols, df.columns, Gone());
    FlatExpand(df.rows, dc.rows, df, Gone());
    ColumnsAfterJoin(df.columns, rcols, Gone());
    RemoveNamesTwice(df.columns + SuffixAll(rcols), set c | c in SuffixAll(AddressColumns), set c | c in [name, name + Suffix]);
  }

  /** `add_join_column` on the group frame: the address columns then the key, whose
      cell in each row is that row's join key. */
  lemma KeyedGroupFrame(dh: Table)
    requires dh.columns == AddressColumns
    ensures var dc := Assign(dh, DefaultName, JoinKeys(dh.rows, DefaultDivider));
      && AddJoinColumnSpec(dh, DefaultName, DefaultDivider) == Ok(dc)
      && dc.columns == AddressColumns + [DefaultName]
      && JoinKeys(dc.rows, DefaultDivider) == JoinKeys(dh.rows, DefaultDivider)
      && forall k :: 0 <= k < |dc.rows| ==> Cell(dc.rows[k], DefaultName) == JoinKey(dc.rows[k], DefaultDivider)
  {
    var dc := Assign(dh, DefaultName, JoinKeys(dh.rows, DefaultDivider));
    forall k | 0 <= k < |dc.rows|
      ensures JoinKey(dc.rows[k], DefaultDivider) == JoinKey(dh.rows[k], DefaultDivider)
    {
      JoinKeyIgnores(dh.rows[k], DefaultName, JoinKey(dh.rows[k], DefaultDivider), DefaultDivider);
    }
  }

  /** Under the pipeline's hypotheses the non-empty branch of `process_joining_data`
      yields exactly `Expand`: each complete row of `df`, without the key column, once for
      every group row carrying its key; the schema is `df`'s without the key. */
  lemma JoiningExpands(df: Table, dh: Table)
    requires JoinReady(df, dh) && |dh.rows| > 0
    ensures JoiningSpec(df, dh, AddressColumns)
         == Ok(Table(RemoveNames(df.columns, {DefaultName}), Expand(df.rows, JoinKeys(dh.rows, DefaultDivider))))
  {
    KeyedGroupFrame(dh);
    ChainExpands(df, Assign(dh, DefaultName, JoinKeys(dh.rows, DefaultDivider)));
  }

  /** The joined schema after the drops is the left schema without the key. */
  lemma ColumnsAfterJoin(left: seq<string>, rcols: seq<string>, gone: set<string>)
    requires forall c :: c in rcols ==> c + Suffix in gone
    requires DefaultName in gone
    requires forall c :: c in left && c in gone ==> c == DefaultName
    ensures RemoveNames(left + SuffixAll(rcols), gone) == RemoveNames(left, {DefaultName})
  {
    RemoveNamesAppend(left, SuffixAll(rcols), gone);
    RemoveNamesSame(left, gone, {DefaultName});
    RemoveNamesAll(SuffixAll(rcols), gone);
  }

  // ---------------------------------------------------------------------------
  // The join as a semi-join

  /** Row `l` carries a present key that one of `keys` equals. */
  predicate Keyed(l: Row, keys: seq<Value>) {
    Cell(l, DefaultName).Some? && Cell(l, DefaultName) in keys
  }

  /** No present key occurs twice. */
  predicate PresentDistinct(keys: seq<Value>) {
    forall i, j :: 0 <= i < j < |keys| && keys[i].Some? ==> keys[i] != keys[j]
  }

  /** The semi-join: each complete row whose key is among `keys`, once, key column dropped. */
  function SemiJoinRows(rows: seq<Row>, keys: seq<Value>): seq<Row> {
    if rows == [] then []
    else (if Complete(rows[0]) && Keyed(rows[0], keys) then [rows[0] - {DefaultName}] else [])
         + SemiJoinRows(rows[1..], keys)
  }

  lemma {:induction false} CountKeyPositive(keys: seq<Value>, v: Value)
    ensures CountKey(keys, v) > 0 <==> v.Some? && v in keys
  {
    if keys != [] {
      CountKeyPositive(keys[1..], v);
      assert v in keys <==> keys[0] == v || v in keys[1..];
    }
  }

  lemma {:induction false} CountKeyAtMostOne(keys: seq<Value>, v: Value)
    requires PresentDistinct(keys)
    ensures CountKey(keys, v) <= 1
  {
    if keys != [] {
      assert PresentDistinct(keys[1..]) by {
        forall i, j | 0 <= i < j < |keys[1..]| && keys[1..][i].Some? ensures keys[1..][i] != keys[1..][j] {
          assert keys[i + 1] != keys[j + 1];
        }
      }
      CountKeyAtMostOne(keys[1..], v);
      CountKeyPositive(keys[1..], v);
      if v.Some? && keys[0] == v {
        forall j | 0 <= j < |keys[1..]| ensures keys[1..][j] != v {
          assert keys[j + 1] != keys[0];
        }
      }
    }
  }

  /** Every output row is a complete source row with a matching key, its key column dropped. */
  lemma {:induction false} ExpandSound(rows: seq<Row>, keys: seq<Value>)
    ensures forall o :: o in Expand(rows, keys) ==>
      Complete(o) && exists k :: 0 <= k < |rows| && Complete(rows[k]) && Keyed(rows[k], keys) && o == rows[k] - {DefaultName}
  {
    if rows != [] {
      ExpandSound(rows[1..], keys);
      CountKeyPositive(keys, Cell(rows[0], DefaultName));
      forall o | o in Expand(rows, keys)
        ensures Complete(o) && exists k :: 0 <= k < |rows| && Complete(rows[k]) && Keyed(rows[k], keys) && o == rows[k] - {DefaultName}
      {
        if o in Expand(rows[1..], keys) {
          var k :| 0 <= k < |rows[1..]| && Complete(rows[1..][k]) && Keyed(rows[1..][k], keys) && o == rows[1..][k] - {DefaultName};
          assert rows[k + 1] == rows[1..][k];
        } else {
          assert o == rows[0] - {DefaultName};
        }
      }
    }
  }

  /** Every complete source row with a matching key is in the output, its key column dropped. */
  lemma {:induction false} ExpandComplete(rows: seq<Row>, keys: seq<Value>, k: nat)
    requires k < |rows| && Complete(rows[k]) && Keyed(rows[k], keys)
    ensures rows[k] - {DefaultName} in Expand(rows, keys)
  {
    var head := if Complete(rows[0]) then Rep(rows[0] - {DefaultName}, CountKey(keys, Cell(rows[0], DefaultName))) else [];
    assert Expand(rows, keys) == head + Expand(rows[1..], keys);
    if k == 0 {
      CountKeyPositive(keys, Cell(rows[0], DefaultName));
      assert head[0] == rows[0] - {DefaultName};
    } else {
      assert rows[1..][k - 1] == rows[k];
      ExpandComplete(rows[1..], keys, k - 1);
    }
  }

  /** With pairwise distinct present keys, the inner join is exactly the semi-join: no
      source row is repeated. */
  lemma {:induction false} ExpandSemiJoin(rows: seq<Row>, keys: seq<Value>)
    requires PresentDistinct(keys)
    ensures Expand(rows, keys) == SemiJoinRows(rows, keys)
  {
    if rows != [] {
      var v := Cell(rows[0], DefaultName);
      CountKeyPositive(keys, v);
      CountKeyAtMostOne(keys, v);
      ExpandSemiJoin(rows[1..], keys);
      if CountKey(keys, v) == 1 {
        assert Rep(rows[0] - {DefaultName}, 1) == [rows[0] - {DefaultName}];
      }
    }
  }

  /** What `process_joining_data` promises on the pipeline's frames, in both branches:
      every output row is a complete source row, key column dropped, whose key one of
      `dh`'s rows carries (soundness); every such source row is output (completeness); no
      output cell is missing; the schema is the source's without the key, and so holds
      neither the key, its right-hand copy nor a right-hand copy of a group column. */
  lemma JoiningContract(df: Table, dh: Table)
    requires JoinReady(df, dh)
    ensures JoiningSpec(df, dh, AddressColumns).Ok?
    ensures var out := JoiningSpec(df, dh, AddressColumns).value;
            var keys := JoinKeys(dh.rows, DefaultDivider);
      && out.columns == RemoveNames(df.columns, {DefaultName})
      && DefaultName !in out.columns && DefaultName + Suffix !in out.columns
      && (forall c :: c in AddressColumns ==> c + Suffix !in out.columns)
      && (forall o :: o in out.rows ==> Complete(o))
      && (forall o :: o in out.rows ==>
            exists k :: 0 <= k < |df.rows| && Complete(df.rows[k]) && Keyed(df.rows[k], keys) && o == df.rows[k] - {DefaultName})
      && (forall k :: 0 <= k < |df.rows| && Complete(df.rows[k]) && Keyed(df.rows[k], keys) ==>
            df.rows[k] - {DefaultName} in out.rows)
  {
    var keys := JoinKeys(dh.rows, DefaultDivider);
    if |dh.rows| > 0 {
      JoiningExpands(df, dh);
      ExpandSound(df.rows, keys);
      forall k | 0 <= k < |df.rows| && Complete(df.rows[k]) && Keyed(df.rows[k], keys)
        ensures df.rows[k] - {DefaultName} in Expand(df.rows, keys)
      {
        ExpandComplete(df.rows, keys, k);
      }
    } else {
      assert keys == [];
    }
  }

  // ---------------------------------------------------------------------------
  // The pipeline (process_data)

  /** `process_data` on the opened frame's value, `groupby` being the configured group
      columns: add the key, group and count, then join back. */
  function Pipeline(t: Table, groupby: seq<string>): Result<Table> {
    var ppd :- AddJoinColumnSpec(t, DefaultName, DefaultDivider);
    var dh :- ProcessGroupingData(ppd, groupby);
    JoiningSpec(ppd, dh, groupby)
  }

  /** `add_join_column` changes the opened frame itself; the grouped frame is a new one
      that the join step changes in turn. */
  method ProcessData(dfOpen: Frame, groupby: seq<string>) returns (r: Result<Table>)
    requires dfOpen.Valid() && Distinct(groupby)
    modifies dfOpen
    ensures dfOpen.Valid()
    ensures r == Pipeline(old(dfOpen.Snapshot()), groupby)
    ensures var added := AddJoinColumnSpec(old(dfOpen.Snapshot()), DefaultName, DefaultDivider);
      dfOpen.Snapshot() == if added.Ok? then added.value else old(dfOpen.Snapshot())
  {
    var _ :- AddJoinColumn(dfOpen);
    var ppd := dfOpen.Snapshot();
    var grouped := ProcessGroupingData(ppd, groupby);
    if grouped.Err? {
      return Err(grouped.error);
    }
    GroupingSelects(ppd, groupby);
    var dh := new Frame(grouped.value);
    r := ProcessJoiningData(ppd, dh, groupby);
  }

  /** The source rows the pipeline is meant to report: each complete row whose address
      tuple occurs more than `Threshold` times among all rows' tuples `all`. */
  function Duplicates(rows: seq<Row>, all: seq<Tuple>): seq<Row> {
    if rows == [] then []
    else (if Complete(rows[0]) && Occurrences(all, Project(rows[0], AddressColumns)) > Threshold then [rows[0]] else [])
         + Duplicates(rows[1..], all)
  }

  lemma {:induction false} OccurrencesPositive(ts: seq<Tuple>, t: Tuple)
    ensures Occurrences(ts, t) > 0 <==> t in ts
  {
    if ts != [] {
      OccurrencesPositive(ts[..|ts| - 1], t);
      assert t in ts <==> t in ts[..|ts| - 1] || ts[|ts| - 1] == t by {
        assert ts == ts[..|ts| - 1] + [ts[|ts| - 1]];
      }
    }
  }

  lemma {:induction false} SemiJoinIsDuplicates(a: seq<Row>, b: seq<Row>, keys: seq<Value>, all: seq<Tuple>)
    requires |a| == |b|
    requires forall k :: 0 <= k < |a| ==>
      (Complete(a[k]) && Keyed(a[k], keys) <==> Complete(b[k]) && Occurrences(all, Project(b[k], AddressColumns)) > Threshold)
    requires forall k :: 0 <= k < |a| ==> a[k] - {DefaultName} == b[k]
    ensures SemiJoinRows(a, keys) == Duplicates(b, all)
  {
    if a != [] {
      SemiJoinIsDuplicates(a[1..], b[1..], keys, all);
    }
  }

  /** The hypotheses the pipeline theorem needs of the opened frame. */
  ghost predicate PipelineReady(t: Table) {
    && WellFormed(t)
    && (forall c :: c in AddressColumns ==> c in t.columns)
    && DefaultName !in t.columns
    && (forall c :: c in AddressColumns ==> c + Suffix !in t.columns)
    && DefaultName + Suffix !in t.columns
    && forall k :: 0 <= k < |t.rows| ==> UnescapedRow(t.rows[k], AddressColumns, '|')
  }

  /** The frames after the key is added satisfy the join step's hypotheses. */
  lemma PipelineJoinReady(t: Table)
    requires PipelineReady(t)
    ensures var ppd := Assign(t, DefaultName, JoinKeys(t.rows, DefaultDivider));
      && ProcessGroupingData(ppd, AddressColumns).Ok?
      && JoinReady(ppd, ProcessGroupingData(ppd, AddressColumns).value)
  {
    var ppd := Assign(t, DefaultName, JoinKeys(t.rows, DefaultDivider));
    AssignWellFormed(t, DefaultName, JoinKeys(t.rows, DefaultDivider));
    assert Distinct(AddressColumns);
    GroupingSelects(ppd, AddressColumns);
    forall c | c in AddressColumns ensures c + Suffix != DefaultName {
      assert (c + Suffix)[|c + Suffix| - 1] == 'r';
    }
  }

  /** Group rows take their address values from source rows, so they hold no `|` either. */
  lemma GroupRowsUnescaped(t: Table, dh: Table)
    requires forall k :: 0 <= k < |t.rows| ==> UnescapedRow(t.rows[k], AddressColumns, '|')
    requires forall x :: x in Tuples(dh.rows, AddressColumns) ==> x in Tuples(t.rows, AddressColumns)
    ensures forall j :: 0 <= j < |dh.rows| ==> UnescapedRow(dh.rows[j], AddressColumns, '|')
  {
    var dts, all := Tuples(dh.rows, AddressColumns), Tuples(t.rows, AddressColumns);
    forall j | 0 <= j < |dh.rows| ensures UnescapedRow(dh.rows[j], AddressColumns, '|') {
      assert dts[j] in dts;
      var k :| 0 <= k < |all| && all[k] == dts[j];
      forall i | 0 <= i < 6 ensures Segments(dh.rows[j], AddressColumns)[i] == Segments(t.rows[k], AddressColumns)[i] {
        assert Project(dh.rows[j], AddressColumns)[i] == Project(t.rows[k], AddressColumns)[i];
      }
      assert Segments(dh.rows[j], AddressColumns) == Segments(t.rows[k], AddressColumns);
    }
  }

  /** Distinct group tuples without `|` give distinct present keys. */
  lemma GroupKeysDistinct(dh: Table)
    requires forall j :: 0 <= j < |dh.rows| ==> UnescapedRow(dh.rows[j], AddressColumns, '|')
    requires Distinct(Tuples(dh.rows, AddressColumns))
    ensures PresentDistinct(JoinKeys(dh.rows, DefaultDivider))
  {
    var keys, dts := JoinKeys(dh.rows, DefaultDivider), Tuples(dh.rows, AddressColumns);
    forall i, j | 0 <= i < j < |keys| && keys[i].Some? ensures keys[i] != keys[j] {
      if keys[j].Some? {
        JoinKeyInjective(dh.rows[i], dh.rows[j]);
        assert dts[i] != dts[j];
      }
    }
  }

  /** For a source row with every address cell present, a group row's key equals the
      source row's key iff their address tuples are equal. */
  lemma KeyMatchesTuple(r: Row, dh: Table, j: int)
    requires 0 <= j < |dh.rows|
    requires AllPresent(Project(r, AddressColumns))
    requires UnescapedRow(r, AddressColumns, '|') && UnescapedRow(dh.rows[j], AddressColumns, '|')
    ensures JoinKeys(dh.rows, DefaultDivider)[j] == JoinKey(r, DefaultDivider)
        <==> Tuples(dh.rows, AddressColumns)[j] == Project(r, AddressColumns)
  {
    JoinKeyFixedOrder(r, DefaultDivider);
    JoinKeyFixedOrder(dh.rows[j], DefaultDivider);
    if AllPresent(Project(dh.rows[j], AddressColumns)) {
      JoinKeyInjective(dh.rows[j], r);
    }
  }

  /** A keyed source row survives the join chain iff it is complete and its address tuple
      is one of the kept groups. */
  lemma RowSelected(r: Row, dh: Table, all: seq<Tuple>)
    requires forall c :: c in AddressColumns ==> c in r
    requires DefaultName !in r
    requires UnescapedRow(r, AddressColumns, '|')
    requires forall j :: 0 <= j < |dh.rows| ==> UnescapedRow(dh.rows[j], AddressColumns, '|')
    requires forall x :: x in Tuples(dh.rows, AddressColumns) <==> Occurrences(all, x) > Threshold
    ensures var keyed := r[DefaultName := JoinKey(r, DefaultDivider)];
      (Complete(keyed) && Keyed(keyed, JoinKeys(dh.rows, DefaultDivider)))
        <==> (Complete(r) && Occurrences(all, Project(r, AddressColumns)) > Threshold)
  {
    var key := JoinKey(r, DefaultDivider);
    var keyed := r[DefaultName := key];
    var keys, dts := JoinKeys(dh.rows, DefaultDivider), Tuples(dh.rows, AddressColumns);
    JoinKeyFixedOrder(r, DefaultDivider);
    if Complete(r) {
      forall j | 0 <= j < 6 ensures Project(r, AddressColumns)[j].Some? {
        assert AddressColumns[j] in AddressColumns;
      }
      assert Complete(keyed);
      forall j | 0 <= j < |dh.rows| ensures keys[j] == key <==> dts[j] == Project(r, AddressColumns) {
        KeyMatchesTuple(r, dh, j);
      }
      assert key in keys <==> Project(r, AddressColumns) in dts;
    } else {
      var c :| c in r && r[c].None?;
      assert keyed[c].None?;
    }
  }

  /** Row by row: a source row with its key added survives the join chain iff it is
      complete and its tuple is kept. */
  lemma KeyedRowsSelected(t: Table, dh: Table, ppd: Table)
    requires PipelineReady(t)
    requires ppd == Assign(t, DefaultName, JoinKeys(t.rows, DefaultDivider))
    requires forall j :: 0 <= j < |dh.rows| ==> UnescapedRow(dh.rows[j], AddressColumns, '|')
    requires forall x :: x in Tuples(dh.rows, AddressColumns) <==> Occurrences(Tuples(t.rows, AddressColumns), x) > Threshold
    ensures forall k :: 0 <= k < |ppd.rows| ==>
      && ppd.rows[k] - {DefaultName} == t.rows[k]
      && ((Complete(ppd.rows[k]) && Keyed(ppd.rows[k], JoinKeys(dh.rows, DefaultDivider)))
          <==> (Complete(t.rows[k]) && Occurrences(Tuples(t.rows, AddressColumns), Project(t.rows[k], AddressColumns)) > Threshold))
  {
    forall k | 0 <= k < |ppd.rows|
      ensures ppd.rows[k] - {DefaultName} == t.rows[k]
      ensures (Complete(ppd.rows[k]) && Keyed(ppd.rows[k], JoinKeys(dh.rows, DefaultDivider)))
          <==> (Complete(t.rows[k]) && Occurrences(Tuples(t.rows, AddressColumns), Project(t.rows[k], AddressColumns)) > Threshold)
    {
      assert ppd.rows[k] == t.rows[k][DefaultName := JoinKey(t.rows[k], DefaultDivider)];
      RowSelected(t.rows[k], dh, Tuples(t.rows, AddressColumns));
    }
  }

  /** The join step of the pipeline, given the grouping step's guarantees. */
  lemma JoinedIsDuplicates(t: Table, dh: Table)
    requires PipelineReady(t)
    requires var ppd := Assign(t, DefaultName, JoinKeys(t.rows, DefaultDivider));
      && JoinReady(ppd, dh)
      && Distinct(Tuples(dh.rows, AddressColumns))
      && forall x :: x in Tuples(dh.rows, AddressColumns) <==> Occurrences(Tuples(ppd.rows, AddressColumns), x) > Threshold
    ensures JoiningSpec(Assign(t, DefaultName, JoinKeys(t.rows, DefaultDivider)), dh, AddressColumns)
         == Ok(Table(t.columns, Duplicates(t.rows, Tuples(t.rows, AddressColumns))))
  {
    var name := DefaultName;
    var ppd := Assign(t, name, JoinKeys(t.rows, DefaultDivider));
    var all := Tuples(t.rows, AddressColumns);
    forall k | 0 <= k < |t.rows| ensures Project(ppd.rows[k], AddressColumns) == Project(t.rows[k], AddressColumns) {}
    assert Tuples(ppd.rows, AddressColumns) == all;
    forall x | x in Tuples(dh.rows, AddressColumns) ensures x in all {
      OccurrencesPositive(all, x);
    }
    GroupRowsUnescaped(t, dh);
    GroupKeysDistinct(dh);
    var keys := JoinKeys(dh.rows, DefaultDivider);
    KeyedRowsSelected(t, dh, ppd);
    SemiJoinIsDuplicates(ppd.rows, t.rows, keys, all);
    RemoveNamesAppend(t.columns, [name], {name});
    RemoveNamesNone(t.columns, {name});
    assert RemoveNames(ppd.columns, {name}) == t.columns;
    if |dh.rows| > 0 {
      JoiningExpands(ppd, dh);
      ExpandSemiJoin(ppd.rows, keys);
    } else {
      assert keys == [];
      SemiJoinNoKeys(ppd.rows);
    }
  }

  lemma {:induction false} SemiJoinNoKeys(rows: seq<Row>)
    ensures SemiJoinRows(rows, []) == []
  {
    if rows != [] {
      SemiJoinNoKeys(rows[1..]);
    }
  }

  /** The pipeline's end-to-end promise: on an opened frame whose address values contain no
      `|`, `process_data` yields, in source order and each once, exactly the complete rows
      whose six address values occur together in more than two rows; the schema is the
      opened frame's. */
  lemma PipelineSelectsDuplicates(t: Table)
    requires PipelineReady(t)
    ensures Pipeline(t, AddressColumns) == Ok(Table(t.columns, Duplicates(t.rows, Tuples(t.rows, AddressColumns))))
  {
    var ppd := Assign(t, DefaultName, JoinKeys(t.rows, DefaultDivider));
    assert AddJoinColumnSpec(t, DefaultName, DefaultDivider) == Ok(ppd);
    PipelineJoinReady(t);
    GroupingSelects(ppd, AddressColumns);
    JoinedIsDuplicates(t, ProcessGroupingData(ppd, AddressColumns).value);
  }

  /** `process_data` as written, its join step reading the unset configuration. */
  function PipelineAsWritten(t: Table, groupby: seq<string>): Result<Table> {
    var ppd :- AddJoinColumnSpec(t, DefaultName, DefaultDivider);
    var dh :- ProcessGroupingData(ppd, groupby);
    JoiningAsWritten(ppd, dh, groupby)
  }

  lemma {:induction false} DuplicatesNone(rows: seq<Row>, all: seq<Tuple>)
    requires forall k :: 0 <= k < |rows| ==> Occurrences(all, Project(rows[k], AddressColumns)) <= Threshold
    ensures Duplicates(rows, all) == []
  {
    if rows != [] {
      DuplicatesNone(rows[1..], all);
    }
  }

  /** When no address tuple occurs more than twice, the code as written raises instead of
      returning the empty result the corrected pipeline gives. */
  lemma NoDuplicatesRaises(t: Table)
    requires PipelineReady(t)
    requires forall k :: 0 <= k < |t.rows| ==> Occurrences(Tuples(t.rows, AddressColumns), Project(t.rows[k], AddressColumns)) <= Threshold
    ensures PipelineAsWritten(t, AddressColumns) == Err(ConfigIsNone)
    ensures Pipeline(t, AddressColumns) == Ok(Table(t.columns, []))
  {
    var ppd := Assign(t, DefaultName, JoinKeys(t.rows, DefaultDivider));
    assert AddJoinColumnSpec(t, DefaultName, DefaultDivider) == Ok(ppd);
    PipelineJoinReady(t);
    GroupingSelects(ppd, AddressColumns);
    var dh := ProcessGroupingData(ppd, AddressColumns).value;
    var all := Tuples(t.rows, AddressColumns);
    forall k | 0 <= k < |t.rows| ensures Project(ppd.rows[k], AddressColumns) == Project(t.rows[k], AddressColumns) {}
    assert Tuples(ppd.rows, AddressColumns) == all;
    forall x ensures Occurrences(all, x) <= Threshold {
      OccurrencesPositive(all, x);
      if x in all {
        var k :| 0 <= k < |all| && all[k] == x;
      }
    }
    var dts := Tuples(dh.rows, AddressColumns);
    HeadMember(dts);
    assert |dh.rows| == 0;
    PipelineSelectsDuplicates(t);
    DuplicatesNone(t.rows, all);
  }

  lemma OccurrencesSnoc(ts: seq<Tuple>, x: Tuple, t: Tuple)
    ensures Occurrences(ts + [x], t) == Occurrences(ts, t) + (if x == t then 1 else 0)
  {
    assert (ts + [x])[..|ts|] == ts;
  }

  lemma ExampleCounts(a: Tuple, b: Tuple, c: Tuple)
    requires a != b && a != c && b != c
    ensures var all := [a, a, a, b, b, c];
      Occurrences(all, a) == 3 && Occurrences(all, b) == 2 && Occurrences(all, c) == 1
  {
    var s0: seq<Tuple> := [];
    var s1 := s0 + [a];
    var s2 := s1 + [a];
    var s3 := s2 + [a];
    var s4 := s3 + [b];
    var s5 := s4 + [b];
    var s6 := s5 + [c];
    assert s6 == [a, a, a, b, b, c];
    OccurrencesSnoc(s0, a, a); OccurrencesSnoc(s1, a, a); OccurrencesSnoc(s2, a, a);
    OccurrencesSnoc(s3, b, a); OccurrencesSnoc(s4, b, a); OccurrencesSnoc(s5, c, a);
    OccurrencesSnoc(s0, a, b); OccurrencesSnoc(s1, a, b); OccurrencesSnoc(s2, a, b);
    OccurrencesSnoc(s3, b, b); OccurrencesSnoc(s4, b, b); OccurrencesSnoc(s5, c, b);
    OccurrencesSnoc(s0, a, c); OccurrencesSnoc(s1, a, c); OccurrencesSnoc(s2, a, c);
    OccurrencesSnoc(s3, b, c); OccurrencesSnoc(s4, b, c); OccurrencesSnoc(s5, c, c);
  }

  lemma ExampleDuplicates(rows: seq<Row>, all: seq<Tuple>)
    requires |rows| == 6 && |all| == 6
    requires forall k :: 0 <= k < 6 ==> Complete(rows[k]) && Project(rows[k], AddressColumns) == all[k]
    requires Occurrences(all, all[0]) == 3 && all[1] == all[0] && all[2] == all[0]
    requires Occurrences(all, all[3]) == 2 && all[4] == all[3]
    requires Occurrences(all, all[5]) == 1
    ensures Duplicates(rows, all) == rows[..3]
  {
    assert Duplicates(rows[5..], all) == [] by {
      assert rows[5..][1..] == [];
    }
    assert Duplicates(rows[4..], all) == [] by {
      assert rows[4..][1..] == rows[5..];
    }
    assert Duplicates(rows[3..], all) == [] by {
      assert rows[3..][1..] == rows[4..];
    }
    assert Duplicates(rows[2..], all) == [rows[2]] by {
      assert rows[2..][1..] == rows[3..];
    }
    assert Duplicates(rows[1..], all) == [rows[1], rows[2]] by {
      assert rows[1..][1..] == rows[2..];
    }
  }

  /** A worked case: six complete rows whose address tuples are A, A, A, B, B, C. B is
      seen twice, which is not more than two, so only the three A rows come out. */
  lemma PipelineExample(t: Table, a: Tuple, b: Tuple, c: Tuple)
    requires PipelineReady(t) && |t.rows| == 6
    requires a != b && a != c && b != c
    requires forall k :: 0 <= k < 6 ==> Complete(t.rows[k])
    requires Tuples(t.rows, AddressColumns) == [a, a, a, b, b, c]
    ensures Pipeline(t, AddressColumns) == Ok(Table(t.columns, t.rows[..3]))
  {
    ExampleCounts(a, b, c);
    ExampleDuplicates(t.rows, Tuples(t.rows, AddressColumns));
    PipelineSelectsDuplicates(t);
  }
}
