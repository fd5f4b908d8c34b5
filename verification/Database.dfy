/** The in-memory database: live row objects, updated in place, behind snapshot
    transactions. */
module MemoryDatabase {
  import opened Models
  import opened Sql

  /** A row object.  SELECT hands these out, and UPDATE writes into them. */
  class Row {
    var cells: Record

    constructor (cells: Record)
      ensures this.cells == cells
    {
      this.cells := cells;
    }
  }

  type Rows = seq<Row>
  type Tables = map<string, Rows>

  /** All row objects of a set of tables. */
  ghost function RowsOf(m: Tables): set<Row> {
    set t, i | t in m && 0 <= i < |m[t]| :: m[t][i]
  }

  ghost predicate DistinctRows(rows: Rows) {
    forall i, j | 0 <= i < j < |rows| :: rows[i] != rows[j]
  }

  /** No row object occurs twice, in one table or in two. */
  ghost predicate NoSharing(m: Tables) {
    && (forall t | t in m :: DistinctRows(m[t]))
    && (forall t, u, i, j | t in m && u in m && t != u && 0 <= i < |m[t]| && 0 <= j < |m[u]| :: m[t][i] != m[u][j])
  }

  ghost function Cells(rows: Rows): (r: Table)
    reads rows
    ensures |r| == |rows| && forall i | 0 <= i < |rows| :: r[i] == rows[i].cells
  {
    if rows == [] then [] else Cells(rows[..|rows| - 1]) + [rows[|rows| - 1].cells]
  }

  ghost function ViewOf(m: Tables): (s: Store)
    reads RowsOf(m)
    ensures s.Keys == m.Keys && forall t | t in m :: s[t] == Cells(m[t])
  {
    map t | t in m :: Cells(m[t])
  }

  /** The row objects that match, in table order. */
  ghost function FilterRows(rows: Rows, where: seq<Cond>, params: seq<Value>, n: nat): Rows
    requires n <= |where|
    reads rows
  {
    if rows == [] then [] else
      var last := rows[|rows| - 1];
      FilterRows(rows[..|rows| - 1], where, params, n)
      + (if MatchesFirst(last.cells, where, params, n) then [last] else [])
  }

  lemma {:induction false} FilterRowsMembers(rows: Rows, where: seq<Cond>, params: seq<Value>, n: nat)
    requires n <= |where|
    ensures forall r | r in FilterRows(rows, where, params, n) :: r in rows && MatchesFirst(r.cells, where, params, n)
    ensures forall r | r in rows && MatchesFirst(r.cells, where, params, n) :: r in FilterRows(rows, where, params, n)
  {
    hide MatchesFirst;
    if rows != [] {
      assert rows == rows[..|rows| - 1] + [rows[|rows| - 1]];
      FilterRowsMembers(rows[..|rows| - 1], where, params, n);
    }
  }

  lemma {:induction false} FilterRowsCells(rows: Rows, where: seq<Cond>, params: seq<Value>)
    ensures Cells(FilterRows(rows, where, params, |where|)) == Filter(Cells(rows), where, params)
  {
    if rows != [] {
      var front := rows[..|rows| - 1];
      FilterRowsCells(front, where, params);
      assert Cells(rows)[..|rows| - 1] == Cells(front);
      CellsConcat(FilterRows(front, where, params, |where|), [rows[|rows| - 1]]);
      assert FilterRows(front, where, params, |where|) + [] == FilterRows(front, where, params, |where|);
    }
  }

  lemma CellsConcat(a: Rows, b: Rows)
    ensures Cells(a + b) == Cells(a) + Cells(b)
  {
  }

  lemma {:induction false} FilterRowsNone(rows: Rows, where: seq<Cond>, params: seq<Value>)
    ensures FilterRows(rows, where, params, 0) == rows
  {
    if rows != [] {
      FilterRowsNone(rows[..|rows| - 1], where, params);
      assert MatchesFirst(rows[|rows| - 1].cells, where, params, 0);
      assert rows == rows[..|rows| - 1] + [rows[|rows| - 1]];
    }
  }

  /** `rows.filter(...)` for the k-th condition of a WHERE clause. */
  method FilterStep(rows: Rows, where: seq<Cond>, params: seq<Value>, k: nat, ghost all: Rows) returns (kept: Rows)
    requires k < |where| && rows == FilterRows(all, where, params, k)
    ensures kept == FilterRows(all, where, params, k + 1)
  {
    kept := [];
    for i := 0 to |rows|
      invariant kept == Kept(rows[..i], where[k], Param(params, k))
    {
      assert rows[..i + 1][..i] == rows[..i];
      if CondHolds(where[k], rows[i].cells, Param(params, k)) { kept := kept + [rows[i]]; }
    }
    assert rows[..|rows|] == rows;
    KeptRefines(all, where, params, k);
  }

  ghost function Kept(rows: Rows, cond: Cond, expected: Value): Rows
    reads rows
  {
    if rows == [] then [] else
      var last := rows[|rows| - 1];
      Kept(rows[..|rows| - 1], cond, expected) + (if CondHolds(cond, last.cells, expected) then [last] else [])
  }

  lemma {:induction false} KeptRefines(all: Rows, where: seq<Cond>, params: seq<Value>, k: nat)
    requires k < |where|
    ensures Kept(FilterRows(all, where, params, k), where[k], Param(params, k)) == FilterRows(all, where, params, k + 1)
  {
    if all != [] {
      var front, last := all[..|all| - 1], all[|all| - 1];
      KeptRefines(front, where, params, k);
      hide MatchesFirst, CondHolds;
      var f := FilterRows(front, where, params, k);
      assert f + [] == f;
      var g := FilterRows(front, where, params, k + 1);
      assert g + [] == g;
    }
  }

  /** `_applyWhere`: one filter pass per condition, which amounts to filtering by
      all of them at once. */
  method ApplyWhere(rows0: Rows, where: seq<Cond>, params: seq<Value>) returns (rows: Rows)
    ensures rows == FilterRows(rows0, where, params, |where|)
  {
    rows := rows0;
    FilterRowsNone(rows0, where, params);
    for k := 0 to |where|
      invariant rows == FilterRows(rows0, where, params, k)
    {
      rows := FilterStep(rows, where, params, k, rows0);
    }
  }

  /** The cells of every table at this moment, which is what a migration can read. */
  method ReadStore(m: Tables) returns (s: Store)
    ensures s == ViewOf(m)
  {
    hide Cells;
    s := map[];
    var todo := m.Keys;
    while todo != {}
      invariant todo <= m.Keys && s.Keys == m.Keys - todo
      invariant forall t | t in s :: s[t] == Cells(m[t])
      decreases todo
    {
      var t :| t in todo;
      var rows := ReadCells(m[t]);
      s := s[t := rows];
      todo := todo - {t};
    }
  }

  /** `result.rows.map(...)`: the cells of live rows at this moment. */
  method ReadCells(rows: Rows) returns (t: Table)
    ensures t == Cells(rows)
  {
    t := [];
    for i := 0 to |rows|
      invariant t == Cells(rows[..i])
    {
      assert rows[..i + 1][..i] == rows[..i];
      t := t + [rows[i].cells];
    }
    assert rows[..|rows|] == rows;
  }

  // ----- In-place changes of one table

  function ColumnsOf(sets: seq<string>): set<string> {
    set k | 0 <= k < |sets| :: sets[k]
  }

  /** Columns that an UPDATE writes. */
  function SetColumns(cmd: Command): set<string> {
    if cmd.Update? then ColumnsOf(cmd.sets) else {}
  }

  /** Columns that some step of a callback writes. */
  function StepColumns(steps: seq<Step>): set<string> {
    set k, c | 0 <= k < |steps| && !steps[k].Throw? && c in SetColumns(steps[k].cmd) :: c
  }

  /** `a` and `b` agree outside `cols`. */
  ghost predicate AgreeOutside(a: Record, b: Record, cols: set<string>) {
    forall c | c !in cols :: Cell(a, c) == Cell(b, c)
  }

  /** `setAssignments.forEach(...)` on one row object. */
  method AssignRow(row: Row, sets: seq<string>, params: seq<Value>)
    modifies row
    ensures row.cells == Assign(old(row.cells), sets, params)
  {
    for i := 0 to |sets|
      invariant row.cells == Assign(old(row.cells), sets[..i], params)
    {
      assert sets[..i + 1][..i] == sets[..i];
      row.cells := row.cells[sets[i] := Param(params, i)];
    }
    assert sets[..|sets|] == sets;
  }

  lemma AgreeRefl(r: Record, cols: set<string>)
    ensures AgreeOutside(r, r, cols)
  {
  }

  lemma AssignAgrees(r: Record, sets: seq<string>, params: seq<Value>)
    ensures AgreeOutside(r, Assign(r, sets, params), ColumnsOf(sets))
  {
    forall c | c !in ColumnsOf(sets) ensures Cell(Assign(r, sets, params), c) == Cell(r, c) {
      AssignKeeps(r, sets, params, c);
    }
  }

  /** UPDATE: the rows that matched beforehand are written, the others are not. */
  method UpdateInPlace(rows: Rows, sets: seq<string>, where: seq<Cond>, params: seq<Value>) returns (affected: nat)
    requires DistinctRows(rows)
    modifies rows
    ensures Cells(rows) == UpdateRows(old(Cells(rows)), sets, where, params)
    ensures affected == |Filter(old(Cells(rows)), where, Drop(params, |sets|))|
    ensures forall row | row in rows :: AgreeOutside(old(row.cells), row.cells, ColumnsOf(sets))
  {
    hide *;
    ghost var before := Cells(rows);
    var targets := ApplyWhere(rows, where, Drop(params, |sets|));
    TargetFacts(rows, where, Drop(params, |sets|));
    affected := 0;
    for k := 0 to |targets|
      invariant affected == k
      invariant forall i | 0 <= i < |rows| ::
        rows[i].cells == if rows[i] in targets[..k] then Assign(before[i], sets, params) else before[i]
    {
      assert targets[..k + 1] == targets[..k] + [targets[k]];
      AssignRow(targets[k], sets, params);
      affected := affected + 1;
    }
    assert targets[..|targets|] == targets;
    assert Cells(rows) == UpdateRows(before, sets, where, params);
    forall i | 0 <= i < |rows| ensures AgreeOutside(before[i], rows[i].cells, ColumnsOf(sets)) {
      AssignAgrees(before[i], sets, params);
      AgreeRefl(before[i], ColumnsOf(sets));
    }
  }

  lemma TargetFacts(rows: Rows, where: seq<Cond>, params: seq<Value>)
    requires DistinctRows(rows)
    ensures var targets := FilterRows(rows, where, params, |where|);
            && |targets| == |Filter(Cells(rows), where, params)|
            && (forall k | 0 <= k < |targets| :: targets[k] in rows && targets[k] !in targets[..k])
            && forall i | 0 <= i < |rows| :: rows[i] in targets <==> Matches(rows[i].cells, where, params)
  {
    hide Filter, MatchesFirst, FilterRows;
    FilterRowsCells(rows, where, params);
    FilterRowsMembers(rows, where, params, |where|);
    FilterRowsDistinct(rows, where, params, |where|);
  }

  lemma {:induction false} FilterRowsDistinct(rows: Rows, where: seq<Cond>, params: seq<Value>, n: nat)
    requires n <= |where| && DistinctRows(rows)
    ensures DistinctRows(FilterRows(rows, where, params, n))
  {
    if rows != [] {
      FilterRowsDistinct(rows[..|rows| - 1], where, params, n);
      FilterRowsMembers(rows[..|rows| - 1], where, params, n);
    }
  }

  // ----- DELETE

  /** The row objects outside `gone`, in table order. */
  ghost function Without(rows: Rows, gone: set<Row>): Rows {
    if rows == [] then [] else
      var last := rows[|rows| - 1];
      Without(rows[..|rows| - 1], gone) + (if last in gone then [] else [last])
  }

  lemma {:induction false} WithoutMembers(rows: Rows, gone: set<Row>)
    ensures forall r | r in Without(rows, gone) :: r in rows && r !in gone
    ensures forall r | r in rows && r !in gone :: r in Without(rows, gone)
  {
    if rows != [] {
      assert rows == rows[..|rows| - 1] + [rows[|rows| - 1]];
      WithoutMembers(rows[..|rows| - 1], gone);
    }
  }

  lemma {:induction false} WithoutDistinct(rows: Rows, gone: set<Row>)
    requires DistinctRows(rows)
    ensures DistinctRows(Without(rows, gone))
  {
    if rows != [] {
      WithoutDistinct(rows[..|rows| - 1], gone);
      WithoutMembers(rows[..|rows| - 1], gone);
    }
  }

  lemma WithoutStep(rows: Rows, gone: set<Row>)
    ensures rows == [] ==> Without(rows, gone) == []
    ensures rows != [] ==> var last := rows[|rows| - 1];
      Without(rows, gone) == Without(rows[..|rows| - 1], gone) + (if last in gone then [] else [last])
  {
  }

  /** Splicing one more row out. */
  lemma {:induction false} WithoutSplice(rows: Rows, gone: set<Row>, t: Row, i: nat)
    requires DistinctRows(rows)
    requires i < |Without(rows, gone)| && Without(rows, gone)[i] == t
    ensures Without(rows, gone + {t}) == Without(rows, gone)[..i] + Without(rows, gone)[i + 1..]
  {
    hide Without;
    WithoutStep(rows, gone);
    WithoutStep(rows, gone + {t});
    var front, last := rows[..|rows| - 1], rows[|rows| - 1];
    var w := Without(front, gone);
    var tail := if last in gone then [] else [last];
    WithoutMembers(front, gone);
    if i < |w| {
      assert w[i] == t && t in w && t in front;
      WithoutSplice(front, gone, t, i);
      assert (w + tail)[..i] == w[..i] && (w + tail)[i + 1..] == w[i + 1..] + tail;
    } else {
      WithoutAbsent(front, gone, t);
      assert w + tail == w + [t];
      assert (w + [t])[..i] == w && (w + [t])[i + 1..] == [];
    }
  }

  lemma {:induction false} WithoutAbsent(rows: Rows, gone: set<Row>, t: Row)
    requires t !in rows
    ensures Without(rows, gone + {t}) == Without(rows, gone)
  {
    if rows != [] {
      assert rows[|rows| - 1] in rows;
      forall r | r in rows[..|rows| - 1] ensures r in rows {}
      WithoutAbsent(rows[..|rows| - 1], gone, t);
    }
  }

  lemma {:induction false} WithoutCells(rows: Rows, gone: set<Row>, where: seq<Cond>, params: seq<Value>)
    requires forall r | r in rows :: r in gone <==> Matches(r.cells, where, params)
    ensures Cells(Without(rows, gone)) == Reject(Cells(rows), where, params)
  {
    hide Matches;
    if rows != [] {
      var front := rows[..|rows| - 1];
      assert rows[|rows| - 1] in rows;
      forall r | r in front ensures r in rows {}
      WithoutCells(front, gone, where, params);
      assert Cells(rows)[..|rows| - 1] == Cells(front);
      CellsConcat(Without(front, gone), [rows[|rows| - 1]]);
      assert Without(front, gone) + [] == Without(front, gone);
    }
  }

  /** `rows.indexOf(row)` for a row that is there. */
  method IndexOfRow(rows: Rows, row: Row) returns (i: nat)
    requires row in rows
    ensures i < |rows| && rows[i] == row
  {
    i := 0;
    while rows[i] != row
      invariant i < |rows| && row in rows[i..]
      decreases |rows| - i
    {
      i := i + 1;
    }
  }

  /** DELETE: the matching row objects are spliced out, one by one. */
  method DeleteRows(rows: Rows, where: seq<Cond>, params: seq<Value>)
    returns (rest: Rows, affected: nat, ghost gone: set<Row>)
    requires DistinctRows(rows)
    ensures rest == Without(rows, gone)
    ensures Cells(rest) == Reject(Cells(rows), where, params)
    ensures affected == |Filter(Cells(rows), where, params)|
  {
    hide *;
    var targets := ApplyWhere(rows, where, params);
    TargetFacts(rows, where, params);
    rest := rows;
    gone := {};
    WithoutNone(rows);
    affected := 0;
    for k := 0 to |targets|
      invariant affected == k && rest == Without(rows, gone)
      invariant forall r | r in rows :: r in gone <==> r in targets[..k]
    {
      assert targets[..k + 1] == targets[..k] + [targets[k]];
      WithoutMembers(rows, gone);
      var i := IndexOfRow(rest, targets[k]);
      WithoutSplice(rows, gone, targets[k], i);
      rest := rest[..i] + rest[i + 1..];
      gone := gone + {targets[k]};
      affected := affected + 1;
    }
    assert targets[..|targets|] == targets;
    forall r | r in rows ensures r in gone <==> Matches(r.cells, where, params) {
      var i :| 0 <= i < |rows| && rows[i] == r;
      assert rows[i] in targets <==> Matches(rows[i].cells, where, params);
    }
    WithoutCells(rows, gone, where, params);
  }

  lemma {:induction false} WithoutNone(rows: Rows)
    ensures Without(rows, {}) == rows
  {
    if rows != [] {
      WithoutNone(rows[..|rows| - 1]);
      assert rows == rows[..|rows| - 1] + [rows[|rows| - 1]];
    }
  }

  // ----- The snapshot

  /** `_deepClone` of a table: equal rows, all new objects. */
  method CloneRows(rows: Rows) returns (copy: Rows)
    ensures |copy| == |rows| && DistinctRows(copy)
    ensures forall i | 0 <= i < |copy| :: fresh(copy[i])
    ensures Cells(copy) == Cells(rows)
  {
    copy := [];
    for i := 0 to |rows|
      invariant |copy| == i && DistinctRows(copy)
      invariant forall j | 0 <= j < i :: fresh(copy[j]) && copy[j].cells == rows[j].cells
    {
      var row := new Row(rows[i].cells);
      copy := copy + [row];
    }
  }

  ghost predicate Apart(m: Tables, rows: Rows) {
    forall t, i | t in m && 0 <= i < |m[t]| :: m[t][i] !in rows
  }

  lemma NoTables()
    ensures NoSharing(map[]) && RowsOf(map[]) == {}
  {
  }

  lemma ApartByRows(m: Tables, rows: Rows, known: set<Row>)
    requires known == RowsOf(m) && forall r | r in rows :: r !in known
    ensures Apart(m, rows)
  {
  }

  lemma AddTable(m: Tables, t: string, rows: Rows)
    requires NoSharing(m) && t !in m && DistinctRows(rows) && Apart(m, rows)
    ensures NoSharing(m[t := rows])
    ensures RowsOf(m[t := rows]) == RowsOf(m) + set r | r in rows
  {
    hide DistinctRows;
    var m' := m[t := rows];
    forall r | r in rows ensures r in RowsOf(m') {
      var i :| 0 <= i < |rows| && rows[i] == r;
      assert m'[t][i] == r;
    }
    forall r | r in RowsOf(m) ensures r in RowsOf(m') {
      var u, i :| u in m && 0 <= i < |m[u]| && m[u][i] == r;
      assert m'[u][i] == r;
    }
  }

  /** `_deepClone` of the storage. */
  method DeepClone(m: Tables) returns (copy: Tables)
    ensures NoSharing(copy) && fresh(RowsOf(copy))
    ensures ViewOf(copy) == ViewOf(m)
  {
    hide NoSharing, DistinctRows, Cells, ViewOf, Apart;
    copy := map[];
    NoTables();
    var todo := m.Keys;
    while todo != {}
      invariant todo <= m.Keys && copy.Keys == m.Keys - todo
      invariant NoSharing(copy) && fresh(RowsOf(copy))
      invariant forall t | t in copy :: Cells(copy[t]) == Cells(m[t])
      decreases todo
    {
      var t :| t in todo;
      ghost var known := RowsOf(copy);
      var rows := CloneRows(m[t]);
      assert forall i | 0 <= i < |rows| :: rows[i] !in known;
      ApartByRows(copy, rows, known);
      AddTable(copy, t, rows);
      copy := copy[t := rows];
      todo := todo - {t};
    }
  }

  // ----- Changing one table of many

  lemma RowInTable(m: Tables, t: string, i: int)
    requires t in m && 0 <= i < |m[t]|
    ensures m[t][i] in RowsOf(m)
  {
  }

  lemma CreateTableRows(m: Tables, t: string)
    requires NoSharing(m) && t !in m
    ensures NoSharing(m[t := []]) && RowsOf(m[t := []]) == RowsOf(m)
  {
    AddTable(m, t, []);
  }

  lemma AppendRow(m: Tables, t: string, row: Row)
    requires NoSharing(m) && t in m && row !in RowsOf(m)
    ensures NoSharing(m[t := m[t] + [row]])
    ensures RowsOf(m[t := m[t] + [row]]) == RowsOf(m) + {row}
  {
    var m' := m[t := m[t] + [row]];
    forall r | r in RowsOf(m) + {row} ensures r in RowsOf(m') {
      if r == row {
        RowInTable(m', t, |m[t]|);
      } else {
        var u, i :| u in m && 0 <= i < |m[u]| && m[u][i] == r;
        assert m'[u][i] == r;
      }
    }
    forall u, i | u in m && 0 <= i < |m[u]| ensures m[u][i] != row { RowInTable(m, u, i); }
    assert DistinctRows(m'[t]);
  }

  lemma ShrinkTable(m: Tables, t: string, gone: set<Row>)
    requires NoSharing(m) && t in m
    ensures NoSharing(m[t := Without(m[t], gone)])
    ensures RowsOf(m[t := Without(m[t], gone)]) <= RowsOf(m)
  {
    hide Without;
    var w := Without(m[t], gone);
    var m' := m[t := w];
    WithoutDistinct(m[t], gone);
    WithoutMembers(m[t], gone);
    forall i | 0 <= i < |w| ensures w[i] in m[t] { assert w[i] in w; }
    forall u, v, i, j | u in m' && v in m' && u != v && 0 <= i < |m'[u]| && 0 <= j < |m'[v]|
      ensures m'[u][i] != m'[v][j]
    {
      assert m'[u][i] in m[u] && m'[v][j] in m[v];
    }
  }

  lemma ViewAppend(m: Tables, t: string, row: Row)
    requires t in m
    ensures ViewOf(m[t := m[t] + [row]]) == ViewOf(m)[t := ViewOf(m)[t] + [row.cells]]
  {
    CellsConcat(m[t], [row]);
  }

  lemma ViewReplace(m: Tables, t: string, rows: Rows)
    ensures ViewOf(m[t := rows]) == ViewOf(m)[t := Cells(rows)]
  {
    hide Cells;
  }

  lemma InsertView(v0: Store, v1: Store, t: string, cols: seq<string>, params: seq<Value>, v2: Store)
    requires v1 == v0[t := TableOf(v0, t)]
    requires v2 == v1[t := v1[t] + [NewRecord(cols, params)[ID := Num(NextId(v1[t]))]]]
    ensures v2 == ExecStore(v0, Insert(t, cols), params)
    ensures ExecResult(v0, Insert(t, cols), params).insertId == Some(NextId(v1[t]))
  {
  }

  /** The object that an INSERT builds, column by column. */
  method BuildRecord(cols: seq<string>, params: seq<Value>) returns (cells: Record)
    ensures cells == NewRecord(cols, params)
  {
    cells := map[];
    for i := 0 to |cols|
      invariant cells == NewRecord(cols[..i], params)
    {
      assert cols[..i + 1][..i] == cols[..i];
      cells := cells[cols[i] := Param(params, i)];
    }
    assert cols[..|cols|] == cols;
  }

  function SchemaSteps(statements: seq<Command>): seq<Step> {
    seq(|statements|, i requires 0 <= i < |statements| => Run(statements[i], []))
  }

  /** What `query` hands back: live row objects, or an exception. */
  datatype Outcome =
    | Threw
    | Returned(rows: Rows, affectedRows: nat, insertId: Option<int>)

  class Database {
    var connected: bool
    var inTransaction: bool
    var schemaInitialized: bool
    var storage: Tables
    var snapshot: Option<Tables>

    ghost predicate Valid()
      reads this
    {
      && NoSharing(storage)
      && (inTransaction <==> snapshot.Some?)
      && (inTransaction ==> connected)
      && (snapshot.Some? ==> NoSharing(snapshot.value) && RowsOf(storage) !! RowsOf(snapshot.value))
    }

    ghost function View(): Store
      reads this, RowsOf(storage)
    {
      ViewOf(storage)
    }

    ghost function Saved(): Store
      requires snapshot.Some?
      reads this, if snapshot.Some? then RowsOf(snapshot.value) else {}
    {
      ViewOf(snapshot.value)
    }

    constructor ()
      ensures Valid() && !connected && !inTransaction && !schemaInitialized && View() == map[]
    {
      connected, inTransaction, schemaInitialized := false, false, false;
      storage := map[];
      snapshot := None;
    }

    /** `this._storage[t]` is created on demand. */
    method EnsureTable(t: string)
      requires Valid()
      modifies this`storage
      ensures Valid() && t in storage
      ensures RowsOf(storage) == old(RowsOf(storage))
      ensures View() == old(View())[t := TableOf(old(View()), t)]
    {
      hide NoSharing;
      if t !in storage {
        CreateTableRows(storage, t);
        storage := storage[t := []];
      }
    }

    /** `this._storage[t].rows.push(row)` */
    method PushRow(t: string, row: Row)
      requires Valid() && t in storage && row !in RowsOf(storage)
      requires snapshot.Some? ==> row !in RowsOf(snapshot.value)
      modifies this`storage
      ensures Valid() && RowsOf(storage) == old(RowsOf(storage)) + {row}
      ensures View() == old(View())[t := old(View())[t] + [row.cells]]
    {
      hide NoSharing, Cells;
      AppendRow(storage, t, row);
      ViewAppend(storage, t, row);
      storage := storage[t := storage[t] + [row]];
    }

    method ExecInsert(t: string, cols: seq<string>, params: seq<Value>) returns (r: Outcome)
      requires Valid()
      modifies this`storage
      ensures Valid()
      ensures fresh(RowsOf(storage) - old(RowsOf(storage)))
      ensures View() == ExecStore(old(View()), Insert(t, cols), params)
      ensures r == Returned([], 1, ExecResult(old(View()), Insert(t, cols), params).insertId)
    {
      hide NoSharing, Cells, NewRecord, NextId, ExecStore, ExecResult, TableOf, ViewOf;
      ghost var view0 := View();
      EnsureTable(t);
      ghost var view1 := View();
      var cells := BuildRecord(cols, params);
      var id := NextRowId(storage[t]);
      var row := new Row(cells[ID := Num(id)]);
      assert row !in RowsOf(storage) && (snapshot.Some? ==> row !in RowsOf(snapshot.value));
      assert view1 == View();
      hide RowsOf;
      PushRow(t, row);
      InsertView(view0, view1, t, cols, params, View());
      r := Returned([], 1, Some(id));
    }

    method ExecSelect(t: string, where: seq<Cond>, params: seq<Value>) returns (r: Outcome)
      requires Valid()
      ensures r.Returned? && Cells(r.rows) == ExecResult(View(), Select(t, where), params).rows
      ensures r.affectedRows == |r.rows| && r.insertId == None
      ensures forall row | row in r.rows :: t in storage && row in storage[t]
    {
      hide NoSharing, Matches, MatchesFirst, FilterRows, Filter;
      if t !in storage {
        r := Returned([], 0, None);
        FilterEmpty(where, params);
      } else {
        var rows := ApplyWhere(storage[t], where, params);
        FilterRowsCells(storage[t], where, params);
        FilterRowsMembers(storage[t], where, params, |where|);
        r := Returned(rows, |rows|, None);
      }
    }

    /** `query` of a SELECT, which changes nothing. */
    method Read(t: string, where: seq<Cond>, params: seq<Value>) returns (r: Outcome)
      requires Valid()
      ensures r.Threw? <==> !connected
      ensures connected ==> Cells(r.rows) == Filter(TableOf(View(), t), where, params)
      ensures connected ==> r.affectedRows == |r.rows| && r.insertId == None
      ensures connected ==> forall row | row in r.rows :: row in RowsOf(storage)
    {
      hide NoSharing, Filter, Cells;
      if !connected { return Threw; }
      r := ExecSelect(t, where, params);
      if t in storage { TableRows(storage, t); }
    }

    /** `rows[0]` of a lookup. */
    method FindFirst(t: string, where: seq<Cond>, params: seq<Value>) returns (down: bool, row: Option<Row>)
      requires Valid()
      ensures down == !connected
      ensures !down ==> match First(View(), t, where, params)
                        case None => row.None?
                        case Some(r) => row.Some? && row.value.cells == r && row.value in RowsOf(storage)
    {
      hide Filter, NoSharing, Cells;
      var r := Read(t, where, params);
      if r.Threw? { return true, None; }
      down := false;
      row := if r.rows == [] then None else Some(r.rows[0]);
    }

    method ExecUpdate(t: string, sets: seq<string>, where: seq<Cond>, params: seq<Value>) returns (r: Outcome)
      requires Valid()
      modifies RowsOf(storage)
      ensures View() == ExecStore(old(View()), Update(t, sets, where), params)
      ensures r == Returned([], ExecResult(old(View()), Update(t, sets, where), params).affectedRows, None)
      ensures forall row | row in RowsOf(storage) :: AgreeOutside(old(row.cells), row.cells, ColumnsOf(sets))
    {
      hide Cells, AgreeOutside, ColumnsOf, UpdateRows, Filter;
      if t !in storage {
        FilterEmpty(where, Drop(params, |sets|));
        r := Returned([], 0, None);
        forall row | row in RowsOf(storage) ensures AgreeOutside(old(row.cells), row.cells, ColumnsOf(sets)) {
          AgreeRefl(row.cells, ColumnsOf(sets));
        }
      } else {
        TableRows(storage, t);
        var n := UpdateInPlace(storage[t], sets, where, params);
        r := Returned([], n, None);
        forall row | row in RowsOf(storage)
          ensures AgreeOutside(old(row.cells), row.cells, ColumnsOf(sets))
        {
          if row !in storage[t] { AgreeRefl(row.cells, ColumnsOf(sets)); }
        }
      }
    }

    method ExecDelete(t: string, where: seq<Cond>, params: seq<Value>) returns (r: Outcome)
      requires Valid()
      modifies this`storage
      ensures Valid() && RowsOf(storage) <= old(RowsOf(storage))
      ensures View() == ExecStore(old(View()), Delete(t, where), params)
      ensures r == Returned([], ExecResult(old(View()), Delete(t, where), params).affectedRows, None)
    {
      hide NoSharing, Cells, Filter, Reject, ViewOf;
      if t !in storage {
        FilterEmpty(where, params);
        r := Returned([], 0, None);
      } else {
        NoSharingTable(storage, t);
        var rest, n, gone := DeleteRows(storage[t], where, params);
        ShrinkTable(storage, t, gone);
        ViewReplace(storage, t, rest);
        storage := storage[t := rest];
        r := Returned([], n, None);
      }
    }

    /** `query`: one command against the live storage. */
    method Query(cmd: Command, params: seq<Value>) returns (r: Outcome)
      requires Valid()
      modifies this`storage, RowsOf(storage)
      ensures Valid() && fresh(RowsOf(storage) - old(RowsOf(storage)))
      ensures !connected ==> r == Threw && View() == old(View())
      ensures connected ==> r.Returned? && View() == ExecStore(old(View()), cmd, params)
      ensures connected ==> var e := ExecResult(old(View()), cmd, params);
        Cells(r.rows) == e.rows && r.affectedRows == e.affectedRows && r.insertId == e.insertId
      ensures connected ==> forall row | row in r.rows :: row in RowsOf(storage)
      ensures forall row | row in old(RowsOf(storage)) :: AgreeOutside(old(row.cells), row.cells, SetColumns(cmd))
    {
      hide NoSharing, Cells, Filter, Reject, AgreeOutside, ColumnsOf;
      KeptRows(RowsOf(storage), SetColumns(cmd));
      if !connected { return Threw; }
      match cmd {
        case CreateTable(t) => EnsureTable(t); r := Returned([], 0, None);
        case Insert(t, cols) => r := ExecInsert(t, cols, params);
        case Select(t, where) => r := Read(t, where, params);
        case Update(t, sets, where) => r := ExecUpdate(t, sets, where, params);
        case Delete(t, where) => r := ExecDelete(t, where, params);
        case Other => r := Returned([], 0, None);
      }
    }

    /** `connect`; throws when already connected. */
    method Connect() returns (ok: bool)
      requires Valid()
      modifies this`connected, this`inTransaction
      ensures Valid() && connected && ok == !old(connected) && inTransaction == old(inTransaction)
    {
      if connected { return false; }
      connected := true;
      inTransaction := false;
      ok := true;
    }

    /** `beginTransaction`; throws when not connected or already inside one. */
    method BeginTransaction() returns (ok: bool)
      requires Valid()
      modifies this`inTransaction, this`snapshot
      ensures Valid() && ok == (connected && !old(inTransaction))
      ensures inTransaction == (ok || old(inTransaction))
      ensures if ok then Saved() == View() && fresh(RowsOf(snapshot.value)) else snapshot == old(snapshot)
      ensures View() == old(View()) && (old(inTransaction) ==> Saved() == old(Saved()))
    {
      hide *;
      if !connected { return false; }
      if inTransaction { return false; }
      TakeSnapshot();
      ok := true;
    }

    /** The second half of `beginTransaction`. */
    method TakeSnapshot()
      requires Valid() && connected && !inTransaction
      modifies this`inTransaction, this`snapshot
      ensures Valid() && inTransaction && snapshot.Some?
      ensures Saved() == View() == old(View()) && fresh(RowsOf(snapshot.value))
    {
      hide NoSharing, Cells, ViewOf;
      var copy := DeepClone(storage);
      Keep(copy);
    }

    /** The two fields that `beginTransaction` sets. */
    method Keep(copy: Tables)
      requires Valid() && connected && !inTransaction
      requires NoSharing(copy) && RowsOf(storage) !! RowsOf(copy)
      modifies this`inTransaction, this`snapshot
      ensures Valid() && inTransaction && snapshot == Some(copy)
      ensures Saved() == old(ViewOf(copy)) && View() == old(View())
    {
      hide NoSharing, Cells;
      inTransaction := true;
      snapshot := Some(copy);
    }

    /** `commit`; throws when there is nothing to commit. */
    method Commit() returns (ok: bool)
      requires Valid()
      modifies this`inTransaction, this`snapshot
      ensures Valid() && ok == old(inTransaction) && !inTransaction && View() == old(View())
    {
      hide NoSharing, Cells, ViewOf;
      if !connected { return false; }
      if !inTransaction { return false; }
      inTransaction := false;
      snapshot := None;
      ok := true;
    }

    /** `rollback`: the snapshot becomes the storage.  Rows handed out since then go stale. */
    method Rollback() returns (ok: bool)
      requires Valid()
      modifies this`inTransaction, this`snapshot, this`storage
      ensures Valid() && ok == old(inTransaction) && !inTransaction
      ensures if ok then View() == old(Saved()) && RowsOf(storage) == old(RowsOf(snapshot.value))
              else storage == old(storage)
    {
      hide NoSharing, Cells;
      if !connected { return false; }
      if !inTransaction { return false; }
      if snapshot.Some? {
        storage := snapshot.value;
        snapshot := None;
      }
      inTransaction := false;
      ok := true;
    }

    /** `disconnect`: an open transaction is rolled back first. */
    method Disconnect()
      requires Valid()
      modifies this
      ensures Valid() && !connected && !inTransaction && !schemaInitialized
      ensures View() == old(if inTransaction then Saved() else View())
    {
      hide *;
      if inTransaction { var ok := Rollback(); }
      Close();
    }

    /** The fields that `disconnect` resets. */
    method Close()
      requires Valid() && !inTransaction
      modifies this`connected, this`inTransaction, this`schemaInitialized
      ensures Valid() && !connected && !inTransaction && !schemaInitialized && View() == old(View())
    {
      hide NoSharing;
      connected := false;
      inTransaction := false;
      schemaInitialized := false;
    }

    /** One step of a callback; `ran` is what happened so far. */
    method RunOne(step: Step, faulty: bool, ghost ran: Ran, ids: seq<Option<int>>, ghost cols: set<string>)
      returns (ok: bool, ids': seq<Option<int>>)
      requires Valid() && connected && View() == ran.store && ran.ok && ids == InsertIds(ran.results)
      requires !step.Throw? ==> SetColumns(step.cmd) <= cols
      modifies this`storage, RowsOf(storage)
      ensures Valid() && fresh(RowsOf(storage) - old(RowsOf(storage)))
      ensures var after := RunStep(ran, step, faulty);
        View() == after.store && ok == after.ok && ids' == InsertIds(after.results)
      ensures forall row | row in old(RowsOf(storage)) :: AgreeOutside(old(row.cells), row.cells, cols)
    {
      hide NoSharing, Cells, AgreeOutside, ExecStore, ExecResult, SetColumns;
      KeptRows(RowsOf(storage), cols);
      if step.Throw? || faulty { return false, ids; }
      var r := Query(step.cmd, step.params);
      forall row | row in old(RowsOf(storage)) ensures AgreeOutside(old(row.cells), row.cells, cols) {
        AgreeWiden(old(row.cells), row.cells, SetColumns(step.cmd), cols);
      }
      ids' := ids + [r.insertId];
      ok := !((step.FailIfFound? && r.rows != []) || (step.FailIfNone? && r.affectedRows == 0));
    }

    /** Runs the steps of a callback until one of them throws. */
    method RunCallback(steps: seq<Step>, fault: Option<nat>) returns (ok: bool, ids: seq<Option<int>>)
      requires Valid() && connected
      modifies this`storage, RowsOf(storage)
      ensures Valid() && fresh(RowsOf(storage) - old(RowsOf(storage)))
      ensures var ran := RunSteps(old(View()), steps, fault, |steps|);
        View() == ran.store && ok == ran.ok && ids == InsertIds(ran.results)
      ensures forall row | row in old(RowsOf(storage)) :: AgreeOutside(old(row.cells), row.cells, StepColumns(steps))
    {
      hide NoSharing, Cells, AgreeOutside, StepColumns, SetColumns, RunStep, InsertIds, ViewOf, Database.View,
        Database.Valid;
      KeptRows(RowsOf(storage), StepColumns(steps));
      ok, ids := true, [];
      ghost var ran := Ran(View(), true, []);
      NoInsertIds();
      ghost var view0 := View();
      var k := 0;
      while k < |steps| && ok
        invariant k <= |steps| && Valid() && connected && fresh(RowsOf(storage) - old(RowsOf(storage)))
        invariant ran == RunSteps(view0, steps, fault, k)
        invariant View() == ran.store && ok == ran.ok && ids == InsertIds(ran.results)
        invariant forall row | row in old(RowsOf(storage)) ::
          AgreeOutside(old(row.cells), row.cells, StepColumns(steps))
      {
        StepColumnsCover(steps, k);
        label BeforeStep:
        ok, ids := RunOne(steps[k], fault == Some(k), ran, ids, StepColumns(steps));
        ran := RunStep(ran, steps[k], fault == Some(k));
        forall row | row in old(RowsOf(storage))
          ensures AgreeOutside(old(row.cells), row.cells, StepColumns(steps))
        {
          if row in old@BeforeStep(RowsOf(storage)) {
            AgreeChain(old(row.cells), old@BeforeStep(row.cells), row.cells, StepColumns(steps));
          }
        }
        k := k + 1;
      }
      StopEarly(view0, steps, fault, k);
    }

    /** A callback cannot reach the snapshot, whose rows are not the storage's. */
    method RunApart(steps: seq<Step>, fault: Option<nat>) returns (ok: bool, ids: seq<Option<int>>)
      requires Valid() && inTransaction
      modifies this`storage, RowsOf(storage)
      ensures Valid() && fresh(RowsOf(storage) - old(RowsOf(storage)))
      ensures var ran := RunSteps(old(View()), steps, fault, |steps|);
        View() == ran.store && ok == ran.ok && ids == InsertIds(ran.results)
      ensures Saved() == old(Saved()) && snapshot == old(snapshot)
        && RowsOf(snapshot.value) == old(RowsOf(snapshot.value))
      ensures forall row | row in old(RowsOf(storage)) :: AgreeOutside(old(row.cells), row.cells, StepColumns(steps))
    {
      hide NoSharing, Cells, AgreeOutside, StepColumns, InsertIds, RunSteps, ViewOf;
      ok, ids := RunCallback(steps, fault);
    }

    /** The try block of `transaction`: the callback, then commit or roll back. */
    method CommitOrRollback(steps: seq<Step>, fault: Option<nat>) returns (ok: bool, ids: seq<Option<int>>)
      requires Valid() && inTransaction
      modifies this`storage, this`inTransaction, this`snapshot, RowsOf(storage)
      ensures Valid() && !inTransaction
      ensures var ran := RunSteps(old(View()), steps, fault, |steps|);
        ok == ran.ok && View() == (if ok then ran.store else old(Saved())) && ids == InsertIds(ran.results)
      ensures fresh(RowsOf(storage) - old(RowsOf(storage)) - old(RowsOf(snapshot.value)))
      ensures forall row | row in old(RowsOf(storage)) :: AgreeOutside(old(row.cells), row.cells, StepColumns(steps))
    {
      hide NoSharing, Cells, AgreeOutside, StepColumns, InsertIds, RunSteps, ViewOf, Database.View, Database.Saved,
        Database.Valid;
      ok, ids := RunApart(steps, fault);
      if ok {
        ok := Commit();
      } else {
        RollbackAndReset();
      }
    }

    /** The catch block of `transaction`. */
    method RollbackAndReset()
      requires Valid() && inTransaction
      modifies this`inTransaction, this`snapshot, this`storage
      ensures Valid() && !inTransaction
      ensures View() == old(Saved()) && RowsOf(storage) == old(RowsOf(snapshot.value))
    {
      hide NoSharing, Cells, ViewOf;
      var rolledBack := Rollback();
      inTransaction := false;
    }

    /** `transaction(callback)`: commits all of the callback's effects or leaves the
        storage as it was, although rows are written in place meanwhile.  A nested
        call throws before it touches anything. */
    method Transaction(steps: seq<Step>, fault: Option<nat>) returns (ok: bool, ids: seq<Option<int>>)
      requires Valid()
      modifies this`storage, this`inTransaction, this`snapshot, RowsOf(storage)
      ensures Valid()
      ensures !connected || old(inTransaction) ==>
        !ok && storage == old(storage) && View() == old(View())
        && inTransaction == old(inTransaction) && snapshot == old(snapshot)
      ensures old(inTransaction) ==> Saved() == old(Saved())
      ensures connected && !old(inTransaction) ==>
        var t := Transact(old(View()), steps, fault);
        !inTransaction && ok == t.ok && View() == t.store && ids == InsertIds(t.results)
      ensures fresh(RowsOf(storage) - old(RowsOf(storage)))
      ensures forall row | row in old(RowsOf(storage)) :: AgreeOutside(old(row.cells), row.cells, StepColumns(steps))
    {
      hide NoSharing, Cells, AgreeOutside, StepColumns, InsertIds, RunSteps, ViewOf, Database.View, Database.Saved,
        Database.Valid;
      KeptRows(RowsOf(storage), StepColumns(steps));
      ok := BeginTransaction();
      if !ok { return false, []; }
      ok, ids := CommitOrRollback(steps, fault);
    }

    /** `initializeSchema`: all statements or none. */
    method InitializeSchema(statements: seq<Command>, fault: Option<nat>) returns (ok: bool)
      requires Valid()
      modifies this, RowsOf(storage)
      ensures Valid() && connected == old(connected)
      ensures ok <==> connected && !old(inTransaction) && statements != []
                      && Transact(old(View()), SchemaSteps(statements), fault).ok
      ensures ok ==> schemaInitialized && View() == Transact(old(View()), SchemaSteps(statements), fault).store
      ensures !ok ==> View() == old(View()) && schemaInitialized == old(schemaInitialized)
    {
      hide NoSharing, Cells, AgreeOutside, StepColumns, InsertIds, RunSteps, ViewOf;
      if !connected { return false; }
      if statements == [] { return false; }
      var ids;
      ok, ids := Transaction(SchemaSteps(statements), fault);
      if ok { schemaInitialized := true; }
    }
  }

  lemma AgreeChain(a: Record, b: Record, c: Record, cols: set<string>)
    requires AgreeOutside(a, b, cols) && AgreeOutside(b, c, cols)
    ensures AgreeOutside(a, c, cols)
  {
  }

  lemma AgreeWiden(a: Record, b: Record, some: set<string>, cols: set<string>)
    requires AgreeOutside(a, b, some) && some <= cols
    ensures AgreeOutside(a, b, cols)
  {
  }

  lemma NoInsertIds()
    ensures InsertIds([]) == []
  {
  }

  lemma StepColumnsCover(steps: seq<Step>, k: nat)
    requires k < |steps|
    ensures !steps[k].Throw? ==> SetColumns(steps[k].cmd) <= StepColumns(steps)
  {
  }

  /** Once a step has thrown, the rest of the callback does not run. */
  lemma {:induction false} StopEarly(s: Store, steps: seq<Step>, fault: Option<nat>, k: nat)
    requires k <= |steps|
    ensures !RunSteps(s, steps, fault, k).ok ==>
      RunSteps(s, steps, fault, |steps|) == RunSteps(s, steps, fault, k)
    decreases |steps| - k
  {
    if k < |steps| { StopEarly(s, steps, fault, k + 1); }
  }

  lemma KeptRows(rows: set<Row>, cols: set<string>)
    ensures forall row | row in rows :: AgreeOutside(row.cells, row.cells, cols)
  {
  }

  lemma NoSharingTable(m: Tables, t: string)
    requires NoSharing(m) && t in m
    ensures DistinctRows(m[t])
  {
  }

  lemma FilterEmpty(where: seq<Cond>, params: seq<Value>)
    ensures Filter([], where, params) == []
  {
  }

  lemma TableRows(m: Tables, t: string)
    requires t in m
    ensures forall r | r in m[t] :: r in RowsOf(m)
  {
  }

  lemma NoMaxId()
    ensures MaxId([]) == None
  {
  }

  lemma MaxIdStep(table: Table, i: nat)
    requires i < |table|
    ensures MaxId(table[..i + 1]) ==
            match Cell(table[i], ID)
            case Num(n) => if MaxId(table[..i]).None? || MaxId(table[..i]).value < n then Some(n) else MaxId(table[..i])
            case _ => MaxId(table[..i])
  {
    assert table[..i + 1][..i] == table[..i];
  }

  /** `Math.max(...rows.map(r => r.id)) + 1`, or 1. */
  method NextRowId(rows: Rows) returns (id: int)
    ensures id == NextId(Cells(rows))
  {
    hide MaxId, Cells;
    var m: Option<int> := None;
    ghost var table := Cells(rows);
    NoMaxId();
    for i := 0 to |rows|
      invariant m == MaxId(table[..i])
    {
      MaxIdStep(table, i);
      match Cell(rows[i].cells, ID) {
        case Num(n) => if m.None? || m.value < n { m := Some(n); }
        case _ =>
      }
    }
    assert table[..|rows|] == table;
    id := if m.None? then 1 else m.value + 1;
  }
}
