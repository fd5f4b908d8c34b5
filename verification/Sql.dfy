/** What the in-memory database's commands mean on plain values. */
module Sql {
  import opened Orders
  import opened Models

  /** The JavaScript values that rows hold. */
  datatype Value = Undefined | Null | Num(n: int) | Str(s: string)

  type Record = map<string, Value>
  type Table = seq<Record>
  type Store = map<string, Table>

  const ID := "id"

  /** `row[col]` */
  function Cell(r: Record, col: string): Value {
    if col in r then r[col] else Undefined
  }

  /** `params[i]` */
  function Param(params: seq<Value>, i: nat): Value {
    if i < |params| then params[i] else Undefined
  }

  datatype Op = Eq | Ne | Lt | Gt | Le | Ge

  /** A WHERE conjunct: a comparison with the next parameter, or text that the
      database does not recognise and that filters nothing. */
  datatype Cond = Cmp(col: string, op: Op) | Unrecognised

  /** A parsed command.  `sets` are the assigned columns as the parser delivers
      them, lower-cased. */
  datatype Command =
    | CreateTable(table: string)
    | Insert(table: string, cols: seq<string>)
    | Select(table: string, where: seq<Cond>)
    | Update(table: string, sets: seq<string>, where: seq<Cond>)
    | Delete(table: string, where: seq<Cond>)
    | Other

  datatype Result = Result(rows: seq<Record>, affectedRows: nat, insertId: Option<int>)

  predicate IsNullish(v: Value) { v == Null || v == Undefined }

  /** JavaScript truthiness of a cell. */
  predicate Truthy(v: Value) { !IsNullish(v) && v != Num(0) && v != Str("") }

  /** `a < b` for two numbers or two strings; other mixes are never ordered here. */
  predicate ValueLess(a: Value, b: Value) {
    match (a, b)
    case (Num(x), Num(y)) => x < y
    case (Str(x), Str(y)) => StringLess(x, y)
    case _ => false
  }

  predicate ValueLeq(a: Value, b: Value) {
    match (a, b)
    case (Num(x), Num(y)) => x <= y
    case (Str(x), Str(y)) => x == y || StringLess(x, y)
    case _ => false
  }

  predicate Holds(op: Op, val: Value, expected: Value) {
    match op
    case Eq => val == expected
    case Ne => val != expected
    case Lt => !IsNullish(val) && !IsNullish(expected) && ValueLess(val, expected)
    case Gt => !IsNullish(val) && !IsNullish(expected) && ValueLess(expected, val)
    case Le => !IsNullish(val) && !IsNullish(expected) && ValueLeq(val, expected)
    case Ge => !IsNullish(val) && !IsNullish(expected) && ValueLeq(expected, val)
  }

  /** On numbers and on texts the operators compare; nothing is ordered against an absent value. */
  lemma OperatorsMean(op: Op, a: Value, b: Value)
    ensures a.Num? && b.Num? ==>
      (Holds(op, a, b) <==> match op case Eq => a.n == b.n case Ne => a.n != b.n case Lt => a.n < b.n
                                     case Gt => a.n > b.n case Le => a.n <= b.n case Ge => a.n >= b.n)
    ensures a.Str? && b.Str? ==>
      (Holds(op, a, b) <==> match op case Eq => a.s == b.s case Ne => a.s != b.s case Lt => StringLess(a.s, b.s)
                                     case Gt => StringLess(b.s, a.s) case Le => !StringLess(b.s, a.s)
                                     case Ge => !StringLess(a.s, b.s))
    ensures IsNullish(a) || IsNullish(b) ==> (Holds(op, a, b) <==> (op == Eq && a == b) || (op == Ne && a != b))
  {
    if a.Str? && b.Str? { StringTotal(a.s, b.s); StringIrreflexive(a.s); }
  }

  predicate CondHolds(cond: Cond, r: Record, expected: Value) {
    cond.Cmp? ==> Holds(cond.op, Cell(r, cond.col), expected)
  }

  /** The first `n` conditions hold of `r`; the k-th reads the k-th parameter. */
  predicate MatchesFirst(r: Record, where: seq<Cond>, params: seq<Value>, n: nat)
    requires n <= |where|
  {
    forall k | 0 <= k < n :: CondHolds(where[k], r, Param(params, k))
  }

  predicate Matches(r: Record, where: seq<Cond>, params: seq<Value>) {
    MatchesFirst(r, where, params, |where|)
  }

  /** The records that match, in table order. */
  function Filter(rows: Table, where: seq<Cond>, params: seq<Value>): (kept: Table) {
    if rows == [] then [] else
      var last := rows[|rows| - 1];
      Filter(rows[..|rows| - 1], where, params) + (if Matches(last, where, params) then [last] else [])
  }

  function Reject(rows: Table, where: seq<Cond>, params: seq<Value>): (kept: Table) {
    if rows == [] then [] else
      var last := rows[|rows| - 1];
      Reject(rows[..|rows| - 1], where, params) + (if Matches(last, where, params) then [] else [last])
  }

  /** `row[sets[i]] = params[i]` for every i. */
  function Assign(r: Record, sets: seq<string>, params: seq<Value>): Record {
    if sets == [] then r else
      var n := |sets| - 1;
      Assign(r, sets[..n], params)[sets[n] := Param(params, n)]
  }

  function UpdateRows(rows: Table, sets: seq<string>, where: seq<Cond>, params: seq<Value>): (u: Table)
    ensures |u| == |rows|
    ensures forall i | 0 <= i < |rows| ::
      u[i] == if Matches(rows[i], where, Drop(params, |sets|)) then Assign(rows[i], sets, params) else rows[i]
  {
    if rows == [] then [] else
      var last := rows[|rows| - 1];
      UpdateRows(rows[..|rows| - 1], sets, where, params)
      + [if Matches(last, where, Drop(params, |sets|)) then Assign(last, sets, params) else last]
  }

  /** `params.slice(n)` */
  function Drop(params: seq<Value>, n: nat): seq<Value> {
    if n <= |params| then params[n..] else []
  }

  /** The row that an INSERT builds before it gets its id. */
  function NewRecord(cols: seq<string>, params: seq<Value>): Record {
    if cols == [] then map[] else
      var n := |cols| - 1;
      NewRecord(cols[..n], params)[cols[n] := Param(params, n)]
  }

  /** `Math.max(...ids) + 1`, or 1 when there are no ids. */
  function NextId(rows: Table): int {
    var m := MaxId(rows);
    if m.None? then 1 else m.value + 1
  }

  function MaxId(rows: Table): Option<int> {
    if rows == [] then None else
      var m := MaxId(rows[..|rows| - 1]);
      match Cell(rows[|rows| - 1], ID)
      case Num(n) => if m.None? || m.value < n then Some(n) else m
      case _ => m
  }

  function TableOf(s: Store, table: string): Table {
    if table in s then s[table] else []
  }

  function Inserted(s: Store, table: string, cols: seq<string>, params: seq<Value>): Record {
    NewRecord(cols, params)[ID := Num(NextId(TableOf(s, table)))]
  }

  /** The store after a command. */
  function ExecStore(s: Store, cmd: Command, params: seq<Value>): Store {
    match cmd
    case CreateTable(t) => if t in s then s else s[t := []]
    case Insert(t, cols) => s[t := TableOf(s, t) + [Inserted(s, t, cols, params)]]
    case Select(_, _) => s
    case Update(t, sets, where) => if t in s then s[t := UpdateRows(s[t], sets, where, params)] else s
    case Delete(t, where) => if t in s then s[t := Reject(s[t], where, params)] else s
    case Other => s
  }

  /** What a command returns. */
  function ExecResult(s: Store, cmd: Command, params: seq<Value>): Result {
    match cmd
    case Insert(t, cols) => Result([], 1, Some(NextId(TableOf(s, t))))
    case Select(t, where) =>
      var rows := Filter(TableOf(s, t), where, params);
      Result(rows, |rows|, None)
    case Update(t, sets, where) => Result([], |Filter(TableOf(s, t), where, Drop(params, |sets|))|, None)
    case Delete(t, where) => Result([], |Filter(TableOf(s, t), where, params)|, None)
    case _ => Result([], 0, None)
  }

  /** One step of a transaction callback: a query, a query whose result makes the
      callback throw, or a plain throw.  A callback is the list of the steps that
      one run of it takes. */
  datatype Step =
    | Run(cmd: Command, params: seq<Value>)
    | FailIfFound(cmd: Command, params: seq<Value>)
    | FailIfNone(cmd: Command, params: seq<Value>)
    | Throw

  /** `r` makes the step throw. */
  predicate Throws(step: Step, r: Result) {
    match step
    case FailIfFound(_, _) => r.rows != []
    case FailIfNone(_, _) => r.affectedRows == 0
    case _ => false
  }

  datatype Ran = Ran(store: Store, ok: bool, results: seq<Result>)

  function InsertIds(results: seq<Result>): seq<Option<int>> {
    seq(|results|, i requires 0 <= i < |results| => results[i].insertId)
  }

  /** One more step; `faulty` makes its query throw before it does anything. */
  function RunStep(before: Ran, step: Step, faulty: bool): Ran {
    if step.Throw? || faulty then Ran(before.store, false, before.results) else
      var r := ExecResult(before.store, step.cmd, step.params);
      Ran(ExecStore(before.store, step.cmd, step.params), !Throws(step, r), before.results + [r])
  }

  /** The first `n` steps of a callback; `fault` is the step whose query is made to
      throw, if any. */
  function RunSteps(s: Store, steps: seq<Step>, fault: Option<nat>, n: nat): Ran
    requires n <= |steps|
  {
    if n == 0 then Ran(s, true, []) else
      var before := RunSteps(s, steps, fault, n - 1);
      if !before.ok then before else RunStep(before, steps[n - 1], fault == Some(n - 1))
  }

  /** A whole transaction: all of the callback's effects, or none. */
  function Transact(s: Store, steps: seq<Step>, fault: Option<nat>): (r: Ran)
    ensures !r.ok ==> r.store == s
  {
    var ran := RunSteps(s, steps, fault, |steps|);
    if ran.ok then ran else Ran(s, false, ran.results)
  }

  // ----- What a transaction does

  /** The commands of the first `n` steps, one after the other. */
  function After(s: Store, steps: seq<Step>, n: nat): Store
    requires n <= |steps|
  {
    if n == 0 then s else
      var before := After(s, steps, n - 1);
      if steps[n - 1].Throw? then before else ExecStore(before, steps[n - 1].cmd, steps[n - 1].params)
  }

  /** Some row of the table matches; the clause reads its parameters from `from` on. */
  ghost predicate SomeRow(s: Store, table: string, where: seq<Cond>, params: seq<Value>, from: nat) {
    exists r :: r in TableOf(s, table) && Matches(r, where, Drop(params, from))
  }

  /** The step throws of itself: a plain throw, a row where none may be, or none where one must be. */
  ghost predicate Stops(s: Store, step: Step) {
    match step
    case Throw => true
    case Run(_, _) => false
    case FailIfFound(cmd, params) => cmd.Select? && SomeRow(s, cmd.table, cmd.where, params, 0)
    case FailIfNone(cmd, params) =>
      match cmd
      case Insert(_, _) => false
      case Select(t, where) => !SomeRow(s, t, where, params, 0)
      case Update(t, sets, where) => !SomeRow(s, t, where, params, |sets|)
      case Delete(t, where) => !SomeRow(s, t, where, params, 0)
      case _ => true
  }

  lemma NoRowIff(s: Store, table: string, where: seq<Cond>, params: seq<Value>, from: nat)
    ensures Filter(TableOf(s, table), where, Drop(params, from)) == [] <==> !SomeRow(s, table, where, params, from)
  {
    hide Matches, Filter;
    FilterStarts(TableOf(s, table), where, Drop(params, from));
  }

  lemma StopsIff(s: Store, step: Step)
    ensures RunStep(Ran(s, true, []), step, false).ok <==> !Stops(s, step)
  {
    hide Filter, SomeRow;
    if !step.Throw? {
      var params := step.params;
      assert Drop(params, 0) == params;
      match step.cmd
      case Select(t, where) => NoRowIff(s, t, where, params, 0);
      case Update(t, sets, where) => NoRowIff(s, t, where, params, |sets|);
      case Delete(t, where) => NoRowIff(s, t, where, params, 0);
      case _ =>
    }
  }

  lemma StepGoes(before: Ran, step: Step, faulty: bool)
    requires before.ok
    ensures var r := RunStep(before, step, faulty);
      && (r.ok <==> !faulty && !Stops(before.store, step))
      && (r.ok ==> !step.Throw? && r.store == ExecStore(before.store, step.cmd, step.params))
  {
    hide ExecStore, ExecResult, Throws;
    StopsIff(before.store, step);
    hide Stops;
    if !step.Throw? && !faulty {
      assert RunStep(before, step, false).ok == RunStep(Ran(before.store, true, []), step, false).ok;
    }
  }

  /** Step `k` is not made to fail and does not throw on what the commands before it left. */
  ghost predicate GoesAt(s: Store, steps: seq<Step>, fault: Option<nat>, k: nat)
    requires k < |steps|
  {
    fault != Some(k) && !Stops(After(s, steps, k), steps[k])
  }

  lemma {:induction false} StepsGoIff(s: Store, steps: seq<Step>, fault: Option<nat>, n: nat)
    requires n <= |steps|
    ensures var ran := RunSteps(s, steps, fault, n);
      && (ran.ok <==> forall k: nat | k < n :: GoesAt(s, steps, fault, k))
      && (ran.ok ==> ran.store == After(s, steps, n))
  {
    hide RunStep, GoesAt, ExecStore;
    if n > 0 {
      StepsGoIff(s, steps, fault, n - 1);
      var before := RunSteps(s, steps, fault, n - 1);
      if before.ok { NextGoes(s, steps, fault, n - 1, before); }
    }
  }

  lemma NextGoes(s: Store, steps: seq<Step>, fault: Option<nat>, k: nat, before: Ran)
    requires k < |steps| && before.ok && before.store == After(s, steps, k)
    ensures var r := RunStep(before, steps[k], fault == Some(k));
      && (r.ok <==> GoesAt(s, steps, fault, k))
      && (r.ok ==> !steps[k].Throw? && r.store == ExecStore(before.store, steps[k].cmd, steps[k].params))
  {
    hide RunStep, Stops, ExecStore, After;
    StepGoes(before, steps[k], fault == Some(k));
  }

  /** A transaction carries out all commands of its callback, one after the other, exactly when no
      step fails or throws, and otherwise changes nothing. */
  lemma TransactionGoesIff(s: Store, steps: seq<Step>, fault: Option<nat>)
    ensures var t := Transact(s, steps, fault);
      && (t.ok <==> forall k: nat | k < |steps| :: GoesAt(s, steps, fault, k))
      && t.store == if t.ok then After(s, steps, |steps|) else s
  {
    hide RunSteps, GoesAt, After;
    StepsGoIff(s, steps, fault, |steps|);
  }

  // ----- Reading and writing rows

  const BY_ID := [Cmp(ID, Eq)]

  /** `query(...).rows[0]` */
  function First(s: Store, table: string, where: seq<Cond>, params: seq<Value>): Option<Record> {
    var rows := Filter(TableOf(s, table), where, params);
    if rows == [] then None else Some(rows[0])
  }

  lemma {:induction false} FilterMembers(rows: Table, where: seq<Cond>, params: seq<Value>)
    ensures forall r | r in Filter(rows, where, params) :: r in rows && Matches(r, where, params)
    ensures forall r | r in rows && Matches(r, where, params) :: r in Filter(rows, where, params)
  {
    hide Matches;
    if rows != [] {
      assert rows == rows[..|rows| - 1] + [rows[|rows| - 1]];
      FilterMembers(rows[..|rows| - 1], where, params);
    }
  }

  /** Row `i` matches and no row before it does. */
  ghost predicate FirstMatch(rows: Table, where: seq<Cond>, params: seq<Value>, i: int) {
    && 0 <= i < |rows| && Matches(rows[i], where, params)
    && forall j | 0 <= j < i :: !Matches(rows[j], where, params)
  }

  /** A lookup answers with the first row that matches, if any does. */
  lemma {:induction false} FilterStarts(rows: Table, where: seq<Cond>, params: seq<Value>)
    ensures var kept := Filter(rows, where, params);
      && (kept == [] <==> forall j | 0 <= j < |rows| :: !Matches(rows[j], where, params))
      && (kept != [] ==> exists i :: FirstMatch(rows, where, params, i) && rows[i] == kept[0])
  {
    hide Matches;
    if rows != [] {
      var n := |rows| - 1;
      FilterStarts(rows[..n], where, params);
      if Filter(rows[..n], where, params) == [] {
        assert forall j | 0 <= j < n :: rows[..n][j] == rows[j];
        if Matches(rows[n], where, params) { assert FirstMatch(rows, where, params, n); }
      } else {
        var i :| FirstMatch(rows[..n], where, params, i) && rows[..n][i] == Filter(rows[..n], where, params)[0];
        assert forall j | 0 <= j < i :: rows[..n][j] == rows[j];
        assert FirstMatch(rows, where, params, i);
      }
    }
  }

  /** `at` lists, in ascending order, the positions of the rows that match. */
  ghost predicate Selects(rows: Table, where: seq<Cond>, params: seq<Value>, at: seq<int>, kept: Table) {
    && |at| == |kept|
    && (forall k | 0 <= k < |at| ::
          0 <= at[k] < |rows| && kept[k] == rows[at[k]] && Matches(rows[at[k]], where, params))
    && (forall j, k | 0 <= j < k < |at| :: at[j] < at[k])
    && (forall i | 0 <= i < |rows| && Matches(rows[i], where, params) :: i in at)
  }

  lemma SelectsMore(rows: Table, r: Record, where: seq<Cond>, params: seq<Value>, at: seq<int>, kept: Table)
    requires Selects(rows, where, params, at, kept)
    ensures Matches(r, where, params) ==> Selects(rows + [r], where, params, at + [|rows|], kept + [r])
    ensures !Matches(r, where, params) ==> Selects(rows + [r], where, params, at, kept)
  {
    hide Matches;
    var more := at + [|rows|];
    assert more[|at|] == |rows|;
    forall i | 0 <= i < |rows| && Matches(rows[i], where, params) ensures i in more {
      var j :| 0 <= j < |at| && at[j] == i;
      assert more[j] == i;
    }
  }

  /** A query answers with exactly the rows that match, in table order. */
  lemma {:induction false} FilterSelects(rows: Table, where: seq<Cond>, params: seq<Value>) returns (at: seq<int>)
    ensures Selects(rows, where, params, at, Filter(rows, where, params))
  {
    at := [];
    if rows != [] {
      hide Matches, Selects;
      var n := |rows| - 1;
      at := FilterSelects(rows[..n], where, params);
      SelectsMore(rows[..n], rows[n], where, params, at, Filter(rows[..n], where, params));
      assert rows == rows[..n] + [rows[n]];
      if Matches(rows[n], where, params) { at := at + [n]; }
    }
  }

  /** What is kept and what matches make up the table. */
  lemma {:induction false} RejectMeaning(rows: Table, where: seq<Cond>, params: seq<Value>)
    ensures multiset(rows) == multiset(Filter(rows, where, params)) + multiset(Reject(rows, where, params))
    ensures forall r | r in Reject(rows, where, params) :: r in rows && !Matches(r, where, params)
  {
    hide Matches;
    if rows != [] {
      var n := |rows| - 1;
      RejectMeaning(rows[..n], where, params);
      var kept, gone := Filter(rows[..n], where, params), Reject(rows[..n], where, params);
      assert multiset(rows) == multiset(rows[..n]) + multiset{rows[n]} by {
        assert rows == rows[..n] + [rows[n]];
      }
      if Matches(rows[n], where, params) {
        assert Filter(rows, where, params) == kept + [rows[n]] && Reject(rows, where, params) == gone;
      } else {
        assert Filter(rows, where, params) == kept && Reject(rows, where, params) == gone + [rows[n]];
      }
    }
  }

  lemma MatchesOne(r: Record, c: string, v: Value)
    ensures Matches(r, [Cmp(c, Eq)], [v]) <==> Cell(r, c) == v
  {
    var where := [Cmp(c, Eq)];
    assert where[0] == Cmp(c, Eq);
    assert CondHolds(where[0], r, Param([v], 0)) <==> Cell(r, c) == v;
  }

  lemma MatchesTwo(r: Record, c: string, d: string, v: Value, w: Value)
    ensures Matches(r, [Cmp(c, Eq), Cmp(d, Eq)], [v, w]) <==> Cell(r, c) == v && Cell(r, d) == w
  {
    var where := [Cmp(c, Eq), Cmp(d, Eq)];
    assert where[0] == Cmp(c, Eq) && where[1] == Cmp(d, Eq);
    assert CondHolds(where[0], r, Param([v, w], 0)) <==> Cell(r, c) == v;
    assert CondHolds(where[1], r, Param([v, w], 1)) <==> Cell(r, d) == w;
  }

  lemma MatchesThree(r: Record, c: string, d: string, e: string, v: Value, w: Value, x: Value)
    ensures Matches(r, [Cmp(c, Eq), Cmp(d, Eq), Cmp(e, Eq)], [v, w, x]) <==>
            Cell(r, c) == v && Cell(r, d) == w && Cell(r, e) == x
  {
    var where := [Cmp(c, Eq), Cmp(d, Eq), Cmp(e, Eq)];
    assert where[0] == Cmp(c, Eq) && where[1] == Cmp(d, Eq) && where[2] == Cmp(e, Eq);
    assert CondHolds(where[0], r, Param([v, w, x], 0)) <==> Cell(r, c) == v;
    assert CondHolds(where[1], r, Param([v, w, x], 1)) <==> Cell(r, d) == w;
    assert CondHolds(where[2], r, Param([v, w, x], 2)) <==> Cell(r, e) == x;
  }

  /** A row found by its id. */
  lemma FoundByKey(rows: Table, key: Value) returns (i: nat)
    requires Filter(rows, BY_ID, [key]) != []
    ensures i < |rows| && rows[i] == Filter(rows, BY_ID, [key])[0] && Cell(rows[i], ID) == key
  {
    var r := Filter(rows, BY_ID, [key])[0];
    assert r in Filter(rows, BY_ID, [key]);
    FilterMembers(rows, BY_ID, [key]);
    i :| 0 <= i < |rows| && rows[i] == r;
    assert CondHolds(BY_ID[0], r, Param([key], 0));
  }

  /** Cells of a row that an INSERT built from distinct columns. */
  lemma {:induction false} NewRecordCell(cols: seq<string>, params: seq<Value>, k: nat)
    requires k < |cols| && forall i, j | 0 <= i < j < |cols| :: cols[i] != cols[j]
    ensures Cell(NewRecord(cols, params), cols[k]) == Param(params, k)
  {
    if k < |cols| - 1 { NewRecordCell(cols[..|cols| - 1], params, k); }
  }

  lemma InsertedCell(s: Store, table: string, cols: seq<string>, params: seq<Value>, k: nat)
    requires k < |cols| && (forall i, j | 0 <= i < j < |cols| :: cols[i] != cols[j]) && cols[k] != ID
    ensures Cell(Inserted(s, table, cols, params), cols[k]) == Param(params, k)
  {
    NewRecordCell(cols, params, k);
  }

  lemma SelectKeeps(s: Store, t: string, where: seq<Cond>, params: seq<Value>)
    ensures ExecStore(s, Select(t, where), params) == s
  {
  }

  lemma MatchesById(r: Record, id: int)
    ensures Matches(r, BY_ID, [Num(id)]) <==> Cell(r, ID) == Num(id)
  {
    assert BY_ID[0] == Cmp(ID, Eq);
    assert Matches(r, BY_ID, [Num(id)]) ==> CondHolds(BY_ID[0], r, Param([Num(id)], 0));
  }

  /** An UPDATE that hits no row changes nothing. */
  lemma NothingHit(s: Store, t: string, sets: seq<string>, where: seq<Cond>, params: seq<Value>)
    ensures ExecResult(s, Update(t, sets, where), params).affectedRows == 0 ==>
      ExecStore(s, Update(t, sets, where), params) == s
  {
    hide Matches, Assign;
    var rows := TableOf(s, t);
    FilterMembers(rows, where, Drop(params, |sets|));
    assert forall i | 0 <= i < |rows| :: rows[i] in rows;
    if t in s && Filter(rows, where, Drop(params, |sets|)) == [] {
      assert UpdateRows(s[t], sets, where, params) == s[t];
    }
  }

  lemma IdsDiffer(rows: Table, i: nat, j: nat)
    requires IdsOk(rows) && i < |rows| && j < |rows| && i != j
    ensures Cell(rows[i], ID) != Cell(rows[j], ID)
  {
    if j < i { assert Cell(rows[j], ID) != Cell(rows[i], ID); }
  }

  /** A stored row is found by its id. */
  lemma StoredRow(rows: Table, i: nat)
    requires IdsOk(rows) && i < |rows|
    ensures var found := Filter(rows, BY_ID, [Cell(rows[i], ID)]); found != [] && found[0] == rows[i]
  {
    var id := Cell(rows[i], ID);
    FilterMembers(rows, BY_ID, [id]);
    MatchesById(rows[i], id.n);
    assert rows[i] in Filter(rows, BY_ID, [id]);
    var k := FoundByKey(rows, id);
    if k != i { IdsDiffer(rows, k, i); }
  }

  /** UPDATE by id touches exactly the one row. */
  lemma UpdateById(rows: Table, sets: seq<string>, values: seq<Value>, i: nat)
    requires i < |rows| && IdsOk(rows) && |values| == |sets|
    ensures var params := values + [Cell(rows[i], ID)];
      UpdateRows(rows, sets, BY_ID, params) == rows[i := Assign(rows[i], sets, params)]
  {
    hide Assign, Matches;
    var id := Cell(rows[i], ID).n;
    assert Drop(values + [Num(id)], |sets|) == [Num(id)];
    forall j | 0 <= j < |rows| ensures Matches(rows[j], BY_ID, [Num(id)]) <==> j == i {
      MatchesById(rows[j], id);
      if j != i { IdsDiffer(rows, j, i); }
    }
  }

  lemma AssignSnoc(r: Record, sets: seq<string>, c: string, params: seq<Value>)
    ensures Assign(r, sets + [c], params) == Assign(r, sets, params)[c := Param(params, |sets|)]
  {
    assert (sets + [c])[..|sets|] == sets;
  }

  // ----- Row ids

  /** Row ids are numbers, positive and distinct. */
  ghost predicate IdsOk(rows: Table) {
    && (forall i | 0 <= i < |rows| :: Cell(rows[i], ID).Num? && Cell(rows[i], ID).n >= 1)
    && (forall i, j | 0 <= i < j < |rows| :: Cell(rows[i], ID) != Cell(rows[j], ID))
  }

  ghost predicate StoreIdsOk(s: Store) {
    forall t | t in s :: IdsOk(s[t])
  }

  lemma {:induction false} MaxIdBounds(rows: Table)
    requires forall i | 0 <= i < |rows| :: Cell(rows[i], ID).Num?
    ensures rows == [] <==> MaxId(rows).None?
    ensures forall i | 0 <= i < |rows| :: Cell(rows[i], ID).n <= MaxId(rows).value
    ensures rows != [] ==> exists i :: 0 <= i < |rows| && Cell(rows[i], ID).n == MaxId(rows).value
  {
    if rows != [] {
      var front := rows[..|rows| - 1];
      MaxIdBounds(front);
      if front != [] {
        var i :| 0 <= i < |front| && Cell(front[i], ID).n == MaxId(front).value;
        assert rows[i] == front[i];
      }
      assert Cell(rows[|rows| - 1], ID).n <= MaxId(rows).value;
    }
  }

  /** The id an INSERT allocates is unused. */
  lemma NextIdFresh(rows: Table)
    requires IdsOk(rows)
    ensures NextId(rows) >= 1
    ensures rows == [] ==> NextId(rows) == 1
    ensures rows != [] ==> exists i :: 0 <= i < |rows| && Cell(rows[i], ID) == Num(NextId(rows) - 1)
    ensures forall i | 0 <= i < |rows| :: Cell(rows[i], ID).n < NextId(rows)
  {
    MaxIdBounds(rows);
    if rows != [] {
      assert Cell(rows[0], ID).n <= MaxId(rows).value;
      var i :| 0 <= i < |rows| && Cell(rows[i], ID).n == MaxId(rows).value;
      assert Cell(rows[i], ID) == Num(NextId(rows) - 1);
    }
  }

  lemma {:induction false} AssignKeeps(r: Record, sets: seq<string>, params: seq<Value>, col: string)
    requires forall k | 0 <= k < |sets| :: sets[k] != col
    ensures Cell(Assign(r, sets, params), col) == Cell(r, col)
  {
    if sets != [] { AssignKeeps(r, sets[..|sets| - 1], params, col); }
  }

  lemma {:induction false} AssignAt(r: Record, sets: seq<string>, vals: seq<Value>, k: nat)
    requires k < |sets| && forall i, j | 0 <= i < j < |sets| :: sets[i] != sets[j]
    ensures Cell(Assign(r, sets, vals), sets[k]) == Param(vals, k)
  {
    if k < |sets| - 1 { AssignAt(r, sets[..|sets| - 1], vals, k); }
  }

  /** The columns, and the values, of the fields that are given, as a SET clause is built. */
  function GivenNames(fields: seq<(string, Option<Value>)>): seq<string> {
    if fields == [] then [] else
      GivenNames(fields[..|fields| - 1]) + if fields[|fields| - 1].1.Some? then [fields[|fields| - 1].0] else []
  }

  function GivenValues(fields: seq<(string, Option<Value>)>): (values: seq<Value>)
    ensures |values| == |GivenNames(fields)|
  {
    if fields == [] then [] else
      GivenValues(fields[..|fields| - 1]) + if fields[|fields| - 1].1.Some? then [fields[|fields| - 1].1.value] else []
  }

  lemma {:induction false} GivenNothing(fields: seq<(string, Option<Value>)>)
    ensures GivenNames(fields) == [] <==> forall j | 0 <= j < |fields| :: fields[j].1.None?
  {
    if fields != [] {
      GivenNothing(fields[..|fields| - 1]);
      assert forall j | 0 <= j < |fields| - 1 :: fields[..|fields| - 1][j] == fields[j];
    }
  }

  /** In `u` the given fields are written and `col` is otherwise as in `r`. */
  ghost predicate Written(r: Record, u: Record, fields: seq<(string, Option<Value>)>, col: string) {
    && (forall j | 0 <= j < |fields| && fields[j].0 == col && fields[j].1.Some? :: Cell(u, col) == fields[j].1.value)
    && ((forall j | 0 <= j < |fields| && fields[j].0 == col :: fields[j].1.None?) ==> Cell(u, col) == Cell(r, col))
  }

  lemma WrittenStep(r: Record, u: Record, fields: seq<(string, Option<Value>)>, col: string)
    requires fields != [] && forall i, j | 0 <= i < j < |fields| :: fields[i].0 != fields[j].0
    requires Written(r, u, fields[..|fields| - 1], col)
    ensures var (name, value) := fields[|fields| - 1];
      Written(r, if value.Some? then u[name := value.value] else u, fields, col)
  {
    var n := |fields| - 1;
    var front := fields[..n];
    assert forall j | 0 <= j < n :: front[j] == fields[j];
  }

  /** A given field is written and any other column is kept. */
  lemma {:induction false} GivenCell(r: Record, fields: seq<(string, Option<Value>)>, tail: seq<Value>, col: string)
    requires forall i, j | 0 <= i < j < |fields| :: fields[i].0 != fields[j].0
    ensures Written(r, Assign(r, GivenNames(fields), GivenValues(fields) + tail), fields, col)
  {
    if fields != [] {
      hide Written, Assign;
      var n := |fields| - 1;
      var front, name, value := fields[..n], fields[n].0, fields[n].1;
      var names, values := GivenNames(front), GivenValues(front);
      if value.None? {
        GivenCell(r, front, tail, col);
        assert GivenNames(fields) == names && GivenValues(fields) == values;
      } else {
        GivenCell(r, front, [value.value] + tail, col);
        assert GivenValues(fields) + tail == values + ([value.value] + tail);
        AssignSnoc(r, names, name, GivenValues(fields) + tail);
        assert Param(GivenValues(fields) + tail, |names|) == value.value;
      }
      WrittenStep(r, Assign(r, names, GivenValues(fields) + tail), fields, col);
    }
  }

  lemma {:induction false} RejectIds(rows: Table, where: seq<Cond>, params: seq<Value>)
    requires IdsOk(rows)
    ensures IdsOk(Reject(rows, where, params))
    ensures forall r | r in Reject(rows, where, params) :: r in rows
  {
    if rows != [] {
      var front, last := rows[..|rows| - 1], rows[|rows| - 1];
      RejectIds(front, where, params);
      forall r | r in Reject(front, where, params) ensures Cell(r, ID) != Cell(last, ID) {
        var i :| 0 <= i < |front| && front[i] == r;
        assert rows[i] == r;
      }
    }
  }

  /** No command but an UPDATE of the id column itself can break id uniqueness. */
  ghost predicate NeverSetsId(cmd: Command) {
    cmd.Update? ==> forall k | 0 <= k < |cmd.sets| :: cmd.sets[k] != ID
  }

  lemma ExecKeepsIds(s: Store, cmd: Command, params: seq<Value>)
    requires StoreIdsOk(s) && NeverSetsId(cmd)
    ensures StoreIdsOk(ExecStore(s, cmd, params))
  {
    match cmd
    case Insert(t, cols) =>
      NextIdFresh(TableOf(s, t));
    case Update(t, sets, where) =>
      if t in s {
        forall i | 0 <= i < |s[t]| ensures Cell(UpdateRows(s[t], sets, where, params)[i], ID) == Cell(s[t][i], ID) {
          AssignKeeps(s[t][i], sets, params, ID);
        }
      }
    case Delete(t, where) =>
      if t in s { RejectIds(s[t], where, params); }
    case _ =>
  }

  ghost predicate StepNeverSetsId(step: Step) { step.Throw? || NeverSetsId(step.cmd) }

  lemma {:induction false} RunKeepsIds(s: Store, steps: seq<Step>, fault: Option<nat>, n: nat)
    requires n <= |steps| && StoreIdsOk(s)
    requires forall k | 0 <= k < |steps| :: StepNeverSetsId(steps[k])
    ensures StoreIdsOk(RunSteps(s, steps, fault, n).store)
  {
    if n > 0 {
      RunKeepsIds(s, steps, fault, n - 1);
      var before := RunSteps(s, steps, fault, n - 1);
      assert StepNeverSetsId(steps[n - 1]);
      if before.ok && !steps[n - 1].Throw? {
        ExecKeepsIds(before.store, steps[n - 1].cmd, steps[n - 1].params);
      }
    }
  }

  /** Ids stay distinct in every table over any transaction, committed or not. */
  lemma TransactKeepsIds(s: Store, steps: seq<Step>, fault: Option<nat>)
    requires StoreIdsOk(s)
    requires forall k | 0 <= k < |steps| :: StepNeverSetsId(steps[k])
    ensures StoreIdsOk(Transact(s, steps, fault).store)
  {
    RunKeepsIds(s, steps, fault, |steps|);
  }

  lemma {:induction false} RunPrefix(s: Store, a: seq<Step>, b: seq<Step>, fault: Option<nat>, n: nat)
    requires n <= |a|
    ensures RunSteps(s, a + b, fault, n) == RunSteps(s, a, fault, n)
  {
    if n > 0 { RunPrefix(s, a, b, fault, n - 1); }
  }

  /** The steps leave the table alone. */
  ghost predicate StepsSpare(steps: seq<Step>, t: string) {
    forall k | 0 <= k < |steps| && !steps[k].Throw? :: SparesTable(steps[k].cmd, t)
  }

  ghost predicate SparesTable(cmd: Command, t: string) {
    match cmd
    case CreateTable(_) => true
    case Insert(u, _) => u != t
    case Update(u, _, _) => u != t
    case Delete(u, _) => u != t
    case _ => true
  }

  lemma ExecSpares(s: Store, cmd: Command, params: seq<Value>, t: string)
    requires SparesTable(cmd, t)
    ensures TableOf(ExecStore(s, cmd, params), t) == TableOf(s, t)
  {
  }

  lemma {:induction false} RunSpares(s: Store, steps: seq<Step>, fault: Option<nat>, n: nat, t: string)
    requires n <= |steps| && StepsSpare(steps, t)
    ensures TableOf(RunSteps(s, steps, fault, n).store, t) == TableOf(s, t)
  {
    if n > 0 {
      RunSpares(s, steps, fault, n - 1, t);
      var before := RunSteps(s, steps, fault, n - 1);
      if before.ok && !steps[n - 1].Throw? { ExecSpares(before.store, steps[n - 1].cmd, steps[n - 1].params, t); }
    }
  }

  /** A transaction changes no table that its steps spare. */
  lemma TransactSpares(s: Store, steps: seq<Step>, fault: Option<nat>, t: string)
    requires StepsSpare(steps, t)
    ensures TableOf(Transact(s, steps, fault).store, t) == TableOf(s, t)
  {
    RunSpares(s, steps, fault, |steps|, t);
  }

  // ----- Every run of a database

  /** The state of a database object; `saved` is the snapshot of an open transaction. */
  datatype Session = Session(store: Store, saved: Option<Store>, connected: bool)

  datatype Action =
    | Connect
    | Disconnect
    | Query(cmd: Command, params: seq<Value>)
    | Begin
    | Commit
    | Rollback
    | Transaction(steps: seq<Step>, fault: Option<nat>)

  /** One call; a call that throws changes nothing. */
  function Act(s: Session, action: Action): Session {
    match action
    case Connect => s.(connected := true)
    case Disconnect => Session(if s.saved.Some? then s.saved.value else s.store, None, false)
    case Query(cmd, params) => if s.connected then s.(store := ExecStore(s.store, cmd, params)) else s
    case Begin => if s.connected && s.saved.None? then s.(saved := Some(s.store)) else s
    case Commit => s.(saved := None)
    case Rollback => if s.saved.Some? then Session(s.saved.value, None, s.connected) else s
    case Transaction(steps, fault) =>
      if s.connected && s.saved.None? then s.(store := Transact(s.store, steps, fault).store) else s
  }

  function ActAll(actions: seq<Action>): Session {
    if actions == [] then Session(map[], None, false) else
      Act(ActAll(actions[..|actions| - 1]), actions[|actions| - 1])
  }

  ghost predicate ActionNeverSetsId(action: Action) {
    && (action.Query? ==> NeverSetsId(action.cmd))
    && (action.Transaction? ==> forall k | 0 <= k < |action.steps| :: StepNeverSetsId(action.steps[k]))
  }

  /** Over every run of a new database, transactions committed, rolled back or cut off
      included, ids stay positive and distinct in every table. */
  lemma {:induction false} IdsInEveryRun(actions: seq<Action>)
    requires forall k | 0 <= k < |actions| :: ActionNeverSetsId(actions[k])
    ensures var s := ActAll(actions);
      StoreIdsOk(s.store) && (s.saved.Some? ==> StoreIdsOk(s.saved.value))
  {
    hide StoreIdsOk, Transact, ExecStore, NeverSetsId, StepNeverSetsId;
    if actions == [] {
      NoTablesIdsOk();
    } else {
      var n := |actions| - 1;
      forall k | 0 <= k < n ensures ActionNeverSetsId(actions[..n][k]) { assert actions[..n][k] == actions[k]; }
      IdsInEveryRun(actions[..n]);
      var s := ActAll(actions[..n]);
      assert ActionNeverSetsId(actions[n]);
      match actions[n]
      case Query(cmd, params) => ExecKeepsIds(s.store, cmd, params);
      case Transaction(steps, fault) => TransactKeepsIds(s.store, steps, fault);
      case _ =>
    }
  }

  lemma NoTablesIdsOk()
    ensures StoreIdsOk(map[])
  {
  }
}
