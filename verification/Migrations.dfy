/** The migration runner: numbered schema changes, each in its own transaction, with
    a table that records which have been applied. */
module Migrations {
  import opened Models
  import opened Sql
  import opened MemoryDatabase

  const META := "_migrations"
  const META_COLS := ["version", "name", "appliedAt"]

  /** `up` gives the steps that its function takes on a database in a given state: the
      function may read and branch. */
  datatype Migration = Migration(version: int, name: string, up: Store -> seq<Step>)

  /** An applied migration and the time stamp it was recorded with. */
  datatype Entry = Entry(migration: Migration, appliedAt: string)

  function RecordStep(m: Migration, at: string): Step {
    Run(Insert(META, META_COLS), [Num(m.version), Str(m.name), Str(at)])
  }

  /** The callback of one migration's transaction, run on the store `s`. */
  function MigrationSteps(m: Migration, s: Store, at: string): seq<Step> {
    m.up(s) + [RecordStep(m, at)]
  }

  predicate Registrable(migs: seq<Migration>, m: Migration) {
    m.name != "" && m.version >= 1 && forall k | 0 <= k < |migs| :: migs[k].version != m.version
  }

  function EnsureMeta(s: Store): Store { ExecStore(s, CreateTable(META), []) }

  /** `m.version` is among the recorded versions. */
  predicate IsApplied(s: Store, version: int) { HasVersion(TableOf(s, META), version) }

  /** `appliedVersions.has(version)` */
  predicate HasVersion(applied: Table, version: int) {
    exists k :: 0 <= k < |applied| && Cell(applied[k], "version") == Num(version)
  }

  /** `filter(m => !applied.has(m.version))` */
  function Unapplied(migs: seq<Migration>, s: Store): seq<Migration> {
    if migs == [] then [] else
      var last := migs[|migs| - 1];
      Unapplied(migs[..|migs| - 1], s) + (if IsApplied(s, last.version) then [] else [last])
  }

  /** Places `m` by version after everything not greater. */
  function InsertByVersion(q: seq<Migration>, m: Migration): seq<Migration> {
    if q == [] || q[|q| - 1].version <= m.version then q + [m]
    else InsertByVersion(q[..|q| - 1], m) + [q[|q| - 1]]
  }

  /** `sort((a, b) => a.version - b.version)` */
  function SortByVersion(q: seq<Migration>): seq<Migration> {
    if q == [] then [] else InsertByVersion(SortByVersion(q[..|q| - 1]), q[|q| - 1])
  }

  function Pending(migs: seq<Migration>, s: Store): seq<Migration> { SortByVersion(Unapplied(migs, s)) }

  ghost predicate AscendingVersions(q: seq<Migration>) {
    forall i, j | 0 <= i < j < |q| :: q[i].version < q[j].version
  }

  ghost predicate DistinctVersions(q: seq<Migration>) {
    forall i, j | 0 <= i < j < |q| :: q[i].version != q[j].version
  }

  lemma {:induction false} UnappliedMembers(migs: seq<Migration>, s: Store)
    ensures forall m :: m in Unapplied(migs, s) <==> m in migs && !IsApplied(s, m.version)
    ensures DistinctVersions(migs) ==> DistinctVersions(Unapplied(migs, s))
  {
    hide IsApplied;
    if migs != [] {
      hide DistinctVersions;
      var front, last := migs[..|migs| - 1], migs[|migs| - 1];
      UnappliedMembers(front, s);
      assert forall m :: m in migs <==> m in front || m == last by { assert migs == front + [last]; }
      assert Unapplied(migs, s) == Unapplied(front, s) + (if IsApplied(s, last.version) then [] else [last]);
      hide Unapplied;
      DistinctSteps(migs, Unapplied(front, s));
    }
  }

  lemma DistinctSteps(migs: seq<Migration>, u: seq<Migration>)
    requires migs != [] && forall m | m in u :: m in migs[..|migs| - 1]
    ensures DistinctVersions(migs) ==> DistinctVersions(migs[..|migs| - 1])
    ensures DistinctVersions(migs) && DistinctVersions(u) ==> DistinctVersions(u + [migs[|migs| - 1]])
  {
    if DistinctVersions(migs) {
      forall i | 0 <= i < |u| ensures u[i].version != migs[|migs| - 1].version { assert u[i] in u; }
    }
  }

  lemma {:induction false} InsertSorted(q: seq<Migration>, m: Migration)
    requires AscendingVersions(q) && forall k | 0 <= k < |q| :: q[k].version != m.version
    ensures AscendingVersions(InsertByVersion(q, m))
    ensures forall x :: x in InsertByVersion(q, m) <==> x in q || x == m
  {
    if q == [] || q[|q| - 1].version <= m.version {
      assert AscendingVersions(q + [m]);
    } else {
      var front, last := q[..|q| - 1], q[|q| - 1];
      InsertSorted(front, m);
      assert q == front + [last];
      var r := InsertByVersion(front, m);
      forall i | 0 <= i < |r| ensures r[i].version < last.version { assert r[i] in r; }
    }
  }

  lemma {:induction false} SortSorts(q: seq<Migration>)
    requires DistinctVersions(q)
    ensures AscendingVersions(SortByVersion(q))
    ensures forall x :: x in SortByVersion(q) <==> x in q
  {
    if q != [] {
      var front, last := q[..|q| - 1], q[|q| - 1];
      SortSorts(front);
      assert q == front + [last];
      var r := SortByVersion(front);
      forall k | 0 <= k < |r| ensures r[k].version != last.version { assert r[k] in r; }
      InsertSorted(r, last);
    }
  }

  /** Pending migrations: the registered ones not recorded, in ascending order. */
  lemma PendingMeaning(migs: seq<Migration>, s: Store)
    requires DistinctVersions(migs)
    ensures AscendingVersions(Pending(migs, s))
    ensures forall m :: m in Pending(migs, s) <==> m in migs && !IsApplied(s, m.version)
  {
    UnappliedMembers(migs, s);
    SortSorts(Unapplied(migs, s));
  }

  // ----- One run

  /** `applied` migrations went through before the run ended, normally or by an exception. */
  datatype Progress = Progress(store: Store, applied: nat, ok: bool)

  function ApplyFirst(s: Store, pending: seq<Migration>, clock: nat -> string, fault: nat -> Option<nat>,
                      n: nat): (p: Progress)
    requires n <= |pending|
    ensures p.applied <= n && (p.ok ==> p.applied == n)
  {
    if n == 0 then Progress(s, 0, true) else
      var before := ApplyFirst(s, pending, clock, fault, n - 1);
      if !before.ok then before else
        ApplyNext(before, pending[n - 1], clock(n - 1), fault(n - 1))
  }

  /** One more migration on top of what went through so far. */
  function ApplyNext(before: Progress, m: Migration, at: string, fault: Option<nat>): Progress {
    var t := Transact(before.store, MigrationSteps(m, before.store, at), fault);
    Progress(t.store, if t.ok then before.applied + 1 else before.applied, t.ok)
  }

  function RunSpec(s: Store, migs: seq<Migration>, clock: nat -> string, fault: nat -> Option<nat>): Progress {
    var s1 := EnsureMeta(s);
    var pending := Pending(migs, s1);
    ApplyFirst(s1, pending, clock, fault, |pending|)
  }

  // ----- History

  /** All steps of the migration's `up` function on the database it finds, undisturbed. */
  function Up(s: Store, m: Migration): Ran { RunSteps(s, m.up(s), None, |m.up(s)|) }

  /** The row that remembers a migration, with the next free id. */
  function RecordRow(s: Store, e: Entry): Record {
    map["version" := Num(e.migration.version), "name" := Str(e.migration.name), "appliedAt" := Str(e.appliedAt),
        ID := Num(NextId(TableOf(s, META)))]
  }

  /** What a migration makes of a database: the effects of its `up` function, and then one more row
      in the table of applied migrations. */
  function Effect(s: Store, e: Entry): Store {
    var after := Up(s, e.migration).store;
    after[META := TableOf(after, META) + [RecordRow(after, e)]]
  }

  /** All effects of a history, in order. */
  function Replay(s: Store, hist: seq<Entry>): Store {
    if hist == [] then s else Effect(Replay(s, hist[..|hist| - 1]), hist[|hist| - 1])
  }

  ghost predicate AllSucceed(s: Store, hist: seq<Entry>) {
    forall k | 0 <= k < |hist| :: Up(Replay(s, hist[..k]), hist[k].migration).ok
  }

  /** The recorded versions, in the order of the record. */
  ghost predicate RecordedAs(t: Table, hist: seq<Entry>) {
    && |t| == |hist|
    && forall k | 0 <= k < |hist| :: Records(t[k], hist[k])
  }

  ghost predicate Records(r: Record, e: Entry) {
    && Cell(r, "version") == Num(e.migration.version) && Cell(r, "name") == Str(e.migration.name)
    && Cell(r, "appliedAt") == Str(e.appliedAt)
  }

  ghost predicate DistinctEntries(hist: seq<Entry>) {
    forall i, j | 0 <= i < j < |hist| :: hist[i].migration.version != hist[j].migration.version
  }

  /** `s` is exactly what the recorded migrations made of `s0`. */
  ghost predicate History(s0: Store, hist: seq<Entry>, s: Store) {
    && s == Replay(EnsureMeta(s0), hist)
    && AllSucceed(EnsureMeta(s0), hist)
    && RecordedAs(TableOf(s, META), hist)
    && DistinctEntries(hist)
  }

  /** Whatever it finds, the migration leaves the record alone. */
  ghost predicate Spares(m: Migration) {
    forall s :: StepsSpare(m.up(s), META)
  }

  /** A run that succeeds despite a fault setting never met the fault. */
  lemma {:induction false} FaultUnseen(s: Store, steps: seq<Step>, fault: Option<nat>, n: nat)
    requires n <= |steps| && RunSteps(s, steps, fault, n).ok
    ensures RunSteps(s, steps, fault, n) == RunSteps(s, steps, None, n)
  {
    if n > 0 { FaultUnseen(s, steps, fault, n - 1); }
  }

  /** A migration that goes through adds exactly its own record. */
  lemma EffectRecords(s: Store, e: Entry)
    requires Up(s, e.migration).ok && Spares(e.migration)
    ensures var t := TableOf(Effect(s, e), META);
      |t| == |TableOf(s, META)| + 1 && t[..|t| - 1] == TableOf(s, META) && Records(t[|t| - 1], e)
  {
    RunSpares(s, e.migration.up(s), None, |e.migration.up(s)|, META);
    hide RunSteps, NextId;
  }

  /** The recording insert adds the row of the migration. */
  lemma RecordInserts(s: Store, e: Entry)
    ensures ExecStore(s, Insert(META, META_COLS), [Num(e.migration.version), Str(e.migration.name), Str(e.appliedAt)])
            == s[META := TableOf(s, META) + [RecordRow(s, e)]]
  {
    hide NextId;
    var params := [Num(e.migration.version), Str(e.migration.name), Str(e.appliedAt)];
    assert META_COLS[..2] == ["version", "name"] && META_COLS[..2][..1] == ["version"] && ["version"][..0] == [];
    assert NewRecord([], params) == map[];
    assert NewRecord(["version"], params) == map["version" := params[0]];
    assert NewRecord(["version", "name"], params) == map["version" := params[0], "name" := params[1]];
    assert Inserted(s, META, META_COLS, params) == RecordRow(s, e);
  }

  /** The transaction of a migration goes through exactly when its `up` function does, and then has
      its effect. */
  lemma MigrationSucceedsIff(s: Store, e: Entry)
    ensures var t := Transact(s, MigrationSteps(e.migration, s, e.appliedAt), None);
      (t.ok <==> Up(s, e.migration).ok) && (t.ok ==> t.store == Effect(s, e))
  {
    var m := e.migration;
    var steps, n := MigrationSteps(m, s, e.appliedAt), |m.up(s)|;
    RunPrefix(s, m.up(s), [RecordStep(m, e.appliedAt)], None, n);
    assert steps[n] == RecordStep(m, e.appliedAt);
    var mid := Up(s, m);
    RecordInserts(mid.store, e);
    hide ExecStore, RecordRow;
    assert RunSteps(s, steps, None, n) == mid;
    LastStep(s, steps, n);
    hide RunSteps;
  }

  lemma LastStep(s: Store, steps: seq<Step>, n: nat)
    requires |steps| == n + 1
    ensures var before := RunSteps(s, steps, None, n);
      RunSteps(s, steps, None, n + 1) == if before.ok then RunStep(before, steps[n], false) else before
  {
  }

  lemma EffectIsTransact(s: Store, e: Entry, fault: Option<nat>)
    requires Transact(s, MigrationSteps(e.migration, s, e.appliedAt), fault).ok
    ensures Transact(s, MigrationSteps(e.migration, s, e.appliedAt), fault).store == Effect(s, e)
      && Up(s, e.migration).ok
  {
    var steps := MigrationSteps(e.migration, s, e.appliedAt);
    FaultUnseen(s, steps, fault, |steps|);
    hide MigrationSteps, Effect, Up;
    MigrationSucceedsIff(s, e);
  }

  lemma ReplaySnoc(s: Store, hist: seq<Entry>, e: Entry)
    requires AllSucceed(s, hist) && Up(Replay(s, hist), e.migration).ok
    ensures Replay(s, hist + [e]) == Effect(Replay(s, hist), e) && AllSucceed(s, hist + [e])
  {
    hide Effect, Up;
    var hist' := hist + [e];
    assert hist'[..|hist|] == hist;
    forall k | 0 <= k < |hist'| ensures Up(Replay(s, hist'[..k]), hist'[k].migration).ok {
      if k < |hist| { assert hist'[..k] == hist[..k]; }
    }
  }

  /** One more entry of history. */
  lemma HistoryStep(s0: Store, hist: seq<Entry>, s: Store, e: Entry, fault: Option<nat>)
    requires History(s0, hist, s) && Spares(e.migration)
    requires forall k | 0 <= k < |hist| :: hist[k].migration.version != e.migration.version
    requires Transact(s, MigrationSteps(e.migration, s, e.appliedAt), fault).ok
    ensures History(s0, hist + [e], Transact(s, MigrationSteps(e.migration, s, e.appliedAt), fault).store)
  {
    hide Effect, Up, Transact, Spares, MigrationSteps, Replay, AllSucceed, EnsureMeta, TableOf, RecordedAs;
    EffectIsTransact(s, e, fault);
    EffectRecords(s, e);
    ReplaySnoc(EnsureMeta(s0), hist, e);
    RecordSnoc(TableOf(s, META), TableOf(Effect(s, e), META), hist, e);
  }

  lemma RecordSnoc(t: Table, t': Table, hist: seq<Entry>, e: Entry)
    requires RecordedAs(t, hist) && |t'| == |t| + 1 && t'[..|t'| - 1] == t
    requires Records(t'[|t'| - 1], e)
    ensures RecordedAs(t', hist + [e])
  {
    hide Records;
    forall k | 0 <= k < |hist| ensures t'[k] == t[k] { assert t'[..|t'| - 1][k] == t[k]; }
  }

  /** The entries that the first `n` pending migrations add. */
  function NewEntries(pending: seq<Migration>, clock: nat -> string, n: nat): (r: seq<Entry>)
    requires n <= |pending|
    ensures |r| == n && forall k | 0 <= k < n :: r[k] == Entry(pending[k], clock(k))
  {
    seq(n, k requires 0 <= k < n => Entry(pending[k], clock(k)))
  }

  ghost predicate AllSpare(migs: seq<Migration>) {
    forall k | 0 <= k < |migs| :: Spares(migs[k])
  }

  lemma {:induction false} ApplyKeepsHistory(s0: Store, hist: seq<Entry>, s: Store, pending: seq<Migration>,
                                             clock: nat -> string, fault: nat -> Option<nat>, n: nat)
    requires History(s0, hist, s) && AscendingVersions(pending) && AllSpare(pending) && n <= |pending|
    requires forall i, k | 0 <= i < |hist| && 0 <= k < |pending| :: hist[i].migration.version != pending[k].version
    ensures var p := ApplyFirst(s, pending, clock, fault, n);
      History(s0, hist + NewEntries(pending, clock, p.applied), p.store)
  {
    hide History, Transact, Spares, MigrationSteps;
    if n == 0 {
      assert hist + NewEntries(pending, clock, 0) == hist;
    } else {
      ApplyKeepsHistory(s0, hist, s, pending, clock, fault, n - 1);
      var before := ApplyFirst(s, pending, clock, fault, n - 1);
      var e := Entry(pending[n - 1], clock(n - 1));
      var steps := MigrationSteps(pending[n - 1], before.store, clock(n - 1));
      if before.ok && Transact(before.store, steps, fault(n - 1)).ok {
        var sofar := hist + NewEntries(pending, clock, n - 1);
        HistoryStep(s0, sofar, before.store, e, fault(n - 1));
        assert sofar + [e] == hist + NewEntries(pending, clock, n);
      } else if before.ok {
        FailedTransactKeeps(before.store, MigrationSteps(pending[n - 1], before.store, clock(n - 1)), fault(n - 1));
      }
    }
  }

  lemma FailedTransactKeeps(s: Store, steps: seq<Step>, fault: Option<nat>)
    ensures !Transact(s, steps, fault).ok ==> Transact(s, steps, fault).store == s
  {
  }

  /** A failing migration leaves no trace: a run that ends by an exception leaves exactly what
      the migrations before it made, and its own transaction is the one that failed. */
  lemma {:induction false} FailureLeavesNoTrace(s: Store, pending: seq<Migration>, clock: nat -> string,
                                                fault: nat -> Option<nat>, n: nat)
    requires n <= |pending| && !ApplyFirst(s, pending, clock, fault, n).ok
    ensures var p := ApplyFirst(s, pending, clock, fault, n);
      && p.applied < n
      && ApplyFirst(s, pending, clock, fault, p.applied) == Progress(p.store, p.applied, true)
      && !Transact(p.store, MigrationSteps(pending[p.applied], p.store, clock(p.applied)), fault(p.applied)).ok
  {
    hide Transact, MigrationSteps;
    var before := ApplyFirst(s, pending, clock, fault, n - 1);
    if before.ok {
      FailedTransactKeeps(before.store, MigrationSteps(pending[n - 1], before.store, clock(n - 1)), fault(n - 1));
    } else {
      FailureLeavesNoTrace(s, pending, clock, fault, n - 1);
    }
  }

  lemma AppliedIsRecorded(s: Store, hist: seq<Entry>, version: int)
    requires RecordedAs(TableOf(s, META), hist)
    ensures IsApplied(s, version) <==> exists i :: 0 <= i < |hist| && hist[i].migration.version == version
  {
    if IsApplied(s, version) {
      var k :| 0 <= k < |TableOf(s, META)| && Cell(TableOf(s, META)[k], "version") == Num(version);
      assert hist[k].migration.version == version;
    }
    if i :| 0 <= i < |hist| && hist[i].migration.version == version {
      assert Cell(TableOf(s, META)[i], "version") == Num(version);
    }
  }

  /** One call of `run` extends history by what it applied, in ascending order of
      version, and nothing else changes; when it succeeds nothing is pending. */
  lemma RunKeepsHistory(s0: Store, hist: seq<Entry>, s: Store, migs: seq<Migration>,
                        clock: nat -> string, fault: nat -> Option<nat>)
    requires History(s0, hist, s) && DistinctVersions(migs) && AllSpare(migs) && EnsureMeta(s) == s
    ensures var pending := Pending(migs, s); var p := RunSpec(s, migs, clock, fault);
      && AscendingVersions(pending)
      && History(s0, hist + NewEntries(pending, clock, p.applied), p.store)
      && (p.ok ==> Pending(migs, p.store) == [])
  {
    hide Spares, IsApplied, Transact, Replay, AllSucceed, Pending, ApplyFirst;
    var pending := Pending(migs, s);
    PendingMeaning(migs, s);
    forall i, k | 0 <= i < |hist| && 0 <= k < |pending| ensures hist[i].migration.version != pending[k].version {
      assert pending[k] in pending;
      AppliedIsRecorded(s, hist, pending[k].version);
    }
    forall k | 0 <= k < |pending| ensures Spares(pending[k]) { assert pending[k] in pending; }
    ApplyKeepsHistory(s0, hist, s, pending, clock, fault, |pending|);
    var p := RunSpec(s, migs, clock, fault);
    if p.ok {
      PendingMeaning(migs, p.store);
      var hist' := hist + NewEntries(pending, clock, p.applied);
      forall m | m in migs ensures IsApplied(p.store, m.version) {
        AppliedIsRecorded(p.store, hist', m.version);
        AppliedIsRecorded(s, hist, m.version);
        if m in pending {
          var k :| 0 <= k < |pending| && pending[k] == m;
          assert hist'[|hist| + k].migration == m;
        } else {
          var i :| 0 <= i < |hist| && hist[i].migration.version == m.version;
          assert hist'[i] == hist[i];
        }
      }
      NoneIn(Pending(migs, p.store));
    }
  }

  lemma NoneIn(q: seq<Migration>)
    ensures (forall m :: m !in q) ==> q == []
  {
    if q != [] { assert q[0] in q; }
  }

  lemma EnsureMetaTwice(s: Store)
    ensures EnsureMeta(EnsureMeta(s)) == EnsureMeta(s)
    ensures META in s ==> EnsureMeta(s) == s
  {
  }

  lemma HistoryStart(s0: Store)
    requires TableOf(s0, META) == []
    ensures History(s0, [], EnsureMeta(s0))
  {
  }

  lemma {:induction false} ApplyKeepsMeta(s: Store, pending: seq<Migration>, clock: nat -> string,
                                          fault: nat -> Option<nat>, n: nat)
    requires n <= |pending| && META in s
    ensures META in ApplyFirst(s, pending, clock, fault, n).store
  {
    hide Transact, MigrationSteps;
    if n > 0 {
      ApplyKeepsMeta(s, pending, clock, fault, n - 1);
      var before := ApplyFirst(s, pending, clock, fault, n - 1);
      TransactKeepsMeta(before.store, MigrationSteps(pending[n - 1], before.store, clock(n - 1)), fault(n - 1));
    }
  }

  lemma TransactKeepsMeta(s: Store, steps: seq<Step>, fault: Option<nat>)
    requires META in s
    ensures META in Transact(s, steps, fault).store
  {
    RunKeepsMeta(s, steps, fault, |steps|);
  }

  lemma {:induction false} RunKeepsMeta(s: Store, steps: seq<Step>, fault: Option<nat>, n: nat)
    requires n <= |steps| && META in s
    ensures META in RunSteps(s, steps, fault, n).store
  {
    if n > 0 { RunKeepsMeta(s, steps, fault, n - 1); }
  }

  /** A second run after a successful one applies nothing and changes nothing. */
  lemma RerunChangesNothing(s0: Store, hist: seq<Entry>, s: Store, migs: seq<Migration>, clock: nat -> string,
                            fault: nat -> Option<nat>, clock2: nat -> string, fault2: nat -> Option<nat>)
    requires History(s0, hist, EnsureMeta(s)) && DistinctVersions(migs) && AllSpare(migs)
    requires RunSpec(s, migs, clock, fault).ok
    ensures RunSpec(RunSpec(s, migs, clock, fault).store, migs, clock2, fault2)
      == Progress(RunSpec(s, migs, clock, fault).store, 0, true)
  {
    hide History, AllSpare, Pending, EnsureMeta;
    var s1 := EnsureMeta(s);
    EnsureMetaTwice(s);
    RunKeepsHistory(s0, hist, s1, migs, clock, fault);
    var p := RunSpec(s, migs, clock, fault);
    assert p == RunSpec(s1, migs, clock, fault);
    MetaThere(s);
    ApplyKeepsMeta(s1, Pending(migs, s1), clock, fault, |Pending(migs, s1)|);
    EnsureMetaTwice(p.store);
  }

  lemma MetaThere(s: Store)
    ensures META in EnsureMeta(s)
  {
  }

  // ----- Every sequence of register and run

  datatype Runner = Runner(migrations: seq<Migration>, store: Store, hist: seq<Entry>)

  datatype Call = Register(m: Migration) | RunAll(clock: nat -> string, fault: nat -> Option<nat>)

  function Apply(r: Runner, call: Call): Runner {
    match call
    case Register(m) => if Registrable(r.migrations, m) then r.(migrations := r.migrations + [m]) else r
    case RunAll(clock, fault) =>
      var p := RunSpec(r.store, r.migrations, clock, fault);
      Runner(r.migrations, p.store, r.hist + NewEntries(Pending(r.migrations, EnsureMeta(r.store)), clock, p.applied))
  }

  function RunCalls(s0: Store, calls: seq<Call>): Runner {
    if calls == [] then Runner([], s0, []) else Apply(RunCalls(s0, calls[..|calls| - 1]), calls[|calls| - 1])
  }

  ghost predicate CallSpares(call: Call) { call.Register? ==> Spares(call.m) }

  /** After any sequence of registrations and runs, failed migrations included, the
      storage is exactly the effects of the recorded migrations in recorded order,
      and no version is recorded twice. */
  lemma {:induction false} HistoryInEveryRun(s0: Store, calls: seq<Call>)
    requires TableOf(s0, META) == []
    requires forall k | 0 <= k < |calls| :: CallSpares(calls[k])
    ensures var r := RunCalls(s0, calls);
      History(s0, r.hist, EnsureMeta(r.store)) && DistinctVersions(r.migrations) && AllSpare(r.migrations)
  {
    hide History, Spares, EnsureMeta, RunSpec, Pending;
    if calls == [] {
      HistoryStart(s0);
    } else {
      var front, call := calls[..|calls| - 1], calls[|calls| - 1];
      forall k | 0 <= k < |front| ensures CallSpares(front[k]) { assert front[k] == calls[k]; }
      HistoryInEveryRun(s0, front);
      assert CallSpares(call);
      var r := RunCalls(s0, front);
      match call
      case Register(m) =>
      case RunAll(clock, fault) => RunCallKeepsHistory(s0, r, clock, fault);
    }
  }

  lemma RunCallKeepsHistory(s0: Store, r: Runner, clock: nat -> string, fault: nat -> Option<nat>)
    requires History(s0, r.hist, EnsureMeta(r.store)) && DistinctVersions(r.migrations) && AllSpare(r.migrations)
    ensures var r' := Apply(r, RunAll(clock, fault)); History(s0, r'.hist, EnsureMeta(r'.store))
  {
    hide History, AllSpare, Pending, EnsureMeta;
    var s1 := EnsureMeta(r.store);
    EnsureMetaTwice(r.store);
    RunKeepsHistory(s0, r.hist, s1, r.migrations, clock, fault);
    var p := RunSpec(r.store, r.migrations, clock, fault);
    assert p == RunSpec(s1, r.migrations, clock, fault);
    MetaThere(r.store);
    ApplyKeepsMeta(s1, Pending(r.migrations, s1), clock, fault, |Pending(r.migrations, s1)|);
    EnsureMetaTwice(p.store);
  }

  // ----- The class

  class MigrationRunner {
    const db: Database
    var migrations: seq<Migration>

    constructor (db: Database)
      ensures this.db == db && migrations == []
    {
      this.db := db;
      migrations := [];
    }

    /** `register`: refuses unnamed, non-positive and already known versions. */
    method RegisterMigration(m: Migration) returns (ok: bool)
      modifies this
      ensures ok <==> m.name != "" && m.version >= 1
                      && forall k | 0 <= k < |old(migrations)| :: old(migrations)[k].version != m.version
      ensures ok == Registrable(old(migrations), m)
      ensures migrations == if ok then old(migrations) + [m] else old(migrations)
      ensures DistinctVersions(old(migrations)) ==> DistinctVersions(migrations)
    {
      ok := m.name != "" && m.version >= 1;
      var k := 0;
      while ok && k < |migrations|
        invariant k <= |migrations|
        invariant ok == (m.name != "" && m.version >= 1 && forall j | 0 <= j < k :: migrations[j].version != m.version)
      {
        if migrations[k].version == m.version { ok := false; }
        k := k + 1;
      }
      if ok { migrations := migrations + [m]; }
    }

    /** `getPendingMigrations` */
    method GetPendingMigrations() returns (pending: seq<Migration>)
      requires db.Valid() && db.connected
      ensures pending == Pending(migrations, db.View())
    {
      hide Cells, ViewOf, HasVersion, SortByVersion, NoSharing;
      var rows := db.Read(META, [], []);
      ghost var s := db.View();
      FilterAll(TableOf(s, META));
      var applied := ReadCells(rows.rows);
      pending := [];
      for i := 0 to |migrations|
        invariant pending == Unapplied(migrations[..i], s)
      {
        assert migrations[..i + 1][..i] == migrations[..i];
        if !HasVersion(applied, migrations[i].version) { pending := pending + [migrations[i]]; }
      }
      assert migrations[..|migrations|] == migrations;
      pending := SortByVersion(pending);
      assert db.View() == s;
    }

    /** One pending migration in its own transaction. */
    method ApplyOne(m: Migration, at: string, fault: Option<nat>, ghost before: Progress)
      returns (ok: bool, ghost p: Progress)
      requires db.Valid() && db.connected && !db.inTransaction && db.View() == before.store
      modifies db, RowsOf(db.storage)
      ensures db.Valid() && db.connected && !db.inTransaction
      ensures fresh(RowsOf(db.storage) - old(RowsOf(db.storage)))
      ensures p == ApplyNext(before, m, at, fault) && db.View() == p.store && ok == p.ok
      ensures p.applied == if ok then before.applied + 1 else before.applied
    {
      hide Cells, ViewOf, NoSharing, Transact, InsertIds, AgreeOutside, StepColumns, MigrationSteps, Database.Valid;
      var store := ReadStore(db.storage);
      var ids;
      ok, ids := db.Transaction(MigrationSteps(m, store, at), fault);
      p := ApplyNext(before, m, at, fault);
    }

    /** The loop of `run`: up to the first migration that throws. */
    method ApplyPending(pending: seq<Migration>, clock: nat -> string, fault: nat -> Option<nat>)
      returns (ok: bool, results: seq<(int, string)>)
      requires db.Valid() && db.connected && !db.inTransaction
      modifies db, RowsOf(db.storage)
      ensures db.Valid() && db.connected && !db.inTransaction
      ensures var p := ApplyFirst(old(db.View()), pending, clock, fault, |pending|);
        db.View() == p.store && ok == p.ok && results == Labels(pending, p.applied)
    {
      hide Cells, ViewOf, NoSharing, ApplyNext, Database.Valid, Database.View, Labels;
      results, ok := [], true;
      NoLabels(pending);
      ghost var s := db.View();
      ghost var p := Progress(s, 0, true);
      var k: nat := 0;
      while k < |pending| && ok
        invariant k <= |pending| && db.Valid() && db.connected && !db.inTransaction
        invariant fresh(RowsOf(db.storage) - old(RowsOf(db.storage)))
        invariant p == ApplyFirst(s, pending, clock, fault, k)
        invariant db.View() == p.store && ok == p.ok && results == Labels(pending, p.applied)
      {
        var m := pending[k];
        ok, p := ApplyOne(m, clock(k), fault(k), p);
        if ok {
          results := results + [(m.version, m.name)];
          OneMoreLabel(pending, k);
        }
        k := k + 1;
      }
      StopAtFailure(s, pending, clock, fault, k);
    }

    /** The same loop inside an open transaction, where the first round throws. */
    method RefusePending(pending: seq<Migration>, clock: nat -> string, fault: nat -> Option<nat>) returns (ok: bool)
      requires db.Valid() && db.connected && db.inTransaction
      modifies db, RowsOf(db.storage)
      ensures db.Valid() && db.connected && db.inTransaction && db.View() == old(db.View())
      ensures ok <==> |pending| == 0
    {
      hide Cells, ViewOf, NoSharing, AgreeOutside, StepColumns, InsertIds, MigrationSteps, Database.Valid;
      ok := true;
      if |pending| > 0 {
        var store := ReadStore(db.storage);
        var ids;
        ok, ids := db.Transaction(MigrationSteps(pending[0], store, clock(0)), fault(0));
      }
    }

    /** `run`.  Inside an open transaction only the table is created: the first pending
        migration cannot begin its own. */
    method RunMigrations(clock: nat -> string, fault: nat -> Option<nat>)
      returns (ok: bool, results: seq<(int, string)>)
      requires db.Valid()
      modifies db, RowsOf(db.storage)
      ensures db.Valid() && db.connected == old(db.connected) && db.inTransaction == old(db.inTransaction)
      ensures !db.connected ==> !ok && db.View() == old(db.View())
      ensures db.connected && !db.inTransaction ==> var p := RunSpec(old(db.View()), migrations, clock, fault);
        && db.View() == p.store && ok == p.ok
        && results == Labels(Pending(migrations, EnsureMeta(old(db.View()))), p.applied)
      ensures db.connected && !db.inTransaction ==> var pending := Pending(migrations, EnsureMeta(old(db.View())));
        && |results| <= |pending| && (ok ==> |results| == |pending|)
        && forall k | 0 <= k < |results| :: results[k] == (pending[k].version, pending[k].name)
      ensures db.connected && db.inTransaction ==>
        && db.View() == EnsureMeta(old(db.View())) && results == []
        && (ok <==> Pending(migrations, EnsureMeta(old(db.View()))) == [])
    {
      hide Cells, ViewOf, NoSharing, AgreeOutside, Pending, ApplyFirst, Labels, Database.Valid, Database.View;
      var r := db.Query(CreateTable(META), []);
      if r.Threw? { return false, []; }
      ghost var s1 := db.View();
      var pending := GetPendingMigrations();
      assert db.View() == s1;
      if db.inTransaction {
        ok := RefusePending(pending, clock, fault);
        results := [];
      } else {
        ok, results := ApplyPending(pending, clock, fault);
        LabelsOfApplied(s1, pending, clock, fault);
      }
    }
  }

  /** The result list: version and name of what was applied. */
  function Labels(pending: seq<Migration>, n: nat): seq<(int, string)>
    requires n <= |pending|
  {
    seq(n, k requires 0 <= k < n => (pending[k].version, pending[k].name))
  }

  lemma LabelsOfApplied(s: Store, pending: seq<Migration>, clock: nat -> string, fault: nat -> Option<nat>)
    ensures var p := ApplyFirst(s, pending, clock, fault, |pending|);
      && p.applied <= |pending| && (p.ok ==> p.applied == |pending|) && |Labels(pending, p.applied)| == p.applied
      && forall k | 0 <= k < p.applied :: Labels(pending, p.applied)[k] == (pending[k].version, pending[k].name)
  {
  }

  lemma NoLabels(pending: seq<Migration>)
    ensures Labels(pending, 0) == []
  {
  }

  lemma OneMoreLabel(pending: seq<Migration>, k: nat)
    requires k < |pending|
    ensures Labels(pending, k + 1) == Labels(pending, k) + [(pending[k].version, pending[k].name)]
  {
  }

  lemma {:induction false} StopAtFailure(s: Store, pending: seq<Migration>, clock: nat -> string,
                                         fault: nat -> Option<nat>, k: nat)
    requires k <= |pending|
    ensures !ApplyFirst(s, pending, clock, fault, k).ok ==>
      ApplyFirst(s, pending, clock, fault, |pending|) == ApplyFirst(s, pending, clock, fault, k)
    decreases |pending| - k
  {
    if k < |pending| { StopAtFailure(s, pending, clock, fault, k + 1); }
  }

  lemma {:induction false} FilterAll(rows: Table)
    ensures Filter(rows, [], []) == rows
  {
    if rows != [] {
      FilterAll(rows[..|rows| - 1]);
      assert rows == rows[..|rows| - 1] + [rows[|rows| - 1]];
    }
  }
}
