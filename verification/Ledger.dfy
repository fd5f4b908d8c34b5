/** The fee ledger as a property of the stored tables, and what the fee service's
    operations do to it. */
module FeeLedger {
  import opened Models
  import opened Sql

  const STUDENTS := "students"
  const YEARS := "academic_years"
  const CLASSES := "classes"
  const ENROLLMENTS := "enrollments"
  const FEE_TYPES := "fee_types"
  const STRUCTURES := "fee_structures"
  const DUES := "fee_dues"
  const PAYMENTS := "payments"

  const STRUCTURE_COLS := ["academic_year_id", "class_id", "fee_type_id", "amount", "frequency", "status"]
  const DUE_COLS := ["student_id", "academic_year_id", "fee_structure_id", "original_amount", "amount_paid",
                     "due_date", "status", "created_at", "updated_at"]
  const PAYMENT_COLS := ["student_id", "fee_due_id", "amount", "payment_date", "payment_method",
                         "receipt_number", "created_at"]
  const DUE_SETS := ["amount_paid", "status", "updated_at"]

  const BY_RECEIPT := [Cmp("receipt_number", Eq)]
  const BY_STUDENT_AND_STRUCTURE := [Cmp("student_id", Eq), Cmp("fee_structure_id", Eq)]

  // ----- The invariant

  function StatusOf(paid: int, original: int): string {
    if paid == 0 then "unpaid" else if paid < original then "partially_paid" else "paid"
  }

  function AmountOf(p: Record): int {
    match Cell(p, "amount") case Num(n) => n case _ => 0
  }

  /** The sum of the payments booked on a due. */
  function PaidFor(pays: Table, dueId: Value): int {
    if pays == [] then 0 else
      var last := pays[|pays| - 1];
      PaidFor(pays[..|pays| - 1], dueId) + (if Cell(last, "fee_due_id") == dueId then AmountOf(last) else 0)
  }

  ghost predicate DueOk(d: Record, pays: Table) {
    && Cell(d, "original_amount").Num? && Cell(d, "amount_paid").Num?
    && var original, paid := Cell(d, "original_amount").n, Cell(d, "amount_paid").n;
    && 0 < original && 0 <= paid <= original
    && paid == PaidFor(pays, Cell(d, ID))
    && Cell(d, "status") == Str(StatusOf(paid, original))
  }

  /** A payment is positive and belongs to a due of its own student. */
  ghost predicate PaymentOk(p: Record, dues: Table) {
    && Cell(p, "amount").Num? && Cell(p, "amount").n > 0
    && exists i :: 0 <= i < |dues| && Cell(dues[i], ID) == Cell(p, "fee_due_id")
                   && Cell(dues[i], "student_id") == Cell(p, "student_id")
  }

  ghost predicate UniqueReceipts(pays: Table) {
    forall i, j | 0 <= i < j < |pays| && Cell(pays[i], "receipt_number") != Null ::
      Cell(pays[i], "receipt_number") != Cell(pays[j], "receipt_number")
  }

  predicate SamePair(a: Record, b: Record) {
    Cell(a, "student_id") == Cell(b, "student_id") && Cell(a, "fee_structure_id") == Cell(b, "fee_structure_id")
  }

  ghost predicate UniquePairs(dues: Table) {
    forall i, j | 0 <= i < j < |dues| :: !SamePair(dues[i], dues[j])
  }

  predicate SameTriple(a: Record, b: Record) {
    && Cell(a, "academic_year_id") == Cell(b, "academic_year_id")
    && Cell(a, "class_id") == Cell(b, "class_id")
    && Cell(a, "fee_type_id") == Cell(b, "fee_type_id")
  }

  ghost predicate StructuresOk(structs: Table) {
    && IdsOk(structs)
    && (forall i | 0 <= i < |structs| :: Cell(structs[i], "amount").Num? && Cell(structs[i], "amount").n > 0)
  }

  ghost predicate TriplesUnique(structs: Table) {
    forall i, j | 0 <= i < j < |structs| :: !SameTriple(structs[i], structs[j])
  }

  ghost predicate DuesOk(dues: Table, pays: Table) {
    && IdsOk(dues) && UniquePairs(dues)
    && forall i | 0 <= i < |dues| :: DueOk(dues[i], pays)
  }

  ghost predicate PaymentsOk(pays: Table, dues: Table) {
    && IdsOk(pays) && UniqueReceipts(pays)
    && forall i | 0 <= i < |pays| :: PaymentOk(pays[i], dues)
  }

  ghost predicate Ledger(s: Store) {
    && StructuresOk(TableOf(s, STRUCTURES))
    && DuesOk(TableOf(s, DUES), TableOf(s, PAYMENTS))
    && PaymentsOk(TableOf(s, PAYMENTS), TableOf(s, DUES))
  }

  // ----- Sums

  lemma {:induction false} PaidForAbsent(pays: Table, id: Value)
    requires forall i | 0 <= i < |pays| :: Cell(pays[i], "fee_due_id") != id
    ensures PaidFor(pays, id) == 0
  {
    if pays != [] { PaidForAbsent(pays[..|pays| - 1], id); }
  }

  lemma PaidForSnoc(pays: Table, p: Record, id: Value)
    ensures PaidFor(pays + [p], id) == PaidFor(pays, id) + (if Cell(p, "fee_due_id") == id then AmountOf(p) else 0)
  {
    assert (pays + [p])[..|pays|] == pays;
  }

  // ----- recordPayment

  /** The row UPDATE leaves behind for a due that was paid. */
  function PaidDue(d: Record, paid: int, status: string, now: Value): Record {
    d["amount_paid" := Num(paid)]["status" := Str(status)]["updated_at" := now]
  }

  lemma AssignDue(d: Record, paid: int, status: string, now: Value, id: Value)
    ensures Assign(d, DUE_SETS, [Num(paid), Str(status), now, id]) == PaidDue(d, paid, status, now)
  {
    var params := [Num(paid), Str(status), now, id];
    assert Assign(d, [], params) == d;
    hide Assign;
    AssignSnoc(d, [], "amount_paid", params);
    AssignSnoc(d, ["amount_paid"], "status", params);
    AssignSnoc(d, ["amount_paid", "status"], "updated_at", params);
    assert [] + ["amount_paid"] == ["amount_paid"];
    assert ["amount_paid"] + ["status"] == ["amount_paid", "status"];
    assert ["amount_paid", "status"] + ["updated_at"] == DUE_SETS;
  }

  /** The callback of `recordPayment`: save the payment, update the due, read it back. */
  function PaymentSteps(payment: seq<Value>, dueId: int, paid: int, status: string, now: Value): seq<Step> {
    [FailIfNone(Insert(PAYMENTS, PAYMENT_COLS), payment),
     FailIfNone(Update(DUES, DUE_SETS, BY_ID), [Num(paid), Str(status), now, Num(dueId)]),
     Run(Select(DUES, BY_ID), [Num(dueId)])]
  }

  /** The three steps unrolled: what is stored when all of them succeed. */
  lemma PaymentStepsRun(s: Store, payment: seq<Value>, dueId: int, paid: int, status: string, now: Value,
                        fault: Option<nat>)
    ensures var t := Transact(s, PaymentSteps(payment, dueId, paid, status, now), fault);
      t.ok ==>
        && t.store == ExecStore(ExecStore(s, Insert(PAYMENTS, PAYMENT_COLS), payment),
                                Update(DUES, DUE_SETS, BY_ID), [Num(paid), Str(status), now, Num(dueId)])
        && |t.results| == 3 && t.results[0].insertId == Some(NextId(TableOf(s, PAYMENTS)))
  {
    hide ExecStore;
    var steps := PaymentSteps(payment, dueId, paid, status, now);
    var r0 := RunSteps(s, steps, fault, 0);
    var r1 := RunSteps(s, steps, fault, 1);
    var r2 := RunSteps(s, steps, fault, 2);
    var r3 := RunSteps(s, steps, fault, 3);
    assert r3.ok ==> r2.ok && r3.store == ExecStore(r2.store, Select(DUES, BY_ID), [Num(dueId)]);
    assert r2.ok ==> r1.ok;
    SelectKeeps(r2.store, DUES, BY_ID, [Num(dueId)]);
  }

  /** UPDATE by id touches exactly the one row. */
  lemma UpdateOne(dues: Table, i: nat, paid: int, status: string, now: Value)
    requires i < |dues| && IdsOk(dues)
    ensures var id := Cell(dues[i], ID).n;
      UpdateRows(dues, DUE_SETS, BY_ID, [Num(paid), Str(status), now, Num(id)])
      == dues[i := PaidDue(dues[i], paid, status, now)]
  {
    hide Assign, Matches, UpdateRows;
    var id := Cell(dues[i], ID).n;
    assert [Num(paid), Str(status), now] + [Num(id)] == [Num(paid), Str(status), now, Num(id)];
    UpdateById(dues, DUE_SETS, [Num(paid), Str(status), now], i);
    AssignDue(dues[i], paid, status, now, Num(id));
  }

  /** `p` is a row that can be appended to the payments as a payment of `amount`
      on the due `d`. */
  ghost predicate NewPayment(p: Record, d: Record, amount: int, pays: Table) {
    && Cell(p, ID) == Num(NextId(pays))
    && Cell(p, "fee_due_id") == Cell(d, ID) && Cell(p, "student_id") == Cell(d, "student_id")
    && Cell(p, "amount") == Num(amount) && amount > 0
    && (Cell(p, "receipt_number") == Null
        || forall j | 0 <= j < |pays| :: Cell(pays[j], "receipt_number") != Cell(p, "receipt_number"))
  }

  lemma PaymentsAfterPayment(dues: Table, pays: Table, i: nat, p: Record, amount: int, paid: int, status: string,
                             now: Value)
    requires i < |dues| && PaymentsOk(pays, dues) && NewPayment(p, dues[i], amount, pays)
    ensures PaymentsOk(pays + [p], dues[i := PaidDue(dues[i], paid, status, now)])
  {
    NextIdFresh(pays);
    var dues' := dues[i := PaidDue(dues[i], paid, status, now)];
    forall j | 0 <= j < |pays + [p]| ensures PaymentOk((pays + [p])[j], dues') {
      if j < |pays| {
        var k :| 0 <= k < |dues| && Cell(dues[k], ID) == Cell(pays[j], "fee_due_id")
                 && Cell(dues[k], "student_id") == Cell(pays[j], "student_id");
        assert Cell(dues'[k], ID) == Cell(dues[k], ID) && Cell(dues'[k], "student_id") == Cell(dues[k], "student_id");
      } else {
        assert Cell(dues'[i], ID) == Cell(dues[i], ID) && Cell(dues'[i], "student_id") == Cell(dues[i], "student_id");
      }
    }
  }

  lemma DuesAfterPayment(dues: Table, pays: Table, i: nat, p: Record, amount: int, paid: int, now: Value)
    requires i < |dues| && DuesOk(dues, pays) && NewPayment(p, dues[i], amount, pays)
    requires paid == Cell(dues[i], "amount_paid").n + amount <= Cell(dues[i], "original_amount").n
    ensures var status := StatusOf(paid, Cell(dues[i], "original_amount").n);
      DuesOk(dues[i := PaidDue(dues[i], paid, status, now)], pays + [p])
  {
    var status := StatusOf(paid, Cell(dues[i], "original_amount").n);
    var dues' := dues[i := PaidDue(dues[i], paid, status, now)];
    forall j | 0 <= j < |dues| ensures DueOk(dues'[j], pays + [p]) {
      PaidForSnoc(pays, p, Cell(dues[j], ID));
      assert DueOk(dues[j], pays);
      if j < i { assert Cell(dues[j], ID) != Cell(dues[i], ID); }
      if i < j { assert Cell(dues[i], ID) != Cell(dues[j], ID); }
    }
  }

  /** A receipt number as it is stored: absent and empty numbers become null. */
  function ReceiptValue(receipt: Option<string>): Value {
    if receipt.Some? && receipt.value != "" then Str(receipt.value) else Null
  }

  function OptionalText(v: Option<string>): Value {
    if v.Some? && v.value != "" then Str(v.value) else Null
  }

  function PaymentRow(studentId: int, dueId: int, amount: int, date: string, payMethod: Option<string>,
                      receipt: Option<string>, now: Value): seq<Value>
  {
    [Num(studentId), Num(dueId), Num(amount), Str(date), OptionalText(payMethod), ReceiptValue(receipt), now]
  }

  /** What one successful payment stores. */
  function AfterPayment(s: Store, i: nat, payment: seq<Value>, paid: int, status: string, now: Value): Store
    requires i < |TableOf(s, DUES)|
  {
    s[PAYMENTS := TableOf(s, PAYMENTS) + [Inserted(s, PAYMENTS, PAYMENT_COLS, payment)]]
     [DUES := TableOf(s, DUES)[i := PaidDue(TableOf(s, DUES)[i], paid, status, now)]]
  }

  lemma PaymentTransaction(s: Store, i: nat, payment: seq<Value>, paid: int, status: string, now: Value,
                           fault: Option<nat>)
    requires i < |TableOf(s, DUES)| && IdsOk(TableOf(s, DUES))
    ensures var t := Transact(s, PaymentSteps(payment, Cell(TableOf(s, DUES)[i], ID).n, paid, status, now), fault);
      t.ok ==> t.store == AfterPayment(s, i, payment, paid, status, now)
               && |t.results| == 3 && t.results[0].insertId == Some(NextId(TableOf(s, PAYMENTS)))
  {
    hide Inserted, Assign, PaidDue, Transact, UpdateRows, NextId;
    var dueId := Cell(TableOf(s, DUES)[i], ID).n;
    PaymentStepsRun(s, payment, dueId, paid, status, now, fault);
    UpdateOne(TableOf(s, DUES), i, paid, status, now);
  }

  lemma PaymentRowIsNew(s: Store, i: nat, amount: int, date: string, payMethod: Option<string>,
                        receipt: Option<string>, now: Value)
    requires i < |TableOf(s, DUES)| && IdsOk(TableOf(s, DUES)) && Cell(TableOf(s, DUES)[i], "student_id").Num?
      && amount > 0
    requires ReceiptValue(receipt) == Null
          || forall j | 0 <= j < |TableOf(s, PAYMENTS)| ::
            Cell(TableOf(s, PAYMENTS)[j], "receipt_number") != ReceiptValue(receipt)
    ensures var d := TableOf(s, DUES)[i];
      var row := PaymentRow(Cell(d, "student_id").n, Cell(d, ID).n, amount, date, payMethod, receipt, now);
      NewPayment(Inserted(s, PAYMENTS, PAYMENT_COLS, row), d, amount, TableOf(s, PAYMENTS))
  {
    var d := TableOf(s, DUES)[i];
    var row := PaymentRow(Cell(d, "student_id").n, Cell(d, ID).n, amount, date, payMethod, receipt, now);
    InsertedCell(s, PAYMENTS, PAYMENT_COLS, row, 0);
    InsertedCell(s, PAYMENTS, PAYMENT_COLS, row, 1);
    InsertedCell(s, PAYMENTS, PAYMENT_COLS, row, 2);
    InsertedCell(s, PAYMENTS, PAYMENT_COLS, row, 5);
  }

  /** A payment keeps the ledger, whether its transaction commits or a write fails. */
  lemma PaymentKeepsLedger(s: Store, i: nat, amount: int, date: string, payMethod: Option<string>,
                           receipt: Option<string>, now: Value, fault: Option<nat>)
    requires Ledger(s) && i < |TableOf(s, DUES)| && Cell(TableOf(s, DUES)[i], "student_id").Num? && amount > 0
    requires Cell(TableOf(s, DUES)[i], "amount_paid").n + amount <= Cell(TableOf(s, DUES)[i], "original_amount").n
    requires ReceiptValue(receipt) == Null
          || forall j | 0 <= j < |TableOf(s, PAYMENTS)| ::
            Cell(TableOf(s, PAYMENTS)[j], "receipt_number") != ReceiptValue(receipt)
    ensures var d := TableOf(s, DUES)[i];
      var paid := Cell(d, "amount_paid").n + amount;
      var row := PaymentRow(Cell(d, "student_id").n, Cell(d, ID).n, amount, date, payMethod, receipt, now);
      Ledger(Transact(s, PaymentSteps(row, Cell(d, ID).n, paid, StatusOf(paid, Cell(d, "original_amount").n), now),
                      fault).store)
  {
    hide PaymentsOk, StructuresOk, Inserted, NewPayment, PaidDue, Transact, PaymentSteps, PaymentRow, ReceiptValue;
    var dues, pays := TableOf(s, DUES), TableOf(s, PAYMENTS);
    var d := dues[i];
    assert DueOk(d, pays);
    hide DueOk;
    var paid := Cell(d, "amount_paid").n + amount;
    var status := StatusOf(paid, Cell(d, "original_amount").n);
    var row := PaymentRow(Cell(d, "student_id").n, Cell(d, ID).n, amount, date, payMethod, receipt, now);
    var p := Inserted(s, PAYMENTS, PAYMENT_COLS, row);
    PaymentRowIsNew(s, i, amount, date, payMethod, receipt, now);
    PaymentTransaction(s, i, row, paid, status, now, fault);
    PaymentsAfterPayment(dues, pays, i, p, amount, paid, status, now);
    DuesAfterPayment(dues, pays, i, p, amount, paid, now);
    hide DuesOk, StatusOf;
    var s' := AfterPayment(s, i, row, paid, status, now);
    assert TableOf(s', PAYMENTS) == pays + [p];
    assert TableOf(s', DUES) == dues[i := PaidDue(d, paid, status, now)];
    assert TableOf(s', STRUCTURES) == TableOf(s, STRUCTURES);
  }

  // ----- createFeeDues

  /** The row saved for one fee structure. */
  function DueRow(studentId: int, yearId: int, fs: Record, now: Value): seq<Value> {
    [Num(studentId), Num(yearId), Cell(fs, ID), Cell(fs, "amount"), Num(0), Null, Str("unpaid"), now, now]
  }

  /** The callback of `createFeeDues`: per structure, refuse an existing due, then save one. */
  function DueSteps(studentId: int, yearId: int, structs: Table, now: Value): (steps: seq<Step>)
    ensures |steps| == 2 * |structs|
  {
    if structs == [] then [] else
      var fs := structs[|structs| - 1];
      DueSteps(studentId, yearId, structs[..|structs| - 1], now)
      + [FailIfFound(Select(DUES, BY_STUDENT_AND_STRUCTURE), [Num(studentId), Cell(fs, ID)]),
         FailIfNone(Insert(DUES, DUE_COLS), DueRow(studentId, yearId, fs, now))]
  }

  /** What those steps store when none of them throws. */
  function AddDues(s: Store, studentId: int, yearId: int, structs: Table, now: Value): Store {
    if structs == [] then s else
      var before := AddDues(s, studentId, yearId, structs[..|structs| - 1], now);
      ExecStore(before, Insert(DUES, DUE_COLS), DueRow(studentId, yearId, structs[|structs| - 1], now))
  }

  /** Two steps on top of a prefix. */
  lemma RunTwoMore(s: Store, a: seq<Step>, x: Step, y: Step, fault: Option<nat>)
    requires x.FailIfFound? && x.cmd.Select? && y.FailIfNone?
    ensures var before := RunSteps(s, a, fault, |a|); var after := RunSteps(s, a + [x, y], fault, |a| + 2);
      after.ok ==> before.ok && ExecResult(before.store, x.cmd, x.params).rows == []
                   && after.store == ExecStore(before.store, y.cmd, y.params)
                   && after.results == before.results + [ExecResult(before.store, x.cmd, x.params),
                                                         ExecResult(before.store, y.cmd, y.params)]
  {
    var steps := a + [x, y];
    RunPrefix(s, a, [x, y], fault, |a|);
    var mid := RunSteps(s, steps, fault, |a| + 1);
    var after := RunSteps(s, steps, fault, |a| + 2);
    assert steps[|a|] == x && steps[|a| + 1] == y;
    hide ExecStore, ExecResult;
    assert after.ok ==> mid.ok && after.store == ExecStore(mid.store, y.cmd, y.params);
    SelectKeeps(RunSteps(s, a, fault, |a|).store, x.cmd.table, x.cmd.where, x.params);
  }

  /** A due that the duplicate check let through. */
  ghost predicate NewDue(d: Record, dues: Table) {
    && Cell(d, ID) == Num(NextId(dues))
    && Cell(d, "original_amount").Num? && Cell(d, "original_amount").n > 0
    && Cell(d, "amount_paid") == Num(0) && Cell(d, "status") == Str("unpaid")
    && forall i | 0 <= i < |dues| :: !SamePair(dues[i], d)
  }

  lemma TablesAfterDue(dues: Table, pays: Table, d: Record)
    requires DuesOk(dues, pays) && PaymentsOk(pays, dues) && NewDue(d, dues)
    ensures DuesOk(dues + [d], pays) && PaymentsOk(pays, dues + [d])
  {
    hide SamePair, DueOk, PaymentOk;
    NextIdFresh(dues);
    var dues' := dues + [d];
    forall j | 0 <= j < |pays| ensures PaymentOk(pays[j], dues') && Cell(pays[j], "fee_due_id") != Cell(d, ID) {
      PaymentAfterDue(pays[j], dues, d);
    }
    NewDueOk(pays, dues, d);
    forall i | 0 <= i < |dues'| ensures DueOk(dues'[i], pays) {
      if i < |dues| { assert dues'[i] == dues[i]; }
    }
  }

  lemma PaymentAfterDue(p: Record, dues: Table, d: Record)
    requires IdsOk(dues) && NewDue(d, dues) && PaymentOk(p, dues)
    ensures PaymentOk(p, dues + [d]) && Cell(p, "fee_due_id") != Cell(d, ID)
  {
    hide SamePair;
    NextIdFresh(dues);
    var k :| 0 <= k < |dues| && Cell(dues[k], ID) == Cell(p, "fee_due_id")
             && Cell(dues[k], "student_id") == Cell(p, "student_id");
    assert (dues + [d])[k] == dues[k];
  }

  lemma NewDueOk(pays: Table, dues: Table, d: Record)
    requires NewDue(d, dues) && forall j | 0 <= j < |pays| :: Cell(pays[j], "fee_due_id") != Cell(d, ID)
    ensures DueOk(d, pays)
  {
    hide SamePair;
    PaidForAbsent(pays, Cell(d, ID));
  }

  lemma DueRowIsNew(s: Store, studentId: int, yearId: int, fs: Record, now: Value)
    requires Cell(fs, "amount").Num? && Cell(fs, "amount").n > 0
    requires Filter(TableOf(s, DUES), BY_STUDENT_AND_STRUCTURE, [Num(studentId), Cell(fs, ID)]) == []
    ensures NewDue(Inserted(s, DUES, DUE_COLS, DueRow(studentId, yearId, fs, now)), TableOf(s, DUES))
  {
    var row := DueRow(studentId, yearId, fs, now);
    var d := Inserted(s, DUES, DUE_COLS, row);
    var dues := TableOf(s, DUES);
    InsertedCell(s, DUES, DUE_COLS, row, 0);
    InsertedCell(s, DUES, DUE_COLS, row, 2);
    InsertedCell(s, DUES, DUE_COLS, row, 3);
    InsertedCell(s, DUES, DUE_COLS, row, 4);
    InsertedCell(s, DUES, DUE_COLS, row, 6);
    hide Inserted;
    forall i | 0 <= i < |dues| ensures !SamePair(dues[i], d) {
      NoMatchNoPair(dues, i, studentId, Cell(fs, ID));
    }
  }

  lemma NoMatchNoPair(dues: Table, i: nat, studentId: int, fsId: Value)
    requires i < |dues| && Filter(dues, BY_STUDENT_AND_STRUCTURE, [Num(studentId), fsId]) == []
    ensures !(Cell(dues[i], "student_id") == Num(studentId) && Cell(dues[i], "fee_structure_id") == fsId)
  {
    var params := [Num(studentId), fsId];
    FilterMembers(dues, BY_STUDENT_AND_STRUCTURE, params);
    assert !Matches(dues[i], BY_STUDENT_AND_STRUCTURE, params);
    assert BY_STUDENT_AND_STRUCTURE[0] == Cmp("student_id", Eq);
    assert BY_STUDENT_AND_STRUCTURE[1] == Cmp("fee_structure_id", Eq);
  }

  lemma DueKeepsLedger(s: Store, studentId: int, yearId: int, fs: Record, now: Value)
    requires Ledger(s) && Cell(fs, "amount").Num? && Cell(fs, "amount").n > 0
    requires Filter(TableOf(s, DUES), BY_STUDENT_AND_STRUCTURE, [Num(studentId), Cell(fs, ID)]) == []
    ensures Ledger(ExecStore(s, Insert(DUES, DUE_COLS), DueRow(studentId, yearId, fs, now)))
  {
    hide StructuresOk, DuesOk, PaymentsOk, Inserted, NewDue, Filter, DueRow;
    var d := Inserted(s, DUES, DUE_COLS, DueRow(studentId, yearId, fs, now));
    DueRowIsNew(s, studentId, yearId, fs, now);
    TablesAfterDue(TableOf(s, DUES), TableOf(s, PAYMENTS), d);
    var s' := ExecStore(s, Insert(DUES, DUE_COLS), DueRow(studentId, yearId, fs, now));
    assert TableOf(s', DUES) == TableOf(s, DUES) + [d];
    assert TableOf(s', PAYMENTS) == TableOf(s, PAYMENTS) && TableOf(s', STRUCTURES) == TableOf(s, STRUCTURES);
  }

  ghost predicate PositiveAmounts(structs: Table) {
    forall k | 0 <= k < |structs| :: Cell(structs[k], "amount").Num? && Cell(structs[k], "amount").n > 0
  }

  lemma {:induction false} DuesRun(s: Store, studentId: int, yearId: int, structs: Table, now: Value,
                                   fault: Option<nat>)
    requires Ledger(s) && PositiveAmounts(structs)
    ensures var steps := DueSteps(studentId, yearId, structs, now);
      var ran := RunSteps(s, steps, fault, |steps|);
      ran.ok ==> ran.store == AddDues(s, studentId, yearId, structs, now) && Ledger(ran.store)
  {
    hide Ledger, ExecStore, DueRow, RunSteps;
    if structs == [] {
      RunNothing(s, DueSteps(studentId, yearId, structs, now), fault);
    } else {
      var front, fs := structs[..|structs| - 1], structs[|structs| - 1];
      DuesRun(s, studentId, yearId, front, now, fault);
      var a := DueSteps(studentId, yearId, front, now);
      var x := FailIfFound(Select(DUES, BY_STUDENT_AND_STRUCTURE), [Num(studentId), Cell(fs, ID)]);
      var y := FailIfNone(Insert(DUES, DUE_COLS), DueRow(studentId, yearId, fs, now));
      assert DueSteps(studentId, yearId, structs, now) == a + [x, y];
      RunTwoMore(s, a, x, y, fault);
      var before := RunSteps(s, a, fault, |a|);
      if RunSteps(s, a + [x, y], fault, |a| + 2).ok {
        DueKeepsLedger(before.store, studentId, yearId, fs, now);
      }
    }
  }

  /** What `saveFeeDue` answers for each structure: the saved values and the id of the insert. */
  function SavedDues(studentId: int, yearId: int, structs: Table, now: Value, ids: seq<Option<int>>): Table
    requires |ids| == 2 * |structs|
  {
    if structs == [] then [] else
      var n := |structs| - 1;
      SavedDues(studentId, yearId, structs[..n], now, ids[..2 * n])
      + [SavedDue(DueRow(studentId, yearId, structs[n], now), ids[2 * n + 1])]
  }

  function SavedDue(row: seq<Value>, id: Option<int>): Record {
    NewRecord(DUE_COLS, row)[ID := if id.Some? then Num(id.value) else Undefined]
  }

  /** The answers of a run that ends well are the rows that it appended. */
  lemma {:induction false} DuesAnswer(s: Store, studentId: int, yearId: int, structs: Table, now: Value,
                                      fault: Option<nat>)
    ensures var steps := DueSteps(studentId, yearId, structs, now);
      var ran := RunSteps(s, steps, fault, |steps|);
      ran.ok ==>
        && |ran.results| == 2 * |structs|
        && TableOf(ran.store, DUES)
           == TableOf(s, DUES) + SavedDues(studentId, yearId, structs, now, InsertIds(ran.results))
  {
    hide ExecStore, ExecResult, DueRow, RunSteps, TableOf, SavedDues, InsertIds;
    if structs == [] {
      RunNothing(s, DueSteps(studentId, yearId, structs, now), fault);
      NoAnswers(studentId, yearId, structs, now);
    } else {
      var front, fs := structs[..|structs| - 1], structs[|structs| - 1];
      DuesAnswer(s, studentId, yearId, front, now, fault);
      var a := DueSteps(studentId, yearId, front, now);
      var x := FailIfFound(Select(DUES, BY_STUDENT_AND_STRUCTURE), [Num(studentId), Cell(fs, ID)]);
      var y := FailIfNone(Insert(DUES, DUE_COLS), DueRow(studentId, yearId, fs, now));
      assert DueSteps(studentId, yearId, structs, now) == a + [x, y];
      RunTwoMore(s, a, x, y, fault);
      var before, after := RunSteps(s, a, fault, |a|), RunSteps(s, a + [x, y], fault, |a| + 2);
      if after.ok {
        OneMoreAnswer(TableOf(s, DUES), before.store, studentId, yearId, structs, now, before.results,
                      ExecResult(before.store, x.cmd, x.params));
      }
    }
  }

  lemma NoAnswers(studentId: int, yearId: int, structs: Table, now: Value)
    requires structs == []
    ensures SavedDues(studentId, yearId, structs, now, InsertIds([])) == []
  {
  }

  lemma OneMoreAnswer(dues: Table, before: Store, studentId: int, yearId: int, structs: Table, now: Value,
                      results: seq<Result>, looked: Result)
    requires structs != [] && |results| == 2 * (|structs| - 1)
    requires TableOf(before, DUES)
             == dues + SavedDues(studentId, yearId, structs[..|structs| - 1], now, InsertIds(results))
    ensures var cmd, row := Insert(DUES, DUE_COLS), DueRow(studentId, yearId, structs[|structs| - 1], now);
      var all := results + [looked, ExecResult(before, cmd, row)];
      TableOf(ExecStore(before, cmd, row), DUES)
      == dues + SavedDues(studentId, yearId, structs, now, InsertIds(all))
  {
    hide ExecStore, DueRow, TableOf, NewRecord, NextId;
    var cmd, row := Insert(DUES, DUE_COLS), DueRow(studentId, yearId, structs[|structs| - 1], now);
    InsertTables(before, DUES, DUE_COLS, row);
    var all := results + [looked, ExecResult(before, cmd, row)];
    assert InsertIds(all)[..|results|] == InsertIds(results);
    assert InsertIds(all)[|results| + 1] == Some(NextId(TableOf(before, DUES)));
  }

  /** The same of the transaction. */
  lemma CreatedDues(s: Store, studentId: int, yearId: int, structs: Table, now: Value, fault: Option<nat>)
    ensures var t := Transact(s, DueSteps(studentId, yearId, structs, now), fault); var ids := InsertIds(t.results);
      t.ok ==>
        && |ids| == 2 * |structs|
        && TableOf(t.store, DUES) == TableOf(s, DUES) + SavedDues(studentId, yearId, structs, now, ids)
  {
    hide RunSteps, TableOf, SavedDues, DueSteps;
    DuesAnswer(s, studentId, yearId, structs, now, fault);
  }

  lemma RunNothing(s: Store, steps: seq<Step>, fault: Option<nat>)
    ensures RunSteps(s, steps, fault, 0) == Ran(s, true, [])
  {
  }

  /** `createFeeDues` keeps the ledger and stores all dues or none. */
  lemma CreateDuesKeepsLedger(s: Store, studentId: int, yearId: int, structs: Table, now: Value, fault: Option<nat>)
    requires Ledger(s) && PositiveAmounts(structs)
    ensures var t := Transact(s, DueSteps(studentId, yearId, structs, now), fault);
      Ledger(t.store) && t.store == if t.ok then AddDues(s, studentId, yearId, structs, now) else s
  {
    hide Ledger, RunSteps, AddDues, DueSteps;
    DuesRun(s, studentId, yearId, structs, now, fault);
  }

  /** The added dues: one per structure, in order, each unpaid and of the structure's amount. */
  ghost predicate DueFor(d: Record, studentId: int, yearId: int, fs: Record, now: Value) {
    && Cell(d, "student_id") == Num(studentId) && Cell(d, "academic_year_id") == Num(yearId)
    && Cell(d, "fee_structure_id") == Cell(fs, ID) && Cell(d, "original_amount") == Cell(fs, "amount")
    && Cell(d, "amount_paid") == Num(0) && Cell(d, "status") == Str("unpaid")
    && Cell(d, "due_date") == Null && Cell(d, "created_at") == now && Cell(d, "updated_at") == now
  }

  /** `after` is `dues` and behind it one due per structure, in order. */
  ghost predicate AddedDues(dues: Table, after: Table, studentId: int, yearId: int, structs: Table, now: Value) {
    && |after| == |dues| + |structs| && after[..|dues|] == dues
    && forall k | 0 <= k < |structs| :: DueFor(after[|dues| + k], studentId, yearId, structs[k], now)
  }

  lemma OneMoreDue(dues: Table, mid: Table, studentId: int, yearId: int, structs: Table, d: Record, now: Value)
    requires structs != [] && AddedDues(dues, mid, studentId, yearId, structs[..|structs| - 1], now)
    requires DueFor(d, studentId, yearId, structs[|structs| - 1], now)
    ensures AddedDues(dues, mid + [d], studentId, yearId, structs, now)
  {
    hide DueFor;
    var front, after := structs[..|structs| - 1], mid + [d];
    assert after[..|dues|] == mid[..|dues|];
    forall k | 0 <= k < |structs| ensures DueFor(after[|dues| + k], studentId, yearId, structs[k], now) {
      if k < |front| { assert front[k] == structs[k] && after[|dues| + k] == mid[|dues| + k]; }
    }
  }

  /** Inserting into one table leaves the others alone. */
  lemma InsertTables(s: Store, t: string, cols: seq<string>, params: seq<Value>)
    ensures var s' := ExecStore(s, Insert(t, cols), params);
      && TableOf(s', t) == TableOf(s, t) + [Inserted(s, t, cols, params)]
      && forall u | u != t :: TableOf(s', u) == TableOf(s, u)
  {
    hide Inserted;
  }

  lemma {:induction false} AddDuesAddsAll(s: Store, studentId: int, yearId: int, structs: Table, now: Value)
    ensures var s' := AddDues(s, studentId, yearId, structs, now);
      && (forall t | t != DUES :: TableOf(s', t) == TableOf(s, t))
      && AddedDues(TableOf(s, DUES), TableOf(s', DUES), studentId, yearId, structs, now)
  {
    if structs != [] {
      hide AddedDues, DueFor, Inserted, DueRow, ExecStore, TableOf;
      var front, fs := structs[..|structs| - 1], structs[|structs| - 1];
      AddDuesAddsAll(s, studentId, yearId, front, now);
      var before := AddDues(s, studentId, yearId, front, now);
      InsertedIsDue(before, studentId, yearId, fs, now);
      InsertTables(before, DUES, DUE_COLS, DueRow(studentId, yearId, fs, now));
      OneMoreDue(TableOf(s, DUES), TableOf(before, DUES), studentId, yearId, structs,
                 Inserted(before, DUES, DUE_COLS, DueRow(studentId, yearId, fs, now)), now);
    }
  }

  lemma InsertedIsDue(s: Store, studentId: int, yearId: int, fs: Record, now: Value)
    ensures DueFor(Inserted(s, DUES, DUE_COLS, DueRow(studentId, yearId, fs, now)), studentId, yearId, fs, now)
  {
    var row := DueRow(studentId, yearId, fs, now);
    forall k | 0 <= k < |DUE_COLS| ensures Cell(Inserted(s, DUES, DUE_COLS, row), DUE_COLS[k]) == Param(row, k) {
      InsertedCell(s, DUES, DUE_COLS, row, k);
    }
    hide Inserted;
    assert DUE_COLS[0] == "student_id" && DUE_COLS[1] == "academic_year_id" && DUE_COLS[2] == "fee_structure_id";
    assert DUE_COLS[3] == "original_amount" && DUE_COLS[4] == "amount_paid" && DUE_COLS[5] == "due_date";
    assert DUE_COLS[6] == "status" && DUE_COLS[7] == "created_at" && DUE_COLS[8] == "updated_at";
  }

  // ----- createFeeStructure

  const BY_TRIPLE := [Cmp("academic_year_id", Eq), Cmp("class_id", Eq), Cmp("fee_type_id", Eq)]

  function StructureRow(yearId: int, classId: int, typeId: int, amount: int, frequency: Option<string>,
                        status: Option<string>): seq<Value>
  {
    [Num(yearId), Num(classId), Num(typeId), Num(amount),
     if OptionalText(frequency) == Null then Str("annual") else OptionalText(frequency),
     if OptionalText(status) == Null then Str("active") else OptionalText(status)]
  }

  lemma NoMatchNoTriple(structs: Table, i: nat, row: Record, yearId: int, classId: int, typeId: int)
    requires i < |structs| && Filter(structs, BY_TRIPLE, [Num(yearId), Num(classId), Num(typeId)]) == []
    requires Cell(row, "academic_year_id") == Num(yearId) && Cell(row, "class_id") == Num(classId)
    requires Cell(row, "fee_type_id") == Num(typeId)
    ensures !SameTriple(structs[i], row)
  {
    var params := [Num(yearId), Num(classId), Num(typeId)];
    FilterMembers(structs, BY_TRIPLE, params);
    assert !Matches(structs[i], BY_TRIPLE, params);
    assert BY_TRIPLE[0] == Cmp("academic_year_id", Eq) && BY_TRIPLE[1] == Cmp("class_id", Eq);
    assert BY_TRIPLE[2] == Cmp("fee_type_id", Eq);
  }

  /** A structure that passed the checks keeps the ledger and the uniqueness of
      (year, class, type). */
  lemma StructureKeepsLedger(s: Store, yearId: int, classId: int, typeId: int, amount: int,
                             frequency: Option<string>, status: Option<string>)
    requires Ledger(s) && amount > 0
    requires Filter(TableOf(s, STRUCTURES), BY_TRIPLE, [Num(yearId), Num(classId), Num(typeId)]) == []
    ensures var s' := ExecStore(s, Insert(STRUCTURES, STRUCTURE_COLS),
                                StructureRow(yearId, classId, typeId, amount, frequency, status));
      Ledger(s') && (TriplesUnique(TableOf(s, STRUCTURES)) ==> TriplesUnique(TableOf(s', STRUCTURES)))
  {
    hide DuesOk, PaymentsOk, Filter, SameTriple, OptionalText;
    var row := StructureRow(yearId, classId, typeId, amount, frequency, status);
    var r := Inserted(s, STRUCTURES, STRUCTURE_COLS, row);
    var structs := TableOf(s, STRUCTURES);
    InsertedCell(s, STRUCTURES, STRUCTURE_COLS, row, 0);
    InsertedCell(s, STRUCTURES, STRUCTURE_COLS, row, 1);
    InsertedCell(s, STRUCTURES, STRUCTURE_COLS, row, 2);
    InsertedCell(s, STRUCTURES, STRUCTURE_COLS, row, 3);
    NextIdFresh(structs);
    assert Cell(r, ID) == Num(NextId(structs));
    hide Inserted;
    forall i | 0 <= i < |structs| ensures !SameTriple(structs[i], r) {
      NoMatchNoTriple(structs, i, r, yearId, classId, typeId);
    }
    assert StructuresOk(structs + [r]);
    assert TriplesUnique(structs) ==> TriplesUnique(structs + [r]);
    hide StructuresOk, TriplesUnique;
    var s' := ExecStore(s, Insert(STRUCTURES, STRUCTURE_COLS), row);
    assert TableOf(s', STRUCTURES) == structs + [r];
    assert TableOf(s', DUES) == TableOf(s, DUES) && TableOf(s', PAYMENTS) == TableOf(s, PAYMENTS);
  }

  // ----- Conservation

  function NumOf(r: Record, col: string): int {
    match Cell(r, col) case Num(n) => n case _ => 0
  }

  function Total(rows: Table, col: string): int {
    if rows == [] then 0 else Total(rows[..|rows| - 1], col) + NumOf(rows[|rows| - 1], col)
  }

  /** The sum over the dues of what the payments book on them. */
  function Booked(dues: Table, pays: Table): int {
    if dues == [] then 0 else Booked(dues[..|dues| - 1], pays) + PaidFor(pays, Cell(dues[|dues| - 1], ID))
  }

  lemma {:induction false} BookedNothing(dues: Table)
    ensures Booked(dues, []) == 0
  {
    if dues != [] { BookedNothing(dues[..|dues| - 1]); }
  }

  /** One payment is booked on at most the one due that has its id. */
  lemma {:induction false} BookedSnoc(dues: Table, pays: Table, p: Record)
    requires forall i, j | 0 <= i < j < |dues| :: Cell(dues[i], ID) != Cell(dues[j], ID)
    ensures Booked(dues, pays + [p]) == Booked(dues, pays)
      + if exists i :: 0 <= i < |dues| && Cell(dues[i], ID) == Cell(p, "fee_due_id") then AmountOf(p) else 0
  {
    if dues != [] {
      var front, last := dues[..|dues| - 1], dues[|dues| - 1];
      BookedSnoc(front, pays, p);
      PaidForSnoc(pays, p, Cell(last, ID));
      if Cell(last, ID) == Cell(p, "fee_due_id") {
        assert forall i | 0 <= i < |front| :: Cell(front[i], ID) == Cell(dues[i], ID);
      } else if i :| 0 <= i < |dues| && Cell(dues[i], ID) == Cell(p, "fee_due_id") {
        assert front[i] == dues[i];
      } else {
        assert forall i | 0 <= i < |front| :: front[i] == dues[i];
      }
    }
  }

  lemma {:induction false} BookedIsTotal(dues: Table, pays: Table)
    requires forall i, j | 0 <= i < j < |dues| :: Cell(dues[i], ID) != Cell(dues[j], ID)
    requires forall k | 0 <= k < |pays| ::
      exists i :: 0 <= i < |dues| && Cell(dues[i], ID) == Cell(pays[k], "fee_due_id")
    ensures Booked(dues, pays) == Total(pays, "amount")
  {
    if pays == [] {
      BookedNothing(dues);
    } else {
      var front, last := pays[..|pays| - 1], pays[|pays| - 1];
      BookedIsTotal(dues, front);
      assert front + [last] == pays;
      BookedSnoc(dues, front, last);
    }
  }

  lemma {:induction false} PaidIsBooked(dues: Table, pays: Table)
    requires forall i | 0 <= i < |dues| :: DueOk(dues[i], pays)
    ensures Total(dues, "amount_paid") == Booked(dues, pays)
  {
    if dues != [] { PaidIsBooked(dues[..|dues| - 1], pays); }
  }

  /** Conservation: what the dues say was paid is what the payments brought in. */
  lemma MoneyIsConserved(s: Store)
    requires Ledger(s)
    ensures Total(TableOf(s, DUES), "amount_paid") == Total(TableOf(s, PAYMENTS), "amount")
  {
    var dues, pays := TableOf(s, DUES), TableOf(s, PAYMENTS);
    PaidIsBooked(dues, pays);
    forall k | 0 <= k < |pays| ensures exists i :: 0 <= i < |dues| && Cell(dues[i], ID) == Cell(pays[k], "fee_due_id") {
      assert PaymentOk(pays[k], dues);
    }
    BookedIsTotal(dues, pays);
  }
}
