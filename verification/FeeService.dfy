/** The fee service's methods against live rows, tied to the operations on plain tables. */
module FeeServices {
  import opened Models
  import opened Sql
  import opened FeeLedger
  import opened MemoryDatabase
  import opened Fees
  import opened FeeOutcomes

  /** What `recordPayment` returns. */
  datatype Receipt = Receipt(payment: Record, dueId: Value, originalAmount: int, amountPaid: int, balance: int,
                             status: string)

  class FeeService {
    const db: Database

    constructor (db: Database)
      ensures this.db == db
    {
      this.db := db;
    }

    /** `findFeeStructures` with the filters that `createFeeDues` passes. */
    method FindStructures(yearId: int, classId: Value) returns (structs: Table)
      requires db.Valid() && db.connected
      ensures structs == Filter(TableOf(db.View(), STRUCTURES), StructureConds(yearId, classId),
                                StructureParams(yearId, classId))
    {
      var found := db.Read(STRUCTURES, StructureConds(yearId, classId), StructureParams(yearId, classId));
      structs := ReadCells(found.rows);
    }

    method CheckDues(studentId: Option<int>, yearId: Option<int>) returns (r: Check<Table>)
      requires db.Valid()
      ensures db.connected ==> r == DuesCheck(db.View(), studentId, yearId)
      ensures !db.connected ==> r.Fail?
    {
      hide First, Filter, StructureConds, StructureParams, Database.Valid, Cells, ViewOf;
      if studentId.None? { return Fail(MissingStudentId); }
      if yearId.None? { return Fail(MissingYearId); }
      var down, student := db.FindFirst(STUDENTS, BY_ID, [Num(studentId.value)]);
      if down { return Fail(DatabaseDown); }
      if student.None? { return Fail(NoSuchStudent); }
      var year;
      down, year := db.FindFirst(YEARS, BY_ID, [Num(yearId.value)]);
      if year.None? { return Fail(NoSuchYear); }
      var enrollment;
      down, enrollment := db.FindFirst(ENROLLMENTS, BY_STUDENT_AND_YEAR, [Num(studentId.value), Num(yearId.value)]);
      if enrollment.None? { return Fail(NotEnrolled); }
      if Cell(enrollment.value.cells, "status") != Str("active") { return Fail(Inactive); }
      var classId := Cell(enrollment.value.cells, "class_id");
      var structs := FindStructures(yearId.value, classId);
      r := if structs == [] then Fail(NoStructures) else Pass(structs);
    }

    /** `createFeeDues` */
    method CreateFeeDues(studentId: Option<int>, yearId: Option<int>, now: Value, fault: Option<nat>)
      returns (error: Option<Error>, created: Table)
      requires db.Valid()
      modifies db, RowsOf(db.storage)
      ensures db.Valid() && db.connected == old(db.connected) && db.inTransaction == old(db.inTransaction)
      ensures error.Some? ==> db.View() == old(db.View()) && created == []
      ensures !db.connected || db.inTransaction ==> error.Some?
      ensures db.connected && !db.inTransaction ==>
        Outcome(db.View(), error) == CreateFeeDuesSpec(old(db.View()), studentId, yearId, now, fault)
      ensures error.None? ==> TableOf(db.View(), DUES) == TableOf(old(db.View()), DUES) + created
      ensures Ledger(old(db.View())) ==> Ledger(db.View())
      ensures Ledger(old(db.View())) && db.connected && !db.inTransaction && fault.None? ==>
        && (error.None? <==> MayBill(old(db.View()), studentId, yearId))
        && (error.Some? ==> FirstDuesReason(old(db.View()), studentId, yearId, error.value))
      ensures Ledger(old(db.View())) && error.None? ==>
        exists at, structs :: DuesBilled(old(db.View()), db.View(), studentId, yearId, now, at, structs)
    {
      hide DuesCheck, Ledger, NoSharing, RunSteps, AgreeOutside, InsertIds, ViewOf, StepColumns, DueSteps, SavedDues,
        TableOf, Transact, MayBill, FirstDuesReason, DuesBilled;
      CreateFeeDuesMeans(db.View(), studentId, yearId, now, fault);
      var check := CheckDues(studentId, yearId);
      CreateFeeDuesKeeps(db.View(), studentId, yearId, now, fault);
      if check.Fail? { return Some(check.error), []; }
      DuesCheckIds(db.View(), studentId, yearId);
      CreatedDues(db.View(), studentId.value, yearId.value, check.value, now, fault);
      var ok, ids := db.Transaction(DueSteps(studentId.value, yearId.value, check.value, now), fault);
      error := if ok then None else Some(TransactionFailed);
      created := if ok then SavedDues(studentId.value, yearId.value, check.value, now, ids) else [];
    }

    /** The checks of `recordPayment`; the due that passes is a live row. */
    method CheckPayment(data: PaymentData) returns (r: Check<Row>)
      requires db.Valid()
      ensures !db.connected ==> r.Fail?
      ensures db.connected ==> match PaymentCheck(db.View(), data)
                               case Fail(e) => r == Fail(e)
                               case Pass(due) => r.Pass? && r.value.cells == due && r.value in RowsOf(db.storage)
    {
      hide First, Filter, Database.Valid, Cells, ViewOf, ReceiptValue;
      if data.studentId.None? { return Fail(MissingStudentId); }
      if data.dueId.None? { return Fail(MissingDueId); }
      if !data.amount.Num? || data.amount.n <= 0 { return Fail(BadAmount); }
      var down, student := db.FindFirst(STUDENTS, BY_ID, [Num(data.studentId.value)]);
      if down { return Fail(DatabaseDown); }
      if student.None? { return Fail(NoSuchStudent); }
      var due;
      down, due := db.FindFirst(DUES, BY_ID, [Num(data.dueId.value)]);
      if due.None? { return Fail(NoSuchDue); }
      var cells := due.value.cells;
      if Cell(cells, "student_id") != Num(data.studentId.value) { return Fail(WrongStudent); }
      if Cell(cells, "status") == Str("paid") { return Fail(AlreadyPaid); }
      if ReceiptValue(data.receipt) != Null {
        var existing;
        down, existing := db.FindFirst(PAYMENTS, BY_RECEIPT, [ReceiptValue(data.receipt)]);
        if existing.Some? { return Fail(DuplicateReceipt); }
      }
      if NumOf(cells, "amount_paid") + data.amount.n > NumOf(cells, "original_amount") { return Fail(ExceedsBalance); }
      r := Pass(due.value);
    }

    /** The transaction of `recordPayment` and its answer, which is read from the due
        row found earlier, although the transaction has written to that row in place. */
    method PayDue(feeDue: Row, data: PaymentData, today: string, now: Value, fault: Option<nat>)
      returns (ok: bool, receipt: Option<Receipt>)
      requires db.Valid() && feeDue in RowsOf(db.storage)
      requires data.studentId.Some? && data.dueId.Some? && data.amount.Num?
      modifies db, RowsOf(db.storage)
      ensures db.Valid() && db.connected == old(db.connected) && db.inTransaction == old(db.inTransaction)
      ensures !db.connected || db.inTransaction ==> !ok
      ensures db.connected && !db.inTransaction ==>
        ok == TransactPayment(old(db.View()), data, old(feeDue.cells), today, now, fault).ok
        && db.View() == TransactPayment(old(db.View()), data, old(feeDue.cells), today, now, fault).store
      ensures !ok ==> db.View() == old(db.View())
      ensures receipt == if ok then Some(ReceiptFor(old(db.View()), data, old(feeDue.cells), today, now)) else None
    {
      hide NoSharing, RunSteps, AgreeOutside, InsertIds, ViewOf, StepColumns, StepsForPayment, Transact, RowsOf,
        Database.Valid, NewRecord, RowForPayment;
      receipt := None;
      ghost var view0 := db.View();
      ghost var due := feeDue.cells;
      var original := NumOf(feeDue.cells, "original_amount");
      var paid := NumOf(feeDue.cells, "amount_paid") + data.amount.n;
      var steps := StepsForPayment(data, paid, original, today, now);
      var ids;
      ok, ids := db.Transaction(steps, fault);
      if ok {
        PaymentAnswer(view0, data, due, feeDue.cells, today, now, fault);
        var saved := NewRecord(PAYMENT_COLS, RowForPayment(data, today, now))[ID := Num(ids[0].value)];
        receipt := Some(Receipt(saved, Cell(feeDue.cells, ID), NumOf(feeDue.cells, "original_amount"), paid,
                                NumOf(feeDue.cells, "original_amount") - paid, StatusAfterPayment(paid, original)));
      }
    }

    /** `recordPayment` */
    method RecordPayment(data: PaymentData, today: string, now: Value, fault: Option<nat>)
      returns (error: Option<Error>, receipt: Option<Receipt>)
      requires db.Valid()
      modifies db, RowsOf(db.storage)
      ensures db.Valid() && db.connected == old(db.connected) && db.inTransaction == old(db.inTransaction)
      ensures error.Some? ==> db.View() == old(db.View()) && receipt.None?
      ensures !db.connected || db.inTransaction ==> error.Some?
      ensures db.connected && !db.inTransaction ==>
        Outcome(db.View(), error) == RecordPaymentSpec(old(db.View()), data, today, now, fault)
      ensures error.None? ==> (match PaymentCheck(old(db.View()), data)
                               case Fail(_) => false
                               case Pass(due) => data.studentId.Some? && data.dueId.Some? && data.amount.Num?
                                                 && receipt == Some(ReceiptFor(old(db.View()), data, due, today, now)))
      ensures Ledger(old(db.View())) ==> Ledger(db.View())
      ensures Ledger(old(db.View())) && db.connected && !db.inTransaction && fault.None? ==>
        && (error.None? <==> MayPay(old(db.View()), data))
        && (error.Some? ==> FirstPaymentReason(old(db.View()), data, error.value))
      ensures Ledger(old(db.View())) && error.None? ==>
        && receipt.Some?
        && exists i :: PaymentBooked(old(db.View()), db.View(), data, today, now, i)
                       && ReceiptTells(receipt.value, db.View(), i)
    {
      hide PaymentCheck, Ledger, NoSharing, ViewOf, TransactPayment, ReceiptFor, MayPay, FirstPaymentReason,
        PaymentBooked, ReceiptTells;
      RecordPaymentKeeps(db.View(), data, today, now, fault);
      RecordPaymentMeans(db.View(), data, today, now, fault);
      PaymentCheckArguments(db.View(), data);
      var check := CheckPayment(data);
      if check.Fail? { return Some(check.error), None; }
      var ok;
      ok, receipt := PayDue(check.value, data, today, now, fault);
      error := if ok then None else Some(TransactionFailed);
    }

    /** The looked-up row must exist and be active. */
    method CheckActive(t: string, id: int, missing: Error) returns (error: Option<Error>)
      requires db.Valid()
      ensures db.connected ==> error == ActiveById(db.View(), t, id, missing)
      ensures !db.connected ==> error.Some?
    {
      hide First, Filter, Database.Valid, Cells, ViewOf;
      var down, row := db.FindFirst(t, BY_ID, [Num(id)]);
      if down { return Some(DatabaseDown); }
      if row.None? { return Some(missing); }
      error := if Cell(row.value.cells, "status") != Str("active") then Some(Inactive) else None;
    }

    method CheckStructure(data: StructureData) returns (error: Option<Error>)
      requires db.Valid()
      ensures db.connected ==> error == StructureCheck(db.View(), data)
      ensures !db.connected ==> error.Some?
    {
      hide First, Filter, Database.Valid, Cells, ViewOf, ActiveById;
      ghost var s := db.View();
      if Falsy(data.yearId) { return Some(MissingYearId); }
      if Falsy(data.classId) { return Some(MissingClassId); }
      if Falsy(data.feeTypeId) { return Some(MissingFeeTypeId); }
      if !data.amount.Num? || data.amount.n <= 0 { return Some(BadAmount); }
      error := CheckActive(YEARS, data.yearId.value, NoSuchYear);
      assert db.View() == s;
      if error.Some? { return; }
      error := CheckActive(CLASSES, data.classId.value, NoSuchClass);
      assert db.View() == s;
      if error.Some? { return; }
      error := CheckActive(FEE_TYPES, data.feeTypeId.value, NoSuchFeeType);
      assert db.View() == s;
      if error.Some? { return; }
      var down, duplicate := db.FindFirst(STRUCTURES, BY_TRIPLE,
                                          [Num(data.yearId.value), Num(data.classId.value), Num(data.feeTypeId.value)]);
      assert db.View() == s;
      error := if duplicate.Some? then Some(DuplicateStructure) else None;
    }

    /** `createFeeStructure`; the answer is the stored record. */
    method CreateFeeStructure(data: StructureData) returns (error: Option<Error>, saved: Option<Record>)
      requires db.Valid()
      modifies db, RowsOf(db.storage)
      ensures db.Valid() && db.connected == old(db.connected) && db.inTransaction == old(db.inTransaction)
      ensures error.Some? ==> db.View() == old(db.View())
      ensures !db.connected ==> error.Some?
      ensures db.connected ==> Outcome(db.View(), error) == CreateStructureSpec(old(db.View()), data)
      ensures error.None? ==>
        && data.yearId.Some? && data.classId.Some? && data.feeTypeId.Some? && data.amount.Num?
        && saved == Some(SavedStructure(old(db.View()), data))
      ensures Ledger(old(db.View())) ==> Ledger(db.View())
      ensures db.connected ==> (error.None? <==> MayCreate(old(db.View()), data))
      ensures db.connected && error.Some? ==> StructureReason(old(db.View()), data, error.value)
      ensures Ledger(old(db.View())) && error.None? ==> StructureStored(old(db.View()), db.View(), data)
      ensures error.None? ==> var rows := TableOf(db.View(), STRUCTURES); rows != [] && saved == Some(rows[|rows| - 1])
    {
      hide StructureCheck, Ledger, ViewOf, AgreeOutside, ExecStore, StructureRow, Database.Valid, NewRecord, MayCreate,
        StructureReason, StructureStored, CreateStructureSpec, SavedStructure, TableOf;
      saved := None;
      ghost var s := db.View();
      CreateStructureMeans(s, data);
      CreateStructureKeeps(s, data);
      StructureCheckArguments(s, data);
      error := CheckStructure(data);
      assert db.View() == s;
      if error.Some? { return; }
      var row := StructureRow(data.yearId.value, data.classId.value, data.feeTypeId.value, data.amount.n,
                              data.frequency, data.status);
      var r := db.Query(Insert(STRUCTURES, STRUCTURE_COLS), row);
      saved := Some(NewRecord(STRUCTURE_COLS, row)[ID := Num(r.insertId.value)]);
    }

    /** A foreign key that the change gives: not null, and of a stored row. */
    method CheckKey(t: string, id: Value, absent: Error, missing: Error) returns (error: Option<Error>)
      requires db.Valid() && db.connected
      ensures error == KeyCheck(db.View(), t, id, absent, missing)
    {
      hide First, Filter, Database.Valid, Cells, ViewOf;
      if IsNullish(id) { return Some(absent); }
      var down, row := db.FindFirst(t, BY_ID, [id]);
      error := if row.None? then Some(missing) else None;
    }

    method CheckReference(t: string, id: Option<Value>, absent: Error, missing: Error) returns (error: Option<Error>)
      requires db.Valid() && db.connected
      ensures error == ReferenceCheck(db.View(), t, id, absent, missing)
    {
      hide KeyCheck, Database.Valid, Cells, ViewOf;
      if id.None? { return None; }
      error := CheckKey(t, id.value, absent, missing);
    }

    method CheckStructureUpdate(id: Option<int>, data: StructureUpdate) returns (error: Option<Error>)
      requires db.Valid()
      ensures db.connected ==> error == UpdateStructureCheck(db.View(), id, data)
      ensures !db.connected ==> error.Some?
    {
      hide First, Filter, Database.Valid, Cells, ViewOf, ReferenceCheck, GivenNames, StructureFields;
      ghost var s := db.View();
      if id.None? { return Some(MissingStructureId); }
      var down, existing := db.FindFirst(STRUCTURES, BY_ID, [Num(id.value)]);
      if down { return Some(DatabaseDown); }
      if existing.None? { return Some(NoSuchStructure); }
      if data.amount.Some? && (!data.amount.value.Num? || data.amount.value.n <= 0) { return Some(BadAmount); }
      if data.status.Some? && data.status.value != Str("active") && data.status.value != Str("inactive") {
        return Some(BadStatus);
      }
      error := CheckReference(YEARS, data.yearId, MissingYearId, NoSuchYear);
      assert db.View() == s;
      if error.Some? { return; }
      error := CheckReference(CLASSES, data.classId, MissingClassId, NoSuchClass);
      assert db.View() == s;
      if error.Some? { return; }
      error := CheckReference(FEE_TYPES, data.feeTypeId, MissingFeeTypeId, NoSuchFeeType);
      assert db.View() == s;
      if error.Some? { return; }
      error := if GivenNames(StructureFields(data)) == [] then Some(NothingToUpdate) else None;
    }

    /** `updateFeeStructure`; the answer is the row found afterwards. */
    method UpdateFeeStructure(id: Option<int>, data: StructureUpdate)
      returns (error: Option<Error>, structure: Option<Row>)
      requires db.Valid()
      modifies db, RowsOf(db.storage)
      ensures db.Valid() && db.connected == old(db.connected) && db.inTransaction == old(db.inTransaction)
      ensures error.Some? ==> db.View() == old(db.View())
      ensures !db.connected ==> error.Some?
      ensures db.connected ==> Outcome(db.View(), error) == UpdateStructureSpec(old(db.View()), id, data)
      ensures error.None? ==> id.Some? && match First(db.View(), STRUCTURES, BY_ID, [Num(id.value)])
                                          case None => structure.None?
                                          case Some(r) => structure.Some? && structure.value.cells == r
                                                          && structure.value in RowsOf(db.storage)
      ensures Ledger(old(db.View())) ==> Ledger(db.View())
      ensures db.connected ==> (error.None? <==> MayUpdate(old(db.View()), id, data))
      ensures Ledger(old(db.View())) && error.None? ==>
        id.Some? && StructureUpdated(old(db.View()), db.View(), id.value, data)
    {
      hide UpdateStructureCheck, Ledger, ViewOf, AgreeOutside, ExecStore, ExecResult, GivenNames, GivenValues,
        StructureFields, First, Database.Valid, MayUpdate, StructureUpdated, UpdateStructureSpec, NoSharing, TableOf;
      structure := None;
      ghost var s := db.View();
      UpdateStructureMeans(s, id, data);
      UpdateStructureKeeps(s, id, data);
      UpdateCheckArguments(s, id, data);
      error := CheckStructureUpdate(id, data);
      assert db.View() == s;
      if error.Some? { return; }
      var fields := StructureFields(data);
      var r := db.Query(Update(STRUCTURES, GivenNames(fields), BY_ID), GivenValues(fields) + [Num(id.value)]);
      ghost var changed := db.View();
      var down;
      down, structure := db.FindFirst(STRUCTURES, BY_ID, [Num(id.value)]);
      assert db.View() == changed;
    }

    /** `getStudentFinancialSummary` */
    method GetStudentFinancialSummary(studentId: Option<int>, yearId: Option<int>)
      returns (error: Option<Error>, summary: Option<Summary>)
      requires db.Valid()
      ensures studentId.None? ==> error == Some(MissingStudentId)
      ensures studentId.Some? && yearId.None? ==> error == Some(MissingYearId)
      ensures studentId.Some? && yearId.Some? && !db.connected ==> error == Some(DatabaseDown)
      ensures studentId.Some? && yearId.Some? && db.connected ==>
        error.None? && summary == Some(Summarise(SummaryRows(db.View(), studentId.value, yearId.value)))
    {
      hide Filter, Database.Valid, Cells, ViewOf, SummaryConds, SummaryParams, Summarise;
      if studentId.None? { return Some(MissingStudentId), None; }
      if yearId.None? { return Some(MissingYearId), None; }
      var feeDues := db.Read(DUES, SummaryConds(yearId.value), SummaryParams(studentId.value, yearId.value));
      if feeDues.Threw? { return Some(DatabaseDown), None; }
      var m := SumUp(feeDues.rows);
      error, summary := None, Some(m);
    }
  }

  /** The accumulation loop of the summary. */
  method SumUp(feeDues: Rows) returns (m: Summary)
    ensures m == Summarise(Cells(feeDues))
  {
    m := Summary(0, 0, 0, 0, 0, 0);
    ghost var t := Cells(feeDues);
    for i := 0 to |feeDues|
      invariant m.totalFeesAssigned == Total(t[..i], "original_amount") && m.totalPaid == Total(t[..i], "amount_paid")
      invariant m.unpaidCount == CountStatus(t[..i], "unpaid") && m.paidCount == CountStatus(t[..i], "paid")
      invariant m.partiallyPaidCount == CountStatus(t[..i], "partially_paid")
    {
      assert t[..i + 1][..i] == t[..i];
      var due := feeDues[i].cells;
      assert due == t[i];
      m := m.(totalFeesAssigned := m.totalFeesAssigned + NumOf(due, "original_amount"),
              totalPaid := m.totalPaid + NumOf(due, "amount_paid"));
      if Cell(due, "status") == Str("unpaid") { m := m.(unpaidCount := m.unpaidCount + 1); }
      if Cell(due, "status") == Str("partially_paid") { m := m.(partiallyPaidCount := m.partiallyPaidCount + 1); }
      if Cell(due, "status") == Str("paid") { m := m.(paidCount := m.paidCount + 1); }
    }
    assert t[..|feeDues|] == t;
    m := m.(totalOutstanding := m.totalFeesAssigned - m.totalPaid);
  }

  lemma StructureCheckArguments(s: Store, data: StructureData)
    ensures StructureCheck(s, data).None? ==>
      data.yearId.Some? && data.classId.Some? && data.feeTypeId.Some? && data.amount.Num?
  {
  }

  lemma UpdateCheckArguments(s: Store, id: Option<int>, data: StructureUpdate)
    ensures UpdateStructureCheck(s, id, data).None? ==> id.Some?
  {
  }

  lemma UpdateStructureKeeps(s: Store, id: Option<int>, data: StructureUpdate)
    ensures Ledger(s) ==> Ledger(UpdateStructureSpec(s, id, data).store)
  {
    hide Ledger, UpdateStructureSpec;
    if Ledger(s) { UpdateStructureKeepsLedger(s, id, data); }
  }

  lemma CreateStructureKeeps(s: Store, data: StructureData)
    ensures Ledger(s) ==> Ledger(CreateStructureSpec(s, data).store)
  {
    hide Ledger, CreateStructureSpec;
    if Ledger(s) { CreateStructureKeepsLedger(s, data); }
  }

  lemma DuesCheckIds(s: Store, studentId: Option<int>, yearId: Option<int>)
    requires DuesCheck(s, studentId, yearId).Pass?
    ensures studentId.Some? && yearId.Some?
  {
  }

  lemma CreateFeeDuesKeeps(s: Store, studentId: Option<int>, yearId: Option<int>, now: Value, fault: Option<nat>)
    ensures Ledger(s) ==> Ledger(CreateFeeDuesSpec(s, studentId, yearId, now, fault).store)
  {
    hide Ledger, CreateFeeDuesSpec;
    if Ledger(s) { CreateFeeDuesKeepsLedger(s, studentId, yearId, now, fault); }
  }

  lemma PaymentCheckArguments(s: Store, data: PaymentData)
    ensures PaymentCheck(s, data).Pass? ==> data.studentId.Some? && data.dueId.Some? && data.amount.Num?
  {
  }

  lemma RecordPaymentKeeps(s: Store, data: PaymentData, today: string, now: Value, fault: Option<nat>)
    ensures Ledger(s) ==> Ledger(RecordPaymentSpec(s, data, today, now, fault).store)
  {
    hide Ledger, RecordPaymentSpec;
    if Ledger(s) { RecordPaymentKeepsLedger(s, data, today, now, fault); }
  }

  lemma RecordPaymentMeans(s: Store, data: PaymentData, today: string, now: Value, fault: Option<nat>)
    ensures var o := RecordPaymentSpec(s, data, today, now, fault);
      Ledger(s) ==>
        && (fault.None? ==> (o.error.None? <==> MayPay(s, data))
                            && (o.error.Some? ==> FirstPaymentReason(s, data, o.error.value)))
        && (o.error.None? ==> AnswersPayment(s, o.store, data, today, now))
  {
    hide Ledger, RecordPaymentSpec, MayPay, FirstPaymentReason, AnswersPayment;
    if Ledger(s) {
      PaymentAcceptedIff(s, data, today, now);
      if RecordPaymentSpec(s, data, today, now, fault).error.None? { PaymentAnswers(s, data, today, now, fault); }
    }
  }

  /** The answer says what the tables say afterwards: the stored payment, and amount, rest and
      status of the due. */
  ghost predicate ReceiptTells(r: Receipt, s': Store, i: int) {
    var dues, pays := TableOf(s', "fee_dues"), TableOf(s', "payments");
    && pays != [] && r.payment == pays[|pays| - 1]
    && 0 <= i < |dues| && Cell(dues[i], "id") == r.dueId
    && Cell(dues[i], "original_amount") == Num(r.originalAmount) && Cell(dues[i], "amount_paid") == Num(r.amountPaid)
    && Cell(dues[i], "status") == Str(r.status) && r.balance == r.originalAmount - r.amountPaid
  }

  /** Whatever due passed the checks, the payment is booked on it and the answer tells so. */
  ghost predicate AnswersPayment(s: Store, s': Store, data: PaymentData, today: string, now: Value) {
    match PaymentCheck(s, data)
    case Fail(_) => false
    case Pass(due) =>
      data.studentId.Some? && data.dueId.Some? && data.amount.Num?
      && exists i :: PaymentBooked(s, s', data, today, now, i)
                     && ReceiptTells(ReceiptFor(s, data, due, today, now), s', i)
  }

  lemma PaymentAnswers(s: Store, data: PaymentData, today: string, now: Value, fault: Option<nat>)
    requires Ledger(s) && RecordPaymentSpec(s, data, today, now, fault).error.None?
    ensures AnswersPayment(s, RecordPaymentSpec(s, data, today, now, fault).store, data, today, now)
  {
    hide Ledger, PaymentCheck, Transact, PaymentSteps, PaymentBooked, RowForPayment, Inserted;
    var i := PaidAt(s, data);
    PaymentIsBooked(s, data, i, today, now, fault);
    PaymentStored(s, data, i, today, now, fault);
  }

  lemma PaymentStored(s: Store, data: PaymentData, i: nat, today: string, now: Value, fault: Option<nat>)
    requires Ledger(s) && TakesPayment(s, data, i)
    ensures var d := TableOf(s, DUES)[i]; var t := TransactPayment(s, data, d, today, now, fault);
      t.ok ==> ReceiptTells(ReceiptFor(s, data, d, today, now), t.store, i)
  {
    hide StructuresOk, PaymentsOk, UniquePairs, DueOk, Transact, PaymentSteps, RowForPayment, Inserted;
    var d := TableOf(s, DUES)[i];
    var paid, original := NumOf(d, "amount_paid") + data.amount.n, NumOf(d, "original_amount");
    var row, status := RowForPayment(data, today, now), StatusAfterPayment(paid, original);
    PaymentTransaction(s, i, row, paid, status, now, fault);
    var s' := AfterPayment(s, i, row, paid, status, now);
    assert TableOf(s', PAYMENTS) == TableOf(s, PAYMENTS) + [Inserted(s, PAYMENTS, PAYMENT_COLS, row)];
    assert TableOf(s', DUES)[i] == PaidDue(d, paid, status, now);
  }

  lemma CreateFeeDuesMeans(s: Store, studentId: Option<int>, yearId: Option<int>, now: Value, fault: Option<nat>)
    ensures var o := CreateFeeDuesSpec(s, studentId, yearId, now, fault);
      Ledger(s) ==>
        && (fault.None? ==> (o.error.None? <==> MayBill(s, studentId, yearId))
                            && (o.error.Some? ==> FirstDuesReason(s, studentId, yearId, o.error.value)))
        && (o.error.None? ==> exists at, structs :: DuesBilled(s, o.store, studentId, yearId, now, at, structs))
  {
    hide Ledger, CreateFeeDuesSpec, MayBill, FirstDuesReason, DuesBilled;
    if Ledger(s) {
      DuesAcceptedIff(s, studentId, yearId, now);
      if CreateFeeDuesSpec(s, studentId, yearId, now, fault).error.None? {
        DuesEffect(s, studentId, yearId, now, fault);
      }
    }
  }

  lemma CreateStructureMeans(s: Store, data: StructureData)
    ensures var o := CreateStructureSpec(s, data);
      && (o.error.None? <==> MayCreate(s, data))
      && (o.error.Some? ==> StructureReason(s, data, o.error.value))
      && (Ledger(s) && o.error.None? ==> StructureStored(s, o.store, data))
    ensures var o, e := CreateStructureSpec(s, data), StructureCheck(s, data);
      if e.Some? then o == Outcome(s, e) else
        && data.yearId.Some? && data.classId.Some? && data.feeTypeId.Some? && data.amount.Num?
        && var row := StructureRow(data.yearId.value, data.classId.value, data.feeTypeId.value, data.amount.n,
                                   data.frequency, data.status);
        && o == Outcome(ExecStore(s, Insert(STRUCTURES, STRUCTURE_COLS), row), None)
        && SavedStructure(s, data) == Inserted(s, STRUCTURES, STRUCTURE_COLS, row)
        && TableOf(o.store, STRUCTURES) == TableOf(s, STRUCTURES) + [SavedStructure(s, data)]
  {
    StructureCheckArguments(s, data);
    CreatedLast(s, data);

    hide Ledger, MayCreate, StructureReason, StructureStored, StructureCheck, ExecStore, StructureRow, Inserted;
    StructureAcceptedIff(s, data);
    if Ledger(s) && CreateStructureSpec(s, data).error.None? { StructureEffect(s, data); }
  }

  lemma CreatedLast(s: Store, data: StructureData)
    ensures StructureCheck(s, data).None? ==>
      && data.yearId.Some? && data.classId.Some? && data.feeTypeId.Some? && data.amount.Num?
      && TableOf(CreateStructureSpec(s, data).store, STRUCTURES)
         == TableOf(s, STRUCTURES) + [SavedStructure(s, data)]
  {
    hide ActiveById, First, StructureRow, NewRecord, NextId;
  }

  lemma UpdateStructureMeans(s: Store, id: Option<int>, data: StructureUpdate)
    ensures var o := UpdateStructureSpec(s, id, data);
      && (o.error.None? <==> MayUpdate(s, id, data))
      && (Ledger(s) && o.error.None? ==> id.Some? && StructureUpdated(s, o.store, id.value, data))
    ensures var e := UpdateStructureCheck(s, id, data); var fields := StructureFields(data);
      var cmd, params := Update(STRUCTURES, GivenNames(fields), BY_ID), GivenValues(fields);
      UpdateStructureSpec(s, id, data) == if e.Some? then Outcome(s, e) else
        Outcome(ExecStore(s, cmd, params + [Num(id.value)]), None)
  {
    hide Ledger, MayUpdate, StructureUpdated, UpdateStructureCheck, ExecStore;
    UpdateAcceptedIff(s, id, data);
    if Ledger(s) && UpdateStructureSpec(s, id, data).error.None? { UpdateEffect(s, id, data); }
  }

  /** The answer of an accepted payment, as the tables before it determine it. */
  function ReceiptFor(s: Store, data: PaymentData, due: Record, today: string, now: Value): Receipt
    requires data.studentId.Some? && data.dueId.Some? && data.amount.Num?
  {
    var original, paid := NumOf(due, "original_amount"), NumOf(due, "amount_paid") + data.amount.n;
    Receipt(Inserted(s, PAYMENTS, PAYMENT_COLS, RowForPayment(data, today, now)), Cell(due, ID), original, paid,
            original - paid, StatusAfterPayment(paid, original))
  }

  /** The columns the answer reads survive the transaction's in-place writes. */
  lemma PaymentAnswer(s: Store, data: PaymentData, due: Record, after: Record, today: string, now: Value,
                      fault: Option<nat>)
    requires data.studentId.Some? && data.dueId.Some? && data.amount.Num?
    requires var steps := StepsForPayment(data, NumOf(due, "amount_paid") + data.amount.n,
                                          NumOf(due, "original_amount"), today, now);
      Transact(s, steps, fault).ok && AgreeOutside(due, after, StepColumns(steps))
    ensures var steps := StepsForPayment(data, NumOf(due, "amount_paid") + data.amount.n,
                                         NumOf(due, "original_amount"), today, now);
      var ids := InsertIds(Transact(s, steps, fault).results);
      |ids| == 3 && ids[0] == Some(NextId(TableOf(s, PAYMENTS)))
    ensures Cell(after, ID) == Cell(due, ID) && NumOf(after, "original_amount") == NumOf(due, "original_amount")
  {
    hide Transact, NextId, PaymentRow, StepColumns;
    var paid, original := NumOf(due, "amount_paid") + data.amount.n, NumOf(due, "original_amount");
    var row := RowForPayment(data, today, now);
    PaymentStepsRun(s, row, data.dueId.value, paid, StatusAfterPayment(paid, original), now, fault);
    var steps := PaymentSteps(row, data.dueId.value, paid, StatusAfterPayment(paid, original), now);
    PaymentSetsOnlyDueColumns(row, data.dueId.value, paid, StatusAfterPayment(paid, original), now);
    assert "original_amount" !in DUE_SETS && ID !in DUE_SETS;
  }

  lemma PaymentSetsOnlyDueColumns(row: seq<Value>, dueId: int, paid: int, status: string, now: Value)
    ensures forall c | c in StepColumns(PaymentSteps(row, dueId, paid, status, now)) :: c in DUE_SETS
  {
    var steps := PaymentSteps(row, dueId, paid, status, now);
    forall k, c | 0 <= k < |steps| && !steps[k].Throw? && c in SetColumns(steps[k].cmd) ensures c in DUE_SETS {
    }
  }
}
