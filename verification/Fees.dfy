/** The fee service over the in-memory database. */
module Fees {
  import opened Models
  import opened Sql
  import opened FeeLedger

  datatype Error =
    | DatabaseDown
    | MissingStudentId
    | MissingYearId
    | MissingClassId
    | MissingFeeTypeId
    | MissingDueId
    | BadAmount
    | NoSuchStudent
    | NoSuchYear
    | NoSuchClass
    | NoSuchFeeType
    | NoSuchDue
    | NotEnrolled
    | Inactive
    | NoStructures
    | MissingStructureId
    | NoSuchStructure
    | BadStatus
    | NothingToUpdate
    | DuplicateStructure
    | WrongStudent
    | AlreadyPaid
    | DuplicateReceipt
    | ExceedsBalance
    | TransactionFailed

  datatype Check<+T> = Pass(value: T) | Fail(error: Error)

  const BY_STUDENT_AND_YEAR := [Cmp("student_id", Eq), Cmp("academic_year_id", Eq)]

  /** The filter that `findFeeStructures` builds: falsy filter values are left out. */
  function StructureConds(yearId: int, classId: Value): seq<Cond> {
    (if yearId != 0 then [Cmp("academic_year_id", Eq)] else [])
    + (if Truthy(classId) then [Cmp("class_id", Eq)] else []) + [Cmp("status", Eq)]
  }

  function StructureParams(yearId: int, classId: Value): seq<Value> {
    (if yearId != 0 then [Num(yearId)] else [])
    + (if Truthy(classId) then [classId] else []) + [Str("active")]
  }

  // ----- The operations on plain tables

  /** The checks of `createFeeDues`; what passes is the list of structures to bill. */
  function DuesCheck(s: Store, studentId: Option<int>, yearId: Option<int>): Check<Table> {
    if studentId.None? then Fail(MissingStudentId)
    else if yearId.None? then Fail(MissingYearId)
    else if First(s, STUDENTS, BY_ID, [Num(studentId.value)]).None? then Fail(NoSuchStudent)
    else if First(s, YEARS, BY_ID, [Num(yearId.value)]).None? then Fail(NoSuchYear)
    else
      var enrollment := First(s, ENROLLMENTS, BY_STUDENT_AND_YEAR, [Num(studentId.value), Num(yearId.value)]);
      if enrollment.None? then Fail(NotEnrolled)
      else if Cell(enrollment.value, "status") != Str("active") then Fail(Inactive)
      else
        var classId := Cell(enrollment.value, "class_id");
        var structs := Filter(TableOf(s, STRUCTURES), StructureConds(yearId.value, classId),
                              StructureParams(yearId.value, classId));
        if structs == [] then Fail(NoStructures) else Pass(structs)
  }

  datatype Outcome = Outcome(store: Store, error: Option<Error>)

  function CreateFeeDuesSpec(s: Store, studentId: Option<int>, yearId: Option<int>, now: Value,
                             fault: Option<nat>): Outcome
  {
    match DuesCheck(s, studentId, yearId)
    case Fail(e) => Outcome(s, Some(e))
    case Pass(structs) =>
      var t := Transact(s, DueSteps(studentId.value, yearId.value, structs, now), fault);
      Outcome(t.store, if t.ok then None else Some(TransactionFailed))
  }

  datatype PaymentData = PaymentData(
    studentId: Option<int>,
    dueId: Option<int>,
    amount: Value,
    paymentDate: Option<string>,
    paymentMethod: Option<string>,
    receipt: Option<string>)

  /** The checks of `recordPayment`; what passes is the due. */
  function PaymentCheck(s: Store, data: PaymentData): Check<Record> {
    if data.studentId.None? then Fail(MissingStudentId)
    else if data.dueId.None? then Fail(MissingDueId)
    else if !data.amount.Num? || data.amount.n <= 0 then Fail(BadAmount)
    else if First(s, STUDENTS, BY_ID, [Num(data.studentId.value)]).None? then Fail(NoSuchStudent)
    else
      var due := First(s, DUES, BY_ID, [Num(data.dueId.value)]);
      if due.None? then Fail(NoSuchDue)
      else if Cell(due.value, "student_id") != Num(data.studentId.value) then Fail(WrongStudent)
      else if Cell(due.value, "status") == Str("paid") then Fail(AlreadyPaid)
      else if ReceiptValue(data.receipt) != Null
              && First(s, PAYMENTS, BY_RECEIPT, [ReceiptValue(data.receipt)]).Some? then
        Fail(DuplicateReceipt)
      else if NumOf(due.value, "amount_paid") + data.amount.n > NumOf(due.value, "original_amount") then
        Fail(ExceedsBalance)
      else Pass(due.value)
  }

  /** `newAmountPaid >= original_amount ? 'paid' : 'partially_paid'` */
  function StatusAfterPayment(paid: int, original: int): string {
    if paid >= original then "paid" else "partially_paid"
  }

  /** The payment row of a request; `today` is the date of the clock. */
  function RowForPayment(data: PaymentData, today: string, now: Value): seq<Value>
    requires data.studentId.Some? && data.dueId.Some? && data.amount.Num?
  {
    var date := if data.paymentDate.Some? && data.paymentDate.value != "" then data.paymentDate.value else today;
    PaymentRow(data.studentId.value, data.dueId.value, data.amount.n, date, data.paymentMethod, data.receipt, now)
  }

  function StepsForPayment(data: PaymentData, paid: int, original: int, today: string, now: Value): seq<Step>
    requires data.studentId.Some? && data.dueId.Some? && data.amount.Num?
  {
    PaymentSteps(RowForPayment(data, today, now), data.dueId.value, paid, StatusAfterPayment(paid, original), now)
  }

  /** The transaction that books an accepted payment on `due`. */
  function TransactPayment(s: Store, data: PaymentData, due: Record, today: string, now: Value, fault: Option<nat>): Ran
    requires data.studentId.Some? && data.dueId.Some? && data.amount.Num?
  {
    var paid := NumOf(due, "amount_paid") + data.amount.n;
    Transact(s, StepsForPayment(data, paid, NumOf(due, "original_amount"), today, now), fault)
  }

  function RecordPaymentSpec(s: Store, data: PaymentData, today: string, now: Value, fault: Option<nat>): Outcome {
    match PaymentCheck(s, data)
    case Fail(e) => Outcome(s, Some(e))
    case Pass(due) =>
      var t := TransactPayment(s, data, due, today, now, fault);
      Outcome(t.store, if t.ok then None else Some(TransactionFailed))
  }

  datatype StructureData = StructureData(
    yearId: Option<int>, classId: Option<int>, feeTypeId: Option<int>,
    amount: Value, frequency: Option<string>, status: Option<string>)

  predicate Falsy(id: Option<int>) { id.None? || id.value == 0 }

  function ActiveById(s: Store, table: string, id: int, missing: Error): Option<Error> {
    var row := First(s, table, BY_ID, [Num(id)]);
    if row.None? then Some(missing)
    else if Cell(row.value, "status") != Str("active") then Some(Inactive)
    else None
  }

  /** The checks of `createFeeStructure`. */
  function StructureCheck(s: Store, data: StructureData): Option<Error> {
    if Falsy(data.yearId) then Some(MissingYearId)
    else if Falsy(data.classId) then Some(MissingClassId)
    else if Falsy(data.feeTypeId) then Some(MissingFeeTypeId)
    else if !data.amount.Num? || data.amount.n <= 0 then Some(BadAmount)
    else if ActiveById(s, YEARS, data.yearId.value, NoSuchYear).Some? then
      ActiveById(s, YEARS, data.yearId.value, NoSuchYear)
    else if ActiveById(s, CLASSES, data.classId.value, NoSuchClass).Some? then
      ActiveById(s, CLASSES, data.classId.value, NoSuchClass)
    else if ActiveById(s, FEE_TYPES, data.feeTypeId.value, NoSuchFeeType).Some? then
      ActiveById(s, FEE_TYPES, data.feeTypeId.value, NoSuchFeeType)
    else if First(s, STRUCTURES, BY_TRIPLE,
                  [Num(data.yearId.value), Num(data.classId.value), Num(data.feeTypeId.value)]).Some? then
      Some(DuplicateStructure)
    else None
  }

  function CreateStructureSpec(s: Store, data: StructureData): Outcome {
    var e := StructureCheck(s, data);
    if e.Some? then Outcome(s, e) else
      Outcome(ExecStore(s, Insert(STRUCTURES, STRUCTURE_COLS),
                        StructureRow(data.yearId.value, data.classId.value, data.feeTypeId.value,
                                     data.amount.n, data.frequency, data.status)), None)
  }

  /** The record that the repository answers with. */
  function SavedStructure(s: Store, data: StructureData): Record
    requires data.yearId.Some? && data.classId.Some? && data.feeTypeId.Some? && data.amount.Num?
  {
    Inserted(s, STRUCTURES, STRUCTURE_COLS,
             StructureRow(data.yearId.value, data.classId.value, data.feeTypeId.value, data.amount.n, data.frequency,
                          data.status))
  }

  /** Fields of an update; `None` is a field that is not given. */
  datatype StructureUpdate = StructureUpdate(
    amount: Option<Value>, frequency: Option<Value>, status: Option<Value>,
    yearId: Option<Value>, classId: Option<Value>, feeTypeId: Option<Value>)

  function KeyCheck(s: Store, table: string, id: Value, absent: Error, missing: Error): Option<Error> {
    if IsNullish(id) then Some(absent)
    else if First(s, table, BY_ID, [id]).None? then Some(missing)
    else None
  }

  /** A reference that is given must be that of a stored row. */
  function ReferenceCheck(s: Store, table: string, id: Option<Value>, absent: Error, missing: Error): Option<Error> {
    if id.None? then None else KeyCheck(s, table, id.value, absent, missing)
  }

  /** The checks of `updateFeeStructure`; the triple is not looked up again. */
  function UpdateStructureCheck(s: Store, id: Option<int>, data: StructureUpdate): Option<Error> {
    if id.None? then Some(MissingStructureId)
    else if First(s, STRUCTURES, BY_ID, [Num(id.value)]).None? then Some(NoSuchStructure)
    else if data.amount.Some? && (!data.amount.value.Num? || data.amount.value.n <= 0) then Some(BadAmount)
    else if data.status.Some? && data.status.value != Str("active") && data.status.value != Str("inactive") then
      Some(BadStatus)
    else
      var year := ReferenceCheck(s, YEARS, data.yearId, MissingYearId, NoSuchYear);
      var class_ := ReferenceCheck(s, CLASSES, data.classId, MissingClassId, NoSuchClass);
      var feeType := ReferenceCheck(s, FEE_TYPES, data.feeTypeId, MissingFeeTypeId, NoSuchFeeType);
      if year.Some? then year
      else if class_.Some? then class_
      else if feeType.Some? then feeType
      else if GivenNames(StructureFields(data)) == [] then Some(NothingToUpdate)
      else None
  }

  function StructureFields(data: StructureUpdate): seq<(string, Option<Value>)> {
    [("amount", data.amount), ("frequency", data.frequency), ("status", data.status),
     ("academic_year_id", data.yearId), ("class_id", data.classId), ("fee_type_id", data.feeTypeId)]
  }

  function UpdateStructureSpec(s: Store, id: Option<int>, data: StructureUpdate): Outcome {
    var e := UpdateStructureCheck(s, id, data);
    if e.Some? then Outcome(s, e) else
      Outcome(ExecStore(s, Update(STRUCTURES, GivenNames(StructureFields(data)), BY_ID),
                        GivenValues(StructureFields(data)) + [Num(id.value)]), None)
  }

  // ----- The ledger over every run

  datatype Triple = Triple(yearId: Value, classId: Value, feeTypeId: Value)

  function TripleOf(r: Record): Triple {
    Triple(Cell(r, "academic_year_id"), Cell(r, "class_id"), Cell(r, "fee_type_id"))
  }

  /** The triple that an update leaves in the row. */
  function WrittenTriple(r: Record, data: StructureUpdate): Triple {
    Triple(if data.yearId.Some? then data.yearId.value else Cell(r, "academic_year_id"),
           if data.classId.Some? then data.classId.value else Cell(r, "class_id"),
           if data.feeTypeId.Some? then data.feeTypeId.value else Cell(r, "fee_type_id"))
  }

  /** An update leaves a structure with its id, its triple and, for an accepted one, a positive amount. */
  lemma UpdatedStructure(r: Record, data: StructureUpdate, id: Value)
    requires Cell(r, "amount").Num? && Cell(r, "amount").n > 0
    requires data.amount.Some? ==> data.amount.value.Num? && data.amount.value.n > 0
    ensures var u := Assign(r, GivenNames(StructureFields(data)), GivenValues(StructureFields(data)) + [id]);
      && Cell(u, ID) == Cell(r, ID) && Cell(u, "amount").Num? && Cell(u, "amount").n > 0
      && TripleOf(u) == WrittenTriple(r, data)
  {
    hide GivenNames, GivenValues, Assign;
    var fields := StructureFields(data);
    assert fields[0] == ("amount", data.amount) && fields[3] == ("academic_year_id", data.yearId);
    assert fields[4] == ("class_id", data.classId) && fields[5] == ("fee_type_id", data.feeTypeId);
    assert forall j | 0 <= j < |fields| :: fields[j].0 != ID && (fields[j].0 == "amount" ==> j == 0);
    hide StructureFields;
    GivenCell(r, fields, [id], ID);
    GivenCell(r, fields, [id], "amount");
    GivenCell(r, fields, [id], "academic_year_id");
    GivenCell(r, fields, [id], "class_id");
    GivenCell(r, fields, [id], "fee_type_id");
  }

  /** Where an accepted update lands. */
  lemma UpdateStructureLands(s: Store, id: Option<int>, data: StructureUpdate) returns (i: nat, u: Record)
    requires Ledger(s) && UpdateStructureCheck(s, id, data).None?
    ensures id.Some? && STRUCTURES in s && i < |s[STRUCTURES]| && Cell(s[STRUCTURES][i], ID) == Num(id.value)
    ensures First(s, STRUCTURES, BY_ID, [Num(id.value)]) == Some(s[STRUCTURES][i])
    ensures UpdateStructureSpec(s, id, data).store == s[STRUCTURES := s[STRUCTURES][i := u]]
    ensures Cell(u, ID) == Num(id.value) && Cell(u, "amount").Num? && Cell(u, "amount").n > 0
    ensures TripleOf(u) == WrittenTriple(s[STRUCTURES][i], data)
  {
    hide DuesOk, PaymentsOk, ReferenceCheck, GivenNames, GivenValues, StructureFields, Matches, Assign, UpdateRows,
      TripleOf, WrittenTriple;
    i := FoundByKey(TableOf(s, STRUCTURES), Num(id.value));
    var structs, fields := s[STRUCTURES], StructureFields(data);
    UpdateById(structs, GivenNames(fields), GivenValues(fields), i);
    u := Assign(structs[i], GivenNames(fields), GivenValues(fields) + [Num(id.value)]);
    UpdatedStructure(structs[i], data, Num(id.value));
  }

  /** `updateFeeStructure` keeps the ledger: what is billed and paid does not depend on it. */
  lemma UpdateStructureKeepsLedger(s: Store, id: Option<int>, data: StructureUpdate)
    requires Ledger(s)
    ensures Ledger(UpdateStructureSpec(s, id, data).store)
  {
    hide Ledger, UpdateStructureCheck;
    if UpdateStructureCheck(s, id, data).None? {
      var i, u := UpdateStructureLands(s, id, data);
      StructureReplaced(s, i, u);
    }
  }

  lemma StructureReplaced(s: Store, i: nat, u: Record)
    requires Ledger(s) && STRUCTURES in s && i < |s[STRUCTURES]| && Cell(u, ID) == Cell(s[STRUCTURES][i], ID)
    requires Cell(u, "amount").Num? && Cell(u, "amount").n > 0
    ensures Ledger(s[STRUCTURES := s[STRUCTURES][i := u]])
  {
    hide DuesOk, PaymentsOk;
  }

  /** No other structure has the triple that the update leaves in the row. */
  ghost predicate TripleIsFree(s: Store, id: int, existing: Record, data: StructureUpdate) {
    forall r | r in TableOf(s, STRUCTURES) && Cell(r, ID) != Num(id) :: TripleOf(r) != WrittenTriple(existing, data)
  }

  /** An accepted update keeps year, class and type unique exactly when the triple it writes is
      free: only `createFeeStructure` looks for a duplicate. */
  lemma UpdateKeepsTriplesIff(s: Store, id: Option<int>, data: StructureUpdate)
    requires Ledger(s) && TriplesUnique(TableOf(s, STRUCTURES)) && UpdateStructureCheck(s, id, data).None?
    ensures var existing := First(s, STRUCTURES, BY_ID, [Num(id.value)]).value;
      TriplesUnique(TableOf(UpdateStructureSpec(s, id, data).store, STRUCTURES)) <==>
        TripleIsFree(s, id.value, existing, data)
  {
    hide Ledger, UpdateStructureCheck, UpdateStructureSpec, First, TriplesUnique, WrittenTriple, TripleIsFree;
    var i, u := UpdateStructureLands(s, id, data);
    StructureIdsOk(s);
    ReplacedTriple(s, i, u, id.value, data);
  }

  lemma StructureIdsOk(s: Store)
    requires Ledger(s)
    ensures IdsOk(TableOf(s, STRUCTURES))
  {
  }

  lemma ReplacedTriple(s: Store, i: nat, u: Record, id: int, data: StructureUpdate)
    requires STRUCTURES in s && i < |s[STRUCTURES]| && Cell(s[STRUCTURES][i], ID) == Num(id)
    requires IdsOk(s[STRUCTURES]) && TriplesUnique(s[STRUCTURES])
    requires TripleOf(u) == WrittenTriple(s[STRUCTURES][i], data)
    ensures TriplesUnique(s[STRUCTURES][i := u]) <==> TripleIsFree(s, id, s[STRUCTURES][i], data)
  {
    hide WrittenTriple;
    var structs := s[STRUCTURES];
    var structs' := structs[i := u];
    if TripleIsFree(s, id, structs[i], data) {
      forall a, b | 0 <= a < b < |structs| ensures !SameTriple(structs'[a], structs'[b]) {
        var k := if a == i then b else a;
        if k != i && (a == i || b == i) { IdsDiffer(structs, k, i); }
        assert structs[k] in structs && !SameTriple(structs[a], structs[b]);
      }
    } else {
      var r :| r in structs && Cell(r, ID) != Num(id) && TripleOf(r) == WrittenTriple(structs[i], data);
      var k :| 0 <= k < |structs| && structs[k] == r;
      assert SameTriple(structs'[k], structs'[i]) && SameTriple(structs'[i], structs'[k]);
    }
  }

  lemma CreateFeeDuesKeepsLedger(s: Store, studentId: Option<int>, yearId: Option<int>, now: Value, fault: Option<nat>)
    requires Ledger(s)
    ensures Ledger(CreateFeeDuesSpec(s, studentId, yearId, now, fault).store)
  {
    hide Ledger, DuesOk, PaymentsOk, Transact, DueSteps;
    match DuesCheck(s, studentId, yearId)
    case Fail(_) =>
    case Pass(structs) =>
      BilledAmounts(s, studentId, yearId);
      CreateDuesKeepsLedger(s, studentId.value, yearId.value, structs, now, fault);
  }

  lemma BilledAmounts(s: Store, studentId: Option<int>, yearId: Option<int>)
    requires Ledger(s) && DuesCheck(s, studentId, yearId).Pass?
    ensures PositiveAmounts(DuesCheck(s, studentId, yearId).value)
  {
    hide DuesOk, PaymentsOk, Filter, Matches, StructureConds, StructureParams;
    var structs := DuesCheck(s, studentId, yearId).value;
    var classId := Cell(First(s, ENROLLMENTS, BY_STUDENT_AND_YEAR,
                              [Num(studentId.value), Num(yearId.value)]).value, "class_id");
    FilterMembers(TableOf(s, STRUCTURES), StructureConds(yearId.value, classId),
                  StructureParams(yearId.value, classId));
    forall k | 0 <= k < |structs| ensures Cell(structs[k], "amount").Num? && Cell(structs[k], "amount").n > 0 {
      assert structs[k] in structs;
    }
  }

  /** What a passed payment check says about the tables. */
  lemma PaymentFacts(s: Store, data: PaymentData) returns (i: nat)
    requires Ledger(s) && PaymentCheck(s, data).Pass?
    ensures i < |TableOf(s, DUES)| && TableOf(s, DUES)[i] == PaymentCheck(s, data).value
    ensures data.studentId.Some? && data.dueId.Some? && data.amount.Num?
    ensures var d := TableOf(s, DUES)[i];
      && Cell(d, ID) == Num(data.dueId.value) && Cell(d, "student_id") == Num(data.studentId.value)
      && Cell(d, "amount_paid").Num? && Cell(d, "original_amount").Num? && 0 < Cell(d, "original_amount").n
      && 0 <= Cell(d, "amount_paid").n && data.amount.n > 0
      && Cell(d, "amount_paid").n + data.amount.n <= Cell(d, "original_amount").n
  {
    hide PaymentsOk, StructuresOk, ReceiptValue, Matches, UniquePairs, IdsOk, PaidFor;
    i := FoundByKey(TableOf(s, DUES), Num(data.dueId.value));
    assert DueOk(TableOf(s, DUES)[i], TableOf(s, PAYMENTS));
  }

  ghost predicate ReceiptFree(s: Store, receipt: Option<string>) {
    ReceiptValue(receipt) == Null
    || forall j | 0 <= j < |TableOf(s, PAYMENTS)| ::
      Cell(TableOf(s, PAYMENTS)[j], "receipt_number") != ReceiptValue(receipt)
  }

  ghost predicate Payable(s: Store, i: int, data: PaymentData) {
    && 0 <= i < |TableOf(s, DUES)| && data.studentId.Some? && data.dueId.Some? && data.amount.Num?
    && var d := TableOf(s, DUES)[i];
    && Cell(d, ID) == Num(data.dueId.value) && Cell(d, "student_id") == Num(data.studentId.value)
    && Cell(d, "amount_paid").Num? && Cell(d, "original_amount").Num? && 0 < Cell(d, "original_amount").n
    && 0 <= Cell(d, "amount_paid").n && data.amount.n > 0
    && Cell(d, "amount_paid").n + data.amount.n <= Cell(d, "original_amount").n
    && ReceiptFree(s, data.receipt)
  }

  lemma PayableKeepsLedger(s: Store, i: int, data: PaymentData, today: string, now: Value, fault: Option<nat>)
    requires Ledger(s) && Payable(s, i, data)
    ensures Ledger(TransactPayment(s, data, TableOf(s, DUES)[i], today, now, fault).store)
  {
    hide Ledger, Transact, PaymentSteps, PaymentRow, ReceiptValue;
    var d := TableOf(s, DUES)[i];
    var date := if data.paymentDate.Some? && data.paymentDate.value != "" then data.paymentDate.value else today;
    PaymentKeepsLedger(s, i, data.amount.n, date, data.paymentMethod, data.receipt, now, fault);
    var paid := Cell(d, "amount_paid").n + data.amount.n;
    assert StatusAfterPayment(paid, Cell(d, "original_amount").n) == StatusOf(paid, Cell(d, "original_amount").n);
  }

  lemma ReceiptPassed(s: Store, data: PaymentData)
    requires PaymentCheck(s, data).Pass?
    ensures ReceiptFree(s, data.receipt)
  {
    assert ReceiptValue(data.receipt) == Null || First(s, PAYMENTS, BY_RECEIPT, [ReceiptValue(data.receipt)]).None?;
    hide PaymentCheck, First, ReceiptValue;
    ReceiptIsFresh(s, data.receipt);
  }

  lemma RecordPaymentKeepsLedger(s: Store, data: PaymentData, today: string, now: Value, fault: Option<nat>)
    requires Ledger(s)
    ensures Ledger(RecordPaymentSpec(s, data, today, now, fault).store)
  {
    hide Ledger, TransactPayment, PaymentCheck, ReceiptFree;
    if PaymentCheck(s, data).Pass? {
      var i := PaymentFacts(s, data);
      ReceiptPassed(s, data);
      PayableKeepsLedger(s, i, data, today, now, fault);
    }
  }

  lemma ReceiptIsFresh(s: Store, receipt: Option<string>)
    requires ReceiptValue(receipt) == Null || First(s, PAYMENTS, BY_RECEIPT, [ReceiptValue(receipt)]).None?
    ensures ReceiptValue(receipt) == Null
      || forall j | 0 <= j < |TableOf(s, PAYMENTS)| ::
        Cell(TableOf(s, PAYMENTS)[j], "receipt_number") != ReceiptValue(receipt)
  {
    var pays, v := TableOf(s, PAYMENTS), ReceiptValue(receipt);
    FilterMembers(pays, BY_RECEIPT, [v]);
    if v != Null {
      forall j | 0 <= j < |pays| ensures Cell(pays[j], "receipt_number") != v {
        assert !Matches(pays[j], BY_RECEIPT, [v]);
        assert BY_RECEIPT[0] == Cmp("receipt_number", Eq);
      }
    }
  }

  const TWO_STRUCTURES: Table := [
    map[ID := Num(1), "academic_year_id" := Num(1), "amount" := Num(5)],
    map[ID := Num(2), "academic_year_id" := Num(2), "amount" := Num(5)]]
  const TWO_YEARS: Store := map[YEARS := [map[ID := Num(1)]], STRUCTURES := TWO_STRUCTURES]
  const TO_FIRST_YEAR := StructureUpdate(None, None, None, Some(Num(1)), None, None)

  /** A concrete call that `updateFeeStructure` accepts although it makes a duplicate: moving the
      structure of one year to another that has the same one. */
  lemma DuplicateTripleIsAccepted()
    ensures Ledger(TWO_YEARS) && TriplesUnique(TableOf(TWO_YEARS, STRUCTURES))
    ensures UpdateStructureCheck(TWO_YEARS, Some(2), TO_FIRST_YEAR).None?
    ensures !TriplesUnique(TableOf(UpdateStructureSpec(TWO_YEARS, Some(2), TO_FIRST_YEAR).store, STRUCTURES))
  {
    hide Filter;
    assert TableOf(TWO_YEARS, STRUCTURES) == TWO_STRUCTURES && TableOf(TWO_YEARS, DUES) == [];
    StoredRow(TWO_STRUCTURES, 1);
    StoredRow(TableOf(TWO_YEARS, YEARS), 0);
    GivenNothing(StructureFields(TO_FIRST_YEAR));
    assert StructureFields(TO_FIRST_YEAR)[3].1.Some?;
    assert UpdateStructureCheck(TWO_YEARS, Some(2), TO_FIRST_YEAR).None?;
    hide UpdateStructureCheck, UpdateStructureSpec;
    UpdateKeepsTriplesIff(TWO_YEARS, Some(2), TO_FIRST_YEAR);
    assert TWO_STRUCTURES[0] in TWO_STRUCTURES;
  }

  lemma CreateStructureKeepsLedger(s: Store, data: StructureData)
    requires Ledger(s)
    ensures Ledger(CreateStructureSpec(s, data).store)
    ensures TriplesUnique(TableOf(s, STRUCTURES)) ==>
      TriplesUnique(TableOf(CreateStructureSpec(s, data).store, STRUCTURES))
  {
    hide Ledger, ExecStore, StructureRow, ActiveById, TriplesUnique;
    if StructureCheck(s, data).None? {
      StructureKeepsLedger(s, data.yearId.value, data.classId.value, data.feeTypeId.value, data.amount.n,
                           data.frequency, data.status);
    }
  }

  /** One call in a run of the system.  `Elsewhere` is any write of another service
      to a table outside the ledger. */
  datatype Call =
    | NewStructure(structure: StructureData)
    | ChangeStructure(id: Option<int>, changes: StructureUpdate)
    | NewDues(studentId: Option<int>, yearId: Option<int>, now: Value, fault: Option<nat>)
    | Pay(payment: PaymentData, today: string, now: Value, fault: Option<nat>)
    | Elsewhere(table: string, rows: Table)

  function Apply(s: Store, call: Call): Store {
    match call
    case NewStructure(data) => CreateStructureSpec(s, data).store
    case ChangeStructure(id, changes) => UpdateStructureSpec(s, id, changes).store
    case NewDues(studentId, yearId, now, fault) => CreateFeeDuesSpec(s, studentId, yearId, now, fault).store
    case Pay(data, today, now, fault) => RecordPaymentSpec(s, data, today, now, fault).store
    case Elsewhere(table, rows) => if table in {STRUCTURES, DUES, PAYMENTS} then s else s[table := rows]
  }

  function RunCalls(s: Store, calls: seq<Call>): Store {
    if calls == [] then s else Apply(RunCalls(s, calls[..|calls| - 1]), calls[|calls| - 1])
  }

  /** The ledger holds after every run from an empty database, failed writes
      included, and the money adds up. */
  lemma {:induction false} LedgerInEveryRun(calls: seq<Call>)
    ensures Ledger(RunCalls(map[], calls))
    ensures var s := RunCalls(map[], calls);
      Total(TableOf(s, DUES), "amount_paid") == Total(TableOf(s, PAYMENTS), "amount")
  {
    if calls != [] {
      LedgerInEveryRun(calls[..|calls| - 1]);
      ApplyKeepsLedger(RunCalls(map[], calls[..|calls| - 1]), calls[|calls| - 1]);
    }
    MoneyIsConserved(RunCalls(map[], calls));
  }

  /** An update that the service refuses or that writes a free triple. */
  ghost predicate KeepsTriples(s: Store, call: Call) {
    call.ChangeStructure? && UpdateStructureCheck(s, call.id, call.changes).None? ==>
      var existing := First(s, STRUCTURES, BY_ID, [Num(call.id.value)]);
      existing.Some? && TripleIsFree(s, call.id.value, existing.value, call.changes)
  }

  ghost predicate UniqueAfter(calls: seq<Call>, n: nat)
    requires n <= |calls|
  {
    TriplesUnique(TableOf(RunCalls(map[], calls[..n]), STRUCTURES))
  }

  ghost predicate KeepsTriplesAt(calls: seq<Call>, k: nat)
    requires k < |calls|
  {
    KeepsTriples(RunCalls(map[], calls[..k]), calls[k])
  }

  /** For every run from an empty database: year, class and type are unique in all its states
      exactly when each accepted update writes a triple that is free in the state it meets. */
  lemma {:induction false} TriplesHeldIff(calls: seq<Call>)
    ensures (forall n | 0 <= n <= |calls| :: UniqueAfter(calls, n)) <==>
            (forall k | 0 <= k < |calls| :: KeepsTriplesAt(calls, k))
  {
    hide UniqueAfter, KeepsTriplesAt;
    if calls == [] {
      UniqueAtStart(calls);
    } else {
      var m := |calls| - 1;
      var front := calls[..m];
      TriplesHeldIff(front);
      forall n | 0 <= n <= m ensures UniqueAfter(front, n) <==> UniqueAfter(calls, n) { SameStates(calls, n); }
      forall k | 0 <= k < m ensures KeepsTriplesAt(front, k) <==> KeepsTriplesAt(calls, k) { SameStates(calls, k); }
      LastCall(calls);
    }
  }

  lemma UniqueAtStart(calls: seq<Call>)
    ensures UniqueAfter(calls, 0)
  {
    assert calls[..0] == [];
  }

  lemma SameStates(calls: seq<Call>, n: nat)
    requires n < |calls|
    ensures UniqueAfter(calls[..|calls| - 1], n) <==> UniqueAfter(calls, n)
    ensures n < |calls| - 1 ==> (KeepsTriplesAt(calls[..|calls| - 1], n) <==> KeepsTriplesAt(calls, n))
  {
    assert calls[..|calls| - 1][..n] == calls[..n];
  }

  lemma LastCall(calls: seq<Call>)
    requires calls != []
    ensures UniqueAfter(calls, |calls| - 1) ==>
      (UniqueAfter(calls, |calls|) <==> KeepsTriplesAt(calls, |calls| - 1))
  {
    hide Ledger, TriplesUnique, KeepsTriples, Apply;
    var front, call := calls[..|calls| - 1], calls[|calls| - 1];
    assert calls[..|calls|] == calls;
    if UniqueAfter(calls, |calls| - 1) {
      LedgerInEveryRun(front);
      CallKeepsTriplesIff(RunCalls(map[], front), call);
    }
  }

  lemma CallKeepsTriplesIff(s: Store, call: Call)
    requires Ledger(s) && TriplesUnique(TableOf(s, STRUCTURES))
    ensures TriplesUnique(TableOf(Apply(s, call), STRUCTURES)) <==> KeepsTriples(s, call)
  {
    hide Ledger, TriplesUnique, UpdateStructureSpec, CreateStructureSpec, CreateFeeDuesSpec, RecordPaymentSpec,
      UpdateStructureCheck, TripleIsFree, First;
    match call
    case NewStructure(data) => CreateStructureKeepsLedger(s, data);
    case ChangeStructure(id, changes) => ChangeKeepsTriplesIff(s, id, changes);
    case NewDues(studentId, yearId, now, fault) => DuesSpareStructures(s, studentId, yearId, now, fault);
    case Pay(data, today, now, fault) => PaymentSparesStructures(s, data, today, now, fault);
    case Elsewhere(table, rows) =>
  }

  lemma ChangeKeepsTriplesIff(s: Store, id: Option<int>, data: StructureUpdate)
    requires Ledger(s) && TriplesUnique(TableOf(s, STRUCTURES))
    ensures TriplesUnique(TableOf(UpdateStructureSpec(s, id, data).store, STRUCTURES)) <==>
            KeepsTriples(s, ChangeStructure(id, data))
  {
    hide Ledger, TriplesUnique, UpdateStructureCheck, TripleIsFree, First, ExecStore;
    if UpdateStructureCheck(s, id, data).None? {
      UpdateKeepsTriplesIff(s, id, data);
      var i, u := UpdateStructureLands(s, id, data);
    }
  }

  lemma DuesSpareStructures(s: Store, studentId: Option<int>, yearId: Option<int>, now: Value, fault: Option<nat>)
    ensures TableOf(CreateFeeDuesSpec(s, studentId, yearId, now, fault).store, STRUCTURES) == TableOf(s, STRUCTURES)
  {
    hide First, Filter, Transact, DueSteps, StepsSpare;
    match DuesCheck(s, studentId, yearId)
    case Fail(_) =>
    case Pass(structs) =>
      DueStepsSpare(studentId.value, yearId.value, structs, now);
      TransactSpares(s, DueSteps(studentId.value, yearId.value, structs, now), fault, STRUCTURES);
  }

  lemma PaymentSparesStructures(s: Store, data: PaymentData, today: string, now: Value, fault: Option<nat>)
    ensures TableOf(RecordPaymentSpec(s, data, today, now, fault).store, STRUCTURES) == TableOf(s, STRUCTURES)
  {
    hide First, Filter, Transact, ReceiptValue, OptionalText;
    match PaymentCheck(s, data)
    case Fail(_) =>
    case Pass(due) =>
      var paid, original := NumOf(due, "amount_paid") + data.amount.n, NumOf(due, "original_amount");
      TransactSpares(s, StepsForPayment(data, paid, original, today, now), fault, STRUCTURES);
  }

  lemma {:induction false} DueStepsSpare(studentId: int, yearId: int, structs: Table, now: Value)
    ensures StepsSpare(DueSteps(studentId, yearId, structs, now), STRUCTURES)
  {
    hide DueRow;
    if structs != [] { DueStepsSpare(studentId, yearId, structs[..|structs| - 1], now); }
  }

  lemma ApplyKeepsLedger(s: Store, call: Call)
    requires Ledger(s)
    ensures Ledger(Apply(s, call))
  {
    match call
    case NewStructure(data) => CreateStructureKeepsLedger(s, data);
    case ChangeStructure(id, changes) => UpdateStructureKeepsLedger(s, id, changes);
    case NewDues(studentId, yearId, now, fault) => CreateFeeDuesKeepsLedger(s, studentId, yearId, now, fault);
    case Pay(data, today, now, fault) => RecordPaymentKeepsLedger(s, data, today, now, fault);
    case Elsewhere(table, rows) =>
  }

  // ----- The financial summary

  function SummaryConds(yearId: int): seq<Cond> {
    [Cmp("student_id", Eq)] + (if yearId != 0 then [Cmp("academic_year_id", Eq)] else [])
  }

  function SummaryParams(studentId: int, yearId: int): seq<Value> {
    [Num(studentId)] + (if yearId != 0 then [Num(yearId)] else [])
  }

  /** The dues a summary is about. */
  function SummaryRows(s: Store, studentId: int, yearId: int): Table {
    Filter(TableOf(s, DUES), SummaryConds(yearId), SummaryParams(studentId, yearId))
  }

  function CountStatus(rows: Table, status: string): nat {
    if rows == [] then 0 else
      CountStatus(rows[..|rows| - 1], status) + (if Cell(rows[|rows| - 1], "status") == Str(status) then 1 else 0)
  }

  datatype Summary = Summary(
    totalFeesAssigned: int, totalPaid: int, totalOutstanding: int,
    unpaidCount: int, partiallyPaidCount: int, paidCount: int)

  function Summarise(rows: Table): Summary {
    Summary(Total(rows, "original_amount"), Total(rows, "amount_paid"),
            Total(rows, "original_amount") - Total(rows, "amount_paid"),
            CountStatus(rows, "unpaid"), CountStatus(rows, "partially_paid"), CountStatus(rows, "paid"))
  }

  lemma {:induction false} SummariseBalances(rows: Table, pays: Table)
    requires forall i | 0 <= i < |rows| :: DueOk(rows[i], pays)
    ensures var m := Summarise(rows);
      && m.totalPaid == Booked(rows, pays) && m.totalFeesAssigned == Total(rows, "original_amount")
      && m.totalOutstanding == m.totalFeesAssigned - m.totalPaid
      && 0 <= m.totalOutstanding <= m.totalFeesAssigned
      && m.unpaidCount + m.partiallyPaidCount + m.paidCount == |rows|
      && (m.totalOutstanding == 0 <==> m.paidCount == |rows|)
      && (m.totalPaid == 0 <==> m.unpaidCount == |rows|)
  {
    PaidIsBooked(rows, pays);
    if rows != [] {
      var front := rows[..|rows| - 1];
      forall i | 0 <= i < |front| ensures DueOk(front[i], pays) { assert front[i] == rows[i]; }
      SummariseBalances(front, pays);
      assert DueOk(rows[|rows| - 1], pays);
    }
  }

  /** A student's summary balances: what is paid is what the payments booked on
      exactly those dues, every due has exactly one status, and nothing is
      outstanding exactly when every due is paid. */
  lemma SummaryBalances(s: Store, studentId: int, yearId: int)
    requires Ledger(s)
    ensures var rows := SummaryRows(s, studentId, yearId); var m := Summarise(rows);
      && m.totalPaid == Booked(rows, TableOf(s, PAYMENTS)) && m.totalFeesAssigned == Total(rows, "original_amount")
      && m.totalOutstanding == m.totalFeesAssigned - m.totalPaid
      && 0 <= m.totalOutstanding <= m.totalFeesAssigned
      && m.unpaidCount + m.partiallyPaidCount + m.paidCount == |rows|
      && (m.totalOutstanding == 0 <==> m.paidCount == |rows|)
      && (m.totalPaid == 0 <==> m.unpaidCount == |rows|)
  {
    hide StructuresOk, PaymentsOk, Summarise, DueOk, Filter, Matches, SummaryConds, SummaryParams;
    var rows := SummaryRows(s, studentId, yearId);
    FilterMembers(TableOf(s, DUES), SummaryConds(yearId), SummaryParams(studentId, yearId));
    forall i | 0 <= i < |rows| ensures DueOk(rows[i], TableOf(s, PAYMENTS)) { assert rows[i] in rows; }
    SummariseBalances(rows, TableOf(s, PAYMENTS));
  }
}
