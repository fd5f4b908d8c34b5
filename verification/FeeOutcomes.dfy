/** When the fee service accepts a request, why it refuses one and what an accepted one stores,
    said of the tables alone. */
module FeeOutcomes {
  import opened Models
  import opened Sql
  import opened FeeLedger
  import opened Fees

  ghost predicate HasId(r: Record, id: int) { Cell(r, "id") == Num(id) }

  ghost predicate Stored(s: Store, table: string, id: int) {
    exists r :: r in TableOf(s, table) && HasId(r, id)
  }

  /** What a lookup by id answers. */
  lemma ById(s: Store, table: string, id: int)
    ensures First(s, table, BY_ID, [Num(id)]).Some? <==> Stored(s, table, id)
    ensures var r := First(s, table, BY_ID, [Num(id)]);
      r.Some? ==> r.value in TableOf(s, table) && HasId(r.value, id)
  {
    hide Matches, Filter;
    var rows := TableOf(s, table);
    FilterStarts(rows, BY_ID, [Num(id)]);
    forall r ensures Matches(r, BY_ID, [Num(id)]) <==> HasId(r, id) { MatchesById(r, id); }
  }

  lemma OneRowPerId(rows: Table, i: nat, j: nat)
    requires IdsOk(rows) && i < |rows| && j < |rows| && Cell(rows[i], ID) == Cell(rows[j], ID)
    ensures i == j
  {
  }

  lemma SameId(s: Store, table: string, r: Record, q: Record)
    requires IdsOk(TableOf(s, table)) && r in TableOf(s, table) && q in TableOf(s, table) && Cell(r, ID) == Cell(q, ID)
    ensures r == q
  {
    var rows := TableOf(s, table);
    var i :| 0 <= i < |rows| && rows[i] == r;
    var j :| 0 <= j < |rows| && rows[j] == q;
    OneRowPerId(rows, i, j);
  }

  // ----- recordPayment

  ghost predicate ReceiptUnused(s: Store, receipt: Option<string>) {
    receipt == None || receipt == Some("")
    || forall p | p in TableOf(s, "payments") :: Cell(p, "receipt_number") != Str(receipt.value)
  }

  ghost predicate Balance(d: Record, amount: int, fits: bool) {
    && Cell(d, "amount_paid").Num? && Cell(d, "original_amount").Num?
    && (fits <==> Cell(d, "amount_paid").n + amount <= Cell(d, "original_amount").n)
  }

  /** The due at `i` is the one that the request names, of its student, and has room for the amount. */
  ghost predicate TakesPayment(s: Store, data: PaymentData, i: int) {
    && data.studentId.Some? && data.dueId.Some? && data.amount.Num? && data.amount.n > 0
    && 0 <= i < |TableOf(s, "fee_dues")|
    && var d := TableOf(s, "fee_dues")[i];
    HasId(d, data.dueId.value) && Cell(d, "student_id") == Num(data.studentId.value) && Balance(d, data.amount.n, true)
  }

  ghost predicate MayPay(s: Store, data: PaymentData) {
    && (exists i :: TakesPayment(s, data, i))
    && Stored(s, "students", data.studentId.value) && ReceiptUnused(s, data.receipt)
  }

  /** `d` is the stored due that the request names. */
  ghost predicate Named(s: Store, data: PaymentData, d: Record) {
    data.dueId.Some? && d in TableOf(s, "fee_dues") && HasId(d, data.dueId.value)
  }

  /** The order in which reasons to refuse a payment are looked for. */
  function PaymentRank(e: Error): nat {
    match e
    case MissingStudentId => 1
    case MissingDueId => 2
    case BadAmount => 3
    case NoSuchStudent => 4
    case NoSuchDue => 5
    case WrongStudent => 6
    case AlreadyPaid => 7
    case DuplicateReceipt => 8
    case _ => 9
  }

  ghost predicate PaymentReason(s: Store, data: PaymentData, e: Error) {
    match e
    case MissingStudentId => data.studentId.None?
    case MissingDueId => data.dueId.None?
    case BadAmount => !(data.amount.Num? && data.amount.n > 0)
    case NoSuchStudent => data.studentId.Some? && !Stored(s, "students", data.studentId.value)
    case NoSuchDue => data.dueId.Some? && !Stored(s, "fee_dues", data.dueId.value)
    case WrongStudent =>
      data.studentId.Some? && exists d :: Named(s, data, d) && Cell(d, "student_id") != Num(data.studentId.value)
    case AlreadyPaid => exists d :: Named(s, data, d) && Cell(d, "status") == Str("paid")
    case DuplicateReceipt => !ReceiptUnused(s, data.receipt)
    case ExceedsBalance => data.amount.Num? && exists d :: Named(s, data, d) && Balance(d, data.amount.n, false)
    case _ => false
  }

  /** `e` is the first reason that applies. */
  ghost predicate FirstPaymentReason(s: Store, data: PaymentData, e: Error) {
    PaymentReason(s, data, e) && forall f | PaymentRank(f) < PaymentRank(e) :: !PaymentReason(s, data, f)
  }

  lemma ReceiptUnusedIff(s: Store, receipt: Option<string>)
    ensures ReceiptUnused(s, receipt) <==>
            ReceiptValue(receipt) == Null || First(s, PAYMENTS, BY_RECEIPT, [ReceiptValue(receipt)]).None?
  {
    var v := ReceiptValue(receipt);
    FilterMembers(TableOf(s, PAYMENTS), BY_RECEIPT, [v]);
    hide Matches, Filter;
    forall p ensures Matches(p, BY_RECEIPT, [v]) <==> Cell(p, "receipt_number") == v {
      MatchesOne(p, "receipt_number", v);
    }
    if First(s, PAYMENTS, BY_RECEIPT, [v]).Some? {
      assert First(s, PAYMENTS, BY_RECEIPT, [v]).value in Filter(TableOf(s, PAYMENTS), BY_RECEIPT, [v]);
    }
  }

  /** What the checks of a payment say, with the stored due that the request names. */
  lemma DueFacts(s: Store, data: PaymentData)
    requires Ledger(s) && data.dueId.Some?
    ensures var found := First(s, DUES, BY_ID, [Num(data.dueId.value)]);
      && (found.None? <==> !Stored(s, "fee_dues", data.dueId.value))
      && (found.Some? ==> Named(s, data, found.value) && DueOk(found.value, TableOf(s, PAYMENTS)))
      && (forall d | Named(s, data, d) :: found == Some(d))
  {
    hide First, DueOk, PaymentsOk, StructuresOk, UniquePairs, IdsOk;
    ById(s, DUES, data.dueId.value);
    var found := First(s, DUES, BY_ID, [Num(data.dueId.value)]);
    forall d | Named(s, data, d) ensures found == Some(d) { SameId(s, DUES, d, found.value); }
    if found.Some? {
      var i :| 0 <= i < |TableOf(s, DUES)| && TableOf(s, DUES)[i] == found.value;
      assert DueOk(TableOf(s, DUES)[i], TableOf(s, PAYMENTS));
    }
  }

  /** The reasons, as the lookups of the checks see them. */
  lemma Reasons(s: Store, data: PaymentData)
    requires Ledger(s)
    ensures PaymentReason(s, data, NoSuchStudent) <==>
            data.studentId.Some? && First(s, STUDENTS, BY_ID, [Num(data.studentId.value)]).None?
    ensures PaymentReason(s, data, NoSuchDue) <==>
            data.dueId.Some? && First(s, DUES, BY_ID, [Num(data.dueId.value)]).None?
    ensures PaymentReason(s, data, DuplicateReceipt) <==>
            ReceiptValue(data.receipt) != Null && First(s, PAYMENTS, BY_RECEIPT, [ReceiptValue(data.receipt)]).Some?
  {
    hide First, ReceiptValue, ReceiptUnused, Stored, Ledger, HasId;
    if data.studentId.Some? { ById(s, STUDENTS, data.studentId.value); }
    if data.dueId.Some? { DueFacts(s, data); }
    ReceiptUnusedIff(s, data.receipt);
  }

  lemma DueReasons(s: Store, data: PaymentData)
    requires Ledger(s) && data.dueId.Some? && data.amount.Num?
    ensures var found := First(s, DUES, BY_ID, [Num(data.dueId.value)]);
      && (PaymentReason(s, data, WrongStudent) <==>
            data.studentId.Some? && found.Some? && Cell(found.value, "student_id") != Num(data.studentId.value))
      && (PaymentReason(s, data, AlreadyPaid) <==> found.Some? && Cell(found.value, "status") == Str("paid"))
      && (PaymentReason(s, data, ExceedsBalance) <==>
            found.Some? && NumOf(found.value, "amount_paid") + data.amount.n > NumOf(found.value, "original_amount"))
  {
    hide First, Ledger, UniqueReceipts, PaidFor, StatusOf, Named;
    DueFacts(s, data);
  }

  /** The checks of `recordPayment` refuse for the first reason that applies. */
  lemma PaymentIsRefused(s: Store, data: PaymentData)
    requires Ledger(s) && PaymentCheck(s, data).Fail?
    ensures FirstPaymentReason(s, data, PaymentCheck(s, data).error)
  {
    hide First, ReceiptValue, Ledger, NumOf, PaymentReason, Cell;
    PlainReasons(s, data);
    if data.studentId.Some? && data.dueId.Some? && data.amount.Num? && data.amount.n > 0 {
      Reasons(s, data);
      DueReasons(s, data);
    }
  }

  /** They pass when no reason applies. */
  lemma PaymentPasses(s: Store, data: PaymentData)
    requires Ledger(s) && PaymentCheck(s, data).Pass?
    ensures forall e :: !PaymentReason(s, data, e)
  {
    hide First, ReceiptValue, Ledger, NumOf, PaymentReason, Cell;
    Reasons(s, data);
    DueReasons(s, data);
    PlainReasons(s, data);
  }

  lemma PlainReasons(s: Store, data: PaymentData)
    ensures PaymentReason(s, data, MissingStudentId) <==> data.studentId.None?
    ensures PaymentReason(s, data, MissingDueId) <==> data.dueId.None?
    ensures PaymentReason(s, data, BadAmount) <==> !(data.amount.Num? && data.amount.n > 0)
    ensures forall e | PaymentReason(s, data, e) :: e.MissingStudentId? || e.MissingDueId? || e.BadAmount?
              || e.NoSuchStudent? || e.NoSuchDue? || e.WrongStudent? || e.AlreadyPaid? || e.DuplicateReceipt?
              || e.ExceedsBalance?
  {
  }

  /** No reason applies exactly when the payment may be booked. */
  lemma NoReasonIff(s: Store, data: PaymentData)
    requires Ledger(s)
    ensures (forall e :: !PaymentReason(s, data, e)) <==> MayPay(s, data)
  {
    hide Ledger, Stored, ReceiptUnused, PaymentReason, TakesPayment;
    if MayPay(s, data) {
      var i :| TakesPayment(s, data, i);
      TakenIsFree(s, data, i);
    }
    if forall e :: !PaymentReason(s, data, e) { FreeIsTaken(s, data); }
  }

  lemma TakenIsFree(s: Store, data: PaymentData, i: int)
    requires Ledger(s) && TakesPayment(s, data, i)
    requires Stored(s, "students", data.studentId.value) && ReceiptUnused(s, data.receipt)
    ensures forall e :: !PaymentReason(s, data, e)
  {
    hide First, Ledger, Stored, ReceiptUnused, Balance, HasId;
    TakenFacts(s, data, i);
    assert TableOf(s, DUES)[i] in TableOf(s, DUES);
    DueIsStored(s, data, TableOf(s, DUES)[i]);
  }

  lemma DueIsStored(s: Store, data: PaymentData, d: Record)
    requires Named(s, data, d)
    ensures Stored(s, "fee_dues", data.dueId.value)
  {
  }

  lemma FreeIsTaken(s: Store, data: PaymentData)
    requires Ledger(s) && forall e :: !PaymentReason(s, data, e)
    ensures MayPay(s, data)
  {
    hide First, Ledger, StatusOf, PaidFor, Stored, ReceiptUnused, Balance;
    assert !PaymentReason(s, data, MissingStudentId) && !PaymentReason(s, data, MissingDueId);
    assert !PaymentReason(s, data, BadAmount) && !PaymentReason(s, data, NoSuchStudent);
    assert !PaymentReason(s, data, NoSuchDue) && !PaymentReason(s, data, WrongStudent);
    assert !PaymentReason(s, data, DuplicateReceipt) && !PaymentReason(s, data, ExceedsBalance);
    DueFacts(s, data);
    hide DueOk, HasId;
    var d := First(s, DUES, BY_ID, [Num(data.dueId.value)]).value;
    var i :| 0 <= i < |TableOf(s, DUES)| && TableOf(s, DUES)[i] == d;
    FitsOrNot(d, data.amount.n, TableOf(s, PAYMENTS));
    assert TakesPayment(s, data, i);
  }

  lemma FitsOrNot(d: Record, amount: int, pays: Table)
    ensures DueOk(d, pays) ==> (Balance(d, amount, true) <==> !Balance(d, amount, false))
    ensures DueOk(d, pays) && Balance(d, amount, true) && amount > 0 ==> Cell(d, "status") != Str("paid")
  {
  }

  lemma TakenFacts(s: Store, data: PaymentData, i: int)
    requires Ledger(s) && TakesPayment(s, data, i)
    ensures var d := TableOf(s, DUES)[i];
      && Named(s, data, d) && (forall d' | Named(s, data, d') :: d' == d)
      && Cell(d, "status") != Str("paid") && !Balance(d, data.amount.n, false)
      && First(s, DUES, BY_ID, [Num(data.dueId.value)]) == Some(d)
  {
    hide First, Ledger, DueOk, Balance, HasId;
    var d := TableOf(s, DUES)[i];
    DueFacts(s, data);
    assert Named(s, data, d);
    FitsOrNot(d, data.amount.n, TableOf(s, PAYMENTS));
  }

  /** Without a fault the transaction of a payment on a stored due goes through. */
  lemma PaymentCommits(s: Store, i: nat, payment: seq<Value>, paid: int, status: string, now: Value)
    requires i < |TableOf(s, DUES)| && IdsOk(TableOf(s, DUES))
    ensures Transact(s, PaymentSteps(payment, Cell(TableOf(s, DUES)[i], ID).n, paid, status, now), None).ok
  {
    hide Inserted, Filter, Matches;
    var dues := TableOf(s, DUES);
    var dueId := Cell(dues[i], ID).n;
    var steps := PaymentSteps(payment, dueId, paid, status, now);
    StoredRow(dues, i);
    var params := [Num(paid), Str(status), now, Num(dueId)];
    assert Drop(params, 3) == [Num(dueId)];
    var r1 := RunSteps(s, steps, None, 1);
    assert r1 == RunStep(RunSteps(s, steps, None, 0), steps[0], false);
    assert r1.ok && TableOf(r1.store, DUES) == dues;
    hide ExecStore;
    var r2 := RunSteps(s, steps, None, 2);
    assert r2 == RunStep(r1, steps[1], false);
    var r3 := RunSteps(s, steps, None, 3);
    assert r3 == RunStep(r2, steps[2], false);
  }

  /** What an accepted payment stores: one more payment, the due with the amount added, paid exactly
      when nothing is left, and nothing else. */
  ghost predicate PaymentBooked(s: Store, s': Store, data: PaymentData, today: string, now: Value, i: int) {
    && TakesPayment(s, data, i)
    && var dues, dues', pays, pays' :=
         TableOf(s, "fee_dues"), TableOf(s', "fee_dues"), TableOf(s, "payments"), TableOf(s', "payments");
    && |pays'| == |pays| + 1 && pays'[..|pays|] == pays && IsPaymentRow(pays'[|pays|], data, today, now, pays)
    && |dues'| == |dues| && (forall j | 0 <= j < |dues| && j != i :: dues'[j] == dues[j])
    && IsPaidDue(dues[i], dues'[i], data.amount.n, now)
    && forall t | t != "fee_dues" && t != "payments" :: TableOf(s', t) == TableOf(s, t)
  }

  ghost predicate IsPaymentRow(p: Record, data: PaymentData, today: string, now: Value, pays: Table)
    requires data.studentId.Some? && data.dueId.Some? && data.amount.Num?
  {
    && Cell(p, "student_id") == Num(data.studentId.value) && Cell(p, "fee_due_id") == Num(data.dueId.value)
    && Cell(p, "amount") == data.amount && Cell(p, "created_at") == now
    && Cell(p, "payment_date") == Str(OrElse(data.paymentDate, today))
    && Cell(p, "payment_method") == TextOrNull(data.paymentMethod)
    && Cell(p, "receipt_number") == TextOrNull(data.receipt)
    && Cell(p, "id").Num? && forall q | q in pays :: Cell(q, "id").Num? && Cell(q, "id").n < Cell(p, "id").n
  }

  ghost predicate IsPaidDue(d: Record, d': Record, amount: int, now: Value) {
    && Cell(d, "amount_paid").Num? && Cell(d, "original_amount").Num?
    && var paid, original := Cell(d, "amount_paid").n + amount, Cell(d, "original_amount").n;
    && Cell(d', "amount_paid") == Num(paid) && Cell(d', "updated_at") == now
    && Cell(d', "status") == Str(if paid == original then "paid" else "partially_paid")
    && forall c | c != "amount_paid" && c != "status" && c != "updated_at" :: Cell(d', c) == Cell(d, c)
  }

  function OrElse(o: Option<string>, fallback: string): string {
    match o case Some(text) => if text != "" then text else fallback case None => fallback
  }

  function TextOrNull(o: Option<string>): Value {
    match o case Some(text) => if text != "" then Str(text) else Null case None => Null
  }

  lemma PaymentRowCells(s: Store, data: PaymentData, today: string, now: Value)
    requires data.studentId.Some? && data.dueId.Some? && data.amount.Num? && IdsOk(TableOf(s, PAYMENTS))
    ensures IsPaymentRow(Inserted(s, PAYMENTS, PAYMENT_COLS, RowForPayment(data, today, now)), data, today, now,
                         TableOf(s, PAYMENTS))
  {
    hide NewRecord;
    var row, pays := RowForPayment(data, today, now), TableOf(s, PAYMENTS);
    var p := Inserted(s, PAYMENTS, PAYMENT_COLS, row);
    NextIdFresh(pays);
    assert Cell(p, ID) == Num(NextId(pays));
    forall q | q in pays ensures Cell(q, ID).Num? && Cell(q, ID).n < NextId(pays) {
      var j :| 0 <= j < |pays| && pays[j] == q;
    }
    forall k | 0 <= k < |PAYMENT_COLS| ensures Cell(p, PAYMENT_COLS[k]) == Param(row, k) {
      InsertedCell(s, PAYMENTS, PAYMENT_COLS, row, k);
    }
    hide Inserted, NextId;
    assert PAYMENT_COLS[0] == "student_id" && PAYMENT_COLS[1] == "fee_due_id" && PAYMENT_COLS[2] == "amount";
    assert PAYMENT_COLS[3] == "payment_date" && PAYMENT_COLS[4] == "payment_method";
    assert PAYMENT_COLS[5] == "receipt_number" && PAYMENT_COLS[6] == "created_at";
  }

  lemma AfterPaymentIsBooked(s: Store, data: PaymentData, i: nat, today: string, now: Value)
    requires Ledger(s) && TakesPayment(s, data, i)
    ensures var d := TableOf(s, DUES)[i];
      var paid := NumOf(d, "amount_paid") + data.amount.n;
      var status := StatusAfterPayment(paid, NumOf(d, "original_amount"));
      PaymentBooked(s, AfterPayment(s, i, RowForPayment(data, today, now), paid, status, now), data, today, now, i)
  {
    hide StructuresOk, UniquePairs, UniqueReceipts, PaymentOk, DueOk, Inserted, RowForPayment, IsPaymentRow;
    var d := TableOf(s, DUES)[i];
    var paid := NumOf(d, "amount_paid") + data.amount.n;
    var row, status := RowForPayment(data, today, now), StatusAfterPayment(paid, NumOf(d, "original_amount"));
    PaymentRowCells(s, data, today, now);
    var s' := AfterPayment(s, i, row, paid, status, now);
    assert TableOf(s', PAYMENTS) == TableOf(s, PAYMENTS) + [Inserted(s, PAYMENTS, PAYMENT_COLS, row)];
    assert TableOf(s', DUES) == TableOf(s, DUES)[i := PaidDue(d, paid, status, now)];
  }

  /** A transaction that commits books the payment, and without a fault it commits. */
  lemma PaymentIsBooked(s: Store, data: PaymentData, i: nat, today: string, now: Value, fault: Option<nat>)
    requires Ledger(s) && TakesPayment(s, data, i)
    ensures var t := TransactPayment(s, data, TableOf(s, DUES)[i], today, now, fault);
      && (t.ok ==> PaymentBooked(s, t.store, data, today, now, i))
      && (fault.None? ==> t.ok)
  {
    hide StructuresOk, PaymentsOk, UniquePairs, DueOk, Transact, PaymentSteps, AfterPayment, RowForPayment,
      PaymentBooked;
    var d := TableOf(s, DUES)[i];
    var paid, original := NumOf(d, "amount_paid") + data.amount.n, NumOf(d, "original_amount");
    var row, status := RowForPayment(data, today, now), StatusAfterPayment(paid, original);
    AfterPaymentIsBooked(s, data, i, today, now);
    PaymentTransaction(s, i, row, paid, status, now, fault);
    PaymentCommits(s, i, row, paid, status, now);
  }

  /** `recordPayment` without a fault: it succeeds exactly when the payment may be booked, and
      otherwise names the first reason. */
  lemma PaymentAcceptedIff(s: Store, data: PaymentData, today: string, now: Value)
    requires Ledger(s)
    ensures var o := RecordPaymentSpec(s, data, today, now, None);
      && (o.error.None? <==> MayPay(s, data))
      && (o.error.Some? ==> FirstPaymentReason(s, data, o.error.value) && o.store == s)
  {
    hide Ledger, MayPay, FirstPaymentReason, TransactPayment, PaymentCheck, PaymentReason;
    NoReasonIff(s, data);
    if PaymentCheck(s, data).Fail? {
      PaymentIsRefused(s, data);
      ReasonApplies(s, data, PaymentCheck(s, data).error);
    } else {
      PaymentPasses(s, data);
      var i := PaidAt(s, data);
      PaymentIsBooked(s, data, i, today, now, None);
    }
  }

  lemma ReasonApplies(s: Store, data: PaymentData, e: Error)
    requires FirstPaymentReason(s, data, e)
    ensures PaymentReason(s, data, e)
  {
  }

  /** The due that a passed check is about. */
  lemma PaidAt(s: Store, data: PaymentData) returns (i: nat)
    requires Ledger(s) && PaymentCheck(s, data).Pass?
    ensures TakesPayment(s, data, i) && PaymentCheck(s, data).value == TableOf(s, DUES)[i]
  {
    hide Ledger, PaymentCheck;
    i := PaymentFacts(s, data);
  }

  /** A payment that succeeds, a fault or not, is booked on the due it names. */
  lemma PaymentEffect(s: Store, data: PaymentData, today: string, now: Value, fault: Option<nat>)
    requires Ledger(s) && RecordPaymentSpec(s, data, today, now, fault).error.None?
    ensures exists i :: PaymentBooked(s, RecordPaymentSpec(s, data, today, now, fault).store, data, today, now, i)
  {
    hide Ledger, PaymentBooked, TransactPayment, PaymentCheck;
    var i := PaidAt(s, data);
    PaymentIsBooked(s, data, i, today, now, fault);
  }

  // ----- createFeeDues

  /** The first enrollment of the student in the year. */
  ghost predicate IsEnrollment(s: Store, studentId: int, yearId: int, i: int) {
    var rows := TableOf(s, "enrollments");
    && 0 <= i < |rows| && Enrols(rows[i], studentId, yearId)
    && forall j | 0 <= j < i :: !Enrols(rows[j], studentId, yearId)
  }

  ghost predicate Enrols(e: Record, studentId: int, yearId: int) {
    Cell(e, "student_id") == Num(studentId) && Cell(e, "academic_year_id") == Num(yearId)
  }

  /** A structure that is billed to the students of a class in a year: it is active, and of that class
      and year; a class that is absent, zero or empty does not count, nor does a year 0. */
  ghost predicate Billed(fs: Record, yearId: int, classId: Value) {
    && (yearId != 0 ==> Cell(fs, "academic_year_id") == Num(yearId))
    && (classId !in {Undefined, Null, Num(0), Str("")} ==> Cell(fs, "class_id") == classId)
    && Cell(fs, "status") == Str("active")
  }

  lemma BilledIff(fs: Record, yearId: int, classId: Value)
    ensures Matches(fs, StructureConds(yearId, classId), StructureParams(yearId, classId)) <==>
            Billed(fs, yearId, classId)
  {
    var where, params := StructureConds(yearId, classId), StructureParams(yearId, classId);
    if yearId != 0 && Truthy(classId) {
      assert where == [Cmp("academic_year_id", Eq), Cmp("class_id", Eq), Cmp("status", Eq)];
      assert params == [Num(yearId), classId, Str("active")];
      MatchesThree(fs, "academic_year_id", "class_id", "status", Num(yearId), classId, Str("active"));
    } else if yearId != 0 {
      assert where == [Cmp("academic_year_id", Eq), Cmp("status", Eq)] && params == [Num(yearId), Str("active")];
      MatchesTwo(fs, "academic_year_id", "status", Num(yearId), Str("active"));
    } else if Truthy(classId) {
      assert where == [Cmp("class_id", Eq), Cmp("status", Eq)] && params == [classId, Str("active")];
      MatchesTwo(fs, "class_id", "status", classId, Str("active"));
    } else {
      assert where == [Cmp("status", Eq)] && params == [Str("active")];
      MatchesOne(fs, "status", Str("active"));
    }
  }

  ghost predicate HasDue(s: Store, studentId: int, fs: Record) {
    exists d :: d in TableOf(s, "fee_dues") && Cell(d, "student_id") == Num(studentId)
                && Cell(d, "fee_structure_id") == Cell(fs, "id")
  }

  /** `structs` are, in table order, the structures billed for the enrollment at `e`. */
  ghost predicate IsBill(s: Store, yearId: int, e: Record, at: seq<int>, structs: Table) {
    && |at| == |structs|
    && (forall k | 0 <= k < |at| :: 0 <= at[k] < |TableOf(s, "fee_structures")|
          && structs[k] == TableOf(s, "fee_structures")[at[k]] && Billed(structs[k], yearId, Cell(e, "class_id")))
    && (forall j, k | 0 <= j < k < |at| :: at[j] < at[k])
    && (forall fs | fs in TableOf(s, "fee_structures") && Billed(fs, yearId, Cell(e, "class_id")) :: fs in structs)
  }

  /** `e` is what counts as the enrollment of the student in the year. */
  ghost predicate EnrolledAs(s: Store, studentId: Option<int>, yearId: Option<int>, e: Record) {
    && studentId.Some? && yearId.Some?
    && exists i :: IsEnrollment(s, studentId.value, yearId.value, i) && TableOf(s, "enrollments")[i] == e
  }

  ghost predicate NothingBilled(s: Store, yearId: int, e: Record) {
    forall fs | fs in TableOf(s, "fee_structures") :: !Billed(fs, yearId, Cell(e, "class_id"))
  }

  /** A structure to bill has a due of the student already. */
  ghost predicate SomeBilledTwice(s: Store, studentId: int, yearId: int, e: Record) {
    exists fs :: fs in TableOf(s, "fee_structures") && Billed(fs, yearId, Cell(e, "class_id"))
                 && HasDue(s, studentId, fs)
  }

  /** The reasons to refuse dues, in the order in which they are looked for. */
  function DuesRank(e: Error): nat {
    match e
    case MissingStudentId => 1
    case MissingYearId => 2
    case NoSuchStudent => 3
    case NoSuchYear => 4
    case NotEnrolled => 5
    case Inactive => 6
    case NoStructures => 7
    case _ => 8
  }

  ghost predicate DuesReason(s: Store, studentId: Option<int>, yearId: Option<int>, e: Error) {
    match e
    case MissingStudentId => studentId.None?
    case MissingYearId => yearId.None?
    case NoSuchStudent => studentId.Some? && !Stored(s, "students", studentId.value)
    case NoSuchYear => yearId.Some? && !Stored(s, "academic_years", yearId.value)
    case NotEnrolled =>
      studentId.Some? && yearId.Some?
      && forall r | r in TableOf(s, "enrollments") :: !Enrols(r, studentId.value, yearId.value)
    case Inactive => exists e :: EnrolledAs(s, studentId, yearId, e) && Cell(e, "status") != Str("active")
    case NoStructures => exists e :: EnrolledAs(s, studentId, yearId, e) && NothingBilled(s, yearId.value, e)
    case TransactionFailed =>
      exists e :: EnrolledAs(s, studentId, yearId, e) && SomeBilledTwice(s, studentId.value, yearId.value, e)
    case _ => false
  }

  ghost predicate FirstDuesReason(s: Store, studentId: Option<int>, yearId: Option<int>, e: Error) {
    && DuesReason(s, studentId, yearId, e)
    && forall f | DuesRank(f) < DuesRank(e) :: !DuesReason(s, studentId, yearId, f)
  }

  lemma EnrollmentFound(s: Store, studentId: int, yearId: int)
    ensures var found := First(s, ENROLLMENTS, BY_STUDENT_AND_YEAR, [Num(studentId), Num(yearId)]);
      && (found.None? <==> forall r | r in TableOf(s, "enrollments") :: !Enrols(r, studentId, yearId))
      && (forall e :: EnrolledAs(s, Some(studentId), Some(yearId), e) <==> found == Some(e))
  {
    hide Matches, Filter, Enrols;
    var rows, params := TableOf(s, ENROLLMENTS), [Num(studentId), Num(yearId)];
    FilterStarts(rows, BY_STUDENT_AND_YEAR, params);
    forall r ensures Matches(r, BY_STUDENT_AND_YEAR, params) <==> Enrols(r, studentId, yearId) {
      EnrolsIff(r, studentId, yearId);
    }
    if First(s, ENROLLMENTS, BY_STUDENT_AND_YEAR, params).Some? {
      var i :| FirstMatch(rows, BY_STUDENT_AND_YEAR, params, i)
               && rows[i] == Filter(rows, BY_STUDENT_AND_YEAR, params)[0];
      assert IsEnrollment(s, studentId, yearId, i);
      forall e | EnrolledAs(s, Some(studentId), Some(yearId), e) ensures e == rows[i] {
        var j :| IsEnrollment(s, studentId, yearId, j) && rows[j] == e;
        OneEnrollment(s, studentId, yearId, i, j);
      }
    }
  }

  lemma EnrolsIff(r: Record, studentId: int, yearId: int)
    ensures Matches(r, BY_STUDENT_AND_YEAR, [Num(studentId), Num(yearId)]) <==> Enrols(r, studentId, yearId)
  {
    MatchesTwo(r, "student_id", "academic_year_id", Num(studentId), Num(yearId));
  }

  lemma OneEnrollment(s: Store, studentId: int, yearId: int, i: int, j: int)
    requires IsEnrollment(s, studentId, yearId, i) && IsEnrollment(s, studentId, yearId, j)
    ensures i == j
  {
  }

  /** The structures that pass the checks are the bill of the first enrollment. */
  lemma BillFound(s: Store, yearId: int, e: Record) returns (at: seq<int>)
    ensures var classId := Cell(e, "class_id");
      IsBill(s, yearId, e, at, Filter(TableOf(s, STRUCTURES), StructureConds(yearId, classId),
                                      StructureParams(yearId, classId)))
  {
    hide Matches, Filter, Billed, StructureConds, StructureParams;
    var rows, classId := TableOf(s, STRUCTURES), Cell(e, "class_id");
    var where, params := StructureConds(yearId, classId), StructureParams(yearId, classId);
    at := FilterSelects(rows, where, params);
    FilterMembers(rows, where, params);
    forall fs ensures Matches(fs, where, params) <==> Billed(fs, yearId, classId) { BilledIff(fs, yearId, classId); }
  }

  /** With an empty lookup, and no fault, the two steps for one structure go through. */
  lemma TwoMoreGo(s: Store, a: seq<Step>, x: Step, y: Step)
    requires x.FailIfFound? && x.cmd.Select? && y.FailIfNone? && y.cmd.Insert?
    requires var before := RunSteps(s, a, None, |a|);
      before.ok && ExecResult(before.store, x.cmd, x.params).rows == []
    ensures RunSteps(s, a + [x, y], None, |a| + 2).ok
  {
    var steps := a + [x, y];
    RunPrefix(s, a, [x, y], None, |a|);
    var before, mid := RunSteps(s, steps, None, |a|), RunSteps(s, steps, None, |a| + 1);
    assert steps[|a|] == x && steps[|a| + 1] == y;
    assert mid == RunStep(before, x, false) && mid.ok;
    assert RunSteps(s, steps, None, |a| + 2) == RunStep(mid, y, false);
  }

  lemma LookupMeaning(s: Store, studentId: int, fs: Record)
    ensures Filter(TableOf(s, DUES), BY_STUDENT_AND_STRUCTURE, [Num(studentId), Cell(fs, ID)]) == [] <==>
            !HasDue(s, studentId, fs)
  {
    var rows, params := TableOf(s, DUES), [Num(studentId), Cell(fs, ID)];
    FilterStarts(rows, BY_STUDENT_AND_STRUCTURE, params);
    hide Matches, Filter;
    forall r ensures Matches(r, BY_STUDENT_AND_STRUCTURE, params) <==>
                     Cell(r, "student_id") == Num(studentId) && Cell(r, "fee_structure_id") == Cell(fs, ID) {
      MatchesTwo(r, "student_id", "fee_structure_id", Num(studentId), Cell(fs, ID));
    }
  }

  ghost predicate DistinctStructures(structs: Table) {
    forall j, k | 0 <= j < k < |structs| :: Cell(structs[j], ID) != Cell(structs[k], ID)
  }

  /** Billing distinct other structures gives the student no due for `fs`. */
  lemma StillNoDue(s: Store, s': Store, studentId: int, yearId: int, structs: Table, fs: Record, now: Value)
    requires AddedDues(TableOf(s, DUES), TableOf(s', DUES), studentId, yearId, structs, now)
    requires forall k | 0 <= k < |structs| :: Cell(structs[k], ID) != Cell(fs, ID)
    ensures HasDue(s', studentId, fs) <==> HasDue(s, studentId, fs)
  {
    var dues, dues' := TableOf(s, DUES), TableOf(s', DUES);
    assert forall i | 0 <= i < |dues| :: dues'[i] == dues'[..|dues|][i];
    forall k | |dues| <= k < |dues'| ensures Cell(dues'[k], "fee_structure_id") != Cell(fs, ID) {
      assert DueFor(dues'[|dues| + (k - |dues|)], studentId, yearId, structs[k - |dues|], now);
    }
    if HasDue(s, studentId, fs) {
      var d :| d in dues && Cell(d, "student_id") == Num(studentId) && Cell(d, "fee_structure_id") == Cell(fs, ID);
      var i :| 0 <= i < |dues| && dues[i] == d;
      assert dues'[i] == d;
    }
  }

  /** One more structure goes through when it has no due. */
  lemma OneMoreGoesIff(s: Store, studentId: int, yearId: int, front: Table, fs: Record, now: Value)
    requires Ledger(s) && PositiveAmounts(front)
    requires forall k | 0 <= k < |front| :: Cell(front[k], ID) != Cell(fs, ID)
    ensures var a, steps := DueSteps(studentId, yearId, front, now), DueSteps(studentId, yearId, front + [fs], now);
      RunSteps(s, steps, None, |steps|).ok <==> RunSteps(s, a, None, |a|).ok && !HasDue(s, studentId, fs)
  {
    hide Ledger, ExecStore, DueRow, RunSteps, HasDue, AddedDues, AddDues, Filter, PositiveAmounts;
    DuesRun(s, studentId, yearId, front, now, None);
    AddDuesAddsAll(s, studentId, yearId, front, now);
    var a := DueSteps(studentId, yearId, front, now);
    var x := FailIfFound(Select(DUES, BY_STUDENT_AND_STRUCTURE), [Num(studentId), Cell(fs, ID)]);
    var y := FailIfNone(Insert(DUES, DUE_COLS), DueRow(studentId, yearId, fs, now));
    assert (front + [fs])[..|front|] == front;
    var before := RunSteps(s, a, None, |a|);
    RunTwoMore(s, a, x, y, None);
    if before.ok {
      StillNoDue(s, before.store, studentId, yearId, front, fs, now);
      LookupMeaning(before.store, studentId, fs);
      if !HasDue(s, studentId, fs) { TwoMoreGo(s, a, x, y); }
    }
  }

  /** Without a fault the dues of distinct structures are all saved exactly when none is there already. */
  lemma {:induction false} DuesGoIff(s: Store, studentId: int, yearId: int, structs: Table, now: Value)
    requires Ledger(s) && PositiveAmounts(structs) && DistinctStructures(structs)
    ensures var steps := DueSteps(studentId, yearId, structs, now);
      RunSteps(s, steps, None, |steps|).ok <==> forall fs | fs in structs :: !HasDue(s, studentId, fs)
  {
    hide Ledger, RunSteps, HasDue, DueSteps;
    if structs == [] {
      NoSteps(s, studentId, yearId, now);
    } else {
      var front, fs := structs[..|structs| - 1], structs[|structs| - 1];
      DuesGoIff(s, studentId, yearId, front, now);
      OneMoreGoesIff(s, studentId, yearId, front, fs, now);
      assert structs == front + [fs];
    }
  }

  lemma NoSteps(s: Store, studentId: int, yearId: int, now: Value)
    ensures DueSteps(studentId, yearId, [], now) == [] && RunSteps(s, [], None, 0).ok
  {
  }

  /** What may be billed: a stored student with an active enrollment in a stored year, some active
      structure, and none that was billed to the student before. */
  ghost predicate MayBill(s: Store, studentId: Option<int>, yearId: Option<int>) {
    exists e :: EnrolledAs(s, studentId, yearId, e) && Cell(e, "status") == Str("active")
      && Stored(s, "students", studentId.value) && Stored(s, "academic_years", yearId.value)
      && !NothingBilled(s, yearId.value, e) && !SomeBilledTwice(s, studentId.value, yearId.value, e)
  }

  /** What the lookups of the checks say about the reasons. */
  lemma DuesReasons(s: Store, studentId: int, yearId: int)
    ensures var sid, yid := Some(studentId), Some(yearId);
      var enrollment := First(s, ENROLLMENTS, BY_STUDENT_AND_YEAR, [Num(studentId), Num(yearId)]);
      && (DuesReason(s, sid, yid, NoSuchStudent) <==> First(s, STUDENTS, BY_ID, [Num(studentId)]).None?)
      && (DuesReason(s, sid, yid, NoSuchYear) <==> First(s, YEARS, BY_ID, [Num(yearId)]).None?)
      && (DuesReason(s, sid, yid, NotEnrolled) <==> enrollment.None?)
      && (DuesReason(s, sid, yid, Inactive) <==> enrollment.Some? && Cell(enrollment.value, "status") != Str("active"))
      && (DuesReason(s, sid, yid, NoStructures) <==>
            enrollment.Some? && NothingBilled(s, yearId, enrollment.value))
      && (DuesReason(s, sid, yid, TransactionFailed) <==>
            enrollment.Some? && SomeBilledTwice(s, studentId, yearId, enrollment.value))
  {
    hide First, Stored, NothingBilled, SomeBilledTwice, EnrolledAs, Enrols;
    ById(s, STUDENTS, studentId);
    ById(s, YEARS, yearId);
    EnrollmentFound(s, studentId, yearId);
  }

  lemma PlainDuesReasons(s: Store, studentId: Option<int>, yearId: Option<int>)
    ensures DuesReason(s, studentId, yearId, MissingStudentId) <==> studentId.None?
    ensures DuesReason(s, studentId, yearId, MissingYearId) <==> yearId.None?
    ensures forall e | DuesReason(s, studentId, yearId, e) :: e.MissingStudentId? || e.MissingYearId?
              || e.NoSuchStudent? || e.NoSuchYear? || e.NotEnrolled? || e.Inactive? || e.NoStructures?
              || e.TransactionFailed?
  {
  }

  lemma EmptyBill(s: Store, yearId: int, e: Record, at: seq<int>, structs: Table)
    requires IsBill(s, yearId, e, at, structs)
    ensures structs == [] <==> NothingBilled(s, yearId, e)
    ensures forall fs :: fs in structs <==> fs in TableOf(s, STRUCTURES) && Billed(fs, yearId, Cell(e, "class_id"))
  {
    hide Billed;
    if structs != [] { assert structs[0] in TableOf(s, STRUCTURES); }
    forall fs | fs in structs ensures fs in TableOf(s, STRUCTURES) && Billed(fs, yearId, Cell(e, "class_id")) {
      var k :| 0 <= k < |structs| && structs[k] == fs;
      assert structs[k] == TableOf(s, STRUCTURES)[at[k]];
    }
  }

  /** The checks of `createFeeDues` refuse for the first reason that applies. */
  lemma DuesAreRefused(s: Store, studentId: Option<int>, yearId: Option<int>)
    requires DuesCheck(s, studentId, yearId).Fail?
    ensures FirstDuesReason(s, studentId, yearId, DuesCheck(s, studentId, yearId).error)
  {
    hide First, DuesReason, Filter, StructureConds, StructureParams, IsBill, NothingBilled, SomeBilledTwice, Cell;
    PlainDuesReasons(s, studentId, yearId);
    if studentId.Some? && yearId.Some? {
      DuesReasons(s, studentId.value, yearId.value);
      var e := First(s, ENROLLMENTS, BY_STUDENT_AND_YEAR, [Num(studentId.value), Num(yearId.value)]);
      if e.Some? {
        var at := BillFound(s, yearId.value, e.value);
        EmptyBill(s, yearId.value, e.value, at, Filter(TableOf(s, STRUCTURES),
                  StructureConds(yearId.value, Cell(e.value, "class_id")),
                  StructureParams(yearId.value, Cell(e.value, "class_id"))));
      }
    }
  }

  /** What passes the checks is the bill of an active enrollment. */
  lemma DuesPass(s: Store, studentId: Option<int>, yearId: Option<int>) returns (e: Record, at: seq<int>)
    requires DuesCheck(s, studentId, yearId).Pass?
    ensures studentId.Some? && yearId.Some?
    ensures EnrolledAs(s, studentId, yearId, e) && Cell(e, "status") == Str("active")
    ensures IsBill(s, yearId.value, e, at, DuesCheck(s, studentId, yearId).value)
    ensures DuesCheck(s, studentId, yearId).value != []
    ensures Stored(s, "students", studentId.value) && Stored(s, "academic_years", yearId.value)
    ensures forall e' | EnrolledAs(s, studentId, yearId, e') :: e' == e
  {
    hide First, Filter, StructureConds, StructureParams, IsBill, Stored, EnrolledAs, Enrols;
    e := First(s, ENROLLMENTS, BY_STUDENT_AND_YEAR, [Num(studentId.value), Num(yearId.value)]).value;
    EnrollmentFound(s, studentId.value, yearId.value);
    ById(s, STUDENTS, studentId.value);
    ById(s, YEARS, yearId.value);
    at := BillFound(s, yearId.value, e);
  }

  lemma BillIsDistinct(s: Store, yearId: int, e: Record, at: seq<int>, structs: Table)
    requires Ledger(s) && IsBill(s, yearId, e, at, structs)
    ensures DistinctStructures(structs) && PositiveAmounts(structs)
  {
    hide DuesOk, PaymentsOk, Billed;
    forall j, k | 0 <= j < k < |structs| ensures Cell(structs[j], ID) != Cell(structs[k], ID) {
      assert at[j] < at[k];
    }
  }

  /** `createFeeDues` without a fault: it succeeds exactly when the student may be billed, and
      otherwise names the first reason. */
  lemma DuesAcceptedIff(s: Store, studentId: Option<int>, yearId: Option<int>, now: Value)
    requires Ledger(s)
    ensures var o := CreateFeeDuesSpec(s, studentId, yearId, now, None);
      && (o.error.None? <==> MayBill(s, studentId, yearId))
      && (o.error.Some? ==> FirstDuesReason(s, studentId, yearId, o.error.value) && o.store == s)
  {
    hide Ledger, DuesCheck, DueSteps, RunSteps, IsBill, NothingBilled, SomeBilledTwice, EnrolledAs, Stored, DuesReason;
    NoDuesReason(s, studentId, yearId);
    if DuesCheck(s, studentId, yearId).Fail? {
      DuesAreRefused(s, studentId, yearId);
    } else {
      var structs := DuesCheck(s, studentId, yearId).value;
      var e, at := DuesPass(s, studentId, yearId);
      BillIsDistinct(s, yearId.value, e, at, structs);
      EmptyBill(s, yearId.value, e, at, structs);
      DuesGoIff(s, studentId.value, yearId.value, structs, now);
      BilledTwiceIff(s, studentId.value, yearId.value, e, structs);
      if SomeBilledTwice(s, studentId.value, yearId.value, e) { PassedIsRefusedLast(s, studentId, yearId, e); }
    }
  }

  lemma BilledTwiceIff(s: Store, studentId: int, yearId: int, e: Record, structs: Table)
    requires forall fs :: fs in structs <==> fs in TableOf(s, STRUCTURES) && Billed(fs, yearId, Cell(e, "class_id"))
    ensures SomeBilledTwice(s, studentId, yearId, e) <==> exists fs :: fs in structs && HasDue(s, studentId, fs)
  {
    hide Billed, HasDue;
  }

  /** No reason applies to what may be billed. */
  lemma NoDuesReason(s: Store, studentId: Option<int>, yearId: Option<int>)
    ensures MayBill(s, studentId, yearId) ==> forall f :: !DuesReason(s, studentId, yearId, f)
  {
    hide First, Stored, NothingBilled, SomeBilledTwice, Enrols, DuesReason;
    if MayBill(s, studentId, yearId) {
      PlainDuesReasons(s, studentId, yearId);
      DuesReasons(s, studentId.value, yearId.value);
      hide EnrolledAs;
      EnrollmentFound(s, studentId.value, yearId.value);
      ById(s, STUDENTS, studentId.value);
      ById(s, YEARS, yearId.value);
    }
  }

  /** Behind the checks only an existing due is left as a reason. */
  lemma PassedIsRefusedLast(s: Store, studentId: Option<int>, yearId: Option<int>, e: Record)
    requires DuesCheck(s, studentId, yearId).Pass? && EnrolledAs(s, studentId, yearId, e)
    requires SomeBilledTwice(s, studentId.value, yearId.value, e)
    ensures FirstDuesReason(s, studentId, yearId, TransactionFailed)
  {
    hide First, Filter, StructureConds, StructureParams, IsBill, NothingBilled, SomeBilledTwice, DuesReason;
    PlainDuesReasons(s, studentId, yearId);
    DuesReasons(s, studentId.value, yearId.value);
    EnrollmentFound(s, studentId.value, yearId.value);
    var at := BillFound(s, yearId.value, e);
    EmptyBill(s, yearId.value, e, at, DuesCheck(s, studentId, yearId).value);
  }

  /** What successful dues store: behind the old ones an unpaid due for each structure billed for
      the enrollment, in table order, and nothing else. */
  ghost predicate DuesBilled(s: Store, s': Store, studentId: Option<int>, yearId: Option<int>, now: Value,
                             at: seq<int>, structs: Table)
  {
    && (exists e :: EnrolledAs(s, studentId, yearId, e) && IsBill(s, yearId.value, e, at, structs))
    && structs != [] && studentId.Some? && yearId.Some?
    && AddedDues(TableOf(s, "fee_dues"), TableOf(s', "fee_dues"), studentId.value, yearId.value, structs, now)
    && forall t | t != "fee_dues" :: TableOf(s', t) == TableOf(s, t)
  }

  lemma DuesEffect(s: Store, studentId: Option<int>, yearId: Option<int>, now: Value, fault: Option<nat>)
    requires Ledger(s) && CreateFeeDuesSpec(s, studentId, yearId, now, fault).error.None?
    ensures exists at, structs ::
      DuesBilled(s, CreateFeeDuesSpec(s, studentId, yearId, now, fault).store, studentId, yearId, now, at, structs)
  {
    hide Ledger, DuesCheck, DueSteps, Transact, IsBill, EnrolledAs, Stored, AddedDues, AddDues;
    var structs := DuesCheck(s, studentId, yearId).value;
    var e, at := DuesPass(s, studentId, yearId);
    BillIsDistinct(s, yearId.value, e, at, structs);
    CreateDuesKeepsLedger(s, studentId.value, yearId.value, structs, now, fault);
    AddDuesAddsAll(s, studentId.value, yearId.value, structs, now);
    var s' := CreateFeeDuesSpec(s, studentId, yearId, now, fault).store;
    assert DuesBilled(s, s', studentId, yearId, now, at, structs);
  }

  // ----- createFeeStructure

  /** `r` is the first row of the table with the id. */
  ghost predicate IsRowById(s: Store, table: string, id: int, r: Record) {
    exists i :: 0 <= i < |TableOf(s, table)| && TableOf(s, table)[i] == r && HasId(r, id)
                && forall j | 0 <= j < i :: !HasId(TableOf(s, table)[j], id)
  }

  lemma FirstById(s: Store, table: string, id: int)
    ensures forall r :: IsRowById(s, table, id, r) <==> First(s, table, BY_ID, [Num(id)]) == Some(r)
  {
    hide Matches, Filter, HasId;
    var rows := TableOf(s, table);
    FilterStarts(rows, BY_ID, [Num(id)]);
    forall r ensures Matches(r, BY_ID, [Num(id)]) <==> HasId(r, id) { IdMatches(r, id); }
    if First(s, table, BY_ID, [Num(id)]).Some? {
      var i :| FirstMatch(rows, BY_ID, [Num(id)], i) && rows[i] == Filter(rows, BY_ID, [Num(id)])[0];
      assert IsRowById(s, table, id, rows[i]);
      forall r | IsRowById(s, table, id, r) ensures r == rows[i] {
        var j :| 0 <= j < |rows| && rows[j] == r && HasId(r, id) && forall k | 0 <= k < j :: !HasId(rows[k], id);
      }
    }
  }

  lemma IdMatches(r: Record, id: int)
    ensures Matches(r, BY_ID, [Num(id)]) <==> HasId(r, id)
  {
    MatchesById(r, id);
  }

  ghost predicate Active(s: Store, table: string, id: int) {
    exists r :: IsRowById(s, table, id, r) && Cell(r, "status") == Str("active")
  }

  ghost predicate TripleTaken(s: Store, yearId: int, classId: int, feeTypeId: int) {
    exists r :: r in TableOf(s, "fee_structures") && Cell(r, "academic_year_id") == Num(yearId)
                && Cell(r, "class_id") == Num(classId) && Cell(r, "fee_type_id") == Num(feeTypeId)
  }

  predicate IdsGiven(data: StructureData) {
    && data.yearId.Some? && data.yearId.value != 0 && data.classId.Some? && data.classId.value != 0
    && data.feeTypeId.Some? && data.feeTypeId.value != 0
  }

  /** A positive amount for an active year, class and fee type that have no structure together. */
  ghost predicate MayCreate(s: Store, data: StructureData) {
    && IdsGiven(data) && data.amount.Num? && data.amount.n > 0
    && Active(s, "academic_years", data.yearId.value) && Active(s, "classes", data.classId.value)
    && Active(s, "fee_types", data.feeTypeId.value)
    && !TripleTaken(s, data.yearId.value, data.classId.value, data.feeTypeId.value)
  }

  /** What each refusal says of the request and the tables. */
  ghost predicate StructureReason(s: Store, data: StructureData, e: Error) {
    match e
    case MissingYearId => data.yearId.None? || data.yearId == Some(0)
    case MissingClassId => data.classId.None? || data.classId == Some(0)
    case MissingFeeTypeId => data.feeTypeId.None? || data.feeTypeId == Some(0)
    case BadAmount => !(data.amount.Num? && data.amount.n > 0)
    case NoSuchYear => data.yearId.Some? && !Stored(s, "academic_years", data.yearId.value)
    case NoSuchClass => data.classId.Some? && !Stored(s, "classes", data.classId.value)
    case NoSuchFeeType => data.feeTypeId.Some? && !Stored(s, "fee_types", data.feeTypeId.value)
    case Inactive =>
      IdsGiven(data) && (|| IsInactive(s, "academic_years", data.yearId.value)
                         || IsInactive(s, "classes", data.classId.value)
                         || IsInactive(s, "fee_types", data.feeTypeId.value))
    case DuplicateStructure =>
      IdsGiven(data) && TripleTaken(s, data.yearId.value, data.classId.value, data.feeTypeId.value)
    case _ => false
  }

  ghost predicate IsInactive(s: Store, table: string, id: int) {
    exists r :: IsRowById(s, table, id, r) && Cell(r, "status") != Str("active")
  }

  lemma ActiveIff(s: Store, table: string, id: int, missing: Error)
    requires missing != Inactive
    ensures ActiveById(s, table, id, missing).None? <==> Active(s, table, id)
    ensures ActiveById(s, table, id, missing) == Some(missing) <==> !Stored(s, table, id)
    ensures ActiveById(s, table, id, missing) == Some(Inactive) <==> IsInactive(s, table, id)
    ensures ActiveById(s, table, id, missing) in {None, Some(missing), Some(Inactive)}
  {
    hide First, IsRowById, Stored;
    FirstById(s, table, id);
    ById(s, table, id);
  }

  lemma TripleTakenIff(s: Store, yearId: int, classId: int, feeTypeId: int)
    ensures First(s, STRUCTURES, BY_TRIPLE, [Num(yearId), Num(classId), Num(feeTypeId)]).Some? <==>
            TripleTaken(s, yearId, classId, feeTypeId)
  {
    var rows, params := TableOf(s, STRUCTURES), [Num(yearId), Num(classId), Num(feeTypeId)];
    FilterStarts(rows, BY_TRIPLE, params);
    hide Matches, Filter;
    forall r ensures Matches(r, BY_TRIPLE, params) <==>
                     && Cell(r, "academic_year_id") == Num(yearId) && Cell(r, "class_id") == Num(classId)
                     && Cell(r, "fee_type_id") == Num(feeTypeId) {
      MatchesThree(r, "academic_year_id", "class_id", "fee_type_id", Num(yearId), Num(classId), Num(feeTypeId));
    }
  }

  ghost predicate IsStructureRow(r: Record, data: StructureData, rows: Table) {
    && data.yearId.Some? && data.classId.Some? && data.feeTypeId.Some?
    && Cell(r, "academic_year_id") == Num(data.yearId.value) && Cell(r, "class_id") == Num(data.classId.value)
    && Cell(r, "fee_type_id") == Num(data.feeTypeId.value) && Cell(r, "amount") == data.amount
    && Cell(r, "frequency") == Str(OrElse(data.frequency, "annual"))
    && Cell(r, "status") == Str(OrElse(data.status, "active"))
    && Cell(r, "id").Num? && forall q | q in rows :: Cell(q, "id").Num? && Cell(q, "id").n < Cell(r, "id").n
  }

  lemma StructureRowCells(s: Store, data: StructureData)
    requires data.yearId.Some? && data.classId.Some? && data.feeTypeId.Some? && data.amount.Num?
    requires IdsOk(TableOf(s, STRUCTURES))
    ensures IsStructureRow(SavedStructure(s, data), data, TableOf(s, STRUCTURES))
  {
    hide NewRecord;
    var row := StructureRow(data.yearId.value, data.classId.value, data.feeTypeId.value, data.amount.n,
                            data.frequency, data.status);
    var r, rows := Inserted(s, STRUCTURES, STRUCTURE_COLS, row), TableOf(s, STRUCTURES);
    NextIdFresh(rows);
    assert Cell(r, ID) == Num(NextId(rows));
    forall q | q in rows ensures Cell(q, ID).Num? && Cell(q, ID).n < NextId(rows) {
      var j :| 0 <= j < |rows| && rows[j] == q;
    }
    forall k | 0 <= k < |STRUCTURE_COLS| ensures Cell(r, STRUCTURE_COLS[k]) == Param(row, k) {
      InsertedCell(s, STRUCTURES, STRUCTURE_COLS, row, k);
    }
    hide Inserted, NextId;
    assert STRUCTURE_COLS[0] == "academic_year_id" && STRUCTURE_COLS[1] == "class_id";
    assert STRUCTURE_COLS[2] == "fee_type_id" && STRUCTURE_COLS[3] == "amount";
    assert STRUCTURE_COLS[4] == "frequency" && STRUCTURE_COLS[5] == "status";
  }

  /** What an accepted structure stores, and nothing else. */
  ghost predicate StructureStored(s: Store, s': Store, data: StructureData) {
    var rows, rows' := TableOf(s, "fee_structures"), TableOf(s', "fee_structures");
    && |rows'| == |rows| + 1 && rows'[..|rows|] == rows
    && IsStructureRow(rows'[|rows|], data, rows)
    && forall t | t != "fee_structures" :: TableOf(s', t) == TableOf(s, t)
  }

  /** `createFeeStructure` succeeds exactly when it may, and a refusal says something true. */
  lemma StructureAcceptedIff(s: Store, data: StructureData)
    ensures var o := CreateStructureSpec(s, data);
      && (o.error.None? <==> MayCreate(s, data))
      && (o.error.Some? ==> StructureReason(s, data, o.error.value) && o.store == s)
  {
    hide First, ActiveById, Active, IsInactive, Stored, TripleTaken, ExecStore, StructureRow;
    if IdsGiven(data) {
      ActiveIff(s, YEARS, data.yearId.value, NoSuchYear);
      ActiveIff(s, CLASSES, data.classId.value, NoSuchClass);
      ActiveIff(s, FEE_TYPES, data.feeTypeId.value, NoSuchFeeType);
      TripleTakenIff(s, data.yearId.value, data.classId.value, data.feeTypeId.value);
    }
  }

  lemma StructureEffect(s: Store, data: StructureData)
    requires Ledger(s) && CreateStructureSpec(s, data).error.None?
    ensures StructureStored(s, CreateStructureSpec(s, data).store, data)
  {
    hide DuesOk, PaymentsOk, First, ActiveById, NewRecord, Inserted, IsStructureRow, StructureRow;
    var row := StructureRow(data.yearId.value, data.classId.value, data.feeTypeId.value, data.amount.n,
                            data.frequency, data.status);
    StructureRowCells(s, data);
    InsertTables(s, STRUCTURES, STRUCTURE_COLS, row);
  }

  // ----- updateFeeStructure

  ghost predicate RefersToRow(s: Store, table: string, id: Option<Value>) {
    id.Some? ==>
      && id.value != Null && id.value != Undefined
      && exists r :: r in TableOf(s, table) && Cell(r, "id") == id.value
  }

  predicate GivesSomething(data: StructureUpdate) {
    data.amount.Some? || data.frequency.Some? || data.status.Some? || data.yearId.Some? || data.classId.Some?
    || data.feeTypeId.Some?
  }

  /** A stored structure, a positive amount, a known status, references to stored rows, and
      something to write. */
  ghost predicate MayUpdate(s: Store, id: Option<int>, data: StructureUpdate) {
    && id.Some? && Stored(s, "fee_structures", id.value)
    && (data.amount.Some? ==> data.amount.value.Num? && data.amount.value.n > 0)
    && (data.status.Some? ==> data.status.value == Str("active") || data.status.value == Str("inactive"))
    && RefersToRow(s, "academic_years", data.yearId) && RefersToRow(s, "classes", data.classId)
    && RefersToRow(s, "fee_types", data.feeTypeId) && GivesSomething(data)
  }

  lemma ReferenceIff(s: Store, table: string, id: Option<Value>, absent: Error, missing: Error)
    ensures ReferenceCheck(s, table, id, absent, missing).None? <==> RefersToRow(s, table, id)
  {
    if id.Some? {
      FilterStarts(TableOf(s, table), BY_ID, [id.value]);
      hide Matches, Filter;
      forall r ensures Matches(r, BY_ID, [id.value]) <==> Cell(r, "id") == id.value { MatchesOne(r, "id", id.value); }
    }
  }

  /** What an accepted update writes: in the one row with the id the given fields, and nothing else. */
  ghost predicate StructureUpdated(s: Store, s': Store, id: int, data: StructureUpdate) {
    var rows, rows' := TableOf(s, "fee_structures"), TableOf(s', "fee_structures");
    && |rows'| == |rows|
    && (forall j | 0 <= j < |rows| ::
          if HasId(rows[j], id) then HasFields(rows[j], rows'[j], data) else rows'[j] == rows[j])
    && forall t | t != "fee_structures" :: TableOf(s', t) == TableOf(s, t)
  }

  function Field(data: StructureUpdate, col: string): Option<Value> {
    if col == "amount" then data.amount
    else if col == "frequency" then data.frequency
    else if col == "status" then data.status
    else if col == "academic_year_id" then data.yearId
    else if col == "class_id" then data.classId
    else if col == "fee_type_id" then data.feeTypeId
    else None
  }

  ghost predicate HasFields(r: Record, u: Record, data: StructureUpdate) {
    forall col :: Cell(u, col) == if Field(data, col).Some? then Field(data, col).value else Cell(r, col)
  }

  lemma AssignedFields(r: Record, data: StructureUpdate, id: Value)
    ensures HasFields(r, Assign(r, GivenNames(StructureFields(data)), GivenValues(StructureFields(data)) + [id]), data)
  {
    hide Assign, GivenNames, GivenValues;
    var fields := StructureFields(data);
    assert fields[0] == ("amount", data.amount) && fields[1] == ("frequency", data.frequency);
    assert fields[2] == ("status", data.status) && fields[3] == ("academic_year_id", data.yearId);
    assert fields[4] == ("class_id", data.classId) && fields[5] == ("fee_type_id", data.feeTypeId);
    var u := Assign(r, GivenNames(fields), GivenValues(fields) + [id]);
    forall col ensures Cell(u, col) == if Field(data, col).Some? then Field(data, col).value else Cell(r, col) {
      GivenCell(r, fields, [id], col);
      hide StructureFields;
    }
  }

  /** `updateFeeStructure` succeeds exactly when it may, and changes nothing otherwise. */
  lemma UpdateAcceptedIff(s: Store, id: Option<int>, data: StructureUpdate)
    ensures var o := UpdateStructureSpec(s, id, data);
      (o.error.None? <==> MayUpdate(s, id, data)) && (o.error.Some? ==> o.store == s)
  {
    hide First, ReferenceCheck, RefersToRow, Stored, ExecStore, GivenNames;
    if id.Some? { ById(s, STRUCTURES, id.value); }
    ReferenceIff(s, YEARS, data.yearId, MissingYearId, NoSuchYear);
    ReferenceIff(s, CLASSES, data.classId, MissingClassId, NoSuchClass);
    ReferenceIff(s, FEE_TYPES, data.feeTypeId, MissingFeeTypeId, NoSuchFeeType);
    SomethingIff(data);
  }

  lemma SomethingIff(data: StructureUpdate)
    ensures GivenNames(StructureFields(data)) == [] <==> !GivesSomething(data)
  {
    var fields := StructureFields(data);
    hide GivenNames;
    GivenNothing(fields);
    assert fields[0].1 == data.amount && fields[1].1 == data.frequency && fields[2].1 == data.status;
    assert fields[3].1 == data.yearId && fields[4].1 == data.classId && fields[5].1 == data.feeTypeId;
  }

  lemma UpdateEffect(s: Store, id: Option<int>, data: StructureUpdate)
    requires Ledger(s) && UpdateStructureSpec(s, id, data).error.None?
    ensures id.Some? && StructureUpdated(s, UpdateStructureSpec(s, id, data).store, id.value, data)
  {
    hide DuesOk, PaymentsOk, ReferenceCheck, GivenNames, GivenValues, StructureFields, Matches, Assign, UpdateRows;
    var structs, fields := TableOf(s, STRUCTURES), StructureFields(data);
    var i := FoundByKey(structs, Num(id.value));
    UpdateById(structs, GivenNames(fields), GivenValues(fields), i);
    AssignedFields(structs[i], data, Num(id.value));
    hide HasFields, First, Filter;
    var u := Assign(structs[i], GivenNames(fields), GivenValues(fields) + [Num(id.value)]);
    forall j | 0 <= j < |structs| && HasId(structs[j], id.value) ensures j == i { OneRowPerId(structs, j, i); }
    var s' := UpdateStructureSpec(s, id, data).store;
    assert TableOf(s', STRUCTURES) == structs[i := u];
  }

  // ----- getStudentFinancialSummary

  /** The summary is about all dues of the student, of the year if it is not 0, in table order. */
  lemma SummaryIsAbout(s: Store, studentId: int, yearId: int) returns (at: seq<int>)
    ensures var rows, dues := SummaryRows(s, studentId, yearId), TableOf(s, "fee_dues");
      && |at| == |rows| && (forall k | 0 <= k < |at| :: 0 <= at[k] < |dues| && rows[k] == dues[at[k]])
      && (forall j, k | 0 <= j < k < |at| :: at[j] < at[k])
      && forall i | 0 <= i < |dues| ::
           i in at <==> SummedUp(dues[i], studentId, yearId)
  {
    var dues, where, params := TableOf(s, DUES), SummaryConds(yearId), SummaryParams(studentId, yearId);
    hide Matches, Filter;
    at := FilterSelects(dues, where, params);
    forall r ensures Matches(r, where, params) <==> SummedUp(r, studentId, yearId) {
      SummedUpIff(r, studentId, yearId);
    }
  }

  predicate SummedUp(d: Record, studentId: int, yearId: int) {
    Cell(d, "student_id") == Num(studentId) && (yearId != 0 ==> Cell(d, "academic_year_id") == Num(yearId))
  }

  lemma SummedUpIff(d: Record, studentId: int, yearId: int)
    ensures Matches(d, SummaryConds(yearId), SummaryParams(studentId, yearId)) <==> SummedUp(d, studentId, yearId)
  {
    if yearId != 0 {
      assert SummaryConds(yearId) == [Cmp("student_id", Eq), Cmp("academic_year_id", Eq)];
      assert SummaryParams(studentId, yearId) == [Num(studentId), Num(yearId)];
      MatchesTwo(d, "student_id", "academic_year_id", Num(studentId), Num(yearId));
    } else {
      assert SummaryConds(yearId) == [Cmp("student_id", Eq)] && SummaryParams(studentId, yearId) == [Num(studentId)];
      MatchesOne(d, "student_id", Num(studentId));
    }
  }
}
