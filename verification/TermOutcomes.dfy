/** When the term operations accept a request, why a creation is refused, and what an accepted one
    stores, said of the tables alone. */
module TermOutcomes {
  import opened Orders
  import opened Models
  import opened Sql
  import opened Terms

  ghost predicate HasId(r: Record, id: int) { Cell(r, "id") == Num(id) }

  ghost predicate InYear(t: Record, yearId: Value) { Cell(t, "academic_year_id") == yearId }

  /** Two texts, in this order or equal. */
  predicate NotAfter(a: Value, b: Value) { a.Str? && b.Str? && (a.s == b.s || StringLess(a.s, b.s)) }

  predicate IsBefore(a: Value, b: Value) { a.Str? && b.Str? && StringLess(a.s, b.s) }

  predicate NonEmpty(v: Value) { v.Str? && v.s != "" }

  /** A text with something in it that is no white space. */
  predicate IsName(v: Value) { v.Str? && exists i :: 0 <= i < |v.s| && !IsTrimmed(v.s[i]) }

  // ----- createTerm

  /** A stored year that spans the dates. */
  ghost predicate YearSpans(s: Store, yearId: int, start: Value, end: Value) {
    exists y :: y in TableOf(s, "academic_years") && HasId(y, yearId)
                && NotAfter(Cell(y, "start_date"), start) && NotAfter(end, Cell(y, "end_date"))
  }

  /** No term of the year runs into the dates. */
  ghost predicate YearIsClear(s: Store, yearId: int, start: Value, end: Value) {
    forall t | t in TableOf(s, "terms") && InYear(t, Num(yearId)) ::
      NotAfter(Cell(t, "end_date"), start) || NotAfter(end, Cell(t, "start_date"))
  }

  /** A named term with real dates in order, inside its year and clear of the year's other terms. */
  ghost predicate MaySchedule(s: Store, yearId: Option<int>, data: NewTerm) {
    && yearId.Some? && IsName(data.name) && NonEmpty(data.start) && NonEmpty(data.end)
    && IsBefore(data.start, data.end)
    && YearSpans(s, yearId.value, data.start, data.end) && YearIsClear(s, yearId.value, data.start, data.end)
  }

  ghost predicate YearStored(s: Store, yearId: int) {
    exists y :: y in TableOf(s, "academic_years") && HasId(y, yearId)
  }

  /** The order in which reasons to refuse a term are looked for. */
  function TermRank(e: Error): nat {
    match e
    case MissingYearId => 1
    case BadName => 2
    case BadStart => 3
    case BadEnd => 4
    case NoSuchYear => 5
    case EndsBeforeStart => 6
    case OutsideYear => 7
    case _ => 8
  }

  ghost predicate TermReason(s: Store, yearId: Option<int>, data: NewTerm, e: Error) {
    match e
    case MissingYearId => yearId.None?
    case BadName => !IsName(data.name)
    case BadStart => !NonEmpty(data.start)
    case BadEnd => !NonEmpty(data.end)
    case NoSuchYear => yearId.Some? && !YearStored(s, yearId.value)
    case EndsBeforeStart => NotAfter(data.end, data.start)
    case OutsideYear => yearId.Some? && !YearSpans(s, yearId.value, data.start, data.end)
    case Overlaps => yearId.Some? && !YearIsClear(s, yearId.value, data.start, data.end)
    case _ => false
  }

  ghost predicate FirstTermReason(s: Store, yearId: Option<int>, data: NewTerm, e: Error) {
    && TermReason(s, yearId, data, e)
    && forall f | TermRank(f) < TermRank(e) :: !TermReason(s, yearId, data, f)
  }

  lemma YearFound(s: Store, yearId: int)
    requires YearsOk(TableOf(s, YEARS))
    ensures var year := First(s, YEARS, BY_ID, [Num(yearId)]);
      && (year.Some? <==> YearStored(s, yearId))
      && (year.Some? ==> year.value in TableOf(s, YEARS) && HasId(year.value, yearId)
                         && Cell(year.value, "start_date").Str? && Cell(year.value, "end_date").Str?)
      && forall y | y in TableOf(s, YEARS) && HasId(y, yearId) :: year == Some(y)
  {
    var years := TableOf(s, YEARS);
    hide Matches, Filter;
    FilterStarts(years, BY_ID, [Num(yearId)]);
    forall r ensures Matches(r, BY_ID, [Num(yearId)]) <==> HasId(r, yearId) { MatchesById(r, yearId); }
    forall y | y in years && HasId(y, yearId) ensures First(s, YEARS, BY_ID, [Num(yearId)]) == Some(y) {
      var j :| 0 <= j < |years| && years[j] == y;
      YearById(s, j);
    }
  }

  lemma DatesCompare(a: Value, b: Value)
    requires a.Str? && b.Str?
    ensures ValueLeq(a, b) <==> NotAfter(a, b)
    ensures ValueLess(a, b) <==> IsBefore(a, b)
    ensures NotAfter(a, b) <==> !IsBefore(b, a)
  {
    TextTotal(b, a);
    TextTotal(a, b);
  }

  lemma ClearIff(s: Store, yearId: int, start: Value, end: Value)
    requires Calendar(s) && start.Str? && end.Str?
    ensures FindOverlap(s, Num(yearId), start, end, None).None? <==> YearIsClear(s, yearId, start, end)
  {
    hide FindOverlap, IdsOk, Apart, NotAfter, IsBefore, ValueLess;
    OverlapFoundIff(s, Num(yearId), start, end, None);
    var terms := TableOf(s, TERMS);
    forall t | t in terms && InYear(t, Num(yearId))
      ensures RunsInto(t, Num(yearId), start, end, None) <==>
              !(NotAfter(Cell(t, "end_date"), start) || NotAfter(end, Cell(t, "start_date")))
    {
      var k :| 0 <= k < |terms| && terms[k] == t;
      PlacedDates(t, TableOf(s, YEARS));
      DatesCompare(Cell(t, "end_date"), start);
      DatesCompare(end, Cell(t, "start_date"));
      DatesCompare(start, Cell(t, "end_date"));
      DatesCompare(Cell(t, "start_date"), end);
    }
  }

  lemma SpansIff(s: Store, yearId: int, start: Value, end: Value)
    requires YearsOk(TableOf(s, YEARS)) && start.Str? && end.Str? && YearStored(s, yearId)
    ensures var year := First(s, YEARS, BY_ID, [Num(yearId)]);
      year.Some? && (YearSpans(s, yearId, start, end) <==>
        !ValueLess(start, Cell(year.value, "start_date")) && !ValueLess(Cell(year.value, "end_date"), end))
  {
    hide First, IdsOk, NotAfter, IsBefore, ValueLess;
    YearFound(s, yearId);
    var y := First(s, YEARS, BY_ID, [Num(yearId)]).value;
    DatesCompare(Cell(y, "start_date"), start);
    DatesCompare(start, Cell(y, "start_date"));
    DatesCompare(end, Cell(y, "end_date"));
    DatesCompare(Cell(y, "end_date"), end);
  }

  lemma SpansStored(s: Store, yearId: int, start: Value, end: Value)
    ensures YearSpans(s, yearId, start, end) ==> YearStored(s, yearId)
  {
  }

  /** The reasons, as the checks see them. */
  lemma TermReasons(s: Store, yearId: int, data: NewTerm)
    requires Calendar(s) && NonEmpty(data.start) && NonEmpty(data.end)
    ensures var year := First(s, YEARS, BY_ID, [Num(yearId)]); var id := Some(yearId);
      && (TermReason(s, id, data, NoSuchYear) <==> year.None?)
      && (TermReason(s, id, data, EndsBeforeStart) <==> ValueLeq(data.end, data.start))
      && (year.Some? ==>
            (TermReason(s, id, data, OutsideYear) <==>
              || ValueLess(data.start, Cell(year.value, "start_date"))
              || ValueLess(Cell(year.value, "end_date"), data.end)))
      && (TermReason(s, id, data, Overlaps) <==>
            FindOverlap(s, Num(yearId), data.start, data.end, None).Some?)
  {
    hide First, FindOverlap, YearSpans, YearIsClear, YearStored, ValueLess, ValueLeq, TermsOk, NotAfter;
    YearFound(s, yearId);
    DatesCompare(data.end, data.start);
    ClearIff(s, yearId, data.start, data.end);
    if YearStored(s, yearId) { SpansIff(s, yearId, data.start, data.end); }
  }

  lemma PlainTermReasons(s: Store, yearId: Option<int>, data: NewTerm)
    ensures TermReason(s, yearId, data, MissingYearId) <==> yearId.None?
    ensures TermReason(s, yearId, data, BadName) <==> !data.name.Str? || Blank(data.name.s)
    ensures TermReason(s, yearId, data, BadStart) <==> !Text(data.start)
    ensures TermReason(s, yearId, data, BadEnd) <==> !Text(data.end)
    ensures forall e | TermReason(s, yearId, data, e) :: e.MissingYearId? || e.BadName? || e.BadStart? || e.BadEnd?
              || e.NoSuchYear? || e.EndsBeforeStart? || e.OutsideYear? || e.Overlaps?
  {
    hide YearSpans, YearIsClear, YearStored, IsTrimmed;
  }

  /** The checks of `createTerm` refuse for the first reason that applies. */
  lemma TermIsRefused(s: Store, yearId: Option<int>, data: NewTerm)
    requires Calendar(s) && CreateCheck(s, yearId, data).Some?
    ensures FirstTermReason(s, yearId, data, CreateCheck(s, yearId, data).value)
  {
    hide First, FindOverlap, TermReason, Calendar, ValueLess, ValueLeq, Blank, Cell;
    PlainTermReasons(s, yearId, data);
    if yearId.Some? && NonEmpty(data.start) && NonEmpty(data.end) { TermReasons(s, yearId.value, data); }
  }

  lemma TermPasses(s: Store, yearId: Option<int>, data: NewTerm)
    requires Calendar(s) && CreateCheck(s, yearId, data).None?
    ensures forall e :: !TermReason(s, yearId, data, e)
  {
    hide First, FindOverlap, TermReason, Calendar, ValueLess, ValueLeq, Blank, Cell;
    PlainTermReasons(s, yearId, data);
    TermReasons(s, yearId.value, data);
  }

  lemma NoTermReasonIff(s: Store, yearId: Option<int>, data: NewTerm)
    ensures (forall e :: !TermReason(s, yearId, data, e)) <==> MaySchedule(s, yearId, data)
  {
    if yearId.Some? { SpansStored(s, yearId.value, data.start, data.end); }
    hide YearSpans, YearIsClear, YearStored, IsName;
    if data.start.Str? && data.end.Str? { DatesCompare(data.end, data.start); }
    if forall e :: !TermReason(s, yearId, data, e) {
      assert !TermReason(s, yearId, data, MissingYearId) && !TermReason(s, yearId, data, BadName);
      assert !TermReason(s, yearId, data, BadStart) && !TermReason(s, yearId, data, BadEnd);
      assert !TermReason(s, yearId, data, EndsBeforeStart) && !TermReason(s, yearId, data, OutsideYear);
      assert !TermReason(s, yearId, data, Overlaps);
    }
  }

  /** `t` is the name without the white space around it. */
  ghost predicate IsTrimOf(name: string, t: string) {
    && (t == "" || (!IsTrimmed(t[0]) && !IsTrimmed(t[|t| - 1])))
    && exists a, b :: Blank(a) && Blank(b) && name == a + t + b
  }

  lemma TrimStep(name: string)
    ensures name != "" && IsTrimmed(name[0]) ==> Trim(name) == Trim(name[1..])
    ensures name != "" && !IsTrimmed(name[0]) && IsTrimmed(name[|name| - 1]) ==>
      Trim(name) == Trim(name[..|name| - 1])
    ensures name == "" || (!IsTrimmed(name[0]) && !IsTrimmed(name[|name| - 1])) ==> Trim(name) == name
  {
    hide IsTrimmed;
  }

  lemma Rebracket(c: string, a: string, t: string, b: string)
    ensures c + (a + t + b) == (c + a) + t + b && (a + t + b) + c == a + t + (b + c)
  {
  }

  lemma BlankConcat(a: string, b: string)
    requires Blank(a) && Blank(b)
    ensures Blank(a + b)
  {
    hide IsTrimmed;
  }

  lemma {:induction false} TrimParts(name: string) returns (a: string, b: string)
    ensures Blank(a) && Blank(b) && name == a + Trim(name) + b
    ensures Trim(name) == "" || (!IsTrimmed(Trim(name)[0]) && !IsTrimmed(Trim(name)[|Trim(name)| - 1]))
  {
    TrimStep(name);
    hide IsTrimmed, Trim, Blank;
    a, b := "", "";
    NothingIsBlank();
    if name != "" && IsTrimmed(name[0]) {
      var c := name[..1];
      OneIsBlank(c);
      assert name == c + name[1..];
      a, b := TrimParts(name[1..]);
      BlankConcat(c, a);
      Rebracket(c, a, Trim(name), b);
      a := c + a;
    } else if name != "" && IsTrimmed(name[|name| - 1]) {
      var n := |name| - 1;
      var c := name[n..];
      OneIsBlank(c);
      assert name == name[..n] + c;
      a, b := TrimParts(name[..n]);
      BlankConcat(b, c);
      Rebracket(c, a, Trim(name), b);
      b := b + c;
    }
  }

  lemma NothingIsBlank()
    ensures Blank("")
  {
  }

  lemma OneIsBlank(c: string)
    requires |c| == 1 && IsTrimmed(c[0])
    ensures Blank(c)
  {
  }

  lemma TrimMeaning(name: string)
    ensures IsTrimOf(name, Trim(name))
  {
    hide IsTrimmed, Trim;
    var a, b := TrimParts(name);
  }

  /** What an accepted term stores, and nothing else. */
  ghost predicate TermStored(s: Store, s': Store, yearId: Option<int>, data: NewTerm) {
    var rows, rows' := TableOf(s, "terms"), TableOf(s', "terms");
    && |rows'| == |rows| + 1 && rows'[..|rows|] == rows && yearId.Some? && data.name.Str?
    && IsTermRow(rows'[|rows|], yearId.value, data, rows)
    && forall t | t != "terms" :: TableOf(s', t) == TableOf(s, t)
  }

  ghost predicate IsTermRow(t: Record, yearId: int, data: NewTerm, rows: Table)
    requires data.name.Str?
  {
    && InYear(t, Num(yearId)) && Cell(t, "start_date") == data.start && Cell(t, "end_date") == data.end
    && Cell(t, "name").Str? && IsTrimOf(data.name.s, Cell(t, "name").s)
    && Cell(t, "status") == (if data.status in {Undefined, Null, Num(0), Str("")} then Str("active") else data.status)
    && Cell(t, "id").Num? && forall q | q in rows :: Cell(q, "id").Num? && Cell(q, "id").n < Cell(t, "id").n
  }

  lemma TermRowCells(s: Store, yearId: int, data: NewTerm)
    requires data.name.Str? && IdsOk(TableOf(s, TERMS))
    ensures IsTermRow(Inserted(s, TERMS, TERM_COLS, NewTermRow(yearId, data)), yearId, data, TableOf(s, TERMS))
  {
    hide NewRecord, Trim, IsTrimOf;
    var row, rows := NewTermRow(yearId, data), TableOf(s, TERMS);
    var t := Inserted(s, TERMS, TERM_COLS, row);
    TrimMeaning(data.name.s);
    NextIdFresh(rows);
    assert Cell(t, ID) == Num(NextId(rows));
    forall q | q in rows ensures Cell(q, ID).Num? && Cell(q, ID).n < NextId(rows) {
      var j :| 0 <= j < |rows| && rows[j] == q;
    }
    forall k | 0 <= k < |TERM_COLS| ensures Cell(t, TERM_COLS[k]) == Param(row, k) {
      InsertedCell(s, TERMS, TERM_COLS, row, k);
    }
    hide Inserted, NextId;
    assert TERM_COLS[0] == "academic_year_id" && TERM_COLS[1] == "name" && TERM_COLS[2] == "start_date";
    assert TERM_COLS[3] == "end_date" && TERM_COLS[4] == "status";
  }

  /** `createTerm` succeeds exactly when the term may be scheduled, and otherwise names the first reason. */
  lemma TermAcceptedIff(s: Store, yearId: Option<int>, data: NewTerm)
    requires Calendar(s)
    ensures var o := CreateTermSpec(s, yearId, data);
      && (o.error.None? <==> MaySchedule(s, yearId, data))
      && (o.error.Some? ==> FirstTermReason(s, yearId, data, o.error.value) && o.store == s)
      && (o.error.None? ==> TermStored(s, o.store, yearId, data))
  {
    hide Calendar, MaySchedule, TermReason, NewTermRow, ExecStore, IsTermRow, Inserted, Blank;
    NoTermReasonIff(s, yearId, data);
    if CreateCheck(s, yearId, data).Some? {
      TermIsRefused(s, yearId, data);
    } else {
      hide CreateCheck;
      TermPasses(s, yearId, data);
      PassedArguments(s, yearId, data);
      CalendarIds(s);
      TermRowCells(s, yearId.value, data);
      InsertedTerm(s, NewTermRow(yearId.value, data));
    }
  }

  lemma PassedArguments(s: Store, yearId: Option<int>, data: NewTerm)
    requires CreateCheck(s, yearId, data).None?
    ensures yearId.Some? && data.name.Str?
  {
  }

  lemma CalendarIds(s: Store)
    requires Calendar(s)
    ensures IdsOk(TableOf(s, TERMS)) && IdsOk(TableOf(s, YEARS))
  {
  }

  lemma InsertedTerm(s: Store, row: seq<Value>)
    ensures var s' := ExecStore(s, Insert(TERMS, TERM_COLS), row);
      && TableOf(s', TERMS) == TableOf(s, TERMS) + [Inserted(s, TERMS, TERM_COLS, row)]
      && forall t | t != TERMS :: TableOf(s', t) == TableOf(s, t)
  {
    hide Inserted;
  }

  // ----- updateTerm

  /** `v` is the last value that the request has under the key. */
  ghost predicate LastUnder(data: TermUpdate, key: string, v: Value) {
    exists k :: 0 <= k < |data| && data[k] == (key, v) && forall j | k < j < |data| :: data[j].0 != key
  }

  lemma {:induction false} LookupMeaning(data: TermUpdate, key: string)
    ensures Lookup(data, key).None? <==> forall k | 0 <= k < |data| :: data[k].0 != key
    ensures forall v :: LastUnder(data, key, v) <==> Lookup(data, key) == Some(v)
  {
    if data != [] {
      var n := |data| - 1;
      var front := data[..n];
      LookupMeaning(front, key);
      assert forall k | 0 <= k < n :: front[k] == data[k];
      forall v ensures LastUnder(data, key, v) <==> Lookup(data, key) == Some(v) {
        if data[n].0 != key && LastUnder(front, key, v) {
          var k :| 0 <= k < n && front[k] == (key, v) && forall j | k < j < n :: front[j].0 != key;
          assert data[k] == (key, v);
        }
        if data[n].0 == key && data[n].1 == v { assert data[n] == (key, v); }
      }
    }
  }

  /** What the request makes of a column that it may leave out. */
  ghost predicate NewValue(t: Record, data: TermUpdate, col: string, v: Value) {
    || (v != Undefined && LastUnder(data, col, v))
    || (v == Cell(t, col) && forall w | LastUnder(data, col, w) :: w == Undefined)
  }

  /** Unless one of them is missing: in order, and inside the year of the term. */
  ghost predicate DatesInYear(s: Store, t: Record, start: Value, end: Value) {
    start !in {Undefined, Null, Num(0), Str("")} && end !in {Undefined, Null, Num(0), Str("")} ==>
      && !ValueLeq(end, start)
      && forall y | y in TableOf(s, "academic_years") && Cell(y, "id") == Cell(t, "academic_year_id") ::
           !ValueLess(start, Cell(y, "start_date")) && !ValueLess(Cell(y, "end_date"), end)
  }

  ghost predicate ClearOfOthers(s: Store, t: Record, start: Value, end: Value) {
    forall x | x in TableOf(s, "terms") && InYear(x, Cell(t, "academic_year_id")) && Cell(x, "id") != Cell(t, "id") ::
      !(ValueLess(Cell(x, "start_date"), end) && ValueLess(start, Cell(x, "end_date")))
  }

  /** A stored term, a real name and a known status if they are given, dates that fit, something to
      write, and a row that the written command hits. */
  ghost predicate MayChange(s: Store, id: Option<int>, data: TermUpdate) {
    && id.Some?
    && (forall v | LastUnder(data, "name", v) && v != Undefined :: IsName(v))
    && (forall v | LastUnder(data, "status", v) && v != Undefined :: v == Str("active") || v == Str("inactive"))
    && (exists k :: 0 <= k < |data| && data[k].0 != "id")
    && (exists t, start, end :: t in TableOf(s, "terms") && HasId(t, id.value)
          && NewValue(t, data, "start_date", start) && NewValue(t, data, "end_date", end)
          && DatesInYear(s, t, start, end) && ClearOfOthers(s, t, start, end))
    && (exists r :: r in TableOf(s, "terms") && Cell(r, "id") == Target(data, id.value))
  }

  lemma NewDates(t: Record, data: TermUpdate)
    ensures forall v :: NewValue(t, data, "start_date", v) <==> v == NewStart(t, data)
    ensures forall v :: NewValue(t, data, "end_date", v) <==> v == NewEnd(t, data)
  {
    hide Lookup, LastUnder;
    LookupMeaning(data, "start_date");
    LookupMeaning(data, "end_date");
  }

  lemma TermFound(s: Store, id: int)
    requires Calendar(s)
    ensures var found := First(s, TERMS, BY_ID, [Num(id)]);
      && (found.None? <==> forall t | t in TableOf(s, TERMS) :: !HasId(t, id))
      && (forall t | t in TableOf(s, TERMS) && HasId(t, id) :: found == Some(t))
      && (found.Some? ==> found.value in TableOf(s, TERMS) && HasId(found.value, id))
  {
    var terms := TableOf(s, TERMS);
    hide Matches, Filter, TermPlaced, Apart, YearsOk;
    FilterStarts(terms, BY_ID, [Num(id)]);
    forall r ensures Matches(r, BY_ID, [Num(id)]) <==> HasId(r, id) { MatchesById(r, id); }
    forall t | t in terms && HasId(t, id) ensures First(s, TERMS, BY_ID, [Num(id)]) == Some(t) {
      var j :| 0 <= j < |terms| && terms[j] == t;
      StoredRow(terms, j);
    }
  }

  lemma YearOf(s: Store, t: Record)
    requires Calendar(s) && t in TableOf(s, TERMS)
    ensures var year := First(s, YEARS, BY_ID, [Cell(t, "academic_year_id")]);
      && year.Some? && year.value in TableOf(s, YEARS) && Cell(year.value, "id") == Cell(t, "academic_year_id")
      && forall y | y in TableOf(s, YEARS) && Cell(y, "id") == Cell(t, "academic_year_id") :: year == Some(y)
  {
    hide Filter, Apart, TermPlaced;
    var terms, years := TableOf(s, TERMS), TableOf(s, YEARS);
    var i :| 0 <= i < |terms| && terms[i] == t;
    YearOfTerm(s, i);
    var j := FoundByKey(years, Cell(t, "academic_year_id"));
    forall y | y in years && Cell(y, "id") == Cell(t, "academic_year_id")
      ensures First(s, YEARS, BY_ID, [Cell(t, "academic_year_id")]) == Some(y)
    {
      var k :| 0 <= k < |years| && years[k] == y;
      YearById(s, k);
    }
  }

  lemma DateCheckMeaning(s: Store, id: int, t: Record, data: TermUpdate)
    requires Calendar(s) && t in TableOf(s, TERMS) && HasId(t, id)
    ensures var start, end := NewStart(t, data), NewEnd(t, data);
      DateCheck(s, id, t, data).None? <==>
        DatesInYear(s, t, start, end) && ClearOfOthers(s, t, start, end) && UpdateValues(data) != []
  {
    hide Calendar, First, FindOverlap, ValueLess, ValueLeq, NewStart, NewEnd, UpdateValues;
    YearOf(s, t);
    OverlapFoundIff(s, Cell(t, "academic_year_id"), NewStart(t, data), NewEnd(t, data), Some(id));
  }

  lemma {:induction false} WritesIff(data: TermUpdate)
    ensures UpdateValues(data) == [] <==> forall k | 0 <= k < |data| :: data[k].0 == ID
  {
    if data != [] {
      hide Kept;
      var n := |data| - 1;
      WritesIff(data[..n]);
      assert forall k | 0 <= k < n :: data[..n][k] == data[k];
    }
  }

  lemma HitIff(s: Store, data: TermUpdate, id: int)
    ensures ExecResult(s, Update(TERMS, UpdateSets(data), BY_ID), UpdateParams(data, id)).affectedRows == 0 <==>
            forall r | r in TableOf(s, TERMS) :: Cell(r, "id") != Target(data, id)
  {
    var terms := TableOf(s, TERMS);
    FilterTarget(terms, data, id);
    FilterStarts(terms, BY_ID, [Target(data, id)]);
    hide Matches, Filter, UpdateSets, UpdateParams, Target;
    forall r ensures Matches(r, BY_ID, [Target(data, id)]) <==> Cell(r, "id") == Target(data, id) {
      MatchesOne(r, "id", Target(data, id));
    }
  }

  /** `updateTerm` succeeds exactly when the request may be carried out, and changes nothing otherwise. */
  lemma ChangeAcceptedIff(s: Store, id: Option<int>, data: TermUpdate)
    requires Calendar(s)
    ensures var o := UpdateTermSpec(s, id, data);
      (o.error.None? <==> MayChange(s, id, data)) && (o.error.Some? ==> o.store == s)
  {
    hide Calendar, ExecResult, ExecStore, DateCheck, UpdateValues, Lookup, UpdateSets, UpdateParams, Target, First,
      LastUnder, IsTrimmed, DatesInYear, ClearOfOthers, NewValue, HasId;
    LookupMeaning(data, "name");
    LookupMeaning(data, "status");
    WritesIff(data);
    if id.Some? {
      TermFound(s, id.value);
      HitIff(s, data, id.value);
      var found := First(s, TERMS, BY_ID, [Num(id.value)]);
      if found.Some? {
        NewDates(found.value, data);
        DateCheckMeaning(s, id.value, found.value, data);
      }
    }
  }

  /** In `u` every key of the request but `id` is written, the name without white space around it,
      and every other column is as in `r`. */
  ghost predicate WrittenFrom(r: Record, u: Record, data: TermUpdate) {
    forall col :: WrittenColumn(r, u, data, col)
  }

  ghost predicate WrittenColumn(r: Record, u: Record, data: TermUpdate, col: string) {
    && (col == "id" || (forall v :: !LastUnder(data, col, v)) ==> Cell(u, col) == Cell(r, col))
    && forall v | col != "id" && LastUnder(data, col, v) ::
         if col == "name" && v.Str? then Cell(u, col).Str? && IsTrimOf(v.s, Cell(u, col).s) else Cell(u, col) == v
  }

  ghost predicate TermChanged(s: Store, s': Store, id: int, data: TermUpdate) {
    var rows, rows' := TableOf(s, "terms"), TableOf(s', "terms");
    && |rows'| == |rows|
    && (forall j | 0 <= j < |rows| ::
          if HasId(rows[j], id) then WrittenFrom(rows[j], rows'[j], data) else rows'[j] == rows[j])
    && forall t | t != "terms" :: TableOf(s', t) == TableOf(s, t)
  }

  lemma PlainLeft(r: Record, data: TermUpdate, id: int)
    requires Plain(data)
    ensures Target(data, id) == Num(id) && WrittenFrom(r, Left(r, data, id), data)
  {
    hide Plain, UpdateSets, UpdateValues, Assign, LastUnder, Lookup, IsTrimOf, Trim;
    PlainSets(data);
    forall col ensures WrittenColumn(r, Left(r, data, id), data, col) {
      PlainCell(r, data, [Num(id)], col);
      LookupMeaning(data, col);
      var v := Lookup(data, col);
      if v.Some? && v.value.Str? { TrimMeaning(v.value.s); }
    }
  }

  /** What an accepted request in lower case, with real dates and no move to another year, writes:
      its keys in the row with the id, and nothing else. */
  lemma PlainChangeEffect(s: Store, id: Option<int>, data: TermUpdate)
    requires Calendar(s) && Plain(data) && UpdateTermSpec(s, id, data).error.None?
    ensures id.Some? && TermChanged(s, UpdateTermSpec(s, id, data).store, id.value, data)
  {
    hide Calendar, Plain, UpdateTermSpec, UpdateCheck, Left, WrittenFrom, Target, Hit;
    NotRefused(s, id, data);
    var i := UpdateLands(s, id, data);
    var terms, s' := TableOf(s, TERMS), UpdateTermSpec(s, id, data).store;
    CalendarIds(s);
    PlainHit(s, id.value, data);
    PlainLeft(terms[i], data, id.value);
    forall j | 0 <= j < |terms| ensures HasId(terms[j], id.value) <==> j == i { OnlyRow(terms, i, j, id.value); }
    assert TableOf(s', TERMS) == terms[i := Left(terms[i], data, id.value)];
  }

  lemma OnlyRow(rows: Table, i: nat, j: nat, id: int)
    requires IdsOk(rows) && i < |rows| && j < |rows| && HasId(rows[i], id)
    ensures HasId(rows[j], id) <==> j == i
  {
  }

  lemma NotRefused(s: Store, id: Option<int>, data: TermUpdate)
    requires UpdateTermSpec(s, id, data).error.None?
    ensures id.Some? && UpdateCheck(s, id, data).None?
    ensures ExecResult(s, Update(TERMS, UpdateSets(data), BY_ID), UpdateParams(data, id.value)).affectedRows != 0
  {
    hide DateCheck, ExecResult, ExecStore, UpdateSets, UpdateParams, First;
  }

  /** The row that a plain request hits is the one it names. */
  lemma PlainHit(s: Store, id: int, data: TermUpdate)
    requires Calendar(s) && Plain(data)
    requires ExecResult(s, Update(TERMS, UpdateSets(data), BY_ID), UpdateParams(data, id)).affectedRows != 0
    ensures Hit(s, data, id).Some? && HasId(Hit(s, data, id).value, id)
  {
    hide Plain, UpdateSets, UpdateParams, ExecResult, Calendar, First, Target;
    PlainLeft(map[], data, id);
    HitIff(s, data, id);
    TermFound(s, id);
  }
}
