/** The term operations of the academic-structure service against live rows. */
module TermServices {
  import opened Models
  import opened Sql
  import opened MemoryDatabase
  import opened Terms
  import opened TermOutcomes

  class TermService {
    const db: Database

    constructor (db: Database)
      ensures this.db == db
    {
      this.db := db;
    }

    /** `findOverlappingTerm` */
    method FindOverlappingTerm(yearId: Value, start: Value, end: Value, exclude: Option<int>)
      returns (found: Option<Row>)
      requires db.Valid() && db.connected
      ensures match FindOverlap(db.View(), yearId, start, end, exclude)
              case None => found.None?
              case Some(t) => found.Some? && found.value.cells == t && found.value in RowsOf(db.storage)
    {
      hide First, Filter, Database.Valid, Cells, ViewOf;
      var conds, params := OverlapConds(false), [yearId, end, start];
      if exclude.Some? {
        conds, params := OverlapConds(true), params + [Num(exclude.value)];
      }
      assert params == OverlapParams(yearId, start, end, exclude);
      var down;
      down, found := db.FindFirst(TERMS, conds, params);
    }

    method CheckCreate(yearId: Option<int>, data: NewTerm) returns (error: Option<Error>)
      requires db.Valid()
      ensures db.connected ==> error == CreateCheck(db.View(), yearId, data)
      ensures !db.connected ==> error.Some?
    {
      hide First, Filter, Database.Valid, Cells, ViewOf, FindOverlap, ValueLeq, ValueLess;
      ghost var s := db.View();
      if yearId.None? { return Some(MissingYearId); }
      if !data.name.Str? || Blank(data.name.s) { return Some(BadName); }
      if !Text(data.start) { return Some(BadStart); }
      if !Text(data.end) { return Some(BadEnd); }
      var down, year := db.FindFirst(YEARS, BY_ID, [Num(yearId.value)]);
      if down { return Some(DatabaseDown); }
      if year.None? { return Some(NoSuchYear); }
      if ValueLeq(data.end, data.start) { return Some(EndsBeforeStart); }
      if ValueLess(data.start, Cell(year.value.cells, "start_date"))
        || ValueLess(Cell(year.value.cells, "end_date"), data.end)
      {
        return Some(OutsideYear);
      }
      var overlapping := FindOverlappingTerm(Num(yearId.value), data.start, data.end, None);
      assert db.View() == s;
      error := if overlapping.Some? then Some(Overlaps) else None;
    }

    /** `createTerm`; the answer is the stored record. */
    method CreateTerm(yearId: Option<int>, data: NewTerm) returns (error: Option<Error>, saved: Option<Record>)
      requires db.Valid()
      modifies db, RowsOf(db.storage)
      ensures db.Valid() && db.connected == old(db.connected) && db.inTransaction == old(db.inTransaction)
      ensures error.Some? ==> db.View() == old(db.View())
      ensures !db.connected ==> error.Some?
      ensures db.connected ==> Outcome(db.View(), error) == CreateTermSpec(old(db.View()), yearId, data)
      ensures error.None? ==>
        && yearId.Some? && data.name.Str?
        && saved == Some(Inserted(old(db.View()), TERMS, TERM_COLS, NewTermRow(yearId.value, data)))
      ensures Calendar(old(db.View())) ==> Calendar(db.View())
      ensures Calendar(old(db.View())) && db.connected ==>
        && (error.None? <==> MaySchedule(old(db.View()), yearId, data))
        && (error.Some? ==> FirstTermReason(old(db.View()), yearId, data, error.value))
      ensures Calendar(old(db.View())) && error.None? ==> TermStored(old(db.View()), db.View(), yearId, data)
      ensures error.None? ==> var rows := TableOf(db.View(), TERMS); rows != [] && saved == Some(rows[|rows| - 1])
    {
      hide CreateCheck, Calendar, ViewOf, AgreeOutside, ExecStore, NewTermRow, Database.Valid, NewRecord, MaySchedule,
        FirstTermReason, TermStored, CreateTermSpec, TableOf;
      saved := None;
      ghost var s := db.View();
      CreateTermKeeps(s, yearId, data);
      CreateTermMeans(s, yearId, data);
      CreateCheckArguments(s, yearId, data);
      error := CheckCreate(yearId, data);
      assert db.View() == s;
      if error.Some? { return; }
      var row := NewTermRow(yearId.value, data);
      var r := db.Query(Insert(TERMS, TERM_COLS), row);
      saved := Some(NewRecord(TERM_COLS, row)[ID := Num(r.insertId.value)]);
    }

    method CheckUpdate(id: Option<int>, data: TermUpdate) returns (error: Option<Error>)
      requires db.Valid()
      ensures db.connected ==> error == UpdateCheck(db.View(), id, data)
      ensures !db.connected ==> error.Some?
    {
      hide First, Filter, Database.Valid, Cells, ViewOf, FindOverlap, ValueLeq, ValueLess, Lookup, Blank, DateCheck;
      ghost var s := db.View();
      if id.None? { return Some(MissingTermId); }
      var down, existing := db.FindFirst(TERMS, BY_ID, [Num(id.value)]);
      if down { return Some(DatabaseDown); }
      if existing.None? { return Some(NoSuchTerm); }
      var cells := existing.value.cells;
      var name, status := Lookup(data, "name"), Lookup(data, "status");
      if Given(name) && (!name.value.Str? || Blank(name.value.s)) { return Some(BadName); }
      if Given(status) && status.value != Str("active") && status.value != Str("inactive") {
        return Some(BadStatus);
      }
      error := CheckDates(id.value, cells, data);
      assert db.View() == s;
    }

    /** The date checks of `updateTerm`. */
    method CheckDates(id: int, cells: Record, data: TermUpdate) returns (error: Option<Error>)
      requires db.Valid() && db.connected
      ensures error == DateCheck(db.View(), id, cells, data)
    {
      hide First, Filter, Database.Valid, Cells, ViewOf, FindOverlap, ValueLeq, ValueLess, UpdateValues, Lookup;
      ghost var s := db.View();
      var start, end := NewStart(cells, data), NewEnd(cells, data);
      if Truthy(end) && Truthy(start) && ValueLeq(end, start) { return Some(EndsBeforeStart); }
      var yearId := Cell(cells, "academic_year_id");
      var down, year := db.FindFirst(YEARS, BY_ID, [yearId]);
      assert db.View() == s;
      if year.Some? && Truthy(start) && Truthy(end) {
        if ValueLess(start, Cell(year.value.cells, "start_date"))
          || ValueLess(Cell(year.value.cells, "end_date"), end)
        {
          return Some(OutsideYear);
        }
      }
      var overlapping := FindOverlappingTerm(yearId, start, end, Some(id));
      assert db.View() == s;
      if overlapping.Some? { return Some(Overlaps); }
      error := if UpdateValues(data) == [] then Some(NothingToUpdate) else None;
    }

    /** The repository's `updateTerm`, which throws when no row was hit. */
    method WriteTerm(id: int, data: TermUpdate) returns (ok: bool)
      requires db.Valid() && db.connected && UpdateCheck(db.View(), Some(id), data).None?
      modifies db, RowsOf(db.storage)
      ensures db.Valid() && db.connected && db.inTransaction == old(db.inTransaction)
      ensures Outcome(db.View(), if ok then None else Some(NotUpdated))
        == UpdateTermSpec(old(db.View()), Some(id), data)
      ensures !ok ==> db.View() == old(db.View())
    {
      hide ViewOf, AgreeOutside, ExecStore, ExecResult, UpdateSets, UpdateParams, Database.Valid, UpdateCheck;
      NothingHit(db.View(), TERMS, UpdateSets(data), BY_ID, UpdateParams(data, id));
      var r := db.Query(Update(TERMS, UpdateSets(data), BY_ID), UpdateParams(data, id));
      ok := r.affectedRows != 0;
    }

    /** The end of `updateTerm`: the row is written, then looked up. */
    method WriteAndFind(id: int, data: TermUpdate) returns (error: Option<Error>, term: Option<Row>)
      requires db.Valid() && db.connected && UpdateCheck(db.View(), Some(id), data).None?
      modifies db, RowsOf(db.storage)
      ensures db.Valid() && db.connected && db.inTransaction == old(db.inTransaction)
      ensures Outcome(db.View(), error) == UpdateTermSpec(old(db.View()), Some(id), data)
      ensures error.Some? ==> db.View() == old(db.View())
      ensures error.None? ==> match First(db.View(), TERMS, BY_ID, [Num(id)])
                              case None => term.None?
                              case Some(r) => term.Some? && term.value.cells == r && term.value in RowsOf(db.storage)
    {
      hide ViewOf, Database.Valid, UpdateCheck, UpdateTermSpec, First, RowsOf;
      var ok := WriteTerm(id, data);
      if !ok { return Some(NotUpdated), None; }
      var down;
      down, term := db.FindFirst(TERMS, BY_ID, [Num(id)]);
      error := None;
    }

    /** `updateTerm`; the answer is the row found afterwards. */
    method UpdateTerm(id: Option<int>, data: TermUpdate) returns (error: Option<Error>, term: Option<Row>)
      requires db.Valid()
      modifies db, RowsOf(db.storage)
      ensures db.Valid() && db.connected == old(db.connected) && db.inTransaction == old(db.inTransaction)
      ensures error.Some? ==> db.View() == old(db.View())
      ensures !db.connected ==> error.Some?
      ensures db.connected ==> Outcome(db.View(), error) == UpdateTermSpec(old(db.View()), id, data)
      ensures error.None? ==> id.Some? && match First(db.View(), TERMS, BY_ID, [Num(id.value)])
                                          case None => term.None?
                                          case Some(r) => term.Some? && term.value.cells == r
                                                          && term.value in RowsOf(db.storage)
      ensures Calendar(old(db.View())) && Harmless(old(db.View()), Change(id, data)) ==> Calendar(db.View())
      ensures Calendar(old(db.View())) && db.connected ==> (error.None? <==> MayChange(old(db.View()), id, data))
      ensures Calendar(old(db.View())) && Plain(data) && error.None? ==>
        id.Some? && TermChanged(old(db.View()), db.View(), id.value, data)
    {
      hide UpdateCheck, Calendar, ViewOf, AgreeOutside, ExecStore, ExecResult, UpdateSets, UpdateParams, First,
        Database.Valid, Harmless, RowsOf, Cells, UpdateTermSpec, MayChange, TermChanged, Plain;
      term := None;
      ghost var s := db.View();
      UpdateTermKeeps(s, id, data);
      UpdateTermMeans(s, id, data);
      UpdateRefused(s, id, data);
      error := CheckUpdate(id, data);
      assert db.View() == s;
      if error.Some? { return; }
      error, term := WriteAndFind(id.value, data);
    }
  }

  lemma CreateTermKeeps(s: Store, yearId: Option<int>, data: NewTerm)
    ensures Calendar(s) ==> Calendar(CreateTermSpec(s, yearId, data).store)
  {
    hide Calendar, CreateTermSpec;
    if Calendar(s) { CreateKeepsCalendar(s, yearId, data); }
  }

  lemma UpdateTermKeeps(s: Store, id: Option<int>, data: TermUpdate)
    ensures Calendar(s) && Harmless(s, Change(id, data)) ==> Calendar(UpdateTermSpec(s, id, data).store)
  {
    hide Calendar, UpdateTermSpec, Harmless;
    if Calendar(s) { CallKeepsCalendarIff(s, Change(id, data)); }
  }

  lemma CreateTermMeans(s: Store, yearId: Option<int>, data: NewTerm)
    ensures var o := CreateTermSpec(s, yearId, data);
      Calendar(s) ==>
        && (o.error.None? <==> MaySchedule(s, yearId, data))
        && (o.error.Some? ==> FirstTermReason(s, yearId, data, o.error.value))
        && (o.error.None? ==> TermStored(s, o.store, yearId, data))
    ensures var o, e := CreateTermSpec(s, yearId, data), CreateCheck(s, yearId, data);
      if e.Some? then o == Outcome(s, e) else
        && yearId.Some? && data.name.Str?
        && var row := NewTermRow(yearId.value, data);
        && o == Outcome(ExecStore(s, Insert(TERMS, TERM_COLS), row), None)
        && TableOf(o.store, TERMS) == TableOf(s, TERMS) + [Inserted(s, TERMS, TERM_COLS, row)]
  {
    CreateCheckArguments(s, yearId, data);
    if CreateCheck(s, yearId, data).None? { InsertedTerm(s, NewTermRow(yearId.value, data)); }

    hide Calendar, CreateCheck, ExecStore, Inserted, NewTermRow, MaySchedule, FirstTermReason, TermStored;
    if Calendar(s) { TermAcceptedIff(s, yearId, data); }
  }

  lemma UpdateTermMeans(s: Store, id: Option<int>, data: TermUpdate)
    ensures var o := UpdateTermSpec(s, id, data);
      Calendar(s) ==>
        && (o.error.None? <==> MayChange(s, id, data))
        && (Plain(data) && o.error.None? ==> id.Some? && TermChanged(s, o.store, id.value, data))
  {
    hide Calendar, UpdateTermSpec, MayChange, TermChanged, Plain;
    if Calendar(s) {
      ChangeAcceptedIff(s, id, data);
      if Plain(data) && UpdateTermSpec(s, id, data).error.None? { PlainChangeEffect(s, id, data); }
    }
  }

  lemma CreateCheckArguments(s: Store, yearId: Option<int>, data: NewTerm)
    ensures CreateCheck(s, yearId, data).None? ==> yearId.Some? && data.name.Str?
  {
  }

  lemma UpdateRefused(s: Store, id: Option<int>, data: TermUpdate)
    ensures UpdateCheck(s, id, data).Some? ==> UpdateTermSpec(s, id, data) == Outcome(s, UpdateCheck(s, id, data))
    ensures UpdateCheck(s, id, data).None? ==> id.Some?
  {
    hide DateCheck, First, ExecResult, ExecStore;
  }
}
