/** Academic terms: the checks that keep the terms of a year apart and inside it. */
module Terms {
  import opened Orders
  import opened Models
  import opened Sql

  const TERMS := "terms"
  const YEARS := "academic_years"
  const TERM_COLS := ["academic_year_id", "name", "start_date", "end_date", "status"]

  datatype Error =
    | DatabaseDown
    | MissingYearId
    | MissingTermId
    | BadName
    | BadStart
    | BadEnd
    | BadStatus
    | NoSuchYear
    | NoSuchTerm
    | EndsBeforeStart
    | OutsideYear
    | Overlaps
    | NothingToUpdate
    | NotUpdated

  datatype Outcome = Outcome(store: Store, error: Option<Error>)

  /** What `trim` strips: white space and line terminators as ECMAScript defines them. */
  predicate IsTrimmed(c: char) {
    var n := c as int;
    || 0x09 <= n <= 0x0d || n == 0x20 || n == 0xa0 || n == 0x1680 || 0x2000 <= n <= 0x200a
    || n == 0x2028 || n == 0x2029 || n == 0x202f || n == 0x205f || n == 0x3000 || n == 0xfeff
  }

  predicate Blank(s: string) { forall i | 0 <= i < |s| :: IsTrimmed(s[i]) }

  /** `s.trim()` */
  function Trim(s: string): string {
    if s == [] then s
    else if IsTrimmed(s[0]) then Trim(s[1..])
    else if IsTrimmed(s[|s| - 1]) then Trim(s[..|s| - 1])
    else s
  }

  predicate Text(v: Value) { v.Str? && v.s != "" }

  /** The WHERE clause of `findOverlappingTerm`. */
  function OverlapConds(excluding: bool): seq<Cond> {
    [Cmp("academic_year_id", Eq), Cmp("start_date", Lt), Cmp("end_date", Gt)]
      + (if excluding then [Cmp(ID, Ne)] else [])
  }

  function OverlapParams(yearId: Value, start: Value, end: Value, exclude: Option<int>): seq<Value> {
    [yearId, end, start] + (if exclude.Some? then [Num(exclude.value)] else [])
  }

  function FindOverlap(s: Store, yearId: Value, start: Value, end: Value, exclude: Option<int>): Option<Record> {
    First(s, TERMS, OverlapConds(exclude.Some?), OverlapParams(yearId, start, end, exclude))
  }

  // ----- createTerm

  /** Request fields; `Undefined` stands for a field that is not given. */
  datatype NewTerm = NewTerm(name: Value, start: Value, end: Value, status: Value)

  function CreateCheck(s: Store, yearId: Option<int>, data: NewTerm): Option<Error> {
    if yearId.None? then Some(MissingYearId)
    else if !data.name.Str? || Blank(data.name.s) then Some(BadName)
    else if !Text(data.start) then Some(BadStart)
    else if !Text(data.end) then Some(BadEnd)
    else
      var year := First(s, YEARS, BY_ID, [Num(yearId.value)]);
      if year.None? then Some(NoSuchYear)
      else if ValueLeq(data.end, data.start) then Some(EndsBeforeStart)
      else if ValueLess(data.start, Cell(year.value, "start_date"))
        || ValueLess(Cell(year.value, "end_date"), data.end) then
        Some(OutsideYear)
      else if FindOverlap(s, Num(yearId.value), data.start, data.end, None).Some? then Some(Overlaps)
      else None
  }

  function NewTermRow(yearId: int, data: NewTerm): seq<Value>
    requires data.name.Str?
  {
    [Num(yearId), Str(Trim(data.name.s)), data.start, data.end,
     if Truthy(data.status) then data.status else Str("active")]
  }

  function CreateTermSpec(s: Store, yearId: Option<int>, data: NewTerm): Outcome {
    var e := CreateCheck(s, yearId, data);
    if e.Some? then Outcome(s, e) else
      Outcome(ExecStore(s, Insert(TERMS, TERM_COLS), NewTermRow(yearId.value, data)), None)
  }

  // ----- updateTerm

  /** An update request: the keys of the object with their values, in order.  Any key may occur that
      leaves the command text in its parts: no white space, no comma, not the word `where`. */
  type TermUpdate = seq<(string, Value)>

  /** `data[key]` */
  function Lookup(data: TermUpdate, key: string): Option<Value> {
    if data == [] then None else
      var (k, v) := data[|data| - 1];
      if k == key then Some(v) else Lookup(data[..|data| - 1], key)
  }

  predicate Given(v: Option<Value>) { v.Some? && v.value != Undefined }

  function NewStart(existing: Record, data: TermUpdate): Value {
    var v := Lookup(data, "start_date");
    if Given(v) then v.value else Cell(existing, "start_date")
  }

  function NewEnd(existing: Record, data: TermUpdate): Value {
    var v := Lookup(data, "end_date");
    if Given(v) then v.value else Cell(existing, "end_date")
  }

  function UpdateCheck(s: Store, id: Option<int>, data: TermUpdate): Option<Error> {
    if id.None? then Some(MissingTermId) else
    var existing := First(s, TERMS, BY_ID, [Num(id.value)]);
    var name, status := Lookup(data, "name"), Lookup(data, "status");
    if existing.None? then Some(NoSuchTerm)
    else if Given(name) && (!name.value.Str? || Blank(name.value.s)) then Some(BadName)
    else if Given(status) && status.value != Str("active") && status.value != Str("inactive") then Some(BadStatus)
    else DateCheck(s, id.value, existing.value, data)
  }

  /** The part of the check that looks at dates, and what the repository refuses. */
  function DateCheck(s: Store, id: int, existing: Record, data: TermUpdate): Option<Error> {
    var start, end := NewStart(existing, data), NewEnd(existing, data);
    if Truthy(end) && Truthy(start) && ValueLeq(end, start) then Some(EndsBeforeStart) else
    var yearId := Cell(existing, "academic_year_id");
    var year := First(s, YEARS, BY_ID, [yearId]);
    if year.Some? && Truthy(start) && Truthy(end)
       && (ValueLess(start, Cell(year.value, "start_date")) || ValueLess(Cell(year.value, "end_date"), end)) then
      Some(OutsideYear)
    else if FindOverlap(s, yearId, start, end, Some(id)).Some? then Some(Overlaps)
    else if UpdateValues(data) == [] then Some(NothingToUpdate)
    else None
  }

  predicate IsWordChar(c: char) { 'a' <= c <= 'z' || 'A' <= c <= 'Z' || '0' <= c <= '9' || c == '_' }

  /** A key that the database takes for a column. */
  predicate IsWord(key: string) { key != "" && forall i | 0 <= i < |key| :: IsWordChar(key[i]) }

  /** The assigned columns: the repository writes every key but `id`, and the database lower-cases
      them and passes over those that are no words. */
  function UpdateSets(data: TermUpdate): seq<string> {
    if data == [] then [] else
      var key := data[|data| - 1].0;
      UpdateSets(data[..|data| - 1]) + if key == ID || !IsWord(key) then [] else [Lower(key)]
  }

  /** The name is trimmed in place. */
  function Kept(key: string, v: Value): Value { if key == "name" && v.Str? then Str(Trim(v.s)) else v }

  /** The values of every key but `id`. */
  function UpdateValues(data: TermUpdate): seq<Value> {
    if data == [] then [] else
      var (key, v) := data[|data| - 1];
      UpdateValues(data[..|data| - 1])
      + if key == ID then [] else [Kept(key, v)]
  }

  function UpdateParams(data: TermUpdate, id: int): seq<Value> { UpdateValues(data) + [Num(id)] }

  /** The repository throws when no row was hit, which a key that is no word can bring about: its
      value stays, and the WHERE clause reads the parameter behind the assigned columns. */
  function UpdateTermSpec(s: Store, id: Option<int>, data: TermUpdate): Outcome {
    var e := UpdateCheck(s, id, data);
    if e.Some? then Outcome(s, e) else
      var cmd, params := Update(TERMS, UpdateSets(data), BY_ID), UpdateParams(data, id.value);
      if ExecResult(s, cmd, params).affectedRows == 0 then Outcome(s, Some(NotUpdated))
      else Outcome(ExecStore(s, cmd, params), None)
  }

  // ----- The calendar

  ghost predicate YearsOk(years: Table) {
    IdsOk(years) && forall i | 0 <= i < |years| :: Cell(years[i], "start_date").Str? && Cell(years[i], "end_date").Str?
  }

  /** A term has real dates in order, inside its year. */
  ghost predicate TermInside(t: Record, year: Record) {
    && Text(Cell(t, "start_date")) && Text(Cell(t, "end_date"))
    && ValueLess(Cell(t, "start_date"), Cell(t, "end_date"))
    && ValueLeq(Cell(year, "start_date"), Cell(t, "start_date"))
    && ValueLeq(Cell(t, "end_date"), Cell(year, "end_date"))
  }

  ghost predicate TermPlaced(t: Record, years: Table) {
    exists j :: 0 <= j < |years| && Cell(years[j], ID) == Cell(t, "academic_year_id") && TermInside(t, years[j])
  }

  predicate Apart(a: Record, b: Record) {
    Cell(a, "academic_year_id") == Cell(b, "academic_year_id") ==>
      ValueLeq(Cell(a, "end_date"), Cell(b, "start_date")) || ValueLeq(Cell(b, "end_date"), Cell(a, "start_date"))
  }

  ghost predicate TermsOk(terms: Table, years: Table) {
    && IdsOk(terms)
    && (forall i | 0 <= i < |terms| :: TermPlaced(terms[i], years))
    && (forall i, j | 0 <= i < j < |terms| :: Apart(terms[i], terms[j]))
  }

  /** All terms lie inside their years and the terms of one year are disjoint. */
  ghost predicate Calendar(s: Store) {
    YearsOk(TableOf(s, YEARS)) && TermsOk(TableOf(s, TERMS), TableOf(s, YEARS))
  }

  lemma TextTotal(a: Value, b: Value)
    requires a.Str? && b.Str?
    ensures ValueLess(a, b) || ValueLeq(b, a)
    ensures !(ValueLess(a, b) && ValueLeq(b, a))
    ensures ValueLeq(a, b) || ValueLess(b, a)
  {
    StringTotal(a.s, b.s);
    if a == b { StringIrreflexive(a.s); }
  }

  /** `t` is another term of the year whose dates run into the new ones. */
  predicate RunsInto(t: Record, yearId: Value, start: Value, end: Value, exclude: Option<int>) {
    && Cell(t, "academic_year_id") == yearId
    && ValueLess(Cell(t, "start_date"), end) && ValueLess(start, Cell(t, "end_date"))
    && (exclude.Some? ==> Cell(t, ID) != Num(exclude.value))
  }

  lemma OverlapMatches(t: Record, yearId: Value, start: Value, end: Value, exclude: Option<int>)
    ensures Matches(t, OverlapConds(exclude.Some?), OverlapParams(yearId, start, end, exclude))
            <==> RunsInto(t, yearId, start, end, exclude)
  {
    var conds, params := OverlapConds(exclude.Some?), OverlapParams(yearId, start, end, exclude);
    assert conds[0] == Cmp("academic_year_id", Eq) && conds[1] == Cmp("start_date", Lt)
      && conds[2] == Cmp("end_date", Gt);
    assert exclude.Some? ==> conds[3] == Cmp(ID, Ne);
    if RunsInto(t, yearId, start, end, exclude) {
      forall k | 0 <= k < |conds| ensures CondHolds(conds[k], t, Param(params, k)) {
      }
    }
  }

  /** The overlap query finds a term exactly when some other term of the year runs into the new
      dates, and what it finds is such a term: `Overlaps` is never raised wrongly. */
  lemma OverlapFoundIff(s: Store, yearId: Value, start: Value, end: Value, exclude: Option<int>)
    ensures FindOverlap(s, yearId, start, end, exclude).Some? <==>
            exists t :: t in TableOf(s, TERMS) && RunsInto(t, yearId, start, end, exclude)
    ensures var found := FindOverlap(s, yearId, start, end, exclude);
            found.Some? ==> found.value in TableOf(s, TERMS) && RunsInto(found.value, yearId, start, end, exclude)
  {
    hide Matches, RunsInto, OverlapConds, OverlapParams;
    var terms := TableOf(s, TERMS);
    var rows := Filter(terms, OverlapConds(exclude.Some?), OverlapParams(yearId, start, end, exclude));
    FilterMembers(terms, OverlapConds(exclude.Some?), OverlapParams(yearId, start, end, exclude));
    forall t ensures Matches(t, OverlapConds(exclude.Some?), OverlapParams(yearId, start, end, exclude))
                     <==> RunsInto(t, yearId, start, end, exclude)
    {
      OverlapMatches(t, yearId, start, end, exclude);
    }
    if rows != [] { assert rows[0] in rows; }
  }

  /** Where the query finds nothing the new dates keep clear of every other term of the year. */
  lemma NoOverlapMeansApart(s: Store, yearId: Value, start: Value, end: Value, exclude: Option<int>, i: nat)
    requires FindOverlap(s, yearId, start, end, exclude).None? && i < |TableOf(s, TERMS)|
    requires start.Str? && end.Str?
    requires Cell(TableOf(s, TERMS)[i], "start_date").Str? && Cell(TableOf(s, TERMS)[i], "end_date").Str?
    requires Cell(TableOf(s, TERMS)[i], "academic_year_id") == yearId
    requires exclude.Some? ==> Cell(TableOf(s, TERMS)[i], ID) != Num(exclude.value)
    ensures ValueLeq(Cell(TableOf(s, TERMS)[i], "end_date"), start)
      || ValueLeq(end, Cell(TableOf(s, TERMS)[i], "start_date"))
  {
    var t := TableOf(s, TERMS)[i];
    OverlapFoundIff(s, yearId, start, end, exclude);
    assert !RunsInto(t, yearId, start, end, exclude);
    TextTotal(Cell(t, "start_date"), end);
    TextTotal(start, Cell(t, "end_date"));
  }

  /** A row with the given dates and year that passed the checks of `createTerm`. */
  ghost predicate Fits(t: Record, yearId: Value, start: Value, end: Value) {
    Cell(t, "academic_year_id") == yearId && Cell(t, "start_date") == start && Cell(t, "end_date") == end
  }

  lemma PlacedByChecks(t: Record, years: Table, j: nat, start: Value, end: Value)
    requires j < |years| && YearsOk(years) && Fits(t, Cell(years[j], ID), start, end)
    requires Text(start) && Text(end) && !ValueLeq(end, start)
    requires !ValueLess(start, Cell(years[j], "start_date")) && !ValueLess(Cell(years[j], "end_date"), end)
    ensures TermPlaced(t, years)
  {
    TextTotal(start, end);
    TextTotal(start, Cell(years[j], "start_date"));
    TextTotal(Cell(years[j], "end_date"), end);
    assert TermInside(t, years[j]);
  }

  lemma NewRowCells(s: Store, yearId: int, data: NewTerm)
    requires data.name.Str?
    ensures Fits(Inserted(s, TERMS, TERM_COLS, NewTermRow(yearId, data)), Num(yearId), data.start, data.end)
    ensures Cell(Inserted(s, TERMS, TERM_COLS, NewTermRow(yearId, data)), ID) == Num(NextId(TableOf(s, TERMS)))
  {
    hide Trim;
    var row := NewTermRow(yearId, data);
    InsertedCell(s, TERMS, TERM_COLS, row, 0);
    InsertedCell(s, TERMS, TERM_COLS, row, 2);
    InsertedCell(s, TERMS, TERM_COLS, row, 3);
    assert TERM_COLS[0] == "academic_year_id" && TERM_COLS[2] == "start_date" && TERM_COLS[3] == "end_date";
  }

  lemma TermsSnoc(terms: Table, years: Table, t: Record)
    requires TermsOk(terms, years) && TermPlaced(t, years) && Cell(t, ID) == Num(NextId(terms))
    requires forall i | 0 <= i < |terms| :: Apart(terms[i], t)
    ensures TermsOk(terms + [t], years)
  {
    hide TermPlaced, Apart;
    NextIdFresh(terms);
  }

  /** `createTerm` keeps the calendar, for every input. */
  lemma CreateKeepsCalendar(s: Store, yearId: Option<int>, data: NewTerm)
    requires Calendar(s)
    ensures Calendar(CreateTermSpec(s, yearId, data).store)
  {
    hide NewTermRow, Inserted, FindOverlap, Matches, Filter, Blank, IdsOk, TermPlaced;
    if CreateCheck(s, yearId, data).None? {
      var terms, years := TableOf(s, TERMS), TableOf(s, YEARS);
      var row := NewTermRow(yearId.value, data);
      var t := Inserted(s, TERMS, TERM_COLS, row);
      NewRowCells(s, yearId.value, data);
      var j := YearStored(s, Num(yearId.value));
      PlacedByChecks(t, years, j, data.start, data.end);
      forall i | 0 <= i < |terms| ensures Apart(terms[i], t) {
        PlacedDates(terms[i], years);
        if Cell(terms[i], "academic_year_id") == Num(yearId.value) {
          NoOverlapMeansApart(s, Num(yearId.value), data.start, data.end, None, i);
        }
      }
      TermsSnoc(terms, years, t);
      var s' := CreateTermSpec(s, yearId, data).store;
      assert TableOf(s', TERMS) == terms + [t] && TableOf(s', YEARS) == years;
    }
  }

  lemma PlacedDates(t: Record, years: Table)
    requires TermPlaced(t, years)
    ensures Text(Cell(t, "start_date")) && Text(Cell(t, "end_date"))
  {
  }

  // ----- updateTerm and the calendar

  /** The id that the WHERE clause asks for. */
  function Target(data: TermUpdate, id: int): Value { Param(UpdateParams(data, id), |UpdateSets(data)|) }

  /** The row that the update hits. */
  function Hit(s: Store, data: TermUpdate, id: int): Option<Record> { First(s, TERMS, BY_ID, [Target(data, id)]) }

  /** What the whole request leaves in the row. */
  function Left(r: Record, data: TermUpdate, id: int): Record { Assign(r, UpdateSets(data), UpdateParams(data, id)) }

  lemma {:induction false} FewerSets(data: TermUpdate)
    ensures |UpdateSets(data)| <= |UpdateValues(data)|
  {
    if data != [] { FewerSets(data[..|data| - 1]); }
  }

  lemma MatchesTarget(r: Record, data: TermUpdate, id: int)
    ensures Matches(r, BY_ID, Drop(UpdateParams(data, id), |UpdateSets(data)|)) <==>
            Matches(r, BY_ID, [Target(data, id)])
  {
    FewerSets(data);
    var params := Drop(UpdateParams(data, id), |UpdateSets(data)|);
    assert Param(params, 0) == Param([Target(data, id)], 0);
    assert |BY_ID| == 1;
    hide CondHolds, UpdateParams, UpdateSets, Target, Drop;
    if CondHolds(BY_ID[0], r, Param(params, 0)) {
      assert Matches(r, BY_ID, params) && Matches(r, BY_ID, [Target(data, id)]);
    }
  }

  lemma {:induction false} FilterTarget(rows: Table, data: TermUpdate, id: int)
    ensures Filter(rows, BY_ID, Drop(UpdateParams(data, id), |UpdateSets(data)|))
            == Filter(rows, BY_ID, [Target(data, id)])
  {
    if rows != [] {
      hide Matches, UpdateParams, UpdateSets, Target;
      MatchesTarget(rows[|rows| - 1], data, id);
      FilterTarget(rows[..|rows| - 1], data, id);
    }
  }

  lemma UpdateStore(s: Store, id: int, data: TermUpdate)
    requires UpdateCheck(s, Some(id), data).None?
    ensures UpdateTermSpec(s, Some(id), data).store
            == if Hit(s, data, id).None? then s
               else s[TERMS := UpdateRows(TableOf(s, TERMS), UpdateSets(data), BY_ID, UpdateParams(data, id))]
    ensures Hit(s, data, id).Some? ==> TERMS in s
  {
    hide UpdateCheck, Matches, UpdateSets, UpdateParams, Target, UpdateRows, Drop;
    FilterTarget(TableOf(s, TERMS), data, id);
  }

  /** Where an accepted update lands: nowhere, and it is refused, or in one row. */
  lemma UpdateLands(s: Store, id: Option<int>, data: TermUpdate) returns (i: nat)
    requires Calendar(s) && UpdateCheck(s, id, data).None?
    ensures id.Some?
    ensures var hit, s' := Hit(s, data, id.value), UpdateTermSpec(s, id, data).store; var terms := TableOf(s, TERMS);
      if hit.None? then s' == s
      else i < |terms| && hit.value == terms[i] && s' == s[TERMS := terms[i := Left(terms[i], data, id.value)]]
  {
    CheckedId(s, id, data);
    i := 0;
    assert IdsOk(TableOf(s, TERMS));
    hide *;
    UpdateStore(s, id.value, data);
    if Hit(s, data, id.value).Some? {
      i := RowHit(s, data, id.value);
      UpdateAt(TableOf(s, TERMS), data, id.value, i);
    }
  }

  lemma CheckedId(s: Store, id: Option<int>, data: TermUpdate)
    requires UpdateCheck(s, id, data).None?
    ensures id.Some?
  {
  }

  lemma RowHit(s: Store, data: TermUpdate, id: int) returns (i: nat)
    requires Hit(s, data, id).Some? && IdsOk(TableOf(s, TERMS))
    ensures i < |TableOf(s, TERMS)| && TableOf(s, TERMS)[i] == Hit(s, data, id).value
    ensures Cell(TableOf(s, TERMS)[i], ID) == Target(data, id)
  {
    hide Target;
    i := FoundByKey(TableOf(s, TERMS), Target(data, id));
  }

  lemma UpdateAt(terms: Table, data: TermUpdate, id: int, i: nat)
    requires IdsOk(terms) && i < |terms| && Cell(terms[i], ID) == Target(data, id)
    ensures UpdateRows(terms, UpdateSets(data), BY_ID, UpdateParams(data, id))
            == terms[i := Left(terms[i], data, id)]
  {
    hide Assign, Matches, UpdateSets, UpdateParams, Target, Drop;
    forall j | 0 <= j < |terms|
      ensures Matches(terms[j], BY_ID, Drop(UpdateParams(data, id), |UpdateSets(data)|)) <==> j == i
    {
      MatchesTarget(terms[j], data, id);
      MatchesById(terms[j], Cell(terms[i], ID).n);
      if j != i { IdsDiffer(terms, j, i); }
    }
  }

  /** The year takes a term with these dates in: it is stored, it spans them, and no other
      of its terms runs into them. */
  predicate FitsYear(s: Store, yearId: Value, start: Value, end: Value, id: int) {
    var year := First(s, YEARS, BY_ID, [yearId]);
    && year.Some?
    && !ValueLess(start, Cell(year.value, "start_date")) && !ValueLess(Cell(year.value, "end_date"), end)
    && FindOverlap(s, yearId, start, end, Some(id)).None?
  }

  lemma YearById(s: Store, j: nat)
    requires j < |TableOf(s, YEARS)| && IdsOk(TableOf(s, YEARS))
    ensures First(s, YEARS, BY_ID, [Cell(TableOf(s, YEARS)[j], ID)]) == Some(TableOf(s, YEARS)[j])
  {
    StoredRow(TableOf(s, YEARS), j);
  }

  /** The id is that of the row or free. */
  ghost predicate IdIsFree(s: Store, old_: Value, id: Value) {
    id == old_ || (id.Num? && id.n >= 1 && forall t | t in TableOf(s, TERMS) :: Cell(t, ID) != id)
  }

  /** `u` is a proper row to put in the place of `r`: non-empty dates in order, a year that takes
      it in, and a free id. */
  ghost predicate Settled(s: Store, r: Record, u: Record)
    requires Cell(r, ID).Num?
  {
    var start, end := Cell(u, "start_date"), Cell(u, "end_date");
    && Text(start) && Text(end) && !ValueLeq(end, start)
    && FitsYear(s, Cell(u, "academic_year_id"), start, end, Cell(r, ID).n)
    && IdIsFree(s, Cell(r, ID), Cell(u, ID))
  }

  /** The whole request hits no row or leaves a proper one. */
  ghost predicate Settles(s: Store, id: int, data: TermUpdate) {
    var hit := Hit(s, data, id);
    hit.Some? ==> Cell(hit.value, ID).Num? && Settled(s, hit.value, Left(hit.value, data, id))
  }

  /** An accepted update keeps the calendar exactly when it settles.  The checks look at the keys
      `start_date` and `end_date` and at the old year; the row gets every key in lower case. */
  lemma UpdateKeepsCalendarIff(s: Store, id: Option<int>, data: TermUpdate)
    requires Calendar(s) && UpdateCheck(s, id, data).None?
    ensures id.Some? && (Calendar(UpdateTermSpec(s, id, data).store) <==> Settles(s, id.value, data))
  {
    hide FindOverlap, Matches, Filter, Left, IdsOk, UpdateTermSpec, UpdateCheck, Hit, FitsYear, ValueLeq, Settled;
    var i := UpdateLands(s, id, data);
    var terms, years := TableOf(s, TERMS), TableOf(s, YEARS);
    if Hit(s, data, id.value).Some? {
      var t := Left(terms[i], data, id.value);
      var s' := UpdateTermSpec(s, id, data).store;
      assert TableOf(s', TERMS) == terms[i := t] && TableOf(s', YEARS) == years;
      IdIsNumber(terms, i);
      if Settled(s, terms[i], t) {
        SettledKeepsTerms(s, i, t);
      } else if Calendar(s') {
        KeptMeansSettled(s, i, t);
      }
    }
  }

  lemma IdIsNumber(rows: Table, i: nat)
    requires IdsOk(rows) && i < |rows|
    ensures Cell(rows[i], ID).Num?
  {
  }

  lemma SettledKeepsTerms(s: Store, i: nat, t: Record)
    requires Calendar(s) && i < |TableOf(s, TERMS)| && Settled(s, TableOf(s, TERMS)[i], t)
    ensures TermsOk(TableOf(s, TERMS)[i := t], TableOf(s, YEARS))
  {
    hide FindOverlap, Matches, Filter, TermPlaced, First, IdsOk, IdIsFree;
    var terms, years := TableOf(s, TERMS), TableOf(s, YEARS);
    var yearId, start, end := Cell(t, "academic_year_id"), Cell(t, "start_date"), Cell(t, "end_date");
    var j := YearStored(s, yearId);
    PlacedByChecks(t, years, j, start, end);
    IdIsNumber(terms, i);
    forall k | 0 <= k < |terms| && k != i ensures Apart(terms[k], t) && Apart(t, terms[k]) {
      PlacedDates(terms[k], years);
      IdsDiffer(terms, k, i);
      if Cell(terms[k], "academic_year_id") == yearId {
        NoOverlapMeansApart(s, yearId, start, end, Some(Cell(terms[i], ID).n), k);
      }
    }
    FreeIdKeepsIds(s, i, t);
  }

  lemma FreeIdKeepsIds(s: Store, i: nat, t: Record)
    requires IdsOk(TableOf(s, TERMS)) && i < |TableOf(s, TERMS)|
    ensures IdIsFree(s, Cell(TableOf(s, TERMS)[i], ID), Cell(t, ID)) <==> IdsOk(TableOf(s, TERMS)[i := t])
  {
    var terms := TableOf(s, TERMS);
    var terms' := terms[i := t];
    if IdIsFree(s, Cell(terms[i], ID), Cell(t, ID)) {
      forall a, b | 0 <= a < b < |terms'| ensures Cell(terms'[a], ID) != Cell(terms'[b], ID) {
        assert terms[a] in terms && terms[b] in terms && Cell(terms[a], ID) != Cell(terms[b], ID);
      }
    }
    if IdsOk(terms') && Cell(t, ID) != Cell(terms[i], ID) {
      assert terms'[i] == t;
      forall x | x in terms ensures Cell(x, ID) != Cell(t, ID) {
        var k :| 0 <= k < |terms| && terms[k] == x;
        if k != i { IdsDiffer(terms', k, i); }
      }
    }
  }

  lemma YearStored(s: Store, yearId: Value) returns (j: nat)
    requires YearsOk(TableOf(s, YEARS)) && First(s, YEARS, BY_ID, [yearId]).Some?
    ensures j < |TableOf(s, YEARS)| && TableOf(s, YEARS)[j] == First(s, YEARS, BY_ID, [yearId]).value
    ensures Cell(TableOf(s, YEARS)[j], ID) == yearId
  {
    j := FoundByKey(TableOf(s, YEARS), yearId);
  }

  /** A calendar that holds the written row: the row is proper. */
  lemma KeptMeansSettled(s: Store, i: nat, t: Record)
    requires Calendar(s) && i < |TableOf(s, TERMS)| && Cell(TableOf(s, TERMS)[i], ID).Num?
    requires TermsOk(TableOf(s, TERMS)[i := t], TableOf(s, YEARS))
    ensures Settled(s, TableOf(s, TERMS)[i], t)
  {
    hide FindOverlap, Matches, Filter, First, Apart, IdIsFree;
    var terms, years := TableOf(s, TERMS), TableOf(s, YEARS);
    var yearId, start, end := Cell(t, "academic_year_id"), Cell(t, "start_date"), Cell(t, "end_date");
    assert TermPlaced(terms[i := t][i], years);
    var j :| 0 <= j < |years| && Cell(years[j], ID) == yearId && TermInside(t, years[j]);
    YearById(s, j);
    TextTotal(start, Cell(years[j], "start_date"));
    TextTotal(Cell(years[j], "end_date"), end);
    TextTotal(start, end);
    KeptMeansClear(s, i, Cell(terms[i], ID).n, t);
    FreeIdKeepsIds(s, i, t);
  }

  lemma KeptMeansClear(s: Store, i: nat, id: int, t: Record)
    requires Calendar(s) && i < |TableOf(s, TERMS)|
    requires Cell(TableOf(s, TERMS)[i], ID) == Num(id) && Cell(t, "start_date").Str? && Cell(t, "end_date").Str?
    requires TermsOk(TableOf(s, TERMS)[i := t], TableOf(s, YEARS))
    ensures FindOverlap(s, Cell(t, "academic_year_id"), Cell(t, "start_date"), Cell(t, "end_date"), Some(id)).None?
  {
    hide FindOverlap, First, IdsOk, TermPlaced, Apart, ValueLeq, ValueLess;
    var terms, years := TableOf(s, TERMS), TableOf(s, YEARS);
    var yearId, start, end := Cell(t, "academic_year_id"), Cell(t, "start_date"), Cell(t, "end_date");
    OverlapFoundIff(s, yearId, start, end, Some(id));
    if x :| x in terms && RunsInto(x, yearId, start, end, Some(id)) {
      var k :| 0 <= k < |terms| && terms[k] == x;
      assert terms[i := t][k] == x;
      PlacedDates(x, years);
      ApartMeansClear(terms[i := t], k, i);
      TextTotal(Cell(x, "start_date"), end);
      TextTotal(start, Cell(x, "end_date"));
      assert false;
    }
  }

  lemma ApartMeansClear(terms: Table, k: nat, i: nat)
    requires forall a, b | 0 <= a < b < |terms| :: Apart(terms[a], terms[b])
    requires k < |terms| && i < |terms| && k != i
    requires Cell(terms[k], "academic_year_id") == Cell(terms[i], "academic_year_id")
    ensures ValueLeq(Cell(terms[k], "end_date"), Cell(terms[i], "start_date"))
      || ValueLeq(Cell(terms[i], "end_date"), Cell(terms[k], "start_date"))
  {
    if k < i {
      assert Apart(terms[k], terms[i]);
    } else {
      assert Apart(terms[i], terms[k]);
    }
  }

  // ----- The dates that slip through

  const A_YEAR: Record := map[ID := Num(1), "start_date" := Str("2024"), "end_date" := Str("2025")]
  const A_TERM: Record :=
    map[ID := Num(1), "academic_year_id" := Num(1), "start_date" := Str("2024"), "end_date" := Str("2025")]
  const A_CALENDAR: Store := map[YEARS := [A_YEAR], TERMS := [A_TERM]]
  const CLEAR_START: TermUpdate := [("start_date", Null)]
  const MOVE_AWAY: TermUpdate := [("academic_year_id", Num(2))]
  const SHOUT_START: TermUpdate := [("START_DATE", Str("1900"))]

  lemma FilterOne(r: Record, where: seq<Cond>, params: seq<Value>)
    ensures Filter([r], where, params) == if Matches(r, where, params) then [r] else []
  {
    assert [r][..0] == [];
    assert Filter([], where, params) == [];
  }

  lemma ACalendarHolds()
    ensures TableOf(A_CALENDAR, TERMS) == [A_TERM] && TableOf(A_CALENDAR, YEARS) == [A_YEAR]
    ensures StringLess("2024", "2025") && !StringLess("2025", "2024") && Calendar(A_CALENDAR)
  {
    assert TableOf(A_CALENDAR, TERMS) == [A_TERM] && TableOf(A_CALENDAR, YEARS) == [A_YEAR];
    assert StringLess("2024", "2025") by {
      assert "2024"[1..][1..][1..] == "4" && "2025"[1..][1..][1..] == "5";
      assert StringLess("2024"[1..][1..][1..], "2025"[1..][1..][1..]);
      assert StringLess("2024"[1..][1..], "2025"[1..][1..]);
      assert StringLess("2024"[1..], "2025"[1..]);
    }
    StringTotal("2024", "2025");
    hide StringLess;
    assert TermInside(A_TERM, A_YEAR);
    assert [A_YEAR][0] == A_YEAR && TermPlaced(A_TERM, [A_YEAR]);
    assert YearsOk([A_YEAR]) && IdsOk([A_TERM]);
    assert TermsOk([A_TERM], [A_YEAR]);
  }

  /** A request of one key, which is a word. */
  lemma OneKey(r: Record, key: string, v: Value, id: int)
    requires IsWord(key) && key != ID && key != "name"
    ensures var data := [(key, v)];
      && UpdateValues(data) == [v] && Target(data, id) == Num(id) && Left(r, data, id) == r[Lower(key) := v]
      && forall k :: Lookup(data, k) == if k == key then Some(v) else None
  {
    hide IsWord, Lower;
    var data := [(key, v)];
    assert data[..0] == [] && UpdateSets([]) == [] && UpdateValues([]) == [];
    assert UpdateSets(data) == [Lower(key)];
    assert [Lower(key)][..0] == [];
    assert Assign(r, [], UpdateParams(data, id)) == r;
  }

  lemma ATermIsStored()
    ensures First(A_CALENDAR, TERMS, BY_ID, [Num(1)]) == Some(A_TERM)
    ensures First(A_CALENDAR, YEARS, BY_ID, [Num(1)]) == Some(A_YEAR)
    ensures First(A_CALENDAR, YEARS, BY_ID, [Num(2)]) == None
  {
    hide Filter, Matches;
    assert TableOf(A_CALENDAR, TERMS) == [A_TERM] && TableOf(A_CALENDAR, YEARS) == [A_YEAR];
    FilterOne(A_TERM, BY_ID, [Num(1)]);
    FilterOne(A_YEAR, BY_ID, [Num(1)]);
    FilterOne(A_YEAR, BY_ID, [Num(2)]);
    MatchesById(A_TERM, 1);
    MatchesById(A_YEAR, 1);
    MatchesById(A_YEAR, 2);
  }

  lemma LowersTo(key: string, col: string)
    requires |key| == |col| && forall i | 0 <= i < |key| :: LowerChar(key[i]) == col[i]
    ensures Lower(key) == col
  {
    hide LowerChar;
  }

  lemma ConcreteKeys()
    ensures IsWord("start_date") && Lower("start_date") == "start_date"
    ensures IsWord("academic_year_id") && Lower("academic_year_id") == "academic_year_id"
    ensures IsWord("START_DATE") && Lower("START_DATE") == "start_date"
  {
    hide Lower;
    LowersTo("start_date", "start_date");
    LowersTo("academic_year_id", "academic_year_id");
    LowersTo("START_DATE", "start_date");
  }

  /** An accepted request of one key that leaves no proper row destroys the calendar. */
  lemma OneKeyDestroys(key: string, v: Value)
    requires IsWord(key) && key != ID && key != "name"
    requires UpdateCheck(A_CALENDAR, Some(1), [(key, v)]).None?
    requires !Settled(A_CALENDAR, A_TERM, A_TERM[Lower(key) := v])
    ensures !Calendar(UpdateTermSpec(A_CALENDAR, Some(1), [(key, v)]).store)
  {
    hide Settled, UpdateTermSpec, UpdateCheck, Calendar, First, Target, Left, IsWord, Lower, Lookup, UpdateValues;
    ACalendarHolds();
    ATermIsStored();
    OneKey(A_TERM, key, v, 1);
    UpdateKeepsCalendarIff(A_CALENDAR, Some(1), [(key, v)]);
  }

  /** A concrete call that `updateTerm` accepts although it destroys the calendar:
      clearing a start date. */
  lemma ClearedStartIsAccepted()
    ensures Calendar(A_CALENDAR) && UpdateCheck(A_CALENDAR, Some(1), CLEAR_START).None?
    ensures !Calendar(UpdateTermSpec(A_CALENDAR, Some(1), CLEAR_START).store)
  {
    hide FitsYear, UpdateTermSpec, Calendar, IdIsFree, UpdateCheck, IsWord, Lower;
    ConcreteKeys();
    ClearingIsAccepted();
    OneKeyDestroys("start_date", Null);
    ACalendarHolds();
  }

  lemma ClearingIsAccepted()
    ensures UpdateCheck(A_CALENDAR, Some(1), CLEAR_START).None?
  {
    hide Filter, UpdateValues, Lookup, StringLess, Matches, IsWord, Lower, Target, Left;
    ConcreteKeys();
    assert TableOf(A_CALENDAR, TERMS) == [A_TERM];
    ATermIsStored();
    OneKey(A_TERM, "start_date", Null, 1);
    NullNeverOverlaps(A_TERM, Num(1), Str("2025"), Some(1));
    FilterOne(A_TERM, OverlapConds(true), OverlapParams(Num(1), Null, Str("2025"), Some(1)));
  }

  /** A request of one key that the checks do not look at is accepted. */
  lemma UnseenKeyIsAccepted(key: string, v: Value)
    requires IsWord(key) && key !in {"name", "start_date", "end_date", "status", ID}
    ensures UpdateCheck(A_CALENDAR, Some(1), [(key, v)]).None?
  {
    hide Filter, UpdateValues, Lookup, StringLess, Matches, IsWord, Lower, Target, Left;
    ACalendarHolds();
    StringIrreflexive("2024");
    StringIrreflexive("2025");
    ATermIsStored();
    OneKey(A_TERM, key, v, 1);
    OverlapMatches(A_TERM, Num(1), Str("2024"), Str("2025"), Some(1));
    FilterOne(A_TERM, OverlapConds(true), OverlapParams(Num(1), Str("2024"), Str("2025"), Some(1)));
    assert FindOverlap(A_CALENDAR, Num(1), Str("2024"), Str("2025"), Some(1)).None?;
  }

  /** Another: moving a term to a year that is not stored. */
  lemma MovedTermIsAccepted()
    ensures Calendar(A_CALENDAR) && UpdateCheck(A_CALENDAR, Some(1), MOVE_AWAY).None?
    ensures !Calendar(UpdateTermSpec(A_CALENDAR, Some(1), MOVE_AWAY).store)
  {
    hide UpdateTermSpec, Calendar, IdIsFree, UpdateCheck, First, IsWord, Lower, FindOverlap;
    ConcreteKeys();
    ATermIsStored();
    UnseenKeyIsAccepted("academic_year_id", Num(2));
    OneKeyDestroys("academic_year_id", Num(2));
    ACalendarHolds();
  }

  /** A third: a key in capitals is no date to the checks and one to the database. */
  lemma ShoutedStartIsAccepted()
    ensures Calendar(A_CALENDAR) && UpdateCheck(A_CALENDAR, Some(1), SHOUT_START).None?
    ensures !Calendar(UpdateTermSpec(A_CALENDAR, Some(1), SHOUT_START).store)
  {
    hide UpdateTermSpec, Calendar, IdIsFree, UpdateCheck, First, IsWord, Lower, FindOverlap;
    ConcreteKeys();
    assert StringLess("1900", "2024");
    ATermIsStored();
    UnseenKeyIsAccepted("START_DATE", Str("1900"));
    OneKeyDestroys("START_DATE", Str("1900"));
    ACalendarHolds();
  }

  lemma NullNeverOverlaps(t: Record, yearId: Value, end: Value, exclude: Option<int>)
    ensures !Matches(t, OverlapConds(exclude.Some?), OverlapParams(yearId, Null, end, exclude))
  {
    var conds, params := OverlapConds(exclude.Some?), OverlapParams(yearId, Null, end, exclude);
    assert conds[2] == Cmp("end_date", Gt);
    assert !CondHolds(conds[2], t, Param(params, 2));
  }

  // ----- Lengths

  /** A term's dates. */
  type Interval = (string, string)

  ghost predicate InOrder(a: string, b: string) { a == b || StringLess(a, b) }

  /** Any way of measuring dates that respects their order. */
  ghost predicate Monotone(day: string -> int) {
    forall a, b | InOrder(a, b) :: day(a) <= day(b)
  }

  function Length(q: seq<Interval>, day: string -> int): int {
    if q == [] then 0 else Length(q[..|q| - 1], day) + day(q[|q| - 1].1) - day(q[|q| - 1].0)
  }

  ghost predicate Disjoint(q: seq<Interval>) {
    forall i, j | 0 <= i < j < |q| :: InOrder(q[i].1, q[j].0) || InOrder(q[j].1, q[i].0)
  }

  ghost predicate Within(q: seq<Interval>, lo: string, hi: string) {
    forall i | 0 <= i < |q| :: InOrder(lo, q[i].0) && StringLess(q[i].0, q[i].1) && InOrder(q[i].1, hi)
  }

  function Remove(q: seq<Interval>, k: nat): seq<Interval>
    requires k < |q|
  {
    q[..k] + q[k + 1..]
  }

  lemma {:induction false} LengthRemove(q: seq<Interval>, k: nat, day: string -> int)
    requires k < |q|
    ensures Length(q, day) == Length(Remove(q, k), day) + day(q[k].1) - day(q[k].0)
  {
    if k == |q| - 1 {
      assert Remove(q, k) == q[..|q| - 1];
    } else {
      LengthRemove(q[..|q| - 1], k, day);
      assert Remove(q, k)[..|q| - 2] == Remove(q[..|q| - 1], k);
    }
  }

  lemma {:induction false} LatestStart(q: seq<Interval>) returns (k: nat)
    requires q != []
    ensures k < |q| && forall i | 0 <= i < |q| :: InOrder(q[i].0, q[k].0)
  {
    if |q| == 1 {
      k := 0;
    } else {
      var front := q[..|q| - 1];
      k := LatestStart(front);
      assert forall i | 0 <= i < |front| :: q[i] == front[i];
      StringTotal(q[|q| - 1].0, q[k].0);
      if StringLess(q[k].0, q[|q| - 1].0) {
        forall i | 0 <= i < |q| ensures InOrder(q[i].0, q[|q| - 1].0) {
          if i < |front| { OrderTransitive(q[i].0, q[k].0, q[|q| - 1].0); }
        }
        k := |q| - 1;
      }
    }
  }

  lemma OrderTransitive(a: string, b: string, c: string)
    requires InOrder(a, b) && InOrder(b, c)
    ensures InOrder(a, c)
  {
    if a != b && b != c { StringTransitive(a, b, c); }
  }

  /** Disjoint intervals inside a range are together no longer than the range. */
  lemma {:induction false} DisjointFit(q: seq<Interval>, lo: string, hi: string, day: string -> int)
    requires Monotone(day) && Disjoint(q) && Within(q, lo, hi) && InOrder(lo, hi)
    ensures Length(q, day) <= day(hi) - day(lo)
    decreases |q|
  {
    if q != [] {
      var k := LatestStart(q);
      var rest := Remove(q, k);
      forall i | 0 <= i < |rest|
        ensures InOrder(rest[i].1, q[k].0) && InOrder(lo, rest[i].0) && StringLess(rest[i].0, rest[i].1)
      {
        var m := if i < k then i else i + 1;
        assert rest[i] == q[m];
        if InOrder(q[k].1, q[m].0) { NotBoth(q[k].0, q[k].1, q[m].0); }
      }
      DisjointFit(rest, lo, q[k].0, day);
      LengthRemove(q, k, day);
    }
  }

  lemma NotBoth(start: string, end: string, other: string)
    requires StringLess(start, end) && InOrder(end, other)
    ensures !InOrder(other, start)
  {
    if InOrder(other, start) {
      OrderTransitive(end, other, start);
      StringTotal(start, end);
    }
  }

  /** The dates of the terms of one year. */
  function IntervalsOf(terms: Table, yearId: Value): seq<Interval> {
    if terms == [] then [] else
      var t := terms[|terms| - 1];
      IntervalsOf(terms[..|terms| - 1], yearId)
      + (if Cell(t, "academic_year_id") == yearId && Cell(t, "start_date").Str? && Cell(t, "end_date").Str? then
           [(Cell(t, "start_date").s, Cell(t, "end_date").s)] else [])
  }

  /** The interval is some term's. */
  ghost predicate IsTermOf(v: Interval, terms: Table, i: int, yearId: Value) {
    0 <= i < |terms| && Cell(terms[i], "academic_year_id") == yearId
    && Cell(terms[i], "start_date") == Str(v.0) && Cell(terms[i], "end_date") == Str(v.1)
  }

  lemma {:induction false} IntervalSources(terms: Table, yearId: Value) returns (at: seq<nat>)
    ensures var q := IntervalsOf(terms, yearId);
      && |at| == |q| && (forall k | 0 <= k < |q| :: IsTermOf(q[k], terms, at[k], yearId))
      && (forall k, m | 0 <= k < m < |q| :: at[k] < at[m])
  {
    at := [];
    if terms != [] {
      var front, t := terms[..|terms| - 1], terms[|terms| - 1];
      at := IntervalSources(front, yearId);
      var q := IntervalsOf(front, yearId);
      forall k | 0 <= k < |q| ensures IsTermOf(q[k], terms, at[k], yearId) && at[k] < |front| {
        assert IsTermOf(q[k], front, at[k], yearId);
      }
      if Cell(t, "academic_year_id") == yearId && Cell(t, "start_date").Str? && Cell(t, "end_date").Str? {
        at := at + [|front|];
      }
    }
  }

  /** The terms of a year are together no longer than the year, in any measure of
      time that respects the order of dates. */
  lemma TermsFitTheYear(s: Store, j: nat, day: string -> int)
    requires Calendar(s) && j < |TableOf(s, YEARS)| && Monotone(day)
    requires InOrder(Cell(TableOf(s, YEARS)[j], "start_date").s, Cell(TableOf(s, YEARS)[j], "end_date").s)
    ensures var year := TableOf(s, YEARS)[j];
      Length(IntervalsOf(TableOf(s, TERMS), Cell(year, ID)), day)
      <= day(Cell(year, "end_date").s) - day(Cell(year, "start_date").s)
  {
    hide IntervalsOf, Monotone;
    var terms, years := TableOf(s, TERMS), TableOf(s, YEARS);
    var year := years[j];
    var q := IntervalsOf(terms, Cell(year, ID));
    var at := IntervalSources(terms, Cell(year, ID));
    forall k | 0 <= k < |q|
      ensures InOrder(Cell(year, "start_date").s, q[k].0) && StringLess(q[k].0, q[k].1)
        && InOrder(q[k].1, Cell(year, "end_date").s)
    {
      assert IsTermOf(q[k], terms, at[k], Cell(year, ID));
      assert TermPlaced(terms[at[k]], years);
      var m :| 0 <= m < |years| && Cell(years[m], ID) == Cell(terms[at[k]], "academic_year_id")
        && TermInside(terms[at[k]], years[m]);
    }
    forall k, m | 0 <= k < m < |q| ensures InOrder(q[k].1, q[m].0) || InOrder(q[m].1, q[k].0) {
      assert IsTermOf(q[k], terms, at[k], Cell(year, ID)) && IsTermOf(q[m], terms, at[m], Cell(year, ID));
      assert Apart(terms[at[k]], terms[at[m]]);
    }
    DisjointFit(q, Cell(year, "start_date").s, Cell(year, "end_date").s, day);
  }

  // ----- Every run

  datatype Call =
    | Create(yearId: Option<int>, newTerm: NewTerm)
    | Change(id: Option<int>, update: TermUpdate)
    | Elsewhere(table: string, rows: Table)

  function Apply(s: Store, call: Call): Store {
    match call
    case Create(yearId, data) => CreateTermSpec(s, yearId, data).store
    case Change(id, data) => UpdateTermSpec(s, id, data).store
    case Elsewhere(table, rows) => if table == TERMS || table == YEARS then s else s[table := rows]
  }

  function RunCalls(s: Store, calls: seq<Call>): Store {
    if calls == [] then s else Apply(RunCalls(s, calls[..|calls| - 1]), calls[|calls| - 1])
  }

  /** Keys in lower case, non-empty dates where dates are given, and no move to another year. */
  predicate Plain(data: TermUpdate) {
    forall i | 0 <= i < |data| ::
      && IsWord(data[i].0) && Lower(data[i].0) == data[i].0 && data[i].0 != "academic_year_id"
      && (data[i].0 == "start_date" || data[i].0 == "end_date" ==> Text(data[i].1))
  }

  predicate GivesDates(call: Call) { call.Change? ==> Plain(call.update) }

  lemma PlainFront(data: TermUpdate)
    requires Plain(data) && data != []
    ensures Plain(data[..|data| - 1])
  {
    var front := data[..|data| - 1];
    assert forall i | 0 <= i < |front| :: front[i] == data[i];
  }

  lemma {:induction false} PlainSets(data: TermUpdate)
    requires Plain(data)
    ensures |UpdateSets(data)| == |UpdateValues(data)|
  {
    if data != [] {
      PlainFront(data);
      PlainSets(data[..|data| - 1]);
    }
  }

  lemma PlainLast(data: TermUpdate)
    requires Plain(data) && data != []
    ensures var (key, v) := data[|data| - 1]; var front := data[..|data| - 1];
      if key == ID then UpdateSets(data) == UpdateSets(front) && UpdateValues(data) == UpdateValues(front)
      else UpdateSets(data) == UpdateSets(front) + [key] && UpdateValues(data) == UpdateValues(front) + [Kept(key, v)]
  {
    hide Kept, Lower;
  }

  /** The cell that a plain request leaves: the last value under the key, or the old one. */
  lemma {:induction false} PlainCell(r: Record, data: TermUpdate, tail: seq<Value>, col: string)
    requires Plain(data)
    ensures var v := Lookup(data, col);
      Cell(Assign(r, UpdateSets(data), UpdateValues(data) + tail), col)
      == if col != ID && v.Some? then Kept(col, v.value) else Cell(r, col)
  {
    hide Assign, Plain, UpdateSets, UpdateValues;
    if data != [] {
      var (key, v) := data[|data| - 1];
      var front := data[..|data| - 1];
      PlainFront(data);
      PlainSets(front);
      PlainLast(data);
      var sets, values := UpdateSets(front), UpdateValues(front);
      if key == ID {
        PlainCell(r, front, tail, col);
      } else {
        var written := Kept(key, v);
        PlainCell(r, front, [written] + tail, col);
        assert UpdateValues(data) + tail == values + ([written] + tail);
        AssignSnoc(r, sets, key, UpdateValues(data) + tail);
        assert Param(UpdateValues(data) + tail, |sets|) == written;
      }
    } else {
      NothingAssigned(r, tail);
    }
  }

  lemma NothingAssigned(r: Record, params: seq<Value>)
    ensures Assign(r, UpdateSets([]), UpdateValues([]) + params) == r
  {
  }

  /** The dates of a plain request are the checked ones. */
  lemma {:induction false} PlainDates(data: TermUpdate, col: string)
    requires Plain(data) && (col == "start_date" || col == "end_date")
    ensures var v := Lookup(data, col); v.Some? ==> Text(v.value)
    ensures Lookup(data, "academic_year_id").None?
  {
    if data != [] {
      PlainFront(data);
      PlainDates(data[..|data| - 1], col);
    }
  }

  /** A plain request that is accepted settles. */
  lemma PlainSettles(s: Store, id: Option<int>, data: TermUpdate)
    requires Calendar(s) && Plain(data) && UpdateCheck(s, id, data).None?
    ensures id.Some? && Settles(s, id.value, data)
  {
    hide Plain, Lower, IsWord, Trim, Blank, Filter, Matches, FindOverlap, Apart, UpdateSets, UpdateValues, Assign,
      StringLess;
    PlainSets(data);
    PlainDates(data, "start_date");
    PlainDates(data, "end_date");
    var r := First(s, TERMS, BY_ID, [Num(id.value)]).value;
    assert Target(data, id.value) == Num(id.value);
    PlainCell(r, data, [Num(id.value)], "start_date");
    PlainCell(r, data, [Num(id.value)], "end_date");
    PlainCell(r, data, [Num(id.value)], "academic_year_id");
    PlainCell(r, data, [Num(id.value)], ID);
    var i := FoundByKey(TableOf(s, TERMS), Num(id.value));
    YearOfTerm(s, i);
    PlacedDates(r, TableOf(s, YEARS));
  }

  lemma YearOfTerm(s: Store, i: nat)
    requires Calendar(s) && i < |TableOf(s, TERMS)|
    ensures First(s, YEARS, BY_ID, [Cell(TableOf(s, TERMS)[i], "academic_year_id")]).Some?
    ensures TermPlaced(TableOf(s, TERMS)[i], TableOf(s, YEARS))
  {
    hide Filter, Apart;
    var t := TableOf(s, TERMS)[i];
    assert TermPlaced(t, TableOf(s, YEARS));
    var j :| 0 <= j < |TableOf(s, YEARS)| && Cell(TableOf(s, YEARS)[j], ID) == Cell(t, "academic_year_id");
    YearById(s, j);
  }

  /** Any run of creations and date-giving updates keeps the calendar. */
  lemma {:induction false} CalendarInEveryRun(s: Store, calls: seq<Call>)
    requires Calendar(s) && forall k | 0 <= k < |calls| :: GivesDates(calls[k])
    ensures Calendar(RunCalls(s, calls))
  {
    hide Calendar, CreateTermSpec, UpdateTermSpec, GivesDates;
    if calls != [] {
      var front, call := calls[..|calls| - 1], calls[|calls| - 1];
      forall k | 0 <= k < |front| ensures GivesDates(front[k]) { assert front[k] == calls[k]; }
      CalendarInEveryRun(s, front);
      assert GivesDates(call);
      CallKeepsCalendar(RunCalls(s, front), call);
    }
  }

  /** A call that the service refuses or that settles. */
  ghost predicate Harmless(s: Store, call: Call) {
    call.Change? && UpdateCheck(s, call.id, call.update).None? ==>
      call.id.Some? && Settles(s, call.id.value, call.update)
  }

  lemma CallKeepsCalendarIff(s: Store, call: Call)
    requires Calendar(s)
    ensures Calendar(Apply(s, call)) <==> Harmless(s, call)
  {
    hide Calendar, Settles, UpdateCheck, CreateTermSpec, First;
    match call
    case Create(yearId, data) => CreateKeepsCalendar(s, yearId, data);
    case Change(id, data) =>
      if UpdateCheck(s, id, data).None? {
        UpdateKeepsCalendarIff(s, id, data);
      }
    case Elsewhere(table, rows) => ElsewhereKeeps(s, table, rows);
  }

  lemma ElsewhereKeeps(s: Store, table: string, rows: Table)
    requires Calendar(s)
    ensures Calendar(Apply(s, Elsewhere(table, rows)))
  {
  }

  ghost predicate HoldsAfter(s: Store, calls: seq<Call>, n: nat)
    requires n <= |calls|
  {
    Calendar(RunCalls(s, calls[..n]))
  }

  ghost predicate HarmlessAt(s: Store, calls: seq<Call>, k: nat)
    requires k < |calls|
  {
    Harmless(RunCalls(s, calls[..k]), calls[k])
  }

  /** For every run, whatever the updates: the calendar holds in all its states exactly when
      each accepted update settles in the state that it meets. */
  lemma {:induction false} CalendarHeldIff(s: Store, calls: seq<Call>)
    requires Calendar(s)
    ensures (forall n | 0 <= n <= |calls| :: HoldsAfter(s, calls, n)) <==>
            (forall k | 0 <= k < |calls| :: HarmlessAt(s, calls, k))
  {
    hide Calendar, HoldsAfter, HarmlessAt;
    if calls == [] {
      HoldsAtStart(s, calls);
    } else {
      var m := |calls| - 1;
      var front := calls[..m];
      CalendarHeldIff(s, front);
      forall n | 0 <= n <= m ensures HoldsAfter(s, front, n) <==> HoldsAfter(s, calls, n) { SameStates(s, calls, n); }
      forall k | 0 <= k < m ensures HarmlessAt(s, front, k) <==> HarmlessAt(s, calls, k) { SameStates(s, calls, k); }
      LastCall(s, calls);
    }
  }

  lemma HoldsAtStart(s: Store, calls: seq<Call>)
    requires Calendar(s)
    ensures HoldsAfter(s, calls, 0)
  {
    assert calls[..0] == [];
  }

  lemma SameStates(s: Store, calls: seq<Call>, n: nat)
    requires n < |calls|
    ensures HoldsAfter(s, calls[..|calls| - 1], n) <==> HoldsAfter(s, calls, n)
    ensures n < |calls| - 1 ==> (HarmlessAt(s, calls[..|calls| - 1], n) <==> HarmlessAt(s, calls, n))
  {
    assert calls[..|calls| - 1][..n] == calls[..n];
  }

  lemma LastCall(s: Store, calls: seq<Call>)
    requires calls != []
    ensures HoldsAfter(s, calls, |calls| - 1) ==>
      (HoldsAfter(s, calls, |calls|) <==> HarmlessAt(s, calls, |calls| - 1))
  {
    hide Calendar, Harmless, Apply;
    assert calls[..|calls|] == calls;
    if HoldsAfter(s, calls, |calls| - 1) {
      CallKeepsCalendarIff(RunCalls(s, calls[..|calls| - 1]), calls[|calls| - 1]);
    }
  }

  lemma CallKeepsCalendar(s: Store, call: Call)
    requires Calendar(s) && GivesDates(call)
    ensures Calendar(Apply(s, call))
  {
    match call
    case Create(yearId, data) => CreateKeepsCalendar(s, yearId, data);
    case Change(id, data) => ChangeKeepsCalendar(s, id, data);
    case Elsewhere(table, rows) =>
  }

  lemma ChangeKeepsCalendar(s: Store, id: Option<int>, data: TermUpdate)
    requires Calendar(s) && GivesDates(Change(id, data))
    ensures Calendar(UpdateTermSpec(s, id, data).store)
  {
    hide Calendar, UpdateCheck, Plain, Settles;
    if UpdateCheck(s, id, data).None? {
      PlainSettles(s, id, data);
      UpdateKeepsCalendarIff(s, id, data);
    }
  }
}
