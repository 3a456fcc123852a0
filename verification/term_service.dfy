/** The semester a month of the year falls in. */
module SemesterUtil {
  import opened Entities

  /** `currentSemester()` for the current month `month` (1 to 12). */
  function SemesterOf(month: int): (sem: Semester)
    ensures 3 <= month <= 5 ==> sem == Spring
    ensures 6 <= month <= 8 ==> sem == Summer
    ensures 9 <= month <= 11 ==> sem == Fall
    ensures month == 12 || month == 1 || month == 2 ==> sem == Winter
  {
    if 3 <= month <= 5 then Spring
    else if 6 <= month <= 8 then Summer
    else if 9 <= month <= 11 then Fall
    else Winter
  }

  /** The months of the year that fall in `sem`. */
  function MonthsOf(sem: Semester): set<int> {
    set m | 1 <= m <= 12 && SemesterOf(m) == sem
  }

  /** Every semester gets exactly three months of the year. */
  lemma ThreeMonthsEach(sem: Semester)
    ensures |MonthsOf(sem)| == 3
    ensures sem == Spring ==> MonthsOf(sem) == {3, 4, 5}
    ensures sem == Summer ==> MonthsOf(sem) == {6, 7, 8}
    ensures sem == Fall ==> MonthsOf(sem) == {9, 10, 11}
    ensures sem == Winter ==> MonthsOf(sem) == {12, 1, 2}
  {
    var expected := match sem
      case Spring => {3, 4, 5}
      case Summer => {6, 7, 8}
      case Fall => {9, 10, 11}
      case Winter => {12, 1, 2};
    forall m ensures m in MonthsOf(sem) <==> m in expected {
    }
    assert MonthsOf(sem) == expected;
  }
}

/** Terms: creation with a year and a semester taken from the clock,
    deletion before registration opens, updates and finders that hide
    deleted terms. `today` is the current date. */
module TermService {
  import opened Common
  import opened Tables
  import opened Entities
  import opened BaseService
  import opened SemesterUtil

  /** `existsBySemesterAndMajor(semester, major)`: deleted terms included. */
  predicate SemesterTaken(t: Table<Term>, sem: Semester, majorId: Id) {
    exists k :: k in t.rows && t.rows[k].semester == Some(sem) && t.rows[k].majorId == majorId
  }

  /** `prePersist(term)`: the year is the registration start's year (a
      null calendar or date fails when read) and may not lie in the past; the semester is today's; a term of this year is
      refused when the major already has a term of that semester (of any
      year, deleted or not). */
  function PrePersist(t: Table<Term>, term: Term, today: Date): (r: Result<Term>)
    ensures RegistrationStart(term).None? ==> r == Err(NullValue)
    ensures r.Ok? <==>
      && RegistrationStart(term).Some?
      && RegistrationStart(term).value.year >= today.year
      && !(SemesterTaken(t, SemesterOf(today.month), term.majorId) && RegistrationStart(term).value.year == today.year)
    ensures RegistrationStart(term).Some? && RegistrationStart(term).value.year < today.year ==>
      r == Err(InvalidArgument)
    ensures RegistrationStart(term).Some? && RegistrationStart(term).value.year >= today.year && r.Err? ==>
      r.error == AlreadyExists
    ensures r.Ok? ==> r.value == term.(year := RegistrationStart(term).value.year,
      semester := Some(SemesterOf(today.month)), deleted := false)
  {
    var start :- RegistrationStart(term).OrFail(NullValue);
    var year := start.year;
    :- Need(!(year < today.year), InvalidArgument);
    var sem := SemesterOf(today.month);
    :- Need(!(SemesterTaken(t, sem, term.majorId) && year == today.year), AlreadyExists);
    Ok(term.(year := year, semester := Some(sem), deleted := false))
  }

  /** A term for a later year is never refused as a duplicate. */
  lemma LaterYearNeverDuplicate(t: Table<Term>, term: Term, today: Date)
    requires RegistrationStart(term).Some? && RegistrationStart(term).value.year > today.year
    ensures PrePersist(t, term, today).Ok?
  {
  }

  /** `persist(term)` */
  function Create(s: Store, term: Term, today: Date): (r: Result<(Store, Id)>)
    ensures r.Err? <==> PrePersist(s.terms, term, today).Err?
    ensures r.Ok? ==>
      && r.value.1 !in s.terms.rows
      && r.value.0.terms.rows == s.terms.rows[r.value.1 := PrePersist(s.terms, term, today).value]
      && r.value.0 == s.(terms := r.value.0.terms)
  {
    var (t, id) :- Persist(s.terms, term, (x: Term) => PrePersist(s.terms, x, today));
    Ok((s.(terms := t), id))
  }

  /** A second term of the current year in the same semester for the same
      major is refused. */
  lemma CreateTwiceRefused(s: Store, term: Term, today: Date)
    requires RegistrationStart(term).Some? && RegistrationStart(term).value.year == today.year
    requires Create(s, term, today).Ok?
    ensures Create(Create(s, term, today).value.0, term, today) == Err(AlreadyExists)
  {
  }

  function MarkDeleted(t: Term): Term {
    t.(deleted := true)
  }

  /** `deleteById(id)`: allowed only while registration has not opened
      (today strictly before the registration start, which fails when the
      calendar or the date is null); the term is then soft-deleted, whether
      or not it was deleted already. */
  function DeleteById(s: Store, id: Id, today: Date): (r: Result<Store>)
    ensures id !in s.terms.rows ==> r == Err(NotFound)
    ensures id in s.terms.rows && RegistrationStart(s.terms.rows[id]).None? ==> r == Err(NullValue)
    ensures r.Ok? <==>
      id in s.terms.rows && RegistrationStart(s.terms.rows[id]).Some?
      && Before(today, RegistrationStart(s.terms.rows[id]).value)
    ensures r.Err? && id in s.terms.rows && RegistrationStart(s.terms.rows[id]).Some? ==> r.error == AccessDenied
    ensures r.Ok? ==>
      && r.value.terms.rows == s.terms.rows[id := s.terms.rows[id].(deleted := true)]
      && r.value == s.(terms := r.value.terms)
  {
    var term :- Lookup(s.terms, id, NotFound);
    var start :- RegistrationStart(term).OrFail(NullValue);
    :- Need(Before(today, start), AccessDenied);
    Ok(s.(terms := Put(s.terms, id, term.(deleted := true))))
  }

  /** The term service's delete is the generic soft delete behind a date
      guard. */
  lemma DeleteIsGuardedSoftDelete(s: Store, id: Id, today: Date)
    requires DeleteById(s, id, today).Ok?
    ensures BaseService.DeleteById(s.terms, id, HasDeletedField(MarkDeleted)).Ok?
    ensures DeleteById(s, id, today).value.terms.rows ==
      BaseService.DeleteById(s.terms, id, HasDeletedField(MarkDeleted)).value.rows
  {
  }

  /** `update(id, term)`: a missing or deleted term is not found; year,
      semester, calendar and major are copied. */
  function Update(s: Store, id: Id, term: Term): (r: Result<Store>)
    ensures r.Ok? <==> id in s.terms.rows && !s.terms.rows[id].deleted
    ensures r.Err? ==> r.error == NotFound
    ensures r.Ok? ==>
      && r.value.terms.rows == s.terms.rows[id := s.terms.rows[id].(year := term.year,
           semester := term.semester, calendar := term.calendar, majorId := term.majorId)]
      && r.value == s.(terms := r.value.terms)
  {
    var found :- Lookup(s.terms, id, NotFound);
    :- Need(!found.deleted, NotFound);
    Ok(s.(terms := Put(s.terms, id, found.(year := term.year, semester := term.semester,
      calendar := term.calendar, majorId := term.majorId))))
  }

  /** `findAll()`: the terms that are not deleted. */
  function FindAll(s: Store): (r: seq<Id>)
    ensures forall k :: k in r <==> k in s.terms.rows && !s.terms.rows[k].deleted
  {
    Select(s.terms, (t: Term) => !t.deleted)
  }

  /** `findById(id)`: a deleted term is not found. */
  function FindById(s: Store, id: Id): (r: Result<Term>)
    ensures r.Ok? <==> id in s.terms.rows && !s.terms.rows[id].deleted
    ensures r.Ok? ==> r.value == s.terms.rows[id]
    ensures r.Err? ==> r.error == NotFound
  {
    var term :- Lookup(s.terms, id, NotFound);
    :- Need(!term.deleted, NotFound);
    Ok(term)
  }

  /** `findTermCalenderByTermId(id)`: does not look at `deleted`; a term
      without a calendar gives `None`, Java's null. */
  function FindCalendar(s: Store, id: Id): (r: Result<Option<AcademicCalendar>>)
    ensures r.Ok? <==> id in s.terms.rows
    ensures r.Ok? ==> r.value == s.terms.rows[id].calendar
    ensures r.Err? ==> r.error == NotFound
  {
    var term :- Lookup(s.terms, id, NotFound);
    Ok(term.calendar)
  }

  /** After a delete the term is hidden from the finders and can no longer
      be updated, but its calendar is still served. */
  lemma DeletedTermVisibility(s: Store, id: Id, today: Date, term: Term)
    requires DeleteById(s, id, today).Ok?
    ensures var s1 := DeleteById(s, id, today).value;
      && FindById(s1, id) == Err(NotFound)
      && Update(s1, id, term) == Err(NotFound)
      && id !in FindAll(s1)
      && FindCalendar(s1, id) == Ok(s.terms.rows[id].calendar)
  {
  }
}
