/** The schedule clash query of the section repository. A section meets
    weekly on `meetingDay` during `[startTime, endTime)`. The query
    compares columns with SQL `=` and `<`, so a null on either side makes
    the comparison unknown and the row does not match. */
module OfferedCourseRepository {
  import opened Common
  import opened Tables
  import opened Entities

  /** `existsOverlappingCourse`'s condition on one stored section `oc`
      against the candidate's teacher, term, meeting day and times. */
  predicate Overlaps(oc: OfferedCourse, teacher: Option<Id>, term: Option<Id>, startTime: Option<int>,
                     meetingDay: Option<DayOfWeek>, endTime: Option<int>) {
    && oc.teacherId.Some? && teacher.Some? && oc.teacherId.value == teacher.value
    && oc.termId.Some? && term.Some? && oc.termId.value == term.value
    && oc.meetingDay.Some? && meetingDay.Some? && oc.meetingDay.value == meetingDay.value
    && oc.startTime.Some? && endTime.Some? && oc.startTime.value < endTime.value
    && oc.endTime.Some? && startTime.Some? && oc.endTime.value > startTime.value
  }

  /** Section `a`, stored, clashes with candidate `b`. */
  predicate Clash(a: OfferedCourse, b: OfferedCourse) {
    Overlaps(a, b.teacherId, b.termId, b.startTime, b.meetingDay, b.endTime)
  }

  /** `existsOverlappingCourse(teacher, term, startTime, meetingDay, endTime)`:
      whether the count of matching stored sections is positive. */
  function ExistsOverlapping(t: Table<OfferedCourse>, candidate: OfferedCourse): (r: bool)
    ensures r <==> exists k :: k in t.rows && Clash(t.rows[k], candidate)
  {
    FindFirst(t, (oc: OfferedCourse) => Clash(oc, candidate)).Some?
  }

  /** Two sections clash exactly when they share teacher, term and day and
      their half-open time ranges intersect; the relation is symmetric. */
  lemma ClashMeans(a: OfferedCourse, b: OfferedCourse)
    ensures Clash(a, b) <==>
      && a.teacherId.Some? && a.teacherId == b.teacherId
      && a.termId.Some? && a.termId == b.termId
      && a.meetingDay.Some? && a.meetingDay == b.meetingDay
      && a.startTime.Some? && a.endTime.Some? && b.startTime.Some? && b.endTime.Some?
      && a.startTime.value < b.endTime.value && b.startTime.value < a.endTime.value
    ensures Clash(a, b) <==> Clash(b, a)
  {
  }

  /** Back-to-back sections, one ending when the other starts, do not clash. */
  lemma BackToBackNoClash(a: OfferedCourse, b: OfferedCourse)
    requires a.endTime.Some? && b.startTime.Some? && a.endTime.value <= b.startTime.value
    ensures !Clash(a, b) && !Clash(b, a)
  {
  }

  /** No two distinct stored sections clash. */
  ghost predicate ClashFree(t: Table<OfferedCourse>) {
    forall i, j :: i in t.rows && j in t.rows && i != j ==> !Clash(t.rows[i], t.rows[j])
  }
}

/** Course sections: creation with the clash and window checks, updates
    of the time and capacity, and listing a term's sections. */
module OfferedCourseService {
  import opened Common
  import opened Tables
  import opened Entities
  import opened BaseService
  import opened OfferedCourseRepository

  /** `prePersist(offeredCourse)`: the clash query runs first and a clash is
      refused as access denied; then both times are required and the
      start may not come after the end (equal is allowed). */
  function PrePersist(t: Table<OfferedCourse>, oc: OfferedCourse): (r: Result<OfferedCourse>)
    ensures ExistsOverlapping(t, oc) ==> r == Err(AccessDenied)
    ensures !ExistsOverlapping(t, oc) && (oc.startTime.None? || oc.endTime.None?) ==> r == Err(InvalidArgument)
    ensures r.Ok? <==>
      && (forall k :: k in t.rows ==> !Clash(t.rows[k], oc))
      && oc.startTime.Some? && oc.endTime.Some? && oc.startTime.value <= oc.endTime.value
    ensures r.Ok? ==> r.value == oc
  {
    var clash := ExistsOverlapping(t, oc);
    :- Need(!clash, AccessDenied);
    var start :- oc.startTime.OrFail(InvalidArgument);
    var end :- oc.endTime.OrFail(InvalidArgument);
    :- Need(!(start > end), InvalidArgument);
    Ok(oc)
  }

  /** `persist(offeredCourse)` */
  function Create(s: Store, oc: OfferedCourse): (r: Result<(Store, Id)>)
    ensures r.Err? <==> PrePersist(s.offeredCourses, oc).Err?
    ensures r.Ok? ==>
      && r.value.1 !in s.offeredCourses.rows
      && r.value.0.offeredCourses.rows == s.offeredCourses.rows[r.value.1 := oc]
      && r.value.0 == s.(offeredCourses := r.value.0.offeredCourses)
  {
    var (t, id) :- Persist(s.offeredCourses, oc, (x: OfferedCourse) => PrePersist(s.offeredCourses, x));
    Ok((s.(offeredCourses := t), id))
  }

  /** Creation keeps a clash-free schedule clash-free: the new section
      clashes with no stored one, in either direction. */
  lemma CreateKeepsClashFree(s: Store, oc: OfferedCourse)
    requires ClashFree(s.offeredCourses)
    requires Create(s, oc).Ok?
    ensures ClashFree(Create(s, oc).value.0.offeredCourses)
  {
  }

  /** `update(id, offeredCourse)`: refused once the section's term has
      opened registration (its registration start is before today);
      otherwise only start time, end time and capacity are copied, with
      neither the clash nor the window checked again. A section without a
      term, a term without a calendar and a calendar without a registration
      start each fail when they are read. */
  function Update(s: Store, id: Id, oc: OfferedCourse, today: Date): (r: Result<Store>)
    requires OfferedCoursesLinked(s)
    ensures id !in s.offeredCourses.rows ==> r == Err(NotFound)
    ensures id in s.offeredCourses.rows && s.offeredCourses.rows[id].termId.None? ==> r == Err(NullValue)
    ensures r.Ok? <==>
      && id in s.offeredCourses.rows && s.offeredCourses.rows[id].termId.Some?
      && RegistrationStart(s.terms.rows[s.offeredCourses.rows[id].termId.value]).Some?
      && !Before(RegistrationStart(s.terms.rows[s.offeredCourses.rows[id].termId.value]).value, today)
    ensures r.Err? && id in s.offeredCourses.rows && s.offeredCourses.rows[id].termId.Some? ==>
      r.error == (if RegistrationStart(s.terms.rows[s.offeredCourses.rows[id].termId.value]).None?
                  then NullValue else InvalidArgument)
    ensures r.Ok? ==>
      && r.value.offeredCourses.rows.Keys == s.offeredCourses.rows.Keys
      && r.value.offeredCourses.rows[id] == s.offeredCourses.rows[id].(
           startTime := oc.startTime, endTime := oc.endTime, capacity := oc.capacity)
      && (forall k :: k in s.offeredCourses.rows && k != id ==> r.value.offeredCourses.rows[k] == s.offeredCourses.rows[k])
      && r.value == s.(offeredCourses := r.value.offeredCourses)
  {
    var found :- Lookup(s.offeredCourses, id, NotFound);
    var termId :- found.termId.OrFail(NullValue);
    var registrationStart :- RegistrationStart(s.terms.rows[termId]).OrFail(NullValue);
    :- Need(!Before(registrationStart, today), InvalidArgument);
    Ok(s.(offeredCourses := Put(s.offeredCourses, id,
      found.(startTime := oc.startTime, endTime := oc.endTime, capacity := oc.capacity))))
  }

  /** An update keeps the section's day, location, course, term and teacher. */
  lemma UpdateKeepsAssignment(s: Store, id: Id, oc: OfferedCourse, today: Date)
    requires OfferedCoursesLinked(s)
    requires Update(s, id, oc, today).Ok?
    ensures var x := Update(s, id, oc, today).value.offeredCourses.rows[id];
      var y := s.offeredCourses.rows[id];
      x.meetingDay == y.meetingDay && x.location == y.location && x.courseId == y.courseId
      && x.termId == y.termId && x.teacherId == y.teacherId
  {
  }

  /** The name of the major of the person behind account `accountId`. */
  function AccountMajorName(s: Store, accountId: Id): string
    requires accountId in s.accounts.rows && AccountsLinked(s) && PersonsLinked(s)
  {
    s.majors.rows[s.persons.rows[s.accounts.rows[accountId].personId].majorId].name
  }

  /** `findAllTermCourses(termId, principal)`: the account and the term must
      exist (a deleted term is found), and the caller's major must have the
      term's major's name; the result is every section of the term. */
  function FindAllTermCourses(s: Store, username: string, termId: Id): (r: Result<seq<Id>>)
    requires AccountsLinked(s) && PersonsLinked(s) && TermsLinked(s)
    ensures AccountByUsername(s, username).None? ==> r == Err(NotFound)
    ensures AccountByUsername(s, username).Some? && termId !in s.terms.rows ==> r == Err(NotFound)
    ensures r.Ok? <==>
      && AccountByUsername(s, username).Some? && termId in s.terms.rows
      && AccountMajorName(s, AccountByUsername(s, username).value) == s.majors.rows[s.terms.rows[termId].majorId].name
    ensures r.Err? && AccountByUsername(s, username).Some? && termId in s.terms.rows ==> r.error == AccessDenied
    ensures r.Ok? ==> forall k :: k in r.value <==>
      k in s.offeredCourses.rows && s.offeredCourses.rows[k].termId == Some(termId)
  {
    var accountId :- AccountByUsername(s, username).OrFail(NotFound);
    var term :- Lookup(s.terms, termId, NotFound);
    :- Need(AccountMajorName(s, accountId) == s.majors.rows[term.majorId].name, AccessDenied);
    Ok(Select(s.offeredCourses, (oc: OfferedCourse) => oc.termId == Some(termId)))
  }

  /** A member of the term's own major may always list its sections. */
  lemma OwnMajorMayListTerm(s: Store, username: string, termId: Id)
    requires AccountsLinked(s) && PersonsLinked(s) && TermsLinked(s)
    requires AccountByUsername(s, username).Some? && termId in s.terms.rows
    requires s.persons.rows[s.accounts.rows[AccountByUsername(s, username).value].personId].majorId ==
             s.terms.rows[termId].majorId
    ensures FindAllTermCourses(s, username, termId).Ok?
  {
  }

  /** `findAllTeacherCourse(principal)`: the sections the caller teaches. */
  function FindAllTeacherCourses(s: Store, username: string): (r: Result<seq<Id>>)
    ensures r.Err? <==> AccountByUsername(s, username).None?
    ensures r.Err? ==> r.error == NotFound
    ensures r.Ok? ==> forall k :: k in r.value <==>
      k in s.offeredCourses.rows
      && s.offeredCourses.rows[k].teacherId == Some(s.accounts.rows[AccountByUsername(s, username).value].personId)
  {
    var accountId :- AccountByUsername(s, username).OrFail(NotFound);
    var pid := s.accounts.rows[accountId].personId;
    Ok(Select(s.offeredCourses, (oc: OfferedCourse) => oc.teacherId == Some(pid)))
  }
}

/** Resolves the term, course and teacher ids of a section request and
    reports them back. */
module OfferedCourseMapper {
  import opened Common
  import opened Tables
  import opened Entities

  /** The person exists and holds the `TEACHER` role, which exists. */
  predicate TeacherQualified(s: Store, personId: Id) {
    && personId in s.persons.rows
    && RoleByName(s, "TEACHER").Some?
    && RoleByName(s, "TEACHER").value in s.persons.rows[personId].roles
  }

  /** `afterToEntity(dto, entity)`, for the ids the request carries: the
      term, then the course, then the teacher are looked up when given.
      The teacher must hold the `TEACHER` role (which must exist) and
      belong to the major of the section's term; each of these failures
      is `NotFound`. A teacher on a section without a term fails when the
      term's major is read. A term the entity already refers to is stored. */
  function AfterToEntity(s: Store, termId: Option<Id>, courseId: Option<Id>, teacherId: Option<Id>,
                         oc: OfferedCourse): (r: Result<OfferedCourse>)
    requires oc.termId.Some? ==> oc.termId.value in s.terms.rows
    ensures termId.Some? && termId.value !in s.terms.rows ==> r == Err(NotFound)
    ensures r.Ok? ==>
      && r.value.meetingDay == oc.meetingDay && r.value.startTime == oc.startTime
      && r.value.endTime == oc.endTime && r.value.capacity == oc.capacity && r.value.location == oc.location
      && r.value.termId == (if termId.Some? then termId else oc.termId)
      && r.value.courseId == (if courseId.Some? then courseId else oc.courseId)
      && r.value.teacherId == (if teacherId.Some? then teacherId else oc.teacherId)
    ensures r.Ok? && termId.Some? ==> termId.value in s.terms.rows
    ensures r.Ok? && courseId.Some? ==> courseId.value in s.courses.rows
    ensures r.Ok? && teacherId.Some? ==>
      && teacherId.value in s.persons.rows
      && RoleByName(s, "TEACHER").Some?
      && RoleByName(s, "TEACHER").value in s.persons.rows[teacherId.value].roles
      && r.value.termId.Some?
      && s.persons.rows[teacherId.value].majorId == s.terms.rows[r.value.termId.value].majorId
    ensures r.Err? && teacherId.Some? && (termId.Some? || oc.termId.Some?) ==> r.error == NotFound
    ensures r.Ok? <==>
      && (termId.Some? ==> termId.value in s.terms.rows)
      && (courseId.Some? ==> courseId.value in s.courses.rows)
      && (teacherId.Some? ==>
            && TeacherQualified(s, teacherId.value)
            && (termId.Some? || oc.termId.Some?)
            && s.persons.rows[teacherId.value].majorId ==
               s.terms.rows[if termId.Some? then termId.value else oc.termId.value].majorId)
    ensures r.Err? ==>
      (r.error == NullValue <==>
         && teacherId.Some? && termId.None? && oc.termId.None?
         && (courseId.Some? ==> courseId.value in s.courses.rows)
         && TeacherQualified(s, teacherId.value))
    ensures r.Err? ==> r.error == NullValue || r.error == NotFound
  {
    var withTerm :-
      if termId.Some? then
        var _ :- Lookup(s.terms, termId.value, NotFound);
        Ok(oc.(termId := termId))
      else Ok(oc);
    var withCourse :-
      if courseId.Some? then
        var _ :- Lookup(s.courses, courseId.value, NotFound);
        Ok(withTerm.(courseId := courseId))
      else Ok(withTerm);
    if teacherId.Some? then
      var teacher :- Lookup(s.persons, teacherId.value, NotFound);
      var roleId :- RoleByName(s, "TEACHER").OrFail(NotFound);
      :- Need(roleId in teacher.roles, NotFound);
      var term :- withCourse.termId.OrFail(NullValue);
      :- Need(teacher.majorId == s.terms.rows[term].majorId, NotFound);
      Ok(withCourse.(teacherId := teacherId))
    else Ok(withCourse)
  }

  /** `afterToDTO(entity, dto)`: the ids of the term, course and teacher,
      each reported when present. */
  function AfterToDto(oc: OfferedCourse): (r: (Option<Id>, Option<Id>, Option<Id>))
    ensures r.0.Some? <==> oc.termId.Some?
    ensures r.1.Some? <==> oc.courseId.Some?
    ensures r.2.Some? <==> oc.teacherId.Some?
  {
    (oc.termId, oc.courseId, oc.teacherId)
  }

  /** Round trip: the ids a request resolves are the ids reported back. */
  lemma IdsRoundTrip(s: Store, termId: Id, courseId: Id, teacherId: Id, oc: OfferedCourse)
    requires oc.termId.Some? ==> oc.termId.value in s.terms.rows
    requires AfterToEntity(s, Some(termId), Some(courseId), Some(teacherId), oc).Ok?
    ensures AfterToDto(AfterToEntity(s, Some(termId), Some(courseId), Some(teacherId), oc).value) ==
      (Some(termId), Some(courseId), Some(teacherId))
  {
  }

  /** A teacher from another major than the term's is refused. */
  lemma TeacherOfOtherMajorRefused(s: Store, termId: Id, teacherId: Id, oc: OfferedCourse)
    requires oc.termId.Some? ==> oc.termId.value in s.terms.rows
    requires termId in s.terms.rows && teacherId in s.persons.rows
    requires s.persons.rows[teacherId].majorId != s.terms.rows[termId].majorId
    ensures AfterToEntity(s, Some(termId), None, Some(teacherId), oc) == Err(NotFound)
  {
  }
}
