/** Majors: unique names (deleted majors keep theirs), a code drawn at
    creation, soft delete, and finders that hide deleted majors. */
module MajorService {
  import opened Common
  import opened Tables
  import opened Entities
  import BaseService

  /** No two stored majors share a name. */
  ghost predicate NamesUnique(s: Store) {
    forall i, j :: i in s.majors.rows && j in s.majors.rows && i != j ==>
      s.majors.rows[i].name != s.majors.rows[j].name
  }

  /** `prePersist(major)`: a name already in use, by a deleted major too,
      is refused; `code` stands for the random code drawn for the major. */
  function PrePersist(s: Store, m: Major, code: nat): (r: Result<Major>)
    ensures r.Ok? <==> forall k :: k in s.majors.rows ==> s.majors.rows[k].name != m.name
    ensures r.Err? ==> r.error == AlreadyExists
    ensures r.Ok? ==> r.value == m.(majorCode := Some(code), deleted := false)
  {
    var taken := MajorByName(s, m.name);
    :- Need(taken.None?, AlreadyExists);
    Ok(m.(majorCode := Some(code), deleted := false))
  }

  /** `persist(major)` */
  function Create(s: Store, m: Major, code: nat): (r: Result<(Store, Id)>)
    ensures r.Err? <==> PrePersist(s, m, code).Err?
    ensures r.Err? ==> r.error == AlreadyExists
    ensures r.Ok? ==>
      && r.value.1 !in s.majors.rows
      && r.value.0.majors.rows == s.majors.rows[r.value.1 := m.(majorCode := Some(code), deleted := false)]
      && r.value.0 == s.(majors := r.value.0.majors)
  {
    var (t, id) :- BaseService.Persist(s.majors, m, (x: Major) => PrePersist(s, x, code));
    Ok((s.(majors := t), id))
  }

  /** Creating a major keeps names unique. */
  lemma CreateKeepsNamesUnique(s: Store, m: Major, code: nat)
    requires NamesUnique(s)
    requires Create(s, m, code).Ok?
    ensures NamesUnique(Create(s, m, code).value.0)
  {
  }

  /** `deleteById(id)`: soft delete; the name stays taken. */
  function DeleteById(s: Store, id: Id): (r: Result<Store>)
    ensures r.Ok? <==> id in s.majors.rows
    ensures r.Err? ==> r.error == NotFound
    ensures r.Ok? ==>
      && r.value.majors.rows == s.majors.rows[id := s.majors.rows[id].(deleted := true)]
      && r.value == s.(majors := r.value.majors)
  {
    var m :- Lookup(s.majors, id, NotFound);
    Ok(s.(majors := Put(s.majors, id, m.(deleted := true))))
  }

  /** Deleting twice is the same as deleting once. */
  lemma DeleteIdempotent(s: Store, id: Id)
    requires DeleteById(s, id).Ok?
    ensures DeleteById(DeleteById(s, id).value, id) == DeleteById(s, id)
  {
    var s1 := DeleteById(s, id).value;
    var s2 := DeleteById(s1, id).value;
    assert s2.majors.rows == s1.majors.rows;
    assert s2.majors == s1.majors;
  }

  /** The name of a deleted major still blocks a new major of that name. */
  lemma DeletedNameStillTaken(s: Store, id: Id, m: Major, code: nat)
    requires DeleteById(s, id).Ok?
    requires m.name == s.majors.rows[id].name
    ensures Create(DeleteById(s, id).value, m, code) == Err(AlreadyExists)
  {
  }

  /** `findAll()`: the majors that are not deleted. */
  function FindAll(s: Store): (r: seq<Id>)
    ensures forall k :: k in r <==> k in s.majors.rows && !s.majors.rows[k].deleted
  {
    Select(s.majors, (m: Major) => !m.deleted)
  }

  /** `findById(id)`: a deleted major is not found. */
  function FindById(s: Store, id: Id): (r: Result<Major>)
    ensures r.Ok? <==> id in s.majors.rows && !s.majors.rows[id].deleted
    ensures r.Ok? ==> r.value == s.majors.rows[id]
    ensures r.Err? ==> r.error == NotFound
  {
    var m :- Lookup(s.majors, id, NotFound);
    :- Need(!m.deleted, NotFound);
    Ok(m)
  }

  /** `update(id, major)`: an unknown id is not found; a name any stored
      major has, the updated one included, is refused; only the name
      changes. Deleted majors may be renamed. */
  function Update(s: Store, id: Id, m: Major): (r: Result<Store>)
    ensures id !in s.majors.rows ==> r == Err(NotFound)
    ensures r.Ok? <==> id in s.majors.rows && forall k :: k in s.majors.rows ==> s.majors.rows[k].name != m.name
    ensures id in s.majors.rows && r.Err? ==> r.error == AlreadyExists
    ensures r.Ok? ==>
      && r.value.majors.rows == s.majors.rows[id := s.majors.rows[id].(name := m.name)]
      && r.value == s.(majors := r.value.majors)
  {
    var found :- Lookup(s.majors, id, NotFound);
    :- Need(MajorByName(s, m.name).None?, AlreadyExists);
    Ok(s.(majors := Put(s.majors, id, found.(name := m.name))))
  }

  /** Renaming a major to its own current name is refused. */
  lemma UpdateToOwnNameRefused(s: Store, id: Id)
    requires id in s.majors.rows
    ensures Update(s, id, s.majors.rows[id]) == Err(AlreadyExists)
  {
  }

  /** Renaming keeps names unique. */
  lemma UpdateKeepsNamesUnique(s: Store, id: Id, m: Major)
    requires NamesUnique(s)
    requires Update(s, id, m).Ok?
    ensures NamesUnique(Update(s, id, m).value)
  {
  }
}

/** Courses: unique (title, major) pairs at creation, soft delete through
    the generic template, and finders that hide deleted courses. */
module CourseService {
  import opened Common
  import opened Tables
  import opened Entities
  import BaseService
  import MajorService

  /** No two stored courses share both title and major. */
  ghost predicate TitlesUnique(s: Store) {
    forall i, j :: i in s.courses.rows && j in s.courses.rows && i != j ==>
      !(s.courses.rows[i].title == s.courses.rows[j].title && s.courses.rows[i].majorId == s.courses.rows[j].majorId)
  }

  /** `prePersist(course)`: the course's major must exist and not be
      deleted; a course with the same title in the same major, deleted or
      not, is refused. */
  function PrePersist(s: Store, c: Course): (r: Result<Course>)
    ensures r.Ok? <==>
      && c.majorId in s.majors.rows && !s.majors.rows[c.majorId].deleted
      && forall k :: k in s.courses.rows ==>
           !(s.courses.rows[k].title == c.title && s.courses.rows[k].majorId == c.majorId)
    ensures c.majorId !in s.majors.rows || s.majors.rows[c.majorId].deleted ==> r == Err(NotFound)
    ensures c.majorId in s.majors.rows && !s.majors.rows[c.majorId].deleted && r.Err? ==> r.error == AlreadyExists
    ensures r.Ok? ==> r.value == c.(deleted := false)
  {
    var major :- Lookup(s.majors, c.majorId, NotFound);
    :- Need(!major.deleted, NotFound);
    :- Need(CourseByTitleAndMajor(s, c.title, c.majorId).None?, AlreadyExists);
    Ok(c.(deleted := false))
  }

  /** `persist(course)` */
  function Create(s: Store, c: Course): (r: Result<(Store, Id)>)
    ensures r.Err? <==> PrePersist(s, c).Err?
    ensures r.Err? ==> r.error == PrePersist(s, c).error
    ensures r.Ok? ==>
      && r.value.1 !in s.courses.rows
      && r.value.0.courses.rows == s.courses.rows[r.value.1 := c.(deleted := false)]
      && r.value.0 == s.(courses := r.value.0.courses)
  {
    var (t, id) :- BaseService.Persist(s.courses, c, (x: Course) => PrePersist(s, x));
    Ok((s.(courses := t), id))
  }

  /** Creating a course keeps (title, major) pairs unique. */
  lemma CreateKeepsTitlesUnique(s: Store, c: Course)
    requires TitlesUnique(s)
    requires Create(s, c).Ok?
    ensures TitlesUnique(Create(s, c).value.0)
  {
  }

  /** A course cannot be created in a major once the major is deleted. */
  lemma CourseInDeletedMajorRefused(s: Store, majorId: Id, c: Course)
    requires MajorService.DeleteById(s, majorId).Ok?
    requires c.majorId == majorId
    ensures Create(MajorService.DeleteById(s, majorId).value, c) == Err(NotFound)
  {
  }

  function MarkDeleted(c: Course): Course {
    c.(deleted := true)
  }

  /** `deleteById(id)`: the generic soft delete. */
  function DeleteById(s: Store, id: Id): (r: Result<Store>)
    ensures r.Ok? <==> id in s.courses.rows
    ensures r.Err? ==> r.error == NotFound
    ensures r.Ok? ==>
      && r.value.courses.rows.Keys == s.courses.rows.Keys
      && r.value.courses.rows[id] == s.courses.rows[id].(deleted := true)
      && r.value == s.(courses := r.value.courses)
  {
    var t :- BaseService.DeleteById(s.courses, id, BaseService.HasDeletedField(MarkDeleted));
    Ok(s.(courses := t))
  }

  /** `majorRepository.findByNameAndDeletedIsFalse` */
  function LiveMajorByName(s: Store, name: string): (r: Option<Id>)
    ensures r.Some? ==> r.value in s.majors.rows && s.majors.rows[r.value].name == name && !s.majors.rows[r.value].deleted
    ensures r.None? <==> forall k :: k in s.majors.rows ==> !(s.majors.rows[k].name == name && !s.majors.rows[k].deleted)
  {
    FindFirst(s.majors, (m: Major) => m.name == name && !m.deleted)
  }

  /** `findAllMajorCourses(majorName)`: the major must exist under that name
      and not be deleted; its courses that are not deleted are listed. */
  function FindAllMajorCourses(s: Store, majorName: string): (r: Result<seq<Id>>)
    ensures r.Ok? <==> exists k :: k in s.majors.rows && s.majors.rows[k].name == majorName && !s.majors.rows[k].deleted
    ensures r.Err? ==> r.error == NotFound
    ensures r.Ok? ==> forall k :: k in r.value <==>
      && k in s.courses.rows && !s.courses.rows[k].deleted
      && s.courses.rows[k].majorId == LiveMajorByName(s, majorName).value
  {
    var majorId :- LiveMajorByName(s, majorName).OrFail(NotFound);
    Ok(Select(s.courses, (c: Course) => c.majorId == majorId && !c.deleted))
  }

  /** A deleted course is no longer listed for its major. */
  lemma DeletedCourseUnlisted(s: Store, id: Id, majorName: string)
    requires DeleteById(s, id).Ok?
    requires FindAllMajorCourses(s, majorName).Ok?
    ensures FindAllMajorCourses(DeleteById(s, id).value, majorName).Ok?
    ensures id !in FindAllMajorCourses(DeleteById(s, id).value, majorName).value
  {
  }

  /** `findById(id)`: a deleted course is not found. */
  function FindById(s: Store, id: Id): (r: Result<Course>)
    ensures r.Ok? <==> id in s.courses.rows && !s.courses.rows[id].deleted
    ensures r.Ok? ==> r.value == s.courses.rows[id]
    ensures r.Err? ==> r.error == NotFound
  {
    var c :- Lookup(s.courses, id, NotFound);
    :- Need(!c.deleted, NotFound);
    Ok(c)
  }

  /** `findAll()`: the courses that are not deleted. */
  function FindAll(s: Store): (r: seq<Id>)
    ensures forall k :: k in r <==> k in s.courses.rows && !s.courses.rows[k].deleted
  {
    Select(s.courses, (c: Course) => !c.deleted)
  }

  /** `update(id, course)`: a missing or deleted course is not found;
      title, major, unit and description are copied. */
  function Update(s: Store, id: Id, c: Course): (r: Result<Store>)
    ensures r.Ok? <==> id in s.courses.rows && !s.courses.rows[id].deleted
    ensures r.Err? ==> r.error == NotFound
    ensures r.Ok? ==>
      && r.value.courses.rows == s.courses.rows[id := s.courses.rows[id].(title := c.title,
           majorId := c.majorId, unit := c.unit, description := c.description)]
      && r.value == s.(courses := r.value.courses)
  {
    var found :- Lookup(s.courses, id, NotFound);
    :- Need(!found.deleted, NotFound);
    Ok(s.(courses := Put(s.courses, id, found.(title := c.title, majorId := c.majorId,
      unit := c.unit, description := c.description))))
  }

  /** Unlike creation, an update does not look for another course with the
      new title in the new major, so it can make two courses share both. */
  lemma UpdateSkipsTitleCheck(s: Store, id: Id, other: Id, c: Course)
    requires Update(s, id, c).Ok?
    requires other in s.courses.rows && other != id
    requires s.courses.rows[other].title == c.title && s.courses.rows[other].majorId == c.majorId
    ensures !TitlesUnique(Update(s, id, c).value)
  {
  }
}
