/** Binds a submitted answer to the caller's attempt and to the exam's
    assignment of the answered question. */
module AnswerMapper {
  import opened Common
  import opened Tables
  import opened Entities
  import ExamService

  /** `afterToEntity(dto, answer, principal)`: the lookups run in the order
      exam, account, the caller's attempt at the exam, question, and the
      exam's assignment of the question; each miss is `NotFound`. The
      answer carries no score. */
  function AfterToEntity(s: Store, examId: Id, username: string, questionId: Id): (r: Result<AnswerDraft>)
    ensures r.Err? ==> r.error == NotFound
    ensures examId !in s.exams.rows ==> r.Err?
    ensures examId in s.exams.rows && AccountByUsername(s, username).None? ==> r.Err?
    ensures r.Ok? <==>
      && examId in s.exams.rows
      && AccountByUsername(s, username).Some?
      && InstanceOf(s, s.accounts.rows[AccountByUsername(s, username).value].personId, examId).Some?
      && questionId in s.questions.rows
      && AssignmentOf(s, examId, questionId).Some?
    ensures r.Ok? ==>
      var pid := s.accounts.rows[AccountByUsername(s, username).value].personId;
      && r.value.score.None?
      && r.value.instanceId == InstanceOf(s, pid, examId).value
      && r.value.examQuestionId == AssignmentOf(s, examId, questionId).value
      && s.instances.rows[r.value.instanceId].personId == pid
      && s.instances.rows[r.value.instanceId].examId == examId
      && s.examQuestions.rows[r.value.examQuestionId].examId == examId
      && s.examQuestions.rows[r.value.examQuestionId].questionId == questionId
  {
    var _ :- Lookup(s.exams, examId, NotFound);
    var accountId :- AccountByUsername(s, username).OrFail(NotFound);
    var pid := s.accounts.rows[accountId].personId;
    var instId :- InstanceOf(s, pid, examId).OrFail(NotFound);
    var _ :- Lookup(s.questions, questionId, NotFound);
    var eqId :- AssignmentOf(s, examId, questionId).OrFail(NotFound);
    Ok(AnswerDraft(None, eqId, instId))
  }

  /** Answering needs a started attempt: without one the answer is refused. */
  lemma AnswerBeforeStartRefused(s: Store, examId: Id, username: string, questionId: Id)
    requires AccountByUsername(s, username).Some?
    requires InstanceOf(s, s.accounts.rows[AccountByUsername(s, username).value].personId, examId).None?
    ensures AfterToEntity(s, examId, username, questionId) == Err(NotFound)
  {
  }

  /** Once the caller has started the exam for the first time, an answer
      to an assigned question is bound to the attempt just started. (With
      two attempts the repository's single-row finder would fail.) */
  lemma AnswerAfterStartBound(s: Store, username: string, examId: Id, questionId: Id, now: int)
    requires ExamService.StartExam(s, username, examId, now).Ok?
    requires InstanceOf(s, ExamService.PersonOf(s, username, NotFound).value, examId).None?
    requires questionId in s.questions.rows && AssignmentOf(s, examId, questionId).Some?
    ensures var (s1, started) := ExamService.StartExam(s, username, examId, now).value;
      && AfterToEntity(s1, examId, username, questionId).Ok?
      && AfterToEntity(s1, examId, username, questionId).value.instanceId == started
  {
  }
}

/** Converts between questions and question requests: resolves the course
    named by a request, and tags a question with its variant. */
module QuestionMapper {
  import opened Common
  import opened Tables
  import opened Text
  import opened Entities
  import opened Dtos
  import opened QuestionFactory

  /** `afterToEntity(dto, entity)`: when the request names both a course
      and a major, the major is found by name and the course by title
      within that major; either miss is `NotFound`. Otherwise the question
      is left as it is. */
  function AfterToEntity(s: Store, d: QuestionDto, q: Question): (r: Result<Question>)
    ensures d.courseName.None? || d.majorName.None? ==> r == Ok(q)
    ensures d.courseName.Some? && d.majorName.Some? ==>
      && (MajorByName(s, d.majorName.value).None? ==> r == Err(NotFound))
      && (MajorByName(s, d.majorName.value).Some? ==>
            (r.Ok? <==> CourseByTitleAndMajor(s, d.courseName.value, MajorByName(s, d.majorName.value).value).Some?))
    ensures r.Err? ==> r.error == NotFound
    ensures r.Ok? ==> r.value == q.(courseId := r.value.courseId)
    ensures r.Ok? && d.courseName.Some? && d.majorName.Some? ==>
      && r.value.courseId.Some? && r.value.courseId.value in s.courses.rows
      && s.courses.rows[r.value.courseId.value].title == d.courseName.value
      && s.courses.rows[r.value.courseId.value].majorId in s.majors.rows
      && s.majors.rows[s.courses.rows[r.value.courseId.value].majorId].name == d.majorName.value
  {
    if d.courseName.Some? && d.majorName.Some? then
      var majorId :- MajorByName(s, d.majorName.value).OrFail(NotFound);
      var courseId :- CourseByTitleAndMajor(s, d.courseName.value, majorId).OrFail(NotFound);
      Ok(q.(courseId := Some(courseId)))
    else
      Ok(q)
  }

  /** The question's course reference can be followed to a course and on
      to that course's major. */
  predicate CourseResolvable(s: Store, q: Question) {
    q.courseId.Some? ==>
      q.courseId.value in s.courses.rows && s.courses.rows[q.courseId.value].majorId in s.majors.rows
  }

  /** `toDto` followed by `afterToDTO`: title, text and default score are
      copied; the course's title and its major's name are filled in when
      there is a course; a test question is tagged `TEST` and carries one
      option per option of the question, in order; an essay question is
      tagged `ESSAY` and has no options. A test question whose option list
      is null fails when the list is streamed. */
  function AfterToDto(s: Store, q: Question): (r: Result<QuestionDto>)
    requires CourseResolvable(s, q)
    ensures r.Err? <==> q.kind == TestQuestion(None)
    ensures r.Err? ==> r.error == NullValue
    ensures r.Ok? ==>
      && r.value.title == q.title && r.value.text == q.text && r.value.defaultScore == q.defaultScore
      && (q.courseId.None? ==> r.value.courseName.None? && r.value.majorName.None?)
      && (q.courseId.Some? ==>
            && r.value.courseName == Some(s.courses.rows[q.courseId.value].title)
            && r.value.majorName == Some(s.majors.rows[s.courses.rows[q.courseId.value].majorId].name))
      && (q.kind.EssayQuestion? ==> r.value.questionType == Some("ESSAY") && r.value.options.None?)
      && (q.kind.TestQuestion? ==> r.value.questionType == Some("TEST") && r.value.options == q.kind.options)
  {
    var (courseName, majorName) :=
      if q.courseId.Some? then
        var course := s.courses.rows[q.courseId.value];
        (Some(course.title), Some(s.majors.rows[course.majorId].name))
      else (None, None);
    var base := QuestionDto(None, q.title, q.text, q.defaultScore, courseName, majorName, None);
    match q.kind
    case TestQuestion(options) =>
      var list :- options.OrFail(NullValue);
      Ok(base.(questionType := Some("TEST"), options := Some(list)))
    case EssayQuestion =>
      Ok(base.(questionType := Some("ESSAY")))
  }

  /** Round trip from the type string: a question built from `test` or
      `essay` (any case) maps back to the tag `TEST` or `ESSAY`, and
      building again from that tag and the mapped options gives the same
      variant with the same options. */
  lemma TypeTagRoundTrip(s: Store, kind: string, q: Question, options: Option<seq<QuestionOption>>)
    requires CreateQuestion(kind, q, options).Ok?
    requires CourseResolvable(s, q)
    requires ToUpper(kind) == "ESSAY" || options.Some?
    ensures CourseResolvable(s, CreateQuestion(kind, q, options).value)
    ensures var built := CreateQuestion(kind, q, options).value;
      var dto := AfterToDto(s, built);
      && dto.Ok?
      && (ToUpper(kind) == "TEST" ==> dto.value.questionType == Some("TEST") && dto.value.options == options)
      && (ToUpper(kind) == "ESSAY" ==> dto.value.questionType == Some("ESSAY"))
      && CreateQuestion(dto.value.questionType.value, q, dto.value.options).Ok?
      && CreateQuestion(dto.value.questionType.value, q, dto.value.options).value.kind == built.kind
  {
    UpperTest();
    UpperEssay();
  }

  /** A test question built without an option list cannot be mapped back. */
  lemma NullOptionsNotMappable(s: Store, kind: string, q: Question)
    requires ToUpper(kind) == "TEST" && CourseResolvable(s, q)
    ensures CreateQuestion(kind, q, None).Ok?
    ensures AfterToDto(s, CreateQuestion(kind, q, None).value) == Err(NullValue)
  {
  }

  /** Round trip from the request: once a request's course and major names
      are resolved, mapping the question back reports the same names. */
  lemma CourseNamesRoundTrip(s: Store, d: QuestionDto, q: Question)
    requires d.courseName.Some? && d.majorName.Some?
    requires AfterToEntity(s, d, q).Ok?
    requires q.kind != TestQuestion(None)
    ensures CourseResolvable(s, AfterToEntity(s, d, q).value)
    ensures AfterToDto(s, AfterToEntity(s, d, q).value).Ok?
    ensures AfterToDto(s, AfterToEntity(s, d, q).value).value.courseName == d.courseName
    ensures AfterToDto(s, AfterToEntity(s, d, q).value).value.majorName == d.majorName
  {
  }
}
