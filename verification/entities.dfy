/** The persistent entities and the store that holds one table per entity.
    References between entities are ids; a reference that Java may leave
    null is an `Option`, except the major of a person, course or term,
    which every modelled path sets. Times of day and date-times are `int`s on one
    clock; calendar dates are `Date`s; `Double`s are `real`s. */
module Entities {
  import opened Common
  import opened Tables

  datatype ExamState = NotStarted | Started | Finished
  datatype InstanceStatus = InProgress | Completed
  datatype Semester = Spring | Summer | Fall | Winter
  datatype AccountStatus = Pending | Active | Inactive
  datatype DayOfWeek = Monday | Tuesday | Wednesday | Thursday | Friday | Saturday | Sunday

  datatype Role = Role(name: string)

  datatype Major = Major(name: string, majorCode: Option<nat>, deleted: bool)

  /** `roles` is a list: the same role may appear twice.
      `offeredCourses` are the sections the person is enrolled in. */
  datatype Person = Person(
    firstName: string,
    lastName: string,
    nationalCode: string,
    phoneNumber: string,
    majorId: Id,
    roles: seq<Id>,
    offeredCourses: seq<Id>)

  /** `password` holds the encoded password. */
  datatype Account = Account(
    username: string,
    password: string,
    status: Option<AccountStatus>,
    personId: Id,
    activeRole: Option<Id>)

  datatype Course = Course(
    title: string,
    unit: int,
    description: Option<string>,
    deleted: bool,
    majorId: Id)

  datatype AcademicCalendar = AcademicCalendar(
    registrationStart: Option<Date>,
    registrationEnd: Option<Date>,
    classesStartDate: Option<Date>,
    classesEndDate: Option<Date>)

  datatype Term = Term(
    year: int,
    semester: Option<Semester>,
    deleted: bool,
    calendar: Option<AcademicCalendar>,
    majorId: Id)

  /** `term.getAcademicCalender().getRegistrationStart()`, `None` when the
      calendar or the date is null; every use of it dereferences it. */
  function RegistrationStart(term: Term): Option<Date> {
    if term.calendar.Some? then term.calendar.value.registrationStart else None
  }

  /** A course section: a weekly meeting `[startTime, endTime)` on `meetingDay`. */
  datatype OfferedCourse = OfferedCourse(
    meetingDay: Option<DayOfWeek>,
    startTime: Option<int>,
    endTime: Option<int>,
    capacity: int,
    location: string,
    courseId: Option<Id>,
    termId: Option<Id>,
    teacherId: Option<Id>)

  datatype Exam = Exam(
    title: string,
    description: string,
    startTime: Option<int>,
    endTime: Option<int>,
    score: Option<real>,
    examState: Option<ExamState>,
    deleted: bool,
    offeredCourseId: Id)

  /** One choice of a test question. It belongs to the question that
      contains it. */
  datatype QuestionOption = QuestionOption(text: string, correct: bool)

  /** The two question variants; a test question's option list may be null. */
  datatype QuestionKind = EssayQuestion | TestQuestion(options: Option<seq<QuestionOption>>)

  datatype Question = Question(
    kind: QuestionKind,
    title: Option<string>,
    text: Option<string>,
    defaultScore: Option<real>,
    courseId: Option<Id>)

  /** The assignment of a question to an exam, with its own score. */
  datatype ExamQuestion = ExamQuestion(examId: Id, questionId: Id, score: Option<real>)

  /** One student's attempt at an exam. */
  datatype ExamInstance = ExamInstance(
    startAt: Option<int>,
    endAt: Option<int>,
    status: InstanceStatus,
    totalScore: real,
    personId: Id,
    examId: Id)

  /** The two answer variants: free text, or the selected option. */
  datatype AnswerKind = EssayAnswer(text: Option<string>) | TestAnswer(option: QuestionOption)

  datatype Answer = Answer(
    kind: AnswerKind,
    score: Option<real>,
    examQuestionId: Id,
    instanceId: Id)

  /** An answer under construction: the links the answer mapper resolved
      and the score carried over from the request (always null there). */
  datatype AnswerDraft = AnswerDraft(score: Option<real>, examQuestionId: Id, instanceId: Id)

  datatype Store = Store(
    roles: Table<Role>,
    majors: Table<Major>,
    persons: Table<Person>,
    accounts: Table<Account>,
    courses: Table<Course>,
    terms: Table<Term>,
    offeredCourses: Table<OfferedCourse>,
    exams: Table<Exam>,
    questions: Table<Question>,
    examQuestions: Table<ExamQuestion>,
    instances: Table<ExamInstance>,
    answers: Table<Answer>)

  // -----------------------------------------------------------------------
  // Finders shared by several services

  /** `accountRepository.findByUsername` */
  function AccountByUsername(s: Store, username: string): (r: Option<Id>)
    ensures r.Some? ==> r.value in s.accounts.rows && s.accounts.rows[r.value].username == username
    ensures r.None? <==> forall k :: k in s.accounts.rows ==> s.accounts.rows[k].username != username
  {
    FindFirst(s.accounts, (a: Account) => a.username == username)
  }

  /** `roleRepository.findByName` */
  function RoleByName(s: Store, name: string): (r: Option<Id>)
    ensures r.Some? ==> r.value in s.roles.rows && s.roles.rows[r.value].name == name
    ensures r.None? <==> forall k :: k in s.roles.rows ==> s.roles.rows[k].name != name
  {
    FindFirst(s.roles, (x: Role) => x.name == name)
  }

  /** `majorRepository.findByName`: deleted majors included. */
  function MajorByName(s: Store, name: string): (r: Option<Id>)
    ensures r.Some? ==> r.value in s.majors.rows && s.majors.rows[r.value].name == name
    ensures r.None? <==> forall k :: k in s.majors.rows ==> s.majors.rows[k].name != name
  {
    FindFirst(s.majors, (m: Major) => m.name == name)
  }

  /** `examInstanceRepository.findByPersonAndExam` */
  function InstanceOf(s: Store, personId: Id, examId: Id): (r: Option<Id>)
    ensures r.Some? ==> r.value in s.instances.rows
    ensures r.Some? ==> s.instances.rows[r.value].personId == personId && s.instances.rows[r.value].examId == examId
    ensures r.None? <==> forall k :: k in s.instances.rows ==>
      !(s.instances.rows[k].personId == personId && s.instances.rows[k].examId == examId)
  {
    FindFirst(s.instances, (i: ExamInstance) => i.personId == personId && i.examId == examId)
  }

  /** `examQuestionRepository.findByExamAndQuestion` */
  function AssignmentOf(s: Store, examId: Id, questionId: Id): (r: Option<Id>)
    ensures r.Some? ==> r.value in s.examQuestions.rows
    ensures r.Some? ==> s.examQuestions.rows[r.value].examId == examId && s.examQuestions.rows[r.value].questionId == questionId
    ensures r.None? <==> forall k :: k in s.examQuestions.rows ==>
      !(s.examQuestions.rows[k].examId == examId && s.examQuestions.rows[k].questionId == questionId)
  {
    FindFirst(s.examQuestions, (eq: ExamQuestion) => eq.examId == examId && eq.questionId == questionId)
  }

  /** `courseRepository.findByTitleAndMajor`: deleted courses included. */
  function CourseByTitleAndMajor(s: Store, title: string, majorId: Id): (r: Option<Id>)
    ensures r.Some? ==> r.value in s.courses.rows
    ensures r.Some? ==> s.courses.rows[r.value].title == title && s.courses.rows[r.value].majorId == majorId
    ensures r.None? <==> forall k :: k in s.courses.rows ==>
      !(s.courses.rows[k].title == title && s.courses.rows[k].majorId == majorId)
  {
    FindFirst(s.courses, (c: Course) => c.title == title && c.majorId == majorId)
  }

  // -----------------------------------------------------------------------
  // Referential integrity. The database keeps these foreign keys valid; the
  // operations that follow a stored reference require the one they follow.

  ghost predicate AccountsLinked(s: Store) {
    forall k :: k in s.accounts.rows ==> s.accounts.rows[k].personId in s.persons.rows
  }

  ghost predicate PersonsLinked(s: Store) {
    forall k :: k in s.persons.rows ==> s.persons.rows[k].majorId in s.majors.rows
  }

  ghost predicate TermsLinked(s: Store) {
    forall k :: k in s.terms.rows ==> s.terms.rows[k].majorId in s.majors.rows
  }

  ghost predicate CoursesLinked(s: Store) {
    forall k :: k in s.courses.rows ==> s.courses.rows[k].majorId in s.majors.rows
  }

  ghost predicate OfferedCoursesLinked(s: Store) {
    forall k :: k in s.offeredCourses.rows && s.offeredCourses.rows[k].termId.Some? ==>
      s.offeredCourses.rows[k].termId.value in s.terms.rows
  }

  ghost predicate QuestionsLinked(s: Store) {
    forall k :: k in s.questions.rows && s.questions.rows[k].courseId.Some? ==>
      s.questions.rows[k].courseId.value in s.courses.rows
  }

  ghost predicate ExamQuestionsLinked(s: Store) {
    forall k :: k in s.examQuestions.rows ==> s.examQuestions.rows[k].questionId in s.questions.rows
  }

  ghost predicate AnswersLinked(s: Store) {
    forall k :: k in s.answers.rows ==> s.answers.rows[k].examQuestionId in s.examQuestions.rows
  }
}
