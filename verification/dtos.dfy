/** The request bodies and their Bean Validation constraints. Every field
    is nullable (`None` is null); a constraint other than `@NotNull` and
    `@NotBlank` accepts null. A request is valid when every constraint on
    it holds, including its `@AssertTrue` methods. */
module Dtos {
  import opened Common
  import opened Text
  import opened Entities

  /** `@NotNull @Min(1)` on a `Long` or `Integer`. */
  predicate PositiveId(x: Option<int>) {
    x.Some? && x.value >= 1
  }

  // -----------------------------------------------------------------------
  // AnswerDTO

  datatype AnswerDto = AnswerDto(
    kind: Option<string>,
    examId: Option<int>,
    questionId: Option<int>,
    optionId: Option<int>,
    answerText: Option<string>)

  /** `isTextAnswerValid`: a `descriptive` answer needs a non-blank text. */
  predicate IsTextAnswerValid(d: AnswerDto) {
    d.kind.None? || !EqualsIgnoreCase(d.kind.value, "descriptive")
    || (d.answerText.Some? && !IsBlank(d.answerText.value))
  }

  /** `isMultipleChoiceValid`: a `test` answer needs a positive option id. */
  predicate IsMultipleChoiceValid(d: AnswerDto) {
    d.kind.None? || !EqualsIgnoreCase(d.kind.value, "test")
    || (d.optionId.Some? && d.optionId.value > 0)
  }

  /** `isExclusiveAnswerValid`: not both a text and an option. */
  predicate IsExclusiveAnswerValid(d: AnswerDto) {
    d.answerText.None? || IsBlank(d.answerText.value) || d.optionId.None?
  }

  predicate AnswerDtoValid(d: AnswerDto) {
    && NotBlank(d.kind)
    && PositiveId(d.examId)
    && PositiveId(d.questionId)
    && IsTextAnswerValid(d)
    && IsMultipleChoiceValid(d)
    && IsExclusiveAnswerValid(d)
  }

  /** Some character of `s` is not whitespace. */
  predicate HasVisibleChar(s: string) {
    exists i :: 0 <= i < |s| && !IsWhitespace(s[i])
  }

  lemma IsBlankMeans(s: string)
    ensures IsBlank(s) <==> !HasVisibleChar(s)
  {
    AllMeans(s, IsWhitespace);
  }

  /** For a `descriptive` answer the text check demands a text with a
      visible character; for any other type it passes. */
  lemma TextAnswerRule(d: AnswerDto)
    ensures d.kind.Some? && EqualsIgnoreCase(d.kind.value, "descriptive") ==>
      (IsTextAnswerValid(d) <==> d.answerText.Some? && HasVisibleChar(d.answerText.value))
    ensures d.kind.None? || !EqualsIgnoreCase(d.kind.value, "descriptive") ==> IsTextAnswerValid(d)
  {
    if d.answerText.Some? {
      IsBlankMeans(d.answerText.value);
    }
  }

  /** The exclusivity check fails exactly when a text with a visible
      character and an option id are both present. */
  lemma ExclusiveAnswerRule(d: AnswerDto)
    ensures !IsExclusiveAnswerValid(d) <==>
      d.answerText.Some? && HasVisibleChar(d.answerText.value) && d.optionId.Some?
  {
    if d.answerText.Some? {
      IsBlankMeans(d.answerText.value);
    }
  }

  /** An `essay` answer without text passes all three checks: the text
      rule only looks at the type `descriptive`. */
  lemma EssayWithoutTextPasses(d: AnswerDto)
    requires d.kind.Some? && EqualsIgnoreCase(d.kind.value, "essay")
    requires d.answerText.None?
    ensures IsTextAnswerValid(d) && IsMultipleChoiceValid(d) && IsExclusiveAnswerValid(d)
  {
  }

  // -----------------------------------------------------------------------
  // QuestionDTO and OptionDTO (an option's text and correct flag)

  datatype QuestionDto = QuestionDto(
    questionType: Option<string>,
    title: Option<string>,
    text: Option<string>,
    defaultScore: Option<real>,
    courseName: Option<string>,
    majorName: Option<string>,
    options: Option<seq<QuestionOption>>)

  /** `options.stream().anyMatch(OptionDTO::isCorrect)` */
  predicate AnyCorrect(options: seq<QuestionOption>) {
    |options| > 0 && (options[0].correct || AnyCorrect(options[1..]))
  }

  lemma {:induction false} AnyCorrectMeans(options: seq<QuestionOption>)
    ensures AnyCorrect(options) <==> exists i :: 0 <= i < |options| && options[i].correct
  {
    if |options| > 0 {
      AnyCorrectMeans(options[1..]);
      if AnyCorrect(options[1..]) {
        var i :| 0 <= i < |options[1..]| && options[1..][i].correct;
        assert options[i + 1].correct;
      }
      if exists i :: 0 <= i < |options| && options[i].correct {
        var i :| 0 <= i < |options| && options[i].correct;
        if i > 0 {
          assert options[1..][i - 1].correct;
        }
      }
    }
  }

  /** `isOptionsValid`: only a `test` question is checked; it needs a
      non-empty option list with a correct option. */
  predicate IsOptionsValid(d: QuestionDto) {
    if !OptEqualsIgnoreCase(d.questionType, "test") then true
    else d.options.Some? && |d.options.value| > 0 && AnyCorrect(d.options.value)
  }

  predicate QuestionDtoValid(d: QuestionDto) {
    && NotBlank(d.questionType)
    && NotBlank(d.title) && SizeBetween(d.title, 3, 100)
    && NotBlank(d.text) && SizeBetween(d.text, 0, 500)
    && d.defaultScore.Some? && d.defaultScore.value >= 0.0
    && NotBlank(d.courseName)
    && NotBlank(d.majorName)
    && IsOptionsValid(d)
  }

  /** The options check passes for every type but `test`; a `test`
      question passes exactly when some option is correct. */
  lemma OptionsRule(d: QuestionDto)
    ensures !OptEqualsIgnoreCase(d.questionType, "test") ==> IsOptionsValid(d)
    ensures OptEqualsIgnoreCase(d.questionType, "test") ==>
      (IsOptionsValid(d) <==> d.options.Some? && exists i :: 0 <= i < |d.options.value| && d.options.value[i].correct)
  {
    if d.options.Some? {
      AnyCorrectMeans(d.options.value);
    }
  }

  // -----------------------------------------------------------------------
  // ExamDTO

  datatype ExamDto = ExamDto(
    title: Option<string>,
    description: Option<string>,
    startTime: Option<int>,
    endTime: Option<int>,
    courseId: Option<int>)

  /** `isEndTimeAfterStartTime` */
  predicate ExamEndAfterStart(d: ExamDto) {
    d.startTime.None? || d.endTime.None? || d.endTime.value > d.startTime.value
  }

  predicate ExamDtoValid(d: ExamDto) {
    && NotBlank(d.title) && SizeBetween(d.title, 3, 50)
    && SizeBetween(d.description, 0, 200)
    && d.startTime.Some? && d.endTime.Some?
    && PositiveId(d.courseId)
    && ExamEndAfterStart(d)
  }

  /** A valid exam request has a window of positive length. */
  lemma ExamDtoWindow(d: ExamDto)
    requires ExamDtoValid(d)
    ensures d.startTime.value < d.endTime.value
  {
  }

  // -----------------------------------------------------------------------
  // AcademicCalenderDTO

  datatype CalendarDto = CalendarDto(
    registrationStart: Option<Date>,
    registrationEnd: Option<Date>,
    classesStartDate: Option<Date>,
    classesEndDate: Option<Date>)

  /** `!b.isBefore(a)` where a null operand passes. */
  predicate NotBeforeOrNull(a: Option<Date>, b: Option<Date>) {
    a.None? || b.None? || OnOrBefore(a.value, b.value)
  }

  /** `isRegistrationDatesValid` */
  predicate RegistrationDatesValid(d: CalendarDto) {
    NotBeforeOrNull(d.registrationStart, d.registrationEnd)
  }

  /** `isClassesDatesValid` */
  predicate ClassesDatesValid(d: CalendarDto) {
    NotBeforeOrNull(d.classesStartDate, d.classesEndDate)
  }

  /** `isClassesAfterRegistration` */
  predicate ClassesAfterRegistration(d: CalendarDto) {
    NotBeforeOrNull(d.registrationEnd, d.classesStartDate)
  }

  /** `@NotNull @FutureOrPresent` */
  predicate TodayOrLater(x: Option<Date>, today: Date) {
    x.Some? && OnOrBefore(today, x.value)
  }

  predicate CalendarDtoValid(d: CalendarDto, today: Date) {
    && TodayOrLater(d.registrationStart, today)
    && TodayOrLater(d.registrationEnd, today)
    && TodayOrLater(d.classesStartDate, today)
    && TodayOrLater(d.classesEndDate, today)
    && RegistrationDatesValid(d)
    && ClassesDatesValid(d)
    && ClassesAfterRegistration(d)
  }

  /** The three ordering checks chain: a valid calendar runs from today
      through registration to the end of classes. */
  lemma CalendarChain(d: CalendarDto, today: Date)
    requires CalendarDtoValid(d, today)
    ensures OnOrBefore(today, d.registrationStart.value)
    ensures OnOrBefore(d.registrationStart.value, d.registrationEnd.value)
    ensures OnOrBefore(d.registrationEnd.value, d.classesStartDate.value)
    ensures OnOrBefore(d.classesStartDate.value, d.classesEndDate.value)
    ensures OnOrBefore(d.registrationStart.value, d.classesStartDate.value)
    ensures OnOrBefore(d.registrationStart.value, d.classesEndDate.value)
  {
    var rs, re, cs, ce := d.registrationStart.value, d.registrationEnd.value,
      d.classesStartDate.value, d.classesEndDate.value;
    BeforeIsStrictTotalOrder(rs, re, cs);
    BeforeIsStrictTotalOrder(rs, cs, ce);
  }

  /** Each ordering check passes when one of its two dates is null. */
  lemma CalendarChecksAcceptNull(d: CalendarDto)
    ensures d.registrationStart.None? || d.registrationEnd.None? ==> RegistrationDatesValid(d)
    ensures d.classesStartDate.None? || d.classesEndDate.None? ==> ClassesDatesValid(d)
    ensures d.registrationEnd.None? || d.classesStartDate.None? ==> ClassesAfterRegistration(d)
  {
  }

  // -----------------------------------------------------------------------
  // OfferedCourseDTO

  datatype OfferedCourseDto = OfferedCourseDto(
    meetingDay: Option<DayOfWeek>,
    startTime: Option<int>,
    endTime: Option<int>,
    capacity: Option<int>,
    location: Option<string>,
    courseId: Option<int>,
    termId: Option<int>,
    teacherId: Option<int>)

  /** `isEndTimeAfterStartTime` */
  predicate SectionEndAfterStart(d: OfferedCourseDto) {
    d.startTime.None? || d.endTime.None? || d.endTime.value > d.startTime.value
  }

  predicate OfferedCourseDtoValid(d: OfferedCourseDto) {
    && d.meetingDay.Some? && d.startTime.Some? && d.endTime.Some?
    && d.capacity.Some? && d.capacity.value >= 1
    && NotBlank(d.location) && SizeBetween(d.location, 0, 50)
    && PositiveId(d.courseId) && PositiveId(d.termId) && PositiveId(d.teacherId)
    && SectionEndAfterStart(d)
  }

  /** The window check passes when either time is null, and otherwise
      demands that the section ends strictly after it starts. */
  lemma SectionWindow(d: OfferedCourseDto)
    ensures d.startTime.None? || d.endTime.None? ==> SectionEndAfterStart(d)
    ensures d.startTime.Some? && d.endTime.Some? ==>
      (SectionEndAfterStart(d) <==> d.startTime.value < d.endTime.value)
  {
  }

  /** A valid section request names a day, a meeting of positive length,
      a capacity of at least one, a visible location of at most 50
      characters, and positive course, term and teacher ids. */
  lemma OfferedCourseDtoMeans(d: OfferedCourseDto)
    ensures OfferedCourseDtoValid(d) <==>
      && d.meetingDay.Some?
      && d.startTime.Some? && d.endTime.Some? && d.startTime.value < d.endTime.value
      && d.capacity.Some? && d.capacity.value >= 1
      && d.location.Some? && !All(d.location.value, IsTrimmed) && Utf16Length(d.location.value) <= 50
      && d.courseId.Some? && d.courseId.value >= 1
      && d.termId.Some? && d.termId.value >= 1
      && d.teacherId.Some? && d.teacherId.value >= 1
  {
  }

  // -----------------------------------------------------------------------
  // ChangePasswordRequest

  datatype ChangePasswordRequest = ChangePasswordRequest(oldPassword: Option<string>, newPassword: Option<string>)

  /** `isNewPasswordDifferent` */
  predicate NewPasswordDifferent(d: ChangePasswordRequest) {
    d.oldPassword.None? || d.newPassword.None? || d.newPassword.value != d.oldPassword.value
  }

  predicate ChangePasswordRequestValid(d: ChangePasswordRequest) {
    && NotBlank(d.oldPassword)
    && NotBlank(d.newPassword) && Matches(d.newPassword, PasswordPatterns)
    && NewPasswordDifferent(d)
  }

  /** A valid request carries a new password of at least eight characters
      on one line, with a digit and a letter, that differs from the old one. */
  lemma ChangePasswordRequestMeans(d: ChangePasswordRequest)
    requires ChangePasswordRequestValid(d)
    ensures d.oldPassword.Some? && d.newPassword.Some?
    ensures d.newPassword.value != d.oldPassword.value
    ensures |d.newPassword.value| >= 8
    ensures exists i :: 0 <= i < |d.newPassword.value| && IsAsciiDigit(d.newPassword.value[i])
    ensures exists i :: 0 <= i < |d.newPassword.value| && IsAsciiLetter(d.newPassword.value[i])
  {
    PasswordPatternsMean(d.newPassword.value);
  }

  // -----------------------------------------------------------------------
  // RegisterRequest and PersonDTO

  datatype RegisterRequest = RegisterRequest(
    firstName: Option<string>,
    lastName: Option<string>,
    nationalCode: Option<string>,
    phoneNumber: Option<string>,
    majorName: Option<string>,
    username: Option<string>,
    password: Option<string>)

  datatype PersonDto = PersonDto(
    firstName: Option<string>,
    lastName: Option<string>,
    nationalCode: Option<string>,
    phoneNumber: Option<string>,
    majorName: Option<string>)

  /** The constraints a person's name, codes and major carry in both the
      registration request and the profile request. */
  predicate PersonFieldsValid(firstName: Option<string>, lastName: Option<string>,
                              nationalCode: Option<string>, phoneNumber: Option<string>, majorName: Option<string>) {
    && NotBlank(firstName) && SizeBetween(firstName, 0, 50)
    && NotBlank(lastName) && SizeBetween(lastName, 0, 50)
    && NotBlank(nationalCode) && Matches(nationalCode, NationalCodePattern)
    && NotBlank(phoneNumber) && Matches(phoneNumber, PhonePattern)
    && NotBlank(majorName)
  }

  predicate PersonDtoValid(d: PersonDto) {
    PersonFieldsValid(d.firstName, d.lastName, d.nationalCode, d.phoneNumber, d.majorName)
  }

  predicate RegisterRequestValid(d: RegisterRequest) {
    && PersonFieldsValid(d.firstName, d.lastName, d.nationalCode, d.phoneNumber, d.majorName)
    && NotBlank(d.username) && Matches(d.username, UsernamePattern)
    && NotBlank(d.password) && Matches(d.password, PasswordPatterns)
  }

  /** The profile part of a registration request. */
  function PersonPart(d: RegisterRequest): (p: PersonDto)
    ensures p.firstName == d.firstName && p.lastName == d.lastName
    ensures p.nationalCode == d.nationalCode && p.phoneNumber == d.phoneNumber && p.majorName == d.majorName
  {
    PersonDto(d.firstName, d.lastName, d.nationalCode, d.phoneNumber, d.majorName)
  }

  /** A valid registration request carries a valid profile, a ten-digit
      national code, a phone number `09` plus nine digits, a username of
      3 to 20 word characters and a password with a digit and a letter. */
  lemma RegisterRequestMeans(d: RegisterRequest)
    requires RegisterRequestValid(d)
    ensures PersonDtoValid(PersonPart(d))
    ensures |d.nationalCode.value| == 10 && forall i :: 0 <= i < 10 ==> IsAsciiDigit(d.nationalCode.value[i])
    ensures |d.phoneNumber.value| == 11 && d.phoneNumber.value[..2] == "09"
    ensures forall i :: 2 <= i < 11 ==> IsAsciiDigit(d.phoneNumber.value[i])
    ensures 3 <= |d.username.value| <= 20 && forall i :: 0 <= i < |d.username.value| ==> IsWordChar(d.username.value[i])
    ensures |d.password.value| >= 8
    ensures exists i :: 0 <= i < |d.password.value| && IsAsciiDigit(d.password.value[i])
    ensures exists i :: 0 <= i < |d.password.value| && IsAsciiLetter(d.password.value[i])
  {
    AllMeans(d.nationalCode.value, IsAsciiDigit);
    PhonePatternMeans(d.phoneNumber.value);
    AllMeans(d.username.value, IsWordChar);
    PasswordPatternsMean(d.password.value);
  }

  // -----------------------------------------------------------------------
  // CourseDTO

  datatype CourseDto = CourseDto(
    title: Option<string>,
    unit: Option<int>,
    description: Option<string>,
    majorName: Option<string>)

  predicate CourseDtoValid(d: CourseDto) {
    && NotBlank(d.title) && SizeBetween(d.title, 3, 30)
    && d.unit.Some? && d.unit.value >= 1
    && SizeBetween(d.description, 0, 50)
    && NotBlank(d.majorName)
  }

  /** A course request without a description can be valid: the
      description is the one optional field. */
  lemma CourseDescriptionOptional(d: CourseDto)
    requires CourseDtoValid(d)
    ensures CourseDtoValid(d.(description := None))
  {
  }

  // -----------------------------------------------------------------------
  // GradingDTO

  datatype GradingDto = GradingDto(
    examId: Option<int>,
    studentId: Option<int>,
    questionId: Option<int>,
    score: Option<real>)

  /** `@DecimalMin("0.0") @DecimalMax("100.0")`, both inclusive; null passes. */
  predicate GradingScoreInRange(score: Option<real>) {
    score.None? || (0.0 <= score.value <= 100.0)
  }

  predicate GradingDtoValid(d: GradingDto) {
    && PositiveId(d.examId) && PositiveId(d.studentId) && PositiveId(d.questionId)
    && GradingScoreInRange(d.score)
  }
}

/** How the request constraints line up with the rules the services and
    factories enforce themselves. */
module DtoGuards {
  import opened Common
  import opened Text
  import opened Entities
  import opened Tables
  import opened Dtos
  import AnswerFactory
  import QuestionService
  import ExamService
  import Grading
  import OfferedCourseService
  import OfferedCourseRepository

  /** The answer text rule is keyed on `descriptive`, a type the answer
      factory rejects: every type the rule applies to fails to build, and
      the `essay` answers that do build are never checked for text. */
  lemma TextRuleOnlyForUnbuildableTypes(kind: string, draft: AnswerDraft, option: QuestionOption, answerText: Option<string>)
    requires EqualsIgnoreCase(kind, "descriptive")
    ensures AnswerFactory.CreateAnswer(kind, draft, option, answerText) == Err(InvalidArgument)
  {
    ToUpperLength(kind);
  }

  /** A valid question request stays valid with default score 0, but the
      question service refuses a question built from it. */
  lemma ZeroDefaultScoreRefusedLater(d: QuestionDto, q: Question)
    requires QuestionDtoValid(d)
    requires q.title == d.title && q.text == d.text && q.defaultScore == Some(0.0)
    ensures QuestionDtoValid(d.(defaultScore := Some(0.0)))
    ensures QuestionService.PrePersist(q) == Err(InvalidArgument)
  {
  }

  /** The exam request demands an end strictly after the start, while the
      exam service also accepts a window of one instant; a window that
      passes both checks and starts in the future or now is accepted by
      the service and is never already finished. */
  lemma ValidExamRequestAccepted(d: ExamDto, e: Exam, now: int)
    requires ExamDtoValid(d)
    requires e.startTime == d.startTime && e.endTime == d.endTime
    requires now <= d.startTime.value
    ensures ExamService.PrePersist(e, now).Ok?
    ensures ExamService.PrePersist(e, now).value.examState != Some(Finished)
  {
  }

  /** The service accepts an exam whose start equals its end, which the
      request constraint rejects. */
  lemma ServiceAcceptsInstantWindow(e: Exam, d: ExamDto, now: int)
    requires e.startTime == Some(now) && e.endTime == Some(now)
    requires d.startTime == e.startTime && d.endTime == e.endTime
    ensures ExamService.PrePersist(e, now).Ok?
    ensures !ExamDtoValid(d)
  {
  }

  /** The section service refuses only an end before the start, but the
      request demands an end strictly after it: a section whose start
      equals its end passes the service and fails the request check. */
  lemma ServiceAcceptsInstantSection(t: Table<OfferedCourse>, oc: OfferedCourse, d: OfferedCourseDto, at: int)
    requires oc.startTime == Some(at) && oc.endTime == Some(at)
    requires forall k :: k in t.rows ==> !OfferedCourseRepository.Clash(t.rows[k], oc)
    requires d.startTime == oc.startTime && d.endTime == oc.endTime
    ensures OfferedCourseService.PrePersist(t, oc) == Ok(oc)
    ensures !OfferedCourseDtoValid(d)
  {
  }

  /** The grading request caps scores at 100, but essay grading checks only
      for a negative score: a score the request would refuse is stored. */
  lemma EssayGradingIgnoresScoreCap(s: Store, examId: Id, studentId: Id, questionId: Id)
    requires Grading.GradedAnswer(s, examId, studentId, questionId).Ok?
    ensures !GradingScoreInRange(Some(150.0))
    ensures Grading.EssayGrading(s, examId, studentId, questionId, Some(150.0)).Ok?
  {
  }
}
