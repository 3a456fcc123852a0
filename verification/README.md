# academic-lms in Dafny

A model of the service layer of academic-lms, a Spring Boot learning management system, with proofs about it.

The centre of the model is the exam lifecycle:

- An exam's window is validated, and its state (not started, started, finished) is derived from the clock.
- A student starts an attempt (an exam instance), answers assigned questions and submits.
- Submission grades the test answers automatically. A teacher later grades essays, and each grading adds to the attempt's total score.
- Assigning a question to an exam stores an effective score, where zero means "use the question's default". The exam's score is then recomputed as a sum.

Around it sit the simpler services:

- majors, courses, terms and course sections (offered courses), with soft delete and uniqueness rules;
- the teacher-schedule clash query;
- the month-to-semester mapping;
- person registration, role assignment, and account role, status and password changes;
- the generic persist and delete template;
- the request validators.

Every operation is a pure function from a `Store` (one table per entity, mapping ids to immutable records) and its inputs to a `Result`. Failures are typed errors:

- `NotFound` stands for `EntityNotFoundException`.
- `InvalidArgument` stands for `IllegalArgumentException`.
- `ExamNotActive`, `AccessDenied`, `AlreadyExists` and `BadCredentials` stand for the application's exceptions of those names.
- `NullValue` stands for the null-dereference exception the code would raise by unboxing or dereferencing a null.

Checks run in the order the source runs them, so the first failing check decides the error.

Files:

- `common.dfy`: `Option`, `Result`, errors and dates.
- `tables.dfy`: tables, with first-match and in-order finders.
- `text.dfy`: blank checks, `toUpperCase` and the validation patterns.
- `entities.dfy`: entities, store, shared finders and foreign-key predicates.
- `base_service.dfy`: the generic service template.
- `factories.dfy`: the question and answer factories.
- `scores.dfy`: score sums.
- `question_service.dfy`: the question service.
- `grading.dfy`: automatic and essay grading.
- `exam_service.dfy`: the exam service.
- `mappers.dfy`: the answer and question mappers.
- `offered_course.dfy`: the clash query, the section service and the section mapper.
- `term_service.dfy`: semesters and terms.
- `course_service.dfy`: majors and courses.
- `person_service.dfy`: the password encoder, accounts and persons.
- `dtos.dfy`: the request validators, and how they relate to the services.

## Model

| member | source | states |
|---|---|---|
| BaseService.Persist | src/main/java/ir/bahman/academic_lms/service/impl/BaseServiceImpl.java:22-28 | the pre-persist hook runs first; if it fails nothing is stored, otherwise exactly what it returned is saved under a fresh id |
| BaseService.DeleteById | src/main/java/ir/bahman/academic_lms/service/impl/BaseServiceImpl.java:35-60 | an unknown id is NotFound; an entity with a `deleted` field is kept and marked, any other entity is removed; no other row changes |
| BaseService.SoftDeleteRepeats | src/main/java/ir/bahman/academic_lms/service/impl/BaseServiceImpl.java:42-51 | a soft-deleted row stays in the store, so deleting it again succeeds |
| BaseService.HardDeleteDoesNotRepeat | src/main/java/ir/bahman/academic_lms/service/impl/BaseServiceImpl.java:53-54 | a removed row is gone, so deleting it again is NotFound |
| BaseService.FindById | src/main/java/ir/bahman/academic_lms/service/impl/BaseServiceImpl.java:63-66 | finds exactly the stored rows, deleted ones included |
| BaseService.FindAll | src/main/java/ir/bahman/academic_lms/service/impl/BaseServiceImpl.java:69-71 | lists every stored id, deleted ones included, each once, in id order |
| QuestionFactory.CreateQuestion | src/main/java/ir/bahman/academic_lms/factory/QuestionFactory.java:13-39 | the upper-cased type `TEST` gives a test question with the given options, `ESSAY` an essay question, anything else InvalidArgument; the other fields are kept |
| QuestionFactory.CreateQuestionIgnoresCase | src/main/java/ir/bahman/academic_lms/factory/QuestionFactory.java:14 | only the upper-cased type matters |
| QuestionFactory.CreateQuestionExamples | src/main/java/ir/bahman/academic_lms/factory/QuestionFactory.java:13-39 | `test`, `Test`, `TEST` build test questions, `essay` an essay question, `descriptive` is rejected |
| AnswerFactory.CreateAnswer | src/main/java/ir/bahman/academic_lms/factory/AnswerFactory.java:11-26 | `ESSAY` keeps the text with no score, `TEST` keeps the option and the carried score, both keep the links; other types are InvalidArgument |
| AnswerFactory.CreateAnswerCases | src/main/java/ir/bahman/academic_lms/factory/AnswerFactory.java:11-26 | matching ignores case and `descriptive` is rejected |
| Scores.EffectiveScore | src/main/java/ir/bahman/academic_lms/service/impl/QuestionServiceImpl.java:113-117 | an assignment contributes its own score, else its question's default, else zero |
| Scores.AssignmentsOf | src/main/java/ir/bahman/academic_lms/service/impl/QuestionServiceImpl.java:112 | exactly the exam's assignments, each once |
| Scores.TotalScoreAnyOrder | src/main/java/ir/bahman/academic_lms/service/impl/QuestionServiceImpl.java:110-120 | the total does not depend on the order in which the exam's assignments are visited |
| Scores.TotalScoreEmpty | src/main/java/ir/bahman/academic_lms/service/impl/QuestionServiceImpl.java:111 | an exam without assignments totals zero |
| Scores.TotalScoreNonNegative | src/main/java/ir/bahman/academic_lms/service/impl/QuestionServiceImpl.java:110-120 | non-negative contributions give a non-negative total |
| QuestionService.PrePersist | src/main/java/ir/bahman/academic_lms/service/impl/QuestionServiceImpl.java:55-65 | accepted exactly with title, text and a non-zero default score; errors in check order, a null default score failing on unboxing |
| QuestionService.Create | src/main/java/ir/bahman/academic_lms/service/impl/QuestionServiceImpl.java:39-42 | factory errors first, then validation errors; on success the built question is stored under a fresh id and nothing else changes |
| QuestionService.CreateStoresVariant | src/main/java/ir/bahman/academic_lms/service/impl/QuestionServiceImpl.java:39-42 | the stored question keeps the four given fields and is a test question iff the type upper-cases to `TEST`, an essay iff to `ESSAY` |
| QuestionService.Update | src/main/java/ir/bahman/academic_lms/service/impl/QuestionServiceImpl.java:45-52 | unknown id is NotFound; only title, text and default score of that question change |
| QuestionService.QuestionsOfAssignments | src/main/java/ir/bahman/academic_lms/service/impl/QuestionServiceImpl.java:72-74 | one question per assignment, position by position |
| QuestionService.FindQuestionsByExamId | src/main/java/ir/bahman/academic_lms/service/impl/QuestionServiceImpl.java:68-75 | NotFound iff the exam is missing or deleted; otherwise one entry per assignment, and a question is listed iff it is assigned to the exam |
| QuestionService.FindQuestionsOfCourse | src/main/java/ir/bahman/academic_lms/service/impl/QuestionServiceImpl.java:78-85 | NotFound iff the course is missing or deleted; otherwise exactly the course's questions |
| QuestionService.StoredScore | src/main/java/ir/bahman/academic_lms/service/impl/QuestionServiceImpl.java:99-100 | a zero score stores the question's default, another score itself, a null score fails on unboxing |
| QuestionService.RecomputeTotal | src/main/java/ir/bahman/academic_lms/service/impl/QuestionServiceImpl.java:106-107 | only the exam's score changes, to the sum over its assignments |
| QuestionService.AssignQuestionToExam | src/main/java/ir/bahman/academic_lms/service/impl/QuestionServiceImpl.java:89-108 | errors in the order exam, question, null score; one new assignment is added even if one exists; the exam's score becomes the old total plus the new assignment's effective score; other exams are untouched |
| QuestionService.AddedAssignmentSum | src/main/java/ir/bahman/academic_lms/service/impl/QuestionServiceImpl.java:103-106 | adding an assignment to an exam raises its total by exactly that assignment's effective score |
| Grading.AnswersOfInstance | src/main/java/ir/bahman/academic_lms/service/impl/ExamServiceImpl.java:187-188 | exactly the attempt's answers, each once, in id order |
| Grading.GradeOne | src/main/java/ir/bahman/academic_lms/service/impl/ExamServiceImpl.java:190-204 | a correct test answer gets the effective score of its question's assignment to the exam (NotFound without one, an unboxing failure when neither score is set), a wrong one zero, an essay keeps its score and a null one fails on unboxing |
| Grading.GradeAll | src/main/java/ir/bahman/academic_lms/service/impl/ExamServiceImpl.java:189-206 | succeeds iff every answer grades, otherwise fails with some answer's error |
| Grading.Graded | src/main/java/ir/bahman/academic_lms/service/impl/ExamServiceImpl.java:198-203 | each listed answer gets its graded score, and only those |
| Grading.GradeAllIsStoredSum | src/main/java/ir/bahman/academic_lms/service/impl/ExamServiceImpl.java:203-205 | the graded sum equals the sum of the scores the saved answers hold |
| Grading.ApplyGrading | src/main/java/ir/bahman/academic_lms/service/impl/ExamServiceImpl.java:189-208 | the listed answers get their scores, the attempt's total grows by their sum, and nothing else changes |
| Grading.AutoTestGrading | src/main/java/ir/bahman/academic_lms/service/impl/ExamServiceImpl.java:177-209 | NotFound in the order exam, person, attempt; succeeds iff every answer of the attempt grades, then applies the grading to that attempt |
| Grading.UngradedEssayBlocksGrading | src/main/java/ir/bahman/academic_lms/service/impl/ExamServiceImpl.java:204 | an essay answer without a score makes automatic grading fail |
| Grading.GradeAllAgain | src/main/java/ir/bahman/academic_lms/service/impl/ExamServiceImpl.java:190-204 | regrading graded answers gives each the same score again |
| Grading.AutoTestGradingTwice | src/main/java/ir/bahman/academic_lms/service/impl/ExamServiceImpl.java:205 | automatic grading is not idempotent: a second run succeeds and adds the same amount to the total again |
| Grading.RegradeSameSum | src/main/java/ir/bahman/academic_lms/service/impl/ExamServiceImpl.java:198-205 | grading keeps the links, and the scores it stores sum to the amount it added |
| Grading.AnswerOf | src/main/java/ir/bahman/academic_lms/service/impl/ExamServiceImpl.java:228-229 | the first answer for the assignment and attempt, None iff there is none |
| Grading.GradedAnswer | src/main/java/ir/bahman/academic_lms/service/impl/ExamServiceImpl.java:213-229 | NotFound in the order exam, student, question, assignment, attempt, answer; otherwise the attempt and the answer |
| Grading.EssayGrading | src/main/java/ir/bahman/academic_lms/service/impl/ExamServiceImpl.java:212-239 | after the lookups a null score fails and a negative one is InvalidArgument; otherwise the answer's score is set and the attempt's total grows by the score, with nothing else changed |
| Grading.EssayGradingTwice | src/main/java/ir/bahman/academic_lms/service/impl/ExamServiceImpl.java:234-237 | grading the same essay twice adds the score twice |
| ExamService.StateAt | src/main/java/ir/bahman/academic_lms/service/impl/ExamServiceImpl.java:61-71 | not started before the start, started from the start up to but excluding the end, finished from the end on |
| ExamService.PrePersist | src/main/java/ir/bahman/academic_lms/service/impl/ExamServiceImpl.java:47-72 | accepted iff both times are present, neither is in the past and start is not after end; the accepted exam is undeleted with the state of `now` |
| ExamService.StateOfValidatedExam | src/main/java/ir/bahman/academic_lms/service/impl/ExamServiceImpl.java:49-71 | a validated exam is not started unless it starts now, and finished only for the window of one instant at `now` |
| ExamService.Create | src/main/java/ir/bahman/academic_lms/service/impl/ExamServiceImpl.java:47-72 | fails exactly when validation fails; otherwise the validated exam is stored under a fresh id and nothing else changes |
| ExamService.Update | src/main/java/ir/bahman/academic_lms/service/impl/ExamServiceImpl.java:158-174 | NotFound for an unknown id, NullValue for a stored null start, InvalidArgument once the stored exam has started, then the creation checks; copies title, description, state and times only |
| ExamService.UpdateKeepsOwnership | src/main/java/ir/bahman/academic_lms/service/impl/ExamServiceImpl.java:166-172 | the offered course, the score and the deleted flag survive an update |
| ExamService.FindById | src/main/java/ir/bahman/academic_lms/service/impl/ExamServiceImpl.java:143-150 | found iff stored and not deleted |
| ExamService.FindAll | src/main/java/ir/bahman/academic_lms/service/impl/ExamServiceImpl.java:153-155 | exactly the exams that are not deleted |
| ExamService.FindAllExamOfACourse | src/main/java/ir/bahman/academic_lms/service/impl/ExamServiceImpl.java:75-81 | NotFound for an unknown section; otherwise exactly its exams that are not deleted |
| ExamService.PersonOf | src/main/java/ir/bahman/academic_lms/service/impl/ExamServiceImpl.java:85-88 | the person of the account with that username, or the given error when there is none |
| ExamService.NewAttempt | src/main/java/ir/bahman/academic_lms/service/impl/ExamServiceImpl.java:107-116 | a new attempt of that person at that exam, in progress, begun at `now`, with total zero |
| ExamService.StartExam | src/main/java/ir/bahman/academic_lms/service/impl/ExamServiceImpl.java:84-118 | errors in the order account, exam, completed first attempt, enrolment, stored state (null, not started, finished); on success exactly one new attempt is added |
| ExamService.StartExamIgnoresClock | src/main/java/ir/bahman/academic_lms/service/impl/ExamServiceImpl.java:102-106 | whether a start succeeds does not depend on the clock, only on the stored state |
| ExamService.NotEnrolledIsDenied | src/main/java/ir/bahman/academic_lms/service/impl/ExamServiceImpl.java:99-101 | a student outside the exam's section is refused |
| ExamService.StartKeepsAccess | src/main/java/ir/bahman/academic_lms/service/impl/ExamServiceImpl.java:84-118 | after a start the same account, exam and enrolment are found and no first attempt is completed |
| ExamService.StartTwiceAllowed | src/main/java/ir/bahman/academic_lms/service/impl/ExamServiceImpl.java:93-97 | an attempt in progress does not block a second start |
| ExamService.SubmitExam | src/main/java/ir/bahman/academic_lms/service/impl/ExamServiceImpl.java:121-140 | missing account is AccessDenied, then NotFound for exam and attempt, AccessDenied for a completed attempt; on success the attempt is completed at `now` and its total grows by the graded answers' sum |
| ExamService.Close | src/main/java/ir/bahman/academic_lms/service/impl/ExamServiceImpl.java:134-135 | only the attempt's status and end time change |
| ExamService.SameAttemptAfterClose | src/main/java/ir/bahman/academic_lms/service/impl/ExamServiceImpl.java:134-137 | closing changes neither which attempt nor which answers grading finds |
| ExamService.SubmitKeepsAttempt | src/main/java/ir/bahman/academic_lms/service/impl/ExamServiceImpl.java:121-140 | after a submission the same attempt is found and it is completed |
| ExamService.SubmitTwiceDenied | src/main/java/ir/bahman/academic_lms/service/impl/ExamServiceImpl.java:131-133 | a submitted attempt cannot be submitted again |
| ExamService.SubmitWithUngradedEssayFails | src/main/java/ir/bahman/academic_lms/service/impl/ExamServiceImpl.java:137 | an ungraded essay answer makes submission fail |
| AnswerMapper.AfterToEntity | src/main/java/ir/bahman/academic_lms/mapper/AnswerMapper.java:42-61 | NotFound in the order exam, account, attempt, question, assignment; on success the draft links the caller's attempt at that exam and the exam's assignment of that question, with no score |
| AnswerMapper.AnswerBeforeStartRefused | src/main/java/ir/bahman/academic_lms/mapper/AnswerMapper.java:50-51 | without a started attempt an answer is NotFound |
| AnswerMapper.AnswerAfterStartBound | src/main/java/ir/bahman/academic_lms/mapper/AnswerMapper.java:42-61 | after a student's first start, an answer to an assigned question maps to the attempt just started |
| QuestionMapper.AfterToEntity | src/main/java/ir/bahman/academic_lms/mapper/QuestionMapper.java:40-54 | the course is resolved only when both names are given; an unknown major or course is NotFound; the resolved course has that title in a major of that name, and nothing else changes |
| QuestionMapper.AfterToDto | src/main/java/ir/bahman/academic_lms/mapper/QuestionMapper.java:56-72 | fields copied; course and major names taken from the question's course; test questions tagged `TEST` with their options, essays `ESSAY` with none; a null option list is NullValue |
| QuestionMapper.TypeTagRoundTrip | src/main/java/ir/bahman/academic_lms/mapper/QuestionMapper.java:62-70 | a question built from a type maps to its tag, and building again from the tag and options gives the same variant |
| QuestionMapper.NullOptionsNotMappable | src/main/java/ir/bahman/academic_lms/mapper/QuestionMapper.java:64 | a test question built without options cannot be mapped back |
| QuestionMapper.CourseNamesRoundTrip | src/main/java/ir/bahman/academic_lms/mapper/QuestionMapper.java:40-61 | names resolved from a request are the names reported back |
| OfferedCourseRepository.ExistsOverlapping | src/main/java/ir/bahman/academic_lms/repository/OfferedCourseRepository.java:20-33 | true iff some stored section clashes with the candidate |
| OfferedCourseRepository.ClashMeans | src/main/java/ir/bahman/academic_lms/repository/OfferedCourseRepository.java:23-27 | a clash is same teacher, term and day with intersecting half-open times; the relation is symmetric |
| OfferedCourseRepository.BackToBackNoClash | src/main/java/ir/bahman/academic_lms/repository/OfferedCourseRepository.java:26-27 | a section ending when another starts does not clash with it |
| OfferedCourseService.PrePersist | src/main/java/ir/bahman/academic_lms/service/impl/OfferedCourseServiceImpl.java:34-50 | a clash is AccessDenied, checked first; then a null time or start after end is InvalidArgument; equal times pass |
| OfferedCourseService.Create | src/main/java/ir/bahman/academic_lms/service/impl/OfferedCourseServiceImpl.java:34-50 | fails exactly when validation fails; otherwise the section is stored under a fresh id and nothing else changes |
| OfferedCourseService.CreateKeepsClashFree | src/main/java/ir/bahman/academic_lms/service/impl/OfferedCourseServiceImpl.java:36-43 | creation keeps a clash-free schedule clash-free |
| OfferedCourseService.Update | src/main/java/ir/bahman/academic_lms/service/impl/OfferedCourseServiceImpl.java:53-66 | NotFound, then NullValue without a term, a calendar or a registration start, then InvalidArgument when the registration start is before today; copies start, end and capacity only, with no clash or window check |
| OfferedCourseService.UpdateKeepsAssignment | src/main/java/ir/bahman/academic_lms/service/impl/OfferedCourseServiceImpl.java:62-64 | day, location, course, term and teacher survive an update |
| OfferedCourseService.FindAllTermCourses | src/main/java/ir/bahman/academic_lms/service/impl/OfferedCourseServiceImpl.java:87-98 | NotFound for a missing account or term, AccessDenied unless the caller's major has the term's major's name; otherwise exactly the term's sections |
| OfferedCourseService.OwnMajorMayListTerm | src/main/java/ir/bahman/academic_lms/service/impl/OfferedCourseServiceImpl.java:93-95 | a member of the term's major may list its sections |
| OfferedCourseService.FindAllTeacherCourses | src/main/java/ir/bahman/academic_lms/service/impl/OfferedCourseServiceImpl.java:69-75 | NotFound without an account; otherwise exactly the sections the caller teaches |
| OfferedCourseMapper.AfterToEntity | src/main/java/ir/bahman/academic_lms/mapper/OfferedCourseMapper.java:31-58 | succeeds iff every given id resolves and a given teacher holds the TEACHER role and the major of the section's term; a teacher on a section with no term is NullValue (the unguarded `term.getMajor()`), every other failure NotFound; the entity refers to exactly the resolved ids |
| OfferedCourseMapper.AfterToDto | src/main/java/ir/bahman/academic_lms/mapper/OfferedCourseMapper.java:61-71 | the term, course and teacher ids are reported when present |
| OfferedCourseMapper.IdsRoundTrip | src/main/java/ir/bahman/academic_lms/mapper/OfferedCourseMapper.java:31-71 | the ids a request resolves are the ids reported back |
| OfferedCourseMapper.TeacherOfOtherMajorRefused | src/main/java/ir/bahman/academic_lms/mapper/OfferedCourseMapper.java:52-54 | a teacher of another major than the term's is NotFound |
| SemesterUtil.SemesterOf | src/main/java/ir/bahman/academic_lms/util/SemesterUtil.java:9-15 | months 3-5 are spring, 6-8 summer, 9-11 fall, 12, 1 and 2 winter |
| SemesterUtil.ThreeMonthsEach | src/main/java/ir/bahman/academic_lms/util/SemesterUtil.java:11-14 | each semester gets exactly three months of the year |
| TermService.PrePersist | src/main/java/ir/bahman/academic_lms/service/impl/TermServiceImpl.java:27-42 | NullValue without a calendar or registration start; year from the registration start, InvalidArgument if in the past; semester of today's month; AlreadyExists iff the major has a term of that semester (any year, deleted too) and the year is this year; undeleted |
| TermService.LaterYearNeverDuplicate | src/main/java/ir/bahman/academic_lms/service/impl/TermServiceImpl.java:37-40 | a term for a later year is never refused as a duplicate |
| TermService.Create | src/main/java/ir/bahman/academic_lms/service/impl/TermServiceImpl.java:27-42 | fails exactly when validation fails; otherwise the validated term is stored under a fresh id |
| TermService.CreateTwiceRefused | src/main/java/ir/bahman/academic_lms/service/impl/TermServiceImpl.java:37-40 | a second term of this year for the same major and semester is AlreadyExists |
| TermService.DeleteById | src/main/java/ir/bahman/academic_lms/service/impl/TermServiceImpl.java:45-54 | NotFound for an unknown id, NullValue without a calendar or registration start, AccessDenied unless today is before the registration start; otherwise only that term is marked deleted |
| TermService.DeleteIsGuardedSoftDelete | src/main/java/ir/bahman/academic_lms/service/impl/TermServiceImpl.java:45-54 | a permitted term delete is the generic soft delete |
| TermService.Update | src/main/java/ir/bahman/academic_lms/service/impl/TermServiceImpl.java:57-68 | NotFound for a missing or deleted term; copies year, semester, calendar and major only |
| TermService.FindAll | src/main/java/ir/bahman/academic_lms/service/impl/TermServiceImpl.java:71-73 | exactly the terms that are not deleted |
| TermService.FindById | src/main/java/ir/bahman/academic_lms/service/impl/TermServiceImpl.java:76-83 | found iff stored and not deleted |
| TermService.FindCalendar | src/main/java/ir/bahman/academic_lms/service/impl/TermServiceImpl.java:86-90 | NotFound only for an unknown id; a deleted term's calendar is returned, and a missing calendar is returned as null |
| TermService.DeletedTermVisibility | src/main/java/ir/bahman/academic_lms/service/impl/TermServiceImpl.java:57-90 | after a delete the term is hidden from the finders and cannot be updated, yet its calendar is still served |
| MajorService.PrePersist | src/main/java/ir/bahman/academic_lms/service/impl/MajorServiceImpl.java:24-30 | AlreadyExists iff some major, deleted or not, has the name; otherwise the major gets the drawn code and is undeleted |
| MajorService.Create | src/main/java/ir/bahman/academic_lms/service/impl/MajorServiceImpl.java:24-30 | fails exactly when validation fails; otherwise the major is stored under a fresh id |
| MajorService.CreateKeepsNamesUnique | src/main/java/ir/bahman/academic_lms/service/impl/MajorServiceImpl.java:25-27 | creation keeps major names unique |
| MajorService.DeleteById | src/main/java/ir/bahman/academic_lms/service/impl/MajorServiceImpl.java:33-38 | NotFound for an unknown id; otherwise only that major is marked deleted |
| MajorService.DeleteIdempotent | src/main/java/ir/bahman/academic_lms/service/impl/MajorServiceImpl.java:33-38 | deleting twice is the same as deleting once |
| MajorService.DeletedNameStillTaken | src/main/java/ir/bahman/academic_lms/service/impl/MajorServiceImpl.java:25-27 | a deleted major's name still blocks a new major |
| MajorService.FindAll | src/main/java/ir/bahman/academic_lms/service/impl/MajorServiceImpl.java:41-43 | exactly the majors that are not deleted |
| MajorService.FindById | src/main/java/ir/bahman/academic_lms/service/impl/MajorServiceImpl.java:57-60 | found iff stored and not deleted |
| MajorService.Update | src/main/java/ir/bahman/academic_lms/service/impl/MajorServiceImpl.java:46-54 | NotFound for an unknown id, AlreadyExists iff any major has the name; otherwise only the name changes |
| MajorService.UpdateToOwnNameRefused | src/main/java/ir/bahman/academic_lms/service/impl/MajorServiceImpl.java:47-51 | renaming a major to its current name is AlreadyExists |
| MajorService.UpdateKeepsNamesUnique | src/main/java/ir/bahman/academic_lms/service/impl/MajorServiceImpl.java:46-54 | renaming keeps major names unique |
| CourseService.PrePersist | src/main/java/ir/bahman/academic_lms/service/impl/CourseServiceImpl.java:27-37 | NotFound for a missing or deleted major, AlreadyExists iff a course, deleted or not, has that title in that major; undeleted |
| CourseService.Create | src/main/java/ir/bahman/academic_lms/service/impl/CourseServiceImpl.java:27-37 | fails exactly when validation fails; otherwise the course is stored under a fresh id |
| CourseService.CreateKeepsTitlesUnique | src/main/java/ir/bahman/academic_lms/service/impl/CourseServiceImpl.java:33-35 | creation keeps (title, major) pairs unique |
| CourseService.CourseInDeletedMajorRefused | src/main/java/ir/bahman/academic_lms/service/impl/CourseServiceImpl.java:30-32 | once a major is deleted no course can be created in it |
| CourseService.DeleteById | src/main/java/ir/bahman/academic_lms/service/impl/BaseServiceImpl.java:35-60 | course deletion is the generic soft delete |
| CourseService.LiveMajorByName | src/main/java/ir/bahman/academic_lms/repository/MajorRepository.java:19 | the first major with that name that is not deleted, None iff there is none |
| CourseService.FindAllMajorCourses | src/main/java/ir/bahman/academic_lms/service/impl/CourseServiceImpl.java:48-53 | NotFound iff no undeleted major has the name; otherwise exactly that major's undeleted courses |
| CourseService.DeletedCourseUnlisted | src/main/java/ir/bahman/academic_lms/service/impl/CourseServiceImpl.java:48-53 | a deleted course is no longer listed for its major |
| CourseService.FindById | src/main/java/ir/bahman/academic_lms/service/impl/CourseServiceImpl.java:56-63 | found iff stored and not deleted |
| CourseService.FindAll | src/main/java/ir/bahman/academic_lms/service/impl/CourseServiceImpl.java:66-68 | exactly the courses that are not deleted |
| CourseService.Update | src/main/java/ir/bahman/academic_lms/service/impl/CourseServiceImpl.java:71-83 | NotFound for a missing or deleted course; copies title, major, unit and description only |
| CourseService.UpdateSkipsTitleCheck | src/main/java/ir/bahman/academic_lms/service/impl/CourseServiceImpl.java:74-79 | an update can give two courses the same title and major, which creation forbids |
| AccountService.ChangeRole | src/main/java/ir/bahman/academic_lms/service/impl/AccountServiceImpl.java:33-45 | NotFound for the account, then for the upper-cased role; AccessDenied unless the person holds the role; otherwise only the active role changes |
| AccountService.Activate | src/main/java/ir/bahman/academic_lms/service/impl/AccountServiceImpl.java:48-53 | NotFound for an unknown id; otherwise only the status changes, to active |
| AccountService.Deactivate | src/main/java/ir/bahman/academic_lms/service/impl/AccountServiceImpl.java:56-61 | NotFound for an unknown id; otherwise only the status changes, to inactive |
| AccountService.StatusSwitchesCancel | src/main/java/ir/bahman/academic_lms/service/impl/AccountServiceImpl.java:48-61 | the last switch decides the status; an activation after a deactivation is just an activation, and vice versa |
| AccountService.ChangePassword | src/main/java/ir/bahman/academic_lms/service/impl/AccountServiceImpl.java:64-74 | NotFound for the account, BadCredentials iff the old password does not match; otherwise only the password changes, to the encoded new one |
| AccountService.NewPasswordAccepted | src/main/java/ir/bahman/academic_lms/service/impl/AccountServiceImpl.java:64-74 | with a sound encoder, the new password is accepted as the old one next time |
| AccountService.Update | src/main/java/ir/bahman/academic_lms/service/impl/AccountServiceImpl.java:77-86 | NotFound for an unknown id; copies username, password, status and active role, keeping the person link |
| PersonService.PrePersist | src/main/java/ir/bahman/academic_lms/service/impl/PersonServiceImpl.java:44-58 | NotFound without the USER role, AlreadyExists iff the national code and phone pair exists, NotFound for an unknown major name; roles become exactly [USER] |
| PersonService.PostPersist | src/main/java/ir/bahman/academic_lms/service/impl/PersonServiceImpl.java:61-80 | NotFound without the USER role; an account is saved with the encoded password, pending status, the person link and USER active |
| PersonService.Register | src/main/java/ir/bahman/academic_lms/service/impl/PersonServiceImpl.java:83-98 | NotFound for an unknown major, then the pre-persist errors; on success exactly one person with roles [USER] and one pending account with the encoded password are added |
| PersonService.RegisterTwiceRefused | src/main/java/ir/bahman/academic_lms/service/impl/PersonServiceImpl.java:47-49 | the same national code and phone number cannot register twice |
| PersonService.RegisteredCanChangePassword | src/main/java/ir/bahman/academic_lms/service/impl/PersonServiceImpl.java:67-70 | a registered user with a fresh username can change the password giving the registered one |
| PersonService.Update | src/main/java/ir/bahman/academic_lms/service/impl/PersonServiceImpl.java:101-111 | NotFound for an unknown id; copies first and last name, national code and phone only |
| PersonService.AssignRole | src/main/java/ir/bahman/academic_lms/service/impl/PersonServiceImpl.java:114-122 | NotFound for the upper-cased role, then the person; the role is appended, keeping the existing ones |
| PersonService.AssignRoleTwiceDuplicates | src/main/java/ir/bahman/academic_lms/service/impl/PersonServiceImpl.java:120 | assigning a role twice lists it twice |
| PersonService.AssignedRoleCanBeActivated | src/main/java/ir/bahman/academic_lms/service/impl/AccountServiceImpl.java:33-45 | once a role is assigned to an account's person, the account can switch to it by the same name |
| Dtos.TextAnswerRule | src/main/java/ir/bahman/academic_lms/dto/AnswerDTO.java:31-38 | the text rule applies to `descriptive` only, and there demands a text with a visible character |
| Dtos.ExclusiveAnswerRule | src/main/java/ir/bahman/academic_lms/dto/AnswerDTO.java:50-53 | fails exactly when a non-blank text and an option id are both present |
| Dtos.EssayWithoutTextPasses | src/main/java/ir/bahman/academic_lms/dto/AnswerDTO.java:31-53 | an `essay` answer without text passes all three answer checks |
| Dtos.AnyCorrectMeans | src/main/java/ir/bahman/academic_lms/dto/QuestionDTO.java:46 | true iff some option is marked correct |
| Dtos.OptionsRule | src/main/java/ir/bahman/academic_lms/dto/QuestionDTO.java:38-47 | passes for every type but `test`; a `test` question passes iff it has options and one is correct |
| Dtos.ExamDtoWindow | src/main/java/ir/bahman/academic_lms/dto/ExamDTO.java:14-35 | a valid exam request has both times and a positive-length window |
| Dtos.SectionWindow | src/main/java/ir/bahman/academic_lms/dto/OfferedCourseDTO.java:45-49 | the window check passes when either time is null, and otherwise holds iff the end is strictly after the start |
| Dtos.OfferedCourseDtoMeans | src/main/java/ir/bahman/academic_lms/dto/OfferedCourseDTO.java:16-49 | a section request is valid iff it has a day, both times with the end strictly after the start, a capacity of at least one, a visible location of at most 50 characters, and course, term and teacher ids of at least one |
| Dtos.CalendarChain | src/main/java/ir/bahman/academic_lms/dto/AcademicCalenderDTO.java:16-48 | a valid calendar runs in order from today through registration to the end of classes |
| Dtos.CalendarChecksAcceptNull | src/main/java/ir/bahman/academic_lms/dto/AcademicCalenderDTO.java:32-47 | each ordering check passes when one of its dates is null |
| Dtos.ChangePasswordRequestMeans | src/main/java/ir/bahman/academic_lms/dto/ChangePasswordRequest.java:14-30 | a valid request's new password has at least eight characters, a digit and a letter, and differs from the old one |
| Dtos.PersonPart | src/main/java/ir/bahman/academic_lms/dto/RegisterRequest.java:16-33 | the profile fields of a registration request |
| Dtos.RegisterRequestMeans | src/main/java/ir/bahman/academic_lms/dto/RegisterRequest.java:16-45 | a valid registration has valid profile fields, a ten-digit national code, a `09` phone number, a 3-20 character username and a password with a digit and a letter |
| Dtos.CourseDescriptionOptional | src/main/java/ir/bahman/academic_lms/dto/CourseDTO.java:23-24 | a course request without a description can be valid |
| DtoGuards.TextRuleOnlyForUnbuildableTypes | src/main/java/ir/bahman/academic_lms/dto/AnswerDTO.java:31-38 | every type the text rule checks is one the answer factory rejects |
| DtoGuards.ZeroDefaultScoreRefusedLater | src/main/java/ir/bahman/academic_lms/service/impl/QuestionServiceImpl.java:55-65 | a question request that is valid with default score 0 is refused by the service |
| DtoGuards.ValidExamRequestAccepted | src/main/java/ir/bahman/academic_lms/dto/ExamDTO.java:31-34 | a valid exam request starting now or later passes the service's checks and is not finished |
| DtoGuards.ServiceAcceptsInstantWindow | src/main/java/ir/bahman/academic_lms/service/impl/ExamServiceImpl.java:58-60 | the service accepts an exam whose start equals its end |
| DtoGuards.ServiceAcceptsInstantSection | src/main/java/ir/bahman/academic_lms/service/impl/OfferedCourseServiceImpl.java:44-49 | the section service accepts a clash-free section whose start equals its end, which the section request refuses |
| DtoGuards.EssayGradingIgnoresScoreCap | src/main/java/ir/bahman/academic_lms/service/impl/ExamServiceImpl.java:231-233 | essay grading stores a score above the request's cap of 100 |

## Left out

- HTTP: controllers, role gates on endpoints, the exception handler, JWT issuance and filters, and RSA key loading. Errors are the `Error` datatype.
- Clock: `LocalDateTime.now()` and `LocalDate.now()` are a `now` or `today` parameter. Times of day and date-times are integers on one scale.
- Randomness: the random `UUID` major code is a `code` parameter.
- Password hashing: the encoder is a parameter with arbitrary `encode` and `matches` functions. Only the lemmas that need it assume `matches(p, encode(p))`.
- Persistence mechanics: lazy loading, cascades, `@Version`, database unique constraints, and entity identity. An entity equals another exactly when their ids are equal. Repository finders that return one row return the first match in id order, where the database would fail on several matches.
- Transactions: the exam, term, course, major, person and account services have no `@Transactional`. The model's failures carry no store, so it does not show the partial saves that a failure part-way leaves behind. For example, `autoTestGrading` saves each answer before it unboxes the next score.
- Question assignment: `assignQuestionToExam` does not add the new assignment to the exam's in-memory collection. The model sums over the store's assignments.
- `ExamService.Update` reads the clock twice; the model uses one `now` for both readings.
- `toUpperCase`: locale rules are not modelled. Only characters whose upper case is entirely ASCII are mapped, including the multi-character expansions of ß and the Latin ligatures. Every other non-ASCII character (é, ŉ, Greek, Cyrillic) is left unchanged, where Java would upper-case it.
- Floating point: `Double` is `real`, so rounding is not modelled.
- Concurrency: races between two attempts, or on a total-score read-modify-write, are not modelled.
- Not modelled at all: `findAllStudentCourses`, person search by keyword (it depends on database collation), `getPersonRoles`, `AnswerServiceImpl`, the MapStruct copying, and startup data seeding.
- The option request type is modelled by the question option it becomes.
- Major references: the major of a person, course or term is an id, never null. Registration and course creation look the major up and fail when it is missing; a term created from a request without a major name is not modelled.
- Request ids are `Option<int>`; the mappers receive ids already checked to be positive.
- ExamService.SubmitExam, ExamService.StartExam, Grading.AutoTestGrading, Grading.GradedAnswer, AnswerMapper.AfterToEntity: a student may start an exam again while an attempt is in progress (`ExamService.StartTwiceAllowed`). The program's `findByPersonAndExam` then fails on the two rows, but the model uses the first attempt. Its success results for such a store describe a state where the program fails.
- PersonService.Register: requires every field of the request to be present. The endpoints validate the request first. The model does not say what happens with a null field.
- AccountService.ChangePassword: requires both passwords to be present. The endpoint validates the request first. The encoder would reject a null password.
- PersonService.PostPersist: inserts the account once, as the cascade from saving the person does. The later `accountRepository.save` only merges the same row, so the model does not repeat it.
- QuestionService.PrePersist: a null default score is `NullValue`, the unboxing failure of `defaultScore == 0`, rather than the `InvalidArgument` the other checks raise.
- Nullable scalar fields: the term's year, a course's unit, and the strings that no check tests for null are never null in the model. Java's `Integer` and `String` fields may be null, and `TermService.Update` copies a possibly null year, but no modelled check reads them in a way a null would change.
