/** The exam lifecycle: creating and updating an exam with a validated time
    window, finding exams, and a student's start and submission of an
    attempt. Times are instants on one clock; `now` is the clock's reading
    when the operation runs. */
module ExamService {
  import opened Common
  import opened Tables
  import opened Entities
  import opened BaseService
  import opened Grading

  /** The state an exam with window `[start, end)` is in at `now`: the
      start is included, the end is not. */
  function StateAt(start: int, end: int, now: int): (st: ExamState)
    ensures st == NotStarted <==> now < start
    ensures st == Started <==> start <= now < end
    ensures st == Finished <==> start <= now && end <= now
  {
    if now < start then NotStarted
    else if now < end then Started
    else Finished
  }

  /** `prePersist(exam)`: both times are required, neither may lie in the
      past, and the start may not come after the end (equal is allowed).
      A valid exam is marked not deleted and gets the state it is in now. */
  function PrePersist(e: Exam, now: int): (r: Result<Exam>)
    ensures r.Ok? <==> e.startTime.Some? && e.endTime.Some? && now <= e.startTime.value <= e.endTime.value
    ensures r.Err? ==> r.error == InvalidArgument
    ensures r.Ok? ==> r.value == e.(deleted := false,
      examState := Some(StateAt(e.startTime.value, e.endTime.value, now)))
  {
    var start :- e.startTime.OrFail(InvalidArgument);
    var end :- e.endTime.OrFail(InvalidArgument);
    :- Need(!(start < now), InvalidArgument);
    :- Need(!(end < now), InvalidArgument);
    :- Need(!(start > end), InvalidArgument);
    Ok(e.(deleted := false, examState := Some(StateAt(start, end, now))))
  }

  /** Since the start may not lie in the past, a freshly validated exam has
      not started unless it starts right now, and it is over only when its
      window is the single instant `now`. */
  lemma StateOfValidatedExam(e: Exam, now: int)
    requires PrePersist(e, now).Ok?
    ensures var st := PrePersist(e, now).value.examState.value;
      && (st == Started ==> e.startTime.value == now < e.endTime.value)
      && (st == Finished ==> e.startTime.value == now == e.endTime.value)
  {
  }

  /** `persist(exam)` */
  function Create(s: Store, e: Exam, now: int): (r: Result<(Store, Id)>)
    ensures r.Err? <==> PrePersist(e, now).Err?
    ensures r.Err? ==> r.error == InvalidArgument
    ensures r.Ok? ==>
      && r.value.1 !in s.exams.rows
      && r.value.0.exams.rows == s.exams.rows[r.value.1 := PrePersist(e, now).value]
      && r.value.0 == s.(exams := r.value.0.exams)
  {
    var (t, id) :- Persist(s.exams, e, (x: Exam) => PrePersist(x, now));
    Ok((s.(exams := t), id))
  }

  /** `update(id, exam)`: the stored exam must not have started; the new
      values are validated as on creation and then title, description,
      state and both times are copied. Offered course, score and the
      deleted flag are kept. A stored exam without a start time fails
      when its start is read. */
  function Update(s: Store, id: Id, e: Exam, now: int): (r: Result<Store>)
    ensures id !in s.exams.rows ==> r == Err(NotFound)
    ensures id in s.exams.rows && s.exams.rows[id].startTime.None? ==> r == Err(NullValue)
    ensures id in s.exams.rows && s.exams.rows[id].startTime.Some? && s.exams.rows[id].startTime.value < now ==>
      r == Err(InvalidArgument)
    ensures r.Ok? <==>
      && id in s.exams.rows && s.exams.rows[id].startTime.Some? && now <= s.exams.rows[id].startTime.value
      && PrePersist(e, now).Ok?
    ensures r.Ok? ==>
      var v := PrePersist(e, now).value;
      && r.value.exams.rows.Keys == s.exams.rows.Keys
      && r.value.exams.rows[id] == s.exams.rows[id].(title := e.title, description := e.description,
           examState := v.examState, startTime := e.startTime, endTime := e.endTime)
      && (forall k :: k in s.exams.rows && k != id ==> r.value.exams.rows[k] == s.exams.rows[k])
      && r.value == s.(exams := r.value.exams)
  {
    var found :- Lookup(s.exams, id, NotFound);
    var storedStart :- found.startTime.OrFail(NullValue);
    :- Need(!(storedStart < now), InvalidArgument);
    var v :- PrePersist(e, now);
    Ok(s.(exams := Put(s.exams, id, found.(title := v.title, description := v.description,
      examState := v.examState, startTime := v.startTime, endTime := v.endTime))))
  }

  /** An update keeps the offered course, the score and the deleted flag. */
  lemma UpdateKeepsOwnership(s: Store, id: Id, e: Exam, now: int)
    requires Update(s, id, e, now).Ok?
    ensures var x := Update(s, id, e, now).value.exams.rows[id];
      && x.offeredCourseId == s.exams.rows[id].offeredCourseId
      && x.score == s.exams.rows[id].score
      && x.deleted == s.exams.rows[id].deleted
  {
  }

  /** `findById(id)`: a soft-deleted exam is not found. */
  function FindById(s: Store, id: Id): (r: Result<Exam>)
    ensures r.Ok? <==> id in s.exams.rows && !s.exams.rows[id].deleted
    ensures r.Ok? ==> r.value == s.exams.rows[id]
    ensures r.Err? ==> r.error == NotFound
  {
    var e :- Lookup(s.exams, id, NotFound);
    :- Need(!e.deleted, NotFound);
    Ok(e)
  }

  /** `findAll()`: the exams that are not deleted. */
  function FindAll(s: Store): (r: seq<Id>)
    ensures forall k :: k in r <==> k in s.exams.rows && !s.exams.rows[k].deleted
  {
    Select(s.exams, (e: Exam) => !e.deleted)
  }

  /** `findAllExamOfACourse(offeredCourseId)`: the section's exams that are
      not deleted. */
  function FindAllExamOfACourse(s: Store, offeredCourseId: Id): (r: Result<seq<Id>>)
    ensures r.Err? <==> offeredCourseId !in s.offeredCourses.rows
    ensures r.Err? ==> r.error == NotFound
    ensures r.Ok? ==> forall k :: k in r.value <==>
      k in s.exams.rows && !s.exams.rows[k].deleted && s.exams.rows[k].offeredCourseId == offeredCourseId
  {
    var _ :- Lookup(s.offeredCourses, offeredCourseId, NotFound);
    Ok(Select(s.exams, (e: Exam) => !e.deleted && e.offeredCourseId == offeredCourseId))
  }

  /** The person behind `username`, or `e` when there is no such account. */
  function PersonOf(s: Store, username: string, e: Error): (r: Result<Id>)
    ensures r.Ok? <==> AccountByUsername(s, username).Some?
    ensures r.Ok? ==> r.value == s.accounts.rows[AccountByUsername(s, username).value].personId
    ensures r.Err? ==> r.error == e
  {
    var accountId :- AccountByUsername(s, username).OrFail(e);
    Ok(s.accounts.rows[accountId].personId)
  }

  /** `existsByIdAndOfferedCourses_Id(personId, offeredCourseId)` */
  predicate Enrolled(s: Store, personId: Id, offeredCourseId: Id) {
    personId in s.persons.rows && offeredCourseId in s.persons.rows[personId].offeredCourses
  }

  /** Whether the student's first attempt at the exam is already completed. */
  predicate CompletedAttempt(s: Store, personId: Id, examId: Id) {
    var found := InstanceOf(s, personId, examId);
    found.Some? && s.instances.rows[found.value].status == Completed
  }

  /** A new attempt begun at `now`. */
  function NewAttempt(personId: Id, examId: Id, now: int): (i: ExamInstance)
    ensures i.status == InProgress && i.startAt == Some(now) && i.endAt.None? && i.totalScore == 0.0
    ensures i.personId == personId && i.examId == examId
  {
    ExamInstance(Some(now), None, InProgress, 0.0, personId, examId)
  }

  /** `startExam(examId, principal)`. The checks run in this order: the
      account, the exam, a completed first attempt, enrolment in the
      exam's section, and then the exam's stored state (not the clock).
      A null state fails when compared. On success exactly one attempt is
      added. */
  function StartExam(s: Store, username: string, examId: Id, now: int): (r: Result<(Store, Id)>)
    ensures AccountByUsername(s, username).None? ==> r == Err(NotFound)
    ensures AccountByUsername(s, username).Some? && examId !in s.exams.rows ==> r == Err(NotFound)
    ensures r.Ok? || r.Err?
    ensures AccountByUsername(s, username).Some? && examId in s.exams.rows ==>
      var pid := PersonOf(s, username, NotFound).value;
      var exam := s.exams.rows[examId];
      && (CompletedAttempt(s, pid, examId) ==> r == Err(AccessDenied))
      && (!CompletedAttempt(s, pid, examId) && !Enrolled(s, pid, exam.offeredCourseId) ==> r == Err(AccessDenied))
      && (!CompletedAttempt(s, pid, examId) && Enrolled(s, pid, exam.offeredCourseId) ==>
            && (exam.examState.None? ==> r == Err(NullValue))
            && (exam.examState == Some(NotStarted) ==> r == Err(ExamNotActive))
            && (exam.examState == Some(Finished) ==> r == Err(ExamNotActive))
            && (exam.examState == Some(Started) ==> r.Ok?))
      && (r.Ok? ==>
            && r.value.1 !in s.instances.rows
            && r.value.0.instances.rows == s.instances.rows[r.value.1 := NewAttempt(pid, examId, now)]
            && r.value.0 == s.(instances := r.value.0.instances))
  {
    var pid :- PersonOf(s, username, NotFound);
    var exam :- Lookup(s.exams, examId, NotFound);
    :- Need(!CompletedAttempt(s, pid, examId), AccessDenied);
    :- Need(Enrolled(s, pid, exam.offeredCourseId), AccessDenied);
    var state :- exam.examState.OrFail(NullValue);
    :- Need(state == Started, ExamNotActive);
    var (t, id) := Insert(s.instances, NewAttempt(pid, examId, now));
    Ok((s.(instances := t), id))
  }

  /** Whether an exam can be started depends on the stored state only: the
      clock reading decides nothing but the new attempt's start time. */
  lemma StartExamIgnoresClock(s: Store, username: string, examId: Id, now: int, later: int)
    ensures StartExam(s, username, examId, now).Ok? <==> StartExam(s, username, examId, later).Ok?
    ensures StartExam(s, username, examId, now).Err? ==>
      StartExam(s, username, examId, now) == StartExam(s, username, examId, later)
  {
  }

  /** A student who is not enrolled in the exam's section is refused, once
      the account, the exam and the completed-attempt check pass. */
  lemma NotEnrolledIsDenied(s: Store, username: string, examId: Id, now: int)
    requires AccountByUsername(s, username).Some? && examId in s.exams.rows
    requires !CompletedAttempt(s, PersonOf(s, username, NotFound).value, examId)
    requires !Enrolled(s, PersonOf(s, username, NotFound).value, s.exams.rows[examId].offeredCourseId)
    ensures StartExam(s, username, examId, now) == Err(AccessDenied)
  {
  }

  /** What a successful start leaves for the next one: the same account,
      exam and enrolment, and no completed first attempt. */
  lemma StartKeepsAccess(s: Store, username: string, examId: Id, now: int)
    requires StartExam(s, username, examId, now).Ok?
    ensures var s1 := StartExam(s, username, examId, now).value.0;
      var pid := PersonOf(s, username, NotFound).value;
      && s1.accounts == s.accounts && s1.exams == s.exams && s1.persons == s.persons
      && examId in s.exams.rows && s.exams.rows[examId].examState == Some(Started)
      && Enrolled(s, pid, s.exams.rows[examId].offeredCourseId)
      && !CompletedAttempt(s1, pid, examId)
  {
    var s1 := StartExam(s, username, examId, now).value.0;
    var pid := PersonOf(s, username, NotFound).value;
    assert s1 == s.(instances := Insert(s.instances, NewAttempt(pid, examId, now)).0);
    NewAttemptNotCompleted(s, pid, examId, now);
  }

  /** A new attempt is in progress, so adding it never makes the first
      attempt of that person at that exam a completed one. */
  lemma NewAttemptNotCompleted(s: Store, pid: Id, examId: Id, now: int)
    requires !CompletedAttempt(s, pid, examId)
    ensures !CompletedAttempt(s.(instances := Insert(s.instances, NewAttempt(pid, examId, now)).0), pid, examId)
  {
    FindFirstAfterInsert(s.instances, NewAttempt(pid, examId, now),
      (i: ExamInstance) => i.personId == pid && i.examId == examId);
  }

  /** An attempt in progress does not block another start: starting twice
      succeeds twice and leaves two attempts. */
  lemma StartTwiceAllowed(s: Store, username: string, examId: Id, now: int, later: int)
    requires StartExam(s, username, examId, now).Ok?
    ensures var (s1, first) := StartExam(s, username, examId, now).value;
      && StartExam(s1, username, examId, later).Ok?
      && var (s2, second) := StartExam(s1, username, examId, later).value;
         first != second && first in s2.instances.rows && second in s2.instances.rows
  {
    var (s1, first) := StartExam(s, username, examId, now).value;
    StartKeepsAccess(s, username, examId, now);
    assert AccountByUsername(s1, username) == AccountByUsername(s, username);
  }

  /** `submitExam(examId, principal)`. The checks run in this order: the
      account (its absence is reported as access denied), the exam, the
      student's attempt, and whether it is already completed. The attempt
      is then marked completed at `now` and graded automatically. */
  function SubmitExam(s: Store, username: string, examId: Id, now: int): (r: Result<Store>)
    requires AnswersLinked(s) && ExamQuestionsLinked(s)
    ensures AccountByUsername(s, username).None? ==> r == Err(AccessDenied)
    ensures AccountByUsername(s, username).Some? && examId !in s.exams.rows ==> r == Err(NotFound)
    ensures AccountByUsername(s, username).Some? && examId in s.exams.rows ==>
      var pid := PersonOf(s, username, AccessDenied).value;
      && (InstanceOf(s, pid, examId).None? ==> r == Err(NotFound))
      && (CompletedAttempt(s, pid, examId) ==> r == Err(AccessDenied))
      && (InstanceOf(s, pid, examId).Some? && !CompletedAttempt(s, pid, examId) ==>
            r == AutoTestGrading(Close(s, InstanceOf(s, pid, examId).value, now), examId, pid))
    ensures r.Ok? ==>
      var pid := PersonOf(s, username, AccessDenied).value;
      var instId := InstanceOf(s, pid, examId).value;
      var before := s.instances.rows[instId];
      var after := r.value.instances.rows[instId];
      && instId in r.value.instances.rows
      && after.status == Completed && after.endAt == Some(now)
      && after.startAt == before.startAt && after.personId == before.personId && after.examId == before.examId
      && after.totalScore == before.totalScore + AnswerScoreSum(r.value.answers, AnswersOfInstance(s, instId))
  {
    var pid :- PersonOf(s, username, AccessDenied);
    var _ :- Lookup(s.exams, examId, NotFound);
    var instId :- InstanceOf(s, pid, examId).OrFail(NotFound);
    :- Need(s.instances.rows[instId].status != Completed, AccessDenied);
    var closed := Close(s, instId, now);
    SameAttemptAfterClose(s, instId, now, pid, examId);
    AutoTestGrading(closed, examId, pid)
  }

  /** The attempt `instId` marked completed at `now`. */
  function Close(s: Store, instId: Id, now: int): (r: Store)
    requires instId in s.instances.rows
    ensures r.instances.rows == s.instances.rows[instId :=
      s.instances.rows[instId].(status := Completed, endAt := Some(now))]
    ensures r == s.(instances := r.instances)
  {
    s.(instances := Put(s.instances, instId, s.instances.rows[instId].(status := Completed, endAt := Some(now))))
  }

  /** Closing the attempt does not change which attempt or which answers
      grading finds. */
  lemma SameAttemptAfterClose(s: Store, instId: Id, now: int, pid: Id, examId: Id)
    requires instId in s.instances.rows
    ensures InstanceOf(Close(s, instId, now), pid, examId) == InstanceOf(s, pid, examId)
    ensures AnswersOfInstance(Close(s, instId, now), instId) == AnswersOfInstance(s, instId)
  {
    var c := Close(s, instId, now);
    FindFirstAgrees(s.instances, c.instances,
      (i: ExamInstance) => i.personId == pid && i.examId == examId,
      (i: ExamInstance) => i.personId == pid && i.examId == examId);
  }

  /** A successful submission keeps the links, finds the same attempt
      afterwards, and leaves that attempt completed. */
  lemma SubmitKeepsAttempt(s: Store, username: string, examId: Id, now: int)
    requires AnswersLinked(s) && ExamQuestionsLinked(s)
    requires SubmitExam(s, username, examId, now).Ok?
    ensures var s1 := SubmitExam(s, username, examId, now).value;
      var pid := PersonOf(s, username, AccessDenied).value;
      && AnswersLinked(s1) && ExamQuestionsLinked(s1)
      && s1.accounts == s.accounts && s1.exams == s.exams
      && InstanceOf(s1, pid, examId) == InstanceOf(s, pid, examId)
      && CompletedAttempt(s1, pid, examId)
  {
    var s1 := SubmitExam(s, username, examId, now).value;
    var pid := PersonOf(s, username, AccessDenied).value;
    var instId := InstanceOf(s, pid, examId).value;
    var closed := Close(s, instId, now);
    SameAttemptAfterClose(s, instId, now, pid, examId);
    var ids := AnswersOfInstance(closed, instId);
    assert s1 == ApplyGrading(closed, examId, instId, ids);
    RegradeSameSum(closed, examId, instId, ids);
    ApplyGradingKeepsLookups(closed, examId, instId, ids, pid);
  }

  /** A submitted attempt cannot be submitted again. */
  lemma SubmitTwiceDenied(s: Store, username: string, examId: Id, now: int, later: int)
    requires AnswersLinked(s) && ExamQuestionsLinked(s)
    requires SubmitExam(s, username, examId, now).Ok?
    ensures AnswersLinked(SubmitExam(s, username, examId, now).value)
    ensures ExamQuestionsLinked(SubmitExam(s, username, examId, now).value)
    ensures SubmitExam(SubmitExam(s, username, examId, now).value, username, examId, later) == Err(AccessDenied)
  {
    var s1 := SubmitExam(s, username, examId, now).value;
    SubmitKeepsAttempt(s, username, examId, now);
    assert AccountByUsername(s1, username) == AccountByUsername(s, username);
  }

  /** An essay answer that has not been graded makes the submission fail
      (the model's failures carry no store; see Transactions under Left out). */
  lemma SubmitWithUngradedEssayFails(s: Store, username: string, examId: Id, now: int, k: Id)
    requires AnswersLinked(s) && ExamQuestionsLinked(s)
    requires AccountByUsername(s, username).Some?
    requires InstanceOf(s, PersonOf(s, username, AccessDenied).value, examId).Some?
    requires k in s.answers.rows
    requires s.answers.rows[k].instanceId == InstanceOf(s, PersonOf(s, username, AccessDenied).value, examId).value
    requires s.answers.rows[k].kind.EssayAnswer? && s.answers.rows[k].score.None?
    ensures SubmitExam(s, username, examId, now).Err?
  {
    var pid := PersonOf(s, username, AccessDenied).value;
    var instId := InstanceOf(s, pid, examId).value;
    if examId in s.exams.rows && !CompletedAttempt(s, pid, examId) {
      var closed := Close(s, instId, now);
      SameAttemptAfterClose(s, instId, now, pid, examId);
      UngradedEssayBlocksGrading(closed, examId, pid, k);
    }
  }
}
