/** Grading of a student's attempt: the automatic grading of test answers
    that runs on submission, and the manual grading of one essay answer.
    Both add to the attempt's `totalScore` rather than recompute it. */
module Grading {
  import opened Common
  import opened Tables
  import opened Entities
  import opened Scores

  /** The answers of attempt `instId`, in id order. */
  function AnswersOfInstance(s: Store, instId: Id): (r: seq<Id>)
    ensures forall i :: 0 <= i < |r| ==> r[i] in s.answers.rows
    ensures forall k :: k in r <==> k in s.answers.rows && s.answers.rows[k].instanceId == instId
    ensures forall i, j :: 0 <= i < j < |r| ==> r[i] < r[j]
  {
    Select(s.answers, (a: Answer) => a.instanceId == instId)
  }

  /** The question an answer answers, through its assignment. */
  function QuestionOfAnswer(s: Store, k: Id): Id
    requires k in s.answers.rows && AnswersLinked(s)
  {
    s.examQuestions.rows[s.answers.rows[k].examQuestionId].questionId
  }

  /** The score the automatic grader gives answer `k` of an attempt at exam
      `examId`. A test answer with a correct option gets the effective
      score of the question's assignment to `examId` (found again by exam
      and question); one with a wrong option gets zero; an essay answer
      keeps the score it has. Unboxing a null score fails. */
  function GradeOne(s: Store, examId: Id, k: Id): (r: Result<real>)
    requires k in s.answers.rows && AnswersLinked(s) && ExamQuestionsLinked(s)
    ensures s.answers.rows[k].kind.EssayAnswer? ==>
      (r.Ok? <==> s.answers.rows[k].score.Some?) && (r.Ok? ==> r.value == s.answers.rows[k].score.value)
    ensures s.answers.rows[k].kind.EssayAnswer? && r.Err? ==> r.error == NullValue
    ensures s.answers.rows[k].kind.TestAnswer? && !s.answers.rows[k].kind.option.correct ==> r == Ok(0.0)
    ensures s.answers.rows[k].kind.TestAnswer? && s.answers.rows[k].kind.option.correct ==>
      var found := AssignmentOf(s, examId, QuestionOfAnswer(s, k));
      && (found.None? ==> r == Err(NotFound))
      && (r.Ok? ==> found.Some? && r.value == EffectiveScore(s, found.value))
      && (found.Some? ==>
            var eq := s.examQuestions.rows[found.value];
            && (r.Ok? <==> eq.score.Some? || s.questions.rows[eq.questionId].defaultScore.Some?)
            && (r.Err? ==> r.error == NullValue))
  {
    var a := s.answers.rows[k];
    match a.kind
    case EssayAnswer(_) => a.score.OrFail(NullValue)
    case TestAnswer(option) =>
      if !option.correct then Ok(0.0)
      else
        var j :- AssignmentOf(s, examId, QuestionOfAnswer(s, k)).OrFail(NotFound);
        var eq := s.examQuestions.rows[j];
        var score := if eq.score.Some? then eq.score else s.questions.rows[eq.questionId].defaultScore;
        score.OrFail(NullValue)
  }

  /** The scores of answers `ids`, graded in order and summed; the first
      failure is the result. */
  function GradeAll(s: Store, examId: Id, ids: seq<Id>): (r: Result<real>)
    requires forall i :: 0 <= i < |ids| ==> ids[i] in s.answers.rows
    requires AnswersLinked(s) && ExamQuestionsLinked(s)
    ensures r.Ok? <==> forall i :: 0 <= i < |ids| ==> GradeOne(s, examId, ids[i]).Ok?
    ensures r.Err? ==> exists i :: 0 <= i < |ids| && GradeOne(s, examId, ids[i]) == Err(r.error) &&
                                  forall j :: 0 <= j < i ==> GradeOne(s, examId, ids[j]).Ok?
  {
    if |ids| == 0 then Ok(0.0)
    else
      var x :- GradeOne(s, examId, ids[0]);
      var rest :- GradeAll(s, examId, ids[1..]);
      Ok(x + rest)
  }

  /** The answers `ids` with their new scores. */
  function Graded(s: Store, examId: Id, ids: seq<Id>): (m: map<Id, Answer>)
    requires forall i :: 0 <= i < |ids| ==> ids[i] in s.answers.rows
    requires AnswersLinked(s) && ExamQuestionsLinked(s)
    requires forall i :: 0 <= i < |ids| ==> GradeOne(s, examId, ids[i]).Ok?
    ensures m.Keys <= s.answers.rows.Keys
    ensures forall k :: k in m <==> k in ids
    ensures forall k :: k in m ==>
      m[k] == s.answers.rows[k].(score := Some(GradeOne(s, examId, k).value))
  {
    map k | k in ids :: s.answers.rows[k].(score := Some(GradeOne(s, examId, k).value))
  }

  /** The sum of the (present) scores of answers `ids` in table `t`. */
  function AnswerScoreSum(t: Table<Answer>, ids: seq<Id>): real
    requires forall i :: 0 <= i < |ids| ==> ids[i] in t.rows
  {
    if |ids| == 0 then 0.0
    else (if t.rows[ids[0]].score.Some? then t.rows[ids[0]].score.value else 0.0) + AnswerScoreSum(t, ids[1..])
  }

  /** The graded sum is the sum of the scores the graded answers hold. */
  lemma {:induction false} GradeAllIsStoredSum(s: Store, examId: Id, ids: seq<Id>, t: Table<Answer>)
    requires forall i :: 0 <= i < |ids| ==> ids[i] in s.answers.rows && ids[i] in t.rows
    requires AnswersLinked(s) && ExamQuestionsLinked(s)
    requires GradeAll(s, examId, ids).Ok?
    requires forall i :: 0 <= i < |ids| ==> t.rows[ids[i]].score == Some(GradeOne(s, examId, ids[i]).value)
    ensures GradeAll(s, examId, ids).value == AnswerScoreSum(t, ids)
  {
    if |ids| > 0 {
      GradeAllIsStoredSum(s, examId, ids[1..], t);
    }
  }

  /** The answer table with the new scores of the answers `ids` saved. */
  function GradedAnswers(s: Store, examId: Id, ids: seq<Id>): (t: Table<Answer>)
    requires AnswersLinked(s) && ExamQuestionsLinked(s)
    requires forall i :: 0 <= i < |ids| ==> ids[i] in s.answers.rows
    requires GradeAll(s, examId, ids).Ok?
    ensures t.rows.Keys == s.answers.rows.Keys && t.next == s.answers.next
    ensures forall k :: k in ids ==>
              t.rows[k] == s.answers.rows[k].(score := Some(GradeOne(s, examId, k).value))
    ensures forall k :: k in s.answers.rows && k !in ids ==> t.rows[k] == s.answers.rows[k]
    ensures AnswerScoreSum(t, ids) == GradeAll(s, examId, ids).value
  {
    var t := PutAll(s.answers, Graded(s, examId, ids));
    assert forall i :: 0 <= i < |ids| ==> ids[i] in ids;
    GradeAllIsStoredSum(s, examId, ids, t);
    t
  }

  /** Stores the new scores of the answers `ids` of attempt `instId` and
      adds their sum to the attempt's total. */
  function ApplyGrading(s: Store, examId: Id, instId: Id, ids: seq<Id>): (r: Store)
    requires AnswersLinked(s) && ExamQuestionsLinked(s) && instId in s.instances.rows
    requires forall i :: 0 <= i < |ids| ==> ids[i] in s.answers.rows
    requires GradeAll(s, examId, ids).Ok?
    ensures r.answers.rows.Keys == s.answers.rows.Keys
    ensures forall k :: k in ids ==>
              r.answers.rows[k] == s.answers.rows[k].(score := Some(GradeOne(s, examId, k).value))
    ensures forall k :: k in s.answers.rows && k !in ids ==> r.answers.rows[k] == s.answers.rows[k]
    ensures r.instances.rows.Keys == s.instances.rows.Keys
    ensures r.instances.rows[instId] == s.instances.rows[instId].(
              totalScore := s.instances.rows[instId].totalScore + AnswerScoreSum(r.answers, ids))
    ensures forall k :: k in s.instances.rows && k != instId ==> r.instances.rows[k] == s.instances.rows[k]
    ensures r == s.(answers := r.answers, instances := r.instances)
  {
    var answers := GradedAnswers(s, examId, ids);
    var inst := s.instances.rows[instId];
    s.(answers := answers,
       instances := Put(s.instances, instId, inst.(totalScore := inst.totalScore + GradeAll(s, examId, ids).value)))
  }

  /** `autoTestGrading(examId, studentId)`: grades every answer of the
      student's attempt and adds the sum of all their scores, test and
      essay alike, to the attempt's `totalScore`. */
  function AutoTestGrading(s: Store, examId: Id, studentId: Id): (r: Result<Store>)
    requires AnswersLinked(s) && ExamQuestionsLinked(s)
    ensures examId !in s.exams.rows ==> r == Err(NotFound)
    ensures examId in s.exams.rows && studentId !in s.persons.rows ==> r == Err(NotFound)
    ensures examId in s.exams.rows && studentId in s.persons.rows && InstanceOf(s, studentId, examId).None? ==>
              r == Err(NotFound)
    ensures r.Ok? <==>
              && examId in s.exams.rows && studentId in s.persons.rows && InstanceOf(s, studentId, examId).Some?
              && GradeAll(s, examId, AnswersOfInstance(s, InstanceOf(s, studentId, examId).value)).Ok?
    ensures r.Ok? ==>
              r.value == ApplyGrading(s, examId, InstanceOf(s, studentId, examId).value,
                                      AnswersOfInstance(s, InstanceOf(s, studentId, examId).value))
  {
    var _ :- Lookup(s.exams, examId, NotFound);
    var _ :- Lookup(s.persons, studentId, NotFound);
    var instId :- InstanceOf(s, studentId, examId).OrFail(NotFound);
    var ids := AnswersOfInstance(s, instId);
    var _ :- GradeAll(s, examId, ids);
    Ok(ApplyGrading(s, examId, instId, ids))
  }

  /** An essay answer that has not been graded yet makes automatic grading
      fail: its null score is unboxed. */
  lemma UngradedEssayBlocksGrading(s: Store, examId: Id, studentId: Id, k: Id)
    requires AnswersLinked(s) && ExamQuestionsLinked(s)
    requires InstanceOf(s, studentId, examId).Some?
    requires k in s.answers.rows && s.answers.rows[k].instanceId == InstanceOf(s, studentId, examId).value
    requires s.answers.rows[k].kind.EssayAnswer? && s.answers.rows[k].score.None?
    ensures AutoTestGrading(s, examId, studentId).Err?
  {
    var ids := AnswersOfInstance(s, InstanceOf(s, studentId, examId).value);
    var i :| 0 <= i < |ids| && ids[i] == k;
    assert GradeOne(s, examId, ids[i]).Err?;
  }

  /** Regrading reads only what grading left unchanged, so each answer gets
      the same score again. */
  lemma {:induction false} GradeAllAgain(s: Store, s': Store, examId: Id, ids: seq<Id>)
    requires AnswersLinked(s) && ExamQuestionsLinked(s) && AnswersLinked(s') && ExamQuestionsLinked(s')
    requires s'.examQuestions == s.examQuestions && s'.questions == s.questions
    requires forall k :: k in ids ==> k in s.answers.rows && k in s'.answers.rows
    requires forall k :: k in ids ==> GradeOne(s, examId, k).Ok?
    requires forall k :: k in ids ==>
               s'.answers.rows[k] == s.answers.rows[k].(score := Some(GradeOne(s, examId, k).value))
    ensures forall i :: 0 <= i < |ids| ==> ids[i] in s.answers.rows && ids[i] in s'.answers.rows
    ensures GradeAll(s', examId, ids) == GradeAll(s, examId, ids)
  {
    assert forall i :: 0 <= i < |ids| ==> ids[i] in ids;
    if |ids| > 0 {
      GradeOneAgain(s, s', examId, ids[0]);
      GradeAllAgain(s, s', examId, ids[1..]);
    }
  }

  /** Regrading one graded answer gives it the same score. */
  lemma GradeOneAgain(s: Store, s': Store, examId: Id, k: Id)
    requires AnswersLinked(s) && ExamQuestionsLinked(s) && AnswersLinked(s') && ExamQuestionsLinked(s')
    requires s'.examQuestions == s.examQuestions && s'.questions == s.questions
    requires k in s.answers.rows && k in s'.answers.rows
    requires GradeOne(s, examId, k).Ok?
    requires s'.answers.rows[k] == s.answers.rows[k].(score := Some(GradeOne(s, examId, k).value))
    ensures GradeOne(s', examId, k) == GradeOne(s, examId, k)
  {
    assert QuestionOfAnswer(s', k) == QuestionOfAnswer(s, k);
    assert AssignmentOf(s', examId, QuestionOfAnswer(s', k)) == AssignmentOf(s, examId, QuestionOfAnswer(s, k));
  }

  /** Automatic grading is not idempotent: running it a second time on its
      own result succeeds again and adds the same sum to `totalScore` a
      second time. */
  lemma AutoTestGradingTwice(s: Store, examId: Id, studentId: Id)
    requires AnswersLinked(s) && ExamQuestionsLinked(s)
    requires AutoTestGrading(s, examId, studentId).Ok?
    ensures var s1 := AutoTestGrading(s, examId, studentId).value;
      && AnswersLinked(s1) && ExamQuestionsLinked(s1)
      && InstanceOf(s1, studentId, examId) == InstanceOf(s, studentId, examId)
      && AutoTestGrading(s1, examId, studentId).Ok?
      && var instId := InstanceOf(s, studentId, examId).value;
         var s2 := AutoTestGrading(s1, examId, studentId).value;
         s2.instances.rows[instId].totalScore - s1.instances.rows[instId].totalScore ==
         s1.instances.rows[instId].totalScore - s.instances.rows[instId].totalScore
  {
    var s1 := AutoTestGrading(s, examId, studentId).value;
    var instId := InstanceOf(s, studentId, examId).value;
    var ids := AnswersOfInstance(s, instId);
    assert s1 == ApplyGrading(s, examId, instId, ids);
    RegradeSameSum(s, examId, instId, ids);
    ApplyGradingKeepsLookups(s, examId, instId, ids, studentId);
    var s2 := AutoTestGrading(s1, examId, studentId).value;
    assert s2 == ApplyGrading(s1, examId, instId, ids);
    RegradeSameSum(s1, examId, instId, ids);
  }

  /** Grading finds the same attempt, and the same answers of it,
      afterwards. */
  lemma ApplyGradingKeepsLookups(s: Store, examId: Id, instId: Id, ids: seq<Id>, pid: Id)
    requires AnswersLinked(s) && ExamQuestionsLinked(s) && instId in s.instances.rows
    requires forall i :: 0 <= i < |ids| ==> ids[i] in s.answers.rows
    requires GradeAll(s, examId, ids).Ok?
    ensures var s1 := ApplyGrading(s, examId, instId, ids);
      && s1.accounts == s.accounts && s1.exams == s.exams && s1.persons == s.persons
      && InstanceOf(s1, pid, examId) == InstanceOf(s, pid, examId)
      && AnswersOfInstance(s1, instId) == AnswersOfInstance(s, instId)
  {
    var s1 := ApplyGrading(s, examId, instId, ids);
    AttemptsKeepLinks(s.instances, s1.instances, pid, examId);
    AnswersKeepLinks(s.answers, s1.answers, instId);
  }

  /** Attempts whose owners and exams are unchanged give the same lookup. */
  lemma AttemptsKeepLinks(t: Table<ExamInstance>, t': Table<ExamInstance>, pid: Id, examId: Id)
    requires t.rows.Keys == t'.rows.Keys
    requires forall k :: k in t.rows ==> t'.rows[k].personId == t.rows[k].personId && t'.rows[k].examId == t.rows[k].examId
    ensures FindFirst(t', (i: ExamInstance) => i.personId == pid && i.examId == examId) ==
            FindFirst(t, (i: ExamInstance) => i.personId == pid && i.examId == examId)
  {
    FindFirstAgrees(t, t',
      (i: ExamInstance) => i.personId == pid && i.examId == examId,
      (i: ExamInstance) => i.personId == pid && i.examId == examId);
  }

  /** Answers whose attempts are unchanged are listed the same way. */
  lemma AnswersKeepLinks(t: Table<Answer>, t': Table<Answer>, instId: Id)
    requires t.rows.Keys == t'.rows.Keys && t.next == t'.next
    requires forall k :: k in t.rows ==> t'.rows[k].instanceId == t.rows[k].instanceId
    ensures Select(t', (a: Answer) => a.instanceId == instId) == Select(t, (a: Answer) => a.instanceId == instId)
  {
    SelectAgrees(t, t', (a: Answer) => a.instanceId == instId, (a: Answer) => a.instanceId == instId);
  }

  /** Grading leaves the links in place, and regrading its result gives
      every answer the score it already holds. */
  lemma RegradeSameSum(s: Store, examId: Id, instId: Id, ids: seq<Id>)
    requires AnswersLinked(s) && ExamQuestionsLinked(s) && instId in s.instances.rows
    requires forall i :: 0 <= i < |ids| ==> ids[i] in s.answers.rows
    requires GradeAll(s, examId, ids).Ok?
    ensures var s1 := ApplyGrading(s, examId, instId, ids);
      && AnswersLinked(s1) && ExamQuestionsLinked(s1)
      && GradeAll(s1, examId, ids) == GradeAll(s, examId, ids)
      && AnswerScoreSum(s1.answers, ids) == GradeAll(s, examId, ids).value
  {
    var s1 := ApplyGrading(s, examId, instId, ids);
    assert forall i :: 0 <= i < |ids| ==> ids[i] in ids;
    GradeAllAgain(s, s1, examId, ids);
    GradeAllIsStoredSum(s, examId, ids, s1.answers);
  }

  /** The answer to assignment `eqId` in attempt `instId`
      (`findByExamQuestionAndExamInstance`). */
  function AnswerOf(s: Store, eqId: Id, instId: Id): (r: Option<Id>)
    ensures r.Some? ==> r.value in s.answers.rows
    ensures r.Some? ==> s.answers.rows[r.value].examQuestionId == eqId && s.answers.rows[r.value].instanceId == instId
    ensures r.None? <==> forall k :: k in s.answers.rows ==>
      !(s.answers.rows[k].examQuestionId == eqId && s.answers.rows[k].instanceId == instId)
  {
    FindFirst(s.answers, (a: Answer) => a.examQuestionId == eqId && a.instanceId == instId)
  }

  /** The answer `essayGrading` grades, found in the order exam, student,
      question, assignment, attempt, answer; each miss is `NotFound`. */
  function GradedAnswer(s: Store, examId: Id, studentId: Id, questionId: Id): (r: Result<(Id, Id)>)
    ensures examId !in s.exams.rows ==> r == Err(NotFound)
    ensures examId in s.exams.rows && studentId !in s.persons.rows ==> r == Err(NotFound)
    ensures examId in s.exams.rows && studentId in s.persons.rows && questionId !in s.questions.rows ==> r == Err(NotFound)
    ensures r.Err? ==> r.error == NotFound
    ensures r.Ok? <==>
      && examId in s.exams.rows && studentId in s.persons.rows && questionId in s.questions.rows
      && AssignmentOf(s, examId, questionId).Some? && InstanceOf(s, studentId, examId).Some?
      && AnswerOf(s, AssignmentOf(s, examId, questionId).value, InstanceOf(s, studentId, examId).value).Some?
    ensures r.Ok? ==>
      && r.value.0 == InstanceOf(s, studentId, examId).value
      && r.value.1 == AnswerOf(s, AssignmentOf(s, examId, questionId).value, r.value.0).value
  {
    var _ :- Lookup(s.exams, examId, NotFound);
    var _ :- Lookup(s.persons, studentId, NotFound);
    var _ :- Lookup(s.questions, questionId, NotFound);
    var eqId :- AssignmentOf(s, examId, questionId).OrFail(NotFound);
    var instId :- InstanceOf(s, studentId, examId).OrFail(NotFound);
    var answerId :- AnswerOf(s, eqId, instId).OrFail(NotFound);
    Ok((instId, answerId))
  }

  /** `essayGrading(examId, studentId, questionId, score)`: after the
      lookups, a null score fails when unboxed and a negative one is
      rejected; otherwise the answer's score is set and the attempt's total
      grows by `score`, whatever the answer held before. */
  function EssayGrading(s: Store, examId: Id, studentId: Id, questionId: Id, score: Option<real>): (r: Result<Store>)
    ensures GradedAnswer(s, examId, studentId, questionId).Err? ==> r == Err(NotFound)
    ensures GradedAnswer(s, examId, studentId, questionId).Ok? && score.None? ==> r == Err(NullValue)
    ensures GradedAnswer(s, examId, studentId, questionId).Ok? && score.Some? && score.value < 0.0 ==>
      r == Err(InvalidArgument)
    ensures r.Ok? <==> GradedAnswer(s, examId, studentId, questionId).Ok? && score.Some? && score.value >= 0.0
    ensures r.Ok? ==>
      var instId := GradedAnswer(s, examId, studentId, questionId).value.0;
      var answerId := GradedAnswer(s, examId, studentId, questionId).value.1;
      && r.value.answers.rows == s.answers.rows[answerId := s.answers.rows[answerId].(score := score)]
      && r.value.instances.rows == s.instances.rows[instId := s.instances.rows[instId].(
           totalScore := s.instances.rows[instId].totalScore + score.value)]
      && r.value == s.(answers := r.value.answers, instances := r.value.instances)
  {
    var (instId, answerId) :- GradedAnswer(s, examId, studentId, questionId);
    var v :- score.OrFail(NullValue);
    :- Need(v >= 0.0, InvalidArgument);
    var inst := s.instances.rows[instId];
    Ok(s.(answers := Put(s.answers, answerId, s.answers.rows[answerId].(score := score)),
          instances := Put(s.instances, instId, inst.(totalScore := inst.totalScore + v))))
  }

  /** Grading the same essay twice adds its score to the total twice. */
  lemma EssayGradingTwice(s: Store, examId: Id, studentId: Id, questionId: Id, score: real)
    requires EssayGrading(s, examId, studentId, questionId, Some(score)).Ok?
    ensures var s1 := EssayGrading(s, examId, studentId, questionId, Some(score)).value;
      && EssayGrading(s1, examId, studentId, questionId, Some(score)).Ok?
      && var instId := InstanceOf(s, studentId, examId).value;
         var s2 := EssayGrading(s1, examId, studentId, questionId, Some(score)).value;
         s2.instances.rows[instId].totalScore == s.instances.rows[instId].totalScore + 2.0 * score
  {
    EssayGradingKeepsTarget(s, examId, studentId, questionId, score);
  }

  /** After an essay grading the same attempt and answer are found again. */
  lemma EssayGradingKeepsTarget(s: Store, examId: Id, studentId: Id, questionId: Id, score: real)
    requires EssayGrading(s, examId, studentId, questionId, Some(score)).Ok?
    ensures var s1 := EssayGrading(s, examId, studentId, questionId, Some(score)).value;
      GradedAnswer(s1, examId, studentId, questionId) == GradedAnswer(s, examId, studentId, questionId)
  {
    var s1 := EssayGrading(s, examId, studentId, questionId, Some(score)).value;
    var instId := GradedAnswer(s, examId, studentId, questionId).value.0;
    var answerId := GradedAnswer(s, examId, studentId, questionId).value.1;
    ScoresKeepAttempt(s, s1, studentId, examId, instId, s1.instances.rows[instId].totalScore);
    ScoresKeepAnswer(s, s1, AssignmentOf(s, examId, questionId).value, instId, answerId, Some(score));
    GradedAnswerFrame(s, s1, examId, studentId, questionId);
  }

  /** Changing one attempt's total does not change the attempt found. */
  lemma ScoresKeepAttempt(s: Store, s1: Store, studentId: Id, examId: Id, instId: Id, total: real)
    requires instId in s.instances.rows
    requires s1.instances.rows == s.instances.rows[instId := s.instances.rows[instId].(totalScore := total)]
    ensures InstanceOf(s1, studentId, examId) == InstanceOf(s, studentId, examId)
  {
    FindFirstAgrees(s.instances, s1.instances,
      (i: ExamInstance) => i.personId == studentId && i.examId == examId,
      (i: ExamInstance) => i.personId == studentId && i.examId == examId);
  }

  /** Changing one answer's score does not change the answer found. */
  lemma ScoresKeepAnswer(s: Store, s1: Store, eqId: Id, instId: Id, answerId: Id, score: Option<real>)
    requires answerId in s.answers.rows
    requires s1.answers.rows == s.answers.rows[answerId := s.answers.rows[answerId].(score := score)]
    ensures AnswerOf(s1, eqId, instId) == AnswerOf(s, eqId, instId)
  {
    FindFirstAgrees(s.answers, s1.answers,
      (a: Answer) => a.examQuestionId == eqId && a.instanceId == instId,
      (a: Answer) => a.examQuestionId == eqId && a.instanceId == instId);
  }

  /** The essay to grade is found from the exam, person, question and
      assignment tables, the attempt lookup and the answer lookup alone. */
  lemma GradedAnswerFrame(s: Store, s1: Store, examId: Id, studentId: Id, questionId: Id)
    requires s1.exams == s.exams && s1.persons == s.persons
    requires s1.questions == s.questions && s1.examQuestions == s.examQuestions
    requires InstanceOf(s1, studentId, examId) == InstanceOf(s, studentId, examId)
    requires AssignmentOf(s, examId, questionId).Some? && InstanceOf(s, studentId, examId).Some? ==>
      AnswerOf(s1, AssignmentOf(s, examId, questionId).value, InstanceOf(s, studentId, examId).value) ==
      AnswerOf(s, AssignmentOf(s, examId, questionId).value, InstanceOf(s, studentId, examId).value)
    ensures GradedAnswer(s1, examId, studentId, questionId) == GradedAnswer(s, examId, studentId, questionId)
  {
    assert AssignmentOf(s1, examId, questionId) == AssignmentOf(s, examId, questionId);
  }
}
