/** The question bank: building and validating questions, assigning them to
    exams with a score, and recomputing an exam's total score. */
module QuestionService {
  import opened Common
  import opened Tables
  import opened Entities
  import opened BaseService
  import opened QuestionFactory
  import opened Scores

  /** `prePersist(question)`: title and text must be present and the default
      score must not be zero. A null default score fails when it is
      unboxed for the comparison with zero. */
  function PrePersist(q: Question): (r: Result<Question>)
    ensures r.Ok? <==>
      q.title.Some? && q.text.Some? && q.defaultScore.Some? && q.defaultScore.value != 0.0
    ensures r.Ok? ==> r.value == q
    ensures q.title.None? ==> r == Err(InvalidArgument)
    ensures q.title.Some? && q.text.None? ==> r == Err(InvalidArgument)
    ensures q.title.Some? && q.text.Some? && q.defaultScore.None? ==> r == Err(NullValue)
    ensures q.title.Some? && q.text.Some? && q.defaultScore == Some(0.0) ==> r == Err(InvalidArgument)
  {
    var _ :- q.title.OrFail(InvalidArgument);
    var _ :- q.text.OrFail(InvalidArgument);
    var score :- q.defaultScore.OrFail(NullValue);
    :- Need(score != 0.0, InvalidArgument);
    Ok(q)
  }

  /** `create(type, question, options)`: the factory builds the variant,
      then `persist` validates and saves it under a fresh id. */
  function Create(s: Store, kind: string, q: Question, options: Option<seq<QuestionOption>>): (r: Result<(Store, Id)>)
    ensures CreateQuestion(kind, q, options).Err? ==> r == Err(InvalidArgument)
    ensures CreateQuestion(kind, q, options).Ok? && PrePersist(q).Err? ==> r == Err(PrePersist(q).error)
    ensures r.Ok? <==> CreateQuestion(kind, q, options).Ok? && PrePersist(q).Ok?
    ensures r.Ok? ==>
      && r.value.1 !in s.questions.rows
      && r.value.0.questions.rows == s.questions.rows[r.value.1 := CreateQuestion(kind, q, options).value]
      && r.value.0 == s.(questions := r.value.0.questions)
  {
    var built :- CreateQuestion(kind, q, options);
    var (t, id) :- Persist(s.questions, built, PrePersist);
    Ok((s.(questions := t), id))
  }

  /** A successful create stores a question whose variant is the one the
      upper-cased type names and whose four fields are those given. */
  lemma CreateStoresVariant(s: Store, kind: string, q: Question, options: Option<seq<QuestionOption>>)
    requires Create(s, kind, q, options).Ok?
    ensures var (s', id) := Create(s, kind, q, options).value;
      && id in s'.questions.rows
      && s'.questions.rows[id].title == q.title
      && s'.questions.rows[id].text == q.text
      && s'.questions.rows[id].defaultScore == q.defaultScore
      && s'.questions.rows[id].courseId == q.courseId
      && (s'.questions.rows[id].kind == TestQuestion(options) <==> Text.ToUpper(kind) == "TEST")
      && (s'.questions.rows[id].kind == EssayQuestion <==> Text.ToUpper(kind) == "ESSAY")
  {
  }

  /** `update(id, question)`: copies title, text and default score onto the
      stored question; nothing is validated. */
  function Update(s: Store, id: Id, q: Question): (r: Result<Store>)
    ensures r.Err? <==> id !in s.questions.rows
    ensures r.Err? ==> r.error == NotFound
    ensures r.Ok? ==>
      && r.value.questions.rows.Keys == s.questions.rows.Keys
      && r.value.questions.rows[id] ==
         s.questions.rows[id].(title := q.title, text := q.text, defaultScore := q.defaultScore)
      && (forall k :: k in s.questions.rows && k != id ==> r.value.questions.rows[k] == s.questions.rows[k])
      && r.value == s.(questions := r.value.questions)
  {
    var found :- Lookup(s.questions, id, NotFound);
    Ok(s.(questions := Put(s.questions, id, found.(title := q.title, text := q.text, defaultScore := q.defaultScore))))
  }

  /** The questions of the assignments `eqs`, one entry per assignment. */
  function QuestionsOfAssignments(s: Store, eqs: seq<Id>): (r: seq<Id>)
    requires AllAssignments(s, eqs)
    ensures |r| == |eqs|
    ensures forall i :: 0 <= i < |eqs| ==> r[i] == s.examQuestions.rows[eqs[i]].questionId
  {
    seq(|eqs|, i requires 0 <= i < |eqs| => s.examQuestions.rows[eqs[i]].questionId)
  }

  /** `findQuestionsByExamId(examId)`: the exam must exist and not be
      deleted; the join through the assignments yields one question per
      assignment, so a question assigned twice is listed twice. */
  function FindQuestionsByExamId(s: Store, examId: Id): (r: Result<seq<Id>>)
    ensures r.Err? <==> examId !in s.exams.rows || s.exams.rows[examId].deleted
    ensures r.Err? ==> r.error == NotFound
    ensures r.Ok? ==> |r.value| == |AssignmentsOf(s, examId)|
    ensures r.Ok? ==> forall q :: q in r.value <==>
      exists k :: k in s.examQuestions.rows && s.examQuestions.rows[k].examId == examId
                  && s.examQuestions.rows[k].questionId == q
  {
    var exam :- Lookup(s.exams, examId, NotFound);
    :- Need(!exam.deleted, NotFound);
    var eqs := AssignmentsOf(s, examId);
    var r := QuestionsOfAssignments(s, eqs);
    assert forall q :: q in r ==> exists i :: 0 <= i < |eqs| && r[i] == q;
    assert forall k :: k in s.examQuestions.rows && s.examQuestions.rows[k].examId == examId ==>
      exists i :: 0 <= i < |eqs| && eqs[i] == k;
    Ok(r)
  }

  /** `findQuestionsOfCourse(courseId)`: the course must exist and not be
      deleted. */
  function FindQuestionsOfCourse(s: Store, courseId: Id): (r: Result<seq<Id>>)
    ensures r.Err? <==> courseId !in s.courses.rows || s.courses.rows[courseId].deleted
    ensures r.Err? ==> r.error == NotFound
    ensures r.Ok? ==> forall k :: k in r.value <==>
      k in s.questions.rows && s.questions.rows[k].courseId == Some(courseId)
  {
    var course :- Lookup(s.courses, courseId, NotFound);
    :- Need(!course.deleted, NotFound);
    Ok(Select(s.questions, (q: Question) => q.courseId == Some(courseId)))
  }

  /** The score a new assignment stores: zero means "use the question's
      default". A null score fails when it is unboxed. */
  function StoredScore(score: Option<real>, q: Question): (r: Result<Option<real>>)
    ensures score.None? <==> r.Err?
    ensures r.Err? ==> r.error == NullValue
    ensures score == Some(0.0) ==> r == Ok(q.defaultScore)
    ensures score.Some? && score.value != 0.0 ==> r == Ok(score)
  {
    var v :- score.OrFail(NullValue);
    Ok(if v == 0.0 then q.defaultScore else Some(v))
  }

  /** `calculateTotalScore(exam)` applied to the stored exam: only its
      score changes. */
  function RecomputeTotal(s: Store, examId: Id): (r: Store)
    requires examId in s.exams.rows && ExamQuestionsLinked(s)
    ensures r.exams.rows.Keys == s.exams.rows.Keys
    ensures r.exams.rows[examId] == s.exams.rows[examId].(score := Some(TotalScore(s, examId)))
    ensures forall k :: k in s.exams.rows && k != examId ==> r.exams.rows[k] == s.exams.rows[k]
    ensures r == s.(exams := r.exams)
  {
    s.(exams := Put(s.exams, examId, s.exams.rows[examId].(score := Some(TotalScore(s, examId)))))
  }

  /** `assignQuestionToExam(examId, questionId, score)`: adds a new
      assignment (no check for an existing one) and recomputes the exam's
      total over all its assignments, the new one included. */
  function AssignQuestionToExam(s: Store, examId: Id, questionId: Id, score: Option<real>): (r: Result<(Store, Id)>)
    requires ExamQuestionsLinked(s)
    ensures examId !in s.exams.rows ==> r == Err(NotFound)
    ensures examId in s.exams.rows && questionId !in s.questions.rows ==> r == Err(NotFound)
    ensures examId in s.exams.rows && questionId in s.questions.rows && score.None? ==> r == Err(NullValue)
    ensures r.Ok? <==> examId in s.exams.rows && questionId in s.questions.rows && score.Some?
    ensures r.Ok? ==>
      var (s', k) := r.value;
      && k !in s.examQuestions.rows
      && s'.examQuestions.rows == s.examQuestions.rows[k := ExamQuestion(examId, questionId,
           if score.value == 0.0 then s.questions.rows[questionId].defaultScore else score)]
      && ExamQuestionsLinked(s')
      && s'.exams.rows.Keys == s.exams.rows.Keys
      && s'.exams.rows[examId] == s.exams.rows[examId].(score := Some(TotalScore(s', examId)))
      && TotalScore(s', examId) == TotalScore(s, examId) + EffectiveScore(s', k)
      && (forall e :: e in s.exams.rows && e != examId ==> s'.exams.rows[e] == s.exams.rows[e])
      && s' == s.(examQuestions := s'.examQuestions, exams := s'.exams)
  {
    var exam :- Lookup(s.exams, examId, NotFound);
    var question :- Lookup(s.questions, questionId, NotFound);
    var stored :- StoredScore(score, question);
    var (t, k) := Insert(s.examQuestions, ExamQuestion(examId, questionId, stored));
    var s1 := s.(examQuestions := t);
    var s2 := RecomputeTotal(s1, examId);
    RecomputedAfterAdd(s, s1, s2, examId, k);
    Ok((s2, k))
  }

  /** After assignment `k` of the exam was added and the total recomputed,
      the total grew by that assignment's effective score. */
  lemma RecomputedAfterAdd(s: Store, s1: Store, s2: Store, examId: Id, k: Id)
    requires ExamQuestionsLinked(s) && ExamQuestionsLinked(s1) && examId in s1.exams.rows
    requires s1.questions == s.questions
    requires k !in s.examQuestions.rows && k in s1.examQuestions.rows
    requires s1.examQuestions.rows.Keys == s.examQuestions.rows.Keys + {k}
    requires s1.examQuestions.rows[k].examId == examId
    requires forall j :: j in s.examQuestions.rows ==> s1.examQuestions.rows[j] == s.examQuestions.rows[j]
    requires s2 == RecomputeTotal(s1, examId)
    ensures ExamQuestionsLinked(s2)
    ensures TotalScore(s2, examId) == TotalScore(s1, examId)
    ensures TotalScore(s2, examId) == TotalScore(s, examId) + EffectiveScore(s2, k)
  {
    RecomputeKeepsTotal(s1, examId);
    AddedAssignmentSum(s, s1, examId, k);
  }

  /** Storing the total does not change it: the assignments are untouched. */
  lemma RecomputeKeepsTotal(s: Store, examId: Id)
    requires examId in s.exams.rows && ExamQuestionsLinked(s)
    ensures ExamQuestionsLinked(RecomputeTotal(s, examId))
    ensures TotalScore(RecomputeTotal(s, examId), examId) == TotalScore(s, examId)
  {
    ScoreSumFrame(s, RecomputeTotal(s, examId), AssignmentsOf(s, examId));
  }

  /** The sum over an exam's assignments after one assignment `k` of that
      exam was added. */
  lemma AddedAssignmentSum(s: Store, s': Store, examId: Id, k: Id)
    requires ExamQuestionsLinked(s) && ExamQuestionsLinked(s')
    requires s'.questions == s.questions
    requires k !in s.examQuestions.rows && k in s'.examQuestions.rows
    requires s'.examQuestions.rows.Keys == s.examQuestions.rows.Keys + {k}
    requires s'.examQuestions.rows[k].examId == examId
    requires forall j :: j in s.examQuestions.rows ==> s'.examQuestions.rows[j] == s.examQuestions.rows[j]
    ensures TotalScore(s', examId) == TotalScore(s, examId) + EffectiveScore(s', k)
  {
    var before := AssignmentsOf(s, examId);
    ScoreSumFrame(s, s', before);
    ScoreSumAppend(s', before, [k]);
    TotalAfterAdd(s, s', examId, k, before);
  }

  /** The old listing followed by the new assignment visits exactly the
      exam's assignments, so it sums to the new total. */
  lemma TotalAfterAdd(s: Store, s': Store, examId: Id, k: Id, before: seq<Id>)
    requires ExamQuestionsLinked(s')
    requires k !in s.examQuestions.rows && k in s'.examQuestions.rows
    requires s'.examQuestions.rows.Keys == s.examQuestions.rows.Keys + {k}
    requires s'.examQuestions.rows[k].examId == examId
    requires forall j :: j in s.examQuestions.rows ==> s'.examQuestions.rows[j] == s.examQuestions.rows[j]
    requires before == AssignmentsOf(s, examId)
    ensures AllAssignments(s', before + [k])
    ensures ScoreSum(s', before + [k]) == TotalScore(s', examId)
  {
    ListingAfterAdd(s, s', examId, k, before);
    TotalScoreAnyOrder(s', examId, before + [k]);
  }

  /** The exam's assignments after the addition, listed as the old ones
      followed by the new one. */
  lemma ListingAfterAdd(s: Store, s': Store, examId: Id, k: Id, before: seq<Id>)
    requires k !in s.examQuestions.rows && k in s'.examQuestions.rows
    requires s'.examQuestions.rows.Keys == s.examQuestions.rows.Keys + {k}
    requires s'.examQuestions.rows[k].examId == examId
    requires forall j :: j in s.examQuestions.rows ==> s'.examQuestions.rows[j] == s.examQuestions.rows[j]
    requires forall j :: j in before <==> j in s.examQuestions.rows && s.examQuestions.rows[j].examId == examId
    requires forall i, j :: 0 <= i < j < |before| ==> before[i] < before[j]
    ensures forall i, j :: 0 <= i < j < |before + [k]| ==> (before + [k])[i] != (before + [k])[j]
    ensures forall j :: j in before + [k] <==> j in s'.examQuestions.rows && s'.examQuestions.rows[j].examId == examId
  {
    var listing := before + [k];
    forall i, j | 0 <= i < j < |listing| ensures listing[i] != listing[j] {
      if j == |before| {
        assert listing[i] == before[i];
        assert before[i] in before;
      }
    }
  }

  /** Adding an assignment changes no other assignment's score. */
  lemma {:induction false} ScoreSumFrame(s: Store, s': Store, eqs: seq<Id>)
    requires ExamQuestionsLinked(s) && ExamQuestionsLinked(s')
    requires AllAssignments(s, eqs)
    requires s'.questions == s.questions
    requires forall k :: k in s.examQuestions.rows ==>
      k in s'.examQuestions.rows && s'.examQuestions.rows[k] == s.examQuestions.rows[k]
    ensures AllAssignments(s', eqs)
    ensures ScoreSum(s', eqs) == ScoreSum(s, eqs)
  {
    if |eqs| > 0 {
      ScoreSumFrame(s, s', eqs[1..]);
    }
  }
}
