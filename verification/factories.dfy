/** Builds the essay or test variant of a question from a type string. */
module QuestionFactory {
  import opened Common
  import opened Text
  import opened Entities

  /** `createQuestion(type, question, options)`: the type is upper-cased
      and must be `TEST` or `ESSAY`. */
  function CreateQuestion(kind: string, q: Question, options: Option<seq<QuestionOption>>): (r: Result<Question>)
    ensures ToUpper(kind) == "TEST" ==> r.Ok? && r.value.kind == TestQuestion(options)
    ensures ToUpper(kind) == "ESSAY" ==> r.Ok? && r.value.kind == EssayQuestion
    ensures ToUpper(kind) != "TEST" && ToUpper(kind) != "ESSAY" ==> r == Err(InvalidArgument)
    ensures r.Ok? ==>
      && r.value.title == q.title
      && r.value.text == q.text
      && r.value.defaultScore == q.defaultScore
      && r.value.courseId == q.courseId
  {
    var upper := ToUpper(kind);
    if upper == "TEST" then
      Ok(Question(TestQuestion(options), q.title, q.text, q.defaultScore, q.courseId))
    else if upper == "ESSAY" then
      Ok(Question(EssayQuestion, q.title, q.text, q.defaultScore, q.courseId))
    else
      Err(InvalidArgument)
  }

  /** Matching is case-insensitive: only the upper-cased type matters. */
  lemma CreateQuestionIgnoresCase(kind: string, q: Question, options: Option<seq<QuestionOption>>)
    ensures CreateQuestion(kind, q, options) == CreateQuestion(ToUpper(kind), q, options)
  {
    ToUpperIdempotent(kind);
  }

  /** `test`, `Test` and `TEST` all build a test question keeping the option
      list as given; `essay` builds an essay question; `descriptive` is
      rejected. */
  lemma CreateQuestionExamples(q: Question, options: Option<seq<QuestionOption>>)
    ensures CreateQuestion("test", q, options).Ok?
    ensures CreateQuestion("test", q, options).value.kind == TestQuestion(options)
    ensures CreateQuestion("Test", q, options) == CreateQuestion("TEST", q, options)
    ensures CreateQuestion("test", q, options) == CreateQuestion("TEST", q, options)
    ensures CreateQuestion("essay", q, options).Ok? && CreateQuestion("essay", q, options).value.kind == EssayQuestion
    ensures CreateQuestion("descriptive", q, options) == Err(InvalidArgument)
  {
    UpperTest();
    UpperEssay();
    UpperDescriptive();
  }
}

/** Builds the essay or test variant of an answer from a type string. */
module AnswerFactory {
  import opened Common
  import opened Text
  import opened Entities

  /** `createAnswer(type, answer, option, answerText)`: an essay answer
      keeps the text and has no score yet; a test answer keeps the selected
      option and the score carried by `draft`. Both keep the draft's links. */
  function CreateAnswer(kind: string, draft: AnswerDraft, option: QuestionOption, answerText: Option<string>): (r: Result<Answer>)
    ensures ToUpper(kind) == "ESSAY" ==> r == Ok(Answer(EssayAnswer(answerText), None, draft.examQuestionId, draft.instanceId))
    ensures ToUpper(kind) == "TEST" ==> r == Ok(Answer(TestAnswer(option), draft.score, draft.examQuestionId, draft.instanceId))
    ensures ToUpper(kind) != "ESSAY" && ToUpper(kind) != "TEST" ==> r == Err(InvalidArgument)
    ensures r.Ok? ==> r.value.examQuestionId == draft.examQuestionId && r.value.instanceId == draft.instanceId
  {
    var upper := ToUpper(kind);
    if upper == "ESSAY" then
      Ok(Answer(EssayAnswer(answerText), None, draft.examQuestionId, draft.instanceId))
    else if upper == "TEST" then
      Ok(Answer(TestAnswer(option), draft.score, draft.examQuestionId, draft.instanceId))
    else
      Err(InvalidArgument)
  }

  /** Matching is case-insensitive, and `descriptive` (the word the
      request validator uses for essays) is rejected. */
  lemma CreateAnswerCases(kind: string, draft: AnswerDraft, option: QuestionOption, answerText: Option<string>)
    ensures CreateAnswer(kind, draft, option, answerText) == CreateAnswer(ToUpper(kind), draft, option, answerText)
    ensures CreateAnswer("essay", draft, option, answerText) == CreateAnswer("ESSAY", draft, option, answerText)
    ensures CreateAnswer("test", draft, option, answerText) == CreateAnswer("TEST", draft, option, answerText)
    ensures CreateAnswer("descriptive", draft, option, answerText) == Err(InvalidArgument)
  {
    ToUpperIdempotent(kind);
    UpperTest();
    UpperEssay();
    UpperDescriptive();
  }
}
