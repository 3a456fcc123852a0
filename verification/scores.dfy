/** Sums of exam-question scores. An assignment's effective score is its
    own score, else its question's default score, else zero; an exam's
    total is the sum of the effective scores of its assignments. */
module Scores {
  import opened Common
  import opened Tables
  import opened Entities

  /** Every id of `eqs` names a stored assignment. */
  predicate AllAssignments(s: Store, eqs: seq<Id>) {
    forall i :: 0 <= i < |eqs| ==> eqs[i] in s.examQuestions.rows
  }

  /** The score an assignment contributes to its exam's total. */
  function EffectiveScore(s: Store, k: Id): (r: real)
    requires k in s.examQuestions.rows && ExamQuestionsLinked(s)
    ensures s.examQuestions.rows[k].score.Some? ==> r == s.examQuestions.rows[k].score.value
    ensures s.examQuestions.rows[k].score.None? ==>
      r == (var d := s.questions.rows[s.examQuestions.rows[k].questionId].defaultScore;
            if d.Some? then d.value else 0.0)
  {
    var eq := s.examQuestions.rows[k];
    if eq.score.Some? then eq.score.value
    else
      var d := s.questions.rows[eq.questionId].defaultScore;
      if d.Some? then d.value else 0.0
  }

  /** The sum of the effective scores of the assignments `eqs`, in order. */
  function ScoreSum(s: Store, eqs: seq<Id>): real
    requires AllAssignments(s, eqs) && ExamQuestionsLinked(s)
  {
    if |eqs| == 0 then 0.0 else EffectiveScore(s, eqs[0]) + ScoreSum(s, eqs[1..])
  }

  lemma {:induction false} ScoreSumAppend(s: Store, a: seq<Id>, b: seq<Id>)
    requires AllAssignments(s, a) && AllAssignments(s, b) && ExamQuestionsLinked(s)
    ensures AllAssignments(s, a + b)
    ensures ScoreSum(s, a + b) == ScoreSum(s, a) + ScoreSum(s, b)
  {
    if |a| == 0 {
      assert a + b == b;
    } else {
      assert (a + b)[1..] == a[1..] + b;
      ScoreSumAppend(s, a[1..], b);
    }
  }

  /** Taking one assignment out of a listing takes its score out of the sum. */
  lemma ScoreSumRemove(s: Store, b: seq<Id>, j: nat)
    requires AllAssignments(s, b) && ExamQuestionsLinked(s) && j < |b|
    ensures AllAssignments(s, b[..j] + b[j + 1..])
    ensures ScoreSum(s, b) == EffectiveScore(s, b[j]) + ScoreSum(s, b[..j] + b[j + 1..])
  {
    assert b == (b[..j] + [b[j]]) + b[j + 1..];
    ScoreSumAppend(s, b[..j] + [b[j]], b[j + 1..]);
    ScoreSumAppend(s, b[..j], [b[j]]);
    ScoreSumAppend(s, b[..j], b[j + 1..]);
  }

  /** The total does not depend on the order the assignments are visited in. */
  lemma {:induction false} ScoreSumPermutation(s: Store, a: seq<Id>, b: seq<Id>)
    requires AllAssignments(s, a) && AllAssignments(s, b) && ExamQuestionsLinked(s)
    requires multiset(a) == multiset(b)
    ensures ScoreSum(s, a) == ScoreSum(s, b)
    decreases |a|
  {
    if |a| == 0 {
      assert |b| == |multiset(b)| == 0;
    } else {
      var x := a[0];
      assert x in multiset(b);
      var j :| 0 <= j < |b| && b[j] == x;
      var rest := b[..j] + b[j + 1..];
      MultisetRemove(a, b, j);
      ScoreSumPermutation(s, a[1..], rest);
      ScoreSumRemove(s, b, j);
    }
  }

  /** Removing the same element from two permutations of each other leaves
      permutations of each other. */
  lemma MultisetRemove(a: seq<Id>, b: seq<Id>, j: nat)
    requires multiset(a) == multiset(b) && |a| > 0 && j < |b| && b[j] == a[0]
    ensures multiset(a[1..]) == multiset(b[..j] + b[j + 1..])
  {
    assert a == [a[0]] + a[1..];
    assert multiset(a) == multiset{a[0]} + multiset(a[1..]);
    assert b == b[..j] + [b[j]] + b[j + 1..];
    assert multiset(b) == multiset(b[..j]) + multiset{b[j]} + multiset(b[j + 1..]);
    var rest := b[..j] + b[j + 1..];
    assert multiset(rest) == multiset(b[..j]) + multiset(b[j + 1..]);
    forall z
      ensures multiset(a[1..])[z] == multiset(rest)[z]
    {
      assert multiset(a)[z] == multiset{a[0]}[z] + multiset(a[1..])[z];
      assert multiset(b)[z] == multiset{b[j]}[z] + multiset(rest)[z];
    }
  }

  /** A sequence without repetitions holds each of its elements once. */
  lemma {:induction false} DistinctMultiset(a: seq<Id>, x: Id)
    requires forall i, j :: 0 <= i < j < |a| ==> a[i] != a[j]
    ensures multiset(a)[x] == if x in a then 1 else 0
  {
    if |a| > 0 {
      assert a == [a[0]] + a[1..];
      DistinctMultiset(a[1..], x);
      assert multiset(a) == multiset{a[0]} + multiset(a[1..]);
      if x == a[0] {
        assert x !in a[1..] by {
          forall i | 0 <= i < |a[1..]| ensures a[1..][i] != x {
            assert a[1..][i] == a[i + 1];
          }
        }
      }
    }
  }

  /** Two listings of the same assignments, each without repetitions, sum
      to the same total. */
  lemma ScoreSumOfSameSet(s: Store, a: seq<Id>, b: seq<Id>)
    requires AllAssignments(s, a) && AllAssignments(s, b) && ExamQuestionsLinked(s)
    requires forall i, j :: 0 <= i < j < |a| ==> a[i] != a[j]
    requires forall i, j :: 0 <= i < j < |b| ==> b[i] != b[j]
    requires forall x :: x in a <==> x in b
    ensures ScoreSum(s, a) == ScoreSum(s, b)
  {
    forall x
      ensures multiset(a)[x] == multiset(b)[x]
    {
      DistinctMultiset(a, x);
      DistinctMultiset(b, x);
    }
    assert multiset(a) == multiset(b);
    ScoreSumPermutation(s, a, b);
  }

  lemma {:induction false} ScoreSumNonNegative(s: Store, eqs: seq<Id>)
    requires AllAssignments(s, eqs) && ExamQuestionsLinked(s)
    requires forall i :: 0 <= i < |eqs| ==> EffectiveScore(s, eqs[i]) >= 0.0
    ensures ScoreSum(s, eqs) >= 0.0
  {
    if |eqs| > 0 {
      ScoreSumNonNegative(s, eqs[1..]);
    }
  }

  /** The assignments of exam `examId`, in id order. */
  function AssignmentsOf(s: Store, examId: Id): (r: seq<Id>)
    ensures AllAssignments(s, r)
    ensures forall k :: k in r <==> k in s.examQuestions.rows && s.examQuestions.rows[k].examId == examId
    ensures forall i, j :: 0 <= i < j < |r| ==> r[i] < r[j]
  {
    Select(s.examQuestions, (eq: ExamQuestion) => eq.examId == examId)
  }

  /** `calculateTotalScore(exam)`: the sum over the exam's assignments. */
  function TotalScore(s: Store, examId: Id): real
    requires ExamQuestionsLinked(s)
  {
    ScoreSum(s, AssignmentsOf(s, examId))
  }

  /** Visiting the exam's assignments in any order gives the same total. */
  lemma TotalScoreAnyOrder(s: Store, examId: Id, eqs: seq<Id>)
    requires ExamQuestionsLinked(s)
    requires forall i, j :: 0 <= i < j < |eqs| ==> eqs[i] != eqs[j]
    requires forall k :: k in eqs <==> k in s.examQuestions.rows && s.examQuestions.rows[k].examId == examId
    ensures AllAssignments(s, eqs)
    ensures ScoreSum(s, eqs) == TotalScore(s, examId)
  {
    var canonical := AssignmentsOf(s, examId);
    assert forall i, j :: 0 <= i < j < |canonical| ==> canonical[i] != canonical[j];
    ScoreSumOfSameSet(s, eqs, canonical);
  }

  /** An exam without assignments totals zero. */
  lemma TotalScoreEmpty(s: Store, examId: Id)
    requires ExamQuestionsLinked(s)
    requires forall k :: k in s.examQuestions.rows ==> s.examQuestions.rows[k].examId != examId
    ensures TotalScore(s, examId) == 0.0
  {
  }

  /** If every assignment of the exam contributes a non-negative score,
      the total is non-negative. */
  lemma TotalScoreNonNegative(s: Store, examId: Id)
    requires ExamQuestionsLinked(s)
    requires forall k :: k in s.examQuestions.rows && s.examQuestions.rows[k].examId == examId ==>
      EffectiveScore(s, k) >= 0.0
    ensures TotalScore(s, examId) >= 0.0
  {
    var eqs := AssignmentsOf(s, examId);
    assert forall i :: 0 <= i < |eqs| ==> eqs[i] in eqs;
    ScoreSumNonNegative(s, eqs);
  }
}
