/**
 * Quiz data shared by the session (App.js) and the view (QuizDisplay.js): questions,
 * the answer map and the count of correctly answered questions.
 */
module Quiz {
  import opened Wrappers

  /** One generated question. `answer` and `explanation` are None when the JSON field is absent;
      `options` is the raw list (an absent list is the empty one, a null entry the empty string). */
  datatype Question = Question(
    text: string,
    options: seq<string>,
    answer: Option<string>,
    explanation: Option<string>)

  /** The answer map: question index to the raw text of the chosen option. */
  type Answers = map<nat, string>

  /** `answers[i]`: the chosen option, or None (JavaScript `undefined`) for an unanswered question. */
  function Lookup(answers: Answers, i: nat): Option<string> {
    if i in answers then Some(answers[i]) else None
  }

  /** `{ ...prev, [qIndex]: option }`. */
  function SelectedAnswers(answers: Answers, i: nat, option: string): (r: Answers)
    ensures i in r && r[i] == option
    ensures r.Keys == answers.Keys + {i}
    ensures forall j :: j in answers && j != i ==> j in r && r[j] == answers[j]
  {
    answers[i := option]
  }

  /** Selecting the same option twice gives the same map as selecting it once. */
  lemma SelectIdempotent(answers: Answers, i: nat, option: string)
    ensures SelectedAnswers(SelectedAnswers(answers, i, option), i, option) == SelectedAnswers(answers, i, option)
  {
  }

  /** Later selections for a question overwrite earlier ones. */
  lemma SelectOverwrites(answers: Answers, i: nat, first: string, second: string)
    ensures SelectedAnswers(SelectedAnswers(answers, i, first), i, second) == SelectedAnswers(answers, i, second)
  {
  }

  /** The question was answered, and with its answer: `answers[i] === q.answer` for a question that
      names its answer, and false for an unanswered question. */
  predicate AnsweredCorrectly(quiz: seq<Question>, answers: Answers, i: nat)
    requires i < |quiz|
  {
    i in answers && quiz[i].answer == Some(answers[i])
  }

  /** The number of questions below `n` answered correctly. */
  function CountCorrect(quiz: seq<Question>, answers: Answers, n: nat): (c: nat)
    requires n <= |quiz|
    ensures c <= n
    ensures c == n <==> forall i :: 0 <= i < n ==> AnsweredCorrectly(quiz, answers, i)
    ensures c == 0 <==> forall i :: 0 <= i < n ==> !AnsweredCorrectly(quiz, answers, i)
  {
    if n == 0 then 0
    else CountCorrect(quiz, answers, n - 1) + (if AnsweredCorrectly(quiz, answers, n - 1) then 1 else 0)
  }

  /** The quiz score: how many questions were answered correctly. */
  function Score(quiz: seq<Question>, answers: Answers): (c: nat)
    ensures c <= |quiz|
  {
    CountCorrect(quiz, answers, |quiz|)
  }

  /** The indices of correctly answered questions, as a set: an independent statement of the score. */
  ghost function CorrectIndices(quiz: seq<Question>, answers: Answers, n: nat): set<nat>
    requires n <= |quiz|
  {
    set i: nat | i < n && AnsweredCorrectly(quiz, answers, i)
  }

  /** The counted score is the size of the set of correctly answered indices. */
  lemma {:induction false} CountIsCardinality(quiz: seq<Question>, answers: Answers, n: nat)
    requires n <= |quiz|
    ensures CountCorrect(quiz, answers, n) == |CorrectIndices(quiz, answers, n)|
  {
    if n > 0 {
      CountIsCardinality(quiz, answers, n - 1);
      var below := CorrectIndices(quiz, answers, n - 1);
      if AnsweredCorrectly(quiz, answers, n - 1) {
        assert CorrectIndices(quiz, answers, n) == below + {n - 1};
      } else {
        assert CorrectIndices(quiz, answers, n) == below;
      }
    }
  }

  /** Every key of the answer map is the index of a question. */
  predicate KeysWithin(answers: Answers, total: nat) {
    forall i :: i in answers ==> i < total
  }

  /** Every question names its answer (the JSON field `answer` is present). */
  predicate AnswersDefined(quiz: seq<Question>) {
    forall i :: 0 <= i < |quiz| ==> quiz[i].answer.Some?
  }

  /** The naturals below n. */
  function Range(n: nat): (r: set<nat>)
    ensures forall i :: i in r <==> 0 <= i < n
    ensures |r| == n
  {
    if n == 0 then {} else Range(n - 1) + {n - 1}
  }

  /** An answer map whose keys are question indices has at most one entry per question. */
  lemma AttemptedAtMostTotal(answers: Answers, total: nat)
    requires KeysWithin(answers, total)
    ensures |answers| <= total
  {
    SubsetSize(answers.Keys, Range(total));
  }

  lemma {:induction false} SubsetSize(a: set<nat>, b: set<nat>)
    requires a <= b
    ensures |a| <= |b|
    decreases |b|
  {
    if b != {} {
      var x :| x in b;
      SubsetSize(a - {x}, b - {x});
    }
  }

  /** Only attempted questions score, so the score never exceeds the number of answers given. */
  lemma CorrectAtMostAttempted(quiz: seq<Question>, answers: Answers)
    ensures Score(quiz, answers) <= |answers|
  {
    CountIsCardinality(quiz, answers, |quiz|);
    var correct := CorrectIndices(quiz, answers, |quiz|);
    assert correct <= answers.Keys;
    SubsetSize(correct, answers.Keys);
  }

  // ---------------------------------------------------------------------------------------------
  // The count as written

  /** `answers[i] === q.answer` with JavaScript's strict equality, `undefined === undefined` included. */
  predicate Matches(quiz: seq<Question>, answers: Answers, i: nat)
    requires i < |quiz|
  {
    Lookup(answers, i) == quiz[i].answer
  }

  /** The number of indices below `n` at which the stored answer strictly equals the question's
      answer, as `App.handleSubmit` and the summary count them. */
  function CountMatches(quiz: seq<Question>, answers: Answers, n: nat): (c: nat)
    requires n <= |quiz|
    ensures c <= n
  {
    if n == 0 then 0
    else CountMatches(quiz, answers, n - 1) + (if Matches(quiz, answers, n - 1) then 1 else 0)
  }

  /** The count as written is the size of the set of indices whose stored answer strictly equals
      the question's answer, `undefined` included. */
  lemma {:induction false} CountMatchesIsCardinality(quiz: seq<Question>, answers: Answers, n: nat)
    requires n <= |quiz|
    ensures CountMatches(quiz, answers, n) == |set i: nat | i < n && Matches(quiz, answers, i)|
  {
    if n > 0 {
      CountMatchesIsCardinality(quiz, answers, n - 1);
      var below := set i: nat | i < n - 1 && Matches(quiz, answers, i);
      if Matches(quiz, answers, n - 1) {
        assert (set i: nat | i < n && Matches(quiz, answers, i)) == below + {n - 1};
      } else {
        assert (set i: nat | i < n && Matches(quiz, answers, i)) == below;
      }
    }
  }

  /** The score as written. */
  function ScoreAsWritten(quiz: seq<Question>, answers: Answers): (c: nat)
    ensures c <= |quiz|
  {
    CountMatches(quiz, answers, |quiz|)
  }

  /** A question without an `answer` field, left unanswered, is counted as correct as written
      (`undefined === undefined`), and not by the corrected count. */
  lemma UnansweredQuestionWithoutAnswerScores(q: Question)
    requires q.answer == None
    ensures ScoreAsWritten([q], map[]) == 1
    ensures Score([q], map[]) == 0
  {
    assert Matches([q], map[], 0);
    assert !AnsweredCorrectly([q], map[], 0);
  }

  /** On questions that all name their answer, the corrected count and the count as written agree. */
  lemma {:induction false} CountsAgreeWhenAnswersDefined(quiz: seq<Question>, answers: Answers, n: nat)
    requires n <= |quiz| && AnswersDefined(quiz)
    ensures CountCorrect(quiz, answers, n) == CountMatches(quiz, answers, n)
  {
    if n > 0 {
      CountsAgreeWhenAnswersDefined(quiz, answers, n - 1);
      assert AnsweredCorrectly(quiz, answers, n - 1) <==> Matches(quiz, answers, n - 1);
    }
  }
}
