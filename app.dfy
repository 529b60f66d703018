/**
 * The top-level quiz session (frontend/src/App.js): the quiz state, the generation step over an
 * abstract server response, answer selection and submission.
 */
module App {
  import opened Wrappers
  import opened Text
  import opened Quiz

  /** What `fetch` and `response.json()` deliver to the generation step: a parsed JSON body with
      optional `error` and `quiz` fields, or a thrown exception (network or parse failure). */
  datatype Response =
    | Reply(error: Option<string>, quiz: Option<seq<Question>>)
    | TransportFailure(message: string)

  /** The message `generateQuiz` shows the user (`alert`), or none. */
  datatype Alert =
    | QuotaAlert(error: string)          // the error plus "select a different model"
    | GenerationFailed(error: string)    // "Failed to generate quiz: " plus the error
    | EmptyResult                        // "Quiz generation returned empty results ..."
    | ConnectionFailed(message: string)  // the exception message plus "check your connection"
    | NoAlert

  datatype ErrorKind = QuotaError | GenericError

  /** The quota message is chosen iff the error text contains "API limit" or "exceeds". */
  function ClassifyError(error: string): (k: ErrorKind)
    ensures k == QuotaError <==>
      (exists i :: OccursAt(error, "API limit", i)) || (exists i :: OccursAt(error, "exceeds", i))
  {
    if Includes(error, "API limit") || Includes(error, "exceeds") then QuotaError else GenericError
  }

  /** `if (data.error)`: the reply carries a non-empty error string (an empty one is falsy). */
  predicate IsErrorReply(response: Response) {
    response.Reply? && response.error.Some? && response.error.value != ""
  }

  /** The error the backend sends for any empty quiz or quota failure (backend/app/main.py). */
  function BackendLimitError(model: string): string {
    "API limit for model '" + model + "' exceeds. Please try a different model or wait and try again later."
  }

  /** Every backend limit error is shown with the quota message, whatever the model name. */
  lemma BackendLimitErrorIsQuota(model: string)
    ensures ClassifyError(BackendLimitError(model)) == QuotaError
  {
    assert OccursAt(BackendLimitError(model), "API limit", 0);
  }

  /** The state of the `App` component. */
  class QuizSession {
    var quiz: seq<Question>
    var answers: Answers
    var submitted: bool
    var score: nat
    var loading: bool

    /** The answer map only names questions of the current quiz. */
    predicate AnswersWithinQuiz()
      reads this
    {
      KeysWithin(answers, |quiz|)
    }

    /** The initial `useState` values. */
    constructor ()
      ensures quiz == [] && answers == map[] && !submitted && score == 0 && !loading
      ensures AnswersWithinQuiz()
    {
      quiz := [];
      answers := map[];
      submitted := false;
      score := 0;
      loading := false;
    }

    /** The first half of `generateQuiz`, before any response is seen. */
    method BeginGeneration()
      modifies this
      ensures loading && quiz == [] && !submitted && score == 0 && answers == map[]
      ensures AnswersWithinQuiz()
    {
      loading := true;
      quiz := [];
      submitted := false;
      score := 0;
      answers := map[];
    }

    /** The second half of `generateQuiz`: consume the response; `loading` is cleared on every path. */
    method CompleteGeneration(response: Response) returns (alert: Alert)
      modifies this`quiz, this`loading
      ensures !loading
      ensures response.TransportFailure? ==> quiz == [] && alert == ConnectionFailed(response.message)
      ensures IsErrorReply(response) ==> quiz == []
      ensures IsErrorReply(response) ==>
        alert == (if ClassifyError(response.error.value) == QuotaError
                  then QuotaAlert(response.error.value) else GenerationFailed(response.error.value))
      ensures response.Reply? && !IsErrorReply(response) ==>
        quiz == response.quiz.GetOr([]) &&
        (alert == EmptyResult <==> response.quiz.None? || |response.quiz.value| == 0) &&
        alert in {EmptyResult, NoAlert}
    {
      match response {
        case TransportFailure(message) =>
          alert := ConnectionFailed(message);
          quiz := [];
        case Reply(error, data) =>
          if error.Some? && error.value != "" {
            if ClassifyError(error.value) == QuotaError {
              alert := QuotaAlert(error.value);
            } else {
              alert := GenerationFailed(error.value);
            }
            quiz := [];
          } else {
            quiz := data.GetOr([]);
            alert := if data.None? || |data.value| == 0 then EmptyResult else NoAlert;
          }
      }
      loading := false;
    }

    /** `generateQuiz` as one atomic transition: reset, then consume the response. */
    method Generate(response: Response) returns (alert: Alert)
      modifies this
      ensures !loading && !submitted && score == 0 && answers == map[]
      ensures AnswersWithinQuiz()
      ensures !(response.Reply? && !IsErrorReply(response)) ==> quiz == []
      ensures response.Reply? && !IsErrorReply(response) ==> quiz == response.quiz.GetOr([])
      ensures alert == EmptyResult <==>
        response.Reply? && !IsErrorReply(response) && (response.quiz.None? || |response.quiz.value| == 0)
      ensures alert.QuotaAlert? <==> IsErrorReply(response) && ClassifyError(response.error.value) == QuotaError
    {
      BeginGeneration();
      alert := CompleteGeneration(response);
    }

    /** `handleAnswerSelect(qIndex, option)`. */
    method SelectAnswer(i: nat, option: string)
      modifies this`answers
      ensures answers == SelectedAnswers(old(answers), i, option) && quiz == old(quiz)
      ensures old(AnswersWithinQuiz()) && i < |quiz| ==> AnswersWithinQuiz()
    {
      answers := answers[i := option];
    }

    /** `handleSubmit`: count the correctly answered questions, then mark submitted. An unanswered
        question never counts (see `Quiz.UnansweredQuestionWithoutAnswerScores` for the code as written). */
    method Submit()
      modifies this`score, this`submitted
      ensures submitted && quiz == old(quiz) && answers == old(answers)
      ensures score == Score(quiz, answers)
      ensures score <= |quiz| && score <= |answers|
    {
      var correct: nat := 0;
      var i := 0;
      while i < |quiz|
        invariant i <= |quiz|
        invariant correct == CountCorrect(quiz, answers, i)
      {
        if i in answers && quiz[i].answer == Some(answers[i]) {
          correct := correct + 1;
        }
        i := i + 1;
      }
      CorrectAtMostAttempted(quiz, answers);
      score := correct;
      submitted := true;
    }
  }
}
