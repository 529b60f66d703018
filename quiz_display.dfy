/**
 * The view rules of frontend/src/components/QuizDisplay.js: the summary counts, the option
 * pipeline (drop blanks, relabel A, B, C, ..., strip an embedded label), the option class before
 * and after submission, the click guard and the per-question feedback.
 */
module QuizDisplay {
  import opened Wrappers
  import opened Text
  import opened Seqs
  import opened Quiz

  // ---------------------------------------------------------------------------------------------
  // Summary

  /** The counts of the score box. `incorrect` is an `int`: the source subtracts without a floor. */
  datatype Summary = Summary(total: nat, attempted: nat, notAttempted: int, correct: nat, incorrect: int)

  /** `quiz.filter((q, i) => ...)` restricted to the first n questions, keeping the questions that
      were answered correctly. */
  function CorrectQuestions(quiz: seq<Question>, answers: Answers, n: nat): (r: seq<Question>)
    requires n <= |quiz|
    ensures forall q :: q in r ==> q in quiz[..n]
  {
    if n == 0 then []
    else
      var r := CorrectQuestions(quiz, answers, n - 1)
        + (if AnsweredCorrectly(quiz, answers, n - 1) then [quiz[n - 1]] else []);
      assert quiz[..n] == quiz[..n - 1] + [quiz[n - 1]];
      r
  }

  lemma {:induction false} FilterCountsCorrect(quiz: seq<Question>, answers: Answers, n: nat)
    requires n <= |quiz|
    ensures |CorrectQuestions(quiz, answers, n)| == CountCorrect(quiz, answers, n)
  {
    if n > 0 {
      FilterCountsCorrect(quiz, answers, n - 1);
    }
  }

  /** The summary of the score box: total, attempted and not attempted, correct and incorrect.
      Only attempted questions count as correct, so neither derived count can go negative. */
  function Summarize(quiz: seq<Question>, answers: Answers): (s: Summary)
    ensures s.total == |quiz| && s.attempted == |answers.Keys|
    ensures s.attempted + s.notAttempted == s.total
    ensures s.correct + s.incorrect == s.attempted
    ensures s.correct <= s.attempted && 0 <= s.incorrect
  {
    var total := |quiz|;
    var attempted := |answers|;
    FilterCountsCorrect(quiz, answers, |quiz|);
    CorrectAtMostAttempted(quiz, answers);
    var correct := |CorrectQuestions(quiz, answers, |quiz|)|;
    Summary(total, attempted, total - attempted, correct, attempted - correct)
  }

  /** The summary's correct count and the score `App.handleSubmit` computes agree. */
  lemma SummaryCorrectIsScore(quiz: seq<Question>, answers: Answers)
    ensures Summarize(quiz, answers).correct == Score(quiz, answers)
  {
    FilterCountsCorrect(quiz, answers, |quiz|);
  }

  /** With answer keys that are question indices, the counts are bounded by the quiz size. */
  lemma SummaryBounds(quiz: seq<Question>, answers: Answers)
    requires KeysWithin(answers, |quiz|)
    ensures var s := Summarize(quiz, answers);
      s.attempted <= s.total && 0 <= s.notAttempted && s.correct <= s.total
  {
    AttemptedAtMostTotal(answers, |quiz|);
  }

  /** The summary as written: the correct count is the strict-equality count, which also counts an
      unanswered question that has no `answer` field. */
  function SummarizeAsWritten(quiz: seq<Question>, answers: Answers): (s: Summary)
    ensures s.total == |quiz| && s.attempted == |answers.Keys|
    ensures s.attempted + s.notAttempted == s.total
    ensures s.correct + s.incorrect == s.attempted
    ensures s.correct <= s.total
  {
    var total := |quiz|;
    var attempted := |answers|;
    var correct := CountMatches(quiz, answers, |quiz|);
    Summary(total, attempted, total - attempted, correct, attempted - correct)
  }

  /** As written, a question without an `answer` field that was not attempted is counted correct,
      and the summary then shows -1 incorrect answers. */
  lemma IncorrectCanBeNegative()
    ensures SummarizeAsWritten([Question("q", ["a", "b"], None, None)], map[]).incorrect == -1
    ensures Summarize([Question("q", ["a", "b"], None, None)], map[]).incorrect == 0
  {
    var quiz := [Question("q", ["a", "b"], None, None)];
    UnansweredQuestionWithoutAnswerScores(quiz[0]);
    SummaryCorrectIsScore(quiz, map[]);
  }

  /** When every question names its answer, the summary and the summary as written agree. */
  lemma SummaryAgreesWhenAnswersDefined(quiz: seq<Question>, answers: Answers)
    requires AnswersDefined(quiz)
    ensures Summarize(quiz, answers) == SummarizeAsWritten(quiz, answers)
  {
    SummaryCorrectIsScore(quiz, answers);
    CountsAgreeWhenAnswersDefined(quiz, answers, |quiz|);
  }

  // ---------------------------------------------------------------------------------------------
  // Option pipeline

  /** `opt && opt.trim() !== ""`: the option is displayed. */
  predicate Shown(opt: string) {
    !IsBlank(opt)
  }

  /** The displayed options: blank entries removed, order kept. */
  function VisibleOptions(raw: seq<string>): (r: seq<string>)
    ensures |r| <= |raw|
    ensures forall o :: o in r <==> o in raw && !IsBlank(o)
  {
    Filter(Shown, raw)
  }

  /** The displayed options are a subsequence of the raw ones, and dropping blanks commutes with
      concatenation, so no displayed option moves relative to another. */
  lemma VisibleOptionsKeepOrder(raw: seq<string>, more: seq<string>)
    ensures IsSubsequence(VisibleOptions(raw), raw)
    ensures VisibleOptions(raw + more) == VisibleOptions(raw) + VisibleOptions(more)
  {
    FilterIsSubsequence(Shown, raw);
    FilterAppend(Shown, raw, more);
  }

  /** A list without blank entries is displayed as it is. */
  lemma VisibleOptionsWithoutBlanks(raw: seq<string>)
    requires forall o :: o in raw ==> !IsBlank(o)
    ensures VisibleOptions(raw) == raw
  {
    FilterKeepsAll(Shown, raw);
  }

  /** `String.fromCharCode(65 + j)` is a Unicode scalar value only below the surrogate range. */
  const MaxLabels: nat := 0xD800 - 65

  /** The label of the j-th displayed option: "A", "B", "C", ... */
  function Label(j: nat): (c: char)
    requires j < MaxLabels
    ensures c as int == 65 + j
    ensures j < 26 ==> 'A' <= c <= 'Z'
  {
    (65 + j) as char
  }

  predicate IsAsciiLetter(c: char) {
    'A' <= c <= 'Z' || 'a' <= c <= 'z'
  }

  /** The option starts with an embedded label matched by `^[A-Za-z][\.\)]`. */
  predicate HasLabelPrefix(opt: string) {
    |opt| >= 2 && IsAsciiLetter(opt[0]) && (opt[1] == '.' || opt[1] == ')')
  }

  /** `opt.replace(/^[A-Za-z][\.\)]\s*\/, "")`: one leading label and the whitespace after it removed. */
  function StripLabelPrefix(opt: string): (r: string)
    ensures HasLabelPrefix(opt) ==> |r| <= |opt| - 2 && r == opt[2..][|opt| - 2 - |r|..]
    ensures HasLabelPrefix(opt) ==> AllWhitespace(opt[2..][..|opt| - 2 - |r|])
    ensures HasLabelPrefix(opt) ==> r == [] || !IsWhitespace(r[0])
    ensures !HasLabelPrefix(opt) ==> r == opt
  {
    if HasLabelPrefix(opt) then
      TrimStartSpec(opt[2..]);
      TrimStart(opt[2..])
    else opt
  }

  /** The option text with an embedded label and surrounding whitespace removed. */
  function CleanOption(opt: string): (r: string)
    ensures |r| <= |opt|
    ensures r == [] || (!IsWhitespace(r[0]) && !IsWhitespace(r[|r| - 1]))
  {
    var stripped := StripLabelPrefix(opt);
    assert |stripped| <= |opt|;
    Trim(stripped)
  }

  lemma TrimAfterTrimStart(s: string)
    ensures Trim(TrimStart(s)) == Trim(s)
  {
    var t := TrimStart(s);
    TrimStartOfTrimmed(t);
  }

  /** The cleaned text is the trimmed text after the embedded label, if any. */
  lemma CleanOptionIs(opt: string)
    ensures CleanOption(opt) == if HasLabelPrefix(opt) then Trim(opt[2..]) else Trim(opt)
  {
    if HasLabelPrefix(opt) {
      TrimAfterTrimStart(opt[2..]);
    }
  }

  /** Whatever label and punctuation the generator embedded, the cleaned text is the same:
      "B) Paris" and "a. Paris" both clean to "Paris". */
  lemma CleanIgnoresEmbeddedLabel(x: char, p: char, y: char, q: char, rest: string)
    requires IsAsciiLetter(x) && IsAsciiLetter(y)
    requires p in {'.', ')'} && q in {'.', ')'}
    ensures CleanOption([x, p] + rest) == CleanOption([y, q] + rest)
  {
    CleanOptionIs([x, p] + rest);
    CleanOptionIs([y, q] + rest);
    assert ([x, p] + rest)[2..] == rest == ([y, q] + rest)[2..];
  }

  /** `${label}) ${cleanOpt || opt}`. */
  function DisplayText(j: nat, opt: string): (t: string)
    requires j < MaxLabels
    ensures |t| >= 3 && t[0] == Label(j) && t[1] == ')' && t[2] == ' '
    ensures CleanOption(opt) != [] ==> t[3..] == CleanOption(opt)
    ensures CleanOption(opt) == [] ==> t[3..] == opt
  {
    var clean := CleanOption(opt);
    [Label(j), ')', ' '] + (if clean == [] then opt else clean)
  }

  /** The texts of a question's displayed options, in display order. */
  function RenderOptions(raw: seq<string>): (r: seq<string>)
    requires |VisibleOptions(raw)| <= MaxLabels
    ensures |r| == |VisibleOptions(raw)|
    ensures forall j :: 0 <= j < |r| ==> r[j] == DisplayText(j, VisibleOptions(raw)[j])
  {
    var shown := VisibleOptions(raw);
    seq(|shown|, j requires 0 <= j < |shown| => DisplayText(j, shown[j]))
  }

  /** Labels run A, B, C, ... over the displayed options with no gap for removed blanks, and the
      text after each label is never blank. */
  lemma RenderedLabelsConsecutive(raw: seq<string>, j: nat)
    requires |VisibleOptions(raw)| <= MaxLabels && j < |VisibleOptions(raw)|
    ensures RenderOptions(raw)[j][0] as int == 65 + j
    ensures RenderOptions(raw)[j][1] == ')' && RenderOptions(raw)[j][2] == ' '
    ensures !IsBlank(RenderOptions(raw)[j][3..])
  {
    var opt := VisibleOptions(raw)[j];
    assert opt in VisibleOptions(raw);
    var clean := CleanOption(opt);
    var body := if clean == [] then opt else clean;
    assert RenderOptions(raw)[j][3..] == body;
    if clean != [] {
      assert !AllWhitespace(clean) by {
        assert !IsWhitespace(clean[0]);
      }
    }
  }

  /** A trimmed text without surrounding whitespace. */
  predicate IsTrimmedText(text: string) {
    text != [] && !IsWhitespace(text[0]) && !IsWhitespace(text[|text| - 1])
  }

  /** Relabelling is stable: ["B) Paris", "", "A) London"] is displayed as ["A) Paris", "B) London"],
      and likewise for any two labelled options around a blank one. */
  lemma RelabelSkipsBlank(first: string, blank: string, second: string,
                          x: char, p: char, text1: string, y: char, q: char, text2: string)
    requires IsAsciiLetter(x) && p in {'.', ')'} && IsTrimmedText(text1) && first == [x, p, ' '] + text1
    requires IsAsciiLetter(y) && q in {'.', ')'} && IsTrimmedText(text2) && second == [y, q, ' '] + text2
    requires IsBlank(blank)
    ensures RenderOptions([first, blank, second]) == ["A) " + text1, "B) " + text2]
  {
    var raw := [first, blank, second];
    assert !IsWhitespace(first[0]) && !IsWhitespace(second[0]);
    VisibleAroundBlank(first, blank, second);
    RenderTwo(raw, first, second);
    LabelledDisplay(0, first, x, p, text1);
    LabelledDisplay(1, second, y, q, text2);
    assert Label(0) == 'A' && Label(1) == 'B';
  }

  lemma RenderTwo(raw: seq<string>, a: string, b: string)
    requires VisibleOptions(raw) == [a, b]
    ensures RenderOptions(raw) == [DisplayText(0, a), DisplayText(1, b)]
  {
    var r := RenderOptions(raw);
    PairDisplay(r);
  }

  lemma VisibleAroundBlank(first: string, blank: string, second: string)
    requires Shown(first) && Shown(second) && IsBlank(blank)
    ensures VisibleOptions([first, blank, second]) == [first, second]
  {
    FilterDropsMiddle(Shown, first, blank, second);
  }

  lemma LabelledDisplay(j: nat, opt: string, x: char, p: char, text: string)
    requires j < 26 && IsAsciiLetter(x) && p in {'.', ')'} && IsTrimmedText(text)
    requires opt == [x, p, ' '] + text
    ensures DisplayText(j, opt) == [Label(j), ')', ' '] + text
  {
    CleanLabelled(opt, x, p, text);
    DisplayOfClean(j, opt, text);
  }

  lemma DisplayOfClean(j: nat, opt: string, text: string)
    requires j < MaxLabels && CleanOption(opt) == text && text != []
    ensures DisplayText(j, opt) == [Label(j), ')', ' '] + text
  {
  }

  /** "X) text" cleans to "text" when the text has no surrounding whitespace. */
  lemma CleanLabelled(opt: string, x: char, p: char, text: string)
    requires IsAsciiLetter(x) && p in {'.', ')'}
    requires IsTrimmedText(text) && opt == [x, p, ' '] + text
    ensures CleanOption(opt) == text
  {
    assert HasLabelPrefix(opt);
    assert opt[2..] == [' '] + text;
    LeadingSpaceTrimmed(text);
    assert StripLabelPrefix(opt) == text;
    TrimOfTrimmed(text);
  }

  /** An option that is nothing but a label ("B)" followed by spaces) cleans to nothing, so its raw
      text is shown after the new label. */
  lemma LabelOnlyShowsRaw(j: nat, x: char, p: char, spaces: string)
    requires j < MaxLabels && IsAsciiLetter(x) && p in {'.', ')'} && AllWhitespace(spaces)
    ensures DisplayText(j, [x, p] + spaces) == [Label(j), ')', ' ', x, p] + spaces
  {
    var opt := [x, p] + spaces;
    CleanOptionIs(opt);
    assert opt[2..] == spaces;
  }

  lemma LeadingSpaceTrimmed(text: string)
    requires text != [] && !IsWhitespace(text[0])
    ensures TrimStart([' '] + text) == text
  {
    assert ([' '] + text)[1..] == text;
    TrimStartOfTrimmed(text);
  }

  // ---------------------------------------------------------------------------------------------
  // Option class, click guard and feedback

  /** The CSS class of a displayed option. */
  datatype OptionClass = Plain | Selected | Correct | Incorrect | HighlightCorrect

  /** The class of option `opt` of a question whose stored answer is `selection`. */
  function ClassOf(submitted: bool, selection: Option<string>, answer: Option<string>, opt: string): (c: OptionClass)
    ensures !submitted ==> c in {Plain, Selected} && (c == Selected <==> selection == Some(opt))
    ensures submitted ==> (c == Correct <==> selection == Some(opt) && answer == Some(opt))
    ensures submitted ==> (c == Incorrect <==> selection == Some(opt) && answer != Some(opt))
    ensures submitted ==> (c == HighlightCorrect <==> selection != Some(opt) && answer == Some(opt))
    ensures submitted ==> (c == Plain <==> selection != Some(opt) && answer != Some(opt))
  {
    var isSelected := selection == Some(opt);
    if submitted then
      if answer == Some(opt) && isSelected then Correct
      else if isSelected && answer != Some(opt) then Incorrect
      else if answer == Some(opt) then HighlightCorrect
      else Plain
    else if isSelected then Selected
    else Plain
  }

  /** The classes of the displayed options of question i, in display order. */
  function QuestionClasses(quiz: seq<Question>, answers: Answers, i: nat, submitted: bool): (r: seq<OptionClass>)
    requires i < |quiz|
    ensures |r| == |VisibleOptions(quiz[i].options)|
    ensures forall j :: 0 <= j < |r| ==>
      r[j] == ClassOf(submitted, Lookup(answers, i), quiz[i].answer, VisibleOptions(quiz[i].options)[j])
  {
    var shown := VisibleOptions(quiz[i].options);
    seq(|shown|, j requires 0 <= j < |shown| =>
      ClassOf(submitted, Lookup(answers, i), quiz[i].answer, shown[j]))
  }

  /** After submission, when the chosen option is on display, it is marked "correct" exactly when the
      feedback colours the selection green, and "incorrect" exactly when it does not. */
  lemma MarksAgreeWithFeedback(quiz: seq<Question>, answers: Answers, i: nat)
    requires i < |quiz| && i in answers && answers[i] in VisibleOptions(quiz[i].options)
    ensures Correct in QuestionClasses(quiz, answers, i, true) <==> AnsweredCorrectly(quiz, answers, i)
    ensures Incorrect in QuestionClasses(quiz, answers, i, true) <==> !AnsweredCorrectly(quiz, answers, i)
  {
    var shown := VisibleOptions(quiz[i].options);
    var classes := QuestionClasses(quiz, answers, i, true);
    var j :| 0 <= j < |shown| && shown[j] == answers[i];
    assert classes[j] == ClassOf(true, Lookup(answers, i), quiz[i].answer, shown[j]);
    if Correct in classes {
      var k :| 0 <= k < |classes| && classes[k] == Correct;
      assert classes[k] == ClassOf(true, Lookup(answers, i), quiz[i].answer, shown[k]);
    }
    if Incorrect in classes {
      var k :| 0 <= k < |classes| && classes[k] == Incorrect;
      assert classes[k] == ClassOf(true, Lookup(answers, i), quiz[i].answer, shown[k]);
    }
  }

  /** A call of `onSelect(question, option)`. */
  datatype Selection = Selection(question: nat, option: string)

  /** `onClick={() => !submitted && onSelect(i, opt)}` on the j-th displayed option of question i:
      the raw option text, not the displayed one, is passed on. */
  function Click(submitted: bool, quiz: seq<Question>, i: nat, j: nat): (call: Option<Selection>)
    requires i < |quiz| && j < |VisibleOptions(quiz[i].options)|
    ensures call.None? <==> submitted
    ensures call.Some? ==> call.value.question == i && call.value.option in quiz[i].options
    ensures call.Some? ==> call.value.option == VisibleOptions(quiz[i].options)[j]
  {
    var opt := VisibleOptions(quiz[i].options)[j];
    assert opt in VisibleOptions(quiz[i].options);
    if submitted then None else Some(Selection(i, opt))
  }

  /** The answer map after the parent handles a click (or nothing, when no call was made). */
  function AfterClick(answers: Answers, call: Option<Selection>): Answers {
    match call
    case None => answers
    case Some(sel) => SelectedAnswers(answers, sel.question, sel.option)
  }

  /** After submission a click changes nothing; before it, the clicked option becomes the
      question's answer, and the answer map still only names questions of the quiz. */
  lemma ClickEffect(submitted: bool, quiz: seq<Question>, answers: Answers, i: nat, j: nat)
    requires i < |quiz| && j < |VisibleOptions(quiz[i].options)|
    requires KeysWithin(answers, |quiz|)
    ensures submitted ==> AfterClick(answers, Click(submitted, quiz, i, j)) == answers
    ensures !submitted ==>
      Lookup(AfterClick(answers, Click(submitted, quiz, i, j)), i) == Some(VisibleOptions(quiz[i].options)[j])
    ensures KeysWithin(AfterClick(answers, Click(submitted, quiz, i, j)), |quiz|)
  {
  }

  /** `selectedAnswer || "Not attempted"`. */
  function SelectedText(selection: Option<string>): (t: string)
    ensures t == "Not attempted" <==> selection.None? || selection.value in {"", "Not attempted"}
    ensures selection.Some? && selection.value != "" ==> t == selection.value
  {
    if selection.Some? && selection.value != "" then selection.value else "Not attempted"
  }

  /** The feedback block shown under a question after submission. */
  datatype Feedback = Feedback(
    selected: string,              // the selection, or "Not attempted"
    selectionGreen: bool,          // `isCorrect`: the selection is coloured green, else red
    correctAnswer: Option<string>,
    explanation: Option<string>)   // shown only when present and non-empty

  function FeedbackFor(quiz: seq<Question>, answers: Answers, i: nat, submitted: bool): (f: Option<Feedback>)
    requires i < |quiz|
    ensures f.None? <==> !submitted
    ensures f.Some? ==> f.value.correctAnswer == quiz[i].answer
    ensures f.Some? ==> (f.value.selected == "Not attempted" <==>
      i !in answers || answers[i] in {"", "Not attempted"})
    ensures f.Some? && i in answers && answers[i] != "" ==> f.value.selected == answers[i]
    ensures f.Some? ==> (f.value.selectionGreen <==> AnsweredCorrectly(quiz, answers, i))
    ensures f.Some? && f.value.explanation.Some? ==>
      quiz[i].explanation == f.value.explanation && f.value.explanation.value != ""
    ensures f.Some? ==> (f.value.explanation.Some? <==>
      quiz[i].explanation.Some? && quiz[i].explanation.value != "")
  {
    if !submitted then None
    else
      var e := quiz[i].explanation;
      Some(Feedback(
        SelectedText(Lookup(answers, i)),
        i in answers && quiz[i].answer == Some(answers[i]),
        quiz[i].answer,
        if e.Some? && e.value != "" then e else None))
  }
}
