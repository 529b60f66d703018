# Quizify frontend core in Dafny

Quizify turns study notes into a multiple-choice quiz. A user types notes or uploads documents, chooses difficulty, model, question count and language, and asks a backend for a generated quiz. They then answer it in the browser and get a score and per-question feedback. This project models the React frontend's state and scoring logic and proves properties of it:

- **`App`** (`frontend/src/App.js`): the quiz session, as a class.
  - Generation is split into its reset half and its response-handling half. The server reply is a parameter.
  - It covers answer selection and submission. The score is computed by a loop proved against a counting function.
- **`QuizDisplay`** (`frontend/src/components/QuizDisplay.js`): the view rules.
  - The summary counts.
  - The option pipeline: drop blank options, relabel the rest A, B, C, …, and strip a label the generator embedded in the text.
  - The CSS class of every option, the click guard, and the feedback block.
- **`LanguageSelector`** (`frontend/src/components/LanguageSelector.js`): the case- and whitespace-insensitive language filter, plus the dropdown's open/search state as a class.
- **`NotesInput`** (`frontend/src/components/NotesInput.js`): the notes form, as a class.
  - Typed notes and text extracted from uploaded files are mutually exclusive. The class invariant `Valid()` says so, and every handler preserves it.
  - Uploads go through the 50 MiB per-file check (a loop proved against a recursive specification). The extraction reply is a parameter.
  - Submitting produces either the blank-notes alert or one generation request.
- **Support modules:**
  - `Text`: JavaScript `trim` (ECMA-262 whitespace), ASCII `toLowerCase` and `includes`.
  - `Seqs`: `Array.prototype.filter` and the subsequence relation.
  - `Quiz`: questions, the answer map and the score count shared by `App` and `QuizDisplay`.
  - `Wrappers`: `Option`.

Fields the JSON may omit (`answer`, `explanation`, `quiz`, `error`, `text`, `warning`) are `Option` values, and `None` plays the part of `undefined`. JavaScript truthiness is written out: `""` is falsy, so a reply with `error: ""` is handled as a success, as the code does.

## Model

| member | source | states |
|---|---|---|
| Text.Trim | frontend/src/components/LanguageSelector.js:9 | `trim` never lengthens a string; the result is empty exactly when the input is all whitespace; otherwise it starts and ends with non-whitespace |
| Text.TrimStart | frontend/src/components/QuizDisplay.js:53 | removing leading whitespace (the `\s*` after a label) never lengthens the string and leaves it empty or starting with non-whitespace |
| Text.TrimStartSpec | frontend/src/components/QuizDisplay.js:53 | what is removed is exactly a whitespace prefix: the result is a suffix of the input |
| Text.TrimEndSpec | frontend/src/components/LanguageSelector.js:9 | the trailing half of `trim` removes exactly a whitespace suffix: the result is a prefix of the input |
| Text.TrimIdempotent | frontend/src/components/LanguageSelector.js:9 | trimming twice is trimming once |
| Text.ToLower | frontend/src/components/LanguageSelector.js:9-12 | lower-casing keeps the length, leaves no upper-case ASCII letter, keeps every other character and shifts each upper-case letter by 32 |
| Text.TrimLowerCommute | frontend/src/components/LanguageSelector.js:9 | trimming and lower-casing commute |
| Text.ToLowerIdempotent | frontend/src/components/LanguageSelector.js:12 | lower-casing a lower-cased string changes nothing |
| Text.Includes | frontend/src/components/LanguageSelector.js:12 | `includes` holds exactly when the needle occurs at some position of the haystack |
| Seqs.Filter | frontend/src/components/QuizDisplay.js:48 | `filter` never lengthens the list and keeps exactly the elements that satisfy the predicate |
| Seqs.FilterAppend | frontend/src/components/LanguageSelector.js:11-13 | filtering a concatenation is concatenating the filtered parts |
| Seqs.FilterIsSubsequence | frontend/src/components/LanguageSelector.js:11-13 | a filter result is a subsequence of its input: order is kept |
| Seqs.FilterKeepsAll | frontend/src/components/QuizDisplay.js:48 | a filter that accepts every element returns its input unchanged |
| Quiz.SelectedAnswers | frontend/src/App.js:56-58 | selecting stores the option under the question index, adds only that key and keeps every other answer |
| Quiz.SelectIdempotent | frontend/src/App.js:57 | selecting the same option twice equals selecting it once |
| Quiz.SelectOverwrites | frontend/src/App.js:57 | a later selection for a question replaces the earlier one |
| Quiz.CountCorrect | frontend/src/App.js:61-64 | the number of questions answered correctly (answered, and with the question's answer) is at most the number examined; it equals that number exactly when all were answered correctly and is 0 exactly when none were |
| Quiz.Score | frontend/src/App.js:60-65 | the score never exceeds the number of questions |
| Quiz.CountIsCardinality | frontend/src/App.js:61-64 | the counted score is the size of the set of indices answered correctly |
| Quiz.AttemptedAtMostTotal | frontend/src/components/QuizDisplay.js:7-8 | when the answer keys are question indices, attempted is at most the total |
| Quiz.CorrectAtMostAttempted | frontend/src/components/QuizDisplay.js:9-10 | the score never exceeds the number of answers given, whatever the questions hold |
| Quiz.UnansweredQuestionWithoutAnswerScores | frontend/src/App.js:63 | as written, an unanswered question with no `answer` field is counted correct (`undefined === undefined`), giving score 1 where the corrected score is 0 |
| Quiz.CountMatches | frontend/src/App.js:61-64 | the strict-equality count as written is at most the number examined |
| Quiz.CountMatchesIsCardinality | frontend/src/App.js:61-64 | the count as written is the size of the set of indices whose stored answer strictly equals the question's answer, an absent answer matching an unanswered question |
| Quiz.ScoreAsWritten | frontend/src/App.js:60-65 | the score as written never exceeds the number of questions |
| Quiz.CountsAgreeWhenAnswersDefined | frontend/src/App.js:63 | when every question names its answer, the corrected count equals the count as written |
| App.ClassifyError | frontend/src/App.js:35 | the quota message is chosen exactly when the error contains "API limit" or "exceeds" |
| App.BackendLimitErrorIsQuota | backend/app/main.py:51 | the backend's limit error for any model name is shown with the quota message |
| App.QuizSession.constructor | frontend/src/App.js:6-10 | the session starts with no quiz, no answers, no score, not submitted, not loading |
| App.QuizSession.BeginGeneration | frontend/src/App.js:13-17 | generation starts loading and clears quiz, answers, score and the submitted flag |
| App.QuizSession.CompleteGeneration | frontend/src/App.js:31-53 | loading ends on every path. A transport failure empties the quiz with the connection alert. A non-empty error empties the quiz with the quota or generic alert as `ClassifyError` decides. Otherwise the quiz is `data.quiz` or empty, and the empty-result alert appears exactly when it is absent or empty |
| App.QuizSession.Generate | frontend/src/App.js:12-54 | one generation leaves a fresh session: the reply's quiz only on success, the empty-result alert exactly for a successful reply with no questions, the quota alert exactly for a quota error |
| App.QuizSession.SelectAnswer | frontend/src/App.js:56-58 | the answer map becomes `SelectedAnswers` of the old one, the quiz is unchanged, and answers keep naming only quiz questions |
| App.QuizSession.Submit | frontend/src/App.js:60-67 | the loop's score equals `Score(quiz, answers)`, so it is at most the number of questions and at most the number of answers; the session is marked submitted, and quiz and answers are unchanged |
| QuizDisplay.Summarize | frontend/src/components/QuizDisplay.js:6-10 | total is the quiz size and attempted the number of answers; attempted plus not-attempted is total, correct plus incorrect is attempted, and correct is at most attempted so incorrect is never negative |
| QuizDisplay.CorrectQuestions | frontend/src/components/QuizDisplay.js:9 | the filtered questions all come from the quiz |
| QuizDisplay.FilterCountsCorrect | frontend/src/components/QuizDisplay.js:9 | the length of the filtered list is the count of correctly answered questions |
| QuizDisplay.SummaryCorrectIsScore | frontend/src/components/QuizDisplay.js:9 | the summary's correct count equals the score the session computes on submission |
| QuizDisplay.SummaryBounds | frontend/src/components/QuizDisplay.js:6-9 | with index keys, attempted and correct are at most total and not-attempted is never negative |
| QuizDisplay.IncorrectCanBeNegative | frontend/src/components/QuizDisplay.js:9-10 | as written, one unanswered question with no `answer` field yields incorrect = -1; the corrected summary gives 0 |
| QuizDisplay.SummarizeAsWritten | frontend/src/components/QuizDisplay.js:6-10 | the summary as written keeps the count identities and correct is at most total, but incorrect is not bounded below |
| QuizDisplay.SummaryAgreesWhenAnswersDefined | frontend/src/components/QuizDisplay.js:9-10 | on quizzes whose questions all name their answer, the summary and the summary as written are equal |
| QuizDisplay.VisibleOptions | frontend/src/components/QuizDisplay.js:47-48 | the displayed options are exactly the raw options that are not blank, and no more of them |
| QuizDisplay.VisibleOptionsKeepOrder | frontend/src/components/QuizDisplay.js:47-48 | dropping blanks keeps the order and commutes with concatenation |
| QuizDisplay.VisibleOptionsWithoutBlanks | frontend/src/components/QuizDisplay.js:47-48 | a list without blank options is displayed unchanged |
| QuizDisplay.Label | frontend/src/components/QuizDisplay.js:52 | the j-th label is the character with code 65 + j, a capital letter for the first 26 |
| QuizDisplay.StripLabelPrefix | frontend/src/components/QuizDisplay.js:53 | with an embedded `X.` or `X)` label, the result is what follows it minus a whitespace prefix; without one, the text is unchanged |
| QuizDisplay.CleanOption | frontend/src/components/QuizDisplay.js:53 | the cleaned text is no longer than the option and has no surrounding whitespace |
| QuizDisplay.CleanOptionIs | frontend/src/components/QuizDisplay.js:53 | the cleaned text is the trimmed text after the embedded label, or the trimmed text when there is none |
| QuizDisplay.CleanIgnoresEmbeddedLabel | frontend/src/components/QuizDisplay.js:53 | whichever letter and `.`/`)` the generator embedded, the cleaned text is the same |
| QuizDisplay.CleanLabelled | frontend/src/components/QuizDisplay.js:53 | "X) text" cleans to "text" when the text has no surrounding whitespace |
| QuizDisplay.DisplayText | frontend/src/components/QuizDisplay.js:54 | the displayed text is the label, ") ", then the cleaned option when that is non-empty and the raw option otherwise |
| QuizDisplay.LabelOnlyShowsRaw | frontend/src/components/QuizDisplay.js:53-54 | an option that is only a label and spaces cleans to nothing and is shown raw after the new label |
| QuizDisplay.RenderOptions | frontend/src/components/QuizDisplay.js:47-54 | one displayed text per non-blank option, the j-th built from the j-th non-blank option |
| QuizDisplay.RenderedLabelsConsecutive | frontend/src/components/QuizDisplay.js:49-54 | labels run A, B, C, … over the displayed options with no gap for removed blanks, and the text after the label is never blank |
| QuizDisplay.RelabelSkipsBlank | frontend/src/components/QuizDisplay.js:47-54 | two labelled options around a blank one, such as ["B) Paris", "", "A) London"], are displayed as ["A) Paris", "B) London"] |
| QuizDisplay.ClassOf | frontend/src/components/QuizDisplay.js:56-64 | before submission only "selected" or none, "selected" exactly for the chosen option; after it "correct", "incorrect", "highlight-correct" and none, each exactly in its case |
| QuizDisplay.QuestionClasses | frontend/src/components/QuizDisplay.js:47-64 | one class per displayed option, the j-th being `ClassOf` the j-th displayed option with the question's stored answer |
| QuizDisplay.MarksAgreeWithFeedback | frontend/src/components/QuizDisplay.js:58-64 | after submission, with the chosen option on display, some option is "correct" exactly when the feedback colours the choice green (line 82), and "incorrect" exactly otherwise |
| QuizDisplay.Click | frontend/src/components/QuizDisplay.js:70 | a click calls `onSelect` exactly when not submitted, with the question index and the raw option text |
| QuizDisplay.ClickEffect | frontend/src/components/QuizDisplay.js:70 | after submission a click leaves the answers unchanged; before it the clicked option becomes the answer; answer keys stay question indices |
| QuizDisplay.SelectedText | frontend/src/components/QuizDisplay.js:83 | the feedback shows the selection, or "Not attempted" exactly when there is none or it is empty (or is that very text) |
| QuizDisplay.FeedbackFor | frontend/src/components/QuizDisplay.js:78-96 | feedback exists exactly after submission; it shows the question's answer; the selection reads as the stored answer when that is non-empty and "Not attempted" otherwise; it is green exactly when the question was answered with its answer; the explanation is shown exactly when present and non-empty |
| LanguageSelector.FilterLanguages | frontend/src/components/LanguageSelector.js:8-14 | a blank query lists the whole catalog; otherwise exactly the entries whose lower-case form contains the trimmed, lower-cased query; never more entries than the catalog |
| LanguageSelector.FilterKeepsCatalogOrder | frontend/src/components/LanguageSelector.js:11-13 | the listing is a subsequence of the catalog and filtering distributes over concatenation |
| LanguageSelector.FilterIgnoresQueryCase | frontend/src/components/LanguageSelector.js:9 | lower-casing the query does not change the listing |
| LanguageSelector.FilterIgnoresSurroundingWhitespace | frontend/src/components/LanguageSelector.js:9 | trimming the query does not change the listing |
| LanguageSelector.DisplayLabel | frontend/src/components/LanguageSelector.js:22 | the chosen language is shown, or "Select language" when none is chosen |
| LanguageSelector.Dropdown.constructor | frontend/src/components/LanguageSelector.js:5-6 | the dropdown starts closed with an empty search |
| LanguageSelector.Dropdown.Toggle | frontend/src/components/LanguageSelector.js:29 | the trigger flips `open` unless disabled, so an enabled trigger shows the panel exactly when it was closed |
| LanguageSelector.Dropdown.SetSearch | frontend/src/components/LanguageSelector.js:44 | the search box stores the typed text |
| LanguageSelector.Dropdown.Select | frontend/src/components/LanguageSelector.js:16-20 | when disabled nothing is reported and `open` is unchanged; otherwise `onChange(lang)` is called and the dropdown closes; either way the panel is not shown afterwards |
| LanguageSelector.Dropdown.Listed | frontend/src/components/LanguageSelector.js:50 | the listed entries are a subsequence of the catalog |
| LanguageSelector.DisabledHidesPanel | frontend/src/components/LanguageSelector.js:36 | a disabled dropdown never shows its panel, whatever `open` holds |
| LanguageSelector.NoMatchRow | frontend/src/components/LanguageSelector.js:62 | the "No languages found" row appears exactly when the catalog is empty (blank query) or no entry contains the normalised query |
| NotesInput.FirstOversize | frontend/src/components/NotesInput.js:44-51 | the index found is the first file over 50 MiB, and there is none exactly when every file is within the limit |
| NotesInput.FindOversize | frontend/src/components/NotesInput.js:44-51 | the scanning loop finds exactly `FirstOversize(files)` |
| NotesInput.WarningOrDefault | frontend/src/components/NotesInput.js:77-80 | the backend warning if present and non-empty, otherwise the default unreadable-file message |
| NotesInput.NotesForm.constructor | frontend/src/components/NotesInput.js:5-14 | the form starts empty in neither mode, with the default difficulty, model, count and language, and satisfies its invariant |
| NotesInput.NotesForm.Submit | frontend/src/components/NotesInput.js:16-25 | submitting is rejected with the blank-notes alert exactly when the effective notes are blank; otherwise it requests generation with the effective notes and the current settings |
| NotesInput.NotesForm.Type | frontend/src/components/NotesInput.js:103-119 | typing keeps the invariant. Non-blank text switches to typed mode and clears files, extracted text and error if files were present. Blank text leaves typed mode and keeps the files |
| NotesInput.NotesForm.HandleFileChange | frontend/src/components/NotesInput.js:33-88 | keeps the invariant. The request is sent exactly when files were chosen, the form is not in typed mode and no file exceeds 50 MiB. Otherwise the state is unchanged except for the oversize error naming the first offending file. After a request, `uploading` is off and the state is as `Applied` describes |
| NotesInput.NotesForm.ApplyExtraction | frontend/src/components/NotesInput.js:53-87 | keeps the invariant and ends the upload. Readable text replaces the typed notes and records the files. An unreadable reply records the files and shows the warning or the default message. A failed request only sets the failure message |
| NotesInput.NotesForm.ClearFiles | frontend/src/components/NotesInput.js:90-96 | clearing returns the form to the empty source and satisfies the invariant |
| NotesInput.NotesForm.SetDifficulty | frontend/src/components/NotesInput.js:188 | the difficulty select stores its value |
| NotesInput.NotesForm.SetModel | frontend/src/components/NotesInput.js:201 | the model select stores its value |
| NotesInput.NotesForm.SetNumQuestions | frontend/src/components/NotesInput.js:221 | the question-count select stores its value |
| NotesInput.NotesForm.SetLanguage | frontend/src/components/NotesInput.js:239 | the language selector stores its value |
| NotesInput.ValidFormConsequences | frontend/src/components/NotesInput.js:27-31 | in a valid form at most one source holds text. Controls are enabled exactly when some source holds text. Upload is disabled exactly when typed notes are present. The textarea and upload box are never both disabled by the source. Submitting is rejected exactly when the controls are disabled. The file input is disabled exactly while uploading or while typed notes are present (lines 144 and 153) |

## Left out

- Network calls (`fetch` to `/generate-quiz` and `/extract-notes`), `response.json()`, the random query parameter, `alert` and `console` output are not modelled as effects. The server reply is a parameter (`App.Response`, `NotesInput.Extraction`), and each alert is a returned value.
- Asynchrony is not modelled. Each handler is one atomic transition, so a user typing while an upload is in flight is not modelled. During a first upload the textarea stays enabled (frontend/src/components/NotesInput.js:124 reads the still-empty file list), and typing there turns typed mode on. A readable reply then empties the notes, so the typed text is lost. An unreadable reply records the files and turns typed mode off but keeps the typed notes, which breaks the invariant `Valid()` (typed mode exactly when the notes are not blank). A failed request changes only the error.
- PDF export (`downloadPDF`, html2pdf.js), JSX layout, CSS, placeholders, the `accept` list of the file input, and the contents of `QUIZ_LANGUAGES` (a parameter here) are left out.
- Text.ToLower: lower-cases ASCII letters only. JavaScript's `toLowerCase` also folds non-ASCII letters, which this model does not.
- QuizDisplay.Label: requires fewer than 0xD800 - 65 displayed options. `String.fromCharCode` beyond that yields surrogate code units, which Dafny's `char` cannot hold.
- Option entries that are `null` or `undefined` are modelled as `""`. Both are falsy and both are dropped by the blank filter. An absent `options` list is the empty list.
- App.QuizSession.CompleteGeneration: a truthy `data.quiz` that is not an array is not modelled. The reply's quiz is either absent or a list of questions.
- NotesInput.NotesForm.SetNumQuestions: takes a natural number. `parseInt` of a value outside the fixed option list (which would give `NaN`) is not modelled.
- The backend is not part of this model (text extraction, quiz generation with the language model, the error-reply rules). It appears only as the parameters above, plus the text of its limit error (`App.BackendLimitError`).
- App.QuizSession.Submit: counts a question as correct only when it was answered with the question's answer. The code also counts an unanswered question that has no `answer` field (see "## Findings"); `Quiz.ScoreAsWritten` models that count.
- QuizDisplay.FeedbackFor: colours the selection green only when the question was answered correctly. The code also colours "Not attempted" green for a question with no `answer` field (frontend/src/components/QuizDisplay.js:38), for the reason under "## Findings".
- Two behaviours of the code that the model keeps:
  - a failed upload keeps the files recorded earlier;
  - an unreadable reply keeps the previous extracted text.

## Findings

| source | as written | input that shows it | evidently intended | confidence | as-written member | corrected member |
|---|---|---|---|---|---|---|
| frontend/src/components/QuizDisplay.js:9-10 | `correct` counts `answers[i] === q.answer`. An unanswered question with no `answer` field gives `undefined === undefined`, so it is counted correct, and `incorrect = attempted - correct` goes negative. `App.handleSubmit` (frontend/src/App.js:63) inflates the score the same way | one question `{question: "q", options: ["a","b"]}` (no `answer`), no answers given: correct 1, incorrect -1, score 1 / 1 | count a question as correct only when it was answered and the answer equals the question's answer, so that 0 <= correct <= attempted | not executed | QuizDisplay.IncorrectCanBeNegative, Quiz.UnansweredQuestionWithoutAnswerScores | QuizDisplay.Summarize, Quiz.Score |
