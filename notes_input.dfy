/**
 * The notes form (frontend/src/components/NotesInput.js): two mutually exclusive note sources
 * (typed notes and text extracted from uploaded files), the upload with its 50 MiB per-file
 * check, and the generation request it hands to the parent.
 */
module NotesInput {
  import opened Wrappers
  import opened Text

  /** A selected file: its name and size in bytes. */
  datatype FileInfo = FileInfo(name: string, size: nat)

  /** `MAX_SIZE`: 50 MiB. A file of exactly this size is accepted. */
  const MaxFileSize: nat := 50 * 1024 * 1024

  /** What `POST /extract-notes` delivers: the parsed body with optional `text` and `warning`,
      or a thrown exception (network or parse failure). */
  datatype Extraction =
    | Extracted(text: Option<string>, warning: Option<string>)
    | RequestFailed

  /** The arguments of `onGenerate`. */
  datatype GenerateRequest = GenerateRequest(
    notes: string, difficulty: string, model: string, numQuestions: nat, language: string)

  /** The outcome of submitting the form: the blank-notes alert, or one `onGenerate` call. */
  datatype SubmitOutcome = Rejected(alert: string) | Generate(request: GenerateRequest)

  /** The note source the form is in. */
  datatype NoteSource = Empty | Typed | Uploaded

  function OversizeMessage(name: string): string {
    "\U{274C} You have uploaded file \"" + name
      + "\" more than 50 MB, so please upload a file less than 50 MB to proceed further."
  }

  const UnreadableMessage: string := "Unable to read text from the uploaded files. Please try another file."

  const UploadFailedMessage: string := "Failed to upload files. Please try again."

  const BlankNotesAlert: string := "Please paste some notes or upload a readable document!"

  /** The index of the first file over the limit, if any. */
  function FirstOversize(files: seq<FileInfo>): (k: Option<nat>)
    ensures k.None? <==> forall j :: 0 <= j < |files| ==> files[j].size <= MaxFileSize
    ensures k.Some? ==> k.value < |files| && files[k.value].size > MaxFileSize
    ensures k.Some? ==> forall j :: 0 <= j < k.value ==> files[j].size <= MaxFileSize
  {
    if files == [] then None
    else if files[0].size > MaxFileSize then Some(0)
    else
      match FirstOversize(files[1..])
      case None => None
      case Some(k) => Some(k + 1)
  }

  /** The size check of `handleFileChange`: scan the files in order and stop at the first one
      over the limit. */
  method FindOversize(files: seq<FileInfo>) returns (k: Option<nat>)
    ensures k == FirstOversize(files)
  {
    var i := 0;
    while i < |files|
      invariant 0 <= i <= |files|
      invariant forall j :: 0 <= j < i ==> files[j].size <= MaxFileSize
    {
      if files[i].size > MaxFileSize {
        return Some(i);
      }
      i := i + 1;
    }
    return None;
  }

  /** `data.warning || "Unable to read ..."`. */
  function WarningOrDefault(warning: Option<string>): (message: string)
    ensures warning.Some? && warning.value != "" ==> message == warning.value
    ensures warning.None? || warning.value == "" ==> message == UnreadableMessage
  {
    if warning.Some? && warning.value != "" then warning.value else UnreadableMessage
  }

  /** `data.text && data.text.trim()`: the extraction produced readable text. */
  predicate HasText(extraction: Extraction) {
    extraction.Extracted? && extraction.text.Some? && !IsBlank(extraction.text.value)
  }

  /** The state of the `NotesInput` component. */
  class NotesForm {
    var notes: string
    var fileNotes: string
    var manualMode: bool
    var uploadedFiles: seq<FileInfo>
    var uploadError: string
    var uploading: bool
    var difficulty: string
    var model: string
    var numQuestions: nat
    var language: string

    /** The form's invariant: typed mode is on exactly when the typed notes are not blank; typed mode
        has no files; extracted text comes with the files it was extracted from. */
    predicate Valid()
      reads this
    {
      && (manualMode <==> !IsBlank(notes))
      && (manualMode ==> uploadedFiles == [])
      && (fileNotes != "" ==> uploadedFiles != [])
    }

    /** The source the form is in, read off the flags. */
    function Mode(): NoteSource
      reads this
    {
      if manualMode then Typed else if uploadedFiles != [] then Uploaded else Empty
    }

    /** `manualMode ? notes : fileNotes`. */
    function EffectiveNotes(): string
      reads this
    {
      if manualMode then notes else fileNotes
    }

    /** `isDisabled`: the quiz controls and the generate button are disabled. */
    predicate ControlsDisabled()
      reads this
    {
      !(if manualMode then !IsBlank(notes) else !IsBlank(fileNotes))
    }

    /** `uploadDisabled`: the upload box is disabled while the user types notes. */
    predicate UploadDisabled()
      reads this
    {
      manualMode
    }

    /** `disabled={hasFiles}` on the textarea. */
    predicate TextareaDisabled()
      reads this
    {
      uploadedFiles != []
    }

    /** `disabled={uploadDisabled || uploading}` on the browse button and the file input. */
    predicate FileInputDisabled()
      reads this
    {
      UploadDisabled() || uploading
    }

    /** The initial `useState` values. */
    constructor ()
      ensures Valid() && Mode() == Empty
      ensures notes == "" && fileNotes == "" && !manualMode && uploadedFiles == []
      ensures uploadError == "" && !uploading
      ensures difficulty == "Easy" && model == "gemini-flash-latest" && numQuestions == 5 && language == "English"
    {
      notes := "";
      fileNotes := "";
      manualMode := false;
      uploadedFiles := [];
      uploadError := "";
      uploading := false;
      difficulty := "Easy";
      model := "gemini-flash-latest";
      numQuestions := 5;
      language := "English";
      new;
      EmptyIsBlank(notes);
    }

    /** `handleSubmit`: reject blank effective notes, otherwise call `onGenerate` once. */
    method Submit() returns (outcome: SubmitOutcome)
      ensures outcome.Rejected? <==> IsBlank(EffectiveNotes())
      ensures outcome.Rejected? ==> outcome.alert == BlankNotesAlert
      ensures outcome.Generate? ==>
        outcome.request == GenerateRequest(EffectiveNotes(), difficulty, model, numQuestions, language)
    {
      var effective := if manualMode then notes else fileNotes;
      if IsBlank(effective) {
        return Rejected(BlankNotesAlert);
      }
      outcome := Generate(GenerateRequest(effective, difficulty, model, numQuestions, language));
    }

    /** The textarea's `onChange`. */
    method Type(value: string)
      requires Valid()
      modifies this`notes, this`manualMode, this`uploadedFiles, this`fileNotes, this`uploadError
      ensures Valid()
      ensures notes == value
      ensures !IsBlank(value) ==> manualMode && Mode() == Typed && uploadedFiles == []
      ensures !IsBlank(value) && old(uploadedFiles) != [] ==> fileNotes == "" && uploadError == ""
      ensures !IsBlank(value) && old(uploadedFiles) == [] ==>
        fileNotes == old(fileNotes) && uploadError == old(uploadError)
      ensures IsBlank(value) ==> !manualMode && uploadedFiles == old(uploadedFiles)
      ensures IsBlank(value) ==> fileNotes == old(fileNotes) && uploadError == old(uploadError)
    {
      notes := value;
      if !IsBlank(value) {
        manualMode := true;
        if |uploadedFiles| > 0 {
          uploadedFiles := [];
          fileNotes := "";
          uploadError := "";
        }
      } else {
        manualMode := false;
      }
    }

    /** `handleFileChange` with the extraction endpoint's answer as a parameter; `requested` says
        whether the request was sent. */
    method HandleFileChange(files: seq<FileInfo>, extraction: Extraction) returns (requested: bool)
      requires Valid()
      modifies this`notes, this`fileNotes, this`manualMode, this`uploadedFiles, this`uploadError, this`uploading
      ensures Valid()
      ensures requested <==> |files| > 0 && !old(manualMode) && FirstOversize(files).None?
      ensures !requested ==>
        notes == old(notes) && fileNotes == old(fileNotes) && manualMode == old(manualMode) &&
        uploadedFiles == old(uploadedFiles) && uploading == old(uploading)
      ensures |files| == 0 || old(manualMode) ==> uploadError == old(uploadError)
      ensures |files| > 0 && !old(manualMode) && FirstOversize(files).Some? ==>
        uploadError == OversizeMessage(files[FirstOversize(files).value].name)
      ensures requested ==> !uploading && Applied(old(uploadedFiles), old(fileNotes), old(notes), old(manualMode), files, extraction)
    {
      if |files| == 0 || manualMode {
        return false;
      }
      var oversize := FindOversize(files);
      if oversize.Some? {
        uploadError := OversizeMessage(files[oversize.value].name);
        return false;
      }
      uploading := true;
      ApplyExtraction(files, extraction);
      requested := true;
    }

    /** The form's state after the extraction request for `files` was answered with `extraction`,
        given the state before it. */
    ghost predicate Applied(
      oldFiles: seq<FileInfo>, oldFileNotes: string, oldNotes: string, oldManual: bool,
      files: seq<FileInfo>, extraction: Extraction)
      reads this
    {
      && (HasText(extraction) ==>
            fileNotes == extraction.text.value && notes == "" && uploadedFiles == files &&
            !manualMode && uploadError == "" && Mode() == Uploaded)
      && (extraction.Extracted? && !HasText(extraction) ==>
            uploadedFiles == files && !manualMode && Mode() == Uploaded &&
            fileNotes == oldFileNotes && notes == oldNotes &&
            uploadError == WarningOrDefault(extraction.warning))
      && (extraction.RequestFailed? ==>
            uploadError == UploadFailedMessage && uploadedFiles == oldFiles &&
            fileNotes == oldFileNotes && notes == oldNotes && manualMode == oldManual)
    }

    /** The `try`/`catch`/`finally` of `handleFileChange`, after the size check passed: clear the
        error, apply the answer, end the upload. */
    method ApplyExtraction(files: seq<FileInfo>, extraction: Extraction)
      requires Valid() && files != [] && !manualMode
      modifies this`notes, this`fileNotes, this`manualMode, this`uploadedFiles, this`uploadError, this`uploading
      ensures Valid() && !uploading
      ensures Applied(old(uploadedFiles), old(fileNotes), old(notes), old(manualMode), files, extraction)
    {
      uploadError := "";
      match extraction {
        case RequestFailed =>
          uploadError := UploadFailedMessage;
        case Extracted(text, warning) =>
          if text.Some? && !IsBlank(text.value) {
            fileNotes := text.value;
            notes := "";
            uploadedFiles := files;
            manualMode := false;
            EmptyIsBlank(notes);
          } else {
            uploadedFiles := files;
            manualMode := false;
            uploadError := WarningOrDefault(warning);
          }
      }
      uploading := false;
    }

    /** `handleClearFiles`: back to the empty source. */
    method ClearFiles()
      modifies this`uploadedFiles, this`notes, this`fileNotes, this`uploadError, this`manualMode
      ensures Valid() && Mode() == Empty
      ensures uploadedFiles == [] && notes == "" && fileNotes == "" && uploadError == "" && !manualMode
    {
      uploadedFiles := [];
      notes := "";
      fileNotes := "";
      uploadError := "";
      manualMode := false;
      EmptyIsBlank(notes);
    }

    /** The difficulty select's `onChange`. */
    method SetDifficulty(value: string)
      modifies this`difficulty
      ensures difficulty == value
    {
      difficulty := value;
    }

    /** The model select's `onChange`. */
    method SetModel(value: string)
      modifies this`model
      ensures model == value
    {
      model := value;
    }

    /** The question-count select's `onChange` (`parseInt` of one of the listed counts). */
    method SetNumQuestions(value: nat)
      modifies this`numQuestions
      ensures numQuestions == value
    {
      numQuestions := value;
    }

    /** The language selector's `onChange`. */
    method SetLanguage(value: string)
      modifies this`language
      ensures language == value
    {
      language := value;
    }
  }

  /** In a valid form at most one source holds text, the controls are enabled exactly when some
      source holds text, upload is disabled exactly when typed notes are present, the textarea and
      the upload box are never both disabled by the chosen source, and submitting is rejected
      exactly when the controls are disabled. */
  lemma ValidFormConsequences(f: NotesForm)
    requires f.Valid()
    ensures !(!IsBlank(f.notes) && f.fileNotes != "")
    ensures f.ControlsDisabled() <==> IsBlank(f.notes) && IsBlank(f.fileNotes)
    ensures f.UploadDisabled() <==> !IsBlank(f.notes)
    ensures !(f.TextareaDisabled() && f.UploadDisabled())
    ensures f.ControlsDisabled() <==> IsBlank(f.EffectiveNotes())
    ensures f.FileInputDisabled() <==> f.uploading || !IsBlank(f.notes)
  {
  }
}
