/** The application shell of App.tsx: the form state, the transitions that
    the file picker, the remove-image button, the submit button and the reset
    button perform on it, when submitting is disabled, and which view is shown.
    Submitting calls the solve client of `GeminiService`, so the facts that
    span both files are stated here. */
module App {
  import opened Wrappers
  import opened Strings
  import opened GeminiService
  import SolutionDisplay

  const NoProblemError: string := "Please provide a problem to solve."
  const UploadError: string := "Please upload a valid image file (PNG, JPG, WEBP)."

  /** The prefix by which the shell recognises a failed solve. */
  const FailurePrefix: string := "An error occurred:"

  /** The file types the picker accepts. */
  const ImageTypePrefix: string := "image/"

  /** The shell's state: problem text, chosen image and its preview, the last
      solution, the last error message, and whether a solve is in flight.
      `None` stands for `null`. */
  datatype AppState = AppState(
    text: string,
    image: Option<ImageFile>,
    preview: Option<string>,
    solution: Option<string>,
    error: Option<string>,
    loading: bool)

  /** The state the shell starts in. */
  const Initial: AppState := AppState("", None, None, None, None, false)

  /* ---------------------------------------------------------------------- */
  /* Transitions                                                             */
  /* ---------------------------------------------------------------------- */

  /** `handleFile`: an image is taken (with its data URL as the preview) and
      any error cleared; any other file only sets the upload error. */
  function HandleFile(st: AppState, file: ImageFile): (r: AppState)
    ensures StartsWith(file.mimeType, "image/")
            ==> r.image == Some(file) && r.preview == Some(file.dataUrl) && r.error == None
    ensures !StartsWith(file.mimeType, "image/")
            ==> r.error == Some(UploadError) && r.image == st.image && r.preview == st.preview
    ensures r.text == st.text && r.solution == st.solution && r.loading == st.loading
  {
    if StartsWith(file.mimeType, ImageTypePrefix) then
      st.(error := None, image := Some(file), preview := Some(file.dataUrl))
    else
      st.(error := Some(UploadError))
  }

  /** `handleRemoveImage`: image and preview go, nothing else changes. */
  function HandleRemoveImage(st: AppState): (r: AppState)
    ensures r.image.None? && r.preview.None?
    ensures r.text == st.text && r.solution == st.solution && r.error == st.error && r.loading == st.loading
  {
    st.(image := None, preview := None)
  }

  /** `handleReset`: every field back to the value it is given on reset. */
  function HandleReset(st: AppState): (r: AppState)
    ensures r.text == "" && r.image.None? && r.preview.None?
    ensures r.solution.None? && r.error.None? && !r.loading
  {
    AppState("", None, None, None, None, false)
  }

  /** `isSubmitDisabled`: a solve is in flight, or there is nothing to solve
      (the text is blank once trimmed and there is no image). */
  function IsSubmitDisabled(st: AppState): (disabled: bool)
    ensures disabled <==> st.loading || (AllWhitespace(st.text) && st.image.None?)
  {
    st.loading || (Trim(st.text) == "" && st.image.None?)
  }

  /** What one press of the submit button does: either it is refused without
      calling the solver, or it goes through a pending state (spinner shown)
      to the state after the reply came back. */
  datatype Submission =
    | Refused(state: AppState)
    | Completed(pending: AppState, reply: string, state: AppState)

  /** `handleSubmit`, with the solve client called on the current text and image. */
  function HandleSubmit(st: AppState, apiKey: Option<string>, backend: (string, Request) -> Outcome): (s: Submission)
    ensures s.Refused? <==> AllWhitespace(st.text) && st.image.None?
    ensures s.Refused? ==> s.state == st.(error := Some(NoProblemError))
    ensures s.Completed? ==> s.pending == st.(error := None, loading := true, solution := None)
    ensures s.Completed? ==> s.reply == SolveProblem(st.text, st.image, apiKey, backend)
    ensures s.Completed? ==> !s.state.loading && (s.state.error.Some? != s.state.solution.Some?)
    ensures s.Completed? ==> (s.state.error == Some(s.reply) <==> StartsWith(s.reply, "An error occurred:"))
    ensures s.Completed? ==> (s.state.solution == Some(s.reply) <==> !StartsWith(s.reply, "An error occurred:"))
    ensures s.Completed? ==> s.state.text == st.text && s.state.image == st.image && s.state.preview == st.preview
  {
    if Trim(st.text) == "" && st.image.None? then
      Refused(st.(error := Some(NoProblemError)))
    else
      var pending := st.(error := None, loading := true, solution := None);
      var reply := SolveProblem(st.text, st.image, apiKey, backend);
      var answered :=
        if StartsWith(reply, FailurePrefix) then pending.(error := Some(reply))
        else pending.(solution := Some(reply));
      Completed(pending, reply, answered.(loading := false))
  }

  /* ---------------------------------------------------------------------- */
  /* Display                                                                 */
  /* ---------------------------------------------------------------------- */

  /** What `renderContent` shows: the spinner, the solution panel, or the
      input form with its optional alert and the state of its submit button. */
  datatype View =
    | Spinner
    | SolutionPanel(solution: string)
    | InputForm(alert: Option<string>, submitDisabled: bool)

  /** `renderContent`: loading first, then a (non-empty) solution, then the form. */
  function Render(st: AppState): (v: View)
    ensures v.Spinner? <==> st.loading
    ensures v.SolutionPanel? <==> !st.loading && Truthy(st.solution)
    ensures v.SolutionPanel? ==> v.solution == st.solution.value
    ensures v.InputForm? ==> (v.alert.Some? <==> Truthy(st.error))
    ensures v.InputForm? && v.alert.Some? ==> v.alert == st.error
    ensures v.InputForm? ==> (v.submitDisabled <==> AllWhitespace(st.text) && st.image.None?)
  {
    if st.loading then Spinner
    else if Truthy(st.solution) then SolutionPanel(st.solution.value)
    else InputForm(if Truthy(st.error) then st.error else None, IsSubmitDisabled(st))
  }

  /* ---------------------------------------------------------------------- */
  /* Properties of the shell                                                 */
  /* ---------------------------------------------------------------------- */

  /** Resetting returns to exactly the state the shell starts in, whose view
      is the empty form with submitting disabled. */
  lemma ResetIsStartup(st: AppState)
    ensures HandleReset(st) == Initial
    ensures Render(HandleReset(st)) == InputForm(None, true)
  {
  }

  /** Taking an image and then removing it leaves the state as removing
      alone would, except that the error is cleared. */
  lemma RemoveUndoesFile(st: AppState, file: ImageFile)
    requires StartsWith(file.mimeType, "image/")
    ensures HandleRemoveImage(HandleFile(st, file)) == HandleRemoveImage(st).(error := None)
  {
  }

  /** Once an image is taken, submitting is enabled unless a solve is in flight. */
  lemma ImageEnablesSubmit(st: AppState, file: ImageFile)
    requires StartsWith(file.mimeType, "image/")
    ensures IsSubmitDisabled(HandleFile(st, file)) == st.loading
  {
  }

  /** A press of an enabled button is never refused, and a refused press
      happened on a disabled button. */
  lemma RefusedExactlyWhenNothingToSolve(st: AppState, apiKey: Option<string>,
                                         backend: (string, Request) -> Outcome)
    ensures !IsSubmitDisabled(st) ==> HandleSubmit(st, apiKey, backend).Completed?
    ensures HandleSubmit(st, apiKey, backend).Refused? ==> IsSubmitDisabled(st)
  {
  }

  /** The views a submission goes through: the spinner while pending; then an
      alert for a reply that starts with the failure prefix, the solution panel
      for any other non-empty reply, and the bare form for an empty reply. */
  lemma SubmissionViews(st: AppState, apiKey: Option<string>, backend: (string, Request) -> Outcome)
    ensures var s := HandleSubmit(st, apiKey, backend);
            s.Completed? ==>
            && Render(s.pending) == Spinner
            && (StartsWith(s.reply, "An error occurred:")
                ==> Render(s.state) == InputForm(Some(s.reply), IsSubmitDisabled(s.state)))
            && (!StartsWith(s.reply, "An error occurred:") && s.reply != ""
                ==> Render(s.state) == SolutionPanel(s.reply))
            && (s.reply == "" ==> Render(s.state) == InputForm(None, IsSubmitDisabled(s.state)))
  {
    var s := HandleSubmit(st, apiKey, backend);
    if s.Completed? && s.reply == "" {
      assert !StartsWith(s.reply, FailurePrefix);
    }
  }

  /** A refused press on the form shows the prompt to enter a problem, with
      submitting still disabled. */
  lemma RefusedShowsPrompt(st: AppState, apiKey: Option<string>, backend: (string, Request) -> Outcome)
    requires !st.loading && !Truthy(st.solution)
    requires HandleSubmit(st, apiKey, backend).Refused?
    ensures Render(HandleSubmit(st, apiKey, backend).state) == InputForm(Some(NoProblemError), true)
  {
  }

  /* ---------------------------------------------------------------------- */
  /* Facts that span the shell and the solve client                          */
  /* ---------------------------------------------------------------------- */

  /** Every submission that reaches the solve client passes the client's own
      input check: with a key, a request is always sent. */
  lemma SubmittedInputIsNeverEmpty(st: AppState, apiKey: Option<string>,
                                   backend: (string, Request) -> Outcome)
    requires Truthy(apiKey)
    ensures HandleSubmit(st, apiKey, backend).Completed? ==> Plan(st.text, st.image, apiKey).Ok?
  {
  }

  /** The shell trims and the client does not: text made only of whitespace
      is refused by the shell, yet the client alone would send it. */
  lemma TrimOnlyInShell(st: AppState, apiKey: Option<string>, backend: (string, Request) -> Outcome)
    requires st.text != "" && AllWhitespace(st.text) && st.image.None?
    requires Truthy(apiKey)
    ensures HandleSubmit(st, apiKey, backend).Refused?
    ensures Plan(st.text, st.image, apiKey).Ok?
  {
  }

  /** A model answer that happens to begin with the failure prefix is shown
      as an error: the string channel cannot tell it from a real failure. */
  lemma FailureLookingAnswerShownAsError(st: AppState, apiKey: Option<string>,
                                         backend: (string, Request) -> Outcome, answer: string)
    requires !(AllWhitespace(st.text) && st.image.None?)
    requires Truthy(apiKey)
    requires backend(apiKey.value, Request(Model, BuildParts(st.text, st.image))) == Returned(answer)
    requires StartsWith(answer, "An error occurred:")
    ensures HandleSubmit(st, apiKey, backend).Completed?
    ensures HandleSubmit(st, apiKey, backend).state.error == Some(answer)
    ensures HandleSubmit(st, apiKey, backend).state.solution == None
  {
  }

  /** As written, a thrown value that is not an `Error` comes back as the
      unknown-error sentence, which lacks the failure prefix, so the shell
      files it as a solution and shows it in the solution panel. */
  lemma UnknownErrorShownAsSolution(st: AppState, apiKey: Option<string>,
                                    backend: (string, Request) -> Outcome)
    requires !(AllWhitespace(st.text) && st.image.None?)
    requires Truthy(apiKey)
    requires backend(apiKey.value, Request(Model, BuildParts(st.text, st.image))) == Threw(OtherValue)
    ensures HandleSubmit(st, apiKey, backend).Completed?
    ensures HandleSubmit(st, apiKey, backend).state.solution == Some(UnknownErrorReply)
    ensures HandleSubmit(st, apiKey, backend).state.error == None
    ensures Render(HandleSubmit(st, apiKey, backend).state) == SolutionPanel(UnknownErrorReply)
  {
    assert Attempt(st.text, st.image, apiKey, backend) == Threw(OtherValue);
    assert SolveProblem(st.text, st.image, apiKey, backend) == UnknownErrorReply;
    assert UnknownErrorReply[3] == 'u' && FailurePrefix[3] == 'e';
    assert !StartsWith(UnknownErrorReply, FailurePrefix);
  }

  /** `handleSubmit` deciding on the outcome of the solve rather than on the
      text of the reply: every failure, the non-`Error` one included, lands
      in `error`, and only a returned answer lands in `solution`. */
  function HandleSubmitTagged(st: AppState, apiKey: Option<string>, backend: (string, Request) -> Outcome): (s: Submission)
    ensures s.Refused? <==> AllWhitespace(st.text) && st.image.None?
    ensures s.Refused? ==> s.state == st.(error := Some(NoProblemError))
    ensures s.Completed? ==> s.pending == st.(error := None, loading := true, solution := None)
    ensures s.Completed? ==> s.reply == SolveProblem(st.text, st.image, apiKey, backend)
    ensures s.Completed? ==> !s.state.loading && (s.state.error.Some? != s.state.solution.Some?)
    ensures s.Completed? ==> (s.state.error == Some(s.reply) <==> Attempt(st.text, st.image, apiKey, backend).Threw?)
    ensures s.Completed? ==> (s.state.solution == Some(s.reply) <==> Attempt(st.text, st.image, apiKey, backend).Returned?)
    ensures s.Completed? && Attempt(st.text, st.image, apiKey, backend) == Threw(OtherValue)
            ==> s.state.error == Some(UnknownErrorReply)
    ensures s.Completed? ==> s.state.text == st.text && s.state.image == st.image && s.state.preview == st.preview
  {
    if Trim(st.text) == "" && st.image.None? then
      Refused(st.(error := Some(NoProblemError)))
    else
      var pending := st.(error := None, loading := true, solution := None);
      var outcome := Attempt(st.text, st.image, apiKey, backend);
      var reply := Catch(outcome);
      var answered :=
        if outcome.Threw? then pending.(error := Some(reply))
        else pending.(solution := Some(reply));
      Completed(pending, reply, answered.(loading := false))
  }

  /** With the corrected decision, a thrown non-`Error` value ends in the
      form with the unknown-error sentence as its alert, and the button stays
      enabled for another try. */
  lemma TaggedShowsUnknownErrorAsAlert(st: AppState, apiKey: Option<string>,
                                       backend: (string, Request) -> Outcome)
    requires !(AllWhitespace(st.text) && st.image.None?)
    requires Truthy(apiKey)
    requires backend(apiKey.value, Request(Model, BuildParts(st.text, st.image))) == Threw(OtherValue)
    ensures HandleSubmitTagged(st, apiKey, backend).Completed?
    ensures Render(HandleSubmitTagged(st, apiKey, backend).state) == InputForm(Some(UnknownErrorReply), false)
  {
    assert UnknownErrorReply[0] == 'A';
  }

  /** The two ways of deciding agree on a thrown `Error`. */
  lemma TaggedAgreesOnErrors(st: AppState, apiKey: Option<string>, backend: (string, Request) -> Outcome)
    requires Attempt(st.text, st.image, apiKey, backend).Threw?
    requires Attempt(st.text, st.image, apiKey, backend).thrown.ErrorObject?
    ensures HandleSubmitTagged(st, apiKey, backend) == HandleSubmit(st, apiKey, backend)
  {
    var o := Attempt(st.text, st.image, apiKey, backend);
    assert StartsWith(Catch(o), ErrorMarker);
    assert ErrorMarker[..|FailurePrefix|] == FailurePrefix;
  }

  /** The two ways of deciding also agree on a returned answer that does not
      begin with the failure prefix; so they differ only on the non-`Error`
      throw and on an answer that mimics the prefix. */
  lemma TaggedAgreesOnAnswers(st: AppState, apiKey: Option<string>, backend: (string, Request) -> Outcome)
    requires Attempt(st.text, st.image, apiKey, backend).Returned?
    requires !StartsWith(Attempt(st.text, st.image, apiKey, backend).text, "An error occurred:")
    ensures HandleSubmitTagged(st, apiKey, backend) == HandleSubmit(st, apiKey, backend)
  {
  }

  /** The question "2+2=?" answered with "**4**" ends in the solution panel,
      where the 4 is emphasised. */
  lemma BoldAnswerScenario(apiKey: Option<string>, backend: (string, Request) -> Outcome)
    requires Truthy(apiKey)
    requires backend(apiKey.value, Request(Model, BuildParts("2+2=?", None))) == Returned("**4**")
    ensures Render(HandleSubmit(Initial.(text := "2+2=?"), apiKey, backend).state) == SolutionPanel("**4**")
    ensures SolutionDisplay.FormatSolution("**4**")
         == [SolutionDisplay.Plain(""), SolutionDisplay.Strong("4"), SolutionDisplay.Plain("")]
  {
    var st := Initial.(text := "2+2=?");
    assert !IsWhitespace(st.text[0]);
    SolutionDisplay.BoldAnswerExample();
  }
}
