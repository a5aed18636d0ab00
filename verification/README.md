# Universal Solver — a Dafny model of its core

Universal Solver is a single-page application. The user types a problem, attaches an
image, or does both. The application sends this to a hosted generative model and shows
the answer, with `**…**` spans rendered in bold.

This project models the three pieces that decide what is sent and what is shown:

- **`GeminiService`** (`gemini_service.dfy`) models the solve client `solveProblem`
  and `fileToGenerativePart`. In order, it models:
  - the API-key check, where a missing key and an empty key both count as unset;
  - the ordered content parts, with the instruction text first and the inline image second;
  - the "neither text nor image" rejection, which comes after the parts are assembled;
  - the single call to the model `gemini-2.5-flash`;
  - the `catch` block, which turns every outcome into one string.

  The hosted model is a function parameter `backend` from the key and the request to an
  `Outcome`, meaning either a returned text or a thrown value. The environment variable
  is a parameter `apiKey`. An image file is its MIME type together with the `data:` URL
  the browser's file reader produces for it.
- **`SolutionDisplay`** (`solution_display.dfy`) models `formatSolution`. It splits the
  text on `**` and alternates plain and emphasised segments.
- **`App`** (`app.dfy`) models the shell's form state and the transitions that
  `handleFile`, `handleRemoveImage`, `handleSubmit` and `handleReset` perform on it. It
  also models the `isSubmitDisabled` flag and the priority order of `renderContent`:
  spinner, then solution panel, then the input form with its alert.

Two supporting modules hold the JavaScript semantics the code relies on:

- **`Strings`** (`strings.dfy`) covers `split` with a non-empty string separator, `join`,
  `startsWith` and `trim`. Whitespace means the ECMAScript WhiteSpace and LineTerminator
  code points. The module also has independent reference definitions: a greedy
  occurrence count, delimiter removal, and a uniqueness characterisation of `split` as
  the only "leftmost" cut.
- **`Wrappers`** (`wrappers.dfy`) provides `Option`, used for `null`/`undefined`, and `Result`.

## Model

| member | source | states |
|---|---|---|
| Strings.IndexOf | services/geminiService.ts:11 | The index found is an occurrence at or after the start, and no earlier occurrence exists. |
| Strings.Split | components/SolutionDisplay.tsx:13 | `split` always yields at least one part. |
| Strings.JoinSplit | components/SolutionDisplay.tsx:13 | Round trip: joining the parts of `split(sep)` with `sep` gives back the input. |
| Strings.SplitPartsFree | components/SolutionDisplay.tsx:13 | No part of a split contains the separator. |
| Strings.SplitLength | components/SolutionDisplay.tsx:13 | There is one more part than there are non-overlapping occurrences, counted greedily from the left. |
| Strings.ConcatSplit | components/SolutionDisplay.tsx:13 | Concatenating the parts gives the input with every occurrence of the separator deleted. |
| Strings.SplitIsLeftmost | components/SolutionDisplay.tsx:13 | `split` cuts at leftmost occurrences: each part but the last, followed by the separator, has no earlier occurrence. |
| Strings.LeftmostIsSplit | components/SolutionDisplay.tsx:13 | Any cut made at leftmost occurrences is exactly the split, so the split is the unique such cut. |
| Strings.SplitAround | components/SolutionDisplay.tsx:13 | Splitting `a + sep + b` when the first cut falls after `a` gives `a` followed by the split of `b`. |
| Strings.SplitFree | components/SolutionDisplay.tsx:13 | A string without the separator splits into itself alone. |
| Strings.SplitHeadChar | services/geminiService.ts:11 | On a one-character separator absent from `a`, `a + c + rest` splits into `a` followed by the split of `rest`. |
| Strings.SplitNoChar | services/geminiService.ts:11 | A string without the character splits on it into itself alone. |
| Strings.TrimStart | App.tsx:72 | The result is a suffix of the input, everything removed is whitespace, and the result does not start with whitespace. |
| Strings.TrimEnd | App.tsx:72 | The result is a prefix of the input, everything removed is whitespace, and the result does not end with whitespace. |
| Strings.Trim | App.tsx:72 | `trim()` is a contiguous piece of the input with only whitespace before and after it. It is empty exactly when every character is whitespace; otherwise neither end of the result is whitespace. |
| Strings.Truthy | services/geminiService.ts:36 | A nullable string is falsy exactly when it is `null`/`undefined` or empty: so `!API_KEY` holds for a missing and for an empty key, and `if (solution)` and `error &&` (App.tsx:115, 126) skip an empty string. |
| Strings.StartsWith | App.tsx:18 | `startsWith` holds exactly when the prefix fits and agrees with the string character by character; the string is then the prefix followed by the rest. |
| Strings.WhitespaceBounds | App.tsx:72 | The code points `trim` strips: space, tab, line feed and carriage return are among them; no printable ASCII character and nothing above U+3000 except U+FEFF is. |
| GeminiService.EncodedDataUrl | services/geminiService.ts:23 | The data URL the reader makes is `data:`, then the type, then `;base64,` and the payload; an empty type is written as `application/octet-stream`. |
| GeminiService.DataUrlPayload | services/geminiService.ts:11 | `split(',')[1]` is undefined exactly when there is no comma; when defined it holds no comma. |
| GeminiService.PayloadWithoutComma | services/geminiService.ts:11 | A string without a comma has no payload (`undefined`). |
| GeminiService.PayloadAfterComma | services/geminiService.ts:11 | With a single comma, the payload is everything after it. |
| GeminiService.PayloadStopsAtSecondComma | services/geminiService.ts:11 | A second comma cuts the payload short: only the text between the first two commas is kept. |
| GeminiService.ImagePart | services/geminiService.ts:25-30 | The image part is inline data carrying the file's own MIME type. |
| GeminiService.ImagePartOfEncodedFile | services/geminiService.ts:6-31 | For a file read as `data:<type>;base64,<payload>` with a comma-free type, the part carries exactly the base64 payload. |
| GeminiService.ProblemText | services/geminiService.ts:41-48 | The text part always begins with the fixed instruction followed by the problem heading. |
| GeminiService.ProblemTextReadBack | services/geminiService.ts:48 | What follows the heading is the user's text, or the image placeholder when the text is empty. |
| GeminiService.ProblemTextInjective | services/geminiService.ts:48 | Different non-empty texts produce different text parts. |
| GeminiService.PlaceholderIndistinguishable | services/geminiService.ts:48 | An empty text and the literal placeholder sentence produce the same text part. |
| GeminiService.BuildParts | services/geminiService.ts:46-54 | There is one part without an image and two with one; the text part comes first and is the only text part, and the image part comes second. |
| GeminiService.Plan | services/geminiService.ts:35-58 | A request is produced exactly when the key is set and there is text or an image. A missing key throws the key error; otherwise no input throws the input error. A request names `gemini-2.5-flash` and carries the built parts. |
| GeminiService.Attempt | services/geminiService.ts:34-65 | Without a key, the key error is thrown. With a key but neither text nor image, the no-input error is thrown. Otherwise the outcome is the backend's on the key and a `gemini-2.5-flash` request with the built parts. |
| GeminiService.Catch | services/geminiService.ts:65-72 | A returned text passes through unchanged, a thrown `Error` becomes a reply that starts with "An error occurred: ", and any other thrown value gives a reply without that prefix. |
| GeminiService.CaughtMessageReadBack | services/geminiService.ts:68-70 | The message of a caught `Error` can be read back after the marker. |
| GeminiService.SolveProblem | services/geminiService.ts:33-73 | The reply without a key, the reply with no input, and otherwise the caught outcome of exactly one backend call on the built request. |
| GeminiService.MissingKeyIgnoresEverything | services/geminiService.ts:35-38 | Without a key nothing is sent, and the reply is the same for every text, image and backend. |
| GeminiService.EmptyInputNotSent | services/geminiService.ts:56-58 | With neither text nor image nothing is sent, and the reply does not depend on the backend. |
| GeminiService.WhitespaceTextIsSent | services/geminiService.ts:56 | The service does not trim: a non-empty text made only of whitespace is sent. |
| GeminiService.SuccessPassesThrough | services/geminiService.ts:60-65 | A successful call's text is the reply, unchanged. |
| GeminiService.FailuresFlattened | services/geminiService.ts:66-72 | A failed call becomes the marker plus the message for an `Error`, and the fixed unknown-error sentence otherwise. |
| SolutionDisplay.FormatSolution | components/SolutionDisplay.tsx:11-15 | Segments alternate, starting plain, so odd indices are exactly the emphasised ones; their texts are the split of the solution on `**`. |
| SolutionDisplay.SegmentCount | components/SolutionDisplay.tsx:12-13 | There is one more segment than there are non-overlapping `**`. |
| SolutionDisplay.SegmentsSpellSolution | components/SolutionDisplay.tsx:12-14 | Reading the segments in order gives the solution with every `**` removed. |
| SolutionDisplay.SegmentsRejoin | components/SolutionDisplay.tsx:12-14 | Putting `**` back between the segments restores the solution. |
| SolutionDisplay.SegmentsHaveNoDelimiter | components/SolutionDisplay.tsx:12-14 | No segment contains `**`, and each segment before the last is cut at the leftmost delimiter. |
| SolutionDisplay.FormatUnique | components/SolutionDisplay.tsx:11-15 | Any alternating plain/emphasised cut made at leftmost delimiters equals the formatted solution. |
| SolutionDisplay.NoDelimiterIsPlain | components/SolutionDisplay.tsx:12-14 | Text without `**` is shown as one plain segment. |
| SolutionDisplay.UnbalancedTailIsStrong | components/SolutionDisplay.tsx:14 | With an odd number of `**`, the trailing segment is still emphasised. |
| SolutionDisplay.UnbalancedExample | components/SolutionDisplay.tsx:11-15 | "a**b" becomes plain "a" followed by emphasised "b". |
| SolutionDisplay.SplitFourBold | components/SolutionDisplay.tsx:13 | "4**" splits into "4" and "". |
| SolutionDisplay.BoldAnswerExample | components/SolutionDisplay.tsx:11-15 | "**4**" becomes an empty plain segment, the emphasised "4", and an empty plain segment. |
| App.HandleFile | App.tsx:17-28 | An `image/` file becomes the image, with its data URL as the preview, and the error is cleared. Any other file sets the upload error and leaves the image and preview alone. Text, solution and loading never change. |
| App.HandleRemoveImage | App.tsx:37-43 | Image and preview are cleared; nothing else changes. |
| App.HandleReset | App.tsx:94-101 | Every field is back to empty or false. |
| App.IsSubmitDisabled | App.tsx:103 | Submitting is disabled exactly while loading, or when the text is all whitespace and there is no image. |
| App.HandleSubmit | App.tsx:71-92 | A press is refused, setting only the prompt error, exactly when the text is all whitespace and there is no image. Otherwise the pending state clears error and solution and sets loading. The reply is the solve client's, on the current text and image. It lands in `error` exactly when it starts with "An error occurred:", and in `solution` otherwise. Loading ends, and text, image and preview are kept. |
| App.Render | App.tsx:105-119 | The spinner shows exactly while loading. The solution panel shows exactly when not loading and the solution is truthy. Otherwise the form shows, with an alert exactly when the error is truthy, and its button disabled exactly when there is nothing to solve. |
| App.ResetIsStartup | App.tsx:94-101 | Reset returns exactly to the start-up state, whose view is the empty form with submitting disabled. |
| App.RemoveUndoesFile | App.tsx:17-43 | Taking an image and then removing it leaves what removing alone would, with the error cleared. |
| App.ImageEnablesSubmit | App.tsx:17-28 | After an image is taken, submitting is disabled only while loading. |
| App.RefusedExactlyWhenNothingToSolve | App.tsx:72-75 | Pressing an enabled button is never refused, and a refused press happened on a disabled button. |
| App.SubmissionViews | App.tsx:71-119 | A submission shows the spinner while pending. Afterwards it shows an alert for a failure-prefixed reply, the solution panel for any other non-empty reply, and the bare form for an empty reply. |
| App.RefusedShowsPrompt | App.tsx:72-75 | A refused press on the form shows the "provide a problem" alert with submitting disabled. |
| App.SubmittedInputIsNeverEmpty | App.tsx:72-83 | Every submission the shell lets through passes the service's own input check, so with a key a request is always sent. |
| App.TrimOnlyInShell | App.tsx:72 | Whitespace-only text is refused by the shell, although the service alone would send it. |
| App.FailureLookingAnswerShownAsError | App.tsx:85-89 | A model answer that begins with the failure prefix is shown as an error, not as a solution. |
| App.UnknownErrorShownAsSolution | App.tsx:85-89 | As written, a thrown non-`Error` value yields the unknown-error sentence, which is filed and shown as a solution. |
| App.HandleSubmitTagged | App.tsx:71-92 | Corrected submit. The reply is stored in `error` exactly when the attempt threw, the non-`Error` case included, and in `solution` exactly when it returned an answer. Refusal, the pending state, the reply and the kept fields are as in `handleSubmit`. |
| App.TaggedShowsUnknownErrorAsAlert | App.tsx:85-89 | With the corrected decision, a thrown non-`Error` value ends in the form with the unknown-error sentence as its alert and submitting enabled. |
| App.TaggedAgreesOnErrors | App.tsx:85-89 | For a thrown `Error`, the corrected and the as-written submit behave identically. |
| App.TaggedAgreesOnAnswers | App.tsx:85-89 | For a returned answer without the failure prefix, the corrected and the as-written submit behave identically. |
| App.BoldAnswerScenario | App.tsx:105-119 | The question "2+2=?" answered with "**4**" ends in the solution panel, with the 4 emphasised. |

## Left out

- The non-string branch of `fileToGenerativePart` (services/geminiService.ts:13-20) is left out. A successful `readAsDataURL` always yields a string. When the read fails or is aborted, `onloadend` still fires with a `null` result and this branch runs: it encodes zero bytes and sends an image part whose data is the empty string. The model covers only successful reads.
- Base64 encoding is left out: the payload is taken as given. Modelling the codec round trip would only restate RFC 4648.
- `FileReader` is asynchronous, but `handleFile` sets the preview in the same step as the image. The interleaving of the read with later events is not modelled.
- The await inside `handleSubmit` is modelled as a pending state followed by a completed state. Other events that could interleave between the two are not modelled.
- `handleFileChange`, `handleDrop` and the drag handlers, together with the `isDragging` flag, are left out. They only forward the first file to `handleFile` or toggle a visual highlight.
- JSX markup, styling and the `Icon`/`Spinner` components are left out: they do not decide what is shown.
- `console.error` logging is left out because it has no effect on state.
- The `useCallback` dependency list is left out: it only affects memoisation.
- The `GoogleGenAI` client construction is folded into the `backend` parameter, and so is the network call with its latency and failure modes.
- `response.text` is taken to be a string. The SDK may return `undefined`. `solveProblem` then returns `undefined`, and `result.startsWith` (App.tsx:85) throws inside `handleSubmit`. `setIsLoading(false)` (App.tsx:91) never runs, so the spinner stays up. The model does not cover this path.
- Strings are sequences of Unicode scalar values, not UTF-16 code units. Surrogate pairs are not modelled.
- The environment lookup `process.env.API_KEY` becomes the `apiKey` parameter.

## Findings

| source | as written | input that shows it | evidently intended | confidence | as-written member | corrected member |
|---|---|---|---|---|---|---|
| services/geminiService.ts:71 with App.tsx:85-89 | A thrown value that is not an `Error` is caught as "An unknown error occurred while contacting the AI service.". That sentence lacks the "An error occurred:" prefix the shell tests for, so the shell stores it as the solution and shows it in the solution panel. | key set, text "x", backend throws a non-`Error` value | The failure is shown as an error alert, like every other failed call. | not executed | App.UnknownErrorShownAsSolution | App.HandleSubmitTagged |
