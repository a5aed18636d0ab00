/** The solve client of services/geminiService.ts: it checks the API key,
    assembles the ordered content parts (instruction text first, the inline
    image second), rejects a request with neither text nor image, makes one
    call to the hosted model, and flattens every outcome into one string.

    The hosted model is a parameter `backend`, the `process.env.API_KEY`
    lookup is the parameter `apiKey` (so `!API_KEY` is `!Truthy(apiKey)`),
    and an image file is given by its MIME type together with the data URL
    the browser's file reader makes of it. */
module GeminiService {
  import opened Wrappers
  import opened Strings

  /** The model identifier named in every request. */
  const Model: string := "gemini-2.5-flash"

  /** The fixed instruction placed before the user's problem. */
  const Prompt: string :=
    "You are a highly intelligent problem solver. Solve the problem described in the following text and/or image.\n"
    + "Provide a clear, step-by-step explanation if applicable.\n"
    + "Conclude with the final answer, clearly marked.\n"
    + "Format your response using Markdown for readability."

  /** What joins the instruction to the problem statement. */
  const ProblemHeading: string := "\n\nProblem: "

  /** The problem statement used when the text is empty. */
  const ImagePlaceholder: string := "See attached image."

  /** The prefix given to the message of every caught `Error`. */
  const ErrorMarker: string := "An error occurred: "

  const MissingKeyMessage: string := "API_KEY environment variable not set"
  const NoInputMessage: string := "Either text or an image must be provided."

  /** The whole reply when something other than an `Error` was thrown. It is
      written in two pieces so that the verifier sees its leading characters. */
  const UnknownErrorReply: string := "An unknown error occurred " + "while contacting the AI service."

  /** A file chosen by the user: its declared type and its `data:` URL. */
  datatype ImageFile = ImageFile(mimeType: string, dataUrl: string)

  /** One unit of the request: text, or inline data with its MIME type.
      `data` is `None` where the source would carry `undefined`. */
  datatype Part = TextPart(text: string) | InlineDataPart(mimeType: string, data: Option<string>)

  /** What is sent to the hosted model. */
  datatype Request = Request(model: string, parts: seq<Part>)

  /** A thrown value: an `Error` object with its message, or anything else. */
  datatype Thrown = ErrorObject(message: string) | OtherValue

  /** How a computation that may throw ends: a returned text or a thrown value. */
  datatype Outcome = Returned(text: string) | Threw(thrown: Thrown)

  /* ---------------------------------------------------------------------- */
  /* fileToGenerativePart                                                    */
  /* ---------------------------------------------------------------------- */

  /** The type `readAsDataURL` writes for a file whose type is empty
      (section 6.3 of the W3C File API). */
  const DefaultMediaType: string := "application/octet-stream"

  /** The data URL `FileReader.readAsDataURL` makes of a file with the given
      type and base64 payload: `data:<type>;base64,<payload>`, the form of
      section 3 of RFC 2397, with the default type standing in for an empty one. */
  function EncodedDataUrl(mimeType: string, payload: string): (url: string)
    ensures StartsWith(url, "data:")
    ensures var t := if mimeType == "" then DefaultMediaType else mimeType;
            |url| == 5 + |t| + 8 + |payload| && url[5..5 + |t|] == t
    ensures url[|url| - |payload| - 8..] == ";base64," + payload
  {
    "data:" + (if mimeType == "" then DefaultMediaType else mimeType) + ";base64," + payload
  }

  /** The characters of the base64 alphabet of section 4 of RFC 4648,
      with the pad character. */
  predicate IsBase64Char(c: char) {
    ('A' <= c <= 'Z') || ('a' <= c <= 'z') || ('0' <= c <= '9') || c == '+' || c == '/' || c == '='
  }

  predicate IsBase64(s: string) {
    forall i :: 0 <= i < |s| ==> IsBase64Char(s[i])
  }

  /** `dataUrl.split(',')[1]`: the text between the first and the second
      comma (or the end), and `None` (`undefined`) when there is no comma. */
  function DataUrlPayload(dataUrl: string): (r: Option<string>)
    ensures r.None? <==> ',' !in dataUrl
    ensures r.Some? ==> ',' !in r.value
  {
    var segments := Split(dataUrl, ",");
    SplitPartsFree(dataUrl, ",");
    if ',' !in dataUrl then SplitNoChar(dataUrl, ','); None
    else
      var k := FirstComma(dataUrl);
      SplitHeadChar(dataUrl[..k], ',', dataUrl[k + 1..]);
      assert dataUrl == dataUrl[..k] + "," + dataUrl[k + 1..];
      assert |segments| > 1;
      NoCommaInFreePart(segments[1]);
      Some(segments[1])
  }

  /** Index of the first comma in a string that has one. */
  function FirstComma(s: string): (k: nat)
    requires ',' in s
    ensures k < |s| && s[k] == ',' && ',' !in s[..k]
  {
    if s[0] == ',' then 0
    else
      var k := FirstComma(s[1..]);
      assert s[..k + 1] == [s[0]] + s[1..][..k];
      k + 1
  }

  /** A comma-free part in the sense of `Free` holds no comma character. */
  lemma NoCommaInFreePart(s: string)
    requires Free(s, ",")
    ensures ',' !in s
  {
    forall i | 0 <= i < |s|
      ensures s[i] != ','
    {
      SingleCharMatch(s, ',', i);
    }
  }

  /** A string without a comma has no payload. */
  lemma PayloadWithoutComma(a: string)
    requires ',' !in a
    ensures DataUrlPayload(a) == None
  {
  }

  /** The payload is everything after the first comma when no second comma follows. */
  lemma PayloadAfterComma(a: string, b: string)
    requires ',' !in a && ',' !in b
    ensures DataUrlPayload(a + "," + b) == Some(b)
  {
    SplitHeadChar(a, ',', b);
    SplitNoChar(b, ',');
  }

  /** A second comma cuts the payload short. */
  lemma PayloadStopsAtSecondComma(a: string, b: string, c: string)
    requires ',' !in a && ',' !in b
    ensures DataUrlPayload(a + "," + b + "," + c) == Some(b)
  {
    assert a + "," + b + "," + c == a + "," + (b + "," + c);
    SplitHeadChar(a, ',', b + "," + c);
    SplitHeadChar(b, ',', c);
  }

  /** `fileToGenerativePart` for a file whose data URL is a string. */
  function ImagePart(file: ImageFile): (p: Part)
    ensures p.InlineDataPart? && p.mimeType == file.mimeType
  {
    InlineDataPart(file.mimeType, DataUrlPayload(file.dataUrl))
  }

  /** For a file read the way the browser reads it, the image part carries
      the file's own type and exactly its base64 payload: the base64 alphabet
      has no comma, so the first comma is the one that ends the header. */
  lemma ImagePartOfEncodedFile(mimeType: string, payload: string)
    requires ',' !in mimeType
    requires IsBase64(payload)
    ensures ImagePart(ImageFile(mimeType, EncodedDataUrl(mimeType, payload)))
         == InlineDataPart(mimeType, Some(payload))
  {
    var t := if mimeType == "" then DefaultMediaType else mimeType;
    assert ',' !in DefaultMediaType by {
      forall i | 0 <= i < |DefaultMediaType|
        ensures DefaultMediaType[i] != ','
      {
      }
    }
    var header := "data:" + t + ";base64";
    assert ',' !in header by {
      forall i | 0 <= i < |header|
        ensures header[i] != ','
      {
        if 5 <= i < 5 + |t| {
          assert header[i] == t[i - 5];
        }
      }
    }
    assert ',' !in payload by {
      forall i | 0 <= i < |payload|
        ensures payload[i] != ','
      {
        assert IsBase64Char(payload[i]);
      }
    }
    assert EncodedDataUrl(mimeType, payload) == header + "," + payload;
    PayloadAfterComma(header, payload);
  }

  /* ---------------------------------------------------------------------- */
  /* solveProblem                                                            */
  /* ---------------------------------------------------------------------- */

  /** The text of the first part: the instruction, then the problem, with the
      placeholder standing in for an empty text. */
  function ProblemText(text: string): (r: string)
    ensures StartsWith(r, Prompt + ProblemHeading)
  {
    Prompt + ProblemHeading + (if text == "" then ImagePlaceholder else text)
  }

  /** The problem statement can be read back from the text part. */
  lemma ProblemTextReadBack(text: string)
    ensures ProblemText(text)[|Prompt + ProblemHeading|..]
         == (if text == "" then ImagePlaceholder else text)
  {
  }

  /** Different non-empty texts give different text parts. */
  lemma ProblemTextInjective(a: string, b: string)
    requires a != "" && b != ""
    requires ProblemText(a) == ProblemText(b)
    ensures a == b
  {
    ProblemTextReadBack(a);
    ProblemTextReadBack(b);
  }

  /** An empty text and a text that spells the placeholder give the same
      text part: the model cannot tell them apart. */
  lemma PlaceholderIndistinguishable()
    ensures ProblemText("") == ProblemText("See attached image.")
  {
  }

  /** The ordered content parts: the text part, then the image part if there
      is an image. */
  function BuildParts(text: string, image: Option<ImageFile>): (parts: seq<Part>)
    ensures |parts| == (if image.Some? then 2 else 1)
    ensures parts[0] == TextPart(ProblemText(text))
    ensures image.Some? ==> parts[1] == ImagePart(image.value)
    ensures forall k :: 0 <= k < |parts| ==> (parts[k].TextPart? <==> k == 0)
  {
    [TextPart(ProblemText(text))] + (if image.Some? then [ImagePart(image.value)] else [])
  }

  /** The `try` block of `solveProblem` up to the model call: either the
      request that is sent, or the `Error` thrown before anything is sent. */
  function Plan(text: string, image: Option<ImageFile>, apiKey: Option<string>): (r: Result<Request, Thrown>)
    ensures r.Ok? <==> Truthy(apiKey) && (text != "" || image.Some?)
    ensures !Truthy(apiKey) ==> r == Err(ErrorObject("API_KEY environment variable not set"))
    ensures Truthy(apiKey) && text == "" && image.None?
            ==> r == Err(ErrorObject("Either text or an image must be provided."))
    ensures r.Ok? ==> r.value.model == "gemini-2.5-flash" && r.value.parts == BuildParts(text, image)
  {
    if !Truthy(apiKey) then Err(ErrorObject(MissingKeyMessage))
    else
      // The parts are assembled before the input is validated.
      var parts := BuildParts(text, image);
      if text == "" && image.None? then Err(ErrorObject(NoInputMessage))
      else Ok(Request(Model, parts))
  }

  /** The whole `try` block: the planned request, if any, handed to the backend. */
  function Attempt(text: string, image: Option<ImageFile>, apiKey: Option<string>,
                   backend: (string, Request) -> Outcome): (o: Outcome)
    ensures !Truthy(apiKey) ==> o == Threw(ErrorObject(MissingKeyMessage))
    ensures Truthy(apiKey) && text == "" && image.None? ==> o == Threw(ErrorObject(NoInputMessage))
    ensures Truthy(apiKey) && (text != "" || image.Some?)
            ==> o == backend(apiKey.value, Request(Model, BuildParts(text, image)))
  {
    match Plan(text, image, apiKey)
    case Err(e) => Threw(e)
    case Ok(request) => backend(apiKey.value, request)
  }

  /** The `catch` block: a returned text passes through unchanged, an `Error`
      becomes its message behind the marker, anything else a fixed sentence. */
  function Catch(o: Outcome): (reply: string)
    ensures o.Returned? ==> reply == o.text
    ensures o.Threw? && o.thrown.ErrorObject? ==> StartsWith(reply, "An error occurred: ")
    ensures o == Threw(OtherValue) ==> !StartsWith(reply, "An error occurred:")
  {
    match o
    case Returned(t) => t
    case Threw(ErrorObject(m)) => ErrorMarker + m
    case Threw(OtherValue) =>
      assert UnknownErrorReply[3] == 'u' && "An error occurred:"[3] == 'e';
      UnknownErrorReply
  }

  /** The message of a caught `Error` can be read back from the reply. */
  lemma CaughtMessageReadBack(m: string)
    ensures Catch(Threw(ErrorObject(m)))[|ErrorMarker|..] == m
  {
  }

  /** `solveProblem`: always a string, never an exception. */
  function SolveProblem(text: string, image: Option<ImageFile>, apiKey: Option<string>,
                        backend: (string, Request) -> Outcome): (reply: string)
    ensures !Truthy(apiKey) ==> reply == ErrorMarker + MissingKeyMessage
    ensures Truthy(apiKey) && text == "" && image.None?
            ==> reply == ErrorMarker + NoInputMessage
    ensures Truthy(apiKey) && (text != "" || image.Some?)
            ==> reply == Catch(backend(apiKey.value, Request("gemini-2.5-flash", BuildParts(text, image))))
  {
    Catch(Attempt(text, image, apiKey, backend))
  }

  /** Without a key the reply ignores the input and the backend entirely. */
  lemma MissingKeyIgnoresEverything(text1: string, image1: Option<ImageFile>, backend1: (string, Request) -> Outcome,
                                    text2: string, image2: Option<ImageFile>, backend2: (string, Request) -> Outcome,
                                    apiKey: Option<string>)
    requires !Truthy(apiKey)
    ensures Plan(text1, image1, apiKey).Err?
    ensures SolveProblem(text1, image1, apiKey, backend1) == SolveProblem(text2, image2, apiKey, backend2)
  {
  }

  /** With neither text nor image nothing is sent, whatever the backend. */
  lemma EmptyInputNotSent(apiKey: Option<string>, backend1: (string, Request) -> Outcome,
                          backend2: (string, Request) -> Outcome)
    ensures Plan("", None, apiKey).Err?
    ensures SolveProblem("", None, apiKey, backend1) == SolveProblem("", None, apiKey, backend2)
  {
  }

  /** The service does not trim: text made only of whitespace is sent. */
  lemma WhitespaceTextIsSent(text: string, apiKey: Option<string>)
    requires text != "" && AllWhitespace(text)
    requires Truthy(apiKey)
    ensures Plan(text, None, apiKey).Ok?
  {
  }

  /** A successful call's text is the reply, unchanged. */
  lemma SuccessPassesThrough(text: string, image: Option<ImageFile>, apiKey: Option<string>,
                             backend: (string, Request) -> Outcome)
    requires Plan(text, image, apiKey).Ok?
    requires backend(apiKey.value, Plan(text, image, apiKey).value).Returned?
    ensures SolveProblem(text, image, apiKey, backend)
         == backend(apiKey.value, Plan(text, image, apiKey).value).text
  {
  }

  /** Every failure of the call is flattened: an `Error` with message `m`
      into the marker followed by `m`, anything else into the fixed sentence. */
  lemma FailuresFlattened(text: string, image: Option<ImageFile>, apiKey: Option<string>,
                          backend: (string, Request) -> Outcome)
    requires Plan(text, image, apiKey).Ok?
    requires backend(apiKey.value, Plan(text, image, apiKey).value).Threw?
    ensures var t := backend(apiKey.value, Plan(text, image, apiKey).value).thrown;
            SolveProblem(text, image, apiKey, backend)
            == if t.ErrorObject? then "An error occurred: " + t.message
               else UnknownErrorReply
  {
  }
}
