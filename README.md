# Smart email assistant: a Dafny model

The system drafts replies to an email. A React form collects the email
text and an optional tone and posts them to a Spring service. The service
builds a prompt, asks the Gemini model for three replies, and removes the
Markdown code fence the model tends to put around its JSON answer. It then
turns the answer into a list of replies. When the remote call fails it
falls back to three fixed replies. The form fills the `[Your Name]`
placeholder with the sender's name, shows the replies and lets the user
copy one to the clipboard.

The project has five modules:

- `Wrappers` holds `Option`.
- `Strings` has substring predicates: `OccursAt`, `Contains` and `StartsWith`.
- `JavaString` models Java's `String.trim`, `indexOf` and `lastIndexOf(String)`.
  `indexOf` is given for one character, which is how the service calls it: with the one-character string `"\n"`, where it agrees with `indexOf(char)`.
  Java's `trim` removes every character up to U+0020.
- `EmailGeneratorService` models the service: `buildPrompt`, the fence
  stripping, `extractTextReplies`, the fallback in
  `generateEmailReplyOptions` and `getMockReplies`.
- `App` models the form.
  - The placeholder replacement, and the string-or-array normalisation of the answer.
  - The component state as a class `AppState`. Its `handleSubmit` is split at the `await`:
    `StartSubmit` runs before the answer arrives and `Finish` after it.
  - `copyToClipboard` as a log of effects: clipboard writes and alerts.

The following are parameters of the operations instead of being modelled.

- The Jackson JSON library is a pair of functions: `candidateText` reads the
  response and follows `candidates[0].content.parts[0].text`, and `readTree`
  parses the stripped text. Each either returns a value or throws.
- The call to Gemini is a function from the prompt to an outcome: a body,
  an HTTP error status, or any other exception.
- In the form, the POST is given by its outcome: resolved with a body, or rejected.

A Java `null` string is `None`. Java writes it as the four letters `null`
when a string is concatenated or appended.

The service declares its answer as `List<String>`, so the form normally
receives an array of strings. In `App.jsx` an element that is not a string
has no `replace`, so `map` throws a `TypeError` and the `catch` branch shows
the failure message. The model follows the code: `ReplaceEach` gives `None`
for such an array, and `Finish` then sets the error message.

## Model

Two functions define the model and carry no contract of their own; the
lemmas in the table fix them. `App.ReplacePlaceholder` is the `/\[Your Name\]/g`
replacement: it is the identity on text without the placeholder
(`ReplaceWithoutPlaceholder`), turns each placeholder into the name with the
text on either side replaced on its own (`ReplaceAround`), and leaves no
placeholder (`ReplaceRemovesPlaceholder`). `EmailGeneratorService.StripCodeFence`
is the fence stripping of `EmailGeneratorService.java` lines 73-82: its result is always a substring of
the model's text (`StripCodeFenceIsSubstring`), a fenced body comes back
trimmed (`FencedRoundTrip`), and the one-line and unclosed cases have lemmas
of their own.

| member | source | states |
|---|---|---|
| App.ReplaceRemovesPlaceholder | frontend/src/App.jsx:32-33 | after the global replacement the placeholder `[Your Name]` occurs nowhere in the reply |
| App.ReplaceWithoutPlaceholder | frontend/src/App.jsx:32-33 | a reply without the placeholder is left unchanged |
| App.ReplaceAround | frontend/src/App.jsx:32-33 | each placeholder becomes `Sharanya`, and the text on either side of it is replaced independently |
| App.FillClosingName | frontend/src/App.jsx:33 | a reply that ends in the placeholder, with none before it, ends in the sender's name instead |
| App.ClosingPlaceholder | frontend/src/App.jsx:32-33 | a closing placeholder becomes the name after the replaced earlier text, whatever that text holds |
| App.ScalarFillsName | frontend/src/App.jsx:33 | any non-array answer ending in the placeholder becomes exactly one reply: its earlier text with every placeholder replaced, then the name |
| App.ArrayOfFilledReplies | frontend/src/App.jsx:31-32 | an array answer of any number of placeholder-free strings is shown as exactly those strings, one reply per element, in order |
| App.ReplaceEach | frontend/src/App.jsx:31-32 | the mapped list exists exactly when every element is a string; it then has one entry per element, in order, each with the placeholder replaced |
| App.NormalizeReplies | frontend/src/App.jsx:30-33 | a non-array answer gives exactly one reply, `String(data)` with the placeholder replaced; an array answer gives the element-wise result of `ReplaceEach` |
| App.NormalizedRepliesAreFilledIn | frontend/src/App.jsx:31-35 | no reply that is stored for display contains the placeholder |
| App.AppState.constructor | frontend/src/App.jsx:10-14 | the initial state: empty content, tone, replies and error, not loading, no request sent |
| App.AppState.SetEmailContent | frontend/src/App.jsx:93 | typing sets the email content and nothing else, keeping the state invariant |
| App.AppState.SetTone | frontend/src/App.jsx:109 | choosing a tone sets the tone and nothing else, keeping the state invariant |
| App.AppState.StartSubmit | frontend/src/App.jsx:16-28 | blank content (by JavaScript `trim`) changes nothing and sends nothing; otherwise loading starts, error and replies are cleared, and exactly one POST with the content and the tone is issued |
| App.AppState.Finish | frontend/src/App.jsx:30-42 | on success the replies are the normalised answer and no error is shown; on rejection or a throwing `map` there are no replies and the error is the fixed failure message; loading always stops; the invariant holds (no placeholder on screen, never replies and error together, nothing shown while loading) |
| App.AppState.HandleSubmit | frontend/src/App.jsx:16-43 | the whole submission: a no-op for blank content; otherwise one POST and then the success or failure state of `Finish` |
| App.CopyToClipboard | frontend/src/App.jsx:45-52 | a truthy text is written to the clipboard exactly once, and a falsy one never; the only alert is the last effect, saying which case happened |
| EmailGeneratorService.BuildPrompt | src/main/java/com/email/writer/app/EmailGeneratorService.java:100-111 | the appended builder contents equal the prompt: the four instruction sentences, the tone sentence when the tone is neither null nor empty, the header, and the email (`null` written as "null") |
| EmailGeneratorService.PromptLayout | src/main/java/com/email/writer/app/EmailGeneratorService.java:100-111 | the prompt starts with the instructions and ends with the header and the email; the part between them is exactly the tone sentence; a tone sentence appears if and only if a non-empty tone was given |
| EmailGeneratorService.UnfencedIsTrimmed | src/main/java/com/email/writer/app/EmailGeneratorService.java:74-75 | text that does not start with a fence once trimmed is only trimmed |
| EmailGeneratorService.StripCodeFenceIsSubstring | src/main/java/com/email/writer/app/EmailGeneratorService.java:73-82 | whatever is stripped, the text handed to the parser is a substring of the model's text, so it is never longer |
| EmailGeneratorService.FencedRoundTrip | src/main/java/com/email/writer/app/EmailGeneratorService.java:73-82 | a body between a tagged opening fence line and a closing fence, padded with white space, comes back as exactly the trimmed body |
| EmailGeneratorService.FencedBlock | src/main/java/com/email/writer/app/EmailGeneratorService.java:75-81 | the same round trip without padding |
| EmailGeneratorService.SingleLineKeepsOpeningFence | src/main/java/com/email/writer/app/EmailGeneratorService.java:76-77 | a fenced block on a single line has no line break, so nothing is skipped and the parser still sees the opening fence |
| EmailGeneratorService.OpeningFenceOnly | src/main/java/com/email/writer/app/EmailGeneratorService.java:75-81 | an unclosed one-line fence whose tag holds no backtick, including a bare "```" and a tag with trailing white space, is cut at its own opening fence and leaves the empty text |
| EmailGeneratorService.UnclosedFenceKeepsBody | src/main/java/com/email/writer/app/EmailGeneratorService.java:75-79 | a fence line followed by a body that contains no fence and ends in a character above U+0020 leaves exactly that body; its leading white space is not trimmed again |
| EmailGeneratorService.StripMarkdownFence | src/main/java/com/email/writer/app/EmailGeneratorService.java:73-82 | the step-by-step reassignment of `rawText` computes the stripped text |
| EmailGeneratorService.ExtractTextReplies | src/main/java/com/email/writer/app/EmailGeneratorService.java:66-98 | the loop over the parsed array collects exactly the replies of the extraction function |
| EmailGeneratorService.ExtractionErrorReply | src/main/java/com/email/writer/app/EmailGeneratorService.java:93-95 | an exception while reading or parsing gives exactly one reply, starting with "Error parsing Gemini response: " |
| EmailGeneratorService.ParsedReplies | src/main/java/com/email/writer/app/EmailGeneratorService.java:84-91 | a parsed array gives one reply per element, in order; any other parsed value gives the stripped text as the single reply, which is a substring of the model's text |
| EmailGeneratorService.FencedArrayReplies | src/main/java/com/email/writer/app/EmailGeneratorService.java:71-91 | end to end: a fenced JSON array in the model's text gives its elements as the replies |
| EmailGeneratorService.GenerateEmailReplyOptions | src/main/java/com/email/writer/app/EmailGeneratorService.java:33-64 | the prompt sent is the built prompt; a response body gives the extracted replies; an HTTP error status or any other exception gives the three mock replies of `getMockReplies` (lines 113-118) |
| JavaString.Trim | src/main/java/com/email/writer/app/EmailGeneratorService.java:74 | `trim` returns the substring that starts after the leading characters up to U+0020, and it has no such character at either end |
| JavaString.TrimUnchanged | src/main/java/com/email/writer/app/EmailGeneratorService.java:74 | text with no trimmable character at either end is returned unchanged |
| JavaString.IndexOf | src/main/java/com/email/writer/app/EmailGeneratorService.java:76 | `indexOf("\n")`, a one-character pattern and so the same as searching for that character, gives the first position of the character, or -1 exactly when the character does not occur |
| JavaString.LastIndexOf | src/main/java/com/email/writer/app/EmailGeneratorService.java:78 | `lastIndexOf` gives the position of the last occurrence of the fence, or -1 when there is none |

## Left out

- The HTTP transport is not modelled: the Gemini URL and API key (`getGeminiUrl`, lines 29-31), the request body map (36-42) and the `WebClient` call. The call is a parameter, and only its three kinds of outcome matter.
- Logging is not modelled: `System.out.println`, `printStackTrace` and `console.log`/`console.error`. These write only to the console.
- Jackson's parsing and tree navigation are abstract functions. Only how the service uses their results and exceptions is modelled.
- `EmailGeneratorController.java` is not part of this model. It only forwards the request body to the service and wraps the list in an HTTP 200 response.
- `String(data)` for a non-array answer is given as the text it yields (`JsScalar.asString`). JavaScript's conversion of arbitrary values is not modelled.
- App.AppState.HandleSubmit: the model covers one submission whose answer arrives before the next event. Overlapping submissions and the interleaving of `await` with typing are not modelled, since JavaScript's event loop is not part of it.
- Rendering and styling of the form are not modelled. This includes the disabled state of the button (`!emailContent || loading`, line 125), the "No content generated." text for an empty reply (line 191) and the copy buttons (line 207). These only display state.
- The clipboard write is not awaited in the source. Its promise is not modelled, and the effect log records the order of the calls.
