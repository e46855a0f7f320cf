# Tech Stack Referee — a verified model of its core

Tech Stack Referee compares two technologies for a user. A React frontend
collects the question, either through a guided form or a free chat. A
Python backend passes the question to the `kiro-cli` agent and returns the
agent's markdown, which the frontend splits into a summary card and one
card per `## ` section. This project models, in Dafny, the logic that sits
between those I/O edges:

- **ComparisonResult** (`comparison_result.dfy`) models the markdown section splitter `parseComparison`:
  - the split on the literal `"\n## "`;
  - the title-strip regular expression `^#\s+.*\n\n?`, with its backtracking;
  - the section records and the recommendation test;
  - the success gate and the cards the result view shows.
- **KiroService** (`kiro_service.dfy`) models the backend service:
  - `build_query`;
  - `clean_output`, i.e. ANSI and banner deletion followed by whitespace normalisation;
  - the success/failure classification of `call_agent`.
- **ComparisonForm** (`comparison_form.dfy`) models the guided form: the category reset, the option-2 filter, and the submit handler that builds the query and the context or rejects the form.
- **ChatInterface** (`chat_interface.dfy`) is the chat log as a class:
  - a message list that only grows while the chat is shown;
  - the input and loading guard;
  - the suggestion click, the Enter key and the suggestion chips.
- **App** (`app.dfy`) is the top-level view state as a class: the mode, the comparison, the loading flag and the error. It covers the handlers the form calls and the render guards.
- **Text** (`text.dfy`) holds the string operations the source uses:
  - `split` and `join`;
  - JavaScript `trim` and Python `strip` with their own whitespace sets;
  - `includes` and `in`;
  - ASCII lower-casing;
  - the decimal text of an integer.
- **Models** (`models.dfy`) holds the request and response records and the truthiness of optional values.
- **Wrappers** (`wrappers.dfy`) holds `Option`.

Where the source mutates a variable in a loop or step by step, the model
does the same, in a method with the same steps:

- `ParseComparison` and `ParseSections`;
- `BuildQuery`;
- `HandleSubmit`;
- the methods of the `Chat` and `AppState` classes.

`ParseComparison`, `ParseSections`, `BuildQuery` and `HandleSubmit` are
each proved equal to a function that states their result, and the
properties are then proved about that function. The methods of `Chat`
and `AppState` instead state their new state directly, in terms of the
old one, and keep the class invariant.

Three behaviours of the code that a reader might not expect:

- **A leading `## `.** A document that starts with `"## X\n..."` has no newline before that header, so the split on `"\n## "` finds no boundary there. The header stays in the summary, and the title strip leaves it in place, because `#` must be followed by white space. `LeadingHeaderInSummary` states this outcome.
- **Which title is classified.** The code tests the untrimmed first line for the recommendation phrases, not the trimmed title. `RecommendationMatchesTitle` proves that the two tests always agree, because every phrase begins and ends with a letter.
- **The round trip is exact.** Joining the split parts with `"\n## "` gives the input back character for character (`Text.JoinSplit`). Conversely, parsing a join of header-free chunks gives the first chunk's summary and one section per later chunk (`ComparisonResult.ParseOfChunks`).

## Model

| member | source | states |
|---|---|---|
| Text.JoinSplit | frontend/src/components/ComparisonResult.jsx:22 | joining the parts of a split with the delimiter gives back the input exactly |
| Text.Join | frontend/src/components/ComparisonResult.jsx:32 | the joined text starts with the first part; `Split` with the same delimiter undoes it (`JoinSplit`, `SplitJoin`) |
| Text.Contains | frontend/src/components/ComparisonResult.jsx:37-39 | a contained string is no longer than the text, and the empty string is contained in every text |
| Text.ContainsIffOccurs | frontend/src/components/ComparisonResult.jsx:37-39 | the scanning test holds exactly when the string occurs at some index |
| Text.Split | frontend/src/components/ComparisonResult.jsx:22 | a split always yields at least one part; `Join` with the same delimiter is its inverse (`JoinSplit`, `SplitJoin`) |
| Text.SplitJoin | frontend/src/components/ComparisonResult.jsx:22 | for a delimiter with no border, splitting the join of delimiter-free pieces gives back those pieces |
| Text.SplitCount | frontend/src/components/ComparisonResult.jsx:22 | a split yields one more part than there are non-overlapping occurrences of the delimiter |
| Text.SplitPiecesFree | frontend/src/components/ComparisonResult.jsx:22 | no part of a split contains the delimiter |
| Text.SplitWithout | frontend/src/components/ComparisonResult.jsx:22 | a string without the delimiter splits into itself alone |
| Text.SplitAround | frontend/src/components/ComparisonResult.jsx:22 | splitting `a + d + b` is splitting `a` followed by splitting `b`, for a delimiter with no border |
| Text.Trim | frontend/src/components/ComparisonResult.jsx:26 | the trimmed string is no longer than the input and neither starts nor ends with white space |
| Text.TrimBounds | frontend/src/components/ComparisonResult.jsx:26 | the trimmed string is a slice of the input, and everything cut from either end is white space |
| Text.TrimIdempotent | frontend/src/components/ComparisonResult.jsx:26 | trimming twice is trimming once |
| Text.TrimEmptyIff | frontend/src/components/ChatInterface.jsx:21 | trimming leaves nothing exactly when every character is white space |
| Text.AsciiLower | frontend/src/components/ComparisonResult.jsx:37-39 | lower-casing keeps the length and maps every character on its own |
| Text.IntRoundTrip | backend/app/services/kiro_service.py:53 | reading back the decimal text of any integer gives that integer |
| ComparisonResult.SpaceRun | frontend/src/components/ComparisonResult.jsx:26 | the `\s+` run measured from a position is all white space and ends at the first non-space |
| ComparisonResult.LineEnd | frontend/src/components/ComparisonResult.jsx:26 | `.*` stops at the first line terminator and crosses none |
| ComparisonResult.TitleMatchEnd | frontend/src/components/ComparisonResult.jsx:26 | a reported match starts with `#` and white space, spans at least three characters and ends with a newline |
| ComparisonResult.StripTitle | frontend/src/components/ComparisonResult.jsx:26 | the strip removes a prefix only, and removes nothing unless the chunk starts with `#` then white space |
| ComparisonResult.TitleMatchEndSound | frontend/src/components/ComparisonResult.jsx:26 | a match the search reports satisfies the pattern, and no other match has a longer `\s+` run or, at the same run, a longer end (backtracking order) |
| ComparisonResult.TitleMatchEndComplete | frontend/src/components/ComparisonResult.jsx:26 | when the search reports no match, the pattern has no match at all |
| ComparisonResult.SectionsOf | frontend/src/components/ComparisonResult.jsx:29-41 | one section per chunk, in chunk order, the j-th built from the j-th chunk |
| ComparisonResult.SectionOf | frontend/src/components/ComparisonResult.jsx:31-40 | a section's title and content carry no white space at either end |
| ComparisonResult.IsRecommendation | frontend/src/components/ComparisonResult.jsx:37-39 | a title shorter than the shortest phrase, "verdict", is never a recommendation |
| ComparisonResult.SummaryOf | frontend/src/components/ComparisonResult.jsx:24-27 | the summary carries no white space at either end, and a first part that does not open with `#` and white space is only trimmed |
| ComparisonResult.SectionAtFirstNewline | frontend/src/components/ComparisonResult.jsx:31-40 | a section's title is the trimmed text before the chunk's first newline and its content the trimmed text after it, `""` when there is no newline; the recommendation flag is the phrase test on that title |
| ComparisonResult.ParseSections | frontend/src/components/ComparisonResult.jsx:30-41 | the loop's array holds, for each chunk in order, the section `SectionOf` gives it |
| ComparisonResult.ParseComparison | frontend/src/components/ComparisonResult.jsx:17-44 | the imperative parser returns the specified summary and sections |
| ComparisonResult.Parse | frontend/src/components/ComparisonResult.jsx:17-44 | there is one section per chunk after the first `"\n## "`-separated part, and the summary carries no white space at either end |
| ComparisonResult.ParseCount | frontend/src/components/ComparisonResult.jsx:22-30 | the number of sections equals the number of occurrences of `"\n## "` |
| ComparisonResult.ParseEmpty | frontend/src/components/ComparisonResult.jsx:18-43 | the empty document gives an empty summary and no sections |
| ComparisonResult.ParseWithoutHeader | frontend/src/components/ComparisonResult.jsx:22-27 | with no `"\n## "`, there are no sections and the summary is the whole document, title-stripped and trimmed |
| ComparisonResult.ParseOfChunks | frontend/src/components/ComparisonResult.jsx:22-41 | parsing a join of header-free chunks gives the first chunk's summary and exactly one section per later chunk, in order, none dropped or merged |
| ComparisonResult.ParseAppendSection | frontend/src/components/ComparisonResult.jsx:29-41 | appending a header and a chunk keeps the summary and all earlier sections and adds one section at the end |
| ComparisonResult.LeadingHeaderInSummary | frontend/src/components/ComparisonResult.jsx:22-26 | a `"## "` at offset 0 is no boundary: the sections are those of the rest, and the header stays in the summary |
| ComparisonResult.SectionOfLines | frontend/src/components/ComparisonResult.jsx:31-35 | the title is the trimmed first line and the content is the trimmed remainder |
| ComparisonResult.SectionOfOneLine | frontend/src/components/ComparisonResult.jsx:31-35 | a chunk without a newline gets content `""` |
| ComparisonResult.TitleIsOneLine | frontend/src/components/ComparisonResult.jsx:31-35 | a title never contains a newline |
| ComparisonResult.PhraseIgnoresPadding | frontend/src/components/ComparisonResult.jsx:37-39 | whether the lower-cased text contains a phrase that begins and ends with a letter does not depend on surrounding white space |
| ComparisonResult.RecommendationMatchesTitle | frontend/src/components/ComparisonResult.jsx:35-39 | the flag computed on the raw first line equals the recommendation test on the trimmed title |
| ComparisonResult.CardOf | frontend/src/components/ComparisonResult.jsx:78-100 | a section becomes a recommendation card exactly when it is flagged, with its title and content |
| ComparisonResult.Cards | frontend/src/components/ComparisonResult.jsx:69-100 | the summary card comes first exactly when the summary is non-empty, followed by the card of each section in section order |
| ComparisonResult.Render | frontend/src/components/ComparisonResult.jsx:6-59 | the error view shows exactly when success is false, with the error text or "An unknown error occurred"; the result view shows the query, and the time badge exactly when the time is present and non-zero |
| ComparisonResult.RenderSuccess | frontend/src/components/ComparisonResult.jsx:46-100 | a successful response shows the cards of its parsed text: the optional summary card, then exactly one card per `"\n## "` occurrence |
| KiroService.TeamText | backend/app/services/kiro_service.py:52-53 | the team fragment is present exactly when the team size is truthy (zero is not) |
| KiroService.ContextParts | backend/app/services/kiro_service.py:52-62 | every fragment is non-empty |
| KiroService.ContextSuffix | backend/app/services/kiro_service.py:64-65 | the suffix is empty exactly when there are no fragments, and otherwise starts with `", "` and the first fragment |
| KiroService.UseCaseClause | backend/app/services/kiro_service.py:48-50 | the clause is empty, or `" for "` and the truthy use case, which is added only when the lower-cased query has no "for" |
| KiroService.FullQuery | backend/app/services/kiro_service.py:40-67 | the original query is always a prefix, and no context leaves it unchanged |
| KiroService.BuildQuery | backend/app/services/kiro_service.py:40-67 | the `+=` and list-append steps produce the specified full query |
| KiroService.CollectParts | backend/app/services/kiro_service.py:46-62 | the list filled by `append`, one truthy field at a time, is the fragment list in the order team, timeline, expertise, budget |
| KiroService.UseCaseClauseIff | backend/app/services/kiro_service.py:48-50 | `" for "` follows the query exactly when the use case is truthy and the lower-cased query has no "for" |
| KiroService.NoDanglingComma | backend/app/services/kiro_service.py:52-65 | nothing follows the use-case clause exactly when no team, timeline, expertise or budget is truthy |
| KiroService.ZeroTeamOmitted | backend/app/services/kiro_service.py:52-53 | a team size of 0 leaves the query as if there were none |
| KiroService.ContextPartsRoundTrip | backend/app/services/kiro_service.py:52-62 | reading the fragments back by label gives every truthy field with its value, and no fragment for a falsy one |
| KiroService.MatchLength | backend/app/services/kiro_service.py:72-81 | a match of each pattern has the shape its regular expression describes; a span match is the tag, then characters that are neither the stop nor a newline, then the first stop |
| KiroService.Delete | backend/app/services/kiro_service.py:72-81 | deletion never lengthens the text; which characters go is pinned by the `Delete…` lemmas below |
| KiroService.DeleteKeepsPlainText | backend/app/services/kiro_service.py:72-80 | text without a pattern's first character is left unchanged |
| KiroService.DeleteLiteral | backend/app/services/kiro_service.py:81 | deleting `"> "` equals splitting on it and joining with nothing |
| KiroService.DeleteSpanLine | backend/app/services/kiro_service.py:77-80 | a banner line through its newline, or a prompt through its `>`, is removed whole |
| KiroService.DeleteAfterPlain | backend/app/services/kiro_service.py:72-81 | text in which no match can begin is kept, and deletion goes on unchanged after it, so a match is removed wherever it occurs |
| KiroService.DeleteCsi | backend/app/services/kiro_service.py:72 | an escape, `[`, any run of digits and semicolons, then a letter, is removed whole |
| KiroService.DeleteCharsetSelect | backend/app/services/kiro_service.py:73 | an escape followed by `(A` or `(B` is removed whole |
| KiroService.Cleaned | backend/app/services/kiro_service.py:85 | every kept line is non-blank and stripped at both ends |
| KiroService.CleanedEmpty | backend/app/services/kiro_service.py:85 | no line is kept exactly when every line strips to nothing |
| KiroService.NormaliseParagraphs | backend/app/services/kiro_service.py:84-87 | non-empty output split on `"\n\n"` gives exactly the stripped non-blank input lines |
| KiroService.Normalise | backend/app/services/kiro_service.py:84-87 | the output is `""` exactly when every line is blank, and it never starts or ends with white space |
| KiroService.NormaliseIdempotent | backend/app/services/kiro_service.py:84-87 | normalising twice is normalising once |
| KiroService.CleanOutputShape | backend/app/services/kiro_service.py:69-87 | cleaned output is a fixed point of normalisation, trimmed, and made of non-empty one-line paragraphs |
| KiroService.CleanOutput | backend/app/services/kiro_service.py:69-87 | the cleaned text has no white space at either end and is left unchanged by a second normalisation |
| KiroService.Classify | backend/app/services/kiro_service.py:115-166 | success exactly when the return code is 0 and the cleaned output is non-empty; a success carries that output and no error; every failure carries a non-empty error and no response: "Agent returned empty response" for empty output, the first 500 characters of stderr or "Unknown error" for a non-zero code, the timeout text, the missing-CLI text, or "Unexpected error: " and the reason |
| KiroService.TimeoutMessageText | backend/app/services/kiro_service.py:142-149 | the timeout message names the 45-second limit |
| KiroService.SilentFailure | backend/app/services/kiro_service.py:134 | a failing run with empty stderr reports "Unknown error" |
| ComparisonForm.ChangeCategory | frontend/src/components/ComparisonForm.jsx:92-96 | a category change clears both options and changes no other field |
| ComparisonForm.AvailableOptions | frontend/src/components/ComparisonForm.jsx:15 | a known category offers its own options; an unknown one offers none |
| ComparisonForm.Without | frontend/src/components/ComparisonForm.jsx:134 | the filtered list is no longer than the input and holds no copy of option 1 |
| ComparisonForm.WithoutCounts | frontend/src/components/ComparisonForm.jsx:133-134 | filtering removes every copy of option 1 and keeps every copy of everything else |
| ComparisonForm.WithoutAppend | frontend/src/components/ComparisonForm.jsx:133-134 | filtering keeps the relative order of the options |
| ComparisonForm.Option2Choices | frontend/src/components/ComparisonForm.jsx:133-134 | the second choices are the category's options other than option 1; an unknown category gives none |
| ComparisonForm.GuidedContext | frontend/src/components/ComparisonForm.jsx:38-46 | the context is absent exactly when no field is truthy; otherwise each of team size, timeline, expertise and use case is present with its value exactly when it is truthy (a team size of 0 is not), and there is never a budget |
| ComparisonForm.Submission | frontend/src/components/ComparisonForm.jsx:23-29 | a submit is rejected exactly when the guided form lacks an option |
| ComparisonForm.GuidedQuery | frontend/src/components/ComparisonForm.jsx:31-35 | the guided query starts with "Compare o1 vs o2" |
| ComparisonForm.SubmitEvents | frontend/src/components/ComparisonForm.jsx:17-57 | a submit emits one event or three, and the last is always an outcome callback |
| ComparisonForm.HandleSubmit | frontend/src/components/ComparisonForm.jsx:17-57 | the imperative handler emits the specified callbacks and request |
| ComparisonForm.SubmitProtocol | frontend/src/components/ComparisonForm.jsx:26-55 | a rejection is exactly one error callback with "Please select both options"; otherwise `onSubmit` gets the very query and context that are sent, and exactly one outcome callback follows, last |
| ComparisonForm.CustomQueryVerbatim | frontend/src/components/ComparisonForm.jsx:23-24 | a custom query is sent verbatim, with no context and no option check |
| ComparisonForm.GuidedQueryShape | frontend/src/components/ComparisonForm.jsx:31-35 | the guided query is exactly "Compare o1 vs o2", followed by " for " and the use case when a use case is given |
| ComparisonForm.SameOptionAccepted | frontend/src/components/ComparisonForm.jsx:26-31 | the same option twice is not rejected |
| ComparisonForm.CategoryChangeBlocksSubmit | frontend/src/components/ComparisonForm.jsx:92-96 | right after a category change a guided submit is rejected |
| ComparisonForm.InitialFormRejected | frontend/src/components/ComparisonForm.jsx:5-13 | the form as it first appears, with both options empty, is rejected with "Please select both options" and nothing is sent |
| ComparisonForm.InitialFormChosen | frontend/src/components/ComparisonForm.jsx:5-13 | choosing only the two options in the initial form sends "Compare o1 vs o2" with a context holding just the default team size 3 |
| ComparisonForm.GuidedQueryOnBackend | frontend/src/components/ComparisonForm.jsx:31-46 | the backend never adds a second use-case clause to a guided query |
| ChatInterface.Chips | frontend/src/components/ChatInterface.jsx:143-147 | while the log is empty the chips are the first four suggestions, or all of them when there are fewer; once the log has a message there are none |
| ChatInterface.Chat.constructor | frontend/src/components/ChatInterface.jsx:6-8 | the log and the input start empty, with nothing in flight |
| ChatInterface.Chat.Submit | frontend/src/components/ChatInterface.jsx:19-29 | a blank input or a pending request leaves everything unchanged; otherwise one user message with the untrimmed input is appended, the input is cleared, loading starts, and the old input is what is requested |
| ChatInterface.Chat.Receive | frontend/src/components/ChatInterface.jsx:30-47 | exactly one assistant message with the comparison, query and time is appended, and loading ends |
| ChatInterface.Chat.Fail | frontend/src/components/ChatInterface.jsx:37-47 | the error is reported, one error message with the warning prefix is appended, and loading ends |
| ChatInterface.Chat.Type | frontend/src/components/ChatInterface.jsx:129 | typing replaces the input only |
| ChatInterface.Chat.ClickSuggestion | frontend/src/components/ChatInterface.jsx:50-52 | a suggestion click sets the input and submits nothing |
| ChatInterface.Chat.KeyPress | frontend/src/components/ChatInterface.jsx:54-59 | Enter without Shift behaves as a submit; any other key changes nothing |
| ChatInterface.Accepts | frontend/src/components/ChatInterface.jsx:21 | a submit is accepted exactly when nothing is in flight and the input has a character that is not white space |
| App.ErrorText | frontend/src/App.jsx:42 | the error text is the message when there is one, "An error occurred" otherwise, and never empty |
| App.ShowsHealthBadge | frontend/src/App.jsx:63 | the badge shows exactly when health is known and not "degraded" |
| App.AppState.constructor | frontend/src/App.jsx:10-14 | guided mode, with no comparison, no loading, no error and no health |
| App.AppState.ShowsResult | frontend/src/App.jsx:98-132 | the result card shows only in guided mode, with a comparison and nothing loading; chat mode never shows it |
| App.AppState.ShowsError | frontend/src/App.jsx:98-125 | the error box shows only in guided mode, with an error; chat mode never shows it |
| App.AppState.SubmitForm | frontend/src/App.jsx:104-107 | loading starts and the error clears; the comparison is kept |
| App.AppState.Complete | frontend/src/App.jsx:35-39 | the result replaces the comparison, loading stops, the error clears, and the result shows exactly when the mode is guided |
| App.AppState.Fail | frontend/src/App.jsx:41-44 | the error becomes the message or the default, loading stops, the comparison is kept, and the error box shows exactly when the mode is guided |
| App.AppState.Clear | frontend/src/App.jsx:46-49 | comparison and error are cleared; loading and the mode are untouched |
| App.AppState.SelectMode | frontend/src/App.jsx:83-94 | a mode button changes the mode only |
| App.AppState.ReceiveHealth | frontend/src/App.jsx:20-21 | the health reply is stored and nothing else changes |
| App.AppState.Deliver | frontend/src/App.jsx:104-109 | each form callback runs its handler |
| App.AppState.SubmitGuided | frontend/src/App.jsx:102-110 | after one guided submit: a rejection sets "Please select both options"; an answer becomes the comparison and shows in guided mode; a failure sets its error and keeps the last comparison |

## Left out

- The network: `frontend/src/services/api.js` (fetch, JSON and HTTP status) is not part of this model. A request's outcome is a parameter: `Reply` for the form, and `Receive` or `Fail` for the chat.
- The web server: `backend/app/main.py` (routes, CORS, start-up, and the constant category and suggestion tables) is not part of this model. Categories are a `map` parameter and suggestions a `seq` parameter.
- Process and file-system I/O in `backend/app/services/kiro_service.py`:
  - `check_kiro_cli` and `check_agent_config` are not modelled.
  - The subprocess call in `call_agent` becomes the `RunOutcome` parameter. `Crashed` carries the text of the unexpected exception.
  - Timing and logging are not modelled.
- Execution times are floats. They appear only as an optional `real` whose truthiness gates the badge; `toFixed` formatting is not modelled.
- KiroService.CleanOutput: the DOTALL box-drawing deletion (kiro_service.py:76) is the function parameter `stripBoxes`, so nothing is proved about what it removes.
- Case and white space: lower-casing (`toLowerCase`, `lower`) is ASCII only. The white-space sets of JavaScript `trim`/`\s` and Python `strip`/`isspace` are written out, but Unicode case folding is not modelled.
- Asynchrony: every `await` is two sequential transitions, for example `Submit` then `Receive` or `Fail`.
  - ChatInterface.Chat.Receive and ChatInterface.Chat.Fail require a request in flight. Interleavings of several pending requests are not modelled.
- The form's number field: `parseInt` of the team-size text is not modelled. A value that does not parse (NaN) is `None`.
- The chat's `onError` callback into the top-level error handler is the return value of `Chat.Fail`. The App-side wiring of chat errors is not modelled separately; it is `AppState.Fail`, whose error box does not show in chat mode.
- Disabled inputs: the `disabled` attribute of the chat input and button is not modelled. `Type` accepts input while loading, and the submit guard still refuses it.
- App.AppState.SelectMode and ChatInterface.Chat: switching mode unmounts the hidden view, which discards the chat's log, input and loading flag (dropping a pending reply) or the form's fields. The model keeps one `Chat` for the whole session and does not model that reset; its log only grows while the chat is shown.
- Rendering is not modelled: JSX markup, markdown rendering, CSS classes, the scroll-into-view effect and the mount-time loads. Of those loads, only the health reply is modelled, as `ReceiveHealth`. `Render` hides the time badge for an execution time of 0, but React then renders a stray "0" text node (frontend/src/components/ComparisonResult.jsx:57); that text is not modelled.
- Browser form validation is not modelled: the `required` attribute on both option selects and on the custom query (frontend/src/components/ComparisonForm.jsx:112, 130 and 212), and `min="1" max="100"` on the team size (frontend/src/components/ComparisonForm.jsx:163-164). In a browser these stop the submit before `handleSubmit` runs, so the "Please select both options" rejection, an empty custom query and team sizes outside 1 to 100 are not reachable from the page. The model follows the handler as written and accepts all of them.
- `frontend/src/components/QuickSuggestions.jsx` is not part of this model; it only forwards a suggestion's query.
- Response fields: `ComparisonResponse` and `ComparisonContext` carry only the fields the core reads. Pydantic validation in `backend/app/models.py` is not modelled.
