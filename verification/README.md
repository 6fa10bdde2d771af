# SummarizerAI core in Dafny

A model of the decision and state logic of SummarizerAI, a small web
application that summarises either a YouTube video or pasted text. The
summary itself comes from an external chat-completion service, and the
model treats it as an abstract summarizer that answers or fails. What is
modelled:

- **The YouTube reference handler** (`YouTube`):
  - the URL check;
  - the video-id extraction for watch URLs and short links;
  - the validate-only short cut;
  - the deterministic placeholder transcript built from the id.
- **The in-memory store** (`Storage`, over `OrderedMap`): two
  insertion-ordered maps with auto-incrementing ids.
- **The request and response schemas and table shapes** (`Schema`).
- **The two HTTP handlers** (`Routes`). Each is a pure function from the
  request body and the collaborators' outcomes to a status code and a JSON
  body.
- **The client**:
  - the form's refinement, defaults, video-id regular expression, URL
    watcher and input-method switch (`Form`);
  - the tutorial overlay's step machine (`Tutorial`);
  - the home page's submit and reset transitions (`Home`);
  - the results panel's display precedence and clipboard text (`Results`).
- **Shared modules:** `Wrappers` holds `Option` and `Result`, and `Strings`
  holds the JavaScript string operations the code relies on (`includes`,
  `indexOf`, `split`, `join`, `trim`).

## Modelling choices

**Collaborators that are parameters**
- zod's `.url()` check is the parameter `isUrl: string -> bool` wherever it is
  used.
- The transcript source and the summarizer of `/api/summarize` are
  parameters returning `Result`. `Routes.Extractor` wires in the YouTube
  extractor.
- `new Date()` is a timestamp parameter `now`.
- A fetch is a `FetchOutcome` value.
- `localStorage` is an optional flag value.

**Data representation**
- A JSON field before validation is a `Field`: absent, a string, or any other
  value.
- A JavaScript `Map` is an association list in insertion order.
- A Dafny character is a Unicode scalar value, but JavaScript's `length`,
  `split('')` and `charCodeAt` work on UTF-16 code units. `Strings.Utf16Length`
  and `Strings.CodeUnits` count and produce those units, so a character
  beyond the Basic Multilingual Plane counts twice.
- `searchParams.get('v')` is modelled as:
  1. trim leading and trailing C0 control characters and spaces;
  2. drop tab and newline characters;
  3. take the text between the first `?` and the first `#`;
  4. split it at `&`;
  5. return the value of the first pair whose name is `v`.

**Regular expressions**
- The server's URL shape `^(https?://)?(www.)?(youtube.com|youtu.be)/.*$` has
  two readings:
  - `YouTube.MatchesShape` is the greedy reading;
  - `YouTube.ShapeSpec` lists every way the optional groups and the host
    alternation can match;
  - `YouTube.ShapeAgreesWithRegex` proves that the two readings agree.
- The client's `extractVideoId` regular expression is modelled through its
  backtracking outcome:
  - the greedy leading `.*` settles on the last marker that starts on the
    first line;
  - the id group is the longest run of characters other than `#`, `&` and `?`.

**Validation**
- For a failed schema check, the handlers' `errors` text is modelled as the
  list of failing field names rather than zod's rendered message.

**Placeholder transcript**
- Its long sentence literals are written as concatenations of short pieces.
  Each piece is a plain substring of the sentence, so the value is the same.

## Model

| member | source | states |
|---|---|---|
| Strings.JoinSplit | client/src/components/Results.tsx:116 | joining the pieces of `split` with the separator gives back the original string, so splitting loses and reorders nothing |
| Strings.SplitJoin | client/src/components/Results.tsx:23 | splitting a join of separator-free pieces gives back exactly those pieces |
| Strings.SplitCount | server/services/youtube.ts:31 | `split` yields more than one piece exactly when the separator occurs |
| Strings.SecondPiece | server/services/youtube.ts:31 | `s.split(sep)[1].split(c)[0]` is a prefix of the text after the first separator and holds neither `c` nor the separator |
| Strings.SecondPieceStops | server/services/youtube.ts:31 | that piece ends where the text after the first separator ends, at its first `c`, or at its next separator |
| Strings.Utf16Length | client/src/components/SummarizerForm.tsx:32 | a string's JavaScript `length` lies between its character count and twice that |
| Strings.Utf16LengthBmp | client/src/components/SummarizerForm.tsx:32 | the JavaScript `length` equals the character count iff every character lies in the Basic Multilingual Plane |
| Strings.CodeUnits | server/services/youtube.ts:51 | a character is one code unit equal to its code inside the Basic Multilingual Plane, otherwise a high and a low surrogate that decode back to it |
| Schema.ParseLength | shared/schema.ts:6 | a summary length parses iff it is one of `short`, `medium`, `long`, and parses back to the value named |
| Schema.ParseLanguage | shared/schema.ts:10 | a language parses iff it is one of `en`, `es`, `fr`, `de`, `zh`, and parses back to the value named |
| Schema.ParseInputType | shared/schema.ts:15 | an input type parses iff it is `youtube` or `text` |
| Schema.RequestIssues | shared/schema.ts:14-20 | each field is reported iff it fails its rule: enums must parse, the URL is absent or passes the URL check, the text is absent or any string with no length bound |
| Schema.ParseRequest | shared/schema.ts:14-20 | a request is accepted iff no field fails, every failing field is reported, an accepted present URL passes the URL check, and the accepted request encodes back to the body |
| Schema.RequestRoundTrip | shared/schema.ts:14-20 | every request whose URL passes the URL check survives encoding and parsing unchanged |
| Schema.ParseResponse | shared/schema.ts:25-30 | a response parses iff source and summary are strings, `generatedAt` is a date and `keyPoints` is an array of strings of any length, and it encodes back to its body |
| Schema.ResponseRoundTrip | shared/schema.ts:25-30 | every response survives encoding and parsing unchanged, an empty key-point list included |
| Schema.InsertShapes | shared/schema.ts:52-60 | an inserted user keeps only username and password plus the id; an inserted summary is the insert shape plus id and creation time, in both directions |
| YouTube.ShapeAgreesWithRegex | server/services/youtube.ts:13-14 | the greedy shape check accepts exactly the strings the URL pattern matches: optional scheme, optional `www.`, one of the two hosts, a slash, and a rest without line terminators |
| YouTube.UrlIssues | server/services/youtube.ts:11-22 | the URL is free of issues iff it passes both the URL check and the YouTube shape |
| YouTube.ShortLinkId | server/services/youtube.ts:30-31 | a short-link id exists iff the URL contains `youtu.be/`; it is the text after the first occurrence up to the first `?`, the next `youtu.be/`, or the end, and holds neither |
| YouTube.VideoId | server/services/youtube.ts:27-32 | a watch URL yields its `v` parameter, otherwise a short link yields its path id, and any other URL yields no id |
| YouTube.SearchOf | server/services/youtube.ts:28-29 | the query is the cleaned URL's text between its first `?` and its first `#`, empty when there is no `?` or the `?` lies in the fragment; it never contains `#` |
| YouTube.CleanUrl | server/services/youtube.ts:28 | the URL the query is read from holds no tab or newline |
| YouTube.FindPair | server/services/youtube.ts:29 | the parameter is read from the first pair with the requested name, and no earlier pair has that name |
| YouTube.ParagraphCount | server/services/youtube.ts:51-52 | the paragraph count is between 3 and 6 |
| YouTube.CodeSumOfChar | server/services/youtube.ts:51 | a character in the Basic Multilingual Plane adds its own code to the id sum; one beyond it adds its two surrogates, at least 0xD800 + 0xDC00 |
| YouTube.CodeSumAppend | server/services/youtube.ts:51 | the id sum adds up over concatenation, so it is the sum over the id's code units |
| YouTube.CodeSumBound | server/services/youtube.ts:51 | the id sum is at most 0xFFFF per UTF-16 code unit |
| YouTube.MainTopic | server/services/youtube.ts:67 | the main topic is one of the nine topics |
| YouTube.TopicsDistinct | server/services/youtube.ts:54-64 | the nine topics are pairwise different |
| YouTube.SecondaryTopics | server/services/youtube.ts:68-70 | there are `paragraphCount - 1` secondary topics, between 2 and 5 |
| YouTube.TopicsAreListed | server/services/youtube.ts:54-70 | the main topic and every secondary topic are entries of the nine-topic list |
| YouTube.SecondaryTopicsFollowMain | server/services/youtube.ts:67-70 | the secondary topics are the entries following the main topic in the list, wrapping around |
| YouTube.MainTopicIndex | server/services/youtube.ts:67 | the main topic sits at position `idSum mod 9` of the list |
| YouTube.SecondaryTopicsDistinct | server/services/youtube.ts:54-70 | no secondary topic repeats the main topic and no two secondary topics are equal |
| YouTube.SuccessorsDistinct | server/services/youtube.ts:67-70 | in a cyclic list of nine distinct entries, fewer than nine successors of a position repeat neither that position's entry nor each other |
| YouTube.TranscriptIsUntrimmed | server/services/youtube.ts:73-93 | trimming leaves the built transcript unchanged: it starts and ends without white space |
| YouTube.TranscriptFrame | server/services/youtube.ts:73-93 | the transcript starts with "This video is about " + main topic + ". " and ends with "for more content." |
| YouTube.TranscriptParagraphs | server/services/youtube.ts:73-93 | split at blank lines, the transcript is the opening, one mention paragraph per secondary topic in order (even positions one extra sentence, odd two), and the closing, `paragraphCount + 1` paragraphs |
| YouTube.ExtractTranscript | server/services/youtube.ts:8-41 | a URL failing a check fails with the validation message before any id is looked for; a missing or empty id fails with "Could not extract video ID from URL"; validate-only success is exactly "VALID"; otherwise the result is the transcript of the id alone |
| OrderedMap.Get | server/storage.ts:31 | a key is found iff it is present, with the value stored under it |
| OrderedMap.Set | server/storage.ts:43 | a new key is appended, a present key keeps its place; the key then maps to the new value and every other key keeps its value |
| OrderedMap.Values | server/storage.ts:35 | the values in insertion order |
| Storage.New | server/storage.ts:22-27 | a fresh store has no users and no summaries, both counters at 1, and satisfies the store invariant |
| Storage.GetUser | server/storage.ts:30-32 | in a valid store a user is found iff its id was issued, and it is the user created under that id |
| Storage.NeverIssuedIsAbsent | server/storage.ts:30-32 | an id the store has not issued finds no user |
| Storage.GetUserByUsername | server/storage.ts:34-38 | none iff no user has the name; otherwise a user with the name and no earlier user with it |
| Storage.ByUsernameIsEarliest | server/storage.ts:34-38 | in a valid store the user found by name has the smallest id among users with that name |
| Storage.CreateUser | server/storage.ts:40-45 | the new user's id is the counter, the counter moves on by one, the user is found under its id, other ids and all summaries are unchanged, and the invariant is kept |
| Storage.DuplicateUsernameKeepsFirst | server/storage.ts:34-45 | a duplicate username is accepted and the lookup by name keeps answering with the earlier user |
| Storage.CreateUsers | server/storage.ts:40-45 | successive creations return ids counter, counter + 1, … and keep the invariant |
| Storage.FreshIdsAreSequential | server/storage.ts:22-45 | from a fresh store the ids are 1, 2, 3, …, pairwise distinct, and each looks up its user |
| Storage.CreatedUsersAreStored | server/storage.ts:40-45 | every user of a run of creations is stored under its id afterwards |
| Storage.CreateSummary | server/storage.ts:48-60 | the stored and returned summary is the input plus a fresh id and the given time; users and the user counter are unchanged |
| Storage.GetSummariesByUserId | server/storage.ts:62-66 | exactly the stored summaries whose user id is the one asked for |
| Storage.FilterAppend | server/storage.ts:63-65 | the filter distributes over concatenation, so it keeps relative order |
| Storage.SummariesInInsertionOrder | server/storage.ts:62-66 | in a valid store a user's summaries come back with strictly increasing ids |
| Storage.CreateSummaryThenList | server/storage.ts:48-66 | a new summary joins the end of its own user's list and leaves every other list unchanged |
| Routes.ContentFor | server/routes.ts:29-50 | YouTube without a URL is 400 "YouTube URL is required…"; a transcript failure is 400 "Failed to extract transcript…" with the cause; text without content is 400 "Text content is required…"; otherwise the content is the transcript or the text |
| Routes.HandleSummarize | server/routes.ts:12-72 | schema failure is 400 "Invalid request data" with the failing fields; the summarizer is called only with obtained content; its success is 200 with its result unchanged, its failure 500 "Failed to generate summary"; "Invalid input type" is never answered |
| Routes.Extractor | server/routes.ts:34-35 | the wired-in source succeeds exactly for a URL passing both checks with a non-empty video id, then yields that video's transcript; every failure carries the validation or missing-id message |
| Routes.TextPassesVerbatim | server/routes.ts:42-47 | any non-empty text of a valid text request, however short, reaches the summarizer unchanged |
| Routes.ExtractFailureCause | server/routes.ts:34-41 | with the extractor wired in, a transcript failure names the YouTube shape or the missing id as its cause, never the URL check |
| Routes.HandleValidate | server/routes.ts:75-103 | a missing or non-URL value is 400 "Invalid YouTube URL"; validate-only success is 200 valid; extractor failure is 400 not valid with the cause; 200 exactly when full extraction would succeed |
| Routes.SummarizeAgreesWithValidate | server/routes.ts:29-103 | a YouTube request reaches the summarizer exactly when the validate endpoint accepts its URL, and the summarizer then reads that video's transcript |
| Form.Defaults | client/src/components/SummarizerForm.tsx:44-50 | the defaults are input type youtube, empty URL and text, length medium, language en |
| Form.Refine | client/src/components/SummarizerForm.tsx:26-40 | a passing request is a YouTube request with a non-empty URL or a text request with non-empty text, and passing text has at least 25 characters |
| Form.RefineCases | client/src/components/SummarizerForm.tsx:26-40 | a YouTube request passes iff its URL is present and non-empty; a text request iff its text is present and at least 50 UTF-16 code units long |
| Form.TextLengthBoundary | client/src/components/SummarizerForm.tsx:31-33 | text of 49 code units is rejected and of 50 accepted; within the Basic Multilingual Plane that is 50 characters, and 50 characters always pass |
| Form.OtherInputTypeRejected | client/src/components/SummarizerForm.tsx:34 | any input type other than youtube and text never submits |
| Form.AcceptsAsWritten | client/src/components/SummarizerForm.tsx:26-51 | accepted values have a URL field that passes the URL check, even in text mode, an input type of youtube or text, a non-empty URL in YouTube mode and text of at least 50 code units in text mode |
| Form.DefaultUrlBlocksText | client/src/components/SummarizerForm.tsx:42-50 | as written, the empty default URL reaches the URL check in text mode, so no text submits while the URL field is empty |
| Form.Submit | client/src/components/SummarizerForm.tsx:26-51 | the form submits iff schema and refinement pass on its values with empty fields read as absent, and it submits exactly those values |
| Form.SubmitFixesDefaultUrl | client/src/components/SummarizerForm.tsx:42-50 | with empty fields read as absent, 50 characters of text submit from the defaults, and with every field filled the corrected and as-written forms agree |
| Form.SubmittedRequestsPassTheServer | client/src/components/SummarizerForm.tsx:119-121 | a submitted text request reaches the server's summarizer with its text unchanged; a submitted YouTube request reaches the transcript source |
| Form.LastMarkerBelow | client/src/components/SummarizerForm.tsx:65 | the marker position is the last one at or below the bound, and none lies between it and the bound |
| Form.MarkerAt | client/src/components/SummarizerForm.tsx:65 | a marker match lies inside the string, is at least two long and ends in `/` or `=` |
| Form.MarkersRecognised | client/src/components/SummarizerForm.tsx:65 | each of `youtu.be/`, `v/`, `u/\w/`, `embed/`, `watch?v=` and `&v=` is recognised where it begins, with its own length |
| Form.FirstLineEnd | client/src/components/SummarizerForm.tsx:65 | the leading `.*` ends at the first line terminator, or at the end when there is none |
| Form.IdGroup | client/src/components/SummarizerForm.tsx:65-66 | the group is the run of characters other than `#&?` after the last marker starting on the first line; with no marker there is no match |
| Form.RunEnd | client/src/components/SummarizerForm.tsx:65 | the id group runs over characters other than `#`, `&`, `?` up to the first such character or the end |
| Form.ExtractVideoId | client/src/components/SummarizerForm.tsx:64-68 | an id is returned iff the group is 11 UTF-16 code units long; it is then the group itself, 6 to 11 characters with none of `#&?` |
| Form.ExtractVideoIdLength | client/src/components/SummarizerForm.tsx:67 | the group is returned iff it is exactly 11 code units long, which within the Basic Multilingual Plane means 11 characters |
| Form.UrlChanged | client/src/components/SummarizerForm.tsx:71-78 | with a non-empty URL in YouTube mode, an extracted id of 11 code units triggers validation and no id clears the preview; otherwise nothing happens |
| Form.PreviewAfterValidation | client/src/components/SummarizerForm.tsx:89-99 | the preview is shown iff the server accepted the URL, with the id and the title exactly "YouTube Video (ID: " + id + ")" |
| Form.ChangeInputMethod | client/src/components/SummarizerForm.tsx:57-61 | the method and input type become the chosen one, the preview is cleared, all other values stay |
| Form.ChangeInputMethodRoundTrip | client/src/components/SummarizerForm.tsx:57-61 | switching away and back restores the state except for the cleared preview |
| Form.CharacterCount | client/src/components/SummarizerForm.tsx:114-116 | the count is the text's length in UTF-16 code units, between its character count and twice that and equal to it within the Basic Multilingual Plane; 0 without text |
| Form.CounterMatchesRefine | client/src/components/SummarizerForm.tsx:26-116 | for a text request, the refinement passes exactly when the text is non-empty and the character counter shows at least 50 |
| Tutorial.Mounted | client/src/components/TutorialOverlay.tsx:51-68 | the overlay starts hidden at the first step with the stored flag, and the timer is pending iff the flag is falsy |
| Tutorial.SchedulesShow | client/src/components/TutorialOverlay.tsx:58-60 | mounting schedules the overlay iff the stored flag is falsy, absent or empty; the flag "true" never schedules it |
| Tutorial.TimerFired | client/src/components/TutorialOverlay.tsx:62-64 | a pending timer fires once, shows the overlay and changes nothing else; with none pending nothing happens |
| Tutorial.Next | client/src/components/TutorialOverlay.tsx:84-90 | below the last step the step increments; at the last it completes with the step unchanged; the step stays in range |
| Tutorial.Previous | client/src/components/TutorialOverlay.tsx:92-96 | above step 0 the step decrements, at 0 nothing changes; the step stays in range |
| Tutorial.NextPreviousInverse | client/src/components/TutorialOverlay.tsx:84-96 | Previous undoes Next before the last step, and Next undoes Previous after the first |
| Tutorial.Complete | client/src/components/TutorialOverlay.tsx:98-102 | the flag becomes "true" and the overlay hides |
| Tutorial.Skip | client/src/components/TutorialOverlay.tsx:104-108 | the flag becomes "true" and the overlay hides |
| Tutorial.CompleteIsSkip | client/src/components/TutorialOverlay.tsx:98-108 | complete and skip have the same effect, and the flag they leave stops the overlay from being scheduled again |
| Tutorial.Reset | client/src/components/TutorialOverlay.tsx:110-115 | the flag is removed, the step is 0 and the overlay shows; a pending timer stays pending, and the next mount would schedule it |
| Tutorial.RunKeepsStepInRange | client/src/components/TutorialOverlay.tsx:84-115 | under any sequence of clicks and timers the step stays in 0..5 |
| Tutorial.HiddenStaysHidden | client/src/components/TutorialOverlay.tsx:56-115 | without the reset button, a hidden overlay with no pending timer stays hidden under any clicks and timer events |
| Tutorial.ReturningVisitorNotShown | client/src/components/TutorialOverlay.tsx:56-68 | a visitor whose flag is truthy never sees the overlay unless they reset it; a first-time visitor sees it once the timer fires |
| Tutorial.Render | client/src/components/TutorialOverlay.tsx:117-258 | hidden shows only the tutorial button; otherwise the title is the step's, Previous appears iff step > 0, progress reads step+1 / 6, and the label is "Finish" exactly at step 5 |
| Tutorial.FinishCloses | client/src/components/TutorialOverlay.tsx:246-258 | the button labelled Finish closes the overlay and records the flag; labelled Next it moves one step on |
| Home.Initial | client/src/pages/Home.tsx:15-18 | not loading, no panel, no result, no error |
| Home.SubmitStart | client/src/pages/Home.tsx:20-23 | submitting sets loading, shows the panel, clears the error and keeps the result |
| Home.ErrorMessage | client/src/pages/Home.tsx:34-41 | a failed response shows its message, or "Failed to generate summary" if the message is missing or empty; a thrown error shows its own message |
| Home.SubmitFinish | client/src/pages/Home.tsx:25-49 | loading ends whatever the outcome; success stores the result with no error; failure keeps the earlier result and records the error |
| Home.Submit | client/src/pages/Home.tsx:20-50 | after any submission nothing is loading and the panel is shown; a failure never clears an earlier result |
| Home.Reset | client/src/pages/Home.tsx:52-56 | the panel hides and result and error are cleared |
| Home.Page | client/src/pages/Home.tsx:65-72 | the results panel is rendered iff it is to be shown |
| Home.SubmitShows | client/src/pages/Home.tsx:20-72 | during a request only the spinner shows; success shows the new result's card; a failure with a message shows the alert and no card |
| Home.ErrorStatusAlwaysAlerts | client/src/pages/Home.tsx:34-36 | a non-OK response always leaves an alert to show |
| Home.ResetForgets | client/src/pages/Home.tsx:52-56 | after a reset there is no panel, and a failing next submission has no stale result |
| Results.Render | client/src/components/Results.tsx:50-80 | spinner iff loading; alert iff not loading and the error is non-empty; card iff not loading, no error and a result; never alert and card together |
| Results.CardOf | client/src/components/Results.tsx:99-130 | the source is a link iff it starts with "http"; there is at least one paragraph, one per newline-separated piece, each newline-free, and they join back to the summary; the key points keep their order |
| Results.ParagraphsHaveNoNewline | client/src/components/Results.tsx:116 | no rendered paragraph holds a newline |
| Results.Bullets | client/src/components/Results.tsx:23 | one "- " line per key point, in order |
| Results.CopyText | client/src/components/Results.tsx:20-23 | nothing is copied without a result; otherwise the text is exactly "Summary:\n", the summary, "\n\nKey Points:\n" and the "- " lines of the key points joined by newlines |
| Results.CopyTextLines | client/src/components/Results.tsx:23 | line by line the copied text is the heading, the summary's lines, a blank line, the second heading and one line per key point |

## Left out

- The summarizer: `generateSummary` in server/services/openai.ts calls an external chat-completion API and parses its reply. It is the parameter `summarize`, which either answers or fails.
- No extractive summarizer: there is no sentence ranking, key-point selection or padding in the code.
- The `source` label in a summary: server/services/openai.ts derives it from the content it is given, the transcript included, not from the URL. It is part of the summarizer result and is not modelled.
- The outer `catch` of both handlers ("Server error", status 500): nothing in the modelled decision logic throws, so that branch is unreachable in the model.
- Logging, HTTP wiring, the HTTP server, static files, toasts, clipboard promises, timers and debouncing: they are effects with no decision logic. Timers become explicit events (`Tutorial.TimerFired`, `Form.UrlEffect.Validate`).
- Tooltip and highlight geometry of the tutorial (client/src/components/TutorialOverlay.tsx:133-195): floating-point pixel arithmetic over DOM rectangles.
- Step descriptions of the tutorial: display text only. Titles, targets and positions are modelled.
- `toLocaleDateString` on `generatedAt`: locale formatting is a library call.
- zod's rendered error text (`fromZodError(...).message`): `Schema.RequestIssues` lists the failing field names in schema order, and the handler's `errors` carries that list.
- The server's URL-check error text in `YouTube.ValidationMessage`: it is approximated as "Validation error: " followed by the issue messages joined with "; ".
- YouTube.SearchOf: percent-decoding and `+`-to-space conversion of query values are not modelled, and neither is the rest of WHATWG URL parsing (host, port, path normalisation). Both are library behaviour; the value is the raw text between `v=` and the next `&`.
- Drizzle table definitions beyond their field lists: no database is used.
- Tutorial.TimerFired: the timer is cleared when the component unmounts, and the model has no unmount event. A pending timer therefore stays pending until it fires.
- Mount effects of the tutorial that query DOM elements (`getBoundingClientRect`): DOM geometry.
- `Routes` status codes are plain integers. The `errors` text of the validate endpoint is modelled as the single failing field `youtubeUrl`.

## Findings

| source | as written | input that shows it | evidently intended | confidence | as-written member | corrected member |
|---|---|---|---|---|---|---|
| client/src/components/SummarizerForm.tsx:42-50 | the form validates its values with the request schema, whose `youtubeUrl` is `z.string().url().optional()`; the URL field defaults to `''` and keeps that value when the text method is chosen | input type `text`, URL field left at its default `''`, any text of 50 or more characters; `''` is not a URL | an empty URL field counts as absent, so text of 50 or more characters submits | medium; not executed | Form.DefaultUrlBlocksText | Form.SubmitFixesDefaultUrl |
