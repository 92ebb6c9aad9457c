# FAST-EXAM: a verified model of the exam session core

FAST-EXAM turns free-form exam material into a typed exam, lets a user answer it and shows a graded report. Digitizing and grading are done by an external generative service. This project models, in Dafny, the part the application decides for itself:

- **Types** (`types.dfy`, types.ts): the closed question-type variant, questions, exams, answers, grading reports and the three application steps, with their wire names.
- **MatchingCodec** (`matching_codec.dfy`): the string encoding of a MATCHING answer. It is a flat JSON object mapping each left-column prompt to the chosen option. Objects follow section 4 of RFC 8259 and strings section 7. The encoder writes what `JSON.stringify` writes. The decoder reads what `JSON.parse` reads, for objects whose members are all strings. Members keep insertion order, and every property is stated per key through `Get`, as a map would be.
- **ExamPaper** (`exam_paper.dfy`, components/ExamPaper.tsx): the answer list as an association list with upsert and look-up; the matching-answer handler (decode, set one key, encode); the drop-down selection; the sidebar's "answered" test and the progress figure; confirmed submission. Class `Paper` holds `answers` and `activeQuestionIndex` and updates them in place.
- **ExamInput** (`exam_input.dfy`, components/ExamInput.tsx): class `Input` with `text` and the attachment list, append on a completed read, removal by position, the generate-button rule and the payload without file names.
- **GeminiService** (`gemini_service.dfy`, geminiService.ts): the ordered request parts (instruction, optional text part, one inline part per attachment), data-URL stripping, and how a service reply becomes an exam, a report or an error. An empty grading reply is refused before parsing.
- **App** (`app.dfy`, App.tsx): the step machine INPUT → EXAM → RESULT → INPUT. `AppState` and its transition functions are the specification. Class `App` updates the five state fields the way the handlers do and is proved to follow them.
  - Under the handlers as written, every sequence of events keeps a weaker invariant, `Settled`: the input step has neither an exam nor a result, and the results step was reached with an exam.
  - A service reply whose text is `null` parses successfully and is stored as the exam or the result. That leaves a step with nothing to render; see Findings.
  - With such replies refused, the full invariant holds over every sequence of events: the exam step also has an exam, and the results step a result.

The model follows the code as written. Three places where the code disagrees with itself:
- The progress bar (components/ExamPaper.tsx:190) shows `answers.length`. So an answer cleared to `''` still counts as completed, although the sidebar's test at components/ExamPaper.tsx:53 does not mark it answered. See Findings.
- `parseExamContent` and `gradeExam` (geminiService.ts:94, 127) return whatever `JSON.parse` yields. Only the empty grading text is refused (geminiService.ts:126). The handlers store the value without a check (App.tsx:22, 37), while rendering needs it non-null (App.tsx:73, 80). See Findings.
- The change handler guards `JSON.parse` with a `try` (components/ExamPaper.tsx:33-35). But for a stored string that parses to `null` or to a primitive, the assignment at components/ExamPaper.tsx:36 throws outside that `try`. The model treats every such string as "no pairs yet"; see Left out.

## Model

| member | source | states |
|---|---|---|
| Types.QuestionTypeName | types.ts:2-8 | every question type has a non-empty wire name |
| Types.ParseQuestionType | types.ts:2-8 | a wire name is read only as the type that writes it |
| Types.QuestionTypeNameRoundTrip | types.ts:2-8 | reading a type's wire name gives back that type |
| Types.QuestionTypeIsClosed | types.ts:2-8 | exactly the five names MCQ, TRUE_FALSE, FILL_IN_BLANK, WORKOUT, MATCHING are question types |
| Types.AppStepName | types.ts:31 | every step has a non-empty name |
| Types.ParseAppStep | types.ts:31 | exactly 'INPUT', 'EXAM' and 'RESULT' are steps, each read as the step that writes it |
| Types.AppStepNameRoundTrip | types.ts:31 | reading a step's name gives back that step |
| MatchingCodec.Get | components/ExamPaper.tsx:149 | `o[k]` is absent exactly when no member has name k, and otherwise is the value of a member named k |
| MatchingCodec.Put | components/ExamPaper.tsx:36 | `o[k] = v` keeps every member's name and position, appends k at the end when new, and leaves members of other names unchanged |
| MatchingCodec.GetAfterPut | components/ExamPaper.tsx:36 | after `o[k] = v`, k reads v and every other key reads as before |
| MatchingCodec.PutKeepsNamesUnique | components/ExamPaper.tsx:36 | assignment keeps member names distinct |
| MatchingCodec.PutIdempotent | components/ExamPaper.tsx:36 | assigning the same key and value twice equals assigning once |
| MatchingCodec.Collect | components/ExamPaper.tsx:34 | the object `JSON.parse` builds from the members it reads has distinct names |
| MatchingCodec.CollectUnique | components/ExamPaper.tsx:34 | members with distinct names are rebuilt exactly, in order |
| MatchingCodec.Encode | components/ExamPaper.tsx:37 | the encoding is a brace-delimited object text |
| MatchingCodec.Decode | components/ExamPaper.tsx:34 | a decoded object has distinct names; text that does not start with `{` after whitespace is refused |
| MatchingCodec.ParseEscapedChar | components/ExamPaper.tsx:34-37 | every character escape `JSON.stringify` writes reads back as that character |
| MatchingCodec.ParseEscapedString | components/ExamPaper.tsx:34-37 | every escaped string literal reads back as the original string |
| MatchingCodec.ParseEncodedMember | components/ExamPaper.tsx:34-37 | an encoded member reads back as itself |
| MatchingCodec.ParseEncodedMembers | components/ExamPaper.tsx:34-37 | an encoded member list reads back as itself, up to the closing brace |
| MatchingCodec.DecodeEncode | components/ExamPaper.tsx:34-37 | decoding an encoding gives the object `JSON.parse` would build from its members |
| MatchingCodec.DecodeEncodeUnique | components/ExamPaper.tsx:34-37 | round-trip law: an object with distinct names decodes back to itself |
| MatchingCodec.StoredPairs | components/ExamPaper.tsx:31-35 | the pairs read before a change: none for an empty answer or one that does not decode, the decoded object otherwise, always with distinct names |
| MatchingCodec.SetMatchingPair | components/ExamPaper.tsx:30-37 | the stored matching answer is never empty and starts with `{` |
| MatchingCodec.Selection | components/ExamPaper.tsx:146-150 | the drop-down shows the stored value for the key, or `''` when the answer is absent, undecodable or lacks the key; it agrees with what the change handler reads |
| MatchingCodec.SetMatchingPairRoundTrip | components/ExamPaper.tsx:30-37 | the new answer decodes to the old pairs with only the key set to the value, in place or at the end; every other key keeps its value |
| MatchingCodec.SetMatchingPairIdempotent | components/ExamPaper.tsx:30-37 | repeating the same choice stores the identical string |
| MatchingCodec.SelectionAfterSet | components/ExamPaper.tsx:30-37 | after a choice its drop-down shows it and every other drop-down is unchanged |
| MatchingCodec.StoredPairsOfNothing | components/ExamPaper.tsx:33-35 | `''`, `{}`, `null` and truncated text all mean "no pairs yet" |
| ExamPaper.Find | components/ExamPaper.tsx:17 | `find` returns the first entry of the list for that question, and nothing exactly when the question has no entry |
| ExamPaper.GetAnswer | components/ExamPaper.tsx:23 | the answer of a recorded entry for the question, and `''` for a question never recorded |
| ExamPaper.Upsert | components/ExamPaper.tsx:15-20 | a new question gets one entry `{questionId, answer}` at the end; a recorded one keeps length, order and ids with only its answer replaced |
| ExamPaper.UpsertKeepsIdsUnique | components/ExamPaper.tsx:15-20 | one entry per question before means one entry per question after, and the question is recorded |
| ExamPaper.GetAnswerAfterUpsert | components/ExamPaper.tsx:15-23 | after recording, the question reads the latest answer and every other question reads what it did before |
| ExamPaper.FindAfterUpsert | components/ExamPaper.tsx:15-23 | recording one question does not change what `find` returns for another |
| ExamPaper.IsAnswered | components/ExamPaper.tsx:53 | a question the sidebar marks answered has an entry in the list |
| ExamPaper.IsAnsweredMeansNonEmpty | components/ExamPaper.tsx:53 | with one entry per question, the sidebar's "answered" test holds exactly when the recorded answer is non-empty |
| ExamPaper.IsAnsweredAfterUpsert | components/ExamPaper.tsx:15-20 | after recording, the question is answered exactly when the new answer is non-empty; others are unchanged |
| ExamPaper.AnsweredCount | components/ExamPaper.tsx:52-53 | the number of questions the sidebar marks answered, at most the number of questions |
| ExamPaper.AnsweredCountAfterUpsert | components/ExamPaper.tsx:15-20 | recording changes the answered count only through the recorded question: minus one if it was answered, plus one if the new answer is non-empty |
| ExamPaper.AnsweredCountOfNothing | components/ExamPaper.tsx:52-53 | a fresh paper shows no question answered |
| ExamPaper.CompletedCoversAnswered | components/ExamPaper.tsx:53 | with distinct question ids, "Completed" is never below the number of questions marked answered |
| ExamPaper.ClearedAnswerStillCompleted | components/ExamPaper.tsx:190 | an answer cleared to `''` still counts as completed while the sidebar shows it unanswered |
| ExamPaper.Paper.constructor | components/ExamPaper.tsx:11-12 | a new paper has no answers and the focus on the first question |
| ExamPaper.Paper.HandleAnswer | components/ExamPaper.tsx:15-21 | the list becomes its upsert and keeps one entry per question; the focus is unchanged |
| ExamPaper.Paper.ScrollToQuestion | components/ExamPaper.tsx:25-28 | the focus moves to the given index and the answers are unchanged |
| ExamPaper.Paper.HandleMatchingAnswer | components/ExamPaper.tsx:30-38 | the question's answer becomes `SetMatchingPair` of its current answer, through the same upsert |
| ExamPaper.Paper.HandleSubmit | components/ExamPaper.tsx:40-45 | the answers go out unchanged only when confirmed; otherwise nothing is submitted and nothing changes |
| ExamInput.RemoveAtSpec | components/ExamInput.tsx:32 | filtering by position drops exactly the element at the index and keeps the rest in order; an index outside the list changes nothing |
| ExamInput.RemoveAt | components/ExamInput.tsx:32 | filtering by position shortens the list by one exactly when the index is in range |
| ExamInput.ProjectAppend | components/ExamInput.tsx:18-25 | a completed read adds exactly one payload entry, at the end, with data and type and no name |
| ExamInput.ProjectRemoveAt | components/ExamInput.tsx:31-33 | removing an attachment removes exactly its payload entry, whatever the index |
| ExamInput.Input.GenerateDisabled | components/ExamInput.tsx:74 | generate is enabled exactly when the request built from the form would carry a content part after the instruction |
| ExamInput.Input.GeneratePayload | components/ExamInput.tsx:73 | the text is handed on unchanged, each attachment's data and MIME type in order without its name, and the payload is non-empty exactly when generate is enabled |
| ExamInput.EnabledRequestHasContent | components/ExamInput.tsx:73-74 | when generate is enabled, the text is handed on unchanged and the request has a content part after the instruction |
| ExamInput.Input.constructor | components/ExamInput.tsx:9-10 | the form starts with empty text and no files |
| ExamInput.Input.SetText | components/ExamInput.tsx:49 | typing replaces the text and keeps the files |
| ExamInput.Input.FileLoaded | components/ExamInput.tsx:18-25 | a completed read with a result appends exactly one `{data, mimeType, name}` at the end |
| ExamInput.Input.RemoveFile | components/ExamInput.tsx:31-33 | exactly the element at the index is removed, the others keep their order; an out-of-range index changes nothing |
| GeminiService.Split | geminiService.ts:81 | `split` gives at least one piece and no piece holds the separator |
| GeminiService.StripDataUrl | geminiService.ts:81 | a string without a comma comes back unchanged |
| GeminiService.StripDataUrlSpec | geminiService.ts:81 | the result is the text between the first and second comma when non-empty, else the whole string |
| GeminiService.InlinePart | geminiService.ts:81 | each attachment becomes an inline-data part with its own MIME type and its data stripped of any data-URL header, so data holding no comma passes unchanged |
| GeminiService.Parts | geminiService.ts:71-82 | the instruction comes first; the text part follows only for non-empty text; one inline part per file follows in input order; length is 1 + (text ? 1 : 0) + files |
| GeminiService.BuildParts | geminiService.ts:71-82 | the push loop builds exactly those parts |
| GeminiService.ExamReply | geminiService.ts:84-94 | digitization succeeds exactly when the call returned non-empty text that parses; it resolves to the parsed value, `null` included; a failed call carries its message |
| GeminiService.ParseExamContent | geminiService.ts:69-95 | sends those parts and resolves to that outcome |
| GeminiService.GradingReply | geminiService.ts:115-127 | an empty reply is an `EmptyResponse` failure whatever the parse; success needs non-empty, parseable text and resolves to the parsed value, `null` included |
| GeminiService.GradeExam | geminiService.ts:97-128 | sends questions and answers; an empty reply fails with "Empty response from grading engine." |
| App.StartExamStep | App.tsx:17-29 | on success the resolved value is stored as the exam and the step is EXAM; on failure step and exam stay; loading is off in both cases |
| App.SubmitStep | App.tsx:31-46 | nothing happens without an exam; on success the resolved value is stored as the result and the step is RESULT, exam unchanged; on failure step, exam and result stay |
| App.ResetStep | App.tsx:48-52 | from any state: step INPUT, no exam, no result |
| App.RunKeepsSettled | App.tsx:17-52 | the handlers as written keep the input step empty and reach the results step only with an exam, over any sequence of events |
| App.PaneOf | App.tsx:69-85 | the input pane renders exactly in the input step; the exam and results panes only in their step and only with its data |
| App.NullExamReplyShowsNothing | App.tsx:21-23 | as written, a digitization reply `null` shows the exam step with no exam and an empty main area |
| App.NullGradingReplyShowsNothing | App.tsx:36-38 | as written, a grading reply `null` shows the results step with no result and an empty main area |
| App.RefuseNull | App.tsx:21-38 | the correction turns a call resolving to `null` into a malformed-reply failure of the same kind of event and leaves every other event unchanged |
| App.GuardedNullReplyKeepsState | App.tsx:21-38 | under the correction a generate or submit call resolving to `null` leaves the step, the exam and the result as they were |
| App.GuardedNextKeepsInvariant | App.tsx:17-52 | every corrected transition keeps the full invariant |
| App.GuardedRunKeepsInvariant | App.tsx:17-52 | the full invariant holds after any sequence of corrected transitions |
| App.ReachableStatesKeepInvariant | App.tsx:11-52 | with `null` replies refused, in every state reachable from the initial one EXAM has an exam and RESULT has an exam and a result |
| App.EmptyGradingReplyKeepsExam | App.tsx:35-45 | an empty grading reply in the exam step keeps the step, the exam and the result |
| App.PaneFollowsStep | App.tsx:69-85 | under the invariant exactly the pane of the current step renders, with its data; never a blank main area |
| App.App.constructor | App.tsx:11-15 | the initial state is INPUT, no exam, no result, not loading |
| App.App.HandleStartExam | App.tsx:17-29 | the fields follow `StartExamStep` and `Settled` is kept |
| App.App.CalculateScore | App.tsx:31-46 | the fields follow `SubmitStep` and `Settled` is kept |
| App.App.ResetApp | App.tsx:48-52 | the fields follow `ResetStep` and `Settled` is kept |
| App.EmptyGradingKeepsAnswers | App.tsx:35-45 | a confirmed submission with an empty grading reply leaves the exam step and every recorded answer in place |

## Left out

- Network calls to the generative service (geminiService.ts:84-94, 115-123): I/O through a library outside the model. Their outcome (`reply`) and what `JSON.parse` makes of the reply (`parsed`) are parameters.
- The grading instructions sent to the service (geminiService.ts:99-113): they are natural-language rules that no code enforces. `GradeExam` keeps the questions and answers it sends, not the surrounding instruction text.
- components/ExamResults.tsx and components/Header.tsx: rendering and a floating-point percentage. They are not part of this model.
- JSX, CSS, scrolling and the loading overlay: no logic. `activeQuestionIndex` is kept as a field set by index.
- `window.confirm` is the `confirmed` parameter of `HandleSubmit`. `alert` and `console.error` are dropped.
- `handleFileChange` starting the reads (ExamInput.tsx:13-29): asynchronous I/O. Each completed read is a `FileLoaded` event, and the order reads complete in is not modelled. A missing read result is passed as `""`.
- Concurrency: interleaved handlers (such as a reset while a call is pending) are not modelled. Each handler runs as one atomic step, with its call already settled.
- `points`, `score`, `totalPoints` and `earnedPoints` are `int`. Decimal weights are not represented, and no arithmetic is done on them.
- MatchingCodec.Decode: accepts only flat objects whose members are strings. Other valid JSON decodes to `None` and is treated as "no pairs", which is the only text the encoder can produce. The code would keep non-string members. For `null` or a primitive it would throw at ExamPaper.tsx:36, outside the `try`, and leave the answer unchanged.
- MatchingCodec.Put: JavaScript objects list integer-like keys first, in numeric order. The model keeps insertion order. Every property is stated per key, so it is unaffected. Only the exact stored string can differ for such keys.
- MatchingCodec.Selection: inherited object properties are not modelled. A key such as `constructor` would read an inherited value, and assigning `__proto__` would not create a member.
- MatchingCodec.ParseUnicodeEscape: a lone surrogate escape is refused, because a Dafny `char` is a Unicode scalar value. For the same reason the encoder never meets a lone surrogate.
- ExamPaper.Paper.HandleMatchingAnswer: the handler reads `answers` as of the last render, while `handleAnswer` updates from the latest state. In a sequential model these are the same list.
- GeminiService.ExamReply: a reply that parses to something other than `null` or a value of the expected shape is not represented. The code stores such a value unchecked. A falsy one (`0`, `false`, `""`) then leaves the same blank main area as `null`, through the guards at App.tsx:73 and App.tsx:80. A truthy one of the wrong shape, such as a number or an object missing `questions`, reaches the pane and fails there, at components/ExamPaper.tsx:52 for an exam and components/ExamResults.tsx:29 for a report. The model's `Parsed` covers a parse failure, `null` and a well-formed value.
- GeminiService.GradingReply: the same limit as `ExamReply`, for the grading report.
- App.App.HandleStartExam: class `App` follows the handlers as written, so it keeps only `Settled`. The full invariant is proved for the corrected transitions (`GuardedNext`), not for the class.

## Findings

| source | as written | input that shows it | evidently intended | confidence | as-written member | corrected member |
|---|---|---|---|---|---|---|
| components/ExamPaper.tsx:190 | "Completed" shows `answers.length`, which counts entries whose answer was cleared to `''` | one fill-in-the-blank question; type `Paris`, then clear the text to `''`: shows "1 / 1 Completed" while the sidebar marks nothing answered | count only questions with a non-empty answer, as the sidebar test at line 53 does | medium; not executed | ExamPaper.ClearedAnswerStillCompleted | ExamPaper.AnsweredCountAfterUpsert |
| App.tsx:22-23 | a digitization reply that parses to `null` is stored as the exam and the exam step is shown | a reply whose text is `null`: the step becomes EXAM with no exam, and the guard at App.tsx:73 renders nothing | refuse a non-object reply as a failed digitization, as a reply that does not parse is | low; not executed | App.NullExamReplyShowsNothing | App.ReachableStatesKeepInvariant |
| App.tsx:37-38 | a grading reply that parses to `null` passes the empty-text test at geminiService.ts:126 and is stored as the result | a grading reply whose text is `null`: the step becomes RESULT with no result, and the guard at App.tsx:80 renders nothing | refuse it as a failed grading, keeping the exam step | low; not executed | App.NullGradingReplyShowsNothing | App.ReachableStatesKeepInvariant |
