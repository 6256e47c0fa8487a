# heart-schedule: scheduled dispatch and message generation, in Dafny

This project models two pieces of the heart-schedule application and proves properties of them.

1. **The scheduled-dispatch cycle.** This is the `GET` handler of `app/api/cron/send-scheduled/route.ts`. One invocation:
   - checks the bearer secret;
   - selects at most 50 pending messages whose `scheduledAt` has passed;
   - tries one send per message, in batch order;
   - marks each message `sent` (stamping `sentAt`) or `failed`;
   - answers with a report, or with 401, "No messages to send" or 500.
2. **The pure logic of `generateMessage` in `lib/ai.ts`.** This covers:
   - the tone and occasion tables;
   - the optional `" for <name>"` fragment;
   - prompt assembly;
   - extraction of the subject and body from the model's reply with the two `SUBJECT:`/`BODY:` regular expressions, then trimming;
   - the single fixed failure message.

The outside world is not modelled. It enters as inputs instead:
- The database is a `map` from id to row. The rows come back in a scan `order`, which is an input because the query has no `orderBy`.
- Each awaited call is an `Attempt` that either returns or throws:
  - the query;
  - the send;
  - the `sent` write;
  - the `failed` write.
- The clock reading `new Date()` for each message is an input.
- The secret is an input.
- The language-model reply is an input `Completion`.

The cycle is a pure function, `Dispatch.Dispatch`. Its loop `Dispatch.Run` is a left fold over the batch. `DispatchFacts` describes the outcome in closed form:
- `Expected` gives the table with a prefix of the batch settled;
- `DeliveredCount` and `ErrorLines` give the report;
- `Requests` gives the send requests.

It then proves that the loop matches these reference definitions for every batch and every pattern of failures. The model keeps two behaviours of the code:
- One `try` block covers both the send and the `sent` write. A message whose send succeeded but whose `sent` write threw is therefore marked `failed`.
- The `failed` write sits inside the `catch`. If it throws, the whole cycle ends with 500, and the writes already committed stay.

The regular expressions are modelled by what `String.prototype.match` does with them. Each is written out as string functions:
- a leftmost search over start positions;
- a greedy `\s*` that gives characters back;
- a lazy capture;
- no `m` or `s` flag;
- ASCII-only case folding for `/i`.

Three consequences are proved:
- A blank subject line makes the subject the next non-blank line (`ReplyParser.BlankSubjectTakesNextLine`).
- A `SUBJECT:` line that carries text and ends in a line terminator other than `\n` is not a match at that marker. This covers a carriage return, as in a CRLF reply, and U+2028 and U+2029 (`ReplyParser.CarriageReturnDefeatsSubject`).
- A `SUBJECT:` marker followed only by spaces up to the end of the reply still matches, and the trimmed subject is empty (`ReplyParser.BlankTrailingSubject`).

Two behaviours of the code shape the cycle:
- A throwing `failed` write aborts the cycle with 500 (route.ts:74-79, 90-98).
- Updates are unconditional by id (route.ts:61-62, 74-75).

Files:
- `wrappers.dfy` defines `Option` and `Result`.
- `text.dfy` covers ECMAScript whitespace, `trim`, and case-insensitive markers.
- `ai_prompt.dfy` covers the tables and the prompts.
- `ai_parse.dfy` covers reply parsing.
- `messages.dfy` covers the table and the due-batch query.
- `dispatch.dfy` covers the route.
- `dispatch_facts.dfy` holds the closed forms and the invariants of a cycle.

## Model

| member | source | states |
|---|---|---|
| Dispatch.UnsetSecretAdmitsLiteralUndefined | app/api/cron/send-scheduled/route.ts:8-11 | With `CRON_SECRET` unset, the check as written accepts the header `Bearer undefined`, which the corrected check rejects |
| Dispatch.AuthorizedAsWritten | app/api/cron/send-scheduled/route.ts:8-11 | The check as written passes only a `Bearer ` header, and with `CRON_SECRET` unset it passes exactly the literal header `Bearer undefined` |
| Dispatch.AuthorizationAgreesWhenConfigured | app/api/cron/send-scheduled/route.ts:8-11 | With a configured secret, the check as written and the corrected check agree on every header; without one, the corrected check admits nobody; the corrected check never admits more than the original |
| Dispatch.Dispatch | app/api/cron/send-scheduled/route.ts:5-100 | The answer is 401 exactly when the caller is not authorised. The table is queried exactly when the caller is authorised. The set of rows never changes. At most 50 sends happen, and only after a successful query. A completed report has 0 < total <= 50, total = min(50, number of due rows), sent + failed = total, one error per failure and one send per batch message |
| Messages.SelectDue | app/api/cron/send-scheduled/route.ts:15-31 | The batch has at most 50 rows, and every row is pending, due at `now`, and the stored row itself. Ids are distinct. Its size is min(50, number of due rows). Its ids are due ids, and all of them when no more than 50 are due |
| Messages.DueInOrder | app/api/cron/send-scheduled/route.ts:15-21 | The `where` filter keeps only due rows, each as stored and each named by the scan order |
| Messages.DueInOrderCount | app/api/cron/send-scheduled/route.ts:15-21 | Filtering the scan order finds every due row exactly once |
| Messages.DueInOrderDistinct | app/api/cron/send-scheduled/route.ts:15-21 | No row is returned twice |
| Dispatch.RequestFor | app/api/cron/send-scheduled/route.ts:51-58 | The recipient email, subject and body are passed verbatim. Reply-to is the owner's email. Through the `undefined` fallback (`Dispatch.Present`), a recipient or owner name is absent exactly when it is missing or empty, and otherwise it is the name itself |
| Dispatch.ErrorLine | app/api/cron/send-scheduled/route.ts:82 | The error line reads `Message `, the id, `: `, then the cause text, so the id and the cause can be read back. The cause text (`Dispatch.CauseText`) is an `Error`'s message verbatim, and "Unknown error" for anything else thrown |
| Dispatch.MarkSent | app/api/cron/send-scheduled/route.ts:61-67 | The `sent` write makes that row `sent` with `sentAt` the clock reading. No other field of the row changes, and no other row does |
| Dispatch.MarkFailed | app/api/cron/send-scheduled/route.ts:74-79 | The `failed` write makes that row `failed`. No other field of the row changes (`sentAt` included), and no other row does |
| Dispatch.Step | app/api/cron/send-scheduled/route.ts:49-83 | One iteration issues one send request whatever happens. It aborts exactly when the `failed` write throws, leaving the table and the report as they were and carrying that write's error. Otherwise it settles the message's row and counts it once: as sent exactly when the send and the `sent` write both returned, else as failed with one error line |
| Dispatch.StatusCode | app/api/cron/send-scheduled/route.ts:10-97 | 401 exactly for Unauthorized, 500 exactly for the server error, 200 for the empty and the completed answers |
| Dispatch.Headline | app/api/cron/send-scheduled/route.ts:10-94 | A response carries its text under `error` exactly when its status is not 200, and under `message` exactly when it is 200. Each of the four kinds of answer has its own text |
| Dispatch.Run | app/api/cron/send-scheduled/route.ts:40-89 | A finished loop keeps `total` and has sent + failed = batch length, one error per failure and one send per message. An aborted loop made between 1 and batch-length sends. Neither adds or removes rows |
| DispatchFacts.StepDelivered | app/api/cron/send-scheduled/route.ts:60-69 | The `sent` write after a successful send is the reference settlement of that message: status `sent`, `sentAt` the clock reading, nothing else changed |
| DispatchFacts.StepRecorded | app/api/cron/send-scheduled/route.ts:70-81 | The `failed` write is the reference settlement of a message whose send or `sent` write threw: status `failed`, `sentAt` untouched |
| DispatchFacts.RunWithoutAbort | app/api/cron/send-scheduled/route.ts:40-84 | A loop in which no `failed` write throws runs to the end. The table has every batch row settled and no other row touched. The report counts the delivered messages as sent and the rest as failed, with their error lines in batch order. The send requests are one per message, in batch order |
| DispatchFacts.RunAbortsAt | app/api/cron/send-scheduled/route.ts:70-98 | If the first throwing `failed` write is at message k, the loop stops there. Rows before k stay settled, row k and later rows are untouched, and k + 1 sends were made |
| DispatchFacts.UnauthorizedCycle | app/api/cron/send-scheduled/route.ts:8-11 | A wrong header gives 401 with no query, no write and no send |
| DispatchFacts.ReadFailureCycle | app/api/cron/send-scheduled/route.ts:90-98 | A failing query gives 500 with the query's error text, no write and no send |
| DispatchFacts.NothingDueCycle | app/api/cron/send-scheduled/route.ts:33-38 | With no due row, the answer is "No messages to send" (200), with no write and no send |
| DispatchFacts.CompletedCycle | app/api/cron/send-scheduled/route.ts:40-89 | Without a throwing `failed` write, the cycle completes. The table has exactly the batch settled, the report is (batch length, delivered, undelivered, their error lines), and there is one send per batch message, in order |
| DispatchFacts.AbortedCycle | app/api/cron/send-scheduled/route.ts:74-98 | A throwing `failed` write at message k gives 500 with that write's error and no report. The writes for messages before k stay, and k + 1 sends were made |
| DispatchFacts.CycleSettlesPrefix | app/api/cron/send-scheduled/route.ts:48-84 | Whatever happens, the table afterwards is the original with some prefix of the batch settled |
| DispatchFacts.CycleRowsStep | app/api/cron/send-scheduled/route.ts:61-79 | Every row either stays as it was or, if it was due, becomes `failed` with `sentAt` kept, or becomes `sent` stamped with its own clock reading. No other field is rewritten |
| DispatchFacts.OutsideBatchUntouched | app/api/cron/send-scheduled/route.ts:48-84 | A row outside the batch (not due, or beyond the cap) is unchanged by every cycle |
| DispatchFacts.SettledRowsUntouched | app/api/cron/send-scheduled/route.ts:17 | A row already `sent` or `failed` is not in the batch, because the query takes only `pending` rows. So no request is issued for it, and its row is left as it was |
| DispatchFacts.NoEarlySend | app/api/cron/send-scheduled/route.ts:14-65 | If the clock does not run backwards during the cycle, a row that becomes `sent` has `sentAt` no earlier than `scheduledAt` |
| DispatchFacts.CompletedCycleDrainsBatch | app/api/cron/send-scheduled/route.ts:15-89 | After an authorised cycle in which no `failed` write throws, the due rows are exactly the previously due rows minus the batch |
| DispatchFacts.CompletedCycleLeavesNothingDue | app/api/cron/send-scheduled/route.ts:30 | With at most 50 rows due, an authorised cycle in which no `failed` write throws leaves none due |
| Prompt.ToneDescription | lib/ai.ts:35-40 | Every tone has a non-empty description |
| Prompt.OccasionTemplate | lib/ai.ts:42-50 | Every occasion has a non-empty template |
| Prompt.ToneDescriptionInjective | lib/ai.ts:35-40 | Different tones have different descriptions |
| Prompt.OccasionTemplateInjective | lib/ai.ts:42-50 | Different occasions have different templates |
| Prompt.RecipientText | lib/ai.ts:55 | Empty exactly when the name is absent or empty, otherwise " for " followed by the name verbatim |
| Prompt.SystemPrompt | lib/ai.ts:59-68 | The system prompt contains the tone description verbatim, right after the fixed opening |
| Prompt.SystemPromptDeterminesTone | lib/ai.ts:59-68 | Different tone descriptions give different system prompts |
| Prompt.UserPrompt | lib/ai.ts:70-82 | The user prompt contains the looked-up occasion text immediately followed by the recipient fragment, the tone description and the sender's context, each verbatim. It always closes with the request for the `SUBJECT:`/`BODY:` layout |
| Prompt.UserPromptOf | lib/ai.ts:70-82 | The sender's context sits verbatim between the fixed text ending in `Context from the sender: ` and the closing layout request |
| Prompt.TemplateMentionsInputs | lib/ai.ts:70-82 | The user-prompt template contains the occasion text immediately followed by the recipient fragment, and the tone text and the context, each verbatim |
| Prompt.ContentKeepsInputs | lib/ai.ts:89 | Putting the system prompt and the separator in front keeps the tone text and the context |
| Prompt.PromptContent | lib/ai.ts:89 | The message sent to the model is the system prompt, a blank line, and then the whole user prompt unchanged. It closes with the layout request |
| Prompt.PromptContentMentionsInputs | lib/ai.ts:59-89 | The message sent to the model contains the occasion text immediately followed by the recipient fragment, the tone description, and the sender's context, each verbatim |
| Prompt.UserPromptDeterminesContext | lib/ai.ts:70-72 | Equal user prompts for the same occasion, name and tone mean equal contexts: the context is never lost or merged into fixed text |
| Text.SkipSpacesOver | lib/ai.ts:98-99 | The greedy `\s*` run passes over whitespace only, and stops at the first non-whitespace character at or after its start, or at the end |
| Text.FoldCase | lib/ai.ts:98-99 | `/i` folds exactly the ASCII letters a-z, to upper case, and leaves every other character as it is. Read from the marker's side: an upper-case marker letter is matched by exactly itself and its lower-case form, and any other marker character only by itself |
| Text.Trim | lib/ai.ts:106-107 | The result has no whitespace at either end and is no longer than the input |
| Text.TrimShape | lib/ai.ts:106-107 | `trim` returns a contiguous slice of its argument with only whitespace before and after it |
| Text.TrimOfPadded | lib/ai.ts:106-107 | A trimmed string surrounded by any whitespace trims back to exactly itself |
| Text.TrimDropsLeadingSpace | lib/ai.ts:106-107 | Leading whitespace does not change the result of `trim` |
| Text.TrimIdempotent | lib/ai.ts:106-107 | Trimming twice gives the same as trimming once |
| ReplyParser.LineEnd | lib/ai.ts:98 | `.` reaches up to the first line terminator, or to the end of the reply |
| ReplyParser.SubjectTail | lib/ai.ts:98 | The lazy capture followed by a line break or the end matches at k exactly when the line from k is non-empty and ends in `\n` or at the end of the reply. The capture is that line, and it holds no line terminator |
| ReplyParser.SubjectBacktrack | lib/ai.ts:98 | Backtracking `\s*` yields a non-empty single line, and the tail at the longest whitespace run wins when it matches |
| ReplyParser.BacktrackLast | lib/ai.ts:98 | Backtracking from k down to q succeeds exactly when the tail matches at some position in that range. It then yields the tail at the last such position, so the whitespace run it skips is the longest that still lets the rest of the pattern match |
| ReplyParser.SubjectAt | lib/ai.ts:98 | A subject capture exists only where `SUBJECT:` occurs in any letter case, and it is a non-empty single line |
| ReplyParser.FindSubject | lib/ai.ts:98 | The leftmost match wins: a match at the current start position is the result |
| ReplyParser.FindSubjectLeftmost | lib/ai.ts:98 | The search from p succeeds exactly when the subject pattern matches at some position at or after p. It then yields the capture at the first such position, with no match between p and it |
| ReplyParser.BodyBreak | lib/ai.ts:99 | The line break the body pattern uses lies within the whitespace after `BODY:` and has at least one character after it. It is the last such break of the run, and one is found exactly when the run holds one |
| ReplyParser.BodyAt | lib/ai.ts:99 | A body capture exists only where `BODY:` occurs in any letter case, and it is non-empty |
| ReplyParser.FindBody | lib/ai.ts:99 | The leftmost match wins: a match at the current start position is the result |
| ReplyParser.FindBodyLeftmost | lib/ai.ts:99 | The search from p succeeds exactly when the body pattern matches at some position at or after p. It then yields the capture at the first such position, with no match between p and it |
| ReplyParser.Parse | lib/ai.ts:98-108 | Parsing succeeds exactly when both patterns match. The subject is then the trimmed subject capture, on one line, and the body is the trimmed body capture |
| ReplyParser.TrimKeepsNoLineTerminator | lib/ai.ts:106 | Trimming a single-line capture keeps it on one line |
| ReplyParser.GenerateMessage | lib/ai.ts:95-111 | Missing content counts as the empty reply (`ReplyParser.ReplyText`). Success exactly when the call returned and the reply parses, and then with exactly the parsed subject and body. Every failure carries "Failed to generate message. Please try again." |
| ReplyParser.SubjectAfterFirstMarker | lib/ai.ts:98 | The subject capture is the line that follows the first `SUBJECT:` marker once whitespace (line breaks included) is skipped, when that line ends in `\n` or at the end |
| ReplyParser.CarriageReturnDefeatsSubject | lib/ai.ts:98 | A `SUBJECT:` marker whose line carries text and ends in `\r`, U+2028 or U+2029 is not a match at that marker, provided the whitespace after the marker stays on that line |
| ReplyParser.BlankTrailingSubject | lib/ai.ts:98-106 | A `SUBJECT:` marker followed only by spaces to the end of the reply matches with the last space as the capture, so the trimmed subject is empty |
| ReplyParser.BodyAfterFirstMarker | lib/ai.ts:99-107 | When the whitespace after the first `BODY:` marker holds a line break with text after it, the trimmed body is the trimmed rest of the reply after that marker |
| ReplyParser.BodyNeedsLineBreak | lib/ai.ts:99 | A `BODY:` marker without a line break in the whitespace that follows it is not a match at that marker |
| ReplyParser.ParseAtFirstMarkers | lib/ai.ts:98-108 | Under the conditions above, the parse is the trimmed line after the first `SUBJECT:` marker together with the trimmed rest after the first `BODY:` marker |
| ReplyParser.MissingSubjectMarkerFails | lib/ai.ts:98-103 | A reply without `SUBJECT:` in any letter case does not parse |
| ReplyParser.MissingBodyMarkerFails | lib/ai.ts:99-103 | A reply without `BODY:` in any letter case does not parse |
| ReplyParser.NoContentFails | lib/ai.ts:95-111 | A failed call, or a reply without content, gives the fixed failure message |
| ReplyParser.LayoutRoundTrip | lib/ai.ts:78-107 | A reply in the requested `SUBJECT: …` / blank line / `BODY:` / body layout parses back to exactly its subject and body, for every single-line trimmed subject without a `BODY:` marker and every non-empty trimmed body |
| ReplyParser.GenerateFromLayout | lib/ai.ts:78-108 | Such a reply makes `generateMessage` succeed with exactly that subject and body |
| ReplyParser.BlankSubjectTakesNextLine | lib/ai.ts:98-107 | In the requested layout with an empty subject, the subject comes out as "BODY:" (the next line) while the body is still found |

## Left out

- The OpenRouter/OpenAI client (lib/ai.ts:3-18, 84-94) is a network call with lazy initialisation, a model name and sampling settings. The model takes its result as an input `Completion`.
- `lib/prisma` and `lib/email` are not part of this model. The query, the two writes and the send are `Attempt` inputs that return or throw, and a thrown `Error`'s message is an input too.
- The row order of `findMany` without `orderBy` is chosen by the database. It is an input `order` that lists every stored id once.
- Overlapping invocations and a conditional (compare-and-set) update are not modelled, because the code's updates are unconditional by id. The model covers one invocation on a table nobody else writes.
- Dates are integers, and time zones and DST are not modelled. The clock reading for each message's `sentAt` is an input, and `NoEarlySend` assumes it is not earlier than `now`.
- `console.error` logging and JSON/HTTP framing are left out. Beyond the status code (`Dispatch.StatusCode`) and the text with its field name (`Dispatch.Headline`), the response keeps only its fields.
- `app/page.tsx`, `scripts/check-setup.ts` and the dashboard pages are not part of this model.
- Dispatch.Dispatch: authorises with the corrected `Authorized`, not the check as written. The as-written check is modelled separately (`Dispatch.AuthorizedAsWritten`), and the finding below relates the two.
- Text.FoldCase: folds only ASCII letters. Folding between non-ASCII characters is left out. It cannot affect a match against the ASCII markers `SUBJECT:` and `BODY:`, because no non-ASCII character folds onto an ASCII one.
- Strings are sequences of Unicode scalar values rather than UTF-16 code units. Every whitespace and line-terminator character lies in the Basic Multilingual Plane, so what matches and what is trimmed agrees. Positions differ for text beyond it.
- ReplyParser.SubjectAfterFirstMarker: states the subject only when the line after the first marker ends in `\n` or at the end of the reply. The other endings are covered only in part, and what a later marker then yields is not stated:
  - `ReplyParser.CarriageReturnDefeatsSubject` covers a line that carries text and ends in `\r`, U+2028 or U+2029 directly after the marker.
  - No lemma covers a blank `SUBJECT:` line whose whitespace run crosses a line break and reaches a line ending in `\r`, U+2028 or U+2029.
  - `ReplyParser.BlankTrailingSubject` states the case of a marker followed only by spaces to the end of the reply. `Parse` then succeeds with an empty subject when a body is also found.
- ReplyParser.BodyAfterFirstMarker: states the body up to trimming, which is what `generateMessage` returns, not the untrimmed capture.

## Findings

| source | as written | input that shows it | evidently intended | confidence | as-written member | corrected member |
|---|---|---|---|---|---|---|
| app/api/cron/send-scheduled/route.ts:9 | The header is compared with the template literal `Bearer ${process.env.CRON_SECRET}`, which becomes the text "Bearer undefined" when the variable is unset | `CRON_SECRET` unset and header `authorization: Bearer undefined`: the request is authorised and the batch is sent | With no secret configured, no caller is authorised | medium, not executed | Dispatch.AuthorizedAsWritten, with Dispatch.UnsetSecretAdmitsLiteralUndefined exhibiting the header that passes | Dispatch.Authorized, with Dispatch.AuthorizationAgreesWhenConfigured proving that it admits nobody without a secret and agrees with the original otherwise |
