# ARGUS Sales Closer: retry policy and chat transcript machine

This project models the two pieces of sequential control logic in the ARGUS
Sales Closer dashboard, and proves their properties in Dafny.

- **The resilient AI call wrapper** (`services/geminiService.ts`). `withRetry`
  is a bounded retry loop. It classifies each failure of the wrapped call by
  a case-insensitive substring test on the error message ("429",
  "resource_exhausted", "quota"). After a quota error with attempts left it
  waits `baseDelay * 2^i` and tries again; any other failure is rethrown.
  The two domain calls built on it, `analyzeLeadSentiment` and
  `generateTerritoryBriefing`, turn any failure into a fixed fallback value.
- **The chat widget's send handler** (`components/MarketChat.tsx`). The
  widget holds a transcript of `{role, text}` messages, the input box text
  and a typing flag. `handleSend` is guarded by "some visible input and no
  reply in progress". It clears the input, appends the user's message and
  raises the flag. It then streams the reply into one model message, chunk
  by chunk, appends a fixed notice if the exchange fails, and lowers the
  flag.

The files:

- `js_text.dfy` (module `JsText`) holds an optional value and the three
  ECMAScript string built-ins the control logic relies on: `toLowerCase`,
  `includes` and `trim`. Each comes with lemmas tying it to an independent
  definition.
- `gemini_service.dfy` (module `GeminiService`) holds the rest of the service
  model:
  - the quota classifier;
  - the retry loop, both as a specification function `RetryFrom`/`Retry`
    and as the imperative method `WithRetry` proved equal to it;
  - the full characterisation `RetryBehaviour` and its corollaries;
  - the two fallback wrappers.

  The wrapped call is a function from the attempt number to that attempt's
  outcome. Sleeping is recorded as a list of delays.
- `market_chat.dfy` (module `MarketChatModel`) holds the class `MarketChat`.
  Its fields are `messages`, `input` and `isTyping`. Two ghost histories sit
  beside them: every transcript handed to `setMessages`, and the typing flag
  at each of those calls. Its methods follow `handleSend` step by step.
  Specification functions describe the final transcript (`Answered`) and the
  sequence of `setMessages` updates (`SendUpdates`).
  The chat service's reply is an input: either no stream, or a list of
  chunks that ends normally or breaks.

## Model

| member | source | states |
|---|---|---|
| JsText.ToLower | services/geminiService.ts:16 | `toLowerCase` returns a string equal to its input up to ASCII letter case, with no capital letter left |
| JsText.ToLowerUnique | services/geminiService.ts:16 | Any string equal to the input up to case and free of capitals is the lower-cased input, so those two properties pin `toLowerCase` down |
| JsText.ToLowerIgnoresCase | services/geminiService.ts:16-17 | Strings equal up to ASCII letter case lower-case to the same string, and lower-casing is idempotent |
| JsText.StartsWithIffPrefix | services/geminiService.ts:17 | The character-by-character prefix test holds exactly when `prefix` is a slice at the start of `s` |
| JsText.IncludesIffOccurs | services/geminiService.ts:17 | `includes` holds exactly when the needle occurs at some index of the string (both directions) |
| JsText.EmptyIncludesNothing | services/geminiService.ts:16-17 | A non-empty needle is never found in the empty string |
| JsText.IncludesLowered | services/geminiService.ts:16-17 | An occurrence survives lower-casing of both haystack and needle |
| JsText.TrimStart | components/MarketChat.tsx:30 | Leading white space removal yields a suffix whose dropped part is blank and whose first character is visible |
| JsText.TrimEnd | components/MarketChat.tsx:30 | Trailing white space removal yields a prefix whose dropped part is blank and whose last character is visible |
| JsText.Trim | components/MarketChat.tsx:30 | `trim` never lengthens the string |
| JsText.LeadingBlanks | components/MarketChat.tsx:30 | The count of leading white space is at most the length, and dropping it gives the left-trimmed string |
| JsText.InfixBetweenBlanks | components/MarketChat.tsx:30 | A suffix left after a blank head, cut before a blank tail, is an infix of the original with blank margins on both sides |
| JsText.TrimShape | components/MarketChat.tsx:30 | `trim` returns an infix of the input with only white space before and after it, and it is empty or begins and ends with a visible character |
| JsText.TrimEmptyIffBlank | components/MarketChat.tsx:30 | The trimmed input is empty exactly when the input is all white space (both directions) |
| JsText.TrimIdempotent | components/MarketChat.tsx:32 | Trimming the trimmed message again changes nothing |
| GeminiService.LoweredMessage | services/geminiService.ts:16 | The classified text has no capitals and equals a present message up to case; it is empty exactly when the message is missing or empty |
| GeminiService.MissingMessageIsNotQuota | services/geminiService.ts:16-17 | An error with no message, or an empty one, is not a quota error |
| GeminiService.QuotaClassificationIgnoresCase | services/geminiService.ts:16-17 | Messages that differ only in letter case are classified alike |
| GeminiService.ResourceExhaustedIsQuota | services/geminiService.ts:16-17 | A message mentioning the upper-case status name "RESOURCE_EXHAUSTED" is a quota error |
| GeminiService.LowerResourceExhausted | services/geminiService.ts:16-17 | The upper-case status name lower-cases to the classifier's needle |
| GeminiService.StatusCode429IsQuota | services/geminiService.ts:17 | A message mentioning "429" is a quota error |
| GeminiService.RetryFromCalls | services/geminiService.ts:11-25 | From iteration `i`, the loop invokes the call between 1 and `retries - i` times and waits one time fewer |
| GeminiService.RetryFromWaitAt | services/geminiService.ts:19-23 | The j-th wait from iteration `i` is `baseDelay * 2^(i + j)` |
| GeminiService.RetryFromRetried | services/geminiService.ts:19-23 | Every invocation but the last failed with a quota error while attempts were left |
| GeminiService.RetryFromLast | services/geminiService.ts:11-25 | The last invocation stops the loop: it succeeded, failed with a non-quota error, or was the last attempt; its value is returned or its error rethrown |
| GeminiService.RetryBehaviour | services/geminiService.ts:9-29 | The whole of `withRetry`: no call and `undefined` thrown when `retries <= 0`; otherwise 1 to `retries` calls, the j-th wait `baseDelay * 2^j`, every call but the last a quota failure, and the last one decides the result |
| GeminiService.UndefinedThrownIffNoAttempts | services/geminiService.ts:10-28 | `undefined` is thrown, and the call is never invoked, exactly when `retries <= 0` |
| GeminiService.FirstStopDecides | services/geminiService.ts:11-25 | If attempt `k` is the first that stops the loop, there are exactly `k + 1` calls and `k` waits, and attempt `k` decides the result |
| GeminiService.FirstSuccessWins | services/geminiService.ts:11-13 | A first success after quota failures only is returned after exactly `k + 1` calls |
| GeminiService.NonQuotaErrorIsFinal | services/geminiService.ts:19-25 | A non-quota error is rethrown as it is, with no wait after it and no further call |
| GeminiService.QuotaExhaustion | services/geminiService.ts:19-25 | When every attempt hits the quota: exactly `retries` calls, `retries - 1` waits, and the last attempt's error is thrown |
| GeminiService.DefaultBackoffSchedule | services/geminiService.ts:9-23 | With the defaults (3 attempts, 1500 ms), a call always hitting the quota is made 3 times with waits of 1500 then 3000 ms |
| GeminiService.Always429Scenario | services/geminiService.ts:9-29 | 3 attempts at base delay 100 against a call always answering "429": 3 calls, waits [100, 200], and the 429 error thrown |
| GeminiService.WithRetry | services/geminiService.ts:9-29 | The loop as written (counter, `lastError`, `continue`, `throw`) ends exactly as the specification `Retry` says: same result, same number of calls, same waits |
| GeminiService.RetryOrFallback | services/geminiService.ts:32-59 | The wrapper never throws: it returns the fallback or the value of a successful attempt within the first three |
| GeminiService.FallbackPassesFirstSuccess | services/geminiService.ts:32-33 | A success within three attempts, after quota errors only, is passed through |
| GeminiService.FallbackOnAnyFailure | services/geminiService.ts:52-59 | Any failure of the retried call, quota or not, yields the fallback |
| GeminiService.AnalyzeLeadSentiment | services/geminiService.ts:31-61 | `analyzeLeadSentiment` never throws: it returns the canned report or a report the call produced |
| GeminiService.SentimentQuotaExhausted | services/geminiService.ts:52-59 | A sentiment call that always hits the quota yields the canned report, score 88 |
| GeminiService.SentimentNonQuotaFailure | services/geminiService.ts:52-59 | A sentiment call whose first attempt fails for a non-quota reason yields the canned report |
| GeminiService.BriefingFallbackInjective | services/geminiService.ts:75 | Different districts get different fallback briefings |
| GeminiService.GenerateTerritoryBriefing | services/geminiService.ts:63-77 | `generateTerritoryBriefing` never throws: it returns the templated fallback or whatever a successful attempt produced, text or `undefined` |
| GeminiService.BriefingFailureNamesDistrict | services/geminiService.ts:72-76 | A failed briefing is the fallback: it starts with "In the " and has the requested district right after it |
| GeminiService.BriefingWithoutTextPassesThrough | services/geminiService.ts:65-71 | A response whose `text` is `undefined` is returned as `undefined`, not replaced by the fallback |
| MarketChatModel.StreamedTextAppend | components/MarketChat.tsx:53-55 | The streamed text of a concatenation of chunk lists is the concatenation of their streamed texts |
| MarketChatModel.StreamedTextGrows | components/MarketChat.tsx:53-55 | The text after `k` chunks is a prefix of the text after all of them |
| MarketChatModel.ReplaceLast | components/MarketChat.tsx:56-59 | The chunk updater keeps the length and every entry but the last, and puts the new message last; an empty transcript stays empty |
| MarketChatModel.ReplaceLastTwice | components/MarketChat.tsx:56-59 | Two chunk updates in a row leave only the second's text |
| MarketChatModel.ChunkUpdates | components/MarketChat.tsx:53-61 | Each chunk makes exactly one `setMessages` call |
| MarketChatModel.ChunkStep | components/MarketChat.tsx:53-61 | One more chunk appends its text (or "") to the streamed text and one transcript to the updates |
| MarketChatModel.ChunkUpdateAt | components/MarketChat.tsx:53-61 | The transcript set after chunk `k` has the streaming transcript's length and earlier entries, and a last model message holding chunks `0..k` |
| MarketChatModel.AnsweredAppends | components/MarketChat.tsx:51-64 | A send only appends one or two model messages: the streamed text right after the user's message, and the failure notice last when there is no stream or it breaks |
| MarketChatModel.ReplyUpdates | components/MarketChat.tsx:47-64 | At least one `setMessages` call follows the user's message |
| MarketChatModel.SendUpdates | components/MarketChat.tsx:34-64 | A send makes at least two `setMessages` calls, the first setting the old transcript plus the user's message |
| MarketChatModel.LastUpdateIsFinal | components/MarketChat.tsx:34-64 | The last transcript set during a send is the one the send leaves behind |
| MarketChatModel.SendKeepsEarlierMessages | components/MarketChat.tsx:34-64 | Every transcript set during a send starts with the old transcript and the user's message |
| MarketChatModel.FlagsAppend | components/MarketChat.tsx:35-61 | A run of `m` equal flags followed by a run of `n` is a run of `m + n`, and every entry of a run is that flag |
| MarketChatModel.StreamedFlags | components/MarketChat.tsx:51-61 | The flags recorded for the empty model message, each chunk and a possible notice form one run of the same flag |
| MarketChatModel.StreamedUpdateCount | components/MarketChat.tsx:51-64 | A stream makes one update for the empty model message, one per chunk, and one more if it breaks |
| MarketChatModel.MarketChat.constructor | components/MarketChat.tsx:16-20 | The initial state is one model welcome message, an empty input and the typing flag off; the histories hold that transcript with the flag off |
| MarketChatModel.MarketChat.SetInput | components/MarketChat.tsx:150 | Typing replaces the input and changes nothing else |
| MarketChatModel.MarketChat.SetMessages | components/MarketChat.tsx:34-64 | `setMessages` replaces the transcript and records it, with the current typing flag; input and flag are unchanged |
| MarketChatModel.MarketChat.StreamInto | components/MarketChat.tsx:48-61 | The streaming loop leaves the streaming transcript with its last entry holding all chunk texts, one update per chunk, each made with the same typing flag; input and flag unchanged |
| MarketChatModel.MarketChat.StreamReply | components/MarketChat.tsx:47-64 | Once the stream is obtained: an empty model message is appended and streamed into, the notice follows if the stream breaks; transcript as `Answered`, updates as `ReplyUpdates`, all with the same flag |
| MarketChatModel.MarketChat.Respond | components/MarketChat.tsx:37-64 | The `try`/`catch` of a send leaves the transcript `Answered` prescribes and makes the updates `ReplyUpdates` lists, all with the same typing flag; input and flag unchanged |
| MarketChatModel.MarketChat.Send | components/MarketChat.tsx:32-67 | Past the guard: input cleared, transcript as `Answered` prescribes for the user's message, updates as `SendUpdates`; the user's message is set with the old flag, every later update with the flag up, and the flag is lowered at the end |
| MarketChatModel.MarketChat.HandleSend | components/MarketChat.tsx:29-68 | With a blank input or a reply in progress nothing changes, histories included; otherwise the trimmed input is sent, the input is cleared, the user's message is set with the flag down, every reply update with the flag up, and the flag ends false |

## Left out

- The foreign AI calls are not modelled: `generateContent`, `chats.create`, `sendMessageStream` and `JSON.parse` of the response. The wrapped call is given as the outcome of each invocation, and the chat reply as its list of chunks and how it ends. The prompt text built from the message history, or the district, only shapes those inputs.
- Sleeping (`setTimeout` inside a promise) and async scheduling are not performed. Each wait is recorded as a delay value.
- `console.warn`/`console.error` logging and the `process.env.API_KEY` read are left out as I/O and environment.
- Rendering is left out: the JSX, the scroll-to-bottom effect, the `isOpen` toggle, `App.tsx`, `components/LeadDetail.tsx` and `components/Sidebar.tsx`. `types.ts` declares types only.
- The repository's code has no random-walk stats simulator and no CRM sync-status machine. `App.tsx` renders constant stats, so there is nothing of either to model.
- Rejections with `null`/`undefined`, or with a `message` that is neither a string nor `null`/`undefined`, are left out. The catch block would itself throw a `TypeError` reading `.message` or calling `toLowerCase`.
- Non-integer `retries` are left out. `retries` is a whole number in the model.
- GeminiService.Pow2: models `Math.pow(2, i)` on whole numbers only. It does not model floating-point rounding, because the exponents reached are below `retries`.
- JsText.LowerChar: lowers ASCII letters only, not full Unicode case mapping. No other character lower-cases into a character of "429", "resource_exhausted" or "quota", so the classification is unaffected.
- Strings are sequences of Unicode scalar values rather than UTF-16 code units. `trim`'s white-space set is the ECMAScript one.
- GeminiService.SentimentReport: `score` is an integer, not a JavaScript number. The parsed JSON is taken as well-formed, with its three fields.
- React's batching of state updates is left out. In the component, updater functions run when React renders, and every chunk updater reads the shared `fullText` variable at that time, so several chunks may show up in one render with the latest text. The ghost history records each `setMessages` call with the transcript it would produce when applied at once. It is exact for the calls, not for what is rendered.
- Typing during a reply is left out. The input box stays editable while a reply streams, so a keystroke could change `input` before `handleSend` finishes. The model runs `handleSend` to completion with no other event in between, so `input == ""` at its end.
- Concurrent sends are left out. With React's stale closures, two sends in flight could interleave their `setMessages` updates. The model runs one `handleSend` to completion at a time.
