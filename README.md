# XUnity LLM translation proxy: the request pipeline

This project is a Dafny model of the translation server of Moil's XUnity LLM Translate
GUI. The server is a local HTTP endpoint that XUnity.AutoTranslator calls with
`GET /?text=…`. It forwards the text to an OpenAI-compatible chat-completions API and
answers with the translation. The model covers these parts of the server:

- **Escape codec** (`escape_codec.dfy`). Before the text is sent, every protected
  fragment is frozen into a numbered placeholder ` [T_n] `. The protected fragments are
  `{{…}}` template variables, `<…>` rich-text tags, literal `\r\n` `\n` `\r` `\t`
  escapes and real line breaks and tabs. Afterwards the fragments are thawed back into
  the model's answer. Both regular expressions of the server are written out as
  scanners: leftmost match, alternatives in the listed order, a lazy `.*?` that stops
  at a line feed, and a greedy `\s*` on both sides of the placeholder.
- **Credential pool** (`credentials.dfy`). The comma-separated `api_key` setting
  becomes a list of trimmed keys, which are handed out round-robin.
- **Session store** (`sessions.dfy`). One conversation memory is kept per client: a
  FIFO of (user message, translation) turns, bounded by the live `context_num`. It is
  laid out as the chat message list.
- **Reply post-processing** (`response.dfy`), in this order: `<think>` blocks are
  dropped; `<tm>Src=Trgt</tm>` glossary suggestions are filtered and harvested, then
  their spans are dropped; the `<tl>` capture or the whole reply is picked and trimmed;
  stray `<tl>` markers are dropped.
- **Validator** (`validation.dfy`): the test an attempt's result must pass.
- **Server** (`server.dfy`). The class `TranslationServer` holds the configuration,
  the key pool and its cursor, the per-client contexts, the terms handed to the
  glossary, the requests sent and the readings of the stop flag. It models:
  - one translation attempt;
  - the retry controller: five attempts at most, with a delay sliced into ten stop
    checks;
  - the GET handler's answer.

Shared pieces live in `text.dfy`: whitespace classes, ASCII case folding, occurrence
search, `trimmed()`, `remove()` and decimal numerals.

### Environment

Everything the server consults but does not compute is an oracle. These are fields of
`Server.Env`:

- the stop flag is the set of its readings that see a stop request;
- the outcome of the n-th request sent;
- the client-id hash;
- RegexManager's `processPre`/`processPost`;
- GlossaryManager's `getContextPrompt`. It is given the text and the log of every call the server has made on the glossary so far, in order (`Server.GlossaryCall`).

The field `glossary` is that log. Every `setFilePath` call of a configuration update
and every `addNewTerm` call for a harvested suggestion is appended to it. A reload of
the same path is therefore a call of its own, after which the hint may differ.

### Where the code differs from its comments and the usual reading (the model follows the code)

- **Harvested `<tm>` spans.** The code deletes them from the reply with
  `cleanContent.remove(reTm)`. It does not put the suggested target text in their
  place.
- **Input to the glossary hint.** The hint is asked for with `processedText`, the
  frozen and pre-processed text, not with the unfrozen text.
- **Configuration reads.** The configuration is read field by field from `m_config`,
  not from a snapshot taken per attempt. The model reads `config` once, when the
  attempt gets its key, and passes that value down. This matches the code as long as
  nothing changes the configuration mid-attempt.
- **The context lock.** It is taken before the request is sent and held across the
  network call.
- **A negative `context_num`.** The comparison `history.size() > max_len` converts the
  int to `size_t`, so a negative bound trims nothing.

## Model

| member | source | states |
|---|---|---|
| Text.RunEndSpec | XUnity-Moil-LLMTranslateGUI-C++/src/TranslationServer.cpp:113 | the run a greedy `\s*` or `\d+` consumes satisfies the class and cannot be extended |
| Text.IndexOfFirst | XUnity-Moil-LLMTranslateGUI-C++/src/TranslationServer.cpp:352-353 | the search finds the first occurrence at or after the start, and reports none only when none exists |
| Text.TrimSpec | XUnity-Moil-LLMTranslateGUI-C++/src/TranslationServer.cpp:251 | `trimmed()` is empty exactly when the text is all whitespace, and otherwise neither starts nor ends with whitespace |
| Text.TrimPadded | XUnity-Moil-LLMTranslateGUI-C++/src/TranslationServer.cpp:557-559 | trimming a text padded with whitespace on both sides gives back the text, when the text itself is tight |
| Text.RemoveOnce | XUnity-Moil-LLMTranslateGUI-C++/src/TranslationServer.cpp:563-564 | `remove(needle)` on a text with one occurrence drops exactly that occurrence and keeps everything around it |
| Text.RemoveNone | XUnity-Moil-LLMTranslateGUI-C++/src/TranslationServer.cpp:563-564 | `remove(needle)` leaves a text without an occurrence unchanged |
| Text.DecimalRoundTrip | XUnity-Moil-LLMTranslateGUI-C++/src/TranslationServer.cpp:88 | the numeral written for a counter reads back as that counter |
| Text.Utf16LengthBmp | XUnity-Moil-LLMTranslateGUI-C++/src/TranslationServer.cpp:413 | `length()` counts UTF-16 code units: a text without characters above U+FFFF is as long as its number of characters |
| Text.Utf16LengthAstral | XUnity-Moil-LLMTranslateGUI-C++/src/TranslationServer.cpp:413 | a character above U+FFFF, a surrogate pair, adds two code units to the length |
| EscapeCodec.KeyInjective | XUnity-Moil-LLMTranslateGUI-C++/src/TranslationServer.cpp:88-91 | distinct counters give distinct keys `[T_n]`, so no entry of the escape map overwrites another |
| EscapeCodec.BracesCloseLazy | XUnity-Moil-LLMTranslateGUI-C++/src/TranslationServer.cpp:68 | `\{\{.*?\}\}` ends at the first `}}`, crosses no line feed, and fails only when every later `}}` lies behind a line feed |
| EscapeCodec.LiteralEndFirst | XUnity-Moil-LLMTranslateGUI-C++/src/TranslationServer.cpp:68 | the escape alternatives are tried in the listed order and the first that occurs wins |
| EscapeCodec.NextMatchLeftmost | XUnity-Moil-LLMTranslateGUI-C++/src/TranslationServer.cpp:71-79 | the global match returns the leftmost match; when it returns none, no match starts anywhere later |
| EscapeCodec.KeyMapContents | XUnity-Moil-LLMTranslateGUI-C++/src/TranslationServer.cpp:88-91 | the escape map holds exactly the keys `[T_0]`…`[T_{n-1}]`, and `[T_j]` maps to the j-th matched span |
| EscapeCodec.TokenizeOriginal | XUnity-Moil-LLMTranslateGUI-C++/src/TranslationServer.cpp:82-99 | the gaps and the matched spans, put back together in order, are the input: unmatched text is copied verbatim |
| EscapeCodec.Freeze | XUnity-Moil-LLMTranslateGUI-C++/src/TranslationServer.cpp:56-102 | the loop replaces the k-th match by ` [T_k] `, maps `[T_k]` to the matched text, and keeps the other text; the counter ends at the number of matches, which is the map's size |
| EscapeCodec.TokenEndSpec | XUnity-Moil-LLMTranslateGUI-C++/src/TranslationServer.cpp:113 | a token match is `[T_`, one or more digits, `]`, and nothing longer |
| EscapeCodec.TokenEndShape | XUnity-Moil-LLMTranslateGUI-C++/src/TranslationServer.cpp:113 | conversely, `[T_`, one or more digits and `]` form a token match that ends after the `]`; with TokenEndSpec, a match is exactly that shape |
| EscapeCodec.ThawMatchRun | XUnity-Moil-LLMTranslateGUI-C++/src/TranslationServer.cpp:113 | the leading `\s*` of the restore pattern takes the whole whitespace run before the token |
| EscapeCodec.ThawTextMatch | XUnity-Moil-LLMTranslateGUI-C++/src/TranslationServer.cpp:124-138 | at a match, the key is replaced by its span (by the bare key when the map lacks it), whitespace included, and thawing resumes after the match |
| EscapeCodec.ThawTextSkip | XUnity-Moil-LLMTranslateGUI-C++/src/TranslationServer.cpp:124 | a character where no match starts is copied |
| EscapeCodec.Thaw | XUnity-Moil-LLMTranslateGUI-C++/src/TranslationServer.cpp:106-144 | the loop computes the thawed text: every leftmost `\s*[T_n]\s*` restored, the text in between copied |
| EscapeCodec.ThawFromSuffix | XUnity-Moil-LLMTranslateGUI-C++/src/TranslationServer.cpp:115-141 | the indexed scan the loop walks equals thawing the rest of the text |
| EscapeCodec.ThawIdentity | XUnity-Moil-LLMTranslateGUI-C++/src/TranslationServer.cpp:106-144 | a text without any `[T_n]` comes back unchanged |
| EscapeCodec.PlaceholderThaw | XUnity-Moil-LLMTranslateGUI-C++/src/TranslationServer.cpp:127-136 | a placeholder ` [T_k] ` is replaced by the span stored under `[T_k]`, together with the whitespace that follows it |
| EscapeCodec.ThawRender | XUnity-Moil-LLMTranslateGUI-C++/src/TranslationServer.cpp:56-144 | thawing a rendering with a map numbered from k gives back the original gaps and spans |
| EscapeCodec.RoundTrip | XUnity-Moil-LLMTranslateGUI-C++/src/TranslationServer.cpp:56-144 | thawing the frozen text with its own map gives the input back, when no unprotected text holds a token and no whitespace touches a protected span |
| EscapeCodec.SpaceBeforeSpanLost | XUnity-Moil-LLMTranslateGUI-C++/src/TranslationServer.cpp:89-113 | without that condition the round trip fails: the space before a protected span is absorbed by the restore pattern |
| Credentials.FieldsFree | XUnity-Moil-LLMTranslateGUI-C++/src/TranslationServer.cpp:177 | no part of a split holds the separator |
| Credentials.JoinFields | XUnity-Moil-LLMTranslateGUI-C++/src/TranslationServer.cpp:177 | joining the parts with commas gives the text back |
| Credentials.FieldsJoin | XUnity-Moil-LLMTranslateGUI-C++/src/TranslationServer.cpp:177 | splitting a joined list of comma-free parts gives the list back |
| Credentials.NonEmptyParts | XUnity-Moil-LLMTranslateGUI-C++/src/TranslationServer.cpp:177 | skipping empty parts keeps a part exactly when it is non-empty |
| Credentials.SplitParts | XUnity-Moil-LLMTranslateGUI-C++/src/TranslationServer.cpp:177 | the parts kept are non-empty and comma-free, and every non-empty part is kept |
| Credentials.ParseJoinedKeys | XUnity-Moil-LLMTranslateGUI-C++/src/TranslationServer.cpp:176-178 | ParseKeys turns a comma list of tight, non-empty, comma-free keys back into exactly those keys |
| Credentials.BlankKeyKept | XUnity-Moil-LLMTranslateGUI-C++/src/TranslationServer.cpp:177-178 | a part made only of whitespace survives the split and becomes the key "" |
| Credentials.AdvanceStep | XUnity-Moil-LLMTranslateGUI-C++/src/TranslationServer.cpp:614 | one call moves the cursor to the next key, wrapping from the last to the first |
| Credentials.AdvanceLap | XUnity-Moil-LLMTranslateGUI-C++/src/TranslationServer.cpp:610-616 | within one lap, j calls move the cursor j places, wrapping once |
| Credentials.AdvanceCompose | XUnity-Moil-LLMTranslateGUI-C++/src/TranslationServer.cpp:610-616 | a + b calls are a calls followed by b calls |
| Credentials.RotationCovers | XUnity-Moil-LLMTranslateGUI-C++/src/TranslationServer.cpp:610-616 | n consecutive calls on a pool of n keys serve every key exactly once, and call n + j serves the same key as call j |
| Sessions.Bound | XUnity-Moil-LLMTranslateGUI-C++/src/TranslationServer.cpp:429 | the bound the comparison uses is `context_num` when it is non-negative, and `context_num` + 2^64 when it is negative |
| Sessions.NewestSuffix | XUnity-Moil-LLMTranslateGUI-C++/src/TranslationServer.cpp:429 | trimming keeps min(size, bound) turns, and they are the newest ones, in order |
| Sessions.NewestAppend | XUnity-Moil-LLMTranslateGUI-C++/src/TranslationServer.cpp:429-583 | trimming, appending a turn and trimming again is appending then trimming once |
| Sessions.NewestLast | XUnity-Moil-LLMTranslateGUI-C++/src/TranslationServer.cpp:582-583 | after an append and a trim to a positive bound, the new turn is the newest, preceded by the newest bound - 1 old turns |
| Sessions.NewestIdempotent | XUnity-Moil-LLMTranslateGUI-C++/src/TranslationServer.cpp:429 | trimming twice is trimming once |
| Sessions.TrimFront | XUnity-Moil-LLMTranslateGUI-C++/src/TranslationServer.cpp:429 | the pop-front loop leaves the newest `bound` turns |
| Sessions.PairsPlace | XUnity-Moil-LLMTranslateGUI-C++/src/TranslationServer.cpp:432-435 | turn j becomes a user message followed by its assistant reply, at positions 2j and 2j + 1 |
| Sessions.LayoutShape | XUnity-Moil-LLMTranslateGUI-C++/src/TranslationServer.cpp:422-439 | a request holds 2·turns + 2 messages: the system message first, the turns oldest first, the user message last |
| Sessions.LayMessages | XUnity-Moil-LLMTranslateGUI-C++/src/TranslationServer.cpp:422-439 | the building loop produces exactly that layout |
| Sessions.Remember | XUnity-Moil-LLMTranslateGUI-C++/src/TranslationServer.cpp:582-583 | the push_back and pop-front loop leave the newest turns of the history with the new turn appended |
| Response.NoThinkUnchanged | XUnity-Moil-LLMTranslateGUI-C++/src/TranslationServer.cpp:519-520 | a reply without `<think>` passes through unchanged |
| Response.ThinkBlockDropped | XUnity-Moil-LLMTranslateGUI-C++/src/TranslationServer.cpp:520 | the first `<think>…</think>` block, up to its first closing tag, is dropped and only it; the text after it is processed as if it stood alone |
| Response.CutBlock | XUnity-Moil-LLMTranslateGUI-C++/src/TranslationServer.cpp:520-549 | the removal keeps the text before the first match and resumes after its end |
| Response.AcceptedExactly | XUnity-Moil-LLMTranslateGUI-C++/src/TranslationServer.cpp:530-548 | a suggestion is harvested exactly when it is the trimmed capture pair of a `<tm>` match and both sides are non-empty, hold no `[T_n]` and no `Z[A-Z]{2}Z`, and the term occurs in the processed text in any letter case |
| Response.HarvestTerms | XUnity-Moil-LLMTranslateGUI-C++/src/TranslationServer.cpp:530-548 | the match loop collects the accepted suggestions in match order |
| Response.TmInstructionMatched | XUnity-Moil-LLMTranslateGUI-C++/src/TranslationServer.cpp:524-534 | a suggestion written as the prompt asks, `<tm>Src=Trgt</tm>`, is matched with exactly Src and Trgt as its groups |
| Response.UntaggedReply | XUnity-Moil-LLMTranslateGUI-C++/src/TranslationServer.cpp:553-559 | without `<tl>`, the translation is the whole reply, trimmed |
| Response.TaggedReply | XUnity-Moil-LLMTranslateGUI-C++/src/TranslationServer.cpp:553-557 | with a first `<tl>x</tl>`, the translation is x trimmed, whatever follows |
| Response.FirstTlAt | XUnity-Moil-LLMTranslateGUI-C++/src/TranslationServer.cpp:553-557 | the first `<tl>` match starts at the leftmost `<tl>` and its capture ends at the first `</tl>` after it |
| Response.UnwrapUnmarked | XUnity-Moil-LLMTranslateGUI-C++/src/TranslationServer.cpp:563-564 | a translation without markers, in any letter case, is left as it is |
| Response.UnwrapMarker | XUnity-Moil-LLMTranslateGUI-C++/src/TranslationServer.cpp:563-564 | a stray `<tl>` marker is dropped and nothing else |
| Response.PlainReply | XUnity-Moil-LLMTranslateGUI-C++/src/TranslationServer.cpp:519-564 | Extract gives back a plain reply, with no tags of any kind, trimmed, whether or not extraction is on |
| Validation.EmptyInvalid | XUnity-Moil-LLMTranslateGUI-C++/src/TranslationServer.cpp:350 | IsValid rejects an empty result |
| Validation.ErrorReplyInvalid | XUnity-Moil-LLMTranslateGUI-C++/src/TranslationServer.cpp:351 | IsValid rejects a result starting with "Error" in any letter case |
| Validation.FailurePhraseInvalid | XUnity-Moil-LLMTranslateGUI-C++/src/TranslationServer.cpp:352-353 | IsValid rejects a result containing "翻译失败", or "translation failed" in any letter case |
| Validation.CleanTextValid | XUnity-Moil-LLMTranslateGUI-C++/src/TranslationServer.cpp:349-355 | conversely, IsValid accepts a non-empty result that passes all three tests |
| Server.AnswerCases | XUnity-Moil-LLMTranslateGUI-C++/src/TranslationServer.cpp:279-284 | a translation is answered as it is, in UTF-8, with status 200; an empty result is a 500 with a non-empty body |
| Server.Answer | XUnity-Moil-LLMTranslateGUI-C++/src/TranslationServer.cpp:279-284 | the status is 500 exactly when the result is empty |
| Server.FailureBodyRejected | XUnity-Moil-LLMTranslateGUI-C++/src/TranslationServer.cpp:281 | the failure body "Translation Failed" is itself a text the validator rejects |
| Server.ChatRequestShape | XUnity-Moil-LLMTranslateGUI-C++/src/TranslationServer.cpp:421-451 | the request goes to `api_address + "/chat/completions"` with the key as a bearer token and carries the model, the temperature, the system prompt for the glossary as it stands, the kept turns oldest first, and the pre-prompt plus processed text last |
| Server.SystemPromptShape | XUnity-Moil-LLMTranslateGUI-C++/src/TranslationServer.cpp:386-419 | the system prompt starts with the configured prompt plus the rules and is exactly that without the glossary; with the glossary on, a non-empty hint follows after a line feed; it ends with the extraction instructions exactly when extraction is on; its length is the sum of those parts, so nothing else is added |
| Server.AstralExtraction | XUnity-Moil-LLMTranslateGUI-C++/src/TranslationServer.cpp:413 | with the glossary on, a text of characters above U+FFFF switches extraction on exactly when it has at least three characters, since each counts as two code units |
| Server.SettleSpec | XUnity-Moil-LLMTranslateGUI-C++/src/TranslationServer.cpp:570-586 | Settle keeps a reply's translation exactly when IsValid accepts it and gives "" otherwise; the suggestions harvested are Harvest's, whatever the verdict |
| Server.JudgeSpec | XUnity-Moil-LLMTranslateGUI-C++/src/TranslationServer.cpp:484-601 | Judge gives "" and harvests nothing when a stop request ends the wait or the exchange brings no reply; otherwise its verdict is Settle's, "" or a valid translation |
| Server.KeptSpec | XUnity-Moil-LLMTranslateGUI-C++/src/TranslationServer.cpp:427-429 | the turns kept hold at most `bound` entries; without a result they are the newest old turns, and with a result and a positive bound the new turn (user message, result) is the newest, after the newest bound - 1 old ones |
| Server.AfterAttemptSpec | XUnity-Moil-LLMTranslateGUI-C++/src/TranslationServer.cpp:427-583 | after an attempt the client has an entry with the live bound and at most that many turns, the newest being (user message, result) when there is a result; every other client keeps its entry and its turns |
| Server.AfterAttemptAgain | XUnity-Moil-LLMTranslateGUI-C++/src/TranslationServer.cpp:427-583 | an attempt after a failed one on the same text leaves the client as that attempt alone would: the first one only trimmed |
| Server.ScheduleSnoc | XUnity-Moil-LLMTranslateGUI-C++/src/TranslationServer.cpp:301-333 | one more attempt after failed ones, begun after the top check and (on a retry) the ten delay readings, none of which saw a stop request, extends the attempt schedule |
| Server.PassStep | XUnity-Moil-LLMTranslateGUI-C++/src/TranslationServer.cpp:301-326 | a pass either ends at the first of its own checks that sees a stop request, none before it having seen one, or logs its attempt as the next entry of the schedule and hands the next reading to the next pass |
| Server.ContextStep | XUnity-Moil-LLMTranslateGUI-C++/src/TranslationServer.cpp:323-333 | after failed attempts only trimmed the client, the next attempt leaves it untouched or as that attempt alone would |
| Server.TranslationServer.constructor | XUnity-Moil-LLMTranslateGUI-C++/src/TranslationServer.cpp:154-158 | a fresh server has no keys, no contexts, and has sent nothing |
| Server.TranslationServer.UpdateConfig | XUnity-Moil-LLMTranslateGUI-C++/src/TranslationServer.cpp:170-185 | the configuration is replaced, the pool becomes the trimmed non-empty comma parts, the cursor restarts at 0, and a `setFilePath` call is added to the glossary log exactly when the glossary is on, even for the same path |
| Server.TranslationServer.GetNextApiKey | XUnity-Moil-LLMTranslateGUI-C++/src/TranslationServer.cpp:610-616 | an empty pool gives "" and keeps the cursor; otherwise the key under the cursor is returned and the cursor moves on by one, wrapping |
| Server.TranslationServer.ClearAllContexts | XUnity-Moil-LLMTranslateGUI-C++/src/TranslationServer.cpp:630-635 | every client's memory is dropped |
| Server.TranslationServer.PollStop | XUnity-Moil-LLMTranslateGUI-C++/src/TranslationServer.cpp:303 | one reading of the stop flag; it sees a stop request exactly when the reading's number is in the oracle's set, and the next reading gets the next number |
| Server.TranslationServer.OpenContext | XUnity-Moil-LLMTranslateGUI-C++/src/TranslationServer.cpp:427-429 | the client's entry exists afterwards, with the live bound and the newest turns that fit it |
| Server.TranslationServer.Send | XUnity-Moil-LLMTranslateGUI-C++/src/TranslationServer.cpp:455-480 | the request is recorded and its outcome is the one the network gives the n-th request |
| Server.TranslationServer.ComposeSystemPrompt | XUnity-Moil-LLMTranslateGUI-C++/src/TranslationServer.cpp:386-419 | the prompt is SystemPrompt, whose shape SystemPromptShape states, and extraction is on exactly when the glossary is and the text has more than five UTF-16 code units |
| Server.TranslationServer.ProcessReply | XUnity-Moil-LLMTranslateGUI-C++/src/TranslationServer.cpp:519-575 | the reply's translation is computed as specified, and exactly the accepted suggestions are added to the glossary log as `addNewTerm` calls, in match order |
| Server.TranslationServer.Prepare | XUnity-Moil-LLMTranslateGUI-C++/src/TranslationServer.cpp:373-445 | freezing, pre-processing, the prompt (its glossary hint asked of the glossary as the server has left it), the trimmed context and the request are those of the specification functions |
| Server.TranslationServer.Accept | XUnity-Moil-LLMTranslateGUI-C++/src/TranslationServer.cpp:570-586 | a reply's content is processed and validated, and a valid result is remembered as the client's newest turn |
| Server.TranslationServer.Conclude | XUnity-Moil-LLMTranslateGUI-C++/src/TranslationServer.cpp:455-601 | the request is sent and the flag read once; the result, the `addNewTerm` calls and the client's turns are what Judge makes of the outcome |
| Server.TranslationServer.Exchange | XUnity-Moil-LLMTranslateGUI-C++/src/TranslationServer.cpp:370-605 | for a client and a key: exactly one request, built from the client's kept turns and the glossary log as it stands, is sent, and the attempt's effect is Judge's verdict |
| Server.TranslationServer.PerformSingleTranslationAttempt | XUnity-Moil-LLMTranslateGUI-C++/src/TranslationServer.cpp:360-605 | a stop request or a missing key ends the attempt with "" before any context is touched and sends nothing; otherwise one request is sent, its hint asked with the glossary log including earlier attempts' terms, and the attempt's effect is Judge's verdict; the result is "" or valid |
| Server.TranslationServer.Delay | XUnity-Moil-LLMTranslateGUI-C++/src/TranslationServer.cpp:316-319 | at most ten readings of the flag, ending at the first one that sees a stop request, none before it having seen one; ten readings, all clear, exactly when none does |
| Server.TranslationServer.LoggedAttempt | XUnity-Moil-LLMTranslateGUI-C++/src/TranslationServer.cpp:323-329 | one attempt on `text`, logged with the readings it began and ended at, then the stop check; the result is "" or valid, and the client is untouched or as AfterAttempt says |
| Server.TranslationServer.Round | XUnity-Moil-LLMTranslateGUI-C++/src/TranslationServer.cpp:301-333 | one pass of the retry loop: a stop seen by the top check or by any delay reading ends it, and the call with "", without an attempt; otherwise the attempt follows the delay readings and is logged as the next entry of the schedule, and ends the call or lets it go on |
| Server.TranslationServer.Attempt | XUnity-Moil-LLMTranslateGUI-C++/src/TranslationServer.cpp:323-333 | the attempt of a pass, made once the top check and the delay saw no stop request, extends the schedule by its entry; a stop at its after-check or a valid result ends the call, a failure lets it go on |
| Server.TranslationServer.OverFacts | XUnity-Moil-LLMTranslateGUI-C++/src/TranslationServer.cpp:293-343 | an ended call logged attempts on `text` only; its result is "" or valid and then the last attempt's; the client is untouched or as the last attempt left it |
| Server.TranslationServer.PerformTranslation | XUnity-Moil-LLMTranslateGUI-C++/src/TranslationServer.cpp:293-343 | at most five attempts on `text`, each at least thirteen readings after the previous one, every earlier one failed; no reading of its own checks before its last saw a stop request, and one that does makes the result ""; a stop at the first reading sends nothing and changes no state; a non-empty result is valid, the last attempt's, and the client's newest turn as AfterAttempt says; without a stop at the end, "" means five failed attempts |
| Server.TranslationServer.HandleGet | XUnity-Moil-LLMTranslateGUI-C++/src/TranslationServer.cpp:242-285 | a missing or blank `text` gives an empty 200 answer, does no work and touches nothing; otherwise `Trim(param)` is served: every attempt is on it, the answer is the translation or the 500 failure, and the client is left as the last attempt left it |
| Server.TranslationServer.Serve | XUnity-Moil-LLMTranslateGUI-C++/src/TranslationServer.cpp:268-284 | the text is translated; the work counts as successful exactly when the final reading sees no stop request and the result is non-empty; the answer is Answer of the result; a result is the last attempt's and the client's newest turn |

## Left out

- The HTTP listener (`startServer`, `stopServer`, `runServerLoop`, the thread pool, `listen`) is left out: it starts and stops threads and does no translation logic. `HandleGet` models the handler itself.
- Threads, mutexes and the atomic stop flag are modelled sequentially. The stop flag is an oracle: the set of readings, numbered in order, that see a stop request. The numbered readings are performTranslation's checks (lines 303, 317 and 326), the attempt's checks before it starts and after the wait (lines 361 and 485) and the handler's final check (line 271). The 100 ms timer's readings during the wait for a reply (line 464) are not numbered; their effect, an aborted call, is the outcome `Aborted` of that request.
- The network call is an oracle outcome per request: the event loop, the 100 ms abort timer and the 40 s and 45 s timeouts are left out. A poll that aborts the call shows up as the outcome `Aborted`.
- JSON serialisation and parsing are left out. A reply is its `choices[0].message.content`, or a format or parse error.
- The token-usage signal and every log message and Qt signal are left out, except `workFinished`, which HandleGet returns.
- `generateClientId`, an MD5 hash, is an oracle from address to id.
- GlossaryManager and RegexManager are oracles. Their source is not part of this model. The hint is a fixed function of the text and the server's own log of glossary calls. Changes that others make to the glossary while the server runs, such as edits of the file or terms added in the user interface, are assumed not to change the hint until the server's next call.
- `temperature` is a double; it is represented as a `real` and only passed through.
- Characters are Dafny `char`s, which are Unicode scalar values. The length test that switches extraction on counts UTF-16 code units (`Text.Utf16Length`), as `QString::length()` does. Other positions count characters; they only cut next to ASCII delimiters, so the texts are the same.
- A QString may hold a lone surrogate; a Dafny string cannot, so such texts are not modelled.
- Case-insensitive comparison folds ASCII letters only; Qt folds all of Unicode.
- `\s` in the restore pattern is the ASCII whitespace class; `trimmed()` uses the wider QChar::isSpace class.
- The status 200 of an answer is httplib's default; the model states it as a constant.
- EscapeCodec.RoundTrip: states the round trip only under the condition that no whitespace touches a protected span and no unprotected text holds `[T_n]`. `SpaceBeforeSpanLost` shows that the condition is needed.
- Server.TranslationServer.PerformSingleTranslationAttempt: reads the configuration once, when the key is taken. The code re-reads `m_config` field by field while the attempt runs.
- Server.TranslationServer.ProcessReply: adds the harvested terms in one step after the match loop. The code calls `addNewTerm` inside the loop; nothing else reads the glossary in between, so the calls and their order are the same.
- Server.TranslationServer.PerformTranslation: states the attempts, the readings, the result and the client's context over all retries. The key cursor, the requests sent and the glossary calls are stated per attempt (PerformSingleTranslationAttempt), but are not summed over the retries.
- The instruction texts are fixed when the server is built (`Server.Instructions`). They are literal in the code.
