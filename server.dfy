/**
 * The translation server: the credential pool, the per-client conversation contexts,
 * one translation attempt against the chat-completions endpoint, the retry controller
 * and the decision of the GET handler.
 *
 * What the server consults but does not compute (the stop flag, the network, the
 * client id hash, the glossary and regex collaborators) is an oracle of `Env`.
 */
module Server {
  import opened Text
  import EscapeCodec
  import Credentials
  import Sessions
  import Response
  import Validation

  /** The settings of AppConfig the pipeline reads. */
  datatype Config = Config(
    apiAddress: string,
    apiKey: string,
    modelName: string,
    systemPrompt: string,
    prePrompt: string,
    contextNum: int,
    temperature: real,
    enableGlossary: bool,
    glossaryPath: string)

  /** One POST to the chat-completions endpoint. */
  datatype Request = Request(
    url: string,
    authorization: string,
    model: string,
    messages: seq<Sessions.Message>,
    temperature: real)

  /** How the wait for a reply ended, and what the reply held. */
  datatype Outcome =
    | Reply(content: string)  // choices[0].message.content
    | Timeout                 // the 40-second timer fired first
    | NetworkError            // the reply carried a network error
    | Aborted                 // the poll timer saw the stop flag and aborted the reply
    | FormatError             // no "choices", or an empty list of them
    | ParseError              // the body could not be parsed as the expected JSON

  /** A call the server makes on GlossaryManager, the glossary it shares with the rest
      of the application. */
  datatype GlossaryCall = SetFilePath(path: string) | AddNewTerm(term: string, translation: string)

  /** The addNewTerm calls for harvested suggestions, one per suggestion, in order. */
  function TermCalls(terms: seq<(string, string)>): (calls: seq<GlossaryCall>)
    ensures |calls| == |terms|
    ensures forall i :: 0 <= i < |terms| ==> calls[i] == AddNewTerm(terms[i].0, terms[i].1)
  {
    if terms == [] then [] else TermCalls(terms[..|terms| - 1]) + [AddNewTerm(terms[|terms| - 1].0, terms[|terms| - 1].1)]
  }

  /** The oracles. */
  datatype Env = Env(
    stops: iset<nat>,                     // the readings of the stop flag that see a stop request
    exchange: (nat, Request) -> Outcome,  // the outcome of the n-th request sent
    clientId: string -> string,           // generateClientId of a client address
    processPre: string -> string,         // RegexManager::processPre
    processPost: string -> string,        // RegexManager::processPost
    glossaryPrompt: (seq<GlossaryCall>, string) -> string)  // GlossaryManager::getContextPrompt

  const RulesPrompt: string :=
    "\n\n【Translation Rules】:\n"
    + "1. \U{1F6D1} PRESERVE TAGS: You will see tags like '[T_0]', '[T_1]'.\n"
    + "   - These replace newlines or code. Keep them EXACTLY as is.\n"
    + "   - Input: \"Hello [T_0] World\"\n"
    + "   - Output: \"你好 [T_0] 世界\"\n"
    + "2. \U{1F6D1} NO CLEANUP: Do NOT remove the tags.\n"
    + "3. \U{1F530} TERM CODES: Keep 'Z[A-Z]{2}Z' (e.g., 'ZMCZ') codes exactly as is.\n"
    + "4. Translate the text BETWEEN the tags naturally.\n"
    + "5. Output ONLY the translated result.\n"

  const ExtractionPrompt: string :=
    "\n【Term Extraction】:\n"
    + "1. Wrap translation in <tl>...</tl>.\n"
    + "2. If you find Proper Nouns (Names) NOT in glossary, output <tm>Src=Trgt</tm>.\n"

  /** The two fixed instruction texts the system prompt is built from. */
  datatype Prompts = Prompts(rules: string, extraction: string)

  const Instructions: Prompts := Prompts(RulesPrompt, ExtractionPrompt)

  const ChatPath: string := "/chat/completions"
  const BearerPrefix: string := "Bearer "

  /** MAX_RETRY_COUNT. */
  const MaxRetryCount: nat := 5
  /** RETRY_DELAY_MS / 100: the delay is slept in slices of 100 ms. */
  const DelaySlices: nat := 10

  // ---------------------------------------------------------------------------
  // What one attempt computes, as functions of the configuration and the oracles
  // ---------------------------------------------------------------------------

  /** The text with its protected spans replaced by placeholders. */
  function Frozen(text: string): string {
    EscapeCodec.Render(EscapeCodec.Tokenize(text).pieces, EscapeCodec.Tokenize(text).tail, 0)
  }

  /** The placeholder map freezing `text` builds. */
  function Escapes(text: string): map<string, string> {
    EscapeCodec.KeyMap(EscapeCodec.Spans(EscapeCodec.Tokenize(text).pieces))
  }

  /** processedText: the frozen text, run through processPre when the glossary is on. */
  function Processed(c: Config, env: Env, text: string): string {
    if c.enableGlossary then env.processPre(Frozen(text)) else Frozen(text)
  }

  /** performExtraction: suggestions are asked for and harvested only with the glossary
      on and an input of more than five UTF-16 code units. */
  predicate Extraction(c: Config, text: string) {
    c.enableGlossary && Utf16Length(text) > 5
  }

  /** finalSystemPrompt. */
  function SystemPrompt(c: Config, env: Env, p: Prompts, glossary: seq<GlossaryCall>, text: string): string {
    var base := c.systemPrompt + p.rules;
    if !c.enableGlossary then base
    else
      var g := env.glossaryPrompt(glossary, Processed(c, env, text));
      var withGlossary := if g == "" then base else base + "\n" + g;
      if Extraction(c, text) then withGlossary + p.extraction else withGlossary
  }

  /** The system prompt opens with the configured prompt and the rules; without the
      glossary that is all of it. With the glossary on, a non-empty glossary hint follows
      on a line of its own, and when suggestions are asked for the extraction
      instructions close it; nothing else is added. */
  lemma SystemPromptShape(c: Config, env: Env, p: Prompts, glossary: seq<GlossaryCall>, text: string)
    ensures var s := SystemPrompt(c, env, p, glossary, text);
            var base := c.systemPrompt + p.rules;
            var g := env.glossaryPrompt(glossary, Processed(c, env, text));
            var hint := c.enableGlossary && g != "";
            |s| == |base| + (if hint then 1 + |g| else 0) + (if Extraction(c, text) then |p.extraction| else 0)
            && s[..|base|] == base
            && (!c.enableGlossary ==> s == base)
            && (hint ==> s[|base|..|base| + 1 + |g|] == "\n" + g)
            && (Extraction(c, text) ==> s[|s| - |p.extraction|..] == p.extraction)
  {
  }

  /** With the glossary on, a text of characters outside the Basic Multilingual Plane,
      such as emoji, asks for suggestions exactly from three characters on, since each
      of them counts as two code units. */
  lemma AstralExtraction(c: Config, s: string)
    requires c.enableGlossary
    requires forall i :: 0 <= i < |s| ==> s[i] as int > 0xFFFF
    ensures Extraction(c, s) <==> |s| >= 3
  {
    Utf16LengthAstralRun(s);
  }

  /** currentUserContent: what is sent, and remembered, as the user's message. */
  function UserContent(c: Config, env: Env, text: string): string {
    c.prePrompt + Processed(c, env, text)
  }

  /** The translation a reply yields before validation: post-processed, thawed, and run
      through processPost when the glossary is on. */
  function Translation(c: Config, env: Env, text: string, raw: string): string {
    var t := EscapeCodec.ThawText(Response.Extract(raw, Extraction(c, text)), Escapes(text));
    if c.enableGlossary then env.processPost(t) else t
  }

  /** The suggestions a reply adds to the glossary. */
  function Harvest(c: Config, env: Env, text: string, raw: string): seq<(string, string)> {
    if Extraction(c, text) then
      var clean := Response.StripThink(raw);
      Response.Accepted(clean, Response.TmHits(clean, 0), Processed(c, env, text))
    else []
  }

  /** The remembered turns of a client; none for a client seen for the first time. */
  function History(contexts: map<string, Sessions.Context>, id: string): seq<Sessions.Turn> {
    if id in contexts then contexts[id].history else []
  }

  /** The key getNextApiKey hands out from a pool and a cursor. */
  function KeyAt(keys: seq<string>, cursor: nat): string
    requires keys != [] ==> cursor < |keys|
  {
    if keys == [] then "" else keys[cursor]
  }

  /** The cursor after getNextApiKey. */
  function CursorAfter(keys: seq<string>, cursor: nat): nat {
    if keys == [] then cursor else Credentials.Advance(cursor, |keys|)
  }

  /** The request of an attempt that got a key. */
  function ChatRequest(c: Config, env: Env, p: Prompts, glossary: seq<GlossaryCall>, text: string, key: string,
                       history: seq<Sessions.Turn>): Request {
    Request(c.apiAddress + ChatPath, BearerPrefix + key, c.modelName,
            Sessions.Layout(SystemPrompt(c, env, p, glossary, text), history, UserContent(c, env, text)),
            c.temperature)
  }

  // ---------------------------------------------------------------------------
  // The HTTP answer
  // ---------------------------------------------------------------------------

  datatype HttpReply = HttpReply(status: int, body: string, contentType: string)

  /** workStarted/workFinished as seen by the HUD: no work, or work finished. */
  datatype Work = Idle | Finished(success: bool)

  const PlainType: string := "text/plain"
  const Utf8Type: string := "text/plain; charset=utf-8"
  const FailureBody: string := "Translation Failed"

  /** The status handlers get when they set none. */
  const OkStatus: int := 200

  /** The answer to a request whose text was translated (or not) into `result`. */
  function Answer(result: string): (r: HttpReply)
    ensures r.status == 500 <==> result == ""
  {
    if result == "" then HttpReply(500, FailureBody, PlainType)
    else HttpReply(OkStatus, result, Utf8Type)
  }

  /** A translation is delivered as it is, in UTF-8; a failure is a 500 whose body is
      never empty. */
  lemma AnswerCases(result: string)
    ensures result != "" ==> Answer(result) == HttpReply(200, result, "text/plain; charset=utf-8")
    ensures result == "" ==> Answer(result).status == 500 && Answer(result).body != ""
  {
  }

  /** The failure body is itself a result the validator rejects: it holds the phrase
      "translation failed" in another letter case. */
  lemma FailureBodyRejected()
    ensures !Validation.IsValid(Answer("").body)
  {
    var phrase := FailureBody;
    assert |phrase| == |Validation.FailedEn| == 18;
    forall k | 0 <= k < |phrase| ensures Fold(phrase[k]) == Fold(Validation.FailedEn[k]) {
      if k != 0 && k != 12 {
        assert phrase[k] == Validation.FailedEn[k];
      }
    }
    Unpadded(phrase);
    Validation.FailurePhraseInvalid([], phrase, []);
  }

  /** What an attempt makes of the way its exchange ended, `stopped` telling whether the
      stop check after the wait saw a stop request: its result and the suggestions it
      harvests. */
  datatype Verdict = Verdict(result: string, harvested: seq<(string, string)>)

  function Judge(c: Config, env: Env, text: string, outcome: Outcome, stopped: bool): Verdict {
    if stopped || !outcome.Reply? then Verdict("", [])
    else Settle(c, env, text, outcome.content)
  }

  /** What an attempt makes of a reply with content `raw`: the translation when it is
      valid, and otherwise "". */
  function Settle(c: Config, env: Env, text: string, raw: string): Verdict {
    var t := Translation(c, env, text, raw);
    Verdict(if Validation.IsValid(t) then t else "", Harvest(c, env, text, raw))
  }

  /** The turns a client whose remembered turns were `h0` keeps after an attempt on
      `text` that returned `result`: the newest that fit the bound, the new turn among
      them only when there is a result. */
  function Kept(c: Config, env: Env, text: string, h0: seq<Sessions.Turn>, result: string): seq<Sessions.Turn> {
    Sessions.Newest(if result == "" then h0 else h0 + [(UserContent(c, env, text), result)], Sessions.Bound(c.contextNum))
  }

  /** The contexts after an attempt of client `id` on `text` that returned `result`. */
  function AfterAttempt(contexts: map<string, Sessions.Context>, id: string, c: Config, env: Env, text: string, result: string)
    : map<string, Sessions.Context>
  {
    contexts[id := Sessions.Context(Kept(c, env, text, History(contexts, id), result), c.contextNum)]
  }

  /** The request of an attempt goes to the chat-completions path of the configured
      address with the key as a bearer token; its messages are the system prompt, the
      remembered turns that fit the bound, oldest first, and the user content last. */
  lemma ChatRequestShape(c: Config, env: Env, p: Prompts, glossary: seq<GlossaryCall>, text: string, key: string,
                         h0: seq<Sessions.Turn>)
    ensures var kept := Sessions.Newest(h0, Sessions.Bound(c.contextNum));
            var req := ChatRequest(c, env, p, glossary, text, key, kept);
            req.url == c.apiAddress + ChatPath && req.authorization == BearerPrefix + key
            && req.model == c.modelName && req.temperature == c.temperature
            && |req.messages| == 2 * |kept| + 2
            && req.messages[0] == Sessions.Message(Sessions.System, SystemPrompt(c, env, p, glossary, text))
            && (forall j :: 0 <= j < |kept| ==>
                  req.messages[2 * j + 1] == Sessions.Message(Sessions.User, kept[j].0)
                  && req.messages[2 * j + 2] == Sessions.Message(Sessions.Assistant, kept[j].1))
            && req.messages[2 * |kept| + 1] == Sessions.Message(Sessions.User, UserContent(c, env, text))
  {
    var kept := Sessions.Newest(h0, Sessions.Bound(c.contextNum));
    Sessions.LayoutShape(SystemPrompt(c, env, p, glossary, text), kept, UserContent(c, env, text));
  }

  /** Settling a reply returns "" or a valid translation, and returns the translation
      exactly when it is valid. */
  lemma SettleSpec(c: Config, env: Env, text: string, raw: string)
    ensures var v := Settle(c, env, text, raw);
            (v.result == "" || Validation.IsValid(v.result))
            && (v.result != "" <==> Validation.IsValid(Translation(c, env, text, raw)))
            && (v.result != "" ==> v.result == Translation(c, env, text, raw))
            && v.harvested == Harvest(c, env, text, raw)
  {
    Validation.EmptyInvalid();
  }

  /** An attempt returns "" or a valid translation of the reply. A stop request seen
      after the wait, or an exchange that ended without a reply, makes the attempt fail
      and harvest nothing. */
  lemma JudgeSpec(c: Config, env: Env, text: string, outcome: Outcome, stopped: bool)
    ensures var v := Judge(c, env, text, outcome, stopped);
            (v.result == "" || Validation.IsValid(v.result))
            && (stopped || !outcome.Reply? ==> v.result == "" && v.harvested == [])
            && (!stopped && outcome.Reply? ==>
                  (v.result != "" <==> Validation.IsValid(Translation(c, env, text, outcome.content)))
                  && (v.result != "" ==> v.result == Translation(c, env, text, outcome.content))
                  && v.harvested == Harvest(c, env, text, outcome.content))
  {
    if !stopped && outcome.Reply? {
      SettleSpec(c, env, text, outcome.content);
    }
  }

  /** A client keeps at most `bound` turns: the newest of its old ones when an attempt
      has no result, and otherwise the newest of its old ones followed by the new turn,
      the user content paired with the result. */
  lemma KeptSpec(c: Config, env: Env, text: string, h0: seq<Sessions.Turn>, result: string)
    ensures var kept := Kept(c, env, text, h0, result);
            var bound := Sessions.Bound(c.contextNum);
            |kept| <= bound
            && (result == "" ==> kept == Sessions.Newest(h0, bound))
            && (result != "" && bound > 0 ==>
                  kept[|kept| - 1] == (UserContent(c, env, text), result)
                  && kept[..|kept| - 1] == Sessions.Newest(h0, bound - 1))
  {
    var bound := Sessions.Bound(c.contextNum);
    var turn := (UserContent(c, env, text), result);
    Sessions.NewestSuffix(h0, bound);
    Sessions.NewestSuffix(h0 + [turn], bound);
    if result != "" && bound > 0 {
      Sessions.NewestLast(h0, turn, bound);
    }
  }

  /** An attempt changes the context of its own client only: that client holds its kept
      turns under the live bound, and with a result and a bound above zero the newest of
      them is the user content paired with the result. */
  lemma AfterAttemptSpec(contexts: map<string, Sessions.Context>, id: string, c: Config, env: Env, text: string, result: string)
    ensures var m := AfterAttempt(contexts, id, c, env, text, result);
            id in m && m[id].maxLen == c.contextNum
            && |m[id].history| <= Sessions.Bound(c.contextNum)
            && (forall other :: other != id ==> (other in m <==> other in contexts))
            && (forall other :: other != id && other in contexts ==> m[other] == contexts[other])
            && (result != "" && Sessions.Bound(c.contextNum) > 0 ==>
                  m[id].history[|m[id].history| - 1] == (UserContent(c, env, text), result))
  {
    KeptSpec(c, env, text, History(contexts, id), result);
  }

  /** A failed attempt followed by another attempt of the same client on the same text
      leaves the contexts as the second attempt alone would: the failed one only trimmed
      the client's turns to the bound, which the second trims to again. */
  lemma AfterAttemptAgain(contexts: map<string, Sessions.Context>, id: string, c: Config, env: Env, text: string, result: string)
    ensures AfterAttempt(AfterAttempt(contexts, id, c, env, text, ""), id, c, env, text, result)
            == AfterAttempt(contexts, id, c, env, text, result)
  {
    var h0 := History(contexts, id);
    var bound := Sessions.Bound(c.contextNum);
    if result == "" {
      Sessions.NewestIdempotent(h0, bound);
    } else {
      Sessions.NewestAppend(h0, (UserContent(c, env, text), result), bound);
    }
  }

  /** No reading of the stop flag from `a` up to `b` saw a stop request. */
  ghost predicate Quiet(stops: iset<nat>, a: nat, b: nat) {
    forall i :: a <= i < b ==> !(i in stops)
  }

  /** One entry of the attempt log: the text translated, the stop-flag reading the
      attempt began at, the reading of the check after it, and what it returned. */
  datatype AttemptLog = AttemptLog(text: string, start: nat, check: nat, result: string)

  /** The attempts of one performTranslation call from the stop check at the top of a
      pass, reading `top`, of retry number `retry` on: each one starts right after that
      check and, from the second pass on, the DelaySlices readings of the delay, and none
      of those readings saw a stop request; its own check comes after its start; and an
      attempt followed by another one returned "" and its check saw no stop request,
      the next pass's top check being the reading after it. */
  ghost predicate Schedule(log: seq<AttemptLog>, top: nat, retry: nat, stops: iset<nat>)
    decreases |log|
  {
    log != [] ==>
      log[0].start == top + 1 + (if retry > 0 then DelaySlices else 0)
      && Quiet(stops, top, log[0].start) && log[0].start < log[0].check
      && (|log| > 1 ==>
            log[0].result == "" && !(log[0].check in stops)
            && Schedule(log[1..], log[0].check + 1, retry + 1, stops))
  }

  /** The reading the top check of the pass after the logged attempts takes. */
  function NextTop(log: seq<AttemptLog>, top: nat): nat {
    if log == [] then top else log[|log| - 1].check + 1
  }

  /** An attempt made where the schedule says the next one starts, after a failed
      attempt whose check saw no stop request, extends the schedule. */
  lemma {:induction false} ScheduleSnoc(log: seq<AttemptLog>, top: nat, retry: nat, stops: iset<nat>, a: AttemptLog)
    requires Schedule(log, top, retry, stops)
    requires a.start == NextTop(log, top) + 1 + (if retry + |log| > 0 then DelaySlices else 0)
    requires Quiet(stops, NextTop(log, top), a.start) && a.start < a.check
    requires log != [] ==> log[|log| - 1].result == "" && !(log[|log| - 1].check in stops)
    ensures Schedule(log + [a], top, retry, stops)
    decreases |log|
  {
    if log != [] {
      assert (log + [a])[1..] == log[1..] + [a];
      if |log| > 1 {
        ScheduleSnoc(log[1..], log[0].check + 1, retry + 1, stops, a);
      }
    }
  }

  /** A call whose opening top check saw a stop request logged no attempt. */
  lemma ScheduleOpens(log: seq<AttemptLog>, p0: nat, stops: iset<nat>)
    requires Schedule(log, p0, 0, stops) && p0 in stops
    ensures log == []
  {
  }

  /** One pass of the retry loop, its top check being reading `top` and its last
      reading `q - 1`, keeps the schedule: an attempt it made is the next entry, and a
      stop request it saw was seen at its last reading only. */
  lemma PassStep(log: seq<AttemptLog>, p0: nat, stops: iset<nat>, top: nat, q: nat,
                 stopped: bool, attempted: bool, entry: AttemptLog)
    requires Schedule(log, p0, 0, stops) && NextTop(log, p0) == top
    requires log != [] ==> log[|log| - 1].result == "" && !(log[|log| - 1].check in stops)
    requires top < q && (stopped <==> q - 1 in stops) && (!stopped ==> attempted)
    requires !attempted ==> Quiet(stops, top, q - 1)
    requires attempted ==>
               entry.start == top + 1 + (if |log| > 0 then DelaySlices else 0)
               && Quiet(stops, top, entry.start) && entry.start < entry.check && entry.check == q - 1
    ensures var next := if attempted then log + [entry] else log;
            Schedule(next, p0, 0, stops) && (next != [] ==> next[|next| - 1].check < q)
            && (stopped ==> Quiet(stops, NextTop(next, p0), q - 1))
            && (!stopped ==> next != [] && next[|next| - 1] == entry && NextTop(next, p0) == q)
  {
    if attempted {
      ScheduleSnoc(log, p0, 0, stops, entry);
    } else if log != [] {
      assert log[|log| - 1].check < top;
    }
  }

  /** The contexts the passes of one performTranslation call leave, starting from
      `c0`: while no attempt has a result they are untouched or trimmed by a failed
      attempt, and an attempt after a failed one leaves them as it alone would. */
  lemma ContextStep(c0: map<string, Sessions.Context>, before: map<string, Sessions.Context>, after: map<string, Sessions.Context>,
                    id: string, c: Config, env: Env, text: string, result: string)
    requires before == c0 || before == AfterAttempt(c0, id, c, env, text, "")
    requires (result == "" && after == before) || after == AfterAttempt(before, id, c, env, text, result)
    ensures (result == "" && after == c0) || after == AfterAttempt(c0, id, c, env, text, result)
  {
    if before != c0 {
      AfterAttemptAgain(c0, id, c, env, text, result);
    }
  }

  class TranslationServer {
    const env: Env
    /** The instruction texts, fixed when the server is built. */
    const prompts: Prompts
    var config: Config
    /** m_apiKeys. */
    var apiKeys: seq<string>
    /** m_currentKeyIndex. */
    var cursor: nat
    /** m_contexts, by client id. */
    var contexts: map<string, Sessions.Context>
    /** The calls made on GlossaryManager, in order: setFilePath at every configuration
        update with the glossary on, addNewTerm for every harvested suggestion. */
    var glossary: seq<GlossaryCall>
    /** How many times the stop flag has been read. */
    var polls: nat
    /** The requests sent, in order. */
    var requests: seq<Request>
    /** The attempts made, in order. */
    ghost var attempts: seq<AttemptLog>

    /** The cursor points into a non-empty pool. */
    predicate Valid()
      reads this
    {
      apiKeys != [] ==> cursor < |apiKeys|
    }

    /** A fresh server: the configuration it was built with, but no key parsed yet, no
        context, nothing sent. */
    constructor(env: Env, initial: Config)
      ensures this.env == env && prompts == Instructions && config == initial
      ensures apiKeys == [] && cursor == 0 && contexts == map[] && glossary == []
      ensures polls == 0 && requests == [] && attempts == []
      ensures Valid()
    {
      this.env := env;
      prompts := Instructions;
      config := initial;
      apiKeys := [];
      cursor := 0;
      contexts := map[];
      glossary := [];
      polls := 0;
      requests := [];
      attempts := [];
    }

    /** updateConfig: the pool becomes the non-empty comma-separated parts of `api_key`,
        each trimmed; the cursor restarts at the first key; with the glossary on, its path
        is handed to the glossary again. */
    method UpdateConfig(c: Config)
      modifies this`config, this`apiKeys, this`cursor, this`glossary
      ensures config == c && apiKeys == Credentials.ParseKeys(c.apiKey) && cursor == 0
      ensures glossary == old(glossary) + if c.enableGlossary then [SetFilePath(c.glossaryPath)] else []
      ensures Valid()
    {
      config := c;
      var parts := Credentials.SplitSkipEmpty(c.apiKey, ',');
      var keys: seq<string> := [];
      for j := 0 to |parts|
        invariant |keys| == j
        invariant forall i :: 0 <= i < j ==> keys[i] == Trim(parts[i])
      {
        keys := keys + [Trim(parts[j])];
      }
      assert keys == Credentials.ParseKeys(c.apiKey);
      apiKeys := keys;
      cursor := 0;
      if c.enableGlossary {
        glossary := glossary + [SetFilePath(c.glossaryPath)];
      }
    }

    /** getNextApiKey: "" from an empty pool, which keeps the cursor; otherwise the key
        under the cursor, which moves on by one, wrapping at the end. */
    method GetNextApiKey() returns (key: string)
      requires Valid()
      modifies this`cursor
      ensures Valid()
      ensures apiKeys == [] ==> key == "" && cursor == old(cursor)
      ensures apiKeys != [] ==> key == apiKeys[old(cursor)] && cursor == Credentials.Advance(old(cursor), |apiKeys|)
    {
      if apiKeys == [] {
        return "";
      }
      key := apiKeys[cursor];
      cursor := (cursor + 1) % |apiKeys|;
    }

    /** clearAllContexts: every client's memory is dropped. */
    method ClearAllContexts()
      modifies this`contexts
      ensures contexts == map[]
    {
      contexts := map[];
    }

    /** One reading of the stop flag. */
    method PollStop() returns (stop: bool)
      modifies this`polls
      ensures stop == (old(polls) in env.stops) && polls == old(polls) + 1
    {
      stop := (polls in env.stops);
      polls := polls + 1;
    }

    /** `Context& ctx = m_contexts[clientId]`, the bound set to the live context_num and
        the pop-front loop: the client's entry exists afterwards and holds at most that
        many turns, the newest ones. */
    method OpenContext(c: Config, id: string) returns (history: seq<Sessions.Turn>)
      modifies this`contexts
      ensures history == Sessions.Newest(History(old(contexts), id), Sessions.Bound(c.contextNum))
      ensures contexts == old(contexts)[id := Sessions.Context(history, c.contextNum)]
    {
      var ctx := if id in contexts then contexts[id] else Sessions.EmptyContext;
      if ctx.maxLen != c.contextNum {
        ctx := ctx.(maxLen := c.contextNum);
      }
      history := Sessions.TrimFront(ctx.history, ctx.maxLen);
      contexts := contexts[id := Sessions.Context(history, ctx.maxLen)];
    }

    /** manager.post and the wait: the oracle says how this request ends. */
    method Send(req: Request) returns (outcome: Outcome)
      modifies this`requests
      ensures outcome == env.exchange(|old(requests)|, req) && requests == old(requests) + [req]
    {
      outcome := env.exchange(|requests|, req);
      requests := requests + [req];
    }

    /** The handling of a reply's content: `<think>` blocks dropped, suggestions
        harvested into the glossary and their spans dropped when extraction is on, the
        translation picked and unwrapped, thawed, and post-processed. */
    method ProcessReply(c: Config, raw: string, text: string, processed: string, extraction: bool, escapes: EscapeCodec.EscapeMap)
      returns (result: string)
      requires processed == Processed(c, env, text) && extraction == Extraction(c, text)
      requires escapes.entries == Escapes(text)
      modifies this`glossary
      ensures result == Translation(c, env, text, raw)
      ensures glossary == old(glossary) + TermCalls(Harvest(c, env, text, raw))
    {
      var clean := Response.StripThink(raw);
      if extraction {
        var terms := Response.HarvestTerms(clean, processed);
        glossary := glossary + TermCalls(terms);
        clean := Response.RemoveTerms(clean);
      } else {
        assert glossary + TermCalls([]) == glossary;
      }
      result := Response.PickTranslation(clean);
      result := Response.Unwrap(result);
      result := EscapeCodec.Thaw(result, escapes);
      if c.enableGlossary {
        result := env.processPost(result);
      }
    }

    /** The system prompt of an attempt, and whether it asks for suggestions. */
    method ComposeSystemPrompt(c: Config, text: string, processed: string) returns (system: string, extraction: bool)
      requires processed == Processed(c, env, text)
      ensures system == SystemPrompt(c, env, prompts, glossary, text)
      ensures extraction == Extraction(c, text)
    {
      system := c.systemPrompt;
      extraction := false;
      system := system + prompts.rules;
      if c.enableGlossary {
        var glossaryContext := env.glossaryPrompt(glossary, processed);
        if glossaryContext != "" {
          system := system + "\n" + glossaryContext;
        }
        if Utf16Length(text) > 5 {
          extraction := true;
          system := system + prompts.extraction;
        }
      }
    }

    /** Everything an attempt does before it sends: the text frozen and pre-processed,
        the system prompt, the client's context trimmed to the live bound, the message
        list and the request. */
    method Prepare(c: Config, text: string, id: string, apiKey: string)
      returns (req: Request, processed: string, extraction: bool, escapes: EscapeCodec.EscapeMap)
      modifies this`contexts
      ensures processed == Processed(c, env, text) && extraction == Extraction(c, text)
      ensures escapes.entries == Escapes(text)
      ensures var kept := Sessions.Newest(History(old(contexts), id), Sessions.Bound(c.contextNum));
              req == ChatRequest(c, env, prompts, glossary, text, apiKey, kept)
              && contexts == old(contexts)[id := Sessions.Context(kept, c.contextNum)]
    {
      var frozen;
      frozen, escapes := EscapeCodec.Freeze(text);
      processed := frozen;
      if c.enableGlossary {
        processed := env.processPre(processed);
      }
      var system;
      system, extraction := ComposeSystemPrompt(c, text, processed);
      var history := OpenContext(c, id);
      var messages := Sessions.LayMessages(system, history, c.prePrompt + processed);
      req := Request(c.apiAddress + ChatPath, BearerPrefix + apiKey, c.modelName, messages, c.temperature);
    }

    /** The rest of an attempt once its request `req` is built: the request sent, the
        stop check after the wait, then, when no stop request is seen and there is a
        reply, its processing. `p` and `n` count the stop-flag readings and the requests
        made so far. */
    method Conclude(c: Config, text: string, id: string, req: Request, processed: string, extraction: bool,
                    escapes: EscapeCodec.EscapeMap, ghost h0: seq<Sessions.Turn>, ghost p: nat, ghost n: nat)
      returns (result: string)
      requires processed == Processed(c, env, text) && extraction == Extraction(c, text)
      requires escapes.entries == Escapes(text)
      requires id in contexts
      requires contexts[id] == Sessions.Context(Sessions.Newest(h0, Sessions.Bound(c.contextNum)), c.contextNum)
      requires p == polls && n == |requests|
      modifies this`polls, this`contexts, this`requests, this`glossary
      ensures requests == old(requests) + [req]
      ensures var v := Judge(c, env, text, env.exchange(n, req), p in env.stops);
              polls == p + 1 && result == v.result && glossary == old(glossary) + TermCalls(v.harvested)
      ensures contexts == old(contexts)[id := Sessions.Context(Kept(c, env, text, h0, result), c.contextNum)]
    {
      var outcome := Send(req);
      var stop := PollStop();
      if stop || !outcome.Reply? {
        assert glossary == old(glossary) + TermCalls([]);
        result := "";
      } else {
        result := Accept(c, text, id, processed, extraction, escapes, outcome.content, h0);
      }
    }

    /** A reply's content processed, validated and, when valid, remembered as the
        client's newest turn. */
    method Accept(c: Config, text: string, id: string, processed: string, extraction: bool,
                  escapes: EscapeCodec.EscapeMap, raw: string, ghost h0: seq<Sessions.Turn>)
      returns (result: string)
      requires processed == Processed(c, env, text) && extraction == Extraction(c, text)
      requires escapes.entries == Escapes(text)
      requires id in contexts
      requires contexts[id] == Sessions.Context(Sessions.Newest(h0, Sessions.Bound(c.contextNum)), c.contextNum)
      modifies this`contexts, this`glossary
      ensures var v := Settle(c, env, text, raw);
              result == v.result && glossary == old(glossary) + TermCalls(v.harvested)
      ensures contexts == old(contexts)[id := Sessions.Context(Kept(c, env, text, h0, result), c.contextNum)]
    {
      result := ProcessReply(c, raw, text, processed, extraction, escapes);
      if Validation.IsValid(result) {
        Validation.EmptyInvalid();
        var turn := (c.prePrompt + processed, result);
        var ctx := Sessions.Remember(contexts[id], turn);
        Sessions.NewestAppend(h0, turn, Sessions.Bound(c.contextNum));
        contexts := contexts[id := ctx];
      } else {
        result := "";
      }
    }

    /** performSingleTranslationAttempt. A stop request seen first, or a missing key,
        ends it before the client's context is touched; otherwise it sends one request
        built from the client's kept turns, returns what Judge makes of its outcome and
        leaves the client's context as AfterAttempt says. */
    method PerformSingleTranslationAttempt(text: string, clientIP: string) returns (result: string)
      requires Valid()
      modifies this`polls, this`cursor, this`contexts, this`requests, this`glossary
      ensures Valid()
      ensures (old(polls) in env.stops) ==>
                result == "" && polls == old(polls) + 1 && cursor == old(cursor)
                && contexts == old(contexts) && requests == old(requests) && glossary == old(glossary)
      ensures !(old(polls) in env.stops) ==> cursor == CursorAfter(apiKeys, old(cursor))
      ensures !(old(polls) in env.stops) && KeyAt(apiKeys, old(cursor)) == "" ==>
                result == "" && polls == old(polls) + 1
                && contexts == old(contexts) && requests == old(requests) && glossary == old(glossary)
      ensures !(old(polls) in env.stops) && KeyAt(apiKeys, old(cursor)) != "" ==>
                var id := env.clientId(clientIP);
                var req := ChatRequest(config, env, prompts, old(glossary), text, KeyAt(apiKeys, old(cursor)),
                                       Sessions.Newest(History(old(contexts), id), Sessions.Bound(config.contextNum)));
                var v := Judge(config, env, text, env.exchange(|old(requests)|, req), old(polls) + 1 in env.stops);
                polls == old(polls) + 2 && requests == old(requests) + [req]
                && result == v.result && glossary == old(glossary) + TermCalls(v.harvested)
                && contexts == AfterAttempt(old(contexts), id, config, env, text, result)
      ensures result == "" || Validation.IsValid(result)
      ensures old(polls) < polls <= old(polls) + 2
      ensures (result == "" && contexts == old(contexts))
              || contexts == AfterAttempt(old(contexts), env.clientId(clientIP), config, env, text, result)
    {
      var stop := PollStop();
      if stop {
        return "";
      }
      var apiKey := GetNextApiKey();
      if apiKey == "" {
        return "";
      }
      result := Exchange(config, text, env.clientId(clientIP), apiKey);
    }

    /** The part of an attempt after it got `apiKey`, for the client `id` and the
        configuration `c` it runs with: the request built and sent, its outcome judged,
        and the client's context left as AfterAttempt says. */
    method Exchange(c: Config, text: string, id: string, apiKey: string) returns (result: string)
      modifies this`polls, this`contexts, this`requests, this`glossary
      ensures var req := ChatRequest(c, env, prompts, old(glossary), text, apiKey,
                                     Sessions.Newest(History(old(contexts), id), Sessions.Bound(c.contextNum)));
              var v := Judge(c, env, text, env.exchange(|old(requests)|, req), old(polls) in env.stops);
              polls == old(polls) + 1 && requests == old(requests) + [req]
              && result == v.result && glossary == old(glossary) + TermCalls(v.harvested)
      ensures result == "" || Validation.IsValid(result)
      ensures contexts == AfterAttempt(old(contexts), id, c, env, text, result)
    {
      var req, processed, extraction, escapes := Prepare(c, text, id, apiKey);
      result := Conclude(c, text, id, req, processed, extraction, escapes, History(old(contexts), id), old(polls), |old(requests)|);
    }

    /** The delay before a retry: DelaySlices readings of the stop flag, ending at the
        first one that sees a stop request, none before it having seen one. */
    method Delay() returns (stopped: bool)
      modifies this`polls
      ensures old(polls) < polls <= old(polls) + DelaySlices
      ensures stopped ==> (polls - 1 in env.stops) && Quiet(env.stops, old(polls), polls - 1)
      ensures !stopped ==> polls == old(polls) + DelaySlices && Quiet(env.stops, old(polls), polls)
    {
      stopped := false;
      var i := 0;
      while i < DelaySlices
        invariant 0 <= i <= DelaySlices && polls == old(polls) + i
        invariant Quiet(env.stops, old(polls), polls)
      {
        stopped := PollStop();
        i := i + 1;
        if stopped {
          return;
        }
      }
    }

    /** performTranslation may go on after the passes that logged `log`, the call having
        begun with readings `p0`, attempts `a0` and contexts `c0`: the log follows the
        schedule, every attempt so far was on `text` and failed, no check saw a stop
        request, the next reading is the next pass's top check, and the contexts are
        untouched or trimmed by a failed attempt of the client. */
    ghost predicate Retrying(text: string, clientIP: string, log: seq<AttemptLog>, p0: nat,
                             a0: seq<AttemptLog>, c0: map<string, Sessions.Context>)
      reads this
    {
      attempts == a0 + log && Schedule(log, p0, 0, env.stops)
      && (forall j :: 0 <= j < |log| ==> log[j].text == text)
      && NextTop(log, p0) == polls && (log != [] ==> polls > p0)
      && (log != [] ==> log[|log| - 1].result == "" && !(log[|log| - 1].check in env.stops))
      && (contexts == c0 || contexts == AfterAttempt(c0, env.clientId(clientIP), config, env, text, ""))
      && (log == [] ==> contexts == c0)
    }

    /** performTranslation has ended with `result` after the passes that logged `log`:
        the log follows the schedule and every attempt was on `text`; no reading since
        the last attempt's check but the last one saw a stop request, and one that did
        makes the result ""; a result is the last attempt's, valid, and its check is the
        last reading; "" without a stop request at the end also comes from the last
        attempt's check; and the contexts are untouched or as the last attempt left
        them. */
    ghost predicate Over(text: string, clientIP: string, log: seq<AttemptLog>, p0: nat,
                         a0: seq<AttemptLog>, c0: map<string, Sessions.Context>, result: string)
      reads this
    {
      attempts == a0 + log && Schedule(log, p0, 0, env.stops)
      && (forall j :: 0 <= j < |log| ==> log[j].text == text)
      && polls > p0 && (log != [] ==> log[|log| - 1].check < polls)
      && Quiet(env.stops, NextTop(log, p0), polls - 1)
      && (polls - 1 in env.stops ==> result == "")
      && (result != "" ==>
            Validation.IsValid(result) && log != [] && log[|log| - 1].result == result
            && log[|log| - 1].check == polls - 1)
      && (result == "" && !(polls - 1 in env.stops) ==>
            log != [] && log[|log| - 1].result == "" && log[|log| - 1].check == polls - 1)
      && (log == [] ==> contexts == c0)
      && (log != [] ==>
            (log[|log| - 1].result == "" && contexts == c0)
            || contexts == AfterAttempt(c0, env.clientId(clientIP), config, env, text, log[|log| - 1].result))
    }

    /** What an ended call leaves for its caller: the attempts it logged, all on
        `text`; a result that is "" or valid and then the last attempt's; and the
        contexts untouched or as the last attempt left them. */
    lemma OverFacts(text: string, clientIP: string, log: seq<AttemptLog>, p0: nat,
                    a0: seq<AttemptLog>, c0: map<string, Sessions.Context>, result: string)
      requires Over(text, clientIP, log, p0, a0, c0, result)
      ensures attempts == a0 + log && forall j :: 0 <= j < |log| ==> log[j].text == text
      ensures result == "" || Validation.IsValid(result)
      ensures result != "" ==> log != [] && result == log[|log| - 1].result
      ensures contexts == c0
              || (log != [] && contexts == AfterAttempt(c0, env.clientId(clientIP), config, env, text, log[|log| - 1].result))
    {
    }

    /** One pass of performTranslation's retry loop, for retry number `retry` after the
        passes that logged `log`: the stop check at its top, the delay before a retry,
        the attempt, the stop check after it and the validation of the attempt's result.
        A stop request seen by a check ends the pass at once, and the call with ""; the
        attempt is made only when neither the top check nor the delay saw one, and is
        logged as the next entry of the schedule, `next`; a valid result ends the call
        with it, and a failure lets it go on. */
    method Round(text: string, clientIP: string, retry: nat, ghost log: seq<AttemptLog>, ghost p0: nat,
                 ghost a0: seq<AttemptLog>, ghost c0: map<string, Sessions.Context>)
      returns (stopped: bool, attemptResult: string, valid: bool, ghost next: seq<AttemptLog>)
      requires Valid() && Retrying(text, clientIP, log, p0, a0, c0) && |log| == retry
      modifies this`polls, this`cursor, this`contexts, this`requests, this`glossary, this`attempts
      ensures Valid()
      ensures polls > old(polls) && |log| <= |next| <= |log| + 1 && (stopped ==> polls - 1 in env.stops)
      ensures next == [] ==> stopped && polls == old(polls) + 1
      ensures next == log ==> cursor == old(cursor) && requests == old(requests) && glossary == old(glossary)
      ensures stopped ==> Over(text, clientIP, next, p0, a0, c0, "")
      ensures !stopped && attemptResult != "" ==> Over(text, clientIP, next, p0, a0, c0, attemptResult)
      ensures !stopped && attemptResult == "" ==> Retrying(text, clientIP, next, p0, a0, c0) && |next| == |log| + 1
      ensures attemptResult == "" || Validation.IsValid(attemptResult)
      ensures valid <==> attemptResult != ""
    {
      attemptResult := "";
      valid := false;
      next := log;
      ghost var top := polls;
      stopped := PollStop();
      if !stopped && retry > 0 {
        stopped := Delay();
      }
      if !stopped {
        stopped, attemptResult, valid, next := Attempt(text, clientIP, log, p0, a0, c0, top);
      } else {
        PassStep(log, p0, env.stops, top, polls, stopped, false, AttemptLog(text, 0, 0, ""));
      }
    }

    /** The attempt of a pass whose top check was reading `top`, once neither that check
        nor the delay saw a stop request, logged as the next entry of the schedule. */
    method Attempt(text: string, clientIP: string, ghost log: seq<AttemptLog>, ghost p0: nat,
                   ghost a0: seq<AttemptLog>, ghost c0: map<string, Sessions.Context>, ghost top: nat)
      returns (stopped: bool, attemptResult: string, valid: bool, ghost next: seq<AttemptLog>)
      requires Valid()
      requires attempts == a0 + log && Schedule(log, p0, 0, env.stops) && NextTop(log, p0) == top
      requires forall j :: 0 <= j < |log| ==> log[j].text == text
      requires log != [] ==> log[|log| - 1].result == "" && !(log[|log| - 1].check in env.stops)
      requires contexts == c0 || contexts == AfterAttempt(c0, env.clientId(clientIP), config, env, text, "")
      requires p0 <= top && polls == top + 1 + (if |log| > 0 then DelaySlices else 0) && Quiet(env.stops, top, polls)
      modifies this`polls, this`cursor, this`contexts, this`requests, this`glossary, this`attempts
      ensures Valid()
      ensures polls > old(polls) && |next| == |log| + 1 && (stopped ==> polls - 1 in env.stops)
      ensures stopped ==> Over(text, clientIP, next, p0, a0, c0, "")
      ensures !stopped && attemptResult != "" ==> Over(text, clientIP, next, p0, a0, c0, attemptResult)
      ensures !stopped && attemptResult == "" ==> Retrying(text, clientIP, next, p0, a0, c0)
      ensures attemptResult == "" || Validation.IsValid(attemptResult)
      ensures valid <==> attemptResult != ""
    {
      ghost var before := contexts;
      ghost var entry;
      stopped, attemptResult, valid, entry := LoggedAttempt(text, clientIP);
      PassStep(log, p0, env.stops, top, polls, stopped, true, entry);
      ContextStep(c0, before, contexts, env.clientId(clientIP), config, env, text, attemptResult);
      Assoc(a0, log, [entry]);
      next := log + [entry];
    }

    /** The attempt of a pass, logged, the stop check after it and the validation of its
        result. */
    method LoggedAttempt(text: string, clientIP: string)
      returns (stopped: bool, attemptResult: string, valid: bool, ghost entry: AttemptLog)
      requires Valid()
      modifies this`polls, this`cursor, this`contexts, this`requests, this`glossary, this`attempts
      ensures Valid()
      ensures old(polls) + 2 <= polls <= old(polls) + 3 && (stopped <==> polls - 1 in env.stops)
      ensures attempts == old(attempts) + [entry] && entry == AttemptLog(text, old(polls), polls - 1, attemptResult)
      ensures old(polls) in env.stops ==> attemptResult == "" && polls == old(polls) + 2
      ensures attemptResult == "" || Validation.IsValid(attemptResult)
      ensures valid <==> attemptResult != ""
      ensures (attemptResult == "" && contexts == old(contexts))
              || contexts == AfterAttempt(old(contexts), env.clientId(clientIP), config, env, text, attemptResult)
    {
      attemptResult := PerformSingleTranslationAttempt(text, clientIP);
      stopped := PollStop();
      entry := AttemptLog(text, old(polls), polls - 1, attemptResult);
      attempts := attempts + [entry];
      valid := Validation.IsValid(attemptResult);
      if valid {
        Validation.EmptyInvalid();
      }
    }

    /** performTranslation: at most MaxRetryCount attempts on `text`, the first one
        straight away and every later one after a delay whose ten slices each read the
        stop flag. A stop request seen by any of its own readings ends it with "" at that
        reading, so every one of them before its last saw none. It returns the first
        valid attempt result, or "" after MaxRetryCount invalid ones; the client's context
        is the one the last attempt left, or untouched. */
    method PerformTranslation(text: string, clientIP: string) returns (result: string, ghost log: seq<AttemptLog>)
      requires Valid()
      modifies this`polls, this`cursor, this`contexts, this`requests, this`glossary, this`attempts
      ensures Valid() && |log| <= MaxRetryCount
      ensures Over(text, clientIP, log, old(polls), old(attempts), old(contexts), result)
      ensures result == "" && !(polls - 1 in env.stops) ==> |log| == MaxRetryCount
      ensures old(polls) in env.stops ==>
                result == "" && log == [] && polls == old(polls) + 1
                && cursor == old(cursor) && requests == old(requests) && glossary == old(glossary)
      ensures result != "" ==> contexts == AfterAttempt(old(contexts), env.clientId(clientIP), config, env, text, result)
    {
      result := "";
      log := [];
      var retryCount := 0;
      var stopped := false;
      while retryCount < MaxRetryCount && !stopped && result == ""
        invariant Valid() && retryCount <= MaxRetryCount && |log| <= MaxRetryCount
        invariant log == [] ==> polls == old(polls) + (if stopped then 1 else 0)
        invariant log == [] ==> cursor == old(cursor) && requests == old(requests) && glossary == old(glossary)
        invariant !stopped && result == "" ==>
                    Retrying(text, clientIP, log, old(polls), old(attempts), old(contexts)) && |log| == retryCount
        invariant stopped || result != "" ==> Over(text, clientIP, log, old(polls), old(attempts), old(contexts), result)
        invariant stopped ==> polls - 1 in env.stops
        decreases MaxRetryCount - retryCount, if stopped || result != "" then 0 else 1
      {
        var attemptResult, valid;
        stopped, attemptResult, valid, log := Round(text, clientIP, retryCount, log, old(polls), old(attempts), old(contexts));
        if !stopped {
          if valid {
            result := attemptResult;
          } else {
            retryCount := retryCount + 1;
            if retryCount >= MaxRetryCount {
              result := "";
            }
          }
        }
      }
      if old(polls) in env.stops {
        ScheduleOpens(log, old(polls), env.stops);
      }
    }

    /** The GET handler: without a `text` parameter, or with one that trims to nothing,
        an empty 200 answer and no work; otherwise the trimmed text is served. `log`
        holds the attempts made. */
    method HandleGet(hasText: bool, param: string, clientIP: string)
      returns (reply: HttpReply, work: Work, ghost translation: string, ghost log: seq<AttemptLog>)
      requires Valid()
      modifies this`polls, this`cursor, this`contexts, this`requests, this`glossary, this`attempts
      ensures Valid()
      ensures attempts == old(attempts) + log && |log| <= MaxRetryCount
      ensures !hasText ==>
                reply == HttpReply(OkStatus, "", PlainType) && work == Idle
                && polls == old(polls) && log == [] && contexts == old(contexts)
                && cursor == old(cursor) && requests == old(requests) && glossary == old(glossary)
      ensures hasText && Trim(param) == "" ==>
                reply == HttpReply(OkStatus, "", Utf8Type) && work == Idle
                && polls == old(polls) && log == [] && contexts == old(contexts)
                && cursor == old(cursor) && requests == old(requests) && glossary == old(glossary)
      ensures hasText && Trim(param) != "" ==>
                polls > 0 && reply == Answer(translation) && work == Finished(!(polls - 1 in env.stops) && translation != "")
                && (translation == "" || Validation.IsValid(translation))
                && (translation != "" ==> log != [] && translation == log[|log| - 1].result)
                && (forall j :: 0 <= j < |log| ==> log[j].text == Trim(param))
      ensures hasText && Trim(param) != "" ==>
                contexts == old(contexts)
                || (log != [] && contexts == AfterAttempt(old(contexts), env.clientId(clientIP), config, env, Trim(param), log[|log| - 1].result))
      ensures hasText && translation != "" ==>
                contexts == AfterAttempt(old(contexts), env.clientId(clientIP), config, env, Trim(param), translation)
    {
      translation := "";
      log := [];
      if !hasText {
        return HttpReply(OkStatus, "", PlainType), Idle, translation, log;
      }
      var text := Trim(param);
      if text == "" {
        return HttpReply(OkStatus, "", Utf8Type), Idle, translation, log;
      }
      reply, work, translation, log := Serve(text, clientIP);
    }

    /** The handling of a request with a non-empty trimmed text: the text translated,
        the HUD told whether the work succeeded (no stop request at the final reading and
        a non-empty result), and the answer the translation or a 500 failure. Every
        attempt made was on `text`, and the client's context is the one the last attempt
        left, or untouched. */
    method Serve(text: string, clientIP: string)
      returns (reply: HttpReply, work: Work, ghost translation: string, ghost log: seq<AttemptLog>)
      requires Valid()
      modifies this`polls, this`cursor, this`contexts, this`requests, this`glossary, this`attempts
      ensures Valid()
      ensures attempts == old(attempts) + log && |log| <= MaxRetryCount
      ensures polls > 0 && reply == Answer(translation) && work == Finished(!(polls - 1 in env.stops) && translation != "")
      ensures translation == "" || Validation.IsValid(translation)
      ensures translation != "" ==> log != [] && translation == log[|log| - 1].result
      ensures forall j :: 0 <= j < |log| ==> log[j].text == text
      ensures contexts == old(contexts)
              || (log != [] && contexts == AfterAttempt(old(contexts), env.clientId(clientIP), config, env, text, log[|log| - 1].result))
      ensures translation != "" ==> contexts == AfterAttempt(old(contexts), env.clientId(clientIP), config, env, text, translation)
    {
      var result;
      result, log := PerformTranslation(text, clientIP);
      translation := result;
      OverFacts(text, clientIP, log, old(polls), old(attempts), old(contexts), result);
      var stop := PollStop();
      if !stop {
        work := Finished(result != "");
      } else {
        work := Finished(false);
      }
      if result == "" {
        reply := HttpReply(500, FailureBody, PlainType);
      } else {
        reply := HttpReply(OkStatus, result, Utf8Type);
      }
    }
  }
}
