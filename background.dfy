/** The background service: the batch analysis behind `ANALYZE_BATCH_WITH_AI`, with its result
    cache, and the concept extraction behind `EXTRACT_ORIGINAL_CONCEPT`. The model's HTTP
    answer and `JSON.parse` are inputs. */
module Background {
  import opened Wrappers
  import opened Text
  import opened Json
  import opened Rules
  import opened Prompt
  import opened Cache
  import Pipeline

  // ---------------------------------------------------------------------------------------------
  // The model's answers

  /** What the service sends to the model: the API key and the parts of the prompt that depend
      on the request (the prompt's fixed prose is not modelled). */
  datatype ApiRequest =
    | BatchPrompt(apiKey: string, combinedText: string, rulesDescription: string)
    | ConceptPrompt(apiKey: string, replacementWord: string)

  /** `fetch` and `response.json()`: the request threw, or an answer with its `ok` flag and
      status, and its body when the body is JSON. */
  datatype HttpResponse = NetworkError | Answered(ok: bool, status: int, body: Option<Json>)

  /** `JSON.parse`: a syntax error, or the value. */
  datatype Parsed = Unparsable | Parsed(value: Json)

  /** Why a call fails: the `Error` it throws. */
  datatype ServiceError =
    | ApiKeyNotSet
    | RequestFailed(status: int)
    | InvalidStructure
    | InvalidJson
    | Thrown

  /** `!result.apiKey` is false: a non-empty stored key. */
  predicate KeySet(apiKey: Option<string>) {
    apiKey.Some? && apiKey.value != []
  }

  /** A value that is there and truthy. */
  predicate Present(o: Option<Json>) {
    o.Some? && Truthy(o.value)
  }

  /** `v[i]`: an array's element, an object's field named by the index, a string's character;
      `undefined` otherwise. */
  function Element(v: Json, i: nat): Option<Json> {
    match v
    case JArr(items) => if i < |items| then Some(items[i]) else None
    case JObj(_) => Get(v, NatToString(i))
    case JStr(s) => if i < |s| then Some(JStr([s[i]])) else None
    case _ => None
  }

  /** `data.candidates[0].content.parts[0]` when every step of that path is truthy, as the batch
      path checks before reading it. */
  function FirstPart(data: Json): (r: Option<Json>)
    ensures r.Some? ==> Truthy(r.value)
    ensures !Present(Get(data, "candidates")) ==> r.None?
  {
    var candidates := Get(data, "candidates");
    if !Present(candidates) then None
    else
      var first := Element(candidates.value, 0);
      if !Present(first) then None
      else
        var content := Get(first.value, "content");
        if !Present(content) then None
        else
          var parts := Get(content.value, "parts");
          if !Present(parts) then None
          else
            var part := Element(parts.value, 0);
            if !Present(part) then None else part
  }

  /** `JSON.parse(v)` on the value read from the path: a string is parsed; `null`, booleans and
      numbers read back as themselves; `undefined`, arrays and objects do not parse. */
  function ParseValue(parse: string -> Parsed, v: Option<Json>): Parsed {
    match v
    case Some(JStr(s)) => parse(s)
    case Some(JNull) => Parsed(JNull)
    case Some(JBool(b)) => Parsed(JBool(b))
    case Some(JNum(n)) => Parsed(JNum(n))
    case _ => Unparsable
  }

  // ---------------------------------------------------------------------------------------------
  // `analyzeBatchWithAI`

  /** How a batch call ends. */
  datatype BatchOutcome = BatchFailed(error: ServiceError) | BatchResult(results: seq<Json>)

  /** `{ results: Array.isArray(parsedResult.results) ? parsedResult.results : [] }`. */
  function NormalisedResults(v: Json): (r: seq<Json>)
    ensures r != [] ==> Get(v, "results") == Some(JArr(r))
    ensures (Get(v, "results").Some? && Get(v, "results").value.JArr?) ==> Get(v, "results") == Some(JArr(r))
  {
    match Get(v, "results")
    case Some(JArr(items)) => items
    case _ => []
  }

  /** The steps after the request: the status check, the body, the structure check, the parse
      and the normalisation (reading `results` of a parsed `null` throws). */
  function Interpret(response: HttpResponse, parse: string -> Parsed): BatchOutcome {
    match response
    case NetworkError => BatchFailed(Thrown)
    case Answered(ok, status, body) =>
      if !ok then BatchFailed(RequestFailed(status))
      else if body.None? || body.value == JNull then BatchFailed(Thrown)
      else
        match FirstPart(body.value)
        case None => BatchFailed(InvalidStructure)
        case Some(part) =>
          match ParseValue(parse, Get(part, "text"))
          case Unparsable => BatchFailed(InvalidJson)
          case Parsed(v) => if v == JNull then BatchFailed(Thrown) else BatchResult(NormalisedResults(v))
  }

  /** A call: its outcome, the cache after it and the requests it sent. */
  datatype BatchRun = BatchRun(outcome: BatchOutcome, store: Store, requests: seq<ApiRequest>)

  /** The request a cache miss sends. */
  function BatchRequestFor(apiKey: string, texts: seq<string>, rules: seq<Rule>): ApiRequest {
    BatchPrompt(apiKey, CombinedText(texts), RulesDescription(rules))
  }

  /** `analyzeBatchWithAI` on the cache `store`, the stored key and the model's answer. */
  function AnalyzeBatchRun(store: Store, texts: seq<string>, rules: seq<Rule>, apiKey: Option<string>,
                           respond: ApiRequest -> HttpResponse, parse: string -> Parsed): (run: BatchRun)
    requires Valid(store)
    ensures Valid(run.store)
  {
    if !KeySet(apiKey) then BatchRun(BatchFailed(ApiKeyNotSet), store, [])
    else
      var key := CacheKey(texts, rules);
      match Lookup(store, key)
      case Some(cached) => BatchRun(BatchResult(cached), store, [])
      case None =>
        var request := BatchRequestFor(apiKey.value, texts, rules);
        var outcome := Interpret(respond(request), parse);
        if outcome.BatchFailed? then BatchRun(outcome, store, [request])
        else
          InsertValid(store, key, outcome.results);
          BatchRun(outcome, Insert(store, key, outcome.results), [request])
  }

  /** Each way a fresh request fails, and success: a non-OK status, a body that is not JSON or is
      `null`, a missing path to the text, unparsable text and a parsed `null` fail; otherwise
      the result is the parsed `results` array, or `[]` when that is not an array. */
  lemma InterpretCases(response: HttpResponse, parse: string -> Parsed)
    ensures response.NetworkError? ==> Interpret(response, parse) == BatchFailed(Thrown)
    ensures response.Answered? && !response.ok ==>
      Interpret(response, parse) == BatchFailed(RequestFailed(response.status))
    ensures response.Answered? && response.ok && response.body.Some? && response.body.value != JNull ==>
      (Interpret(response, parse) == BatchFailed(InvalidStructure) <==> FirstPart(response.body.value).None?)
    ensures Interpret(response, parse).BatchResult? <==>
      && response.Answered? && response.ok && response.body.Some? && response.body.value != JNull
      && FirstPart(response.body.value).Some?
      && ParseValue(parse, Get(FirstPart(response.body.value).value, "text")).Parsed?
      && ParseValue(parse, Get(FirstPart(response.body.value).value, "text")).value != JNull
    ensures Interpret(response, parse).BatchResult? ==>
      Interpret(response, parse).results
      == NormalisedResults(ParseValue(parse, Get(FirstPart(response.body.value).value, "text")).value)
  {
  }

  /** A missing API key fails before any request and leaves the cache alone. */
  lemma NoKeyNoRequest(store: Store, texts: seq<string>, rules: seq<Rule>, apiKey: Option<string>,
                       respond: ApiRequest -> HttpResponse, parse: string -> Parsed)
    requires Valid(store) && !KeySet(apiKey)
    ensures var run := AnalyzeBatchRun(store, texts, rules, apiKey, respond, parse);
      run.outcome == BatchFailed(ApiKeyNotSet) && run.requests == [] && run.store == store
  {
  }

  /** A cache hit returns the stored results without a request and leaves the cache alone. */
  lemma CacheHit(store: Store, texts: seq<string>, rules: seq<Rule>, apiKey: Option<string>,
                 respond: ApiRequest -> HttpResponse, parse: string -> Parsed)
    requires Valid(store) && KeySet(apiKey) && CacheKey(texts, rules) in store.entries
    ensures var run := AnalyzeBatchRun(store, texts, rules, apiKey, respond, parse);
      && run.outcome == BatchResult(store.entries[CacheKey(texts, rules)])
      && run.requests == [] && run.store == store
  {
  }

  /** A call sends at most one request, the one for its texts and rules; a failure caches
      nothing; the cache stays within its bound; and a success leaves its results stored under
      the call's key. */
  lemma BatchRunFacts(store: Store, texts: seq<string>, rules: seq<Rule>, apiKey: Option<string>,
                      respond: ApiRequest -> HttpResponse, parse: string -> Parsed)
    requires Valid(store)
    ensures var run := AnalyzeBatchRun(store, texts, rules, apiKey, respond, parse);
      && |run.requests| <= 1
      && (forall r :: r in run.requests ==> KeySet(apiKey) && r == BatchRequestFor(apiKey.value, texts, rules))
      && (run.outcome.BatchFailed? ==> run.store == store)
      && Valid(run.store)
      && (run.outcome.BatchResult? ==> Lookup(run.store, CacheKey(texts, rules)) == Some(run.outcome.results))
  {
    if KeySet(apiKey) && CacheKey(texts, rules) !in store.entries {
      var request := BatchRequestFor(apiKey.value, texts, rules);
      var outcome := Interpret(respond(request), parse);
      if outcome.BatchResult? {
        InsertValid(store, CacheKey(texts, rules), outcome.results);
      }
    }
  }

  /** Asking again for a batch that succeeded is answered from the cache: the same results, no
      request, and the cache unchanged, whatever the model would answer now. */
  lemma RepeatIsCached(store: Store, texts: seq<string>, rules: seq<Rule>, apiKey: Option<string>,
                       respond: ApiRequest -> HttpResponse, parse: string -> Parsed,
                       respond': ApiRequest -> HttpResponse, parse': string -> Parsed)
    requires Valid(store)
    requires AnalyzeBatchRun(store, texts, rules, apiKey, respond, parse).outcome.BatchResult?
    ensures var run := AnalyzeBatchRun(store, texts, rules, apiKey, respond, parse);
      var again := AnalyzeBatchRun(run.store, texts, rules, apiKey, respond', parse');
      again.outcome == run.outcome && again.requests == [] && again.store == run.store
  {
    BatchRunFacts(store, texts, rules, apiKey, respond, parse);
  }

  /** The message the content script receives: the result object, or `{error}` when the call
      threw. */
  function BatchReply(o: BatchOutcome): Json {
    match o
    case BatchResult(results) => JObj(map["results" := JArr(results)])
    case BatchFailed(_) => JObj(map["error" := JStr("Failed to analyze batch")])
  }

  /** The content script reads a failure as a failed batch and a result as exactly its items. */
  lemma BatchReplyClassified(o: BatchOutcome)
    ensures o.BatchFailed? ==> Pipeline.Classify(Pipeline.Replied(BatchReply(o))) == Pipeline.Failed
    ensures o.BatchResult? ==> Pipeline.Classify(Pipeline.Replied(BatchReply(o))) == Pipeline.Results(o.results)
  {
    if o.BatchFailed? {
      assert Get(BatchReply(o), "error") == Some(JStr("Failed to analyze batch"));
    } else {
      assert Get(BatchReply(o), "error") == None;
      assert Get(BatchReply(o), "results") == Some(JArr(o.results));
    }
  }

  /** `analyzeBatchWithAI` over the service's cache. */
  method AnalyzeBatch(cache: AnalysisCache, texts: seq<string>, rules: seq<Rule>, apiKey: Option<string>,
                      respond: ApiRequest -> HttpResponse, parse: string -> Parsed)
    returns (outcome: BatchOutcome, requests: seq<ApiRequest>)
    requires Valid(cache.Contents())
    modifies cache
    ensures outcome == AnalyzeBatchRun(old(cache.Contents()), texts, rules, apiKey, respond, parse).outcome
    ensures requests == AnalyzeBatchRun(old(cache.Contents()), texts, rules, apiKey, respond, parse).requests
    ensures cache.Contents() == AnalyzeBatchRun(old(cache.Contents()), texts, rules, apiKey, respond, parse).store
    ensures Valid(cache.Contents())
  {
    if !(apiKey.Some? && apiKey.value != []) {
      outcome := BatchFailed(ApiKeyNotSet);
      requests := [];
      return;
    }
    var cacheKey := CacheKey(texts, rules);
    var cached := cache.Get(cacheKey);
    if cached.Some? {
      outcome := BatchResult(cached.value);
      requests := [];
      return;
    }
    var request := BatchPrompt(apiKey.value, CombinedText(texts), RulesDescription(rules));
    requests := [request];
    outcome := Interpret(respond(request), parse);
    if outcome.BatchResult? {
      cache.Set(cacheKey, outcome.results);
    }
  }

  // ---------------------------------------------------------------------------------------------
  // `extractOriginalConcept`

  /** `s.replace(/\\"/g, '"')`: each backslash-quote pair, found left to right, becomes a quote. */
  function Unescape(s: string): (r: string)
    ensures |r| <= |s|
    ensures '"' !in s ==> r == s
    decreases |s|
  {
    if s == [] then []
    else if |s| >= 2 && s[0] == '\\' && s[1] == '"' then "\"" + Unescape(s[2..])
    else [s[0]] + Unescape(s[1..])
  }

  /** A backslash before every quote: how a quote is written inside a JSON string literal. */
  function EscapeQuotes(t: string): string {
    if t == [] then [] else (if t[0] == '"' then "\\\"" else [t[0]]) + EscapeQuotes(t[1..])
  }

  lemma EscapeQuotesHead(t: string)
    ensures EscapeQuotes(t) == [] || EscapeQuotes(t)[0] != '"'
  {
  }

  /** Unescaping undoes the escaping of quotes. */
  lemma {:induction false} UnescapeEscapeQuotes(t: string)
    ensures Unescape(EscapeQuotes(t)) == t
  {
    if t != [] {
      var e := EscapeQuotes(t[1..]);
      UnescapeEscapeQuotes(t[1..]);
      EscapeQuotesHead(t[1..]);
      if t[0] == '"' {
        assert EscapeQuotes(t) == "\\\"" + e;
        assert ("\\\"" + e)[2..] == e;
      } else {
        assert EscapeQuotes(t) == [t[0]] + e;
        assert ([t[0]] + e)[1..] == e;
      }
      assert t == [t[0]] + t[1..];
    }
  }

  /** The outer-quote removal: a text that starts and ends with `"` loses its first and last
      character (`slice(1, -1)`, empty for a lone quote) and has `\"` unescaped. */
  function Unwrap(s: string): string {
    if s != [] && StartsWith(s, "\"") && EndsWith(s, "\"") then
      Unescape(if |s| >= 2 then s[1..|s| - 1] else [])
    else s
  }

  /** A text sent back as a JSON string literal is recovered by the outer-quote removal. */
  lemma UnwrapQuoted(t: string)
    ensures Unwrap(Quoted(EscapeQuotes(t))) == t
  {
    var q := Quoted(EscapeQuotes(t));
    assert q[1..|q| - 1] == EscapeQuotes(t);
    UnescapeEscapeQuotes(t);
  }

  /** A string item that is not blank. */
  predicate KeptItem(v: Json) {
    v.JStr? && !IsBlank(v.s)
  }

  /** `concepts.filter(c => typeof c === 'string' && c.trim().length > 0).map(c => c.trim())`. */
  function KeepConcepts(items: seq<Json>): (r: seq<string>)
    ensures |r| <= |items|
  {
    if items == [] then []
    else
      var rest := KeepConcepts(items[1..]);
      if items[0].JStr? && Trim(items[0].s) != [] then [Trim(items[0].s)] + rest else rest
  }

  /** A concept as the filter leaves it: trimmed and not empty. */
  predicate Clean(c: string) {
    c != [] && Trim(c) == c
  }

  lemma TrimClean(c: string)
    requires Trim(c) != []
    ensures Clean(Trim(c))
  {
    TrimIdempotent(c);
  }

  predicate AllClean(cs: seq<string>) {
    forall i :: 0 <= i < |cs| ==> Clean(cs[i])
  }

  lemma AllCleanCons(c: string, cs: seq<string>)
    requires Clean(c) && AllClean(cs)
    ensures AllClean([c] + cs)
  {
    var r := [c] + cs;
    forall i | 0 < i < |r| ensures Clean(r[i]) {
      assert r[i] == cs[i - 1];
    }
  }

  /** The kept concepts are trimmed and not empty. */
  lemma {:induction false} KeepConceptsTrimmed(items: seq<Json>)
    ensures AllClean(KeepConcepts(items))
  {
    if items != [] {
      KeepConceptsTrimmed(items[1..]);
      if items[0].JStr? && Trim(items[0].s) != [] {
        TrimClean(items[0].s);
        AllCleanCons(Trim(items[0].s), KeepConcepts(items[1..]));
      }
    }
  }

  lemma KeptItemTrim(v: Json)
    requires v.JStr?
    ensures KeptItem(v) <==> Trim(v.s) != []
  {
    TrimEmptyIffBlank(v.s);
  }

  /** The kept concepts are exactly the trimmed non-blank strings among the items. */
  lemma {:induction false} KeepConceptsMembers(items: seq<Json>, c: string)
    ensures c in KeepConcepts(items) <==> exists i :: 0 <= i < |items| && KeptItem(items[i]) && c == Trim(items[i].s)
  {
    if items != [] {
      var tail := items[1..];
      KeepConceptsMembers(tail, c);
      var head := items[0].JStr? && Trim(items[0].s) != [] && c == Trim(items[0].s);
      if items[0].JStr? {
        KeptItemTrim(items[0]);
      }
      assert c in KeepConcepts(items) <==> head || c in KeepConcepts(tail);
      if head {
        assert KeptItem(items[0]) && c == Trim(items[0].s);
      }
      if c in KeepConcepts(tail) {
        var i :| 0 <= i < |tail| && KeptItem(tail[i]) && c == Trim(tail[i].s);
        assert items[i + 1] == tail[i];
      }
      if exists i :: 0 <= i < |items| && KeptItem(items[i]) && c == Trim(items[i].s) {
        var i :| 0 <= i < |items| && KeptItem(items[i]) && c == Trim(items[i].s);
        if i > 0 {
          assert tail[i - 1] == items[i];
        }
      }
    }
  }

  /** The filter keeps the order of the items. */
  lemma {:induction false} KeepConceptsAppend(a: seq<Json>, b: seq<Json>)
    ensures KeepConcepts(a + b) == KeepConcepts(a) + KeepConcepts(b)
  {
    if a == [] {
      assert a + b == b;
    } else {
      assert (a + b)[0] == a[0] && (a + b)[1..] == a[1..] + b;
      KeepConceptsAppend(a[1..], b);
    }
  }

  /** A parsed value as a list of concepts: an array as it is, anything else wrapped. */
  function ConceptsOf(v: Json): seq<string> {
    KeepConcepts(if v.JArr? then v.items else [v])
  }

  /** `data.candidates?.[0]?.content?.parts?.[0]?.text?.trim()`. */
  datatype TextAt = Missing | Found(text: string) | NotAString

  /** A `?.` step stops at `null` and `undefined`. */
  predicate Nullish(o: Option<Json>) {
    o.None? || o.value == JNull
  }

  /** `data.candidates?.[0]?.content?.parts?.[0]` on a body that is not `null`: `None` when a
      step is `null` or `undefined`. */
  function PartAt(data: Json): (r: Option<Json>)
    ensures r.Some? ==> r.value != JNull
    ensures Nullish(Get(data, "candidates")) ==> r.None?
  {
    var candidates := Get(data, "candidates");
    if Nullish(candidates) then None
    else
      var first := Element(candidates.value, 0);
      if Nullish(first) then None
      else
        var content := Get(first.value, "content");
        if Nullish(content) then None
        else
          var parts := Get(content.value, "parts");
          if Nullish(parts) then None
          else
            var part := Element(parts.value, 0);
            if Nullish(part) then None else part
  }

  /** Where the batch path's truthiness checks find a part, the optional chain finds the same part;
      where the chain stops at a `null` or `undefined` step, the batch path finds none. */
  lemma {:induction false} FirstPartAgreesWithPartAt(data: Json)
    ensures FirstPart(data).Some? ==> PartAt(data) == FirstPart(data)
    ensures PartAt(data).None? ==> FirstPart(data).None?
  {
  }

  /** The optional chain to the answer's text: `undefined` when a step is `null` or `undefined`,
      the trimmed text when it is a string; calling `trim` on any other value throws. */
  function TextOf(data: Json): TextAt {
    var part := PartAt(data);
    if part.None? then Missing
    else
      var text := Get(part.value, "text");
      if Nullish(text) then Missing
      else if text.value.JStr? then Found(Trim(text.value.s))
      else NotAString
  }

  /** How a concept extraction ends, as the source computes it: the concepts may include
      `undefined` (`None`). */
  datatype ExtractOutcome = ExtractFailed(error: ServiceError) | Extracted(concepts: seq<Option<string>>)

  function Somes(cs: seq<string>): (r: seq<Option<string>>)
    ensures |r| == |cs| && forall i :: 0 <= i < |cs| ==> r[i] == Some(cs[i])
  {
    seq(|cs|, i requires 0 <= i < |cs| => Some(cs[i]))
  }

  /** The concepts before the final fallback, as written: `JSON.parse(undefined)` and any other
      parse failure keep the text itself as the one concept. */
  function ParsedConceptsAsWritten(text: TextAt, parse: string -> Parsed): seq<Option<string>>
    requires !text.NotAString?
  {
    match text
    case Missing => [None]
    case Found(s) =>
      var t := if s != [] then Unwrap(s) else s;
      match parse(t)
      case Unparsable => [Some(t)]
      case Parsed(v) => Somes(ConceptsOf(v))
  }

  /** Where the answer's text stands: the call failed, or the text was read. */
  datatype TextStage = StageFailed(error: ServiceError) | StageText(text: TextAt)

  /** The key check, the request, the status check, the body and the optional chain to the text. */
  function AnswerText(replacementWord: string, apiKey: Option<string>, respond: ApiRequest -> HttpResponse): (r: TextStage)
    ensures r.StageText? ==> !r.text.NotAString?
    ensures !KeySet(apiKey) ==> r == StageFailed(ApiKeyNotSet)
  {
    if !KeySet(apiKey) then StageFailed(ApiKeyNotSet)
    else
      match respond(ConceptPrompt(apiKey.value, replacementWord))
      case NetworkError => StageFailed(Thrown)
      case Answered(ok, status, body) =>
        if !ok then StageFailed(RequestFailed(status))
        else if body.None? || body.value == JNull then StageFailed(Thrown)
        else
          var text := TextOf(body.value);
          if text.NotAString? then StageFailed(Thrown) else StageText(text)
  }

  /** The extraction makes at most one request, the concept prompt for the word: two language
      models that answer that prompt alike give the same text, and without a key no model is
      asked at all. */
  lemma AnswerTextOneRequest(replacementWord: string, apiKey: Option<string>,
                             respond: ApiRequest -> HttpResponse, other: ApiRequest -> HttpResponse)
    requires KeySet(apiKey) ==>
      respond(ConceptPrompt(apiKey.value, replacementWord)) == other(ConceptPrompt(apiKey.value, replacementWord))
    ensures AnswerText(replacementWord, apiKey, respond) == AnswerText(replacementWord, apiKey, other)
  {
  }

  /** `if (concepts.length === 0) concepts = [replacementWord]`. */
  function Fallback<T>(concepts: seq<T>, word: T): (r: seq<T>)
    ensures |r| > 0
    ensures concepts != [] ==> r == concepts
    ensures concepts == [] ==> r == [word]
  {
    if concepts == [] then [word] else concepts
  }

  /** `extractOriginalConcept` as written. */
  function ExtractAsWritten(replacementWord: string, apiKey: Option<string>,
                            respond: ApiRequest -> HttpResponse, parse: string -> Parsed): ExtractOutcome
  {
    match AnswerText(replacementWord, apiKey, respond)
    case StageFailed(e) => ExtractFailed(e)
    case StageText(text) => Extracted(Fallback(ParsedConceptsAsWritten(text, parse), Some(replacementWord)))
  }

  /** An OK answer whose body leads to a string text. */
  lemma AnswerTextFound(replacementWord: string, apiKey: Option<string>, respond: ApiRequest -> HttpResponse,
                        status: int, data: Json, s: string)
    requires KeySet(apiKey)
    requires respond(ConceptPrompt(apiKey.value, replacementWord)) == Answered(true, status, Some(data))
    requires data != JNull && TextOf(data) == Found(s)
    ensures AnswerText(replacementWord, apiKey, respond) == StageText(Found(s))
  {
  }

  /** The post-processing: on a successful parse, exactly the trimmed non-blank strings of the
      (wrapped) value, in order; on a failed parse, the text itself; and the replacement word
      when nothing is left. */
  lemma ExtractAsWrittenCases(replacementWord: string, apiKey: Option<string>,
                              respond: ApiRequest -> HttpResponse, parse: string -> Parsed, s: string)
    requires AnswerText(replacementWord, apiKey, respond) == StageText(Found(s))
    ensures var t := if s != [] then Unwrap(s) else s;
      var r := ExtractAsWritten(replacementWord, apiKey, respond, parse);
      && (parse(t).Parsed? && ConceptsOf(parse(t).value) != [] ==> r == Extracted(Somes(ConceptsOf(parse(t).value))))
      && (parse(t).Parsed? && ConceptsOf(parse(t).value) == [] ==> r == Extracted([Some(replacementWord)]))
      && (parse(t).Unparsable? ==> r == Extracted([Some(t)]))
  {
    var t := if s != [] then Unwrap(s) else s;
    if parse(t).Parsed? && ConceptsOf(parse(t).value) == [] {
      assert Somes(ConceptsOf(parse(t).value)) == [];
    }
  }

  /** An answer with no candidates, as the model gives for a blocked prompt: the source's list is
      `[undefined]`, not the replacement word. */
  lemma AsWrittenNoCandidates(replacementWord: string, apiKey: string, respond: ApiRequest -> HttpResponse,
                              parse: string -> Parsed)
    requires apiKey != [] && respond(ConceptPrompt(apiKey, replacementWord)) == Answered(true, 200, Some(JObj(map[])))
    ensures ExtractAsWritten(replacementWord, Some(apiKey), respond, parse) == Extracted([None])
  {
  }

  /** An answer carrying the one text `text`, as the model sends it. */
  function TextAnswer(text: string): Json {
    JObj(map["candidates" := JArr([JObj(map["content" := JObj(map["parts" := JArr([JObj(map["text" := JStr(text)])])])])])])
  }

  lemma PartOfAnswer(text: string)
    ensures PartAt(TextAnswer(text)) == Some(JObj(map["text" := JStr(text)]))
  {
    var part := JObj(map["text" := JStr(text)]);
    var parts := JArr([part]);
    var content := JObj(map["parts" := parts]);
    var candidate := JObj(map["content" := content]);
    assert Get(TextAnswer(text), "candidates") == Some(JArr([candidate]));
    assert Element(JArr([candidate]), 0) == Some(candidate);
    assert Get(candidate, "content") == Some(content);
    assert Get(content, "parts") == Some(parts);
    assert Element(parts, 0) == Some(part);
  }

  /** The batch path finds the one part of a text answer, as the chain does. */
  lemma FirstPartOfAnswer(text: string)
    ensures FirstPart(TextAnswer(text)) == Some(JObj(map["text" := JStr(text)]))
  {
    PartOfAnswer(text);
    FirstPartAgreesWithPartAt(TextAnswer(text));
    var part := JObj(map["text" := JStr(text)]);
    var parts := JArr([part]);
    var content := JObj(map["parts" := parts]);
    var candidate := JObj(map["content" := content]);
    assert Get(TextAnswer(text), "candidates") == Some(JArr([candidate]));
    assert Element(JArr([candidate]), 0) == Some(candidate);
    assert Get(candidate, "content") == Some(content);
    assert Get(content, "parts") == Some(parts);
    assert Element(parts, 0) == Some(part);
  }

  lemma TextOfAnswer(text: string)
    ensures TextOf(TextAnswer(text)) == Found(Trim(text))
  {
    PartOfAnswer(text);
    assert Get(JObj(map["text" := JStr(text)]), "text") == Some(JStr(text));
  }

  /** A blank text: `JSON.parse('')` fails and the source's list is `['']`, a concept that the
      content script's pre-filter matches against every text. */
  lemma AsWrittenBlankText(replacementWord: string, apiKey: string, respond: ApiRequest -> HttpResponse,
                           parse: string -> Parsed)
    requires apiKey != [] && parse("") == Unparsable
    requires respond(ConceptPrompt(apiKey, replacementWord)) == Answered(true, 200, Some(TextAnswer(" ")))
    ensures ExtractAsWritten(replacementWord, Some(apiKey), respond, parse) == Extracted([Some("")])
  {
    TextOfAnswer(" ");
    TrimEmptyIffBlank(" ");
    AnswerTextFound(replacementWord, Some(apiKey), respond, 200, TextAnswer(" "), "");
    ExtractAsWrittenCases(replacementWord, Some(apiKey), respond, parse, "");
  }

  /** The concepts before the final fallback, with a missing or blank text giving none, so that
      the fallback then supplies the replacement word. */
  function ParsedConcepts(text: TextAt, parse: string -> Parsed): (r: seq<string>)
    requires !text.NotAString?
    ensures AllClean(r)
  {
    match text
    case Missing => []
    case Found(s) =>
      var t := if s != [] then Unwrap(s) else s;
      match parse(t)
      case Unparsable =>
        KeepConceptsTrimmed([JStr(t)]);
        KeepConcepts([JStr(t)])
      case Parsed(v) =>
        KeepConceptsTrimmed(if v.JArr? then v.items else [v]);
        ConceptsOf(v)
  }

  /** `extractOriginalConcept` with the fallback concept passed through the same filter as the
      parsed ones. */
  function ExtractConcepts(replacementWord: string, apiKey: Option<string>,
                           respond: ApiRequest -> HttpResponse, parse: string -> Parsed): (r: ExtractOutcome)
    ensures r.Extracted? ==> |r.concepts| > 0
  {
    match AnswerText(replacementWord, apiKey, respond)
    case StageFailed(e) => ExtractFailed(e)
    case StageText(text) => Extracted(Fallback(Somes(ParsedConcepts(text, parse)), Some(replacementWord)))
  }

  /** The corrected half of `AsWrittenNoCandidates` and `AsWrittenBlankText`: an answer with no
      `candidates`, or with a blank text, gives the replacement word. */
  lemma CorrectedNoCandidates(replacementWord: string, apiKey: string, respond: ApiRequest -> HttpResponse,
                              parse: string -> Parsed)
    requires apiKey != []
    requires respond(ConceptPrompt(apiKey, replacementWord)) == Answered(true, 200, Some(JObj(map[])))
    ensures ExtractConcepts(replacementWord, Some(apiKey), respond, parse) == Extracted([Some(replacementWord)])
  {
    assert AnswerText(replacementWord, Some(apiKey), respond) == StageText(Missing);
  }

  lemma CorrectedBlankText(replacementWord: string, apiKey: string, respond: ApiRequest -> HttpResponse,
                           parse: string -> Parsed)
    requires apiKey != [] && parse("") == Unparsable
    requires respond(ConceptPrompt(apiKey, replacementWord)) == Answered(true, 200, Some(TextAnswer(" ")))
    ensures ExtractConcepts(replacementWord, Some(apiKey), respond, parse) == Extracted([Some(replacementWord)])
  {
    TextOfAnswer(" ");
    TrimEmptyIffBlank(" ");
    AnswerTextFound(replacementWord, Some(apiKey), respond, 200, TextAnswer(" "), "");
    KeepSingle("");
    assert ParsedConcepts(Found(""), parse) == [];
  }

  /** A trimmed non-empty concept. */
  predicate GoodConcept(c: Option<string>, replacementWord: string) {
    c.Some? && (c.value == replacementWord || (c.value != [] && Trim(c.value) == c.value))
  }

  /** Every extracted concept is a trimmed non-empty string or the replacement word, the list is
      never empty, and it fails exactly when the source does. Where the parse fails, the text is
      passed through the same trim-and-drop-blank filter as parsed concepts (`ExtractUnparsable`),
      so a missing or blank text gives the replacement word and a padded text loses its padding. */
  lemma ExtractConceptsGood(replacementWord: string, apiKey: Option<string>,
                            respond: ApiRequest -> HttpResponse, parse: string -> Parsed)
    ensures var r := ExtractConcepts(replacementWord, apiKey, respond, parse);
      r.Extracted? ==> |r.concepts| > 0 && forall i :: 0 <= i < |r.concepts| ==> GoodConcept(r.concepts[i], replacementWord)
    ensures var r := ExtractConcepts(replacementWord, apiKey, respond, parse);
      r.ExtractFailed? <==> ExtractAsWritten(replacementWord, apiKey, respond, parse).ExtractFailed?
  {
  }

  /** The filter on one string keeps it trimmed, unless it is blank. */
  lemma KeepSingle(t: string)
    ensures KeepConcepts([JStr(t)]) == if IsBlank(t) then [] else [Trim(t)]
  {
    TrimEmptyIffBlank(t);
    assert [JStr(t)][1..] == [];
  }

  /** The concepts of an unparsable text before the fallback: the text itself as written, the
      trimmed text or nothing once corrected. */
  lemma UnparsableConcepts(s: string, parse: string -> Parsed, t: string)
    requires t == if s != [] then Unwrap(s) else s
    requires parse(t).Unparsable?
    ensures ParsedConceptsAsWritten(Found(s), parse) == [Some(t)]
    ensures ParsedConcepts(Found(s), parse) == if IsBlank(t) then [] else [Trim(t)]
  {
    KeepSingle(t);
  }

  /** On a parse that fails, the source keeps the text as it is; the corrected extraction keeps it
      trimmed, and the replacement word when it is blank. */
  lemma ExtractUnparsable(replacementWord: string, apiKey: Option<string>,
                          respond: ApiRequest -> HttpResponse, parse: string -> Parsed, s: string)
    requires AnswerText(replacementWord, apiKey, respond) == StageText(Found(s))
    requires parse(if s != [] then Unwrap(s) else s).Unparsable?
    ensures var t := if s != [] then Unwrap(s) else s;
      && ExtractAsWritten(replacementWord, apiKey, respond, parse) == Extracted([Some(t)])
      && ExtractConcepts(replacementWord, apiKey, respond, parse)
         == Extracted(if IsBlank(t) then [Some(replacementWord)] else [Some(Trim(t))])
  {
    var t := if s != [] then Unwrap(s) else s;
    UnparsableConcepts(s, parse, t);
    var kept := ParsedConcepts(Found(s), parse);
    assert Somes(kept) == if IsBlank(t) then [] else [Some(Trim(t))];
  }

  /** On a parse that succeeds, the corrected extraction and the source agree. */
  lemma ExtractAgreesOnParse(replacementWord: string, apiKey: Option<string>,
                             respond: ApiRequest -> HttpResponse, parse: string -> Parsed, s: string)
    requires AnswerText(replacementWord, apiKey, respond) == StageText(Found(s))
    requires parse(if s != [] then Unwrap(s) else s).Parsed?
    ensures ExtractConcepts(replacementWord, apiKey, respond, parse) == ExtractAsWritten(replacementWord, apiKey, respond, parse)
  {
  }

  /** The message the popup receives. */
  function ExtractReply(o: ExtractOutcome): Json {
    match o
    case ExtractFailed(_) => JObj(map["error" := JStr("Failed to extract concept")])
    case Extracted(cs) =>
      JObj(map["originalConcepts" := JArr(seq(|cs|, i requires 0 <= i < |cs| =>
        if cs[i].Some? then JStr(cs[i].value) else JNull))])
  }
}
