/** Model of the generator front end (`llm_services.py`): the model-to-URL
    table lookup, the fixed prompt template, and the mapping of the HTTP
    exchange's outcome to the returned string.

    The exchange itself is an oracle `send` from the request the service
    would post to the outcome the `requests` library would report. */
module Generator {
  import opened Common

  /** One entry of the `LLM_URLS` setting. */
  datatype Endpoint = Endpoint(model: string, url: string)

  const DefaultModel := "llama3.2"
  const DefaultTemperature: real := 0.7
  const RequestTimeoutSeconds: nat := 3600

  /** The strings `generate_answer` returns instead of a model reply. */
  const ModelNotFound := "Model not found"
  const RequestFailedSentinel := "OLF"
  const TimeoutSentinel := "OLT"
  const UnexpectedSentinel := "OLU"

  /** Position of the first table entry serving `modelName`. */
  function FirstEndpoint(urls: seq<Endpoint>, modelName: string): (r: Option<nat>)
    ensures r.None? <==> forall i :: 0 <= i < |urls| ==> urls[i].model != modelName
    ensures r.Some? ==> r.value < |urls| && urls[r.value].model == modelName
                        && forall j :: 0 <= j < r.value ==> urls[j].model != modelName
  {
    if |urls| == 0 then None
    else if urls[0].model == modelName then Some(0)
    else match FirstEndpoint(urls[1..], modelName)
         case None => None
         case Some(i) => Some(i + 1)
  }

  /** The loop over `self.urls` that stops at the first matching model. */
  function ResolveEndpoint(urls: seq<Endpoint>, modelName: string): (r: Option<string>)
    ensures r.None? <==> forall i :: 0 <= i < |urls| ==> urls[i].model != modelName
    ensures r.Some? ==> exists i :: && 0 <= i < |urls| && urls[i] == Endpoint(modelName, r.value)
                                   && forall j :: 0 <= j < i ==> urls[j].model != modelName
  {
    match FirstEndpoint(urls, modelName)
    case None => None
    case Some(i) => Some(urls[i].url)
  }

  /** A later entry for the same model is never used. */
  lemma FirstEntryShadows(urls: seq<Endpoint>, i: nat, j: nat)
    requires i < j < |urls| && urls[i].model == urls[j].model
    requires forall x :: 0 <= x < i ==> urls[x].model != urls[i].model
    ensures ResolveEndpoint(urls, urls[j].model) == Some(urls[i].url)
  {
    assert FirstEndpoint(urls, urls[j].model).Some?;
  }

  // ---------------------------------------------------------------------------
  // _build_prompt
  // ---------------------------------------------------------------------------

  /** The reply the template tells the model to give when the context does
      not answer the question. */
  const NoInformationReply := "I don't have enough information to answer that question."

  const PromptHead := " You are a helpful assistant that answers questions based on provided context.\n        Context from documents: "
  const PromptMiddle := "\n        Question: "
  const InstructionsLead :=
    "\n        Instructions: \n        - Answer the question based ONLY on the provided context\n        - If the answer is not in the context, say \""
  const PromptClosing := "\"\n        - Be concise and accurate\n        - Cite specific details from the context when possible\n        Answer:"
  const PromptTail := InstructionsLead + NoInformationReply + PromptClosing

  /** The middle of a three-piece suffix sits at a fixed distance from the end. */
  lemma SuffixMiddleAt(p: string, lead: string, mid: string, closing: string)
    ensures var r := p + (lead + mid + closing);
            var k := |r| - |lead + mid + closing| + |lead|;
            && k + |mid| <= |r|
            && r[k..k + |mid|] == mid
  {
    var r := p + (lead + mid + closing);
    assert r == (p + lead) + mid + closing;
  }

  /** Where each of five concatenated pieces sits. */
  lemma ConcatLayout(a: string, b: string, c: string, d: string, e: string)
    ensures var r := a + b + c + d + e;
            && |r| == |a| + |b| + |c| + |d| + |e|
            && r[..|a|] == a
            && r[|a|..|a| + |b|] == b
            && r[|a| + |b|..|a| + |b| + |c|] == c
            && r[|r| - |e| - |d|..|r| - |e|] == d
            && r[|r| - |e|..] == e
  {
    var r := a + b + c + d + e;
    assert r == a + (b + (c + (d + e)));
  }

  /** `_build_prompt(query, context)`. */
  function BuildPrompt(query: string, context: string): string
  {
    PromptHead + context + PromptMiddle + query + PromptTail
  }

  /** The context and then the query sit verbatim in the fixed template: the
      head before the context, the question marker between the two, and the
      instructions after the query. */
  lemma PromptLayout(query: string, context: string)
    ensures var r := BuildPrompt(query, context);
            && |r| == |PromptHead| + |context| + |PromptMiddle| + |query| + |PromptTail|
            && r[..|PromptHead|] == PromptHead
            && r[|PromptHead|..|PromptHead| + |context|] == context
            && r[|PromptHead| + |context|..|PromptHead| + |context| + |PromptMiddle|] == PromptMiddle
            && r[|r| - |PromptTail| - |query|..|r| - |PromptTail|] == query
            && r[|r| - |PromptTail|..] == PromptTail
  {
    ConcatLayout(PromptHead, context, PromptMiddle, query, PromptTail);
  }

  /** Every prompt carries the fixed "not enough information" instruction,
      at the same distance from its end, whatever the query and context. */
  lemma PromptCarriesFallbackInstruction(query: string, context: string)
    ensures var p := BuildPrompt(query, context);
            var k := |p| - |PromptTail| + |InstructionsLead|;
            && k + |NoInformationReply| <= |p|
            && p[k..k + |NoInformationReply|] == NoInformationReply
  {
    SuffixMiddleAt(PromptHead + context + PromptMiddle + query, InstructionsLead, NoInformationReply, PromptClosing);
  }

  /** Two prompts with contexts of equal length are equal only when both the
      contexts and the queries are: the prompt determines what was asked. */
  lemma PromptDeterminesInputs(q1: string, c1: string, q2: string, c2: string)
    requires |c1| == |c2|
    ensures BuildPrompt(q1, c1) == BuildPrompt(q2, c2) <==> q1 == q2 && c1 == c2
  {
    if BuildPrompt(q1, c1) == BuildPrompt(q2, c2) {
      PromptLayout(q1, c1);
      PromptLayout(q2, c2);
      var p := BuildPrompt(q1, c1);
      assert c1 == p[|PromptHead|..|PromptHead| + |c1|] == c2;
      assert q1 == p[|p| - |PromptTail| - |q1|..|p| - |PromptTail|] == q2;
    }
  }

  // ---------------------------------------------------------------------------
  // generate_answer
  // ---------------------------------------------------------------------------

  /** The POST the service would make: URL, JSON body
      `{model, prompt, stream, options: {temperature}}`, and timeout. */
  datatype GenerateRequest = GenerateRequest(
    url: string,
    model: string,
    prompt: string,
    stream: bool,
    temperature: real,
    timeoutSeconds: nat)

  /** The `requests.exceptions.RequestException` family. */
  datatype RequestFailure = ConnectionFailed | TimedOut | BadStatus(code: int) | InvalidBody

  /** What the exchange came to: a decoded JSON reply (with the value of its
      "response" key when it has one), a `RequestException`, or any other
      exception. */
  datatype Transport =
    | Responded(response: Option<string>)
    | RequestFailed(failure: RequestFailure)
    | Unexpected

  /** The returned string and the request that produced it, if one was sent. */
  datatype Generation = Generation(answer: string, sent: Option<GenerateRequest>)

  /** `generate_answer(query, context, temperature, model_name)`. */
  function GenerateAnswer(urls: seq<Endpoint>, query: string, context: string, temperature: real,
                          modelName: string, send: GenerateRequest -> Transport): (g: Generation)
    ensures g.sent.None? <==> ResolveEndpoint(urls, modelName).None?
    ensures g.sent.None? ==> g.answer == ModelNotFound
    ensures g.sent.Some? ==>
              && g.sent.value.url == ResolveEndpoint(urls, modelName).value
              && g.sent.value.model == modelName
              && g.sent.value.prompt == BuildPrompt(query, context)
              && !g.sent.value.stream
              && g.sent.value.temperature == temperature
              && g.sent.value.timeoutSeconds == RequestTimeoutSeconds
    ensures g.sent.Some? ==>
              match send(g.sent.value)
              case Responded(Some(s)) => g.answer == s
              case Responded(None) => g.answer == []
              case RequestFailed(_) => g.answer == RequestFailedSentinel
              case Unexpected => g.answer == UnexpectedSentinel
  {
    var prompt := BuildPrompt(query, context);
    match ResolveEndpoint(urls, modelName)
    case None => Generation(ModelNotFound, None)
    case Some(url) =>
      var req := GenerateRequest(url, modelName, prompt, false, temperature, RequestTimeoutSeconds);
      var answer :=
        match send(req)
        case Responded(response) => (match response case Some(s) => s case None => [])
        case RequestFailed(_) => RequestFailedSentinel
        case Unexpected => UnexpectedSentinel;
      Generation(answer, Some(req))
  }

  /** A timeout is a `RequestException`, and the clause for those comes
      first: a timed-out request yields "OLF", and "OLT" is returned only when
      the model itself replied "OLT". */
  lemma TimeoutReportedAsRequestFailure(urls: seq<Endpoint>, query: string, context: string, temperature: real,
                                        modelName: string, send: GenerateRequest -> Transport)
    ensures var g := GenerateAnswer(urls, query, context, temperature, modelName, send);
            && (g.sent.Some? && send(g.sent.value) == RequestFailed(TimedOut) ==> g.answer == RequestFailedSentinel)
            && (g.answer == TimeoutSentinel ==> g.sent.Some? && send(g.sent.value) == Responded(Some(TimeoutSentinel)))
  {
    var g := GenerateAnswer(urls, query, context, temperature, modelName, send);
    if g.answer == TimeoutSentinel {
      assert TimeoutSentinel != ModelNotFound && TimeoutSentinel != RequestFailedSentinel
          && TimeoutSentinel != UnexpectedSentinel && TimeoutSentinel != [];
    }
  }

  /** The answer is empty exactly when a request was made and the reply had
      no "response" key or an empty one; every failure yields a non-empty
      string instead. */
  lemma EmptyAnswerIff(urls: seq<Endpoint>, query: string, context: string, temperature: real,
                       modelName: string, send: GenerateRequest -> Transport)
    ensures var g := GenerateAnswer(urls, query, context, temperature, modelName, send);
            g.answer == [] <==>
              g.sent.Some? && (send(g.sent.value) == Responded(None) || send(g.sent.value) == Responded(Some([])))
  {
    var g := GenerateAnswer(urls, query, context, temperature, modelName, send);
    assert |ModelNotFound| > 0 && |RequestFailedSentinel| > 0 && |UnexpectedSentinel| > 0;
  }

  /** With the model missing from the table the outcome does not depend on
      the transport, since nothing is sent. */
  lemma MissingModelSendsNothing(urls: seq<Endpoint>, query: string, context: string, temperature: real,
                                 modelName: string, send1: GenerateRequest -> Transport,
                                 send2: GenerateRequest -> Transport)
    requires forall i :: 0 <= i < |urls| ==> urls[i].model != modelName
    ensures GenerateAnswer(urls, query, context, temperature, modelName, send1)
         == GenerateAnswer(urls, query, context, temperature, modelName, send2)
         == Generation(ModelNotFound, None)
  {
  }
}
