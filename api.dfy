/** The translation request (script.js, `getApiConfig` and `getTranslation`):
    the model name picks the provider, the API key is checked before any
    request is made, and what comes back is classified into a translation,
    an abort passed through unchanged, or an error naming the model. */
module Api {
  import opened Wrappers
  import opened Seqs
  import opened Stream

  const GroqPrefix := "grok-"
  const DeepseekChat := "deepseek-chat"
  const XaiEndpoint := "https://api.x.ai/v1/chat/completions"
  const DeepseekEndpoint := "https://api.deepseek.com/chat/completions"
  const GroqMaxTokens := 131072
  const GroqKeyPlaceholder := "YOUR_GROQ_API_KEY"
  const DeepseekKeyPlaceholder := "YOUR_DEEPSEEK_API_KEY"
  const MissingParametersMessage := "Missing required parameters for getTranslation (prompt or model)."
  const InvalidFormatMessage := "Invalid API response format for non-streaming translation."

  datatype Message = Message(role: string, content: string)

  /** The JSON body of the request; the temperature is whatever number the
      page read, passed through untouched. */
  datatype RequestBody<Num> = RequestBody(model: string, messages: seq<Message>, temperature: Num,
                                          stream: bool, maxTokens: Option<nat>)

  datatype ApiConfig<Num> = ApiConfig(apiUrl: string, apiKey: string, requestBody: RequestBody<Num>)

  predicate IsGroq(model: string)
  {
    IsPrefix(GroqPrefix, model)
  }

  /** Models the page can send a request for. */
  predicate Supported(model: string)
  {
    IsGroq(model) || model == DeepseekChat
  }

  /** The provider table: `grok-` models go to x.ai with the Groq key and a
      `max_tokens` of 131072, `deepseek-chat` to DeepSeek with its key and no
      `max_tokens`, anything else is refused; the body always carries the
      prompt as the one user message. */
  function GetApiConfig<Num>(model: string, prompt: string, temperature: Num, stream: bool,
                             groqApiKey: string, deepseekApiKey: string): (r: Result<ApiConfig<Num>, JsError>)
    ensures r.Success? <==> Supported(model)
    ensures r.Failure? ==> r.error == Error("Unsupported model selected: " + model)
    ensures r.Success? ==> (r.value.requestBody.messages == [Message("user", prompt)]
                            && r.value.requestBody.model == model
                            && r.value.requestBody.temperature == temperature
                            && r.value.requestBody.stream == stream)
    ensures IsGroq(model) ==> (r.Success? && r.value.apiUrl == XaiEndpoint && r.value.apiKey == groqApiKey
                               && r.value.requestBody.maxTokens == Some(GroqMaxTokens))
    ensures model == DeepseekChat ==> (r.Success? && r.value.apiUrl == DeepseekEndpoint
                                       && r.value.apiKey == deepseekApiKey
                                       && r.value.requestBody.maxTokens == None)
  {
    assert !IsGroq(DeepseekChat) by {
      assert DeepseekChat[0] != GroqPrefix[0];
    }
    if IsGroq(model) then
      Success(ApiConfig(XaiEndpoint, groqApiKey,
                        RequestBody(model, [Message("user", prompt)], temperature, stream, Some(GroqMaxTokens))))
    else if model == DeepseekChat then
      Success(ApiConfig(DeepseekEndpoint, deepseekApiKey,
                        RequestBody(model, [Message("user", prompt)], temperature, stream, None)))
    else
      Failure(Error("Unsupported model selected: " + model))
  }

  /** Models of one family share endpoint, key and token limit; only the
      model name in the body differs. */
  lemma SameFamilySameProvider<Num>(m1: string, m2: string, prompt: string, temperature: Num, stream: bool,
                                    groqApiKey: string, deepseekApiKey: string)
    requires IsGroq(m1) && IsGroq(m2)
    ensures var c1 := GetApiConfig(m1, prompt, temperature, stream, groqApiKey, deepseekApiKey).value;
            var c2 := GetApiConfig(m2, prompt, temperature, stream, groqApiKey, deepseekApiKey).value;
            c1.(requestBody := c1.requestBody.(model := m2)) == c2
  {
  }

  /** A key the page refuses to use: empty, or still the placeholder of the
      model's provider. */
  predicate KeyRejected(model: string, apiKey: string)
  {
    apiKey == ""
    || (IsGroq(model) && apiKey == GroqKeyPlaceholder)
    || (model == DeepseekChat && apiKey == DeepseekKeyPlaceholder)
  }

  function KeyMessage(model: string): string
  {
    "API key is not set properly. "
    + (if IsGroq(model) then "Groq API key not set." else "DeepSeek API key not set.")
    + " Please check the API key configuration."
  }

  /** The key the page would use for a model. */
  function KeyFor(model: string, groqApiKey: string, deepseekApiKey: string): string
  {
    if IsGroq(model) then groqApiKey else deepseekApiKey
  }

  /** The checks made before any request: a prompt and a model, a supported
      model, and a usable key for it. */
  predicate Ready(prompt: string, model: string, groqApiKey: string, deepseekApiKey: string)
  {
    prompt != "" && model != "" && Supported(model) && !KeyRejected(model, KeyFor(model, groqApiKey, deepseekApiKey))
  }

  /** What the body of a non-streaming reply parses to: `response.json()`
      rejects, or the object's `choices[0].message.content`, `None` when any
      step of that path is missing. */
  datatype JsonReply = JsonRejected(error: JsError) | Json(content: Option<string>)

  /** What the network does with the request: `fetch` rejects (network
      failure or abort), the response is not ok and the error-body reader
      throws a plain `Error` with the message given, or a response arrives,
      to be read either as a stream or as JSON. */
  datatype Reply =
    | FetchRejected(error: JsError)
    | NotOk(message: string)
    | Arrived(hasBody: bool, received: seq<string>, end: StreamEnd, json: JsonReply)

  /** The outcome inside the `try` block, before classification. */
  function Attempt(streaming: bool, reply: Reply, parse: string -> Payload): Result<string, JsError>
  {
    match reply
    case FetchRejected(e) => Failure(e)
    case NotOk(m) => Failure(Error(m))
    case Arrived(hasBody, received, end, json) =>
      if streaming then StreamResult(hasBody, received, end, parse)
      else match json
        case JsonRejected(e) => Failure(e)
        case Json(None) => Failure(Error(InvalidFormatMessage))
        case Json(Some(content)) => Success(content)
  }

  function FailurePrefix(model: string): string
  {
    "Translation attempt failed for model " + model + ". Reason: "
  }

  /** The `catch` block: an abort is thrown on as it is, every other error is
      wrapped with the model name. */
  function Classify(model: string, r: Result<string, JsError>): Result<string, JsError>
  {
    match r
    case Success(_) => r
    case Failure(AbortError) => r
    case Failure(Error(m)) => Failure(Error(FailurePrefix(model) + m))
  }

  /** `getTranslation`; `hasCallback` says whether a stream callback was
      given, and the reply is read as a stream only with one. */
  function GetTranslation<Num>(prompt: string, model: string, temperature: Num, stream: bool, hasCallback: bool,
                               groqApiKey: string, deepseekApiKey: string, parse: string -> Payload,
                               reply: Reply): (r: Result<string, JsError>)
    ensures r.Success? ==> Ready(prompt, model, groqApiKey, deepseekApiKey)
  {
    if prompt == "" || model == "" then Failure(Error(MissingParametersMessage))
    else match GetApiConfig(model, prompt, temperature, stream, groqApiKey, deepseekApiKey)
      case Failure(e) => Failure(e)
      case Success(config) =>
        if KeyRejected(model, config.apiKey) then Failure(Error(KeyMessage(model)))
        else Classify(model, Attempt(stream && hasCallback, reply, parse))
  }

  /** A request that fails the checks is refused with the check's own
      message, the same whatever the network would have done: nothing is
      sent. */
  lemma RefusedBeforeRequest<Num>(prompt: string, model: string, temperature: Num, stream: bool, hasCallback: bool,
                                  groqApiKey: string, deepseekApiKey: string, parse: string -> Payload,
                                  reply1: Reply, reply2: Reply)
    requires !Ready(prompt, model, groqApiKey, deepseekApiKey)
    ensures var r := GetTranslation(prompt, model, temperature, stream, hasCallback, groqApiKey, deepseekApiKey, parse, reply1);
      && r == GetTranslation(prompt, model, temperature, stream, hasCallback, groqApiKey, deepseekApiKey, parse, reply2)
      && r.Failure?
      && (prompt == "" || model == "" ==> r.error == Error(MissingParametersMessage))
      && (prompt != "" && model != "" && !Supported(model) ==> r.error == Error("Unsupported model selected: " + model))
      && (prompt != "" && model != "" && Supported(model) ==> r.error == Error(KeyMessage(model)))
  {
  }

  /** Once the checks pass, an abort comes out exactly as it went in, and
      every other failure carries the model name. */
  lemma AttemptClassified<Num>(prompt: string, model: string, temperature: Num, stream: bool, hasCallback: bool,
                               groqApiKey: string, deepseekApiKey: string, parse: string -> Payload,
                               reply: Reply)
    requires Ready(prompt, model, groqApiKey, deepseekApiKey)
    ensures var r := GetTranslation(prompt, model, temperature, stream, hasCallback, groqApiKey, deepseekApiKey, parse, reply);
            var a := Attempt(stream && hasCallback, reply, parse);
      && (r == Failure(AbortError) <==> a == Failure(AbortError))
      && (r.Success? <==> a.Success?)
      && (a.Success? ==> r == a)
      && (a.Failure? && a.error.Error? ==> r == Failure(Error(FailurePrefix(model) + a.error.message)))
  {
  }

  /** A non-streaming reply is accepted exactly when it carries
      `choices[0].message.content`, even an empty one. */
  lemma NonStreamingContent<Num>(prompt: string, model: string, temperature: Num, hasCallback: bool,
                                 groqApiKey: string, deepseekApiKey: string, parse: string -> Payload,
                                 hasBody: bool, received: seq<string>, end: StreamEnd, content: Option<string>)
    requires Ready(prompt, model, groqApiKey, deepseekApiKey)
    ensures var r := GetTranslation(prompt, model, temperature, false, hasCallback, groqApiKey, deepseekApiKey, parse,
                                    Arrived(hasBody, received, end, Json(content)));
      && (r.Success? <==> content.Some?)
      && (content.Some? ==> r.value == content.value)
      && (content.None? ==> r == Failure(Error(FailurePrefix(model) + InvalidFormatMessage)))
  {
  }

  /** A streaming reply that ends normally returns what the stream reader
      accumulated; a missing body is reported under the model's name. */
  lemma StreamingContent<Num>(prompt: string, model: string, temperature: Num,
                              groqApiKey: string, deepseekApiKey: string, parse: string -> Payload,
                              hasBody: bool, received: seq<string>, flushed: string, json: JsonReply)
    requires Ready(prompt, model, groqApiKey, deepseekApiKey)
    ensures var r := GetTranslation(prompt, model, temperature, true, true, groqApiKey, deepseekApiKey, parse,
                                    Arrived(hasBody, received, Done(flushed), json));
      && (hasBody ==> r == Success(Flatten(StreamEmissions(received, Done(flushed), parse))))
      && (!hasBody ==> r == Failure(Error(FailurePrefix(model) + NoBodyMessage)))
  {
  }
}
