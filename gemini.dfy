/**
 * The exchange with the Gemini `generateContent` endpoint
 * (`get_command_from_gemini`, src/main.rs:144-194): the request envelope,
 * and the layered decision on the reply. The HTTP round trip and the JSON
 * decoder are parameters: `post` is what the network answers to a request,
 * `parse` is what the JSON decoder makes of a body (`None` when it fails).
 */
module Gemini {
  import opened Wrappers

  datatype Part = Part(text: string)
  datatype Content = Content(parts: seq<Part>)
  datatype GeminiRequest = GeminiRequest(contents: seq<Content>, systemInstruction: Content)

  datatype Candidate = Candidate(content: Content)
  datatype GeminiError = GeminiError(message: string)
  datatype GeminiResponse = GeminiResponse(candidates: Option<seq<Candidate>>, error: Option<GeminiError>)

  /** What one POST yields: no response at all, a response whose body cannot be read, or status and body. */
  datatype Exchange = SendFailed | BodyUnreadable(status: int) | Reply(status: int, body: string)

  /** Every way `get_command_from_gemini` can fail. */
  datatype ApiError =
    | RequestFailed                      // the request could not be sent
    | BodyReadFailed                     // `response.text()` failed
    | HttpStatus(status: int, body: string)  // a non-2xx reply, reported with its status and body
    | Unparsable                         // the body does not decode as a response
    | Provider(message: string)          // the response carries an error object with this message
    | NoCommand                          // the response holds no text part to use

  /** `StatusCode::is_success`: the 2xx range. */
  predicate IsSuccess(status: int) {
    200 <= status <= 299
  }

  /** The request body: one user content with one part, one system instruction with one part. */
  function BuildRequest(prompt: string, systemPrompt: string): (req: GeminiRequest)
    ensures |req.contents| == 1 && |req.contents[0].parts| == 1
    ensures req.contents[0].parts[0].text == prompt
    ensures |req.systemInstruction.parts| == 1
    ensures req.systemInstruction.parts[0].text == systemPrompt
  {
    GeminiRequest([Content([Part(prompt)])], Content([Part(systemPrompt)]))
  }

  /** A request of the envelope's shape is the one built from its two texts: nothing else is in it. */
  lemma BuildRequestOnto(req: GeminiRequest)
    requires |req.contents| == 1 && |req.contents[0].parts| == 1
    requires |req.systemInstruction.parts| == 1
    ensures req == BuildRequest(req.contents[0].parts[0].text, req.systemInstruction.parts[0].text)
  {
    assert req.contents == [req.contents[0]];
    assert req.contents[0].parts == [req.contents[0].parts[0]];
    assert req.systemInstruction.parts == [req.systemInstruction.parts[0]];
  }

  /** Different prompts give different requests. */
  lemma BuildRequestInjective(p1: string, s1: string, p2: string, s2: string)
    requires BuildRequest(p1, s1) == BuildRequest(p2, s2)
    ensures p1 == p2 && s1 == s2
  {
    assert BuildRequest(p1, s1).contents[0].parts[0].text == p1;
    assert BuildRequest(p2, s2).contents[0].parts[0].text == p2;
  }

  /** The text of the first part of the first candidate, when both exist. */
  function FirstPartText(resp: GeminiResponse): Option<string> {
    match resp.candidates
    case None => None
    case Some(cs) =>
      if |cs| == 0 then None
      else if |cs[0].content.parts| == 0 then None
      else Some(cs[0].content.parts[0].text)
  }

  /** A decoded response: its `error` first, then the first part of the first candidate. */
  function Interpret(resp: GeminiResponse): (r: Result<string, ApiError>)
    ensures resp.error.Some? ==> r == Failure(Provider(resp.error.value.message))
    ensures resp.error.None? ==> (r.Success? <==> FirstPartText(resp).Some?)
    ensures r.Failure? ==> r.error.Provider? || r.error.NoCommand?
  {
    if resp.error.Some? then Failure(Provider(resp.error.value.message))
    else match FirstPartText(resp)
      case Some(t) => Success(t)
      case None => Failure(NoCommand)
  }

  /** The reply as a whole: the status first, then decoding, then `Interpret`. */
  function Extract(status: int, body: string, parse: string -> Option<GeminiResponse>): (r: Result<string, ApiError>)
    ensures r == Failure(HttpStatus(status, body)) <==> !IsSuccess(status)
    ensures r == Failure(Unparsable) <==> IsSuccess(status) && parse(body).None?
    ensures r.Success? <==> IsSuccess(status) && parse(body).Some? && parse(body).value.error.None?
                            && FirstPartText(parse(body).value).Some?
    ensures r.Success? ==> FirstPartText(parse(body).value) == Some(r.value)
    ensures r.Failure? ==> !r.error.RequestFailed? && !r.error.BodyReadFailed?
  {
    if !IsSuccess(status) then Failure(HttpStatus(status, body))
    else match parse(body)
      case None => Failure(Unparsable)
      case Some(resp) => Interpret(resp)
  }

  /** `get_command_from_gemini`: build the request, post it, decide on what comes back. */
  function CommandFromGemini(apiKey: string, prompt: string, systemPrompt: string,
                             post: (string, GeminiRequest) -> Exchange,
                             parse: string -> Option<GeminiResponse>): (r: Result<string, ApiError>)
    ensures var x := post(apiKey, BuildRequest(prompt, systemPrompt));
      && (r == Failure(RequestFailed) <==> x.SendFailed?)
      && (r == Failure(BodyReadFailed) <==> x.BodyUnreadable?)
      && (x.Reply? ==> r == Extract(x.status, x.body, parse))
  {
    match post(apiKey, BuildRequest(prompt, systemPrompt))
    case SendFailed => Failure(RequestFailed)
    case BodyUnreadable(_) => Failure(BodyReadFailed)
    case Reply(status, body) => Extract(status, body, parse)
  }

  /** A status outside 2xx is an error, whatever the body is and whatever the decoder would make of it. */
  lemma NonSuccessIsHttpError(status: int, body: string, parse: string -> Option<GeminiResponse>,
                              body': string, parse': string -> Option<GeminiResponse>)
    requires !IsSuccess(status)
    ensures Extract(status, body, parse) == Failure(HttpStatus(status, body))
    ensures Extract(status, body', parse').Failure?
  {
  }

  /** An embedded `error` wins over any candidates the same response carries. */
  lemma EmbeddedErrorWins(status: int, body: string, parse: string -> Option<GeminiResponse>)
    requires IsSuccess(status) && parse(body).Some? && parse(body).value.error.Some?
    ensures Extract(status, body, parse) == Failure(Provider(parse(body).value.error.value.message))
  {
  }

  /** With no embedded error, a first candidate with a part gives exactly that part's text. */
  lemma FirstPartOfFirstCandidate(cs: seq<Candidate>)
    requires |cs| > 0 && |cs[0].content.parts| > 0
    ensures Interpret(GeminiResponse(Some(cs), None)) == Success(cs[0].content.parts[0].text)
  {
  }

  /** Candidates after the first, and parts after the first, are never looked at. */
  lemma LaterCandidatesIgnored(c: Candidate, more: seq<Candidate>, more': seq<Candidate>, err: Option<GeminiError>)
    ensures Interpret(GeminiResponse(Some([c] + more), err)) == Interpret(GeminiResponse(Some([c] + more'), err))
  {
  }

  lemma LaterPartsIgnored(p: Part, more: seq<Part>, more': seq<Part>, others: seq<Candidate>)
    ensures Interpret(GeminiResponse(Some([Candidate(Content([p] + more))] + others), None))
         == Success(p.text)
    ensures Interpret(GeminiResponse(Some([Candidate(Content([p] + more'))]), None))
         == Success(p.text)
  {
  }

  /** No candidates, an empty list, or a first candidate without parts: "no command", with no fallback. */
  lemma NoCommandCases(cs: Option<seq<Candidate>>)
    requires cs.None? || |cs.value| == 0 || |cs.value[0].content.parts| == 0
    ensures Interpret(GeminiResponse(cs, None)) == Failure(NoCommand)
  {
  }

  /**
   * The whole exchange succeeds exactly when the reply is 2xx, decodes, has no
   * embedded error and has a first part in its first candidate; the command
   * is then that part's text, and the request posted was the envelope of the prompt.
   */
  lemma CommandFromGeminiSucceeds(apiKey: string, prompt: string, systemPrompt: string,
                                  post: (string, GeminiRequest) -> Exchange,
                                  parse: string -> Option<GeminiResponse>, command: string)
    ensures CommandFromGemini(apiKey, prompt, systemPrompt, post, parse) == Success(command)
        <==> (var x := post(apiKey, BuildRequest(prompt, systemPrompt));
              && x.Reply? && IsSuccess(x.status)
              && parse(x.body).Some?
              && parse(x.body).value.error.None?
              && FirstPartText(parse(x.body).value) == Some(command))
  {
  }
}
