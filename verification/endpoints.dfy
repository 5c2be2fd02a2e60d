/**
  The two POST handlers of the backend. Each first checks the request's
  authentication token against the allowed set and answers 401 when it is not
  there; only then does it build the prompt and send it, as the single user
  message of a conversation, to the language-model agent, whose reply becomes
  the response field.

  The agent is a parameter: for a conversation it either completes with a
  text reply or fails (the client raises, the reply has no choice, or its
  content is not a string), and a failure surfaces as an HTTP 500. The prompt
  wording is a parameter `t` as well; the backend runs with `Prompts.Fixed`.
 */
module Endpoints {
  import opened Prompts

  /** The tokens the backend accepts: only the empty one. */
  const AllowedAuthTokens: set<string> := {""}

  const Unauthorized: nat := 401

  const InvalidTokenDetail: string := "Invalid authentication token"

  /** The status and body the server framework answers with when a handler fails unexpectedly. */
  const InternalServerError: nat := 500

  const InternalServerErrorDetail: string := "Internal Server Error"

  /** The configured agent the conversations are sent to. */
  const AgentId: string := "ag:56a53bd1:20250107:cp-helper:e0ac0c60"

  datatype ChatMessage = ChatMessage(role: string, content: string)

  /** What is sent to the agent: its id and the conversation. */
  datatype AgentCall = AgentCall(agentId: string, messages: seq<ChatMessage>)

  /** How an agent call ends: with the text content of its first choice, or with a failure. */
  datatype AgentReply = Completed(content: string) | AgentFailed

  /** A handler's answer: the response body, or an HTTP error with its detail. */
  datatype Response<T> = Ok(value: T) | HttpError(status: nat, detail: string)

  datatype EditorialResponse = EditorialResponse(editorial: string)

  datatype SourceCodeResponse = SourceCodeResponse(sourceCode: string)

  /** The conversation sent for a prompt: one user message holding it. */
  function Conversation(prompt: string): AgentCall {
    AgentCall(AgentId, [ChatMessage("user", prompt)])
  }

  /** The rejection both handlers raise for a token outside the allowed set. */
  function Rejection<T>(): Response<T> {
    HttpError(Unauthorized, InvalidTokenDetail)
  }

  /** The answer to an accepted request whose agent call failed. */
  function ServerFailure<T>(): Response<T> {
    HttpError(InternalServerError, InternalServerErrorDetail)
  }

  function GenerateEditorial(r: EditorialRequest, agent: AgentCall -> AgentReply, t: Texts)
    : (resp: Response<EditorialResponse>)
    ensures resp.HttpError? && resp.status == 401 <==> r.authToken !in AllowedAuthTokens
    ensures resp.HttpError? && resp.status == 401 ==> resp.detail == InvalidTokenDetail
    ensures resp.Ok? <==>
              r.authToken in AllowedAuthTokens && agent(Conversation(EditorialMessage(r, t))).Completed?
    ensures resp.Ok? ==> resp.value.editorial == agent(Conversation(EditorialMessage(r, t))).content
    ensures resp.HttpError? && resp.status != 401 ==>
              resp.status == 500 && resp.detail == InternalServerErrorDetail
  {
    if r.authToken !in AllowedAuthTokens then Rejection()
    else
      match agent(Conversation(EditorialMessage(r, t)))
      case Completed(content) => Ok(EditorialResponse(content))
      case AgentFailed => ServerFailure()
  }

  function GenerateSourceCode(r: SourceCodeRequest, agent: AgentCall -> AgentReply, t: Texts)
    : (resp: Response<SourceCodeResponse>)
    ensures resp.HttpError? && resp.status == 401 <==> r.authToken !in AllowedAuthTokens
    ensures resp.HttpError? && resp.status == 401 ==> resp.detail == InvalidTokenDetail
    ensures resp.Ok? <==>
              r.authToken in AllowedAuthTokens && agent(Conversation(SourceCodeMessage(r, t))).Completed?
    ensures resp.Ok? ==> resp.value.sourceCode == agent(Conversation(SourceCodeMessage(r, t))).content
    ensures resp.HttpError? && resp.status != 401 ==>
              resp.status == 500 && resp.detail == InternalServerErrorDetail
  {
    if r.authToken !in AllowedAuthTokens then Rejection()
    else
      match agent(Conversation(SourceCodeMessage(r, t)))
      case Completed(content) => Ok(SourceCodeResponse(content))
      case AgentFailed => ServerFailure()
  }

  /** With the allowed set `{""}`, a token passes exactly when it is empty. */
  lemma OnlyEmptyTokenPasses(token: string)
    ensures token in AllowedAuthTokens <==> token == ""
  {
  }

  /**
    A rejected request gets the same 401 whatever the agent and the wording:
    the agent is not consulted and no prompt reaches it.
   */
  lemma RejectionIgnoresAgent(r: EditorialRequest, s: SourceCodeRequest,
                              agent1: AgentCall -> AgentReply, agent2: AgentCall -> AgentReply,
                              t1: Texts, t2: Texts)
    ensures r.authToken != "" ==>
              GenerateEditorial(r, agent1, t1) == GenerateEditorial(r, agent2, t2) == Rejection()
    ensures s.authToken != "" ==>
              GenerateSourceCode(s, agent1, t1) == GenerateSourceCode(s, agent2, t2) == Rejection()
  {
    OnlyEmptyTokenPasses(r.authToken);
    OnlyEmptyTokenPasses(s.authToken);
  }

  /** The token only gates the request: it is not part of the prompt. */
  lemma TokenNotInPrompt(r: EditorialRequest, s: SourceCodeRequest, token: string, t: Texts)
    ensures EditorialMessage(r.(authToken := token), t) == EditorialMessage(r, t)
    ensures SourceCodeMessage(s.(authToken := token), t) == SourceCodeMessage(s, t)
  {
  }

  /**
    An accepted editorial request is answered with the agent's reply to one
    user message that holds the statement verbatim between the markers and every solution
    verbatim after its `k/n` header, or with a 500 when the agent call fails.
   */
  lemma EditorialCallCarriesRequest(r: EditorialRequest, agent: AgentCall -> AgentReply, t: Texts)
    requires r.authToken == ""
    ensures agent(Conversation(EditorialMessage(r, t))).Completed? ==>
              GenerateEditorial(r, agent, t)
              == Ok(EditorialResponse(agent(Conversation(EditorialMessage(r, t))).content))
    ensures agent(Conversation(EditorialMessage(r, t))).AgentFailed? ==>
              GenerateEditorial(r, agent, t) == ServerFailure()
    ensures |Conversation(EditorialMessage(r, t)).messages| == 1
    ensures Conversation(EditorialMessage(r, t)).messages[0].role == "user"
    ensures OccursAt(Conversation(EditorialMessage(r, t)).messages[0].content, r.statement,
                     EditorialAt(r, t, 5) + |t.startMarker|)
    ensures forall k :: 0 <= k < |r.solutions| ==>
              OccursAt(Conversation(EditorialMessage(r, t)).messages[0].content, r.solutions[k],
                       EditorialSolutionAt(r, k, t) + |SolutionHeader(k + 1, |r.solutions|, t)|)
  {
    EditorialStatement(r, t);
    forall k | 0 <= k < |r.solutions|
      ensures OccursAt(EditorialMessage(r, t), r.solutions[k],
                       EditorialSolutionAt(r, k, t) + |SolutionHeader(k + 1, |r.solutions|, t)|)
    {
      EditorialSolution(r, k, t);
    }
  }

  /**
    An accepted source-code request is answered with the agent's reply to one
    user message that holds the statement and, after it, the editorial, each verbatim
    between the markers, or with a 500 when the agent call fails.
   */
  lemma SourceCodeCallCarriesRequest(r: SourceCodeRequest, agent: AgentCall -> AgentReply, t: Texts)
    requires r.authToken == ""
    ensures agent(Conversation(SourceCodeMessage(r, t))).Completed? ==>
              GenerateSourceCode(r, agent, t)
              == Ok(SourceCodeResponse(agent(Conversation(SourceCodeMessage(r, t))).content))
    ensures agent(Conversation(SourceCodeMessage(r, t))).AgentFailed? ==>
              GenerateSourceCode(r, agent, t) == ServerFailure()
    ensures |Conversation(SourceCodeMessage(r, t)).messages| == 1
    ensures Conversation(SourceCodeMessage(r, t)).messages[0].role == "user"
    ensures OccursAt(Conversation(SourceCodeMessage(r, t)).messages[0].content, r.statement,
                     SourceCodeAt(r, t, 3) + |t.startMarker|)
    ensures OccursAt(Conversation(SourceCodeMessage(r, t)).messages[0].content, r.editorial,
                     SourceCodeAt(r, t, 5) + |t.startMarker|)
    ensures SourceCodeAt(r, t, 3) + |t.startMarker| + |r.statement| <= SourceCodeAt(r, t, 5) + |t.startMarker|
  {
    SourceCodeStatement(r, t);
    SourceCodeEditorial(r, t);
  }

  /** The deployed editorial handler sends the message built with the backend's own wording. */
  lemma DeployedEditorialPrompt(r: EditorialRequest, agent: AgentCall -> AgentReply)
    requires r.authToken == ""
    ensures agent(Conversation(EditorialPrompt(r))).Completed? ==>
              GenerateEditorial(r, agent, Fixed)
              == Ok(EditorialResponse(agent(Conversation(EditorialPrompt(r))).content))
    ensures agent(Conversation(EditorialPrompt(r))).AgentFailed? ==>
              GenerateEditorial(r, agent, Fixed) == ServerFailure()
  {
  }

  /** The deployed source-code handler sends the message built with the backend's own wording. */
  lemma DeployedSourceCodePrompt(r: SourceCodeRequest, agent: AgentCall -> AgentReply)
    requires r.authToken == ""
    ensures agent(Conversation(SourceCodePrompt(r))).Completed? ==>
              GenerateSourceCode(r, agent, Fixed)
              == Ok(SourceCodeResponse(agent(Conversation(SourceCodePrompt(r))).content))
    ensures agent(Conversation(SourceCodePrompt(r))).AgentFailed? ==>
              GenerateSourceCode(r, agent, Fixed) == ServerFailure()
  {
  }
}
