/**
 * Request models of the Phi-3 chat service (ai-services/phi3-service/app/models/schemas.py):
 * the message roles, the checks pydantic applies to a chat request and to a
 * correction request, and the defaults it fills in.
 */
module Phi3Schemas {
  import opened Wrappers
  import opened Text

  /** `MessageRole`: who wrote a message of a conversation. */
  datatype MessageRole = System | User | Assistant

  /** The string each role stands for in a request or in the model's history. */
  function RoleValue(role: MessageRole): (v: string)
    ensures ParseRole(v) == Some(role)
  {
    match role
    case System => "system"
    case User => "user"
    case Assistant => "assistant"
  }

  /** Reading a role from its string, as a `str` enum does: exactly three strings are roles. */
  function ParseRole(v: string): (r: Option<MessageRole>)
    ensures r.Some? <==> (v == "system" || v == "user" || v == "assistant")
  {
    if v == "system" then Some(System)
    else if v == "user" then Some(User)
    else if v == "assistant" then Some(Assistant)
    else None
  }

  const MaxMessageLength: nat := 2000
  const MinMaxTokens: int := 1
  const MaxMaxTokens: int := 2048
  const MaxCorrectionTextLength: nat := 1000
  const DefaultTargetLanguage: string := "en"
  const DefaultProvideExplanation: bool := true

  /**
   * `ChatRequest.message_not_empty`: an empty or blank message is refused,
   * any other message is accepted stripped of surrounding whitespace.
   */
  function MessageNotEmpty(v: string): (r: Result<string, string>)
    ensures r.Err? <==> AllSpace(v)
    ensures r.Err? ==> r.error == "Message cannot be empty"
    ensures r.Ok? ==> r.value == Strip(v) && r.value != [] && Trimmed(r.value)
  {
    if v == [] || Strip(v) == [] then Err("Message cannot be empty") else Ok(Strip(v))
  }

  /** Re-validating an accepted message returns it unchanged. */
  lemma MessageNotEmptyIdempotent(v: string)
    requires MessageNotEmpty(v).Ok?
    ensures MessageNotEmpty(MessageNotEmpty(v).value) == MessageNotEmpty(v)
  {
    StripIdempotent(v);
  }

  /** The fields of a chat request as they arrive, absent optional fields as `None`. */
  datatype ChatRequestInput = ChatRequestInput(
    message: string,
    conversationId: Option<string>,
    systemPrompt: Option<string>,
    maxTokens: Option<int>)

  /** A chat request that passed validation. */
  datatype ChatRequest = ChatRequest(
    message: string,
    conversationId: Option<string>,
    systemPrompt: Option<string>,
    maxTokens: Option<int>)

  /** The field errors pydantic reports, in field order. */
  datatype FieldError =
    | MessageTooLong
    | MessageEmpty
    | MaxTokensBelowMinimum
    | MaxTokensAboveMaximum
    | TextTooLong

  /** The error the `message` field reports, if any: the length cap is checked on the raw value first. */
  function MessageError(message: string): (e: Option<FieldError>)
    ensures e == Some(MessageTooLong) <==> |message| > MaxMessageLength
    ensures e == Some(MessageEmpty) <==> |message| <= MaxMessageLength && AllSpace(message)
    ensures e.None? || e == Some(MessageTooLong) || e == Some(MessageEmpty)
  {
    if |message| > MaxMessageLength then Some(MessageTooLong)
    else if MessageNotEmpty(message).Err? then Some(MessageEmpty)
    else None
  }

  /** The error the `max_tokens` field reports, if any. */
  function MaxTokensError(maxTokens: Option<int>): (e: Option<FieldError>)
    ensures e == Some(MaxTokensBelowMinimum) <==> maxTokens.Some? && maxTokens.value < MinMaxTokens
    ensures e == Some(MaxTokensAboveMaximum) <==> maxTokens.Some? && maxTokens.value > MaxMaxTokens
    ensures e.None? || e == Some(MaxTokensBelowMinimum) || e == Some(MaxTokensAboveMaximum)
  {
    match maxTokens
    case None => None
    case Some(n) =>
      if n < MinMaxTokens then Some(MaxTokensBelowMinimum)
      else if n > MaxMaxTokens then Some(MaxTokensAboveMaximum)
      else None
  }

  function Present(e: Option<FieldError>): seq<FieldError> {
    if e.Some? then [e.value] else []
  }

  /**
   * `ChatRequest`: accepted exactly when the raw message has at most 2000
   * characters and is not blank, and `max_tokens` is absent or in 1..2048;
   * the accepted message is stripped. Otherwise every failing field is reported.
   */
  function ValidateChatRequest(input: ChatRequestInput): (r: Result<ChatRequest, seq<FieldError>>)
    ensures r.Ok? <==>
              && |input.message| <= MaxMessageLength
              && !AllSpace(input.message)
              && (input.maxTokens.None? || MinMaxTokens <= input.maxTokens.value <= MaxMaxTokens)
    ensures r.Ok? ==>
              && r.value.message == Strip(input.message)
              && 0 < |r.value.message| <= MaxMessageLength
              && r.value.conversationId == input.conversationId
              && r.value.systemPrompt == input.systemPrompt
              && r.value.maxTokens == input.maxTokens
    ensures r.Err? ==>
              && (MessageTooLong in r.error <==> |input.message| > MaxMessageLength)
              && (MessageEmpty in r.error <==> |input.message| <= MaxMessageLength && AllSpace(input.message))
              && (MaxTokensBelowMinimum in r.error <==> input.maxTokens.Some? && input.maxTokens.value < MinMaxTokens)
              && (MaxTokensAboveMaximum in r.error <==> input.maxTokens.Some? && input.maxTokens.value > MaxMaxTokens)
  {
    var messageError := MessageError(input.message);
    var maxTokensError := MaxTokensError(input.maxTokens);
    if messageError.None? && maxTokensError.None? then
      var message := MessageNotEmpty(input.message).value;
      assert |Strip(input.message)| <= |input.message|;
      Ok(ChatRequest(message, input.conversationId, input.systemPrompt, input.maxTokens))
    else
      Err(Present(messageError) + Present(maxTokensError))
  }

  /** The fields of a correction request as they arrive, absent optional fields as `None`. */
  datatype CorrectionRequestInput = CorrectionRequestInput(
    text: string,
    targetLanguage: Option<string>,
    provideExplanation: Option<bool>)

  datatype CorrectionRequest = CorrectionRequest(
    text: string,
    targetLanguage: string,
    provideExplanation: bool)

  /**
   * `CorrectionRequest`: the text is capped at 1000 characters (and neither
   * stripped nor checked for blankness); the target language defaults to
   * "en" and the explanation flag to true.
   */
  function ValidateCorrectionRequest(input: CorrectionRequestInput): (r: Result<CorrectionRequest, seq<FieldError>>)
    ensures r.Ok? <==> |input.text| <= MaxCorrectionTextLength
    ensures r.Err? ==> r.error == [TextTooLong]
    ensures r.Ok? ==>
              && r.value.text == input.text
              && (input.targetLanguage.None? ==> r.value.targetLanguage == "en")
              && (input.targetLanguage.Some? ==> r.value.targetLanguage == input.targetLanguage.value)
              && (input.provideExplanation.None? ==> r.value.provideExplanation)
              && (input.provideExplanation.Some? ==> r.value.provideExplanation == input.provideExplanation.value)
  {
    if |input.text| > MaxCorrectionTextLength then Err([TextTooLong])
    else
      var language := match input.targetLanguage case Some(l) => l case None => DefaultTargetLanguage;
      var explain := match input.provideExplanation case Some(b) => b case None => DefaultProvideExplanation;
      Ok(CorrectionRequest(input.text, language, explain))
  }
}
