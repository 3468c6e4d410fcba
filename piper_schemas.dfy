/** Request model of the Piper text-to-speech service (ai-services/piper-service/app/models/schemas.py). */
module PiperSchemas {
  import opened Wrappers
  import opened Text

  const MaxTextLength: nat := 5000

  /**
   * `TTSRequest.text_not_empty`: empty and whitespace-only text is refused,
   * anything else is accepted stripped.
   */
  function TextNotEmpty(v: string): (r: Result<string, string>)
    ensures v == [] ==> r.Err?
    ensures r.Err? <==> AllSpace(v)
    ensures r.Err? ==> r.error == "Text cannot be empty"
    ensures r.Ok? ==> r.value == Strip(v) && r.value != [] && Trimmed(r.value)
  {
    if v == [] || Strip(v) == [] then Err("Text cannot be empty") else Ok(Strip(v))
  }

  /** Accepted text passes the check again, unchanged. */
  lemma TextNotEmptyIdempotent(v: string)
    requires TextNotEmpty(v).Ok?
    ensures TextNotEmpty(TextNotEmpty(v).value) == TextNotEmpty(v)
  {
    StripIdempotent(v);
  }

  /** The fields of a synthesis request as they arrive; `language` and `voice` are `None` when absent. */
  datatype TTSRequestInput = TTSRequestInput(text: string, language: Option<string>, voice: Option<string>)

  datatype TTSRequest = TTSRequest(text: string, language: Option<string>, voice: Option<string>)

  datatype TextError = TextTooLong | TextEmpty

  /**
   * `TTSRequest`: the raw text is capped at 5000 characters, then must not
   * be blank; the accepted text is stripped and the optional fields are kept.
   */
  function ValidateTTSRequest(input: TTSRequestInput): (r: Result<TTSRequest, TextError>)
    ensures r.Ok? <==> |input.text| <= MaxTextLength && !AllSpace(input.text)
    ensures r.Err? ==> (r.error == TextTooLong <==> |input.text| > MaxTextLength)
    ensures r.Ok? ==> r.value == TTSRequest(Strip(input.text), input.language, input.voice)
    ensures r.Ok? ==> 0 < |r.value.text| <= MaxTextLength
  {
    if |input.text| > MaxTextLength then Err(TextTooLong)
    else match TextNotEmpty(input.text)
      case Err(_) => Err(TextEmpty)
      case Ok(t) =>
        assert |Strip(input.text)| <= |input.text|;
        Ok(TTSRequest(t, input.language, input.voice))
  }
}
