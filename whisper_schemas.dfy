/** Request model of the Whisper speech-to-text service (ai-services/whisper-service/app/models/schemas.py). */
module WhisperSchemas {
  import opened Wrappers

  const DefaultTask: string := "transcribe"
  const DefaultReturnSegments: bool := false

  /**
   * `TranscriptionRequest.validate_task`: exactly "transcribe" and
   * "translate" are accepted, returned as given; the comparison is
   * case-sensitive.
   */
  function ValidateTask(v: string): (r: Result<string, string>)
    ensures r.Ok? <==> v == "transcribe" || v == "translate"
    ensures r.Ok? ==> r.value == v
    ensures r.Err? ==> r.error == "Task must be either \"transcribe\" or \"translate\""
  {
    if v in ["transcribe", "translate"] then Ok(v)
    else Err("Task must be either \"transcribe\" or \"translate\"")
  }

  /** The fields of a transcription request as they arrive, absent fields as `None`. */
  datatype TranscriptionRequestInput = TranscriptionRequestInput(
    language: Option<string>,
    task: Option<string>,
    returnSegments: Option<bool>)

  datatype TranscriptionRequest = TranscriptionRequest(
    language: Option<string>,
    task: string,
    returnSegments: bool)

  /**
   * `TranscriptionRequest`: a given task must pass `validate_task`; an
   * absent one defaults to "transcribe" (pydantic does not validate
   * defaults), `return_segments` to false and `language` to `None`.
   */
  function ValidateTranscriptionRequest(input: TranscriptionRequestInput): (r: Result<TranscriptionRequest, string>)
    ensures r.Ok? <==> input.task.None? || ValidateTask(input.task.value).Ok?
    ensures r.Ok? ==>
              && r.value.language == input.language
              && r.value.task == (if input.task.Some? then input.task.value else "transcribe")
              && r.value.returnSegments == (input.returnSegments.Some? && input.returnSegments.value)
  {
    var segments := match input.returnSegments case Some(b) => b case None => DefaultReturnSegments;
    match input.task
    case None => Ok(TranscriptionRequest(input.language, DefaultTask, segments))
    case Some(t) =>
      match ValidateTask(t)
      case Err(e) => Err(e)
      case Ok(task) => Ok(TranscriptionRequest(input.language, task, segments))
  }
}
