/** What `analyze_journal_entry` (api/services/llm_service.py) does with the
    decoded response of the inference call: read the answer at the envelope
    path, strip any fence from it, hand it to the schema validator and attach
    the caller's entry id to the validated fields.

    The inference call itself is not modelled: its decoded response body is
    the parameter `envelope`.  The schema validator
    `LlmResponse.model_validate_json` is defined outside this file and stays
    abstract: it is the parameter `validate`. */
module LlmService {
  import opened Wrappers
  import opened PyStr
  import opened JsonExtract
  import opened Envelope

  /** The validated fields of the model's answer (`LlmResponse`). */
  datatype LlmResponse = LlmResponse(sentiment: string, summary: string, topics: seq<string>)

  /** The returned record (`AnalysisResponse`): the entry id and the fields. */
  datatype AnalysisResponse =
    AnalysisResponse(entryId: string, sentiment: string, summary: string, topics: seq<string>)

  /** The schema validator rejected the text. */
  datatype ValidationError = ValidationError(reason: string)

  /** What escapes `analyze_journal_entry`: every exception is logged and
      re-raised unchanged. */
  datatype AnalysisError =
    | Raised(error: PyError)
    | Invalid(rejection: ValidationError)

  /** The validated fields of a response, without its entry id. */
  function Fields(r: AnalysisResponse): LlmResponse {
    LlmResponse(r.sentiment, r.summary, r.topics)
  }

  /** `AnalysisResponse(entry_id=entry_id, **analysis.model_dump())`. */
  function Assemble(entryId: string, analysis: LlmResponse): (r: AnalysisResponse)
    ensures r.entryId == entryId && Fields(r) == analysis
  {
    AnalysisResponse(entryId, analysis.sentiment, analysis.summary, analysis.topics)
  }

  /** `llm_text.strip()` needs a str: anything else has no `strip`. */
  function AsText(j: Json): (r: Result<string, PyError>)
    ensures r.Ok? <==> j.JString?
    ensures r.Ok? ==> r.value == j.s
    ensures r.Err? ==> r.error == AttributeError
  {
    if j.JString? then Ok(j.s) else Err(AttributeError)
  }

  /** The body of the `try` in `analyze_journal_entry`, after the response
      has been decoded. */
  function AnalyzeJournalEntry(
    entryId: string,
    envelope: Json,
    validate: string -> Result<LlmResponse, ValidationError>
  ): (r: Result<AnalysisResponse, AnalysisError>)
    // success needs the answer path, a str there, and the validator's consent
    ensures r.Ok? <==>
      && HasAnswer(envelope) && Answer(envelope).JString?
      && validate(ExtractJson(Answer(envelope).s)).Ok?
    // on success: exactly the caller's entry id and the validated fields unchanged
    ensures r.Ok? ==>
      && r.value.entryId == entryId
      && Fields(r.value) == validate(ExtractJson(Answer(envelope).s)).value
    // a broken envelope is re-raised as is, with no default answer
    ensures AnswerAt(envelope).Err? ==> r == Err(Raised(AnswerAt(envelope).error))
    ensures HasAnswer(envelope) && !Answer(envelope).JString? ==> r == Err(Raised(AttributeError))
    // a rejected answer is re-raised as is
    ensures HasAnswer(envelope) && Answer(envelope).JString?
            && validate(ExtractJson(Answer(envelope).s)).Err?
            ==> r == Err(Invalid(validate(ExtractJson(Answer(envelope).s)).error))
  {
    match AnswerAt(envelope)
    case Err(e) => Err(Raised(e))
    case Ok(node) =>
      match AsText(node)
      case Err(e) => Err(Raised(e))
      case Ok(text) =>
        match validate(ExtractJson(text))
        case Err(v) => Err(Invalid(v))
        case Ok(analysis) => Ok(Assemble(entryId, analysis))
  }

  /** The entry id only labels the result: two calls on the same response
      with different ids succeed or fail together, with the same fields. */
  lemma EntryIdOnlyLabels(
    id1: string, id2: string, envelope: Json,
    validate: string -> Result<LlmResponse, ValidationError>
  )
    ensures AnalyzeJournalEntry(id1, envelope, validate).Ok?
            <==> AnalyzeJournalEntry(id2, envelope, validate).Ok?
    ensures AnalyzeJournalEntry(id1, envelope, validate).Ok? ==>
            && Fields(AnalyzeJournalEntry(id1, envelope, validate).value)
               == Fields(AnalyzeJournalEntry(id2, envelope, validate).value)
            && AnalyzeJournalEntry(id1, envelope, validate).value.entryId == id1
            && AnalyzeJournalEntry(id2, envelope, validate).value.entryId == id2
  {
  }

  /** Fenced or bare, an object answer (without backticks) reaches the
      validator as the same text, whatever the validator is, so it is
      accepted or rejected alike and yields the same result. */
  lemma FencedAnswerAnalysedLikeBare(
    entryId: string, s: string,
    validate: string -> Result<LlmResponse, ValidationError>
  )
    requires |s| > 0 && s[0] == '{' && s[|s| - 1] == '}'
    requires forall k :: 0 <= k < |s| ==> s[k] != '`'
    ensures AnalyzeJournalEntry(entryId, EnvelopeOf(JString("```json\n" + s + "\n```")), validate)
            == AnalyzeJournalEntry(entryId, EnvelopeOf(JString(s)), validate)
    ensures AnalyzeJournalEntry(entryId, EnvelopeOf(JString("```\n" + s + "\n```")), validate)
            == AnalyzeJournalEntry(entryId, EnvelopeOf(JString(s)), validate)
  {
    AnswerAtEnvelopeOf(JString("```json\n" + s + "\n```"));
    AnswerAtEnvelopeOf(JString("```\n" + s + "\n```"));
    AnswerAtEnvelopeOf(JString(s));
    FencedEqualsBare(s);
  }

  /** An answer the extractor leaves alone is validated as given, stripped:
      no fenced match means the validator sees the stripped text. */
  lemma UnfencedAnswerValidatedStripped(
    entryId: string, text: string,
    validate: string -> Result<LlmResponse, ValidationError>
  )
    requires NoMatchFrom(Strip(text), 0)
    ensures AnalyzeJournalEntry(entryId, EnvelopeOf(JString(text)), validate)
            == match validate(Strip(text))
               case Ok(analysis) => Ok(Assemble(entryId, analysis))
               case Err(v) => Err(Invalid(v))
  {
    AnswerAtEnvelopeOf(JString(text));
  }
}
