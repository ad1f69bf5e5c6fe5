/** The medical-correction endpoint (pages/api/medical-correction.ts): request checks, the
    conversation-context block and language description put into the prompt, and the choice
    between the model's corrected text and the original. The model call is given as an input. */
module CorrectionApi {
  import opened Seqs
  import opened Text
  import opened Json

  /** The request body: `text` may be any JSON value or missing; `language` defaults to `"en"`. */
  datatype CorrectionBody = CorrectionBody(text: Option<Json>, conversationContext: Option<seq<string>>, language: Option<string>)

  /** How the call to the chat-completion service ended. */
  datatype CorrectionCompletion =
    | CorrectionThrew                                  // the call (or reading its reply) threw
    | CorrectionReturned(content: Option<string>)      // `choices[0]?.message?.content`

  /** The JSON the endpoint answers with. */
  datatype CorrectionPayload =
    | CorrectionError(error: string, fallbackText: Option<Json>)
    | CorrectionResult(originalText: Json, correctedText: Json, language: string)

  datatype CorrectionResponse = CorrectionResponse(status: int, payload: CorrectionPayload)

  /** The variable parts of the user prompt (lines 185-194); the fixed wording is left out. */
  datatype PromptInputs = PromptInputs(contextText: string, languageDescription: string, text: Json)

  /** The language names of lines 87-105. */
  const LanguageNames: map<string, string> := map[
    "en" := "English", "en-US" := "English",
    "es" := "Spanish", "es-ES" := "Spanish", "es-MX" := "Spanish (Mexican)",
    "zh" := "Chinese", "zh-CN" := "Chinese (Simplified)", "zh-TW" := "Chinese (Traditional)",
    "fr" := "French", "de" := "German", "it" := "Italian", "pt" := "Portuguese",
    "ru" := "Russian", "ja" := "Japanese", "ko" := "Korean", "ar" := "Arabic", "hi" := "Hindi"
  ]

  /** `getLanguageDescription`: the name of a known code, else the code itself, else English. */
  function LanguageDescription(code: string): (r: string)
    ensures r != ""
    ensures code in LanguageNames ==> r == LanguageNames[code]
    ensures code !in LanguageNames && code != "" ==> r == code
    ensures code == "" ==> r == "English"
  {
    if code in LanguageNames then LanguageNames[code]
    else if code != "" then code
    else "English"
  }

  /** The default language when the body has none. */
  const DefaultLanguage := "en"

  /** The number of earlier utterances that reach the prompt. */
  const ContextLimit := 5

  const ContextHeader := "Previous conversation context:\n"

  /** The context block of lines 132-134: empty without context, otherwise the header, the last
      five entries one per line, and a blank line. */
  function ContextText(context: Option<seq<string>>): (r: string)
    ensures context.None? || context.value == [] ==> r == ""
    ensures context.Some? && context.value != [] ==>
      && |r| >= |ContextHeader| + 2
      && r[..|ContextHeader|] == ContextHeader
      && r[|r| - 2..] == "\n\n"
  {
    if context.Some? && |context.value| > 0 then
      ContextHeader + Join(LastN(context.value, ContextLimit), "\n") + "\n\n"
    else ""
  }

  /** The lines between the header and the closing blank line are exactly the last five context
      entries, as long as no entry itself spans several lines. */
  lemma ContextTextLines(context: seq<string>)
    requires context != []
    requires forall i :: 0 <= i < |context| ==> '\n' !in context[i]
    ensures var r := ContextText(Some(context));
      SplitOn(r[|ContextHeader|..|r| - 2], '\n') == LastN(context, ContextLimit)
  {
    var recent := LastN(context, ContextLimit);
    var joined := Join(recent, "\n");
    var r := ContextText(Some(context));
    assert r == ContextHeader + joined + "\n\n";
    assert r[|ContextHeader|..|r| - 2] == joined;
    assert forall i :: 0 <= i < |recent| ==> recent[i] == context[|context| - |recent| + i];
    SplitOnJoin(recent, '\n');
  }

  /** The prompt inputs computed for a body whose text is present. */
  function Prompt(body: CorrectionBody): PromptInputs
    requires body.text.Some?
  {
    PromptInputs(ContextText(body.conversationContext),
                 LanguageDescription(body.language.GetOr(DefaultLanguage)), body.text.value)
  }

  /** The corrected text of line 207: the trimmed reply when it is not empty, else the input. */
  function ChooseCorrection(text: Json, content: Option<string>): (r: Json)
    ensures content.Some? && !IsBlank(content.value) ==> r == JString(Trim(content.value))
    ensures content.None? || IsBlank(content.value) ==> r == text
    ensures Truthy(Some(text)) ==> Truthy(Some(r))
  {
    TrimSpec(content.GetOr(""));
    if content.Some? && Trim(content.value) != "" then JString(Trim(content.value)) else text
  }

  /** The handler (lines 110-222). `apiKey` is the configured key ("" when unset). */
  function HandleCorrection(httpMethod: string, apiKey: string, body: CorrectionBody,
                            completion: CorrectionCompletion): (r: CorrectionResponse)
    ensures r.status in {200, 400, 405, 500}
    ensures r.status == 200 <==> r.payload.CorrectionResult?
    ensures r.status == 405 <==> httpMethod != "POST"
    ensures httpMethod == "POST" && apiKey == "" ==> r.status == 500 && r.payload.fallbackText.None?
    ensures httpMethod == "POST" && apiKey != "" ==> (r.status == 400 <==> !Truthy(body.text))
    ensures r.status == 200 <==>
      httpMethod == "POST" && apiKey != "" && Truthy(body.text) && completion.CorrectionReturned?
    ensures r.status == 200 ==>
      && r.payload.originalText == body.text.value
      && r.payload.correctedText == ChooseCorrection(body.text.value, completion.content)
      && Truthy(Some(r.payload.correctedText))
      && r.payload.language == body.language.GetOr(DefaultLanguage)
    ensures r.status == 500 && apiKey != "" ==> r.payload.fallbackText == body.text
  {
    if httpMethod != "POST" then CorrectionResponse(405, CorrectionError("Method not allowed", None))
    else if apiKey == "" then CorrectionResponse(500, CorrectionError("OpenAI API key not configured", None))
    else if !Truthy(body.text) then CorrectionResponse(400, CorrectionError("Text is required", None))
    else match completion
      case CorrectionThrew =>
        CorrectionResponse(500, CorrectionError("Failed to process medical correction", body.text))
      case CorrectionReturned(content) =>
        CorrectionResponse(200, CorrectionResult(body.text.value, ChooseCorrection(body.text.value, content),
                                                 body.language.GetOr(DefaultLanguage)))
  }
}
