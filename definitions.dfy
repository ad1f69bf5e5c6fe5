/** The medical-definitions endpoint (pages/api/medical-definitions.ts): request checks, the
    extraction of the bracketed JSON array from the language model's reply, and the filter that
    keeps only complete definitions. The model call and `JSON.parse` are given as inputs. */
module DefinitionsApi {
  import opened Seqs
  import opened Text
  import opened Json

  /** The JSON body the endpoint answers with, and its HTTP status. */
  datatype DefinitionsResponse = DefinitionsResponse(status: int, definitions: seq<Json>, error: Option<string>)

  /** How the call to the chat-completion service ended. */
  datatype Completion =
    | CompletionHttpError                          // a reply with an error status
    | CompletionThrew(message: Option<string>)     // an exception, with its message if it is an Error
    | CompletionReturned(content: Option<string>)  // `choices[0]?.message?.content`

  /** The span matched by `/\[[\s\S]*\]/`: from the first `[` to the last `]`, provided some `]`
      follows some `[`. */
  function ArraySpan(content: string): (r: Option<(nat, nat)>)
    ensures r.Some? ==>
      var (i, j) := r.value;
      && i < j < |content| && content[i] == '[' && content[j] == ']'
      && (forall k :: 0 <= k < i ==> content[k] != '[')
      && (forall k :: j < k < |content| ==> content[k] != ']')
    ensures r.None? <==> forall i, j :: 0 <= i < j < |content| && content[i] == '[' ==> content[j] != ']'
  {
    match (IndexOf(content, '['), LastIndexOf(content, ']'))
    case (Some(i), Some(j)) =>
      if i < j then
        assert forall k :: 0 <= k < i ==> content[..i][k] == content[k];
        assert forall k :: j < k < |content| ==> content[j + 1..][k - j - 1] == content[k];
        Some((i, j))
      else
        assert forall k :: 0 <= k < i ==> content[..i][k] == content[k];
        assert forall k :: j < k < |content| ==> content[j + 1..][k - j - 1] == content[k];
        None
    case (None, _) => None
    case (_, None) => None
  }

  /** The text handed to `JSON.parse` (lines 109-114): the bracketed array when there is one,
      otherwise the whole reply. */
  function JsonText(content: string): (r: string)
    ensures ArraySpan(content).None? ==> r == content
    ensures ArraySpan(content).Some? ==>
      |r| >= 2 && r[0] == '[' && r[|r| - 1] == ']' &&
      r == content[ArraySpan(content).value.0..ArraySpan(content).value.1 + 1]
  {
    match ArraySpan(content)
    case Some((i, j)) => content[i..j + 1]
    case None => content
  }

  /** A property that is a string with something other than white space in it. */
  predicate NonBlankString(d: Json, name: string)
  {
    var v := AsString(Property(d, name));
    v.Some? && !IsBlank(v.value)
  }

  /** The validity test of lines 127-135: a truthy value whose `term`, `definition` and
      `example` are strings that are not blank. */
  predicate IsValidDefinition(d: Json)
  {
    && Truthy(Some(d))
    && NonBlankString(d, "term")
    && NonBlankString(d, "definition")
    && NonBlankString(d, "example")
  }

  /** `validDefinitions`. */
  function ValidDefinitions(defs: seq<Json>): seq<Json>
  {
    Filter(IsValidDefinition, defs)
  }

  /** The filter keeps exactly the valid entries, in order, each as often as it was sent. */
  lemma ValidDefinitionsSpec(defs: seq<Json>)
    ensures var r := ValidDefinitions(defs);
      && IsSubsequence(r, defs)
      && (forall d <- r :: IsValidDefinition(d))
      && (forall d <- defs :: multiset(r)[d] == if IsValidDefinition(d) then multiset(defs)[d] else 0)
  {
    FilterIsSubsequence(IsValidDefinition, defs);
    forall d <- defs ensures multiset(ValidDefinitions(defs))[d] == if IsValidDefinition(d) then multiset(defs)[d] else 0 {
      FilterCount(IsValidDefinition, defs, d);
    }
  }

  /** `typeof text === 'string'` and not empty. */
  predicate IsTextField(text: Option<Json>)
  {
    Truthy(text) && text.value.JString?
  }

  function Failure(status: int, error: string): DefinitionsResponse
  {
    DefinitionsResponse(status, [], Some(error))
  }

  /** The handler (lines 15-146). `apiKey` is the configured key ("" when unset); `parse`
      stands for `JSON.parse`, giving `None` where it throws. */
  function HandleDefinitions(httpMethod: string, text: Option<Json>, apiKey: string, completion: Completion,
                             parse: string -> Option<Json>): (r: DefinitionsResponse)
    ensures r.status in {200, 400, 405, 500}
    ensures r.status != 200 ==> r.definitions == [] && r.error.Some?
    ensures r.status == 200 ==> r.error.None? && forall d <- r.definitions :: IsValidDefinition(d)
    ensures r.status == 405 <==> httpMethod != "POST"
    ensures httpMethod == "POST" ==> (r.status == 400 <==> !IsTextField(text))
    ensures r.status == 200 <==>
      && httpMethod == "POST" && IsTextField(text) && apiKey != ""
      && completion.CompletionReturned? && completion.content.Some? && completion.content.value != ""
      && parse(JsonText(completion.content.value)).Some?
      && parse(JsonText(completion.content.value)).value.JArray?
  {
    if httpMethod != "POST" then Failure(405, "Method not allowed")
    else if !IsTextField(text) then Failure(400, "Text is required")
    else if apiKey == "" then Failure(500, "OpenAI API key not configured")
    else match completion
      case CompletionHttpError => Failure(500, "Failed to get medical definitions")
      case CompletionThrew(message) => Failure(500, message.GetOr("Unknown error"))
      case CompletionReturned(content) =>
        if content.None? || content.value == "" then Failure(500, "No response from OpenAI")
        else match parse(JsonText(content.value))
          case None => Failure(500, "Failed to parse medical definitions")
          case Some(JArray(items)) =>
            ValidDefinitionsSpec(items);
            DefinitionsResponse(200, ValidDefinitions(items), None)
          case Some(_) => Failure(500, "Invalid response format")
  }

  /** On success the endpoint answers with exactly the valid entries of the parsed array. */
  lemma DefinitionsOnSuccess(text: string, apiKey: string, content: string, parse: string -> Option<Json>, items: seq<Json>)
    requires text != "" && apiKey != "" && content != ""
    requires parse(JsonText(content)) == Some(JArray(items))
    ensures HandleDefinitions("POST", Some(JString(text)), apiKey, CompletionReturned(Some(content)), parse)
            == DefinitionsResponse(200, ValidDefinitions(items), None)
  {
  }
}
