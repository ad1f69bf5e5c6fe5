/** How the page and the two endpoints fit together: the request bodies the page sends, how it
    reads the endpoints' answers, and what a correction or a term extraction amounts to from
    end to end. */
module Pipeline {
  import opened Seqs
  import opened Text
  import opened Json
  import opened Transcripts
  import DefinitionsApi
  import CorrectionApi

  // ---------------------------------------------------------------------------
  // Correction

  /** The JSON body `correctMedicalTerminology` posts (lines 187-191 of the page). */
  function CorrectionBodyOf(req: CorrectionRequest): CorrectionApi.CorrectionBody
  {
    CorrectionApi.CorrectionBody(Some(JString(req.text)), Some(req.conversationContext), Some(req.language))
  }

  /** How the page reads the correction endpoint's answer: any status outside 200-299 is a
      failure; otherwise the `correctedText` field, when it is a string. */
  function CorrectionReplyOf(resp: CorrectionApi.CorrectionResponse): (r: CorrectionReply)
    ensures r.CorrectionUnavailable? <==> !(200 <= resp.status < 300)
    ensures r.CorrectionReplied? ==>
              (r.correctedText.Some? <==> resp.payload.CorrectionResult? && resp.payload.correctedText.JString?)
    ensures r.CorrectionReplied? && r.correctedText.Some? ==> r.correctedText.value == resp.payload.correctedText.s
  {
    if 200 <= resp.status < 300 then
      match resp.payload
      case CorrectionResult(_, JString(s), _) => CorrectionReplied(Some(s))
      case _ => CorrectionReplied(None)
    else CorrectionUnavailable
  }

  /** From end to end, a non-blank utterance comes back as the model's trimmed reply when the
      key is configured and the model answered with something other than white space, and
      unchanged in every other case. */
  lemma CorrectionEndToEnd(cards: seq<Card>, text: string, selectedLanguage: string, apiKey: string,
                           completion: CorrectionApi.CorrectionCompletion)
    requires !IsBlank(text)
    ensures CorrectionRequestFor(cards, text, selectedLanguage).Some?
    ensures var body := CorrectionBodyOf(CorrectionRequestFor(cards, text, selectedLanguage).value);
      var resp := CorrectionApi.HandleCorrection("POST", apiKey, body, completion);
      CorrectedText(text, CorrectionReplyOf(resp)) ==
        if apiKey != "" && completion.CorrectionReturned? && completion.content.Some? && !IsBlank(completion.content.value)
        then Trim(completion.content.value) else text
  {
    var body := CorrectionBodyOf(CorrectionRequestFor(cards, text, selectedLanguage).value);
    var resp := CorrectionApi.HandleCorrection("POST", apiKey, body, completion);
    assert text != "" by { assert !IsWhitespace(text[0]) || !IsBlank(text); }
    assert Truthy(body.text);
  }

  /** The context block of the prompt lists exactly the context the page sent: the page already
      limits it to five entries, so the endpoint's own limit takes nothing away. */
  lemma PromptListsPageContext(cards: seq<Card>, text: string, selectedLanguage: string)
    requires !IsBlank(text)
    requires forall i :: 0 <= i < |cards| ==> '\n' !in ContextEntry(cards[i])
    ensures var body := CorrectionBodyOf(CorrectionRequestFor(cards, text, selectedLanguage).value);
      var block := CorrectionApi.Prompt(body).contextText;
      && (cards == [] ==> block == "")
      && (cards != [] ==>
            SplitOn(block[|CorrectionApi.ContextHeader|..|block| - 2], '\n') == CorrectionContext(cards))
  {
    var context := CorrectionContext(cards);
    var body := CorrectionBodyOf(CorrectionRequestFor(cards, text, selectedLanguage).value);
    assert body.conversationContext == Some(context);
    var block := CorrectionApi.Prompt(body).contextText;
    assert block == CorrectionApi.ContextText(Some(context));
    if cards != [] {
      assert forall i :: 0 <= i < |context| ==> '\n' !in context[i];
      CorrectionApi.ContextTextLines(context);
      assert LastN(context, CorrectionApi.ContextLimit) == context;
    }
  }

  // ---------------------------------------------------------------------------
  // Term extraction

  /** The string under `name`, or the empty string when it is not a string. */
  function StringProperty(d: Json, name: string): string
  {
    AsString(Property(d, name)).GetOr("")
  }

  /** A definition as the page holds it: a valid definition's term, definition and example
      are its own strings, and a string category is kept as it is. */
  function TermOf(d: Json): (r: MedicalTerm)
    ensures DefinitionsApi.IsValidDefinition(d) ==>
              && Property(d, "term") == Some(JString(r.term))
              && Property(d, "definition") == Some(JString(r.definition))
              && Property(d, "example") == Some(JString(r.example))
    ensures AsString(Property(d, "category")).Some? ==> Property(d, "category") == Some(JString(r.category))
    ensures DefinitionsApi.IsValidDefinition(d) ==> Complete(r)
  {
    MedicalTerm(StringProperty(d, "term"), StringProperty(d, "definition"), StringProperty(d, "example"),
                StringProperty(d, "category"))
  }

  /** An entry whose term, definition and example all hold something besides white space. */
  predicate Complete(t: MedicalTerm)
  {
    !IsBlank(t.term) && !IsBlank(t.definition) && !IsBlank(t.example)
  }

  /** How the page reads the definitions endpoint's answer: any status outside 200-299 is an
      error status; otherwise the `definitions` list, read entry by entry. */
  function TermsReplyOf(resp: DefinitionsApi.DefinitionsResponse): (r: TermsReply)
    ensures r.TermsHttpError? <==> !(200 <= resp.status < 300)
    ensures r.TermsReceived? <==> 200 <= resp.status < 300
    ensures r.TermsReceived? ==>
              && r.definitions.Some?
              && |r.definitions.value| == |resp.definitions|
              && forall i :: 0 <= i < |resp.definitions| ==> r.definitions.value[i] == TermOf(resp.definitions[i])
  {
    if 200 <= resp.status < 300 then TermsReceived(Some(Map(TermOf, resp.definitions)))
    else TermsHttpError
  }

  /** From end to end, a term extraction only appends to the glossary, and nothing for blank
      text. When the endpoint succeeds, the appended entries are exactly the endpoint's valid
      definitions that pass the page's filter, in order, and each is complete, new and not a
      generic word; when it fails, they are exactly the local fallback's placeholders, one for
      each keyword of the text not already known. */
  lemma ExtractionEndToEnd(prev: seq<MedicalTerm>, text: string, apiKey: string,
                           completion: DefinitionsApi.Completion, parse: string -> Option<Json>)
    ensures var resp := DefinitionsApi.HandleDefinitions("POST", Some(JString(text)), apiKey, completion, parse);
      var r := TermsAfterExtraction(prev, text, TermsReplyOf(resp));
      && r[..|prev|] == prev
      && (IsBlank(text) ==> r == prev)
      && (!IsBlank(text) && resp.status == 200 ==>
            && r[|prev|..] == NewServiceTerms(prev, Map(TermOf, resp.definitions))
            && forall t <- r[|prev|..] :: Complete(t) && IsNewServiceTerm(KnownTerms(prev), t))
      && (!IsBlank(text) && resp.status != 200 ==>
            && r == MergeFallbackTerms(prev, text)
            && forall t <- r[|prev|..] :: t == FallbackEntry(t.term) && IsNewKeyword(KnownTerms(prev), t.term))
  {
    var resp := DefinitionsApi.HandleDefinitions("POST", Some(JString(text)), apiKey, completion, parse);
    var r := TermsAfterExtraction(prev, text, TermsReplyOf(resp));
    if IsBlank(text) {
      assert r[|prev|..] == [];
    } else if resp.status == 200 {
      var defs := Map(TermOf, resp.definitions);
      assert forall t <- defs :: Complete(t);
      if |defs| > 0 {
        MergeServiceTermsSpec(prev, defs);
        var added := r[|prev|..];
        assert added == NewServiceTerms(prev, defs);
        assert forall t <- added :: t in defs;
      } else {
        assert r[|prev|..] == [];
      }
    } else {
      MergeFallbackTermsSpec(prev, text);
    }
  }
}
