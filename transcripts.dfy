/** The pure decisions of the live transcript page (pages/index.tsx): which language a final
    result belongs to, whether it is merged into the last card or starts a new one, what
    conversation context goes with a correction request, and how medical terms returned by
    the definitions service (or found locally when it fails) are merged into the glossary. */
module Transcripts {
  import opened Seqs
  import opened Text

  // ---------------------------------------------------------------------------
  // Speech-recognition messages

  /** The first alternative of a recognition result (`data.channel.alternatives[0]`). */
  datatype Alternative = Alternative(transcript: string, language: Option<string>, confidence: Option<real>)

  /** One message from the speech-recognition stream, reduced to the fields the page reads. */
  datatype Message = Message(
    kind: Option<string>,                     // data.type
    isFinal: bool,                            // data.is_final (absent reads as false)
    alternative: Option<Alternative>,         // data.channel?.alternatives?.[0]
    channelDetectedLanguage: Option<string>,  // data.channel?.detected_language
    metadataDetectedLanguage: Option<string>, // data.metadata?.detected_language
    channelLanguage: Option<string>,          // data.channel?.language
    language: Option<string>,                 // data.language
    detectedLanguage: Option<string>          // data.detected_language (metadata messages)
  )

  /** The sentinel the page uses for "no specific language detected". */
  const Multi := "multi"

  /** A string property that is present and truthy (non-empty). */
  predicate Present(o: Option<string>)
  {
    o.Some? && o.value != ""
  }

  /** `a || b || ... || fallback` over optional strings: the first present candidate. */
  function FirstPresent(candidates: seq<Option<string>>, fallback: string): (r: string)
    ensures (forall k :: 0 <= k < |candidates| ==> !Present(candidates[k])) ==> r == fallback
    ensures (exists k :: 0 <= k < |candidates| && Present(candidates[k])) ==>
              exists k :: 0 <= k < |candidates| && Present(candidates[k]) && candidates[k].value == r &&
                          forall j :: 0 <= j < k ==> !Present(candidates[j])
  {
    if candidates == [] then fallback
    else if Present(candidates[0]) then candidates[0].value
    else
      var r := FirstPresent(candidates[1..], fallback);
      assert forall k :: 1 <= k < |candidates| ==> candidates[k] == candidates[1..][k - 1];
      r
  }

  /** The five places a language tag may be found, in the order the page consults them. */
  function LanguageCandidates(m: Message): seq<Option<string>>
  {
    [m.channelDetectedLanguage, m.metadataDetectedLanguage, m.channelLanguage, m.language,
     if m.alternative.Some? then m.alternative.value.language else None]
  }

  /** `detectedLang`: the first present language tag of the message, or "multi". */
  function DetectedLanguage(m: Message): (r: string)
    ensures r != ""
  {
    FirstPresent(LanguageCandidates(m), Multi)
  }

  /** `finalLanguage`: the detected tag unless it is "multi"; otherwise the current session
      language, or "unknown" when there is none. */
  function FinalLanguage(detected: string, current: string): (r: string)
    requires detected != ""
    ensures r != ""
    ensures detected != Multi ==> r == detected
    ensures detected == Multi && current != "" ==> r == current
    ensures detected == Multi && current == "" ==> r == "unknown"
  {
    if detected != Multi then detected else if current != "" then current else "unknown"
  }

  /** The session language after a result whose detected tag is `detected` (lines 307-311):
      a real tag replaces the current language; "multi" leaves it alone. */
  function ObservedLanguage(detected: string, current: string): string
  {
    if detected != "" && detected != Multi && detected != current then detected else current
  }

  /** Recording the detected language before resolving the final language changes nothing
      about the resolved language. */
  lemma FinalLanguageAfterObserving(detected: string, current: string)
    requires detected != ""
    ensures FinalLanguage(detected, ObservedLanguage(detected, current)) == FinalLanguage(detected, current)
  {
  }

  /** The language a final result is filed under: when the k-th candidate is the first present
      one, its tag unless that tag is "multi"; with no present candidate, or a "multi" one, the
      session language, or "unknown" when there is none. */
  lemma ResolvedLanguage(m: Message, current: string)
    ensures var cs := LanguageCandidates(m);
      var fallback := if current != "" then current else "unknown";
      var r := FinalLanguage(DetectedLanguage(m), current);
      && (forall k :: 0 <= k < |cs| && Present(cs[k]) && (forall j :: 0 <= j < k ==> !Present(cs[j])) ==>
            r == if cs[k].value != Multi then cs[k].value else fallback)
      && ((forall k :: 0 <= k < |cs| ==> !Present(cs[k])) ==> r == fallback)
  {
    var cs := LanguageCandidates(m);
    forall k | 0 <= k < |cs| && Present(cs[k]) && (forall j :: 0 <= j < k ==> !Present(cs[j]))
      ensures DetectedLanguage(m) == cs[k].value
    {
      var k' :| 0 <= k' < |cs| && Present(cs[k']) && cs[k'].value == DetectedLanguage(m) &&
                forall j :: 0 <= j < k' ==> !Present(cs[j]);
      assert !(k' < k) && !(k < k');
    }
  }

  /** `data.channel.alternatives[0].confidence || 0`. */
  function Confidence(a: Alternative): real
  {
    match a.confidence
    case Some(c) => c
    case None => 0.0
  }

  // ---------------------------------------------------------------------------
  // Transcript cards and the merge of a final utterance

  /** A transcript card as the page creates it (`TranscriptResult` with every optional field set). */
  datatype Card = Card(
    id: string,
    transcript: string,          // displayed text, corrected
    isFinal: bool,
    timestamp: int,              // milliseconds, time of the latest merge
    language: string,
    confidence: real,
    originalTranscript: string,  // text as recognised, before correction
    isCorrected: bool
  )

  /** One final utterance ready to be filed: its text as recognised and as corrected, the
      resolved language and the recogniser's confidence. */
  datatype Utterance = Utterance(original: string, corrected: string, language: string, confidence: real)

  /** Cards arriving within this many milliseconds of the last one may be merged into it. */
  const MergeWindow := 5000

  /** `shouldAppend` (lines 330-333): there is a last card, it was updated less than five
      seconds before `now`, it has the utterance's language and it is final. */
  predicate ShouldAppend(cards: seq<Card>, now: int, language: string)
  {
    && |cards| > 0
    && now - cards[|cards| - 1].timestamp < MergeWindow
    && cards[|cards| - 1].language == language
    && cards[|cards| - 1].isFinal
  }

  /** `originalTranscript || transcript`. */
  function OriginalText(c: Card): string
  {
    if c.originalTranscript != "" then c.originalTranscript else c.transcript
  }

  function Max(a: real, b: real): real
  {
    if a < b then b else a
  }

  /** The last card with one more utterance appended (lines 337-352). */
  function AppendUtterance(last: Card, u: Utterance, now: int): (r: Card)
    ensures r.id == last.id && r.language == last.language && r.isFinal == last.isFinal
    ensures last.isCorrected ==> r.isCorrected
    ensures r.confidence >= last.confidence && r.confidence >= u.confidence
    ensures r.confidence == last.confidence || r.confidence == u.confidence
  {
    last.(
      transcript := last.transcript + " " + u.corrected,
      originalTranscript := OriginalText(last) + " " + u.original,
      isCorrected := last.isCorrected || u.corrected != u.original,
      timestamp := now,
      confidence := Max(last.confidence, u.confidence)
    )
  }

  /** A new card holding one utterance (lines 357-366). */
  function NewCard(id: string, u: Utterance, now: int): Card
  {
    Card(id, u.corrected, true, now, u.language, u.confidence, u.original, u.corrected != u.original)
  }

  /** The cards after a final utterance is filed: merged into the last card when
      `ShouldAppend` holds, a new card at the end otherwise. */
  function MergeFinal(cards: seq<Card>, u: Utterance, now: int, freshId: string): seq<Card>
  {
    if ShouldAppend(cards, now, u.language) then
      cards[|cards| - 1 := AppendUtterance(cards[|cards| - 1], u, now)]
    else
      cards + [NewCard(freshId, u, now)]
  }

  /** On append: the same number of cards, every card before the last untouched, and the
      last card extended by the utterance, keeping its id and language. */
  lemma MergeFinalAppends(cards: seq<Card>, u: Utterance, now: int, freshId: string)
    requires ShouldAppend(cards, now, u.language)
    ensures var r := MergeFinal(cards, u, now, freshId);
      var n := |cards|;
      var last := cards[n - 1];
      && |r| == n
      && r[..n - 1] == cards[..n - 1]
      && r[n - 1].id == last.id && r[n - 1].language == last.language
      && r[n - 1].transcript == last.transcript + " " + u.corrected
      && r[n - 1].originalTranscript == OriginalText(last) + " " + u.original
      && r[n - 1].isCorrected == (last.isCorrected || u.corrected != u.original)
      && r[n - 1].confidence == Max(last.confidence, u.confidence)
      && r[n - 1].timestamp == now
  {
  }

  /** On no append: exactly one card is added at the end, final, in the utterance's language
      and with its confidence, and corrected exactly when correction changed the text. */
  lemma MergeFinalCreates(cards: seq<Card>, u: Utterance, now: int, freshId: string)
    requires !ShouldAppend(cards, now, u.language)
    ensures var r := MergeFinal(cards, u, now, freshId);
      && |r| == |cards| + 1
      && r[..|cards|] == cards
      && r[|cards|].id == freshId
      && r[|cards|].transcript == u.corrected
      && r[|cards|].originalTranscript == u.original
      && r[|cards|].isFinal
      && r[|cards|].language == u.language
      && r[|cards|].timestamp == now
      && r[|cards|].confidence == u.confidence
      && (r[|cards|].isCorrected <==> u.corrected != u.original)
  {
  }

  /** What a card is made of: the original and corrected text of each utterance merged into it. */
  datatype Piece = Piece(original: string, corrected: string)

  function Originals(ps: seq<Piece>): seq<string>
  {
    Map((p: Piece) => p.original, ps)
  }

  function Correcteds(ps: seq<Piece>): seq<string>
  {
    Map((p: Piece) => p.corrected, ps)
  }

  /** Whether correction changed the text of some utterance among `ps`. */
  predicate AnyChanged(ps: seq<Piece>)
  {
    exists i :: 0 <= i < |ps| && ps[i].corrected != ps[i].original
  }

  /** Card `c` is exactly the merge of the utterances `ps`, in arrival order: its original text
      is their original texts joined by spaces, its displayed text their corrected texts joined
      by spaces, and it is marked corrected exactly when some utterance was changed. */
  predicate Represents(c: Card, ps: seq<Piece>)
  {
    && |ps| > 0
    && (forall p <- ps :: p.original != "" && p.corrected != "")
    && c.originalTranscript == Join(Originals(ps), " ")
    && c.transcript == Join(Correcteds(ps), " ")
    && (c.isCorrected <==> AnyChanged(ps))
  }

  /** A new card represents its one utterance. */
  lemma NewCardRepresents(id: string, u: Utterance, now: int)
    requires u.original != "" && u.corrected != ""
    ensures Represents(NewCard(id, u, now), [Piece(u.original, u.corrected)])
  {
    var ps := [Piece(u.original, u.corrected)];
    assert Originals(ps) == [u.original];
    assert Correcteds(ps) == [u.corrected];
    if u.corrected != u.original { assert ps[0].corrected != ps[0].original; }
  }

  /** Appending an utterance to a card that represents `ps` gives a card that represents
      `ps` followed by that utterance. */
  lemma AppendRepresents(last: Card, ps: seq<Piece>, u: Utterance, now: int)
    requires Represents(last, ps)
    requires u.original != "" && u.corrected != ""
    ensures Represents(AppendUtterance(last, u, now), ps + [Piece(u.original, u.corrected)])
  {
    var p := Piece(u.original, u.corrected);
    var qs := ps + [p];
    JoinNonEmpty(Originals(ps), " ");
    assert OriginalText(last) == last.originalTranscript;
    assert Originals(qs) == Originals(ps) + [u.original];
    assert Correcteds(qs) == Correcteds(ps) + [u.corrected];
    JoinSnoc(Originals(ps), u.original, " ");
    JoinSnoc(Correcteds(ps), u.corrected, " ");
    assert forall i :: 0 <= i < |ps| ==> qs[i] == ps[i];
    assert qs[|ps|] == p;
  }

  /** A card that no correction changed shows exactly the recognised text. */
  lemma UncorrectedShowsOriginal(c: Card, ps: seq<Piece>)
    requires Represents(c, ps)
    requires !c.isCorrected
    ensures c.transcript == c.originalTranscript
  {
    assert Originals(ps) == Correcteds(ps) by {
      forall i | 0 <= i < |ps| ensures Originals(ps)[i] == Correcteds(ps)[i] {
        assert !(ps[i].corrected != ps[i].original);
      }
    }
  }

  // ---------------------------------------------------------------------------
  // Correction requests

  /** The text of a card as it goes into the correction context (line 177). */
  function ContextEntry(c: Card): string
  {
    if c.isCorrected then c.transcript else OriginalText(c)
  }

  /** The number of recent cards sent as conversation context. */
  const ContextSize := 5

  /** `conversationContext` (lines 175-177): an entry for each of the last five cards, in order. */
  function CorrectionContext(cards: seq<Card>): (r: seq<string>)
    ensures |r| <= ContextSize
    ensures |r| == if |cards| < ContextSize then |cards| else ContextSize
    ensures forall i :: 0 <= i < |r| ==> r[i] == ContextEntry(cards[|cards| - |r| + i])
  {
    Map(ContextEntry, LastN(cards, ContextSize))
  }

  /** For cards built by merging utterances, every context entry is the text the card shows. */
  lemma ContextIsDisplayedText(cards: seq<Card>, history: seq<seq<Piece>>)
    requires |history| == |cards|
    requires forall i :: 0 <= i < |cards| ==> Represents(cards[i], history[i])
    ensures var r := CorrectionContext(cards);
      forall i :: 0 <= i < |r| ==> r[i] == cards[|cards| - |r| + i].transcript
  {
    var r := CorrectionContext(cards);
    forall i | 0 <= i < |r| ensures r[i] == cards[|cards| - |r| + i].transcript {
      var j := |cards| - |r| + i;
      ContextEntryIsTranscript(cards[j], history[j]);
    }
  }

  /** The context entry of a card built by merging utterances is the text the card shows. */
  lemma ContextEntryIsTranscript(c: Card, ps: seq<Piece>)
    requires Represents(c, ps)
    ensures ContextEntry(c) == c.transcript
  {
    if !c.isCorrected {
      UncorrectedShowsOriginal(c, ps);
      JoinNonEmpty(Originals(ps), " ");
    }
  }

  /** The body of a request to the correction endpoint. */
  datatype CorrectionRequest = CorrectionRequest(text: string, conversationContext: seq<string>, language: string)

  /** The request `correctMedicalTerminology` sends (lines 167-192): none for blank text,
      otherwise the text, the context of the last cards and the language chosen by the user. */
  function CorrectionRequestFor(cards: seq<Card>, text: string, selectedLanguage: string): (r: Option<CorrectionRequest>)
    ensures r.None? <==> IsBlank(text)
    ensures r.Some? ==> r.value.text == text && r.value.language == selectedLanguage
    ensures r.Some? ==> r.value.conversationContext == CorrectionContext(cards)
  {
    if IsBlank(text) then None
    else Some(CorrectionRequest(text, CorrectionContext(cards), selectedLanguage))
  }

  /** How a correction request ended, as the page sees it: no usable reply (an error status or
      a network failure), or a reply whose `correctedText` field may be missing. */
  datatype CorrectionReply = CorrectionUnavailable | CorrectionReplied(correctedText: Option<string>)

  /** The text `correctMedicalTerminology` resolves to: blank text unchanged, otherwise the
      reply's non-empty `correctedText`, falling back to the original on any failure. */
  function CorrectedText(text: string, reply: CorrectionReply): (r: string)
    ensures IsBlank(text) ==> r == text
    ensures r == text || (!IsBlank(text) && reply == CorrectionReplied(Some(r)) && r != "")
    ensures text != "" ==> r != ""
    ensures reply.CorrectionUnavailable? ==> r == text
    ensures !IsBlank(text) && reply.CorrectionReplied? && reply.correctedText.Some? && reply.correctedText.value != "" ==>
              r == reply.correctedText.value
  {
    if IsBlank(text) then text
    else match reply
      case CorrectionReplied(Some(c)) => if c != "" then c else text
      case _ => text
  }

  // ---------------------------------------------------------------------------
  // Medical terms

  /** `MedicalTermDefinition`; the category is kept as the service sent it. */
  datatype MedicalTerm = MedicalTerm(term: string, definition: string, example: string, category: string)

  /** Generic words never kept as glossary terms (lines 90-96). */
  const ExcludedTerms: set<string> := {
    "medication", "medicine", "drug", "pill", "tablet",
    "patient", "doctor", "physician", "nurse",
    "hospital", "clinic", "treatment", "therapy",
    "health", "medical", "healthcare", "prescription",
    "appointment", "visit", "checkup", "test"
  }

  /** Terms shorter than this many characters, plus one, are dropped (`term.length > 3`). */
  const MinTermLength := 3

  /** The lower-cased terms already kept (`existingTerms`). */
  function KnownTerms(terms: seq<MedicalTerm>): set<string>
  {
    set t <- terms :: Lower(t.term)
  }

  /** The filter applied to terms from the definitions service (lines 146-150). */
  predicate IsNewServiceTerm(known: set<string>, d: MedicalTerm)
  {
    Lower(d.term) !in known && Lower(d.term) !in ExcludedTerms && |d.term| > MinTermLength
  }

  /** The service's terms that survive the filter, in the service's order. */
  function NewServiceTerms(prev: seq<MedicalTerm>, defs: seq<MedicalTerm>): seq<MedicalTerm>
  {
    Filter((d: MedicalTerm) => IsNewServiceTerm(KnownTerms(prev), d), defs)
  }

  /** The glossary after a successful reply from the definitions service (lines 143-154). */
  function MergeServiceTerms(prev: seq<MedicalTerm>, defs: seq<MedicalTerm>): seq<MedicalTerm>
  {
    prev + NewServiceTerms(prev, defs)
  }

  /** The merge keeps the glossary as it was and appends the surviving terms in the service's
      order: a term survives exactly when its lower-cased form is neither already known nor a
      generic word and it is longer than three characters; each survivor is kept as often as
      the service sent it. */
  lemma MergeServiceTermsSpec(prev: seq<MedicalTerm>, defs: seq<MedicalTerm>)
    ensures var r := MergeServiceTerms(prev, defs);
      && r[..|prev|] == prev
      && IsSubsequence(r[|prev|..], defs)
      && (forall d <- r[|prev|..] :: Lower(d.term) !in KnownTerms(prev) && Lower(d.term) !in ExcludedTerms && |d.term| > MinTermLength)
      && (forall d <- defs :: d in r[|prev|..] <==> IsNewServiceTerm(KnownTerms(prev), d))
      && (forall d <- defs :: multiset(r[|prev|..])[d] == if IsNewServiceTerm(KnownTerms(prev), d) then multiset(defs)[d] else 0)
  {
    var keep := (d: MedicalTerm) => IsNewServiceTerm(KnownTerms(prev), d);
    var r := MergeServiceTerms(prev, defs);
    assert r[|prev|..] == Filter(keep, defs);
    FilterIsSubsequence(keep, defs);
    forall d <- defs
      ensures d in r[|prev|..] <==> IsNewServiceTerm(KnownTerms(prev), d)
      ensures multiset(r[|prev|..])[d] == if IsNewServiceTerm(KnownTerms(prev), d) then multiset(defs)[d] else 0
    {
      FilterMembership(keep, defs, d);
      FilterCount(keep, defs, d);
    }
  }

  /** The entries of `terms` whose lower-cased term is `key`. */
  function WithKey(terms: seq<MedicalTerm>, key: string): seq<MedicalTerm>
  {
    Filter((t: MedicalTerm) => Lower(t.term) == key, terms)
  }

  /** The same term (up to case) in two successive replies is kept once. */
  lemma TermKeptOnceAcrossReplies(prev: seq<MedicalTerm>, d1: MedicalTerm, d2: MedicalTerm)
    requires Lower(d1.term) == Lower(d2.term)
    requires IsNewServiceTerm(KnownTerms(prev), d1)
    ensures WithKey(MergeServiceTerms(MergeServiceTerms(prev, [d1]), [d2]), Lower(d1.term)) == [d1]
  {
    var key := Lower(d1.term);
    var once := MergeServiceTerms(prev, [d1]);
    assert once == prev + [d1];
    assert Lower(d1.term) in KnownTerms(once) by { assert d1 in once; }
    assert MergeServiceTerms(once, [d2]) == prev + [d1];
    var match1 := (t: MedicalTerm) => Lower(t.term) == key;
    FilterAppend(match1, prev, [d1]);
    assert forall t <- prev :: !match1(t) by {
      forall t <- prev ensures !match1(t) { assert Lower(t.term) in KnownTerms(prev); }
    }
    FilterNone(match1, prev);
  }

  /** The service filter compares only with the terms kept before the reply: the same term
      twice in one reply is kept twice. */
  lemma DuplicatesWithinReplyKept(d: MedicalTerm)
    requires IsNewServiceTerm({}, d)
    ensures MergeServiceTerms([], [d, d]) == [d, d]
  {
    var keep := (t: MedicalTerm) => IsNewServiceTerm(KnownTerms([]), t);
    assert KnownTerms([]) == {};
    assert [d, d][1..] == [d];
    assert Filter(keep, [d]) == [d] + Filter(keep, []);
  }

  /** The keywords the local fallback looks for (line 119). */
  const MedicalKeywords: seq<string> :=
    ["bacitracin", "vaseline", "hypertension", "diabetes", "insulin", "metformin", "lisinopril", "atorvastatin"]

  /** The placeholder entry made for a keyword found locally (lines 123-128). */
  function FallbackEntry(word: string): MedicalTerm
  {
    MedicalTerm(word, word + " - API unavailable, please check server logs",
                "Used in medical context: \"" + word + "\"", "other")
  }

  /** The words of the lower-cased text that are keywords, in text order (lines 118-120). */
  function FoundKeywords(text: string): seq<string>
  {
    Filter((w: string) => w in MedicalKeywords, SplitWhitespace(Lower(text)))
  }

  /** The glossary after the definitions service failed (lines 118-134): placeholder entries
      for the keywords found, minus those whose term is already known. */
  function MergeFallbackTerms(prev: seq<MedicalTerm>, text: string): seq<MedicalTerm>
  {
    prev + Filter((t: MedicalTerm) => Lower(t.term) !in KnownTerms(prev), Map(FallbackEntry, FoundKeywords(text)))
  }

  /** A keyword whose lower-cased form is not among the `known` terms. */
  predicate IsNewKeyword(known: set<string>, w: string)
  {
    w in MedicalKeywords && Lower(w) !in known
  }

  /** Every keyword is a non-empty string without white space, so it can be a word. */
  lemma KeywordsAreWords()
    ensures forall w <- MedicalKeywords :: w != "" && NoWhitespace(w)
  {
    forall w <- MedicalKeywords ensures w != "" && NoWhitespace(w) {
      forall i | 0 <= i < |w| ensures !IsWhitespace(w[i]) {
        assert 'a' <= w[i] <= 'z';
      }
    }
  }

  /** The words of the lower-cased text that are keywords not among the `known` terms, in
      text order, once per occurrence. */
  function NewKeywords(known: set<string>, text: string): seq<string>
  {
    Filter((w: string) => IsNewKeyword(known, w), SplitWhitespace(Lower(text)))
  }

  /** The fallback keeps the glossary and appends, in text order, a placeholder for each word
      of the lower-cased text that is a keyword not already known, once per occurrence: a
      new keyword gets an entry exactly when it occurs in the lower-cased text as a whole
      word. Duplicates are removed only against the earlier glossary. */
  lemma MergeFallbackTermsSpec(prev: seq<MedicalTerm>, text: string)
    ensures var r := MergeFallbackTerms(prev, text);
      var known := KnownTerms(prev);
      && r[..|prev|] == prev
      && r[|prev|..] == Map(FallbackEntry, NewKeywords(known, text))
      && (forall w :: IsNewKeyword(known, w) ==> (FallbackEntry(w) in r[|prev|..] <==> OccursAsWord(Lower(text), w)))
      && (forall t <- r[|prev|..] :: IsNewKeyword(known, t.term) && t == FallbackEntry(t.term))
  {
    var known := KnownTerms(prev);
    FallbackAdded(prev, text);
    forall w | IsNewKeyword(known, w)
      ensures FallbackEntry(w) in Map(FallbackEntry, NewKeywords(known, text)) <==> OccursAsWord(Lower(text), w)
    {
      NewKeywordEntry(known, text, w);
    }
    NewKeywordEntriesSound(known, text);
  }

  /** The entries the fallback appends are the placeholders of the new keywords. */
  lemma FallbackAdded(prev: seq<MedicalTerm>, text: string)
    ensures MergeFallbackTerms(prev, text)[|prev|..] == Map(FallbackEntry, NewKeywords(KnownTerms(prev), text))
  {
    var known := KnownTerms(prev);
    var keepNew := (t: MedicalTerm) => Lower(t.term) !in known;
    var isKeyword := (w: string) => w in MedicalKeywords;
    var isNew := (w: string) => IsNewKeyword(known, w);
    var words := SplitWhitespace(Lower(text));
    assert MergeFallbackTerms(prev, text)[|prev|..] == Filter(keepNew, Map(FallbackEntry, FoundKeywords(text)));
    FilterMap(keepNew, FallbackEntry, (w: string) => keepNew(FallbackEntry(w)), FoundKeywords(text));
    FilterFilter((w: string) => keepNew(FallbackEntry(w)), isKeyword, isNew, words);
  }

  /** A new keyword gets a placeholder exactly when it occurs in the lower-cased text as a
      whole word. */
  lemma NewKeywordEntry(known: set<string>, text: string, w: string)
    requires IsNewKeyword(known, w)
    ensures FallbackEntry(w) in Map(FallbackEntry, NewKeywords(known, text)) <==> OccursAsWord(Lower(text), w)
  {
    var isNew := (w: string) => IsNewKeyword(known, w);
    var words := SplitWhitespace(Lower(text));
    var newWords := NewKeywords(known, text);
    var added := Map(FallbackEntry, newWords);
    FilterMembership(isNew, words, w);
    if FallbackEntry(w) in added {
      var i :| 0 <= i < |added| && added[i] == FallbackEntry(w);
      assert newWords[i] == w;
    }
    KeywordsAreWords();
    SplitWhitespaceWords(Lower(text), w);
  }

  /** Every placeholder appended is that of a new keyword. */
  lemma NewKeywordEntriesSound(known: set<string>, text: string)
    ensures forall t <- Map(FallbackEntry, NewKeywords(known, text)) ::
              IsNewKeyword(known, t.term) && t == FallbackEntry(t.term)
  {
    var isNew := (w: string) => IsNewKeyword(known, w);
    var words := SplitWhitespace(Lower(text));
    var newWords := NewKeywords(known, text);
    var added := Map(FallbackEntry, newWords);
    forall t <- added ensures IsNewKeyword(known, t.term) && t == FallbackEntry(t.term) {
      var i :| 0 <= i < |added| && added[i] == t;
      FilterMembership(isNew, words, newWords[i]);
    }
  }

  /** How a definitions request ended, as the page sees it: an error status, a reply whose
      `definitions` field may be missing, or a failure before any reply could be read. */
  datatype TermsReply = TermsHttpError | TermsReceived(definitions: Option<seq<MedicalTerm>>) | TermsFailed

  /** The glossary after `extractMedicalTerms(text)` completes (lines 86-164): nothing for blank
      text; the local fallback on an error status; the service's terms on a reply that lists
      some; no change otherwise. Entries are only ever added, at the end. */
  function TermsAfterExtraction(prev: seq<MedicalTerm>, text: string, reply: TermsReply): (r: seq<MedicalTerm>)
    ensures |r| >= |prev| && r[..|prev|] == prev
    ensures IsBlank(text) || reply.TermsFailed? ==> r == prev
    ensures !IsBlank(text) && reply.TermsHttpError? ==> r == MergeFallbackTerms(prev, text)
    ensures !IsBlank(text) && reply.TermsReceived? ==>
              r == MergeServiceTerms(prev, reply.definitions.GetOr([]))
  {
    if IsBlank(text) then prev
    else match reply
      case TermsHttpError => MergeFallbackTerms(prev, text)
      case TermsReceived(Some(defs)) => if |defs| > 0 then MergeServiceTerms(prev, defs) else prev
      case _ => prev
  }

  function CardId(c: Card): string
  {
    c.id
  }

  /** No two cards share an id. */
  predicate UniqueIds(cards: seq<Card>)
  {
    KeysDistinct(CardId, cards)
  }

  /** `deleteTranscript(id)`: the cards whose id is not `id`. */
  function WithoutCard(cards: seq<Card>, id: string): seq<Card>
  {
    Filter((c: Card) => c.id != id, cards)
  }

  /** Deleting removes exactly the cards with that id and keeps the rest in order, each
      as many times as before. */
  lemma WithoutCardSpec(cards: seq<Card>, id: string)
    ensures var r := WithoutCard(cards, id);
      && IsSubsequence(r, cards)
      && (forall c <- r :: c.id != id)
      && (forall c <- cards :: c.id != id ==> multiset(r)[c] == multiset(cards)[c])
      && (UniqueIds(cards) ==> UniqueIds(r))
  {
    var keep := (c: Card) => c.id != id;
    FilterIsSubsequence(keep, cards);
    if UniqueIds(cards) {
      FilterKeepsKeysDistinct(keep, CardId, cards);
    }
    forall c <- cards | c.id != id ensures multiset(WithoutCard(cards, id))[c] == multiset(cards)[c] {
      FilterCount(keep, cards, c);
    }
  }

  /** `deleteMedicalTerm(term)`: the entries whose term is not exactly `term`. */
  function WithoutTerm(terms: seq<MedicalTerm>, term: string): seq<MedicalTerm>
  {
    Filter((t: MedicalTerm) => t.term != term, terms)
  }

  /** Deleting a term removes exactly the entries with that term (same case) and keeps the rest
      in order, each as many times as before. */
  lemma WithoutTermSpec(terms: seq<MedicalTerm>, term: string)
    ensures var r := WithoutTerm(terms, term);
      && IsSubsequence(r, terms)
      && (forall t <- r :: t.term != term)
      && (forall t <- terms :: t.term != term ==> multiset(r)[t] == multiset(terms)[t])
  {
    var keep := (t: MedicalTerm) => t.term != term;
    FilterIsSubsequence(keep, terms);
    forall t <- terms | t.term != term ensures multiset(WithoutTerm(terms, term))[t] == multiset(terms)[t] {
      FilterCount(keep, terms, t);
    }
  }

  // ---------------------------------------------------------------------------
  // Language labels

  /** A language's display name and flag. */
  datatype LanguageLabel = LanguageLabel(name: string, flag: string)

  /** The language codes the page knows how to label (lines 58-80). */
  const LanguageLabels: map<string, LanguageLabel> := map[
    "en" := LanguageLabel("English", "\U{1F1FA}\U{1F1F8}"),
    "en-US" := LanguageLabel("English (US)", "\U{1F1FA}\U{1F1F8}"),
    "en-GB" := LanguageLabel("English (UK)", "\U{1F1EC}\U{1F1E7}"),
    "zh" := LanguageLabel("Chinese", "\U{1F1E8}\U{1F1F3}"),
    "zh-CN" := LanguageLabel("Chinese (Simplified)", "\U{1F1E8}\U{1F1F3}"),
    "zh-TW" := LanguageLabel("Chinese (Traditional)", "\U{1F1F9}\U{1F1FC}"),
    "zh-Hans" := LanguageLabel("Chinese (Simplified)", "\U{1F1E8}\U{1F1F3}"),
    "zh-Hant" := LanguageLabel("Chinese (Traditional)", "\U{1F1F9}\U{1F1FC}"),
    "cmn" := LanguageLabel("Mandarin Chinese", "\U{1F1E8}\U{1F1F3}"),
    "es" := LanguageLabel("Spanish", "\U{1F1EA}\U{1F1F8}"),
    "es-US" := LanguageLabel("Spanish (US)", "\U{1F1FA}\U{1F1F8}"),
    "es-ES" := LanguageLabel("Spanish (Spain)", "\U{1F1EA}\U{1F1F8}"),
    "fr" := LanguageLabel("French", "\U{1F1EB}\U{1F1F7}"),
    "de" := LanguageLabel("German", "\U{1F1E9}\U{1F1EA}"),
    "it" := LanguageLabel("Italian", "\U{1F1EE}\U{1F1F9}"),
    "pt" := LanguageLabel("Portuguese", "\U{1F1F5}\U{1F1F9}"),
    "ru" := LanguageLabel("Russian", "\U{1F1F7}\U{1F1FA}"),
    "ja" := LanguageLabel("Japanese", "\U{1F1EF}\U{1F1F5}"),
    "ko" := LanguageLabel("Korean", "\U{1F1F0}\U{1F1F7}"),
    "ar" := LanguageLabel("Arabic", "\U{1F1F8}\U{1F1E6}"),
    "hi" := LanguageLabel("Hindi", "\U{1F1EE}\U{1F1F3}")
  ]

  /** The globe shown for a language the page has no label for. */
  const UnknownFlag := "\U{1F310}"

  /** `getLanguageDisplay`: the known label, or the code itself with a globe. */
  function LanguageDisplay(code: string): (r: LanguageLabel)
    ensures code in LanguageLabels ==> r == LanguageLabels[code]
    ensures code !in LanguageLabels ==> r == LanguageLabel(code, UnknownFlag)
    ensures r.flag != ""
  {
    if code in LanguageLabels then LanguageLabels[code] else LanguageLabel(code, UnknownFlag)
  }
}
