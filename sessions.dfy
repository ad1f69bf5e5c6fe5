/** The state of the live transcript page (pages/index.tsx) and the steps that change it: the
    transcript cards, the glossary of medical terms, the interim caption and the language
    bookkeeping, updated one event at a time. Each React state update is one atomic step here. */
module Sessions {
  import opened Seqs
  import opened Text
  import opened Transcripts

  /** Card `c` was filed by this page: its id was handed out, it is final, it carries a
      language, and it is the merge of the utterances recorded for its id. */
  ghost predicate Filed(c: Card, usedIds: set<string>, pieces: map<string, seq<Piece>>)
  {
    && c.id in usedIds && c.id in pieces
    && c.isFinal && c.language != ""
    && Represents(c, pieces[c.id])
  }

  /** Cards with distinct ids, each of them filed. */
  ghost predicate AllFiled(cards: seq<Card>, usedIds: set<string>, pieces: map<string, seq<Piece>>)
  {
    UniqueIds(cards) && forall c <- cards :: Filed(c, usedIds, pieces)
  }

  /** The utterances per card after `u` is filed by `MergeFinal`. */
  function PiecesAfter(cards: seq<Card>, pieces: map<string, seq<Piece>>, u: Utterance, now: int, freshId: string)
    : map<string, seq<Piece>>
  {
    var piece := Piece(u.original, u.corrected);
    if ShouldAppend(cards, now, u.language) && cards[|cards| - 1].id in pieces then
      pieces[cards[|cards| - 1].id := pieces[cards[|cards| - 1].id] + [piece]]
    else
      pieces[freshId := [piece]]
  }

  /** Filing a final utterance keeps every card filed: the card it is appended to now also
      holds it, a new card holds just it, and no other card changes. */
  lemma MergeFinalKeepsFiled(cards: seq<Card>, usedIds: set<string>, pieces: map<string, seq<Piece>>,
                             u: Utterance, now: int, freshId: string)
    requires AllFiled(cards, usedIds, pieces)
    requires freshId !in usedIds
    requires u.original != "" && u.corrected != "" && u.language != ""
    ensures AllFiled(MergeFinal(cards, u, now, freshId), usedIds + {freshId},
                     PiecesAfter(cards, pieces, u, now, freshId))
  {
    if ShouldAppend(cards, now, u.language) {
      AppendKeepsFiled(cards, usedIds, pieces, u, now, freshId);
    } else {
      NewCardKeepsFiled(cards, usedIds, pieces, u, now, freshId);
    }
  }

  lemma AppendKeepsFiled(cards: seq<Card>, usedIds: set<string>, pieces: map<string, seq<Piece>>,
                         u: Utterance, now: int, freshId: string)
    requires AllFiled(cards, usedIds, pieces)
    requires u.original != "" && u.corrected != ""
    requires ShouldAppend(cards, now, u.language)
    ensures AllFiled(MergeFinal(cards, u, now, freshId), usedIds + {freshId},
                     PiecesAfter(cards, pieces, u, now, freshId))
  {
    var n := |cards|;
    var last := cards[n - 1];
    assert last in cards;
    var pieces' := PiecesAfter(cards, pieces, u, now, freshId);
    var used' := usedIds + {freshId};
    var r := MergeFinal(cards, u, now, freshId);
    AppendRepresents(last, pieces[last.id], u, now);
    assert Filed(r[n - 1], used', pieces');
    forall i | 0 <= i < n - 1 ensures Filed(r[i], used', pieces') {
      assert cards[i] in cards;
      assert CardId(cards[i]) != CardId(cards[n - 1]);
    }
    forall i, j | 0 <= i < j < n ensures CardId(r[i]) != CardId(r[j]) {
      assert CardId(cards[i]) != CardId(cards[j]);
    }
    forall c <- r ensures Filed(c, used', pieces') {
      var i :| 0 <= i < n && r[i] == c;
    }
  }

  lemma NewCardKeepsFiled(cards: seq<Card>, usedIds: set<string>, pieces: map<string, seq<Piece>>,
                          u: Utterance, now: int, freshId: string)
    requires AllFiled(cards, usedIds, pieces)
    requires freshId !in usedIds
    requires u.original != "" && u.corrected != "" && u.language != ""
    requires !ShouldAppend(cards, now, u.language)
    ensures AllFiled(MergeFinal(cards, u, now, freshId), usedIds + {freshId},
                     PiecesAfter(cards, pieces, u, now, freshId))
  {
    var n := |cards|;
    var pieces' := PiecesAfter(cards, pieces, u, now, freshId);
    var used' := usedIds + {freshId};
    var r := MergeFinal(cards, u, now, freshId);
    NewCardRepresents(freshId, u, now);
    assert Filed(r[n], used', pieces');
    forall i | 0 <= i < n ensures Filed(r[i], used', pieces') && CardId(r[i]) != freshId {
      assert cards[i] in cards;
    }
    forall i, j | 0 <= i < j < n + 1 ensures CardId(r[i]) != CardId(r[j]) {
      if j < n { assert CardId(cards[i]) != CardId(cards[j]); }
    }
    forall c <- r ensures Filed(c, used', pieces') {
      var i :| 0 <= i < n + 1 && r[i] == c;
    }
  }

  /** The languages the selector offers (`'en' | 'es' | 'zh'`, lines 550-569). */
  const SelectableLanguages: set<string> := {"en", "es", "zh"}

  class Session {
    var isRecording: bool
    var transcript: seq<Card>
    var medicalTerms: seq<MedicalTerm>
    var currentInterim: string
    var currentLanguage: string
    var detectedLanguages: set<string>
    var lastSpeechTime: int
    var selectedLanguage: string

    /** Every card id ever handed out, so that a fresh one can be told apart. */
    ghost var usedIds: set<string>
    /** For each card id, the utterances merged into that card, in arrival order. */
    ghost var pieces: map<string, seq<Piece>>

    /** Cards have distinct ids, are final, carry a language, and each one is exactly the
        space-joined merge of the utterances recorded for it. */
    ghost predicate Valid()
      reads this`transcript, this`usedIds, this`pieces
    {
      AllFiled(transcript, usedIds, pieces)
    }

    /** The current language, when there is one, is among the languages seen, and the
        selected language is one the selector offers. */
    predicate LanguagesConsistent()
      reads this`currentLanguage, this`detectedLanguages, this`selectedLanguage
    {
      && (currentLanguage == "" || currentLanguage in detectedLanguages)
      && selectedLanguage in SelectableLanguages
    }

    /** A page that has just loaded (lines 24-32): not recording, nothing transcribed, English
        selected, and no card id handed out yet. */
    constructor ()
      ensures Valid() && LanguagesConsistent()
      ensures !isRecording
      ensures transcript == [] && medicalTerms == [] && currentInterim == ""
      ensures currentLanguage == "" && detectedLanguages == {} && lastSpeechTime == 0
      ensures selectedLanguage == "en"
      ensures usedIds == {} && pieces == map[]
    {
      isRecording := false;
      transcript := [];
      medicalTerms := [];
      currentInterim := "";
      currentLanguage := "";
      detectedLanguages := {};
      lastSpeechTime := 0;
      selectedLanguage := "en";
      usedIds := {};
      pieces := map[];
    }

    /** An interim result replaces the caption (lines 375-377). */
    method OnInterim(text: string, now: int)
      requires Valid()
      modifies this`currentInterim, this`lastSpeechTime
      ensures Valid()
      ensures currentInterim == text && lastSpeechTime == now
    {
      currentInterim := text;
      lastSpeechTime := now;
    }

    /** A recognition result with a real language tag makes it the current language and adds
        it to the languages seen (lines 307-311). */
    method ObserveLanguage(detected: string)
      requires Valid() && LanguagesConsistent()
      modifies this`currentLanguage, this`detectedLanguages
      ensures Valid() && LanguagesConsistent()
      ensures currentLanguage == ObservedLanguage(detected, old(currentLanguage))
      ensures detectedLanguages ==
        if detected != "" && detected != Multi && detected != old(currentLanguage)
        then old(detectedLanguages) + {detected} else old(detectedLanguages)
    {
      if detected != "" && detected != Multi && detected != currentLanguage {
        currentLanguage := detected;
        detectedLanguages := detectedLanguages + {detected};
      }
    }

    /** A metadata message with a language sets the current language, "multi" included
        (lines 383-390). The tag is compared with `start`, the current language as the message
        handler found it: state updates made earlier in the same handler are not yet visible. */
    method ObserveMetadata(m: Message, start: string)
      requires Valid() && LanguagesConsistent()
      modifies this`currentLanguage, this`detectedLanguages
      ensures Valid() && LanguagesConsistent()
      ensures var changes := m.kind == Some("Metadata") && Present(m.detectedLanguage) &&
                             m.detectedLanguage.value != start;
        && currentLanguage == (if changes then m.detectedLanguage.value else old(currentLanguage))
        && detectedLanguages == (if changes then old(detectedLanguages) + {m.detectedLanguage.value} else old(detectedLanguages))
    {
      if m.kind == Some("Metadata") && Present(m.detectedLanguage) {
        var language := m.detectedLanguage.value;
        if language != start {
          currentLanguage := language;
          detectedLanguages := detectedLanguages + {language};
        }
      }
    }

    /** Files a final utterance (lines 326-368): appended to the last card when
        `ShouldAppend` holds, otherwise a new card with id `freshId`. */
    method FileUtterance(u: Utterance, now: int, freshId: string)
      requires Valid()
      requires u.original != "" && u.corrected != "" && u.language != ""
      requires freshId !in usedIds
      modifies this`transcript, this`usedIds, this`pieces
      ensures Valid()
      ensures transcript == MergeFinal(old(transcript), u, now, freshId)
      ensures usedIds == old(usedIds) + {freshId}
    {
      var cards := transcript;
      var updated: seq<Card>;
      if ShouldAppend(cards, now, u.language) {
        var lastIndex := |cards| - 1;
        updated := cards[lastIndex := AppendUtterance(cards[lastIndex], u, now)];
      } else {
        updated := cards + [NewCard(freshId, u, now)];
      }
      assert updated == MergeFinal(cards, u, now, freshId);
      MergeFinalKeepsFiled(cards, usedIds, pieces, u, now, freshId);
      transcript, pieces, usedIds := updated, PiecesAfter(cards, pieces, u, now, freshId), usedIds + {freshId};
    }

    /** A final result (lines 313-374): the text is corrected first, by the request returned
        (none for blank text) answered by `reply`, then filed; the caption is cleared. Also
        returns the corrected text, which is what the glossary lookup is run on. */
    method OnFinal(text: string, detected: string, confidence: real, reply: CorrectionReply, now: int, freshId: string)
      returns (request: Option<CorrectionRequest>, corrected: string)
      requires Valid()
      requires text != "" && detected != ""
      requires freshId !in usedIds
      modifies this`transcript, this`currentInterim, this`lastSpeechTime, this`usedIds, this`pieces
      ensures Valid()
      ensures request == CorrectionRequestFor(old(transcript), text, selectedLanguage)
      ensures corrected == CorrectedText(text, reply)
      ensures transcript == MergeFinal(old(transcript),
                Utterance(text, corrected, FinalLanguage(detected, currentLanguage), confidence), now, freshId)
      ensures currentInterim == "" && lastSpeechTime == now
      ensures usedIds == old(usedIds) + {freshId}
    {
      request := CorrectionRequestFor(transcript, text, selectedLanguage);
      corrected := CorrectedText(text, reply);
      FileUtterance(Utterance(text, corrected, FinalLanguage(detected, currentLanguage), confidence), now, freshId);
      lastSpeechTime, currentInterim := now, "";
    }

    /** `extractMedicalTerms(text)` once its request has ended with `reply` (lines 86-164). */
    method ExtractMedicalTerms(text: string, reply: TermsReply)
      requires Valid()
      modifies this`medicalTerms
      ensures Valid()
      ensures medicalTerms == TermsAfterExtraction(old(medicalTerms), text, reply)
    {
      if IsBlank(text) {
        return;
      }
      match reply
      case TermsHttpError =>
        medicalTerms := MergeFallbackTerms(medicalTerms, text);
      case TermsReceived(Some(defs)) =>
        if |defs| > 0 {
          medicalTerms := MergeServiceTerms(medicalTerms, defs);
        }
      case _ =>
    }

    /** `deleteTranscript(id)` (lines 42-44). */
    method DeleteTranscript(id: string)
      requires Valid()
      modifies this`transcript
      ensures Valid()
      ensures transcript == WithoutCard(old(transcript), id)
    {
      WithoutCardSpec(transcript, id);
      forall c <- WithoutCard(transcript, id) ensures c in transcript {
        FilterMembership((c: Card) => c.id != id, transcript, c);
      }
      transcript := WithoutCard(transcript, id);
    }

    /** `clearAllTranscripts()` (lines 47-49): only the cards go. */
    method ClearAllTranscripts()
      requires Valid()
      modifies this`transcript
      ensures Valid()
      ensures transcript == []
    {
      transcript := [];
    }

    /** The "Clear All" button of the glossary (lines 733-737). */
    method ClearMedicalTerms()
      requires Valid()
      modifies this`medicalTerms
      ensures Valid()
      ensures medicalTerms == []
    {
      medicalTerms := [];
    }

    /** `deleteMedicalTerm(term)` (lines 52-54). */
    method DeleteMedicalTerm(term: string)
      requires Valid()
      modifies this`medicalTerms
      ensures Valid()
      ensures medicalTerms == WithoutTerm(old(medicalTerms), term)
    {
      medicalTerms := WithoutTerm(medicalTerms, term);
    }

    /** The state part of `stopRecording()` (lines 498-501). */
    method StopRecording()
      requires Valid() && LanguagesConsistent()
      modifies this`isRecording, this`currentInterim, this`currentLanguage, this`lastSpeechTime
      ensures Valid() && LanguagesConsistent()
      ensures !isRecording && currentInterim == "" && currentLanguage == "" && lastSpeechTime == 0
    {
      isRecording := false;
      currentInterim := "";
      currentLanguage := "";
      lastSpeechTime := 0;
    }

    /** The recognition stream is open (lines 266-268). */
    method OnOpen()
      requires Valid()
      modifies this`isRecording
      ensures Valid()
      ensures isRecording
    {
      isRecording := true;
    }

    /** The recognition stream closed (lines 410-418). */
    method OnClose()
      requires Valid()
      modifies this`isRecording
      ensures Valid()
      ensures !isRecording
    {
      isRecording := false;
    }

    /** A click on one of the language buttons (lines 554-569): ignored while recording. */
    method SelectLanguage(language: string)
      requires Valid() && LanguagesConsistent()
      requires language in SelectableLanguages
      modifies this`selectedLanguage
      ensures Valid() && LanguagesConsistent()
      ensures selectedLanguage == if old(isRecording) then old(selectedLanguage) else language
    {
      if !isRecording {
        selectedLanguage := language;
      }
    }

    /** A recognition result (lines 288-380): its language is observed first; a final
        non-empty transcript is then corrected, filed and looked up for medical terms, and an
        interim one replaces the caption. A language is added to those seen exactly when it
        becomes the current one; a card id is used exactly when a card may be created. */
    method OnResult(alternative: Alternative, isFinal: bool, detected: string, correction: CorrectionReply,
                    terms: TermsReply, now: int, freshId: string)
      requires Valid() && LanguagesConsistent()
      requires detected != ""
      requires freshId !in usedIds
      modifies this`transcript, this`medicalTerms, this`currentInterim, this`currentLanguage,
               this`detectedLanguages, this`lastSpeechTime, this`usedIds, this`pieces
      ensures Valid() && LanguagesConsistent()
      ensures currentLanguage == ObservedLanguage(detected, old(currentLanguage))
      ensures detectedLanguages ==
        old(detectedLanguages) + (if currentLanguage != old(currentLanguage) then {currentLanguage} else {})
      ensures var filed := alternative.transcript != "" && isFinal;
        usedIds == if filed then old(usedIds) + {freshId} else old(usedIds)
      ensures lastSpeechTime == if alternative.transcript != "" then now else old(lastSpeechTime)
      ensures var text := alternative.transcript;
        && (text != "" && isFinal ==>
              && transcript == MergeFinal(old(transcript),
                   Utterance(text, CorrectedText(text, correction), FinalLanguage(detected, old(currentLanguage)),
                             Confidence(alternative)), now, freshId)
              && medicalTerms == TermsAfterExtraction(old(medicalTerms), CorrectedText(text, correction), terms)
              && currentInterim == "")
        && (!(text != "" && isFinal) ==> transcript == old(transcript) && medicalTerms == old(medicalTerms))
        && (text != "" && !isFinal ==> currentInterim == text)
        && (text == "" ==> currentInterim == old(currentInterim))
    {
      var text := alternative.transcript;
      ghost var before := currentLanguage;
      ObserveLanguage(detected);
      assert detectedLanguages == old(detectedLanguages) + (if currentLanguage != before then {currentLanguage} else {});
      if text != "" {
        if isFinal {
          FinalLanguageAfterObserving(detected, before);
          var _, corrected := OnFinal(text, detected, Confidence(alternative), correction, now, freshId);
          ExtractMedicalTerms(corrected, terms);
        } else {
          OnInterim(text, now);
        }
      }
    }

    /** One message from the speech-recognition stream (lines 284-401), with the outcomes of
        the correction and definitions requests a final result triggers. The result's tag
        (line 307) and the metadata tag (line 385) are both compared with the language the
        handler started with; when both change it, the metadata tag, set last, wins. */
    method OnMessage(m: Message, correction: CorrectionReply, terms: TermsReply, now: int, freshId: string)
      requires Valid() && LanguagesConsistent()
      requires freshId !in usedIds
      modifies this`transcript, this`medicalTerms, this`currentInterim, this`currentLanguage,
               this`detectedLanguages, this`lastSpeechTime, this`usedIds, this`pieces
      ensures Valid() && LanguagesConsistent()
      ensures var text := if m.alternative.Some? then m.alternative.value.transcript else "";
        && (m.alternative.Some? && text != "" && m.isFinal ==>
              && transcript == MergeFinal(old(transcript),
                   Utterance(text, CorrectedText(text, correction),
                             FinalLanguage(DetectedLanguage(m), old(currentLanguage)),
                             Confidence(m.alternative.value)), now, freshId)
              && medicalTerms == TermsAfterExtraction(old(medicalTerms), CorrectedText(text, correction), terms)
              && currentInterim == "")
        && (!(m.alternative.Some? && text != "" && m.isFinal) ==>
              transcript == old(transcript) && medicalTerms == old(medicalTerms))
        && (m.alternative.Some? && text != "" && !m.isFinal ==> currentInterim == text)
        && (!(m.alternative.Some? && text != "") ==> currentInterim == old(currentInterim))
        && usedIds == (if m.alternative.Some? && text != "" && m.isFinal then old(usedIds) + {freshId} else old(usedIds))
        && lastSpeechTime ==
             (if m.kind == Some("SpeechStarted") || (m.alternative.Some? && text != "") then now else old(lastSpeechTime))
      ensures var start := old(currentLanguage);
        var observed := if m.alternative.Some? then ObservedLanguage(DetectedLanguage(m), start) else start;
        var tagged := m.kind == Some("Metadata") && Present(m.detectedLanguage) && m.detectedLanguage.value != start;
        && currentLanguage == (if tagged then m.detectedLanguage.value else observed)
        && detectedLanguages == old(detectedLanguages)
             + (if observed != start then {observed} else {})
             + (if tagged then {m.detectedLanguage.value} else {})
    {
      var start := currentLanguage;
      if m.alternative.Some? {
        OnResult(m.alternative.value, m.isFinal, DetectedLanguage(m), correction, terms, now, freshId);
      }
      ObserveMetadata(m, start);
      if m.kind == Some("SpeechStarted") {
        lastSpeechTime := now;
      }
    }
  }
}
