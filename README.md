# interpret-med transcript assembler, in Dafny

interpret-med is a live transcription page for medical interpreters. Speech-recognition
results arrive over a stream. Interim results show up as a caption. Each final result is first
sent to a correction endpoint, which asks a language model to fix medical terminology. It is
then either appended to the last transcript card or filed as a new card. The corrected text is
also sent to a definitions endpoint, and the medical terms it returns are collected in a
glossary. When that endpoint fails, the page falls back to a small keyword list.

This project models that core and proves properties of it:

- `seqs.dfy` (`Seqs`): `Option`, and the JavaScript array operations the code relies on:
  `filter`, `map` and `slice(-n)`. Also subsequence and multiset facts about filtering.
- `text.dfy` (`Text`): `trim` with the full ECMAScript white-space set, ASCII `toLowerCase`,
  `split(/\s+/)`, `join`, and a one-character `split`.
- `json.dfy` (`Json`): JSON values and JavaScript truthiness.
- `transcripts.dfy` (`Transcripts`): the pure decisions of `pages/index.tsx`. These are
  language resolution, merge-or-append, the correction context, the glossary merges, deletion
  and language labels.
- `sessions.dfy` (`Sessions`): the page state as a class `Session`. Its fields are the
  cards, the glossary, the caption and the language bookkeeping. Its methods are the event
  handlers, one atomic step per event. A ghost invariant records, for every card, the
  utterances merged into it. It states that each card's texts are exactly their space-joined
  merge, and that card ids are distinct.
- `definitions.dfy` (`DefinitionsApi`): the `pages/api/medical-definitions.ts` handler.
- `correction.dfy` (`CorrectionApi`): the `pages/api/medical-correction.ts` handler.
- `pipeline.dfy` (`Pipeline`): the page and the two endpoints together. It covers the request
  bodies, how the page reads the answers, and end-to-end statements about correction and term
  extraction.

The model takes as inputs what the code gets from outside:

- the current time and a fresh card id;
- the outcome of each service call;
- the configured API key;
- `JSON.parse`, as a function that may fail.

## Model

| member | source | states |
|---|---|---|
| Transcripts.FirstPresent | pages/index.tsx:293-298 | The `a \|\| b \|\| ... \|\| fallback` chain yields the first present (non-empty) candidate, or the fallback when none is present |
| Transcripts.ResolvedLanguage | pages/index.tsx:293-318 | A final result is filed under the first present of the five language fields, in source order, unless that tag is "multi"; otherwise under the session language, or "unknown" when there is none |
| Transcripts.FinalLanguage | pages/index.tsx:318 | The detected tag unless it is "multi", else the current language, else "unknown"; never empty |
| Transcripts.FinalLanguageAfterObserving | pages/index.tsx:307-318 | Recording the detected language as the session language does not change the language the result is filed under |
| Transcripts.AppendUtterance | pages/index.tsx:337-352 | Appending keeps the card's id, language and final flag; `isCorrected` never goes back to false; confidence is the larger of the two |
| Transcripts.MergeFinalAppends | pages/index.tsx:330-354 | When the merge condition holds, the card count is unchanged, all cards before the last are untouched, and the last card gets both texts extended, `isCorrected` or-ed, the maximum confidence, the new timestamp and the same id |
| Transcripts.MergeFinalCreates | pages/index.tsx:355-366 | Otherwise exactly one card is added at the end with the fresh id, the corrected and original texts, final, in the utterance's language, with the utterance's confidence, timestamped now, corrected exactly when correction changed the text |
| Transcripts.NewCardRepresents | pages/index.tsx:357-366 | A new card is the merge of its single utterance |
| Transcripts.AppendRepresents | pages/index.tsx:342-348 | Appending an utterance to a card that merges some utterances gives a card that merges them followed by the new one: both texts are the space-joins and `isCorrected` holds exactly when some utterance was changed |
| Transcripts.UncorrectedShowsOriginal | pages/index.tsx:342-348 | A merged card not marked corrected shows exactly its recognised text |
| Transcripts.CorrectionContext | pages/index.tsx:175-177 | At most five entries, one per card among the last five, in order |
| Transcripts.ContextIsDisplayedText | pages/index.tsx:175-177 | For cards built by merging, every context entry is the text the card displays |
| Transcripts.ContextEntryIsTranscript | pages/index.tsx:177 | The `isCorrected ? transcript : originalTranscript \|\| transcript` entry of a merged card equals its displayed text |
| Transcripts.CorrectionRequestFor | pages/index.tsx:167-192 | No request exactly for blank text; otherwise the text, the user-selected language, and as context the displayed text of each of the last five cards, in order |
| Transcripts.CorrectedText | pages/index.tsx:167-208 | Blank text comes back unchanged; for other text, a reply with a non-empty `correctedText` yields exactly that text, and every other outcome (error status, missing or empty field) yields the original; a non-empty text never becomes empty |
| Transcripts.MergeServiceTermsSpec | pages/index.tsx:143-154 | The glossary keeps its entries and appends, in service order, exactly the terms whose lower-case form is not already known and not a generic word and whose length exceeds three, each as often as sent |
| Transcripts.TermKeptOnceAcrossReplies | pages/index.tsx:143-154 | The same term (up to case) in two successive replies ends up in the glossary once |
| Transcripts.DuplicatesWithinReplyKept | pages/index.tsx:143-154 | Deduplication is only against earlier entries: the same term twice in one reply is kept twice |
| Transcripts.MergeFallbackTermsSpec | pages/index.tsx:116-134 | After a failed request the glossary keeps its entries and appends exactly the placeholders of the white-space-separated words of the lower-cased text that are keywords not already known, in text order, once per occurrence; a new keyword gets a placeholder exactly when it occurs in the lower-cased text as a whole word |
| Transcripts.KeywordsAreWords | pages/index.tsx:119 | Every keyword is a non-empty string without white space, so it can appear as a word |
| Transcripts.TermsAfterExtraction | pages/index.tsx:86-164 | Extraction only appends to the glossary; blank text or a request that threw changes nothing; an error status gives the keyword fallback; a reply gives the service merge of its list (none when the list is missing) |
| Transcripts.WithoutCardSpec | pages/index.tsx:42-44 | Deleting a card id removes exactly the cards with that id, keeps the rest in order with their multiplicities, and keeps ids distinct |
| Transcripts.WithoutTermSpec | pages/index.tsx:52-54 | Deleting a term removes exactly the entries with that exact-case term and keeps the rest in order with their multiplicities |
| Transcripts.LanguageDisplay | pages/index.tsx:57-83 | The label of one of the 21 known codes, or the code itself with a globe flag |
| Sessions.MergeFinalKeepsFiled | pages/index.tsx:326-368 | Filing a final utterance keeps ids distinct and keeps every card the exact merge of its utterances |
| Sessions.AppendKeepsFiled | pages/index.tsx:335-354 | The append branch keeps that invariant |
| Sessions.NewCardKeepsFiled | pages/index.tsx:355-367 | The new-card branch keeps that invariant, given an id never handed out before |
| Sessions.Session.constructor | pages/index.tsx:24-33 | The page starts not recording, with no cards, no terms, no caption, no current or detected language, speech time 0, English selected, and no card id handed out |
| Sessions.Session.OnInterim | pages/index.tsx:375-377 | An interim result replaces the caption and the last speech time |
| Sessions.Session.ObserveLanguage | pages/index.tsx:306-311 | A real (non-"multi") tag that differs from the current language becomes current and joins the languages seen |
| Sessions.Session.ObserveMetadata | pages/index.tsx:382-390 | A metadata message with a language that differs from the language the message handler started with sets it, "multi" included, and records it |
| Sessions.Session.FileUtterance | pages/index.tsx:326-368 | The cards become the merge of the old cards with the utterance, the fresh id is recorded as used, and every card stays the exact merge of its utterances with distinct ids |
| Sessions.Session.OnFinal | pages/index.tsx:313-374 | A final result sends the correction request built from the cards before it (none for blank text) and files the corrected text under the resolved language; the caption is cleared, the speech time updated, the fresh id recorded, and the card invariant kept |
| Sessions.Session.ExtractMedicalTerms | pages/index.tsx:86-164 | The glossary becomes the result of the extraction for the request's outcome |
| Sessions.Session.DeleteTranscript | pages/index.tsx:42-44 | Removes the cards with that id and keeps the card invariant |
| Sessions.Session.ClearAllTranscripts | pages/index.tsx:46-49 | Empties the card list and nothing else |
| Sessions.Session.ClearMedicalTerms | pages/index.tsx:733-737 | The glossary's "Clear All" button empties the glossary and nothing else |
| Sessions.Session.DeleteMedicalTerm | pages/index.tsx:51-54 | Removes the glossary entries with that term |
| Sessions.Session.StopRecording | pages/index.tsx:498-501 | Recording stops; the caption and the current language are cleared and the speech time reset |
| Sessions.Session.OnOpen | pages/index.tsx:266-268 | Opening the stream sets the recording flag |
| Sessions.Session.OnClose | pages/index.tsx:410-418 | Closing the stream clears the recording flag |
| Sessions.Session.SelectLanguage | pages/index.tsx:550-569 | A language button selects its language unless recording is under way, when the selection stays; the selection is always one of en, es and zh |
| Sessions.Session.OnResult | pages/index.tsx:288-380 | The result's language is observed, and a language joins those seen exactly when it becomes current; a final non-empty transcript is filed with its corrected text, uses the fresh id and drives a glossary update on that text; an interim one sets the caption; a non-empty one sets the speech time; otherwise cards, glossary, ids and caption are unchanged |
| Sessions.Session.OnMessage | pages/index.tsx:284-401 | A result is handled as by `OnResult`; the result's tag and a metadata tag are both compared with the language the handler started with, and when both differ from it the metadata tag, set last, becomes current; every language set this way is recorded; a `SpeechStarted` message sets the speech time; cards, glossary and ids change only for a final non-empty result, and the selected language and recording flag never change |
| Text.Trim | pages/index.tsx:87 | The trimmed text is the part of the text between a white-space-only prefix and a white-space-only suffix, and when non-empty starts and ends with a character other than white space |
| Text.TrimSpec | pages/index.tsx:87 | The trimmed text is empty exactly when the text consists of white space only |
| Text.SplitWhitespaceSound | pages/index.tsx:118 | The pieces of `split(/\s+/)` contain no white space and together are the text with its white space removed |
| Text.SplitWhitespaceWords | pages/index.tsx:118 | A non-empty string without white space is one of the pieces of `split(/\s+/)` exactly when it occurs in the text as a whole word |
| Text.SplitOnJoin | pages/api/medical-correction.ts:133 | Splitting on a separator undoes joining with it when no piece contains it |
| DefinitionsApi.ArraySpan | pages/api/medical-definitions.ts:109-110 | The regular-expression match runs from the first `[` to the last `]`, and there is none exactly when no `]` follows a `[` |
| DefinitionsApi.JsonText | pages/api/medical-definitions.ts:108-114 | The parsed text is the bracketed match when there is one, else the whole reply |
| DefinitionsApi.ValidDefinitionsSpec | pages/api/medical-definitions.ts:126-135 | The filter keeps exactly the entries whose term, definition and example are non-blank strings, in order, each as often as sent |
| DefinitionsApi.HandleDefinitions | pages/api/medical-definitions.ts:15-146 | 405 exactly for a non-POST method; then 400 exactly for a missing or non-string or empty text; every error carries an empty list and a message; 200 exactly when the key is set and the reply parses to an array, and then every entry is valid |
| DefinitionsApi.DefinitionsOnSuccess | pages/api/medical-definitions.ts:95-137 | A reply that parses to an array is answered with exactly its valid entries |
| CorrectionApi.LanguageDescription | pages/api/medical-correction.ts:86-108 | The name of one of the 17 listed codes, an unlisted non-empty code itself, and "English" for the empty code |
| CorrectionApi.ContextText | pages/api/medical-correction.ts:131-134 | Empty for missing or empty context; otherwise the header, the entries and a closing blank line |
| CorrectionApi.ContextTextLines | pages/api/medical-correction.ts:132-134 | For a non-empty context whose entries contain no newline, the lines between the header and the blank line are exactly the last five context entries |
| CorrectionApi.ChooseCorrection | pages/api/medical-correction.ts:207 | The trimmed reply when it is not blank, else the input text; a truthy text stays truthy |
| CorrectionApi.HandleCorrection | pages/api/medical-correction.ts:110-222 | 405 for a non-POST method, then 500 for a missing key, then 400 for a falsy text, in that order; 200 exactly when the model call returns, with the original text, the chosen correction and the language; a failing call returns the text as fallback |
| Pipeline.CorrectionReplyOf | pages/index.tsx:194-200 | A status outside 200-299 reads as unavailable; otherwise the `correctedText` field is read exactly when the endpoint answered with a string there, and it is that string |
| Pipeline.CorrectionEndToEnd | pages/index.tsx:167-208 | A non-blank utterance comes back as the model's trimmed reply when the key is set and the reply is not blank, and unchanged otherwise |
| Pipeline.PromptListsPageContext | pages/api/medical-correction.ts:132-134 | When no card's context entry contains a newline, the prompt's context block lists exactly the context the page sent (nothing for no cards); the endpoint's own five-entry limit removes nothing |
| Pipeline.TermOf | pages/index.tsx:141-150 | A valid definition becomes the entry with exactly its term, definition and example, which are non-blank; a string category is copied as is |
| Pipeline.TermsReplyOf | pages/index.tsx:112-142 | A status outside 200-299 reads as an error status; otherwise the list of definitions, entry by entry converted by `TermOf` |
| Pipeline.ExtractionEndToEnd | pages/index.tsx:86-164 | Extraction only appends, and nothing for blank text; after a successful answer the added entries are exactly the new, non-generic ones among the endpoint's valid definitions, each complete; after a failed one the glossary is the keyword fallback and every added entry is the placeholder of a new keyword |

## Left out

- Audio capture, the WebSocket to the recogniser, keepalive timers, React effects, scrolling
  and rendering: input/output and user interface with no decision logic.
- The server relays and credential endpoints (`server.js`, `pages/api/socket.ts`,
  `pages/api/deepgram-proxy.ts`, `pages/api/deepgram.ts`, `pages/api/test-deepgram.ts`,
  `pages/api/transcribe.ts`): input/output only.
- The calls to the language model and `fetch`: their outcomes are inputs
  (`CorrectionReply`, `TermsReply`, `Completion`, `CorrectionCompletion`).
- `JSON.parse`: a parameter that may fail.
- `Date.now()` and `Math.random()`: the time and the fresh card id are parameters.
  `Session.OnFinal` requires an id never handed out before.
- Session.OnMessage: the asynchronous interleaving of several pending corrections, and the
  stale values of `transcript` and `currentLanguage` captured when recording started, are
  not modelled. Each handler runs as one atomic step on the current state.
- The prompt texts and the model options: constant strings with no behaviour.
- The `error` and `isProcessingTerms` flags: display state only.
- Text.Lower: `toLowerCase` is modelled on the ASCII letters only.
- Transcripts.IsNewServiceTerm: the `length > 3` test counts characters, not UTF-16 code units.
- Confidences and timestamps are real numbers and integers, without floating-point rounding.
- CorrectionApi.LanguageDescription and Transcripts.LanguageDisplay: a code that names an
  inherited object property (such as `constructor`) is treated as unknown.
- Pipeline.CorrectionReplyOf: a `correctedText` that is not a string reads as missing.
  The endpoint only ever answers with a string for the page's requests.
- Pipeline.TermOf: a `category` that is not a string becomes the empty string.
- A request body that is missing altogether is not modelled: the handlers receive a body.
- Splicing a late correction into a card that has already been merged, merging cards, and
  editing a card: the code has no such operations. The correction is awaited before the
  merge, and `clearAllTranscripts` only empties the card list.
