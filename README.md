# Morse translator core, in Dafny

This project models the core of a Morse code translator: a TypeScript backend with a small React
front end. The Dafny model covers five parts.

- **The Morse translator service** (`morseTranslatorService.ts`):
  - `initializeSystem` checks the three tables and builds the reverse dictionaries.
  - `normalizeText` upper-cases text and folds accents through NORMALIZATION_MAP.
  - `validateCharacters` checks the text against SUPPORTED_CHARACTERS.
  - `translateToMorse` turns words into codes joined by " " and words joined by " | ".
  - `normalizeMorseCode` is the five-step regular-expression clean-up of Morse input.
  - `translateFromMorse` decodes through the reverse dictionary, then the fallback one. An
    unknown code becomes "[?]" and is counted.
  - The two entry points `translateTextToMorse` and `translateMorseToText`, plus `getSystemStatus`.
- **The three tables**: MORSE_DICTIONARY (51 keys, by ITU-R M.1677-1), NORMALIZATION_MAP (48
  accented letters) and SUPPORTED_CHARACTERS (100 entries).
- **The input-validation service** (`inputValidationService.ts`):
  - A module-wide state with one slot per field (FC-001 text, FC-002 Morse, FC-003 sequence) and
    one derived active error, `erro_ativo`.
  - The text, Morse and sequence checks, and the Zod request schemas.
- **The front end's Zod schemas**: `morse-decoding.ts`, `sequence.ts`, `text-field.ts` and
  `morse-field.ts`.
- **The InitExample module**: the in-memory store (a `Map` plus an id counter), the CRUD service,
  its schemas and its constants.

## How the model is built

Pure code is written as functions:
- one string function per regular-expression step, in `js_string.dfy` and
  `morse_normalization.dfy`;
- `Split` and `Join` with JavaScript's semantics;
- the Zod schemas as functions from the parsed fields to a result.

Code that loops or changes state is written as methods, each proved equal to a specification
function:
- `NormalizeText`, `ValidateCharacters`, `WordToMorse`/`TranslateToMorse`,
  `TranslateCodes`/`TranslateWords`/`TranslateFromMorse`;
- the `MorseTranslatorService`, `InputValidationService` and `InitExampleStore.Store` classes,
  whose fields are the source's module-level variables or private fields.

A JSON request body is a record of Options: `None` means the field is missing or has the wrong
JSON type. The clock (`Date.now`, `new Date().toISOString()`) is passed in as a parameter.

What is proved, besides each operation's own contract:
- **Tables.** MORSE_DICTIONARY is injective: a Morse-tree decoder, independent of the table,
  inverts it. NORMALIZATION_MAP folds into dictionary keys only, so applying its entries in any
  order gives the same result.
- **Normalization.** `normalizeMorseCode` always returns canonical Morse text: dots and dashes,
  one space between codes, " | " between words, nothing at either end. It is idempotent and the
  identity on canonical text.
- **Round trip.** Decoding a translation gives back the normalized text with its whitespace
  collapsed and trimmed, with no invalid code.
- **Service outcomes.** For both entry points, the exact conditions for success and for each
  error.
- **Decoding.** `invalidCount` equals the number of "[?]" placeholders.
- **Input validation.** How `erro_ativo` is resolved. The fact that every translation of two or
  more words fails the server's sequence check.
- **Front end versus back end.** Where the client schemas and the server disagree: whitespace,
  fractional counts, repeated separators, a leading space.

Where the specification of the system and the code disagree, the model follows the code:

- **Active-error priority.** `updateValidationState` stamps every active slot with the priority
  of the current call (`prioridade: errorPriority`, inputValidationService.ts:110). The per-slot
  state stores no priority. So an FC-001 error at priority 1 followed by a later FC-002 error at
  priority 3 leaves FC-002 active, at priority 3: the most recent error wins, not the
  highest-priority one. `LatestErrorWins` proves this. The specification says the priority-1
  error should stay active.
- **Limit check.** The text and Morse checks compare the caller's `currentLength`, not the length
  of the string, against 1000 (`LimitExactlyAtMaximum`).
- **Pipe clean-up.** The last step of `normalizeMorseCode` trims whitespace, then removes one pipe
  and its adjacent whitespace at each end. It does not strip every trailing run of whitespace and
  pipes. The model keeps this and proves the output canonical all the same.
- **Sequence check on canonical Morse.** The server's sequence check rejects canonical Morse with
  a word separator, such as "... | .-.", under SPACE_ADJACENT_PIPE (`CanonicalSequenceIssue`).
- **The "22 special characters" comment.** The comment above TEXT_ALLOWED_CHARS
  (inputValidationService.ts:42) says 22, but the class and SPECIAL_CHARS_LIST hold 18
  (`SpecialsExact`).

## Model

| member | source | states |
|---|---|---|
| MorseDictionary.TreeDecode | backend/src/constants/morseTranslator/morseDictionary.ts:16-73 | The Morse code tree used as an independent inverse: a path of dots (left) and dashes (right) of at most six steps names the character at that node. |
| MorseDictionary.CodeDecodes | backend/src/constants/morseTranslator/morseDictionary.ts:16-73 | For every key of MORSE_DICTIONARY, walking the tree along its code gives the key back, so the table agrees with the ITU tree. |
| MorseDictionary.LetterDecodes | backend/src/constants/morseTranslator/morseDictionary.ts:17-43 | Each of the 26 letter codes leads to its letter in the tree. |
| MorseDictionary.DigitDecodes | backend/src/constants/morseTranslator/morseDictionary.ts:45-55 | Each of the 10 figure codes leads to its figure in the tree. |
| MorseDictionary.PunctuationDecodes | backend/src/constants/morseTranslator/morseDictionary.ts:57-72 | Each of the 15 punctuation codes leads to its mark in the tree. |
| MorseDictionary.CodeWellFormed | backend/src/constants/morseTranslator/morseDictionary.ts:16-73 | Every code is a non-empty string of at most six dots and dashes. |
| MorseDictionary.CodesInjective | backend/src/constants/morseTranslator/morseDictionary.ts:16-73 | No two keys share a code, so the reverse dictionary loses nothing. |
| MorseDictionary.NoLowercaseKeys | backend/src/constants/morseTranslator/morseDictionary.ts:17-43 | No lowercase ASCII letter is a key; text must be upper-cased first. |
| MorseDictionary.KeysExact | backend/src/constants/morseTranslator/morseDictionary.ts:16-73 | The keys `Object.keys` lists are exactly the characters that have a code. |
| MorseDictionary.KeyCount | backend/src/constants/morseTranslator/morseDictionary.ts:16-73 | 51 distinct keys: 26 letters, 10 figures and 15 punctuation marks. |
| MorseDictionary.EntriesExact | backend/src/constants/morseTranslator/morseDictionary.ts:16-73 | An entry that `Object.entries` lists pairs a key with its code, and every key has its entry. |
| NormalizationMap.KeysExact | backend/src/constants/morseTranslator/normalizationMap.ts:15-69 | The keys are exactly the accented characters the map folds. |
| NormalizationMap.KeyCount | backend/src/constants/morseTranslator/normalizationMap.ts:15-69 | 48 distinct keys. |
| NormalizationMap.FoldedPlain | backend/src/constants/morseTranslator/normalizationMap.ts:15-69 | Every value is one of A, E, I, O, U, C and N. |
| NormalizationMap.FoldedIsMorseKey | backend/src/constants/morseTranslator/normalizationMap.ts:15-69 | Every value is a key of MORSE_DICTIONARY, so a folded letter always has a code. |
| NormalizationMap.FoldedIsNotKey | backend/src/constants/morseTranslator/normalizationMap.ts:15-69 | No value is itself a key, so folding twice is folding once. |
| NormalizationMap.KeysNotInDictionary | backend/src/constants/morseTranslator/normalizationMap.ts:15-69 | No accented key has a Morse code of its own. |
| NormalizationMap.BothCases | backend/src/constants/morseTranslator/normalizationMap.ts:16-63 | Each accented vowel is in the map in both cases with the same value. |
| SupportedCharacters.Exact | backend/src/constants/morseTranslator/supportedCharacters.ts:21-25 | `includes(c)` holds exactly for dictionary keys, normalization keys and the space. |
| SupportedCharacters.Count | backend/src/constants/morseTranslator/supportedCharacters.ts:21-25 | The list has 51 + 48 + 1 = 100 entries, so it is never empty. |
| SupportedCharacters.NoLowercase | backend/src/constants/morseTranslator/supportedCharacters.ts:21-25 | No lowercase ASCII letter is supported. |
| SupportedCharacters.NoAmpersandUnderscoreDollar | backend/src/constants/morseTranslator/supportedCharacters.ts:21-25 | '&', '_' and '$' are not supported, although the text-field check admits them. |
| MorseTranslatorValidation.LengthFieldOutcomes | backend/src/services/morseTranslator/morseTranslatorValidation.ts:19-34 | A field passes exactly when it is a string of 1 to 1000 characters and is handed on unchanged; a refused one gets the message of the bound it breaks. |
| MorseTranslatorValidation.TextAccepted | backend/src/services/morseTranslator/morseTranslatorValidation.ts:19-24 | `translateTextSchema` accepts exactly a text of 1 to 1000 characters. |
| MorseTranslatorValidation.MorseAccepted | backend/src/services/morseTranslator/morseTranslatorValidation.ts:29-34 | `translateMorseSchema` accepts exactly 1 to 1000 characters of any kind, whitespace-only Morse included. |
| MorseText.ApplyEntriesFolds | backend/src/services/morseTranslator/morseTranslatorService.ts:150-152 | Whatever the order of the entries, replacing each key by its value maps each key to its value and leaves every other character alone. |
| MorseText.EntryOrderIrrelevant | backend/src/services/morseTranslator/morseTranslatorService.ts:150-152 | Two key lists with the same members give the same text, so the iteration order of `Object.entries` does not matter. |
| MorseText.NormalizeText | backend/src/services/morseTranslator/morseTranslatorService.ts:146-155 | The loop over the entries returns the normal form: the upper-cased text with each accented key replaced by its plain letter. |
| MorseText.EntriesStep | backend/src/services/morseTranslator/morseTranslatorService.ts:150-152 | One more loop iteration is one more replacement pass. |
| MorseText.AllEntriesNormalize | backend/src/services/morseTranslator/morseTranslatorService.ts:146-155 | All entries of NORMALIZATION_MAP applied to upper-cased text give its normal form, character by character. |
| MorseText.NormalCharPlain | backend/src/services/morseTranslator/morseTranslatorService.ts:146-155 | A normalized character is neither a lowercase ASCII letter nor an accented key. |
| MorseText.NormalFormPlain | backend/src/services/morseTranslator/morseTranslatorService.ts:146-155 | Normalized text holds no lowercase ASCII letter and no key of NORMALIZATION_MAP. |
| MorseText.NormalFormIdempotent | backend/src/services/morseTranslator/morseTranslatorService.ts:146-155 | Normalizing twice is normalizing once. |
| MorseText.NormalFormExample | backend/src/services/morseTranslator/morseTranslatorService.ts:142-144 | 'Olá Mundo!' normalizes to 'OLA MUNDO!'. |
| MorseText.CharacterCheckMeaning | backend/src/services/morseTranslator/morseTranslatorService.ts:174-184 | The check reports nothing exactly when every character is the space or supported, and otherwise a VALIDATION_ERROR for an unsupported character of the text. |
| MorseText.CharacterCheckFirst | backend/src/services/morseTranslator/morseTranslatorService.ts:175-182 | The reported character is the first unsupported one: every character before it is supported. |
| MorseText.ValidateCharacters | backend/src/services/morseTranslator/morseTranslatorService.ts:174-184 | The scanning loop stops at the first unsupported character and returns exactly what the check specifies. |
| MorseText.SupportedNormalHasCode | backend/src/services/morseTranslator/morseTranslatorService.ts:383-386 | In normalized text a supported character is the space or has a Morse code; supported accented keys never survive normalization. |
| MorseText.OtherWhitespaceUnsupported | backend/src/services/morseTranslator/morseTranslatorService.ts:176 | Every whitespace character except the space (tab, line breaks, no-break space, the Unicode spaces) is rejected. |
| MorseEncoding.WordToMorse | backend/src/services/morseTranslator/morseTranslatorService.ts:212-228 | The inner loop returns the codes of the word's characters, or the TRANSLATION_ERROR of the first character without a code. |
| MorseEncoding.WordsToMorse | backend/src/services/morseTranslator/morseTranslatorService.ts:211-229 | The outer loop returns each word's codes joined by " ", or the error of the first word that fails. |
| MorseEncoding.TranslateToMorse | backend/src/services/morseTranslator/morseTranslatorService.ts:200-232 | Returns the encoding of the text: VALIDATION_ERROR for blank text, otherwise the Morse words joined by " \| " or the first error. |
| MorseEncoding.LetterCodesMeaning | backend/src/services/morseTranslator/morseTranslatorService.ts:214-226 | A word's codes are the dictionary entries of its characters, one per character; the lookup fails exactly when a character has no entry, naming the first. |
| MorseEncoding.WordCodesMeaning | backend/src/services/morseTranslator/morseTranslatorService.ts:211-229 | The Morse words are the joined codes of the words, one per word; the lookup fails exactly when some word fails, with the first such word's error. |
| MorseEncoding.CleanedShape | backend/src/services/morseTranslator/morseTranslatorService.ts:202 | The cleaned text has only single spaces as whitespace, never two in a row, and none at either end. |
| MorseEncoding.CleanedKeeps | backend/src/services/morseTranslator/morseTranslatorService.ts:202 | Cleaning keeps exactly the non-whitespace characters of the text. |
| MorseEncoding.WordsShape | backend/src/services/morseTranslator/morseTranslatorService.ts:208 | The words of non-blank text are non-empty and hold no space. |
| MorseEncoding.WordsChars | backend/src/services/morseTranslator/morseTranslatorService.ts:208 | A character is in some word exactly when it is a non-whitespace character of the text. |
| MorseEncoding.WordsEncodable | backend/src/services/morseTranslator/morseTranslatorService.ts:208-229 | The words of non-blank text translate exactly when every non-whitespace character has a code. |
| MorseEncoding.WordsError | backend/src/services/morseTranslator/morseTranslatorService.ts:217-223 | When the words do not translate, the error names a character of the text that has no code. |
| MorseEncoding.EncodingOutcomes | backend/src/services/morseTranslator/morseTranslatorService.ts:200-232 | VALIDATION_ERROR exactly for blank text; a translation exactly when the text is not blank and every non-whitespace character has a code; otherwise TRANSLATION_ERROR naming such a character. |
| MorseEncoding.CodeCanonical | backend/src/constants/morseTranslator/morseDictionary.ts:16-73 | Each dictionary code is canonical Morse on its own. |
| MorseEncoding.JoinCanonical | backend/src/services/morseTranslator/morseTranslatorService.ts:228-231 | Non-empty canonical pieces joined by " " or " \| " are non-empty and canonical. |
| MorseEncoding.MorseWordShape | backend/src/services/morseTranslator/morseTranslatorService.ts:228 | A word's Morse is canonical and has no pipe. |
| MorseEncoding.EncodingCanonical | backend/src/services/morseTranslator/morseTranslatorService.ts:200-232 | Every translation is canonical Morse, so `normalizeMorseCode` gives it back unchanged. |
| MorseEncoding.SeparatorCount | backend/src/services/morseTranslator/morseTranslatorService.ts:231 | Pipe-free pieces that start and end with a dot or dash, joined by " \| ", contain one separator fewer than there are pieces. |
| MorseEncoding.EncodingSeparators | backend/src/services/morseTranslator/morseTranslatorService.ts:208-231 | A translation contains exactly one " \| " fewer than the text has words. |
| MorseEncoding.EncodingOfWords | backend/src/services/morseTranslator/morseTranslatorService.ts:228-231 | Text whose words all have codes translates to their Morse words joined by " \| ". |
| MorseEncoding.EncodingExample | backend/src/services/morseTranslator/morseTranslatorService.ts:196-198 | 'HELLO WORLD' translates to '.... . .-.. .-.. --- \| .-- --- .-. .-.. -..'. |
| MorseNormalization.StripInvalid | backend/src/services/morseTranslator/morseTranslatorService.ts:250 | Only dots, dashes, whitespace and pipes remain, every such character is kept, and a string of them is returned unchanged. |
| MorseNormalization.CanonicalShape | backend/src/services/morseTranslator/morseTranslatorService.ts:248-265 | What canonical text is character by character: dots, dashes, spaces and pipes; a dot or dash at both ends; no double space; every pipe the middle of " \| " between dots or dashes. |
| MorseNormalization.CanonicalEnds | backend/src/services/morseTranslator/morseTranslatorService.ts:262 | Non-empty canonical text starts and ends with a dot or dash. |
| MorseNormalization.CanonicalAppend | backend/src/services/morseTranslator/morseTranslatorService.ts:248-265 | Two non-empty canonical texts around " " or " \| " make canonical text. |
| MorseNormalization.NormalizedIsCanonical | backend/src/services/morseTranslator/morseTranslatorService.ts:248-265 | For every input, the five steps produce canonical Morse text. |
| MorseNormalization.NormalizeCanonical | backend/src/services/morseTranslator/morseTranslatorService.ts:248-265 | Canonical text passes through unchanged. |
| MorseNormalization.NormalizeIdempotent | backend/src/services/morseTranslator/morseTranslatorService.ts:248-265 | Normalizing twice is normalizing once. |
| MorseNormalization.SpacePipesCanonical | backend/src/services/morseTranslator/morseTranslatorService.ts:256 | The pipe-spacing step is the identity on canonical text. |
| MorseNormalization.MergeSeparatorsCanonical | backend/src/services/morseTranslator/morseTranslatorService.ts:259 | The separator-merging step is the identity on canonical text. |
| MorseNormalization.FirstStepsCanonical | backend/src/services/morseTranslator/morseTranslatorService.ts:250-253 | Stripping and collapsing whitespace leave canonical text alone. |
| MorseNormalization.LastStepsCanonical | backend/src/services/morseTranslator/morseTranslatorService.ts:262 | Trimming and removing edge pipes leave canonical text alone. |
| MorseNormalization.NormalizeBlank | backend/src/services/morseTranslator/morseTranslatorService.ts:248-265 | Whitespace-only Morse normalizes to the empty string. |
| MorseNormalization.LoneSpace | backend/src/services/morseTranslator/morseTranslatorService.ts:262 | A lone space normalizes to nothing. |
| MorseNormalization.LoneSeparator | backend/src/services/morseTranslator/morseTranslatorService.ts:262 | A lone " \| " normalizes to nothing: the trim and the edge-pipe pattern remove it. |
| MorseNormalization.SeparatorRun | backend/src/services/morseTranslator/morseTranslatorService.ts:253 | A pipe between two runs of whitespace collapses to a pipe between single spaces. |
| MorseNormalization.NormalizeSpacedSeparator | backend/src/services/morseTranslator/morseTranslatorService.ts:248-265 | Two canonical words around a pipe padded by double spaces normalize to the words around " \| ". |
| MorseNormalization.NormalizeExample | backend/src/services/morseTranslator/morseTranslatorService.ts:244-246 | '... --- ...  \|  .... . .-.. .-.. ---' normalizes to '... --- ... \| .... . .-.. .-.. ---'. |
| JsString.Trim | backend/src/services/morseTranslator/morseTranslatorService.ts:202 | `trim()`: the result has no edge whitespace and is the middle of the string between its leading and trailing runs. |
| JsString.CollapseWhitespace | backend/src/services/morseTranslator/morseTranslatorService.ts:253 | `replace(/\s+/g, ' ')`: only single spaces as whitespace, never two in a row, nothing new, no longer, empty only for empty input. |
| JsString.CollapseKeeps | backend/src/services/morseTranslator/morseTranslatorService.ts:253 | Collapsing keeps every non-whitespace character. |
| JsString.CollapseUnchanged | backend/src/services/morseTranslator/morseTranslatorService.ts:253 | Text whose only whitespace is single spaces is left unchanged. |
| JsString.CollapseAppend | backend/src/services/morseTranslator/morseTranslatorService.ts:253 | When the first part ends in a non-whitespace character, collapsing a concatenation collapses each part separately. |
| JsString.Split | backend/src/services/morseTranslator/morseTranslatorService.ts:286 | `split(sep)`: never empty; the pieces contain no separator and are found left to right. |
| JsString.JoinOfSplit | backend/src/services/morseTranslator/morseTranslatorService.ts:286 | Joining the split pieces with the same separator gives the original string. |
| JsString.SplitOfJoin | backend/src/services/morseTranslator/morseTranslatorService.ts:286 | Marked parts (none contains a character that occurs only once in the separator) split back out of their join. |
| JsString.JoinMembers | backend/src/services/morseTranslator/morseTranslatorService.ts:228 | A character outside the separator is in the join exactly when it is in one of the parts. |
| JsString.SplitPieces | backend/src/services/morseTranslator/morseTranslatorService.ts:208 | Splitting at a character the string neither starts nor ends with and never doubles gives non-empty pieces free of it. |
| JsString.OccurrencesAppend | backend/src/services/morseTranslator/morseTranslatorService.ts:322 | Occurrence counts add up over a concatenation when no occurrence spans the boundary. |
| MorseDecoding.FallbackAgrees | backend/src/services/morseTranslator/morseTranslatorService.ts:40-77 | FALLBACK_DICTIONARY has exactly the letters and figures, with the same codes as MORSE_DICTIONARY. |
| MorseDecoding.FallbackEntriesExact | backend/src/services/morseTranslator/morseTranslatorService.ts:40-77 | An entry of the fallback table pairs a key with its code, and every key has its entry. |
| MorseDecoding.ReverseEntries | backend/src/services/morseTranslator/morseTranslatorService.ts:104-113 | The loop `REVERSE[morse] = char` leaves a code in the table exactly when some entry has it, mapped to that entry's character. |
| MorseDecoding.ReverseDictionaryExact | backend/src/services/morseTranslator/morseTranslatorService.ts:105-108 | REVERSE_MORSE_DICTIONARY holds exactly the dictionary's codes, each mapped to a character that has that code. |
| MorseDecoding.ReverseDecodes | backend/src/services/morseTranslator/morseTranslatorService.ts:105-108 | The reverse dictionary inverts the dictionary: a character's code gives the character back. |
| MorseDecoding.ReverseFallbackExact | backend/src/services/morseTranslator/morseTranslatorService.ts:110-113 | REVERSE_FALLBACK_DICTIONARY holds exactly the fallback codes, each mapped to a character with that code. |
| MorseDecoding.FallbackRedundant | backend/src/services/morseTranslator/morseTranslatorService.ts:302-305 | Every fallback code is already in the reverse dictionary, with the same character. |
| MorseDecoding.FallbackNeverUsed | backend/src/services/morseTranslator/morseTranslatorService.ts:300-305 | With the service's tables, a code the primary lookup misses is missed by the fallback too. |
| MorseDecoding.NoBracketValues | backend/src/services/morseTranslator/morseTranslatorService.ts:104-113 | No character of either reverse table is '['. |
| MorseDecoding.NonBlankMembers | backend/src/services/morseTranslator/morseTranslatorService.ts:295 | `filter(code => code.trim() !== '')` keeps exactly the non-blank pieces. |
| MorseDecoding.TranslateCodes | backend/src/services/morseTranslator/morseTranslatorService.ts:298-314 | The inner loop returns the text of the codes and the number of unresolved ones, as specified by the decoding function. |
| MorseDecoding.TranslateWord | backend/src/services/morseTranslator/morseTranslatorService.ts:290-318 | One iteration of the outer loop skips a blank word and otherwise decodes its non-blank codes. |
| MorseDecoding.TranslateWords | backend/src/services/morseTranslator/morseTranslatorService.ts:290-319 | The outer loop returns the decoded non-empty words and the total unresolved count. |
| MorseDecoding.TranslateFromMorse | backend/src/services/morseTranslator/morseTranslatorService.ts:281-325 | Blank input gives ('', 0); otherwise the result is the decoded words joined by spaces with their count, as specified by `Decoding`. |
| MorseDecoding.DecodePrefixIs | backend/src/services/morseTranslator/morseTranslatorService.ts:290-319 | Folding the first n words by index is decoding the first n words. |
| MorseDecoding.DecodeCodesMeaning | backend/src/services/morseTranslator/morseTranslatorService.ts:298-314 | At most one unresolved code per code; none exactly when every code resolves, and then the text is the codes' characters in order. |
| MorseDecoding.CodesEmpty | backend/src/services/morseTranslator/morseTranslatorService.ts:291-295 | A Morse word has no codes exactly when it is blank. |
| MorseDecoding.DecodeWordKept | backend/src/services/morseTranslator/morseTranslatorService.ts:291-318 | A word is left out of the text exactly when it is blank; a kept word's text is not empty. |
| MorseDecoding.DecodeWordsKept | backend/src/services/morseTranslator/morseTranslatorService.ts:290-319 | No word is decoded exactly when all are blank, and no decoded word is empty. |
| MorseDecoding.DecodingEmpty | backend/src/services/morseTranslator/morseTranslatorService.ts:281-325 | The text is empty exactly when the Morse is blank or all its " \| "-separated words are. |
| MorseDecoding.DecodingBound | backend/src/services/morseTranslator/morseTranslatorService.ts:307-313 | `invalidCount` is at most the number of codes. |
| MorseDecoding.PiecePlaceholders | backend/src/services/morseTranslator/morseTranslatorService.ts:307-313 | A code's piece holds a "[?]" exactly when the code is unresolved. |
| MorseDecoding.DecodeWordPlaceholders | backend/src/services/morseTranslator/morseTranslatorService.ts:290-318 | A word's text holds one "[?]" per unresolved code; a skipped word has none. |
| MorseDecoding.DecodingPlaceholders | backend/src/services/morseTranslator/morseTranslatorService.ts:281-325 | For tables without '[', `invalidCount` equals the number of "[?]" in the text. |
| MorseDecoding.ServicePlaceholders | backend/src/services/morseTranslator/morseTranslatorService.ts:281-325 | With the service's reverse tables, `invalidCount` equals the number of "[?]" in the text. |
| MorseRoundTrip.ReverseInverts | backend/src/services/morseTranslator/morseTranslatorService.ts:105-108 | REVERSE_MORSE_DICTIONARY resolves every dictionary code to its character. |
| MorseRoundTrip.LettersDecode | backend/src/services/morseTranslator/morseTranslatorService.ts:298-314 | Given a first table that inverts the dictionary, a word's codes decode back to the word. |
| MorseRoundTrip.LettersRoundTrip | backend/src/services/morseTranslator/morseTranslatorService.ts:298-314 | With the service's tables, a word's codes decode to the word, with nothing unresolved. |
| MorseRoundTrip.MorseWordCodes | backend/src/services/morseTranslator/morseTranslatorService.ts:295 | A word's Morse splits back into its codes. |
| MorseRoundTrip.MorseWordRoundTrip | backend/src/services/morseTranslator/morseTranslatorService.ts:290-318 | A word's Morse decodes to the word, with nothing unresolved. |
| MorseRoundTrip.WordsDecode | backend/src/services/morseTranslator/morseTranslatorService.ts:290-319 | The Morse words of non-empty words decode to those words, with nothing unresolved. |
| MorseRoundTrip.WordsRoundTrip | backend/src/services/morseTranslator/morseTranslatorService.ts:290-319 | The same for the service's reverse tables. |
| MorseRoundTrip.TranslationSplits | backend/src/services/morseTranslator/morseTranslatorService.ts:286 | A translation is not blank and splits at " \| " back into its Morse words. |
| MorseRoundTrip.RoundTripWith | backend/src/services/morseTranslator/morseTranslatorService.ts:281-325 | Given a first table that inverts the dictionary, a translation decodes to the cleaned text. |
| MorseRoundTrip.RoundTrip | backend/src/services/morseTranslator/morseTranslatorService.ts:281-325 | Decoding `translateToMorse(text)` gives the text with whitespace runs collapsed and trimmed, and no unresolved code. |
| MorseRoundTrip.RoundTripOf | backend/src/services/morseTranslator/morseTranslatorService.ts:281-325 | The round trip, stated for a given translation and cleaned text. |
| MorseRoundTrip.DecodingExample | backend/src/services/morseTranslator/morseTranslatorService.ts:277-279 | '.... . .-.. .-.. --- \| .-- --- .-. .-.. -..' decodes to ('HELLO WORLD', 0). |
| MorseTranslatorService.InitializedOutcomes | backend/src/services/morseTranslator/morseTranslatorService.ts:87-127 | Initialization succeeds exactly when all three tables are non-empty. The status is `sucesso` or `erro_critico`, and the system is ready exactly when it is `sucesso`. |
| MorseTranslatorService.RealTablesPass | backend/src/services/morseTranslator/morseTranslatorService.ts:89-102 | The real tables have 51, 48 and 100 entries, so initialization succeeds. |
| MorseTranslatorService.SupportedEncodable | backend/src/services/morseTranslator/morseTranslatorService.ts:383-389 | Normalized text that passes `validateCharacters` has a code for every non-space character, so `translateToMorse` cannot hit TRANSLATION_ERROR. |
| MorseTranslatorService.TextToMorseOutcomes | backend/src/services/morseTranslator/morseTranslatorService.ts:367-397 | SYSTEM_NOT_READY when not ready. VALIDATION_ERROR for a refused body. A valid text whose normal form has an unsupported character gets the VALIDATION_ERROR for the first such character; a supported but blank normal form gets the no-content VALIDATION_ERROR. Success exactly for 1 to 1000 characters whose normal form is supported and not blank, echoing text, normal form and length, with canonical Morse. Only these two error codes occur. |
| MorseTranslatorService.TextToMorseRefusals | backend/src/services/morseTranslator/morseTranslatorService.ts:367-389 | Every error case: not ready gives SYSTEM_NOT_READY; a refused body gives VALIDATION_ERROR; a normal form with an unsupported character gives the VALIDATION_ERROR for the first one; a supported blank normal form gives the no-content VALIDATION_ERROR. No other error code occurs. |
| MorseTranslatorService.TextToMorseAccepts | backend/src/services/morseTranslator/morseTranslatorService.ts:367-389 | Exactly which requests translate. |
| MorseTranslatorService.TextToMorseResponse | backend/src/services/morseTranslator/morseTranslatorService.ts:391-396 | The response carries the original text, its normal form, its length, and canonical Morse. |
| MorseTranslatorService.MorseToTextOutcomes | backend/src/services/morseTranslator/morseTranslatorService.ts:422-450 | SYSTEM_NOT_READY when not ready. Otherwise success exactly for 1 to 1000 characters, whatever the codes, echoing the Morse and its length, with canonical normalized Morse. Whitespace decodes to nothing. |
| MorseTranslatorService.MorseToTextRefusals | backend/src/services/morseTranslator/morseTranslatorService.ts:422-433 | Fails exactly when not ready (SYSTEM_NOT_READY) or the body is refused (VALIDATION_ERROR). |
| MorseTranslatorService.MorseToTextResponse | backend/src/services/morseTranslator/morseTranslatorService.ts:443-449 | An accepted response echoes the Morse and its length, and its normalized Morse is canonical. |
| MorseTranslatorService.MorseToTextBlank | backend/src/services/morseTranslator/morseTranslatorService.ts:422-450 | Accepted whitespace-only Morse gives empty normalized Morse, empty text and no invalid code. |
| MorseTranslatorService.MorseToTextDecoded | backend/src/services/morseTranslator/morseTranslatorService.ts:438-448 | The text and invalid count come from decoding the normalized Morse. |
| MorseTranslatorService.ServiceInvalidCount | backend/src/services/morseTranslator/morseTranslatorService.ts:441-448 | `invalidCodeCount` equals the number of "[?]" in `translatedText`. |
| MorseTranslatorService.ServiceRoundTrip | backend/src/services/morseTranslator/morseTranslatorService.ts:422-450 | A translation of at most 1000 characters sent back through `translateMorseToText` is its own normalized form and decodes to the cleaned normalized text, with no invalid code. |
| MorseTranslatorService.MorseTranslatorService.constructor | backend/src/services/morseTranslator/morseTranslatorService.ts:26-130 | Module load: the status starts as `inicializando`, then initialization on the real tables leaves the service ready, with the reverse dictionaries of both tables. |
| MorseTranslatorService.MorseTranslatorService.InitializeSystem | backend/src/services/morseTranslator/morseTranslatorService.ts:87-127 | The new status is the one the checks determine. When ready, both reverse tables are rebuilt from their entries; otherwise they are left unchanged. |
| MorseTranslatorService.MorseTranslatorService.GetSystemStatus | backend/src/services/morseTranslator/morseTranslatorService.ts:340-342 | Returns the current status and changes nothing. |
| MorseTranslatorService.MorseTranslatorService.TranslateTextToMorse | backend/src/services/morseTranslator/morseTranslatorService.ts:367-397 | Runs the readiness gate, the schema and the three steps, and returns exactly `TextToMorse` of the current state. |
| MorseTranslatorService.MorseTranslatorService.TranslateMorseToText | backend/src/services/morseTranslator/morseTranslatorService.ts:422-450 | Runs the readiness gate, the schema, normalization and the decoding loop, and returns exactly `MorseToText` of the current tables. |
| InputValidationService.Components.Set | backend/src/services/inputValidation/inputValidationService.ts:98-102 | Overwrites the slot of `id` and leaves the other two alone. |
| InputValidationService.Insert | backend/src/services/inputValidation/inputValidationService.ts:118-123 | Inserting into a sorted list keeps it sorted under the comparator and adds exactly the element (as a multiset). |
| InputValidationService.Sort | backend/src/services/inputValidation/inputValidationService.ts:118-123 | The stable sort returns a sorted permutation of the candidates. |
| InputValidationService.BestIndexMeaning | backend/src/services/inputValidation/inputValidationService.ts:118-125 | The chosen candidate compares below or equal to every candidate, and strictly below every earlier one. |
| InputValidationService.SortHead | backend/src/services/inputValidation/inputValidationService.ts:118-125 | The stable sort puts that candidate first, so it is `activeErrors[0]`. |
| InputValidationService.CandidatesShape | backend/src/services/inputValidation/inputValidationService.ts:105-112 | The candidates are the active slots, each once, in FC order, with their message and timestamp and the current call's priority. |
| InputValidationService.ResolveBest | backend/src/services/inputValidation/inputValidationService.ts:114-126 | The active error is that first candidate. |
| InputValidationService.BestCandidate | backend/src/services/inputValidation/inputValidationService.ts:110-125 | With one priority for all, that candidate has the largest timestamp, and every earlier one a smaller timestamp. |
| InputValidationService.ResolveOutcome | backend/src/services/inputValidation/inputValidationService.ts:105-126 | `erro_ativo` is null exactly when no slot is active. Otherwise it is an active slot with that slot's message and timestamp and the call's priority. Its timestamp is the largest, and every active slot earlier in FC order has a smaller one. |
| InputValidationService.UpdatedOutcome | backend/src/services/inputValidation/inputValidationService.ts:94-129 | An update writes the call's values into its slot, leaves the other slots alone, and makes `erro_ativo` null exactly when no slot is active, whatever the state before. |
| InputValidationService.LatestErrorWins | backend/src/services/inputValidation/inputValidationService.ts:105-125 | An FC-001 error at priority 1 followed by a later FC-002 error at priority 3 leaves FC-002's error active, at priority 3. |
| InputValidationService.FieldIssueOutcomes | backend/src/services/inputValidation/inputValidationService.ts:157-212 | A count of 1000 or more is LIMIT_REACHED at priority 1, whatever the characters. Below that, INVALID_CHARACTER at priority 3 comes exactly when some character is outside the field's class. |
| InputValidationService.LimitExactlyAtMaximum | backend/src/services/inputValidation/inputValidationService.ts:158 | Under the schema, LIMIT_REACHED fires exactly when the count is 1000, whatever the length of the text. |
| InputValidationService.TextSpaceOnly | backend/src/services/inputValidation/inputValidationService.ts:44-49 | For every whitespace character: the text class admits exactly the space, and the Morse class admits all of them. |
| InputValidationService.TabInFields | backend/src/services/inputValidation/inputValidationService.ts:157-277 | Below the limit, "A B" passes the text check and "A\tB" fails it with INVALID_CHARACTER, while Morse with a tab and a newline passes the Morse check. |
| InputValidationService.SequenceIssueOutcomes | backend/src/services/inputValidation/inputValidationService.ts:323-414 | The first failing rule is reported, in the source's order, always at priority 2; the check passes exactly when no rule fails. |
| InputValidationService.SequenceIgnoresCharacters | backend/src/services/inputValidation/inputValidationService.ts:323-397 | The sequence rules never look at which characters occur: letters pass. |
| InputValidationService.CanonicalNoWhitespaceRun | backend/src/services/inputValidation/inputValidationService.ts:324-340 | Canonical Morse never trips the consecutive-spaces rule. |
| InputValidationService.CanonicalNoPipeRun | backend/src/services/inputValidation/inputValidationService.ts:343-359 | Canonical Morse never trips the consecutive-pipes rule. |
| InputValidationService.CanonicalNoBoundaryPipe | backend/src/services/inputValidation/inputValidationService.ts:362-378 | Canonical Morse never trips the pipe-at-edge rule, which reads the trimmed sequence. |
| InputValidationService.CanonicalSpaceNextToPipe | backend/src/services/inputValidation/inputValidationService.ts:381-397 | On canonical Morse the space-next-to-pipe rule fires exactly when there is a pipe. |
| InputValidationService.CanonicalSequenceIssue | backend/src/services/inputValidation/inputValidationService.ts:323-397 | On canonical Morse the check fails exactly when there is a word separator, and then with SPACE_ADJACENT_PIPE. |
| InputValidationService.TranslationsRejected | backend/src/services/inputValidation/inputValidationService.ts:381-397 | Every translation of two or more words fails the sequence check. |
| InputValidationService.IssuePriorities | backend/src/services/inputValidation/inputValidationValidation.ts:46 | Every priority the checks record is in [1, 3], which `stateUpdateSchema` admits. |
| InputValidationService.PassClears | backend/src/services/inputValidation/inputValidationService.ts:197-204 | A passed check clears its component's slot. |
| InputValidationService.InputValidationService.constructor | backend/src/services/inputValidation/inputValidationService.ts:54-73 | The initial state: three inactive slots with empty messages and zero timestamps, and no active error. |
| InputValidationService.InputValidationService.UpdateValidationState | backend/src/services/inputValidation/inputValidationService.ts:94-129 | The new state is the slot overwrite followed by resolution, and the method returns it. |
| InputValidationService.InputValidationService.Record | backend/src/services/inputValidation/inputValidationService.ts:159-165 | Records one check's outcome in its component's slot through `updateValidationState`. |
| InputValidationService.InputValidationService.ValidateTextField | backend/src/services/inputValidation/inputValidationService.ts:147-213 | A refused body throws VALIDATION_ERROR and changes nothing. Otherwise the check's outcome goes into FC-001 and the response reports it with the call's timestamp. |
| InputValidationService.InputValidationService.ValidateMorseField | backend/src/services/inputValidation/inputValidationService.ts:231-295 | The same for the Morse field and FC-002. |
| InputValidationService.InputValidationService.ValidateMorseSequence | backend/src/services/inputValidation/inputValidationService.ts:313-415 | A refused body throws and changes nothing. Otherwise the first failing rule, or none, goes into FC-003 and is returned. |
| InputValidationService.InputValidationService.GetValidationState | backend/src/services/inputValidation/inputValidationService.ts:430-432 | Returns the state unchanged. |
| InputValidationSchemas.ParseTextField | backend/src/services/inputValidation/inputValidationValidation.ts:19-22 | Accepts exactly a text of at most 1000 characters with an integer count in [0, 1000]. |
| InputValidationSchemas.ParseMorseField | backend/src/services/inputValidation/inputValidationValidation.ts:27-30 | Accepts exactly Morse of at most 1000 characters with an integer count in [0, 1000]. |
| InputValidationSchemas.ParseSequence | backend/src/services/inputValidation/inputValidationValidation.ts:35-37 | Accepts exactly a sequence of at most 1000 characters. |
| InputValidationSchemas.CounterAtLimit | backend/src/services/inputValidation/inputValidationValidation.ts:21 | An accepted count is an integer in [0, 1000], so it reaches 1000 only by equalling it. |
| InputValidationSchemas.FractionalCounterRefused | backend/src/services/inputValidation/inputValidationValidation.ts:21 | A fractional count fails the schema even within [0, 1000]. |
| InputValidationSchemas.StateUpdateBounds | backend/src/services/inputValidation/inputValidationValidation.ts:42-48 | Priorities 1 to 3 pass and 0 and 4 do not; a zero timestamp is refused. |
| FrontendMorseDecoding.StripEdges | frontend/src/domain/morse-translator/validations/morse-decoding.ts:23 | `replace(/^[\s\|]+\|[\s\|]+$/g, '')`: the result neither starts nor ends with whitespace or a pipe. |
| FrontendMorseDecoding.TransformAllowed | frontend/src/domain/morse-translator/validations/morse-decoding.ts:12-28 | The transform leaves only dots, dashes, whitespace and pipes. |
| FrontendMorseDecoding.SchemaOutcomes | frontend/src/domain/morse-translator/validations/morse-decoding.ts:5-32 | Accepts exactly 1 to 1000 characters and hands on the transform; the refine never fails; the result has no whitespace or pipe at either end. |
| FrontendMorseDecoding.BlankBecomesEmpty | frontend/src/domain/morse-translator/validations/morse-decoding.ts:7-13 | Whitespace-only Morse passes the length checks on the raw string and becomes "". |
| FrontendMorseDecoding.PlainMorseKept | frontend/src/domain/morse-translator/validations/morse-decoding.ts:12-28 | Pipe-free dots and dashes separated by single whitespace characters pass the transform unchanged. |
| FrontendMorseDecoding.LoneWhitespaceKept | frontend/src/domain/morse-translator/validations/morse-decoding.ts:17 | A lone tab or newline between codes survives the client's transform, but the server makes it a space. |
| FrontendMorseDecoding.CanonicalAgreement | frontend/src/domain/morse-translator/validations/morse-decoding.ts:12-28 | Canonical Morse passes both the client's transform and the server's normaliser unchanged. |
| FrontendMorseDecoding.PipeRunContrast | frontend/src/domain/morse-translator/validations/morse-decoding.ts:19-21 | On `.\|\|\|-` the client leaves two separators with a double space between them; the server merges them into one. |
| FrontendSequence.FailedRefinements | frontend/src/domain/input-validation/validations/sequence.ts:7-22 | Lists the refinements a sequence fails, in the schema's order. |
| FrontendSequence.SequenceOutcomes | frontend/src/domain/input-validation/validations/sequence.ts:3-22 | Accepts exactly the sequences of at most 1000 characters that fail no refinement, and reports every refinement that fails. |
| FrontendSequence.EmptyAccepted | frontend/src/domain/input-validation/validations/sequence.ts:3-22 | The empty sequence is accepted. |
| FrontendSequence.CanonicalContrast | frontend/src/domain/input-validation/validations/sequence.ts:19-22 | Canonical Morse of at most 1000 characters passes the client's schema; the server refuses it once it holds a separator (`... \| ---`). |
| FrontendSequence.LeadingSpaceContrast | frontend/src/domain/input-validation/validations/sequence.ts:15-18 | A leading space fails the client's edge rule, which reads the raw string, but passes the server, which trims first. |
| FrontendTextField.CountIssues | frontend/src/domain/input-validation/validations/text-field.ts:33 | `z.number().min(0).max(1000)`: the issues are exactly the bounds the count breaks, or the missing one. |
| FrontendTextField.TextFieldOutcomes | frontend/src/domain/input-validation/validations/text-field.ts:26-34 | Accepts exactly a text of at most 1000 allowed characters with a count in [0, 1000]; each refused field reports every check it fails. |
| FrontendTextField.FractionalCountAccepted | frontend/src/domain/input-validation/validations/text-field.ts:33 | A fractional count passes here, unlike on the server. |
| FrontendTextField.SpecialsExact | frontend/src/domain/input-validation/validations/text-field.ts:5-24 | SPECIAL_CHARS_LIST has 18 distinct entries: exactly what the allowed class admits besides letters, digits and whitespace. |
| FrontendTextField.ClassesAgree | frontend/src/domain/input-validation/validations/text-field.ts:3 | Outside whitespace, the client's class and the server's TEXT_ALLOWED_CHARS admit the same characters. |
| FrontendTextField.WhitespaceContrast | frontend/src/domain/input-validation/validations/text-field.ts:3 | A text with a tab passes the client's schema and fails the server's field check. |
| FrontendMorseField.MorseFieldOutcomes | frontend/src/domain/input-validation/validations/morse-field.ts:5-13 | Accepts exactly at most 1000 dots, dashes, whitespace and pipes with a count in [0, 1000]; a refused Morse string reports the length and character checks it fails. |
| FrontendMorseField.EmptyAccepted | frontend/src/domain/input-validation/validations/morse-field.ts:5-13 | An empty field with count zero passes. |
| FrontendMorseField.TooLongRefused | frontend/src/domain/input-validation/validations/morse-field.ts:8 | Over 1000 characters is refused, with the limit issue first. |
| FrontendMorseField.NormalizedAccepted | frontend/src/domain/input-validation/validations/morse-field.ts:3-13 | Normalized server output of at most 1000 characters passes the field. |
| InitExampleDefaults.PriorityNamed | backend/src/constants/initExample/initExampleDefaults.ts:38-42 | A name denotes a priority exactly when it is 'low', 'medium' or 'high', and then that priority is the one with the name. |
| InitExampleDefaults.PriorityNames | backend/src/constants/initExample/initExampleDefaults.ts:38-42 | Each priority's name parses back to it, and distinct priorities have distinct names. |
| InitExampleDefaults.DefaultsConsistent | backend/src/constants/initExample/initExampleDefaults.ts:18-67 | The default priority is 'medium', new records are active, and each minimum length is positive and below its maximum. |
| InitExampleValidation.ParseMetadata | backend/src/services/initExample/initExampleValidation.ts:15-25 | Accepts exactly a category of 1 to 100 characters and a priority name of the enum, and returns them. |
| InitExampleValidation.ParseCreate | backend/src/services/initExample/initExampleValidation.ts:30-37 | Accepts exactly a name of 1 to 200 characters, a null or at most 500-character description, and absent or valid metadata, and returns those values. |
| InitExampleValidation.ParseUpdate | backend/src/services/initExample/initExampleValidation.ts:42-50 | The create rules plus a required boolean `active`. |
| InitExampleValidation.ParseId | backend/src/services/initExample/initExampleValidation.ts:55-57 | Accepts exactly a coerced number that is a positive whole number, and returns it. |
| InitExampleValidation.CreateUpdateAgree | backend/src/services/initExample/initExampleValidation.ts:30-50 | On their shared fields the two schemas accept the same bodies; update refuses a body without `active`. |
| InitExampleValidation.BoundaryInputs | backend/src/services/initExample/initExampleValidation.ts:30-57 | An empty name, id 0, id 1.5 and priority 'urgent' are refused; a null description and id 7 are accepted. |
| InitExampleStore.MergeLaws | backend/src/instances/initExample/initExampleStore.ts:75 | The spread with an empty patch changes nothing, spreading a patch twice equals spreading it once, and a patch without id or creation date keeps them. |
| InitExampleStore.Values | backend/src/instances/initExample/initExampleStore.ts:45-47 | `Array.from(records.values())` lists, in insertion order, one record per stored id. |
| InitExampleStore.Without | backend/src/instances/initExample/initExampleStore.ts:83-85 | Deleting a key removes exactly it from the insertion order. |
| InitExampleStore.ListsWithout | backend/src/instances/initExample/initExampleStore.ts:83-85 | Deletion keeps the order and the map in step. |
| InitExampleStore.ListsAppend | backend/src/instances/initExample/initExampleStore.ts:63 | Setting a new key appends it to the order and keeps the two in step. |
| InitExampleStore.Store.constructor | backend/src/instances/initExample/initExampleStore.ts:31-32 | An empty store with counter 0. |
| InitExampleStore.Store.GetNextId | backend/src/instances/initExample/initExampleStore.ts:37-40 | The counter goes up by one and the new value is returned; nothing else changes. |
| InitExampleStore.Store.GetAll | backend/src/instances/initExample/initExampleStore.ts:45-47 | The records in insertion order, one per stored id. |
| InitExampleStore.Store.GetById | backend/src/instances/initExample/initExampleStore.ts:52-54 | The stored record, or None. |
| InitExampleStore.Store.Add | backend/src/instances/initExample/initExampleStore.ts:59-65 | A store holding 1000 records throws and is unchanged. Otherwise the record is set under its id: a new id goes to the end of the order, a stored one keeps its place. |
| InitExampleStore.Store.Update | backend/src/instances/initExample/initExampleStore.ts:70-78 | A missing id changes nothing; otherwise the record becomes `{ ...existing, ...data }` and is returned. |
| InitExampleStore.Store.Delete | backend/src/instances/initExample/initExampleStore.ts:83-85 | Returns whether the id was stored; afterwards it is gone from both the map and the order. |
| InitExampleStore.Store.Exists | backend/src/instances/initExample/initExampleStore.ts:90-92 | Whether the id is stored. |
| InitExampleStore.Store.Count | backend/src/instances/initExample/initExampleStore.ts:97-99 | The number of records, which equals the length of the order and is at most 1000. |
| InitExampleStore.Store.Clear | backend/src/instances/initExample/initExampleStore.ts:104-107 | No records, and the counter is back at 0. |
| InitExampleStore.FirstIdAfterClear | backend/src/instances/initExample/initExampleStore.ts:104-107 | After `clear`, the next id is 1 and the count is 0. |
| InitExampleStore.ReplaceKeepsCount | backend/src/instances/initExample/initExampleStore.ts:59-65 | Adding under a stored id keeps the count. |
| InitExampleService.DefaultMetadata | backend/src/services/initExample/initExampleService.ts:24-29 | Category 'general' and priority 'medium', which metadataSchema accepts. |
| InitExampleService.Summaries | backend/src/services/initExample/initExampleService.ts:46-51 | One summary per record, in order, each with that record's id, name, active flag and creation date. |
| InitExampleService.UpdatedEntity | backend/src/services/initExample/initExampleService.ts:176-182 | An updated record keeps its id and creation date, takes name, description and active from the request, keeps its metadata when the request has none, and is stamped with the time. |
| InitExampleService.NewService | backend/src/instances/initExample/initExampleStore.ts:113 | The singleton store starts empty and consistent. |
| InitExampleService.List | backend/src/services/initExample/initExampleService.ts:44-52 | One summary per stored record, in insertion order, with distinct ids. |
| InitExampleService.Create | backend/src/services/initExample/initExampleService.ts:70-93 | A refused body throws VALIDATION_ERROR and changes nothing. An accepted one always takes the next id; a full store then throws. Otherwise the new active record, with default metadata if none was given, is appended under the fresh id. |
| InitExampleService.Get | backend/src/services/initExample/initExampleService.ts:112-127 | A refused id gives VALIDATION_ERROR 'Invalid ID', an unknown id NOT_FOUND, otherwise the stored record. |
| InitExampleService.Update | backend/src/services/initExample/initExampleService.ts:147-185 | The id is checked before the body and both before the store. A refused or unknown request changes nothing; otherwise the record is replaced in place by the updated entity. |
| InitExampleService.Delete | backend/src/services/initExample/initExampleService.ts:204-219 | A refused id gives VALIDATION_ERROR, an unknown one NOT_FOUND; otherwise the record is gone and the message is 'Deleted successfully'. |
| InitExampleService.CreateThenGet | backend/src/services/initExample/initExampleService.ts:70-127 | A record just created reads back under its id, active, with metadata, and stamped with the time. |
| InitExampleService.DeleteThenGet | backend/src/services/initExample/initExampleService.ts:112-219 | After a delete, both a read and a second delete of the id give NOT_FOUND. |
| InitExampleService.UpdateKeepsMetadata | backend/src/services/initExample/initExampleService.ts:176-182 | An update without metadata keeps the record's metadata, id and creation date. |

## Left out

- Strings are sequences of Unicode code points. JavaScript's UTF-16 code units (`length`, `split('')`, regular expressions on surrogate pairs) are not modelled, so the lengths differ for characters outside the Basic Multilingual Plane.
- MorseText.ToUpper: `toUpperCase` is modelled for ASCII and for the Latin-1 lowercase letters U+00E0 to U+00FE (except U+00F7) only. Other characters are left alone; this includes 'ß' becoming "SS", 'ÿ', 'µ' and every script outside Latin-1.
- Zod's error objects, the `details` a ServiceError carries and Zod's default messages are not modelled. A refused body is one VALIDATION_ERROR; the front-end schemas report issue kinds and the messages the schemas set themselves.
- The Express controllers, the routes, the React components and hooks, the HTTP client services and the network are outside the model.
- Concurrency is not modelled. Each call runs to completion on the shared state; the source has no locking.
- `Date.now()` and `new Date().toISOString()` are parameters (`timestamp`, `now`).
- JSON parsing is not modelled: a body arrives as Options of its fields. `z.coerce.number()` on the id parameter is taken as given, an `Option<real>` where None stands for NaN. The front end's `z.number()` counts are reals.
- InitExampleService.Create: the store's plain `Error` for a full store is a separate `Plain` outcome, since the service does not wrap it in a ServiceError.
- MorseEncoding.EncodingOutcomes: when several characters lack a code, the lemma names one character of the text with no code, not which one the loop meets first. LetterCodesMeaning and WordCodesMeaning do state the first.
- The duplicate front-end schema `morse-translation.ts` (the server's text schema again) is not modelled separately.
- `stateUpdateSchema` is only checked for the priorities the checks use (IssuePriorities, StateUpdateBounds). The service never applies it, so the model does not either.
- The two nested loops of `translateToMorse` and of `translateFromMorse` are split into one method per loop: the outer method calls the inner one.
- MorseTranslatorService.MorseTranslatorService.InitializeSystem: it takes the four tables as parameters instead of reading the module constants, so the `erro_critico` branches can be reached. The constructor passes the real tables, and RealTablesPass shows that they pass every check.
- MorseDictionary.TreeDecode is a ghost function: it exists only as an independent reference for the table.
- The store's private fields `records` and `currentId` are fields of the class, and the `Map`'s insertion order is an extra `order` field. The singleton export is the NewService method.
