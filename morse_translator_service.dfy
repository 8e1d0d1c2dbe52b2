/**
 * The Morse translator service: the module state set up by `initializeSystem` (the system status
 * and the two reverse dictionaries) and the two entry points `translateTextToMorse` and
 * `translateMorseToText` that check that state, validate the request and run the pipelines.
 * A thrown ServiceError is a Failure, a returned response a Success.
 */
module MorseTranslatorService {
  import opened Wrappers
  import opened ServiceErrors
  import opened JsString
  import MorseDictionary
  import NormalizationMap
  import SupportedCharacters
  import opened MorseText
  import opened MorseNormalization
  import opened MorseEncoding
  import opened MorseDecoding
  import opened MorseRoundTrip
  import opened MorseTranslatorValidation

  /** The values of `SystemStatus.status`. */
  datatype Status = Inicializando | Sucesso | ErroDicionario | ErroNormalizacao | ErroCritico

  datatype SystemStatus = SystemStatus(status: Status, message: string, ready: bool)

  datatype MorseTranslationResponse =
    MorseTranslationResponse(originalText: string, normalizedText: string, morseCode: string, characterCount: nat)

  datatype MorseDecodeResponse = MorseDecodeResponse(
    originalMorse: string, normalizedMorse: string, translatedText: string,
    characterCount: nat, invalidCodeCount: nat)

  /** The status before `initializeSystem` has run. */
  const Starting := SystemStatus(Inicializando, "Inicializando sistema...", false)

  /** The status after a successful initialization. */
  const Ready := SystemStatus(Sucesso, "Sistema inicializado com sucesso", true)

  /** What both entry points throw while the system is not ready. */
  function SystemNotReady(): ServiceError {
    ServiceError("SYSTEM_NOT_READY", "Aguarde a inicialização do sistema", 503)
  }

  // ---------------------------------------------------------------------------------------
  // initializeSystem

  /**
   * The status `initializeSystem` ends in, given the sizes of the three tables it checks, in the
   * order it checks them.
   */
  function InitializedStatus(dictionaryKeys: nat, normalizationKeys: nat, supportedCount: nat): SystemStatus {
    if dictionaryKeys == 0 then SystemStatus(ErroCritico, "Dicionário Morse inválido", false)
    else if normalizationKeys == 0 then SystemStatus(ErroCritico, "Mapa de normalização inválido", false)
    else if supportedCount == 0 then SystemStatus(ErroCritico, "Lista de caracteres suportados inválida", false)
    else Ready
  }

  /**
   * Initialization succeeds exactly when all three tables are non-empty; it ends in `sucesso`
   * or `erro_critico`, never in `erro_dicionario` or `erro_normalizacao`, and the system is ready
   * exactly when the status is `sucesso`.
   */
  lemma InitializedOutcomes(dictionaryKeys: nat, normalizationKeys: nat, supportedCount: nat)
    ensures InitializedStatus(dictionaryKeys, normalizationKeys, supportedCount).ready
      <==> dictionaryKeys > 0 && normalizationKeys > 0 && supportedCount > 0
    ensures InitializedStatus(dictionaryKeys, normalizationKeys, supportedCount).status in {Sucesso, ErroCritico}
    ensures InitializedStatus(dictionaryKeys, normalizationKeys, supportedCount).ready
      <==> InitializedStatus(dictionaryKeys, normalizationKeys, supportedCount).status == Sucesso
  {
  }

  /** The real tables pass every check of `initializeSystem`. */
  lemma RealTablesPass()
    ensures |MorseDictionary.Entries()| == 51 && |NormalizationMap.Keys| == 48 && |SupportedCharacters.Chars| == 100
    ensures InitializedStatus(|MorseDictionary.Entries()|, |NormalizationMap.Keys|, |SupportedCharacters.Chars|) == Ready
  {
    MorseDictionary.KeyCount();
    NormalizationMap.KeyCount();
    SupportedCharacters.Count();
  }

  // ---------------------------------------------------------------------------------------
  // The two entry points, as functions of the module state

  /** `translateTextToMorse`, given whether the system is ready and the request's `text` field. */
  function TextToMorse(ready: bool, text: Option<string>): Result<MorseTranslationResponse, ServiceError> {
    if !ready then Failure(SystemNotReady())
    else
      match ParseText(text)
      case Failure(_) => Failure(ValidationFailed())
      case Success(t) =>
        var normalized := NormalForm(t);
        match CharacterCheck(normalized)
        case Some(e) => Failure(e)
        case None =>
          match Encoding(normalized)
          case Failure(e) => Failure(e)
          case Success(m) => Success(MorseTranslationResponse(t, normalized, m, |t|))
  }

  /** `translateMorseToText`, given whether the system is ready, the reverse dictionaries and the request's `morseCode` field. */
  function MorseToText(ready: bool, rev: map<string, char>, fb: map<string, char>, morseCode: Option<string>)
    : Result<MorseDecodeResponse, ServiceError>
  {
    if !ready then Failure(SystemNotReady())
    else
      match ParseMorse(morseCode)
      case Failure(_) => Failure(ValidationFailed())
      case Success(m) =>
        var normalized := NormalizeMorseCode(m);
        var d := Decoding(normalized, rev, fb);
        Success(MorseDecodeResponse(m, normalized, d.text, |m|, d.invalidCount))
  }

  /** Every character of supported normalized text is a space or has a dictionary code. */
  lemma SupportedEncodable(t: string)
    requires CharacterCheck(NormalForm(t)).None?
    ensures Encodable(NormalForm(t))
  {
    CharacterCheckMeaning(NormalForm(t));
    SupportedNormalHasCode(t);
  }

  /**
   * The outcomes of `translateTextToMorse`.
   * - Not ready: SYSTEM_NOT_READY, whatever the request.
   * - Otherwise a translation comes back exactly when the text passes the schema, every character
   *   of its normalized form is supported, and the normalized form is not all whitespace.
   * - The response carries the original text, its normalized form, and the length of the
   *   original, and its Morse code is canonical, so `normalizeMorseCode` leaves it alone.
   * - A text that passes the schema but whose normalized form has an unsupported character gets
   *   the VALIDATION_ERROR of the first such character; a supported but blank one gets the
   *   VALIDATION_ERROR that there is nothing to translate.
   * - TRANSLATION_ERROR never comes back: the supported characters all have codes.
   */
  lemma TextToMorseOutcomes(ready: bool, text: Option<string>)
    ensures !ready ==> TextToMorse(ready, text) == Failure(SystemNotReady())
    ensures ready && ParseText(text).Failure? ==> TextToMorse(ready, text) == Failure(ValidationFailed())
    ensures TextToMorse(ready, text).Success? <==>
      ready && text.Some? && 1 <= |text.value| <= 1000
      && (forall i :: 0 <= i < |NormalForm(text.value)| ==> Supported(NormalForm(text.value)[i]))
      && !IsBlank(NormalForm(text.value))
    ensures TextToMorse(ready, text).Success? ==>
      var r := TextToMorse(ready, text).value;
      r.originalText == text.value && r.normalizedText == NormalForm(text.value)
      && r.characterCount == |text.value|
      && Canonical(r.morseCode) && NormalizeMorseCode(r.morseCode) == r.morseCode
    ensures TextToMorse(ready, text).Failure? ==>
      TextToMorse(ready, text).error.code in {"SYSTEM_NOT_READY", "VALIDATION_ERROR"}
    ensures ready && ParseText(text).Success? ==>
      forall i :: (0 <= i < |NormalForm(text.value)| && !Supported(NormalForm(text.value)[i])
        && forall j :: 0 <= j < i ==> Supported(NormalForm(text.value)[j])) ==>
        TextToMorse(ready, text) == Failure(UnsupportedCharacter(NormalForm(text.value)[i]))
    ensures (ready && ParseText(text).Success? && IsBlank(NormalForm(text.value))
      && forall i :: 0 <= i < |NormalForm(text.value)| ==> Supported(NormalForm(text.value)[i])) ==>
      TextToMorse(ready, text) == Failure(NoContent())
  {
    TextToMorseRefusals(ready, text);
    TextToMorseAccepts(ready, text);
    TextToMorseResponse(ready, text);
  }

  /**
   * When `TextToMorse` fails, and with which errors: SYSTEM_NOT_READY, the schema's refusal, the
   * first unsupported character of the normalized text, or nothing left to translate.
   */
  lemma TextToMorseRefusals(ready: bool, text: Option<string>)
    ensures !ready ==> TextToMorse(ready, text) == Failure(SystemNotReady())
    ensures ready && ParseText(text).Failure? ==> TextToMorse(ready, text) == Failure(ValidationFailed())
    ensures TextToMorse(ready, text).Failure? ==>
      TextToMorse(ready, text).error.code in {"SYSTEM_NOT_READY", "VALIDATION_ERROR"}
    ensures ready && ParseText(text).Success? ==>
      forall i :: (0 <= i < |NormalForm(text.value)| && !Supported(NormalForm(text.value)[i])
        && forall j :: 0 <= j < i ==> Supported(NormalForm(text.value)[j])) ==>
        TextToMorse(ready, text) == Failure(UnsupportedCharacter(NormalForm(text.value)[i]))
    ensures (ready && ParseText(text).Success? && IsBlank(NormalForm(text.value))
      && forall i :: 0 <= i < |NormalForm(text.value)| ==> Supported(NormalForm(text.value)[i])) ==>
      TextToMorse(ready, text) == Failure(NoContent())
  {
    TextAccepted(text);
    if ready && ParseText(text).Success? {
      var n := NormalForm(text.value);
      if CharacterCheck(n).None? {
        SupportedEncodable(text.value);
        EncodingOutcomes(n);
      } else {
        var _ := CharacterCheckFirst(n);
      }
      forall i | 0 <= i < |n| && !Supported(n[i]) && (forall j :: 0 <= j < i ==> Supported(n[j]))
        ensures TextToMorse(ready, text) == Failure(UnsupportedCharacter(n[i]))
      {
        CharacterCheckAt(n, i);
      }
      CharacterCheckNone(n);
    }
  }

  /** Which requests `TextToMorse` translates. */
  lemma TextToMorseAccepts(ready: bool, text: Option<string>)
    ensures TextToMorse(ready, text).Success? <==>
      ready && text.Some? && 1 <= |text.value| <= 1000
      && (forall i :: 0 <= i < |NormalForm(text.value)| ==> Supported(NormalForm(text.value)[i]))
      && !IsBlank(NormalForm(text.value))
  {
    TextAccepted(text);
    if ready && ParseText(text).Success? {
      var n := NormalForm(text.value);
      CharacterCheckNone(n);
      if CharacterCheck(n).None? {
        SupportedEncodable(text.value);
        EncodingOutcomes(n);
      }
    }
  }

  /** The response of a translated request. */
  lemma TextToMorseResponse(ready: bool, text: Option<string>)
    ensures TextToMorse(ready, text).Success? ==>
      var r := TextToMorse(ready, text).value;
      r.originalText == text.value && r.normalizedText == NormalForm(text.value)
      && r.characterCount == |text.value|
      && Canonical(r.morseCode) && NormalizeMorseCode(r.morseCode) == r.morseCode
  {
    TextAccepted(text);
    if TextToMorse(ready, text).Success? {
      EncodingCanonical(NormalForm(text.value));
    }
  }

  /**
   * The outcomes of `translateMorseToText`.
   * - Not ready: SYSTEM_NOT_READY, whatever the request.
   * - Otherwise a translation comes back exactly when the Morse passes the schema; unknown codes
   *   never make it fail.
   * - The response carries the original Morse and its length, and the normalized Morse, which is
   *   canonical.
   * - Whitespace-only Morse passes the schema and decodes to nothing, with no invalid code.
   */
  lemma MorseToTextOutcomes(ready: bool, rev: map<string, char>, fb: map<string, char>, morseCode: Option<string>)
    ensures !ready ==> MorseToText(ready, rev, fb, morseCode) == Failure(SystemNotReady())
    ensures MorseToText(ready, rev, fb, morseCode).Success? <==>
      ready && morseCode.Some? && 1 <= |morseCode.value| <= 1000
    ensures MorseToText(ready, rev, fb, morseCode).Failure? ==>
      MorseToText(ready, rev, fb, morseCode).error == (if ready then ValidationFailed() else SystemNotReady())
    ensures MorseToText(ready, rev, fb, morseCode).Success? ==>
      var r := MorseToText(ready, rev, fb, morseCode).value;
      r.originalMorse == morseCode.value && r.characterCount == |morseCode.value|
      && Canonical(r.normalizedMorse)
    ensures ready && morseCode.Some? && 1 <= |morseCode.value| <= 1000 && IsBlank(morseCode.value) ==>
      MorseToText(ready, rev, fb, morseCode) == Success(MorseDecodeResponse(morseCode.value, "", "", |morseCode.value|, 0))
  {
    MorseToTextRefusals(ready, rev, fb, morseCode);
    MorseToTextResponse(ready, rev, fb, morseCode);
    MorseToTextBlank(ready, rev, fb, morseCode);
  }

  /** When `MorseToText` fails, and with which error. */
  lemma MorseToTextRefusals(ready: bool, rev: map<string, char>, fb: map<string, char>, morseCode: Option<string>)
    ensures !ready ==> MorseToText(ready, rev, fb, morseCode) == Failure(SystemNotReady())
    ensures MorseToText(ready, rev, fb, morseCode).Success? <==>
      ready && morseCode.Some? && 1 <= |morseCode.value| <= 1000
    ensures MorseToText(ready, rev, fb, morseCode).Failure? ==>
      MorseToText(ready, rev, fb, morseCode).error == (if ready then ValidationFailed() else SystemNotReady())
  {
    MorseAccepted(morseCode);
  }

  /** The response of an accepted request. */
  lemma MorseToTextResponse(ready: bool, rev: map<string, char>, fb: map<string, char>, morseCode: Option<string>)
    ensures MorseToText(ready, rev, fb, morseCode).Success? ==>
      var r := MorseToText(ready, rev, fb, morseCode).value;
      r.originalMorse == morseCode.value && r.characterCount == |morseCode.value|
      && Canonical(r.normalizedMorse)
  {
    MorseAccepted(morseCode);
    if ready && ParseMorse(morseCode).Success? {
      NormalizedIsCanonical(morseCode.value);
    }
  }

  /** Accepted whitespace decodes to nothing. */
  lemma MorseToTextBlank(ready: bool, rev: map<string, char>, fb: map<string, char>, morseCode: Option<string>)
    ensures ready && morseCode.Some? && 1 <= |morseCode.value| <= 1000 && IsBlank(morseCode.value) ==>
      MorseToText(ready, rev, fb, morseCode) == Success(MorseDecodeResponse(morseCode.value, "", "", |morseCode.value|, 0))
  {
    MorseAccepted(morseCode);
    if ready && morseCode.Some? && 1 <= |morseCode.value| <= 1000 && IsBlank(morseCode.value) {
      NormalizeBlank(morseCode.value);
    }
  }

  /**
   * With the service's reverse dictionaries, a decoded response reports as many invalid codes
   * as it shows `[?]` placeholders.
   */
  lemma ServiceInvalidCount(morseCode: Option<string>)
    requires MorseToText(true, ReverseDictionary(), ReverseFallback(), morseCode).Success?
    ensures var r := MorseToText(true, ReverseDictionary(), ReverseFallback(), morseCode).value;
      r.invalidCodeCount == Occurrences(r.translatedText, "[?]")
  {
    MorseToTextDecoded(true, ReverseDictionary(), ReverseFallback(), morseCode);
    ServicePlaceholders(NormalizeMorseCode(morseCode.value));
  }

  /** An accepted request's text and invalid count are those of decoding its normalized Morse. */
  lemma MorseToTextDecoded(ready: bool, rev: map<string, char>, fb: map<string, char>, morseCode: Option<string>)
    requires MorseToText(ready, rev, fb, morseCode).Success?
    ensures morseCode.Some?
    ensures var r := MorseToText(ready, rev, fb, morseCode).value;
      var d := Decoding(NormalizeMorseCode(morseCode.value), rev, fb);
      r.translatedText == d.text && r.invalidCodeCount == d.invalidCount
  {
  }

  /**
   * Sending a translation back through `translateMorseToText` of a ready service gives the
   * normalized text with its whitespace runs collapsed and trimmed, and no invalid code, as long
   * as the Morse is within the schema's 1000 characters.
   */
  lemma ServiceRoundTrip(text: Option<string>)
    requires TextToMorse(true, text).Success?
    requires |TextToMorse(true, text).value.morseCode| <= 1000
    ensures var r := TextToMorse(true, text).value;
      MorseToText(true, ReverseDictionary(), ReverseFallback(), Some(r.morseCode))
      == Success(MorseDecodeResponse(r.morseCode, r.morseCode, Cleaned(r.normalizedText),
                                     |r.morseCode|, 0))
  {
    var r := TextToMorse(true, text).value;
    TextToMorseOutcomes(true, text);
    EncodingCanonical(r.normalizedText);
    MorseAccepted(Some(r.morseCode));
    RoundTrip(r.normalizedText);
  }

  // ---------------------------------------------------------------------------------------
  // The module state

  class MorseTranslatorService {
    /** `systemStatus`. */
    var systemStatus: SystemStatus
    /** REVERSE_MORSE_DICTIONARY: code to character. */
    var reverseMorse: map<string, char>
    /** REVERSE_FALLBACK_DICTIONARY: code to character. */
    var reverseFallback: map<string, char>

    /**
     * Module load: the status starts as `inicializando` and `initializeSystem` runs on the real
     * tables, which leaves the service ready with the reverse dictionaries of MORSE_DICTIONARY
     * and FALLBACK_DICTIONARY.
     */
    constructor ()
      ensures systemStatus == Ready
      ensures reverseMorse == ReverseDictionary() && reverseFallback == ReverseFallback()
    {
      systemStatus := Starting;
      reverseMorse := map[];
      reverseFallback := map[];
      new;
      RealTablesPass();
      InitializeSystem(MorseDictionary.Entries(), NormalizationMap.Keys, SupportedCharacters.Chars, FallbackEntries());
    }

    /**
     * `initializeSystem`, over the entries of the dictionary, the keys of the normalization map,
     * the supported characters and the entries of the fallback dictionary. A failed check sets
     * `erro_critico` with its message and leaves the reverse dictionaries as they were; otherwise
     * each reverse dictionary is rebuilt from nothing by writing `code -> character` in entry
     * order.
     */
    method InitializeSystem(dictionary: seq<(char, string)>, normalizationKeys: seq<char>,
                            supported: seq<char>, fallback: seq<(char, string)>)
      modifies this
      ensures systemStatus == InitializedStatus(|dictionary|, |normalizationKeys|, |supported|)
      ensures systemStatus.ready ==> reverseMorse == Reverse(dictionary) && reverseFallback == Reverse(fallback)
      ensures !systemStatus.ready ==> reverseMorse == old(reverseMorse) && reverseFallback == old(reverseFallback)
    {
      if |dictionary| == 0 {
        systemStatus := SystemStatus(ErroCritico, "Dicionário Morse inválido", false);
        return;
      }
      if |normalizationKeys| == 0 {
        systemStatus := SystemStatus(ErroCritico, "Mapa de normalização inválido", false);
        return;
      }
      if |supported| == 0 {
        systemStatus := SystemStatus(ErroCritico, "Lista de caracteres suportados inválida", false);
        return;
      }
      reverseMorse := map[];
      var i := 0;
      while i < |dictionary|
        invariant 0 <= i <= |dictionary|
        invariant reverseMorse == Reverse(dictionary[..i])
      {
        assert dictionary[..i + 1][..i] == dictionary[..i];
        reverseMorse := reverseMorse[dictionary[i].1 := dictionary[i].0];
        i := i + 1;
      }
      assert dictionary[..i] == dictionary;
      reverseFallback := map[];
      var j := 0;
      while j < |fallback|
        invariant 0 <= j <= |fallback|
        invariant reverseMorse == Reverse(dictionary)
        invariant reverseFallback == Reverse(fallback[..j])
      {
        assert fallback[..j + 1][..j] == fallback[..j];
        reverseFallback := reverseFallback[fallback[j].1 := fallback[j].0];
        j := j + 1;
      }
      assert fallback[..j] == fallback;
      systemStatus := Ready;
    }

    /** `getSystemStatus`. */
    method GetSystemStatus() returns (s: SystemStatus)
      ensures s == systemStatus
    {
      return systemStatus;
    }

    /** `translateTextToMorse`: the readiness gate, the schema, `normalizeText`, `validateCharacters`, `translateToMorse`. */
    method TranslateTextToMorse(text: Option<string>) returns (r: Result<MorseTranslationResponse, ServiceError>)
      ensures r == TextToMorse(systemStatus.ready, text)
    {
      if !systemStatus.ready {
        return Failure(SystemNotReady());
      }
      var validation := ParseText(text);
      if validation.Failure? {
        return Failure(ValidationFailed());
      }
      var t := validation.value;
      var normalizedText := NormalizeText(t);
      var unsupported := ValidateCharacters(normalizedText);
      if unsupported.Some? {
        return Failure(unsupported.value);
      }
      var morseCode := TranslateToMorse(normalizedText);
      if morseCode.Failure? {
        return Failure(morseCode.error);
      }
      return Success(MorseTranslationResponse(t, normalizedText, morseCode.value, |t|));
    }

    /** `translateMorseToText`: the readiness gate, the schema, `normalizeMorseCode`, `translateFromMorse`. */
    method TranslateMorseToText(morseCode: Option<string>) returns (r: Result<MorseDecodeResponse, ServiceError>)
      ensures r == MorseToText(systemStatus.ready, reverseMorse, reverseFallback, morseCode)
    {
      if !systemStatus.ready {
        return Failure(SystemNotReady());
      }
      var validation := ParseMorse(morseCode);
      if validation.Failure? {
        return Failure(ValidationFailed());
      }
      var m := validation.value;
      var normalizedMorse := NormalizeMorseCode(m);
      var d := TranslateFromMorse(normalizedMorse, reverseMorse, reverseFallback);
      return Success(MorseDecodeResponse(m, normalizedMorse, d.text, |m|, d.invalidCount));
    }
  }
}
