/**
 * The client-side schema `morseFieldValidationSchema` of the Morse input: `morseCode` a string
 * of at most 1000 characters drawn from `ALLOWED_MORSE_CHARS` (dot, dash, whitespace, pipe),
 * `currentLength` a number in [0, 1000]. The issues and the count check are those of the text
 * field's schema.
 */
module FrontendMorseField {
  import opened Wrappers
  import opened JsString
  import opened MorseNormalization
  import InputValidationService
  import opened FrontendTextField

  /** The issues of `morseCode`: a missing string stops there; a long one still has its characters checked. */
  function MorseIssues(morseCode: Option<string>): seq<FieldIssue> {
    match morseCode
    case None => [FieldMissing]
    case Some(m) =>
      (if |m| > 1000 then [FieldTooLong] else [])
      + (if InputValidationService.AllMorseAllowed(m) then [] else [FieldCharacter])
  }

  /** `morseFieldValidationSchema.safeParse`. */
  function MorseFieldSchema(morseCode: Option<string>, currentLength: Option<real>): Result<(string, real), seq<FieldIssue>> {
    var issues := MorseIssues(morseCode) + CountIssues(currentLength);
    if issues == [] then Success((morseCode.value, currentLength.value)) else Failure(issues)
  }

  /** The messages of the issues the schema names itself. */
  function MorseMessage(issue: FieldIssue): Option<string> {
    match issue
    case FieldMissing => Some("Digite um código Morse para validar")
    case FieldTooLong => Some("Limite máximo de 1000 caracteres atingido")
    case FieldCharacter => Some("Apenas pontos (.), traços (-), espaços e barras verticais (|) são permitidos")
    case _ => None
  }

  /**
   * The schema accepts exactly Morse input of at most 1000 dots, dashes, whitespace characters
   * and pipes with a count in [0, 1000]; each refused field reports each check it fails.
   */
  lemma MorseFieldOutcomes(morseCode: Option<string>, currentLength: Option<real>)
    ensures MorseFieldSchema(morseCode, currentLength).Success? <==>
      morseCode.Some? && |morseCode.value| <= 1000
      && (forall i :: 0 <= i < |morseCode.value| ==> IsMorseInputChar(morseCode.value[i]))
      && currentLength.Some? && 0.0 <= currentLength.value <= 1000.0
    ensures MorseFieldSchema(morseCode, currentLength).Success? ==>
      MorseFieldSchema(morseCode, currentLength).value == (morseCode.value, currentLength.value)
    ensures MorseFieldSchema(morseCode, currentLength).Failure? && morseCode.Some? ==>
      var issues := MorseFieldSchema(morseCode, currentLength).error;
      (FieldTooLong in issues <==> |morseCode.value| > 1000)
      && (FieldCharacter in issues <==> exists i :: 0 <= i < |morseCode.value| && !IsMorseInputChar(morseCode.value[i]))
  {
    if morseCode.Some? {
      var m := morseCode.value;
      var issues := MorseIssues(morseCode) + CountIssues(currentLength);
      assert FieldTooLong in issues <==> |m| > 1000;
      assert FieldCharacter in issues <==> !InputValidationService.AllMorseAllowed(m);
    }
  }

  /** An empty field with a zero count passes. */
  lemma EmptyAccepted()
    ensures MorseFieldSchema(Some(""), Some(0.0)) == Success(("", 0.0))
  {
  }

  /** Input over the limit is refused with the limit message, whatever its characters. */
  lemma TooLongRefused(morseCode: string, currentLength: Option<real>)
    requires |morseCode| > 1000
    ensures MorseFieldSchema(Some(morseCode), currentLength).Failure?
    ensures MorseFieldSchema(Some(morseCode), currentLength).error[0] == FieldTooLong
  {
  }

  /** What the server's normaliser produces fits the field, as long as it is no longer than 1000 characters. */
  lemma NormalizedAccepted(morse: string, count: real)
    requires |NormalizeMorseCode(morse)| <= 1000 && 0.0 <= count <= 1000.0
    ensures MorseFieldSchema(Some(NormalizeMorseCode(morse)), Some(count)).Success?
  {
    var n := NormalizeMorseCode(morse);
    NormalizedIsCanonical(morse);
    CanonicalShape(n);
    assert InputValidationService.AllMorseAllowed(n);
  }
}
