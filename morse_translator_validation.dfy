/**
 * The request schemas of the two translation entry points: `translateTextSchema` wants a `text`
 * string and `translateMorseSchema` a `morseCode` string, each of 1 to MAX_INPUT_LENGTH
 * characters. A request body is modelled by the field it must carry: None when the field is
 * missing or is not a string.
 */
module MorseTranslatorValidation {
  import opened Wrappers

  /** MAX_INPUT_LENGTH. */
  const MaxInputLength: nat := 1000

  /** Why a field was refused: it is missing or not a string, too short, or too long. */
  datatype SchemaIssue = NotAString | TooSmall(message: string) | TooBig(message: string)

  /** A string field with a minimum length of 1 and a maximum of MaxInputLength, and its two messages. */
  function LengthField(field: Option<string>, empty: string, tooLong: string): (r: Result<string, SchemaIssue>)
  {
    match field
    case None => Failure(NotAString)
    case Some(s) =>
      if |s| < 1 then Failure(TooSmall(empty))
      else if |s| > MaxInputLength then Failure(TooBig(tooLong))
      else Success(s)
  }

  /** `translateTextSchema.safeParse`. */
  function ParseText(text: Option<string>): Result<string, SchemaIssue> {
    LengthField(text, "Digite um texto para traduzir", "Texto excede o limite de 1000 caracteres")
  }

  /** `translateMorseSchema.safeParse`. */
  function ParseMorse(morseCode: Option<string>): Result<string, SchemaIssue> {
    LengthField(morseCode, "Digite um código Morse para traduzir", "Código Morse excede o limite de 1000 caracteres")
  }

  /**
   * A field passes exactly when it is a string of 1 to 1000 characters, and then it is passed on
   * as it is; a refused field gets the message of the bound it breaks.
   */
  lemma LengthFieldOutcomes(field: Option<string>, empty: string, tooLong: string)
    ensures LengthField(field, empty, tooLong).Success? <==> field.Some? && 1 <= |field.value| <= 1000
    ensures LengthField(field, empty, tooLong).Success? ==> LengthField(field, empty, tooLong).value == field.value
    ensures field == Some("") ==> LengthField(field, empty, tooLong) == Failure(TooSmall(empty))
    ensures field.Some? && |field.value| > 1000 ==> LengthField(field, empty, tooLong) == Failure(TooBig(tooLong))
  {
  }

  /** The text entry point never receives the empty string, nor more than 1000 characters. */
  lemma TextAccepted(text: Option<string>)
    ensures ParseText(text).Success? <==> text.Some? && text.value != [] && |text.value| <= 1000
    ensures ParseText(text).Success? ==> ParseText(text).value == text.value
    ensures ParseText(Some("")) == Failure(TooSmall("Digite um texto para traduzir"))
  {
    LengthFieldOutcomes(text, "Digite um texto para traduzir", "Texto excede o limite de 1000 caracteres");
  }

  /**
   * The Morse entry point wants at least one character, but any character counts: whitespace-only
   * Morse is accepted.
   */
  lemma MorseAccepted(morseCode: Option<string>)
    ensures ParseMorse(morseCode).Success? <==> morseCode.Some? && morseCode.value != [] && |morseCode.value| <= 1000
    ensures ParseMorse(morseCode).Success? ==> ParseMorse(morseCode).value == morseCode.value
    ensures ParseMorse(Some(" ")) == Success(" ")
  {
    LengthFieldOutcomes(morseCode, "Digite um código Morse para traduzir", "Código Morse excede o limite de 1000 caracteres");
  }
}
