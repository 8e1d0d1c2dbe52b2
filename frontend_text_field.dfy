/**
 * The client-side schema `textFieldValidationSchema` of the text input: `text` a string of at
 * most 1000 characters drawn from `ALLOWED_TEXT_CHARS`, `currentLength` a number in [0, 1000].
 * A failed length bound does not stop the character refinement, so a refused form collects
 * every issue it has, field by field. Also the list `SPECIAL_CHARS_LIST`, shown to the user as
 * the punctuation the translator accepts.
 */
module FrontendTextField {
  import opened Wrappers
  import opened JsString
  import InputValidationService

  /** Why a client field schema refuses a form. */
  datatype FieldIssue =
    | FieldMissing
    | FieldTooLong
    | FieldCharacter
    | CountMissing
    | CountTooSmall
    | CountTooBig

  /** `[a-zA-Z0-9]`. */
  predicate IsAlphanumeric(c: char) {
    ('A' <= c <= 'Z') || ('a' <= c <= 'z') || ('0' <= c <= '9')
  }

  /** The character class of ALLOWED_TEXT_CHARS: letters, digits, any whitespace, and the punctuation it lists. */
  predicate TextCharacter(c: char) {
    IsAlphanumeric(c) || IsWhitespace(c) || c in ".,?'!/()&:;=+-_\"$@"
  }

  /** `ALLOWED_TEXT_CHARS.test(text)`. */
  predicate AllTextCharacters(text: string) {
    forall i :: 0 <= i < |text| ==> TextCharacter(text[i])
  }

  /** SPECIAL_CHARS_LIST. */
  const SpecialChars: seq<char> :=
    ['.', ',', '?', '\'', '!', '/', '(', ')', '&', ':', ';', '=', '+', '-', '_', '"', '$', '@']

  /** `z.number().min(0).max(1000)` on `currentLength`; None when it is missing or not a number. */
  function CountIssues(currentLength: Option<real>): (r: seq<FieldIssue>)
    ensures r == [] <==> currentLength.Some? && 0.0 <= currentLength.value <= 1000.0
    ensures |r| <= 1
  {
    match currentLength
    case None => [CountMissing]
    case Some(n) => if n < 0.0 then [CountTooSmall] else if n > 1000.0 then [CountTooBig] else []
  }

  /** The issues of `text`: a missing string stops there; a long one still has its characters checked. */
  function TextIssues(text: Option<string>): seq<FieldIssue> {
    match text
    case None => [FieldMissing]
    case Some(t) =>
      (if |t| > 1000 then [FieldTooLong] else []) + (if AllTextCharacters(t) then [] else [FieldCharacter])
  }

  /** `textFieldValidationSchema.safeParse`. */
  function TextFieldSchema(text: Option<string>, currentLength: Option<real>): Result<(string, real), seq<FieldIssue>> {
    var issues := TextIssues(text) + CountIssues(currentLength);
    if issues == [] then Success((text.value, currentLength.value)) else Failure(issues)
  }

  /** The messages of the issues the schema names itself. */
  function Message(issue: FieldIssue): Option<string> {
    match issue
    case FieldMissing => Some("Digite um texto para validar")
    case FieldTooLong => Some("Limite máximo de 1000 caracteres atingido")
    case FieldCharacter => Some("Este caractere não é suportado para tradução Morse")
    case _ => None
  }

  /**
   * The schema accepts exactly a text of at most 1000 allowed characters with a count in
   * [0, 1000], which need not be a whole number; each refused field reports each check it fails.
   */
  lemma TextFieldOutcomes(text: Option<string>, currentLength: Option<real>)
    ensures TextFieldSchema(text, currentLength).Success? <==>
      text.Some? && |text.value| <= 1000 && AllTextCharacters(text.value)
      && currentLength.Some? && 0.0 <= currentLength.value <= 1000.0
    ensures TextFieldSchema(text, currentLength).Success? ==>
      TextFieldSchema(text, currentLength).value == (text.value, currentLength.value)
    ensures TextFieldSchema(text, currentLength).Failure? && text.Some? ==>
      var issues := TextFieldSchema(text, currentLength).error;
      (FieldTooLong in issues <==> |text.value| > 1000) && (FieldCharacter in issues <==> !AllTextCharacters(text.value))
  {
    if text.Some? {
      var t := text.value;
      var issues := TextIssues(text) + CountIssues(currentLength);
      assert FieldTooLong in issues <==> |t| > 1000;
      assert FieldCharacter in issues <==> !AllTextCharacters(t);
    }
  }

  /** A fractional count passes, unlike the server's request schema, which requires a whole number. */
  lemma FractionalCountAccepted()
    ensures TextFieldSchema(Some("SOS"), Some(10.5)) == Success(("SOS", 10.5))
  {
    assert AllTextCharacters("SOS");
  }

  /**
   * SPECIAL_CHARS_LIST has 18 distinct entries, and they are exactly the characters the
   * allowed class admits besides letters, digits and whitespace.
   */
  lemma SpecialsExact()
    ensures |SpecialChars| == 18
    ensures forall i, j :: 0 <= i < j < |SpecialChars| ==> SpecialChars[i] != SpecialChars[j]
    ensures forall c :: c in SpecialChars <==> TextCharacter(c) && !IsAlphanumeric(c) && !IsWhitespace(c)
  {
  }

  /** On every character but whitespace, the client's class and the server's class agree. */
  lemma ClassesAgree(c: char)
    requires !IsWhitespace(c)
    ensures TextCharacter(c) <==> InputValidationService.TextAllowed(c)
  {
  }

  /**
   * Whitespace: the client admits all of it, the server only the space, so a text with a tab
   * passes the client's schema and is refused by the server's field check.
   */
  lemma WhitespaceContrast(c: char)
    requires IsWhitespace(c) && c != ' '
    ensures TextCharacter(c) && !InputValidationService.TextAllowed(c)
    ensures TextFieldSchema(Some(['A', c, 'B']), Some(0.0)).Success?
    ensures InputValidationService.TextFieldIssue(['A', c, 'B'], 0.0) == Some(InputValidationService.InvalidTextCharacter)
  {
    var t := ['A', c, 'B'];
    assert AllTextCharacters(t);
    assert !InputValidationService.TextAllowed(t[1]);
  }
}
