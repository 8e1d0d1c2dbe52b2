/**
 * The client-side schema `sequenceValidationSchema`: an object whose `sequence` is a string of at
 * most 1000 characters, followed by four structural refinements. A failed length bound does not
 * stop the refinements, so a refused sequence collects the issue of every check it fails, in
 * the order the schema lists them.
 */
module FrontendSequence {
  import opened Wrappers
  import opened JsString
  import opened MorseNormalization
  import InputValidationService
  import FrontendMorseDecoding

  /** Why `sequenceValidationSchema` refuses a sequence. */
  datatype SequenceIssue =
    | SequenceMissing
    | SequenceTooLong
    | ConsecutiveSpaces
    | ConsecutivePipes
    | EdgeCharacter
    | UnspacedPipe
  {
    /** The messages the schema attaches; the length bound keeps the library's default message. */
    function Message(): Option<string> {
      match this
      case SequenceMissing => Some("Digite uma sequência para validar")
      case SequenceTooLong => None
      case ConsecutiveSpaces => Some("Não são permitidos espaços consecutivos no código Morse")
      case ConsecutivePipes => Some("Não são permitidas barras verticais consecutivas")
      case EdgeCharacter => Some("Barra vertical não pode estar no início ou fim")
      case UnspacedPipe => Some("Não são permitidos espaços antes ou depois de barras verticais")
    }
  }

  /** `/^[|\s]|[|\s]$/`: the first or the last character is whitespace or a pipe. */
  predicate EdgeSpaceOrPipe(s: string) {
    s != [] && (FrontendMorseDecoding.IsSpaceOrPipe(s[0]) || FrontendMorseDecoding.IsSpaceOrPipe(s[|s| - 1]))
  }

  /** `/\s\|\s/`: a pipe with whitespace on both sides. */
  predicate SpacedPipe(s: string) {
    exists i :: 0 <= i < |s| - 2 && IsWhitespace(s[i]) && s[i + 1] == '|' && IsWhitespace(s[i + 2])
  }

  // The fourth refinement fails: a pipe occurs (so the pattern of optional whitespace, a pipe and
  // optional whitespace matches), but nowhere with whitespace on both sides.
  predicate BarePipes(s: string) {
    '|' in s && !SpacedPipe(s)
  }

  /** The refinements `s` fails, in the order of the schema. */
  function FailedRefinements(s: string): (r: seq<SequenceIssue>)
    ensures ConsecutiveSpaces in r <==> InputValidationService.WhitespaceRun(s)
    ensures ConsecutivePipes in r <==> InputValidationService.PipeRun(s)
    ensures EdgeCharacter in r <==> EdgeSpaceOrPipe(s)
    ensures UnspacedPipe in r <==> BarePipes(s)
    ensures SequenceMissing !in r && SequenceTooLong !in r
  {
    (if InputValidationService.WhitespaceRun(s) then [ConsecutiveSpaces] else [])
    + (if InputValidationService.PipeRun(s) then [ConsecutivePipes] else [])
    + (if EdgeSpaceOrPipe(s) then [EdgeCharacter] else [])
    + (if BarePipes(s) then [UnspacedPipe] else [])
  }

  /** `sequenceValidationSchema.safeParse`: None when `sequence` is missing or not a string. */
  function SequenceSchema(sequence: Option<string>): Result<string, seq<SequenceIssue>> {
    match sequence
    case None => Failure([SequenceMissing])
    case Some(s) =>
      var issues := (if |s| > 1000 then [SequenceTooLong] else []) + FailedRefinements(s);
      if issues == [] then Success(s) else Failure(issues)
  }

  /** No check passes anything the source refuses, and every check that fails is reported. */
  lemma SequenceOutcomes(sequence: Option<string>)
    ensures SequenceSchema(sequence).Success? <==>
      sequence.Some? && |sequence.value| <= 1000
      && !InputValidationService.WhitespaceRun(sequence.value) && !InputValidationService.PipeRun(sequence.value)
      && !EdgeSpaceOrPipe(sequence.value) && !BarePipes(sequence.value)
    ensures SequenceSchema(sequence).Success? ==> SequenceSchema(sequence).value == sequence.value
    ensures sequence.Some? && SequenceSchema(sequence).Failure? ==>
      var issues := SequenceSchema(sequence).error;
      (SequenceTooLong in issues <==> |sequence.value| > 1000)
      && (ConsecutiveSpaces in issues <==> InputValidationService.WhitespaceRun(sequence.value))
      && (ConsecutivePipes in issues <==> InputValidationService.PipeRun(sequence.value))
      && (EdgeCharacter in issues <==> EdgeSpaceOrPipe(sequence.value))
      && (UnspacedPipe in issues <==> BarePipes(sequence.value))
  {
    if sequence.Some? {
      var s := sequence.value;
      var issues := (if |s| > 1000 then [SequenceTooLong] else []) + FailedRefinements(s);
      assert SequenceTooLong in issues <==> |s| > 1000;
      if issues == [] {
        assert FailedRefinements(s) == [];
      }
    }
  }

  /** The empty sequence is accepted: every rule needs at least one character to fail. */
  lemma EmptyAccepted()
    ensures SequenceSchema(Some("")) == Success("")
  {
    assert FailedRefinements("") == [];
  }

  lemma CanonicalPassesRefinements(s: string)
    requires Canonical(s)
    ensures FailedRefinements(s) == []
  {
    InputValidationService.CanonicalNoWhitespaceRun(s);
    InputValidationService.CanonicalNoPipeRun(s);
    CanonicalShape(s);
    if '|' in s {
      var i :| 0 <= i < |s| && s[i] == '|';
      assert IsWhitespace(s[i - 1]) && IsWhitespace(s[i + 1]);
      assert SpacedPipe(s) by {
        assert 0 <= i - 1 < |s| - 2 && IsWhitespace(s[i - 1]) && s[i - 1 + 1] == '|' && IsWhitespace(s[i - 1 + 2]);
      }
    }
  }

  /**
   * Canonical Morse of at most 1000 characters passes the client's schema. The server's sequence
   * check refuses it as soon as it holds a word separator, because the separator has spaces on
   * both sides (`... | ---` passes here and fails there).
   */
  lemma CanonicalContrast(s: string)
    requires Canonical(s) && |s| <= 1000
    ensures SequenceSchema(Some(s)) == Success(s)
    ensures InputValidationService.SequenceIssue(s) == if '|' in s then Some(InputValidationService.SpaceAdjacentPipe) else None
  {
    CanonicalPassesRefinements(s);
    InputValidationService.CanonicalSequenceIssue(s);
  }

  lemma LeadingSpaceClient(c: char)
    requires IsDotOrDash(c)
    ensures SequenceSchema(Some([' ', c])) == Failure([EdgeCharacter])
  {
    var s := [' ', c];
    assert !InputValidationService.WhitespaceRun(s);
    assert !InputValidationService.PipeRun(s);
    assert EdgeSpaceOrPipe(s);
    assert '|' !in s;
    assert FailedRefinements(s) == [] + [] + [EdgeCharacter] + [];
    assert [] + FailedRefinements(s) == [EdgeCharacter];
  }

  lemma LeadingSpaceServer(c: char)
    requires IsDotOrDash(c)
    ensures InputValidationService.SequenceIssue([' ', c]) == None
  {
    var s := [' ', c];
    assert !InputValidationService.WhitespaceRun(s);
    assert !InputValidationService.PipeRun(s);
    assert LeadingWhitespace(s) == 1 && LeadingWhitespace(s[1..]) == 0;
    assert Trim(s) == [c];
    assert !InputValidationService.SpaceNextToPipe(s);
  }

  /**
   * A sequence that starts with a space: the client refuses it, because its edge rule looks at
   * the raw string; the server trims first and accepts it.
   */
  lemma LeadingSpaceContrast(c: char)
    requires IsDotOrDash(c)
    ensures SequenceSchema(Some([' ', c])) == Failure([EdgeCharacter])
    ensures InputValidationService.SequenceIssue([' ', c]) == None
  {
    LeadingSpaceClient(c);
    LeadingSpaceServer(c);
  }
}
