/**
 * The request schemas of the input validation service. `currentLength`, `errorPriority` and
 * `timestamp` are JSON numbers, so they are reals here and the schemas' `.int()` is a check that
 * the number has no fractional part. A request body is Some when it is an object whose fields
 * have the right JSON types, and None otherwise.
 */
module InputValidationSchemas {
  import opened Wrappers

  /** MAX_INPUT_LENGTH. */
  const MaxInputLength: nat := 1000

  datatype TextFieldRequest = TextFieldRequest(text: string, currentLength: real)

  datatype MorseFieldRequest = MorseFieldRequest(morseCode: string, currentLength: real)

  /** `z.number().int()`: a number with no fractional part. */
  predicate IsInteger(x: real) {
    x.Floor as real == x
  }

  /** `z.number().int().min(0).max(MAX_INPUT_LENGTH)`. */
  predicate LengthCounter(x: real) {
    IsInteger(x) && 0.0 <= x <= MaxInputLength as real
  }

  /** `textValidationSchema`: `text` of at most 1000 characters, `currentLength` an integer in [0, 1000]. */
  predicate TextFieldAccepted(r: TextFieldRequest) {
    |r.text| <= MaxInputLength && LengthCounter(r.currentLength)
  }

  /** `morseValidationSchema`: `morseCode` of at most 1000 characters, `currentLength` an integer in [0, 1000]. */
  predicate MorseFieldAccepted(r: MorseFieldRequest) {
    |r.morseCode| <= MaxInputLength && LengthCounter(r.currentLength)
  }

  /** `sequenceValidationSchema`: `sequence` of at most 1000 characters. */
  predicate SequenceAccepted(sequence: string) {
    |sequence| <= MaxInputLength
  }

  /**
   * `stateUpdateSchema`: `componentId` one of the three component names, `errorPriority` an
   * integer in 1..3, `timestamp` a positive integer.
   */
  predicate StateUpdateAccepted(componentId: string, errorPriority: real, timestamp: real) {
    (componentId == "FC-001" || componentId == "FC-002" || componentId == "FC-003")
    && IsInteger(errorPriority) && 1.0 <= errorPriority <= 3.0
    && IsInteger(timestamp) && timestamp > 0.0
  }

  /** `textValidationSchema.safeParse`. */
  function ParseTextField(body: Option<TextFieldRequest>): (r: Option<TextFieldRequest>)
    ensures r.Some? ==> r == body
  {
    if body.Some? && TextFieldAccepted(body.value) then body else None
  }

  /** `morseValidationSchema.safeParse`. */
  function ParseMorseField(body: Option<MorseFieldRequest>): (r: Option<MorseFieldRequest>)
    ensures r.Some? ==> r == body
  {
    if body.Some? && MorseFieldAccepted(body.value) then body else None
  }

  /** `sequenceValidationSchema.safeParse`. */
  function ParseSequence(body: Option<string>): (r: Option<string>)
    ensures r.Some? ==> r == body
  {
    if body.Some? && SequenceAccepted(body.value) then body else None
  }

  /**
   * An accepted counter is an integer from 0 to 1000, so it reaches the limit of 1000 exactly
   * when it equals 1000; a fractional counter is refused.
   */
  lemma CounterAtLimit(x: real)
    requires LengthCounter(x)
    ensures x >= 1000.0 <==> x == 1000.0
    ensures x < 1000.0 ==> x <= 999.0
  {
    assert x.Floor as real == x;
    if x < 1000.0 {
      assert x.Floor < 1000;
    }
  }

  /** A fractional counter fails the schema, though it is within [0, 1000]. */
  lemma FractionalCounterRefused()
    ensures !LengthCounter(10.5)
  {
    assert (10.5).Floor == 10;
  }

  /**
   * The priority and the timestamp `stateUpdateSchema` admits: 1, 2 and 3 pass, 0 and 4 do
   * not, and neither does a zero timestamp.
   */
  lemma StateUpdateBounds(id: string)
    requires id == "FC-001" || id == "FC-002" || id == "FC-003"
    ensures StateUpdateAccepted(id, 1.0, 1.0) && StateUpdateAccepted(id, 2.0, 1.0) && StateUpdateAccepted(id, 3.0, 1.0)
    ensures !StateUpdateAccepted(id, 0.0, 1.0) && !StateUpdateAccepted(id, 4.0, 1.0) && !StateUpdateAccepted(id, 1.0, 0.0)
    ensures !StateUpdateAccepted("FC-004", 1.0, 1.0)
  {
    assert (1.0).Floor == 1 && (2.0).Floor == 2 && (3.0).Floor == 3;
  }
}
