/**
 * The input validation service: a module-level validation state with one slot per form
 * component (FC-001 text field, FC-002 Morse field, FC-003 Morse sequence) and the active error
 * derived from the slots, plus three validators that check a field, record the outcome in the
 * component's slot and answer with a validation response. Timestamps (`Date.now()`) are
 * parameters.
 */
module InputValidationService {
  import opened Wrappers
  import opened ServiceErrors
  import opened JsString
  import opened InputValidationSchemas
  import opened MorseNormalization
  import opened MorseEncoding

  // ---------------------------------------------------------------------------------------
  // The validation state

  datatype ComponentId = FC001 | FC002 | FC003 {
    /** The component's key in `validationState.componentes`. */
    function Name(): string {
      match this
      case FC001 => "FC-001"
      case FC002 => "FC-002"
      case FC003 => "FC-003"
    }

    /** The position of the key in the record literal, which is the order `Object.entries` lists them in. */
    function Index(): nat {
      match this
      case FC001 => 0
      case FC002 => 1
      case FC003 => 2
    }
  }

  datatype ComponentState = ComponentState(ativo: bool, ultimoErro: string, timestamp: int)

  /** `validationState.componentes`. */
  datatype Components = Components(fc001: ComponentState, fc002: ComponentState, fc003: ComponentState) {
    function Get(id: ComponentId): ComponentState {
      match id
      case FC001 => fc001
      case FC002 => fc002
      case FC003 => fc003
    }

    /** The record with the slot of `id` overwritten. */
    function Set(id: ComponentId, s: ComponentState): (r: Components)
      ensures r.Get(id) == s
      ensures forall other :: other != id ==> r.Get(other) == Get(other)
    {
      match id
      case FC001 => this.(fc001 := s)
      case FC002 => this.(fc002 := s)
      case FC003 => this.(fc003 := s)
    }
  }

  /** `erro_ativo` when it is not null. */
  datatype ActiveError = ActiveError(componenteId: ComponentId, tipo: string, prioridade: int, timestamp: int)

  datatype ValidationState = ValidationState(componentes: Components, erroAtivo: Option<ActiveError>)

  const IdleSlot := ComponentState(false, "", 0)

  /** The state at module load: every slot idle, no active error. */
  const InitialState := ValidationState(Components(IdleSlot, IdleSlot, IdleSlot), None)

  /** No slot is active. */
  predicate NoneActive(c: Components) {
    !c.fc001.ativo && !c.fc002.ativo && !c.fc003.ativo
  }

  /** The state's active error is null exactly when no slot is active. */
  predicate Consistent(vs: ValidationState) {
    vs.erroAtivo.None? <==> NoneActive(vs.componentes)
  }

  // ---------------------------------------------------------------------------------------
  // Resolving the active error

  /** The candidate of one slot, stamped with the priority of the current call. */
  function Candidate(c: Components, id: ComponentId, priority: int): seq<ActiveError> {
    var s := c.Get(id);
    if s.ativo then [ActiveError(id, s.ultimoErro, priority, s.timestamp)] else []
  }

  /** The `filter` and `map` over `Object.entries(componentes)`: the active slots in FC order. */
  function Candidates(c: Components, priority: int): seq<ActiveError> {
    Candidate(c, FC001, priority) + Candidate(c, FC002, priority) + Candidate(c, FC003, priority)
  }

  /** The sort comparator: by priority ascending, then by timestamp descending. */
  function Compare(a: ActiveError, b: ActiveError): int {
    if a.prioridade != b.prioridade then a.prioridade - b.prioridade else b.timestamp - a.timestamp
  }

  /** `x` inserted before the first element of `sorted` that it compares strictly below. */
  function Insert(x: ActiveError, sorted: seq<ActiveError>): (r: seq<ActiveError>)
    ensures |r| == |sorted| + 1
    ensures multiset(r) == multiset(sorted) + multiset{x}
    ensures r[0] == if sorted == [] || Compare(x, sorted[0]) < 0 then x else sorted[0]
  {
    if sorted == [] || Compare(x, sorted[0]) < 0 then [x] + sorted
    else
      assert sorted == [sorted[0]] + sorted[1..];
      [sorted[0]] + Insert(x, sorted[1..])
  }

  /**
   * `Array.prototype.sort` with the comparator, which is stable: here an insertion sort that
   * inserts each element after every earlier one that does not compare above it.
   */
  function Sort(s: seq<ActiveError>): (r: seq<ActiveError>)
    ensures |r| == |s|
    ensures multiset(r) == multiset(s)
  {
    if s == [] then []
    else
      assert s == s[..|s| - 1] + [s[|s| - 1]];
      Insert(s[|s| - 1], Sort(s[..|s| - 1]))
  }

  /** The index of the earliest candidate that no other candidate compares below. */
  function BestIndex(s: seq<ActiveError>): (k: nat)
    requires s != []
    ensures k < |s|
  {
    if |s| == 1 then 0
    else
      var k := BestIndex(s[..|s| - 1]);
      if Compare(s[|s| - 1], s[k]) < 0 then |s| - 1 else k
  }

  /**
   * The candidate at BestIndex compares below or equal to every candidate, and strictly below
   * every earlier one.
   */
  lemma {:induction false} BestIndexMeaning(s: seq<ActiveError>)
    requires s != []
    ensures forall j :: 0 <= j < |s| ==> Compare(s[BestIndex(s)], s[j]) <= 0
    ensures forall j :: 0 <= j < BestIndex(s) ==> Compare(s[j], s[BestIndex(s)]) > 0
    decreases |s|
  {
    if |s| > 1 {
      var init := s[..|s| - 1];
      BestIndexMeaning(init);
      assert forall j :: 0 <= j < |init| ==> init[j] == s[j];
    }
  }

  /** The stable sort puts the candidate at BestIndex first. */
  lemma {:induction false} SortHead(s: seq<ActiveError>)
    requires s != []
    ensures Sort(s)[0] == s[BestIndex(s)]
    decreases |s|
  {
    if |s| > 1 {
      var init := s[..|s| - 1];
      SortHead(init);
      assert init[BestIndex(init)] == s[BestIndex(init)];
    }
  }

  /** `erro_ativo` as `updateValidationState` computes it: null, or the first sorted candidate. */
  function Resolve(c: Components, priority: int): Option<ActiveError> {
    var candidates := Candidates(c, priority);
    if candidates == [] then None else Some(Sort(candidates)[0])
  }

  /** Where the candidate of an active slot sits in the candidate list: after the active slots before it. */
  function Position(c: Components, id: ComponentId): nat {
    var before1 := if c.fc001.ativo then 1 else 0;
    var before2 := if c.fc002.ativo then 1 else 0;
    match id
    case FC001 => 0
    case FC002 => before1
    case FC003 => before1 + before2
  }

  /** What the candidate list holds: each active slot once, in FC order, with the call's priority. */
  lemma CandidatesShape(c: Components, priority: int)
    ensures Candidates(c, priority) == [] <==> NoneActive(c)
    ensures forall j :: 0 <= j < |Candidates(c, priority)| ==>
      var e := Candidates(c, priority)[j];
      e.prioridade == priority && c.Get(e.componenteId).ativo
      && e.tipo == c.Get(e.componenteId).ultimoErro && e.timestamp == c.Get(e.componenteId).timestamp
    ensures forall id :: c.Get(id).ativo ==>
      Position(c, id) < |Candidates(c, priority)| && Candidates(c, priority)[Position(c, id)].componenteId == id
    ensures forall i, j :: 0 <= i < j < |Candidates(c, priority)| ==>
      Candidates(c, priority)[i].componenteId.Index() < Candidates(c, priority)[j].componenteId.Index()
  {
  }

  /** The active error is the candidate at BestIndex. */
  lemma ResolveBest(c: Components, priority: int)
    ensures Resolve(c, priority).None? <==> Candidates(c, priority) == []
    ensures Resolve(c, priority).Some? ==>
      Resolve(c, priority).value == Candidates(c, priority)[BestIndex(Candidates(c, priority))]
  {
    if Candidates(c, priority) != [] {
      SortHead(Candidates(c, priority));
    }
  }

  /** The candidate at BestIndex has the largest timestamp, and the earlier ones smaller timestamps. */
  lemma BestCandidate(c: Components, priority: int)
    requires Candidates(c, priority) != []
    ensures var e := Candidates(c, priority)[BestIndex(Candidates(c, priority))];
      (forall id :: c.Get(id).ativo ==> c.Get(id).timestamp <= e.timestamp)
      && (forall id :: c.Get(id).ativo && id.Index() < e.componenteId.Index() ==> c.Get(id).timestamp < e.timestamp)
  {
    var s := Candidates(c, priority);
    CandidatesShape(c, priority);
    BestIndexMeaning(s);
    var k := BestIndex(s);
    forall id | c.Get(id).ativo
      ensures c.Get(id).timestamp <= s[k].timestamp
      ensures id.Index() < s[k].componenteId.Index() ==> c.Get(id).timestamp < s[k].timestamp
    {
      var j := Position(c, id);
      assert Compare(s[k], s[j]) <= 0;
      if id.Index() < s[k].componenteId.Index() {
        assert j < k;
      }
    }
  }

  /**
   * What `erro_ativo` becomes. It is null exactly when no slot is active. Otherwise it names an
   * active slot, carries that slot's message and timestamp and the priority of the current call,
   * its timestamp is the largest of the active slots, and every active slot earlier in FC order
   * has a strictly smaller one: the most recent error wins, ties going to the first component.
   */
  lemma ResolveOutcome(c: Components, priority: int)
    ensures Resolve(c, priority).None? <==> NoneActive(c)
    ensures Resolve(c, priority).Some? ==>
      var e := Resolve(c, priority).value;
      e.prioridade == priority && c.Get(e.componenteId).ativo
      && e.tipo == c.Get(e.componenteId).ultimoErro && e.timestamp == c.Get(e.componenteId).timestamp
      && (forall id :: c.Get(id).ativo ==> c.Get(id).timestamp <= e.timestamp)
      && (forall id :: c.Get(id).ativo && id.Index() < e.componenteId.Index() ==> c.Get(id).timestamp < e.timestamp)
  {
    CandidatesShape(c, priority);
    ResolveBest(c, priority);
    if Candidates(c, priority) != [] {
      BestCandidate(c, priority);
    }
  }

  /** `updateValidationState` as a function of the state before the call. */
  function Updated(vs: ValidationState, id: ComponentId, hasError: bool, errorMessage: string,
                   errorPriority: int, timestamp: int): ValidationState
  {
    var c := vs.componentes.Set(id, ComponentState(hasError, errorMessage, timestamp));
    ValidationState(c, Resolve(c, errorPriority))
  }

  /**
   * An update overwrites the slot of `id` with the call's values and leaves the other slots
   * alone, and its active error is null exactly when no slot is active, whatever the state
   * before.
   */
  lemma UpdatedOutcome(vs: ValidationState, id: ComponentId, hasError: bool, errorMessage: string,
                       errorPriority: int, timestamp: int)
    ensures Updated(vs, id, hasError, errorMessage, errorPriority, timestamp).componentes.Get(id)
      == ComponentState(hasError, errorMessage, timestamp)
    ensures forall other :: other != id ==>
      Updated(vs, id, hasError, errorMessage, errorPriority, timestamp).componentes.Get(other) == vs.componentes.Get(other)
    ensures Consistent(Updated(vs, id, hasError, errorMessage, errorPriority, timestamp))
    ensures hasError ==> Updated(vs, id, hasError, errorMessage, errorPriority, timestamp).erroAtivo.Some?
  {
    var c := vs.componentes.Set(id, ComponentState(hasError, errorMessage, timestamp));
    ResolveOutcome(c, errorPriority);
  }

  /**
   * The priority stamp: an FC-001 error at priority 1, then an FC-002 error at priority 3 with a
   * later timestamp, leaves FC-002's error active, at priority 3.
   */
  lemma LatestErrorWins(vs: ValidationState)
    ensures var s1 := Updated(vs, FC001, true, "Limite máximo de 1000 caracteres atingido", 1, 100);
      var s2 := Updated(s1, FC002, true, "Apenas pontos", 3, 200);
      vs.componentes.fc003.timestamp < 200 ==>
      s2.erroAtivo == Some(ActiveError(FC002, "Apenas pontos", 3, 200))
  {
    var s1 := Updated(vs, FC001, true, "Limite máximo de 1000 caracteres atingido", 1, 100);
    var c := s1.componentes.Set(FC002, ComponentState(true, "Apenas pontos", 200));
    if vs.componentes.fc003.timestamp < 200 {
      ResolveOutcome(c, 3);
      var e := Resolve(c, 3).value;
      assert c.Get(FC002).ativo;
    }
  }

  // ---------------------------------------------------------------------------------------
  // The checks the validators make

  /** The failed checks, each with its error code, message and priority. */
  datatype Issue =
    | LimitReached | InvalidTextCharacter | InvalidMorseCharacter
    | MultipleSpaces | ConsecutivePipes | PipeAtBoundary | SpaceAdjacentPipe
  {
    function Code(): string {
      match this
      case LimitReached => "LIMIT_REACHED"
      case InvalidTextCharacter => "INVALID_CHARACTER"
      case InvalidMorseCharacter => "INVALID_CHARACTER"
      case MultipleSpaces => "MULTIPLE_SPACES"
      case ConsecutivePipes => "CONSECUTIVE_PIPES"
      case PipeAtBoundary => "PIPE_AT_BOUNDARY"
      case SpaceAdjacentPipe => "SPACE_ADJACENT_PIPE"
    }

    function Message(): string {
      match this
      case LimitReached => "Limite máximo de 1000 caracteres atingido"
      case InvalidTextCharacter => "Este caractere não é suportado para tradução Morse"
      case InvalidMorseCharacter => "Apenas pontos (.), traços (-), espaços e barras verticais (|) são permitidos"
      case MultipleSpaces => "Não são permitidos espaços consecutivos no código Morse"
      case ConsecutivePipes => "Não são permitidas barras verticais consecutivas"
      case PipeAtBoundary => "Barra vertical não pode estar no início ou fim"
      case SpaceAdjacentPipe => "Não são permitidos espaços antes ou depois de barras verticais"
    }

    /** 1 for the limit, 2 for the sequence rules, 3 for a bad character, as PRIORITY_MAP names them. */
    function Priority(): int {
      match this
      case LimitReached => 1
      case InvalidTextCharacter | InvalidMorseCharacter => 3
      case _ => 2
    }
  }

  /** The character class of TEXT_ALLOWED_CHARS: ASCII letters, digits, the space and 18 specials. */
  predicate TextAllowed(c: char) {
    ('A' <= c <= 'Z') || ('a' <= c <= 'z') || ('0' <= c <= '9') || c == ' '
    || c in ".,?'!/()&:;=+-_\"$@"
  }

  /** The character class of MORSE_ALLOWED_CHARS: dot, dash, any whitespace, pipe. */
  predicate MorseAllowed(c: char) {
    c == '.' || c == '-' || IsWhitespace(c) || c == '|'
  }

  /** `TEXT_ALLOWED_CHARS.test(text)`. */
  predicate AllTextAllowed(text: string) {
    forall i :: 0 <= i < |text| ==> TextAllowed(text[i])
  }

  /** `MORSE_ALLOWED_CHARS.test(morseCode)`. */
  predicate AllMorseAllowed(morseCode: string) {
    forall i :: 0 <= i < |morseCode| ==> MorseAllowed(morseCode[i])
  }

  const MaxCharacters := 1000

  /** The checks of `validateTextField`, in order: the caller's count, then the characters. */
  function TextFieldIssue(text: string, currentLength: real): Option<Issue> {
    if currentLength >= MaxCharacters as real then Some(LimitReached)
    else if !AllTextAllowed(text) then Some(InvalidTextCharacter)
    else None
  }

  /** The checks of `validateMorseField`, in order: the caller's count, then the characters. */
  function MorseFieldIssue(morseCode: string, currentLength: real): Option<Issue> {
    if currentLength >= MaxCharacters as real then Some(LimitReached)
    else if !AllMorseAllowed(morseCode) then Some(InvalidMorseCharacter)
    else None
  }

  /** `/\s{2,}/`. */
  predicate WhitespaceRun(s: string) {
    exists i :: 0 <= i < |s| - 1 && IsWhitespace(s[i]) && IsWhitespace(s[i + 1])
  }

  /** `/\|{2,}/`. */
  predicate PipeRun(s: string) {
    exists i :: 0 <= i < |s| - 1 && s[i] == '|' && s[i + 1] == '|'
  }

  /** `/^\||\|$/` on `sequence.trim()`. */
  predicate PipeAtTrimmedEdge(s: string) {
    var t := Trim(s);
    t != [] && (t[0] == '|' || t[|t| - 1] == '|')
  }

  /** `/\s\||\|\s/`. */
  predicate SpaceNextToPipe(s: string) {
    exists i :: 0 <= i < |s| - 1 && ((IsWhitespace(s[i]) && s[i + 1] == '|') || (s[i] == '|' && IsWhitespace(s[i + 1])))
  }

  /** The checks of `validateMorseSequence`, in order; the first that fails is reported. */
  function SequenceIssue(s: string): Option<Issue> {
    if WhitespaceRun(s) then Some(MultipleSpaces)
    else if PipeRun(s) then Some(ConsecutivePipes)
    else if PipeAtTrimmedEdge(s) then Some(PipeAtBoundary)
    else if SpaceNextToPipe(s) then Some(SpaceAdjacentPipe)
    else None
  }

  /**
   * The field checks: a count of 1000 or more is LIMIT_REACHED at priority 1 whatever the
   * characters; below that an INVALID_CHARACTER at priority 3 comes exactly when some character
   * is outside the field's class.
   */
  lemma FieldIssueOutcomes(text: string, morseCode: string, currentLength: real)
    ensures currentLength >= 1000.0 ==>
      TextFieldIssue(text, currentLength) == Some(LimitReached) && MorseFieldIssue(morseCode, currentLength) == Some(LimitReached)
    ensures currentLength < 1000.0 ==>
      (TextFieldIssue(text, currentLength).None? <==> forall i :: 0 <= i < |text| ==> TextAllowed(text[i]))
      && (TextFieldIssue(text, currentLength).Some? ==> TextFieldIssue(text, currentLength) == Some(InvalidTextCharacter))
    ensures currentLength < 1000.0 ==>
      (MorseFieldIssue(morseCode, currentLength).None? <==> forall i :: 0 <= i < |morseCode| ==> MorseAllowed(morseCode[i]))
      && (MorseFieldIssue(morseCode, currentLength).Some? ==> MorseFieldIssue(morseCode, currentLength) == Some(InvalidMorseCharacter))
  {
  }

  /**
   * Under the schema the count is an integer of at most 1000, so LIMIT_REACHED fires exactly at
   * 1000, and the length of the text itself plays no part.
   */
  lemma LimitExactlyAtMaximum(r: TextFieldRequest, other: string)
    requires TextFieldAccepted(r)
    ensures TextFieldIssue(r.text, r.currentLength) == Some(LimitReached) <==> r.currentLength == 1000.0
    ensures TextFieldIssue(r.text, 1000.0) == TextFieldIssue(other, 1000.0)
  {
    CounterAtLimit(r.currentLength);
  }

  /** The text field admits the space but no other whitespace; the Morse field admits all of it. */
  lemma TextSpaceOnly(c: char)
    requires IsWhitespace(c)
    ensures TextAllowed(c) <==> c == ' '
    ensures MorseAllowed(c)
  {
    if c != ' ' {
      assert c < ' ' || c > '~';
      OutsidePrintableNotText(c);
    }
  }

  /** Nothing below the space or above '~' is in the text class. */
  lemma OutsidePrintableNotText(c: char)
    requires c < ' ' || c > '~'
    ensures !TextAllowed(c)
  {
  }

  /** So a tab between letters fails the text check below the limit, but passes the Morse check. */
  lemma TabInFields()
    ensures TextFieldIssue("A B", 0.0).None?
    ensures TextFieldIssue("A\tB", 0.0) == Some(InvalidTextCharacter)
    ensures MorseFieldIssue(".\t-\n.", 0.0).None?
  {
    assert !TextAllowed("A\tB"[1]);
  }

  /**
   * The sequence check reports the first rule that fails, always at priority 2, and passes
   * exactly when no rule fails.
   */
  lemma SequenceIssueOutcomes(s: string)
    ensures SequenceIssue(s).None? <==> !WhitespaceRun(s) && !PipeRun(s) && !PipeAtTrimmedEdge(s) && !SpaceNextToPipe(s)
    ensures SequenceIssue(s).Some? ==> SequenceIssue(s).value.Priority() == 2
    ensures WhitespaceRun(s) ==> SequenceIssue(s) == Some(MultipleSpaces)
    ensures !WhitespaceRun(s) && PipeRun(s) ==> SequenceIssue(s) == Some(ConsecutivePipes)
    ensures !WhitespaceRun(s) && !PipeRun(s) && PipeAtTrimmedEdge(s) ==> SequenceIssue(s) == Some(PipeAtBoundary)
  {
  }

  /** The sequence check never looks at which characters are present: letters pass. */
  lemma SequenceIgnoresCharacters(s: string)
    requires forall i :: 0 <= i < |s| ==> !IsWhitespace(s[i]) && s[i] != '|'
    ensures SequenceIssue(s).None?
  {
    if Trim(s) != [] {
      assert Trim(s)[0] in s;
      assert Trim(s)[|Trim(s)| - 1] in s;
    }
  }

  /** Canonical Morse has no two whitespace characters in a row. */
  lemma CanonicalNoWhitespaceRun(s: string)
    requires Canonical(s)
    ensures !WhitespaceRun(s)
  {
    CanonicalShape(s);
    forall i | 0 <= i < |s| - 1 && IsWhitespace(s[i])
      ensures !IsWhitespace(s[i + 1])
    {
      assert s[i] == ' ';
    }
  }

  /** Canonical Morse has no two pipes in a row. */
  lemma CanonicalNoPipeRun(s: string)
    requires Canonical(s)
    ensures !PipeRun(s)
  {
    CanonicalShape(s);
  }

  /** Canonical Morse neither starts nor ends with a pipe, trimmed or not. */
  lemma CanonicalNoBoundaryPipe(s: string)
    requires Canonical(s)
    ensures !PipeAtTrimmedEdge(s)
  {
    if s != [] {
      CanonicalEnds(s);
      TrimUnchanged(s);
    }
  }

  /** In canonical Morse whitespace touches a pipe exactly when there is a pipe. */
  lemma CanonicalSpaceNextToPipe(s: string)
    requires Canonical(s)
    ensures SpaceNextToPipe(s) <==> '|' in s
  {
    CanonicalShape(s);
    if '|' in s {
      var i :| 0 <= i < |s| && s[i] == '|';
      assert IsWhitespace(s[i - 1]) && s[i - 1 + 1] == '|';
    }
  }

  /**
   * On canonical Morse, which is what `translateToMorse` and `normalizeMorseCode` produce, the
   * sequence check fails exactly when a word separator is present, and then on
   * SPACE_ADJACENT_PIPE: it rejects the separator " | " itself.
   */
  lemma CanonicalSequenceIssue(s: string)
    requires Canonical(s)
    ensures SequenceIssue(s) == if '|' in s then Some(SpaceAdjacentPipe) else None
  {
    CanonicalNoWhitespaceRun(s);
    CanonicalNoPipeRun(s);
    CanonicalNoBoundaryPipe(s);
    CanonicalSpaceNextToPipe(s);
  }

  /** A translation of two or more words fails the sequence check. */
  lemma TranslationsRejected(text: string)
    requires Encoding(text).Success? && |Words(text)| >= 2
    ensures SequenceIssue(Encoding(text).value) == Some(SpaceAdjacentPipe)
  {
    var m := Encoding(text).value;
    EncodingCanonical(text);
    EncodingSeparators(text);
    PipeOfSeparator(m);
    CanonicalSequenceIssue(m);
  }

  /** Text with a word separator in it has a pipe. */
  lemma {:induction false} PipeOfSeparator(s: string)
    requires Occurrences(s, " | ") > 0
    ensures '|' in s
    decreases |s|
  {
    if OccursAt(s, " | ", 0) {
      assert s[0 + 1] == " | "[1];
    } else {
      PipeOfSeparator(s[1..]);
      var i :| 0 <= i < |s[1..]| && s[1..][i] == '|';
      assert s[i + 1] == '|';
    }
  }

  /** Every issue the validators record has a priority that `stateUpdateSchema` admits. */
  lemma IssuePriorities(text: string, morseCode: string, currentLength: real)
    ensures TextFieldIssue(text, currentLength).Some? ==> 1 <= TextFieldIssue(text, currentLength).value.Priority() <= 3
    ensures MorseFieldIssue(morseCode, currentLength).Some? ==> 1 <= MorseFieldIssue(morseCode, currentLength).value.Priority() <= 3
  {
  }

  // ---------------------------------------------------------------------------------------
  // Responses

  datatype ValidationResponse = ValidationResponse(
    valid: bool, errorCode: Option<string>, errorMessage: Option<string>, errorPriority: Option<int>, timestamp: int)

  /** The response for the outcome of a check: valid with every error field null, or the issue. */
  function Response(issue: Option<Issue>, timestamp: int): ValidationResponse {
    match issue
    case None => ValidationResponse(true, None, None, None, timestamp)
    case Some(i) => ValidationResponse(false, Some(i.Code()), Some(i.Message()), Some(i.Priority()), timestamp)
  }

  /**
   * The state update a validator makes for the outcome of its check: the issue's message and
   * priority, or a cleared slot stamped with `clearPriority`.
   */
  function Recorded(vs: ValidationState, id: ComponentId, issue: Option<Issue>, clearPriority: int, timestamp: int)
    : ValidationState
  {
    match issue
    case Some(i) => Updated(vs, id, true, i.Message(), i.Priority(), timestamp)
    case None => Updated(vs, id, false, "", clearPriority, timestamp)
  }

  /** A passed check clears the component's slot. */
  lemma PassClears(vs: ValidationState, id: ComponentId, clearPriority: int, timestamp: int)
    ensures Recorded(vs, id, None, clearPriority, timestamp).componentes.Get(id) == ComponentState(false, "", timestamp)
    ensures Recorded(vs, id, None, clearPriority, timestamp).erroAtivo.None? <==>
      forall other :: other != id ==> !vs.componentes.Get(other).ativo
  {
    UpdatedOutcome(vs, id, false, "", clearPriority, timestamp);
    var r := Recorded(vs, id, None, clearPriority, timestamp);
    if r.erroAtivo.Some? {
      assert !NoneActive(r.componentes);
    }
  }

  // ---------------------------------------------------------------------------------------
  // The module state

  class InputValidationService {
    /** `validationState`. */
    var validationState: ValidationState

    /** Module load. */
    constructor ()
      ensures validationState == InitialState && Consistent(validationState)
    {
      validationState := InitialState;
    }

    /** `updateValidationState`. */
    method UpdateValidationState(id: ComponentId, hasError: bool, errorMessage: string,
                                 errorPriority: int, timestamp: int)
      modifies this
      ensures validationState == Updated(old(validationState), id, hasError, errorMessage, errorPriority, timestamp)
    {
      var componentes := validationState.componentes.Set(id, ComponentState(hasError, errorMessage, timestamp));
      var activeErrors := Candidates(componentes, errorPriority);
      if |activeErrors| == 0 {
        validationState := ValidationState(componentes, None);
      } else {
        activeErrors := Sort(activeErrors);
        validationState := ValidationState(componentes, Some(activeErrors[0]));
      }
    }

    /** Records the outcome of a check in the slot of `id`. */
    method Record(id: ComponentId, issue: Option<Issue>, clearPriority: int, timestamp: int)
      modifies this
      ensures validationState == Recorded(old(validationState), id, issue, clearPriority, timestamp)
    {
      if issue.Some? {
        UpdateValidationState(id, true, issue.value.Message(), issue.value.Priority(), timestamp);
      } else {
        UpdateValidationState(id, false, "", clearPriority, timestamp);
      }
    }

    /**
     * `validateTextField`: a refused body throws and leaves the state alone; otherwise the
     * outcome of the checks is recorded in FC-001 and returned.
     */
    method ValidateTextField(body: Option<TextFieldRequest>, timestamp: int) returns (r: Result<ValidationResponse, ServiceError>)
      modifies this
      ensures ParseTextField(body).None? ==> r == Failure(ValidationFailed()) && validationState == old(validationState)
      ensures ParseTextField(body).Some? ==>
        var issue := TextFieldIssue(body.value.text, body.value.currentLength);
        r == Success(Response(issue, timestamp))
        && validationState == Recorded(old(validationState), FC001, issue, 3, timestamp)
    {
      var validation := ParseTextField(body);
      if validation.None? {
        return Failure(ValidationFailed());
      }
      var request := validation.value;
      if request.currentLength >= MaxCharacters as real {
        Record(FC001, Some(LimitReached), 3, timestamp);
        return Success(Response(Some(LimitReached), timestamp));
      }
      if !AllTextAllowed(request.text) {
        Record(FC001, Some(InvalidTextCharacter), 3, timestamp);
        return Success(Response(Some(InvalidTextCharacter), timestamp));
      }
      Record(FC001, None, 3, timestamp);
      return Success(Response(None, timestamp));
    }

    /**
     * `validateMorseField`: a refused body throws and leaves the state alone; otherwise the
     * outcome of the checks is recorded in FC-002 and returned.
     */
    method ValidateMorseField(body: Option<MorseFieldRequest>, timestamp: int) returns (r: Result<ValidationResponse, ServiceError>)
      modifies this
      ensures ParseMorseField(body).None? ==> r == Failure(ValidationFailed()) && validationState == old(validationState)
      ensures ParseMorseField(body).Some? ==>
        var issue := MorseFieldIssue(body.value.morseCode, body.value.currentLength);
        r == Success(Response(issue, timestamp))
        && validationState == Recorded(old(validationState), FC002, issue, 3, timestamp)
    {
      var validation := ParseMorseField(body);
      if validation.None? {
        return Failure(ValidationFailed());
      }
      var request := validation.value;
      if request.currentLength >= MaxCharacters as real {
        Record(FC002, Some(LimitReached), 3, timestamp);
        return Success(Response(Some(LimitReached), timestamp));
      }
      if !AllMorseAllowed(request.morseCode) {
        Record(FC002, Some(InvalidMorseCharacter), 3, timestamp);
        return Success(Response(Some(InvalidMorseCharacter), timestamp));
      }
      Record(FC002, None, 3, timestamp);
      return Success(Response(None, timestamp));
    }

    /**
     * `validateMorseSequence`: a refused body throws and leaves the state alone; otherwise the
     * first failing structural rule, or none, is recorded in FC-003 and returned.
     */
    method ValidateMorseSequence(body: Option<string>, timestamp: int) returns (r: Result<ValidationResponse, ServiceError>)
      modifies this
      ensures ParseSequence(body).None? ==> r == Failure(ValidationFailed()) && validationState == old(validationState)
      ensures ParseSequence(body).Some? ==>
        var issue := SequenceIssue(body.value);
        r == Success(Response(issue, timestamp))
        && validationState == Recorded(old(validationState), FC003, issue, 2, timestamp)
    {
      var validation := ParseSequence(body);
      if validation.None? {
        return Failure(ValidationFailed());
      }
      var sequence := validation.value;
      var issue: Option<Issue> := None;
      if WhitespaceRun(sequence) {
        issue := Some(MultipleSpaces);
      } else if PipeRun(sequence) {
        issue := Some(ConsecutivePipes);
      } else if PipeAtTrimmedEdge(sequence) {
        issue := Some(PipeAtBoundary);
      } else if SpaceNextToPipe(sequence) {
        issue := Some(SpaceAdjacentPipe);
      }
      Record(FC003, issue, 2, timestamp);
      return Success(Response(issue, timestamp));
    }

    /** `getValidationState`. */
    method GetValidationState() returns (vs: ValidationState)
      ensures vs == validationState
    {
      return validationState;
    }
  }
}
