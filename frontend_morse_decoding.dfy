/**
 * The client-side Morse decoding schema `morseDecodingSchema`: a raw `morseCode` string of 1 to
 * 1000 characters, rewritten by a transform of its own (a second Morse normaliser, which differs
 * from the server's `normalizeMorseCode`) and then refined by the allowed-character class.
 * Each `replace` is a rewrite function with the leftmost, greedy matching of the global
 * regular expression.
 */
module FrontendMorseDecoding {
  import opened Wrappers
  import opened JsString
  import opened MorseNormalization
  import InputValidationService

  /** A whitespace character or a pipe: the class `[\s|]`. */
  predicate IsSpaceOrPipe(c: char) {
    IsWhitespace(c) || c == '|'
  }

  /** Only characters of `[.\-\s|]`. */
  predicate AllMorseInput(s: string) {
    forall i :: 0 <= i < |s| ==> IsMorseInputChar(s[i])
  }

  /** `replace(/\s{2,}/g, ' ')`: a run of two or more whitespace characters becomes one space. */
  function CollapseRuns(s: string): string
    decreases |s|
  {
    if s == [] then []
    else if |s| >= 2 && IsWhitespace(s[0]) && IsWhitespace(s[1]) then " " + CollapseRuns(TrimStart(s))
    else [s[0]] + CollapseRuns(s[1..])
  }

  /** `replace(/\|\s*\|/g, ' | ')`: two pipes with only whitespace between them become " | ". */
  function JoinPipePairs(s: string): string
    decreases |s|
  {
    if s == [] then []
    else
      var t := TrimStart(s[1..]);
      if s[0] == '|' && t != [] && t[0] == '|' then " | " + JoinPipePairs(t[1..])
      else [s[0]] + JoinPipePairs(s[1..])
  }

  /** The number of pipes `s` starts with. */
  function LeadingPipes(s: string): (n: nat)
    ensures n <= |s|
    ensures forall i :: 0 <= i < n ==> s[i] == '|'
    ensures n == |s| || s[n] != '|'
  {
    if s == [] || s[0] != '|' then 0 else 1 + LeadingPipes(s[1..])
  }

  /** `replace(/\|{2,}/g, ' | ')`: a run of two or more pipes becomes " | ". */
  function CollapsePipeRuns(s: string): string
    decreases |s|
  {
    if s == [] then []
    else if |s| >= 2 && s[0] == '|' && s[1] == '|' then " | " + CollapsePipeRuns(s[LeadingPipes(s)..])
    else [s[0]] + CollapsePipeRuns(s[1..])
  }

  /** The number of whitespace characters and pipes `s` starts with. */
  function LeadingEdge(s: string): (n: nat)
    ensures n <= |s|
    ensures forall i :: 0 <= i < n ==> IsSpaceOrPipe(s[i])
    ensures n == |s| || !IsSpaceOrPipe(s[n])
  {
    if s == [] || !IsSpaceOrPipe(s[0]) then 0 else 1 + LeadingEdge(s[1..])
  }

  /** The number of whitespace characters and pipes `s` ends with. */
  function TrailingEdge(s: string): (n: nat)
    ensures n <= |s|
    ensures forall i :: |s| - n <= i < |s| ==> IsSpaceOrPipe(s[i])
    ensures n == |s| || !IsSpaceOrPipe(s[|s| - n - 1])
  {
    if s == [] || !IsSpaceOrPipe(s[|s| - 1]) then 0 else 1 + TrailingEdge(s[..|s| - 1])
  }

  /** `replace(/^[\s|]+|[\s|]+$/g, '')`: the leading and the trailing run of whitespace and pipes removed. */
  function StripEdges(s: string): (r: string)
    ensures r == [] || (!IsSpaceOrPipe(r[0]) && !IsSpaceOrPipe(r[|r| - 1]))
  {
    var a := s[LeadingEdge(s)..];
    a[..|a| - TrailingEdge(a)]
  }

  /** The transform of `morseDecodingSchema`. */
  function Transform(morseCode: string): string {
    StripEdges(CollapsePipeRuns(SpacePipes(JoinPipePairs(CollapseRuns(StripInvalid(Trim(morseCode)))))))
  }

  /** Why `morseDecodingSchema` refuses a request. */
  datatype DecodingIssue = MissingMorse | EmptyMorse | MorseTooLong | InvalidMorse {
    function Message(): string {
      match this
      case MissingMorse => "Digite um código Morse para decodificar"
      case EmptyMorse => "Digite um código Morse para decodificar"
      case MorseTooLong => "Código Morse excede o limite de 1000 caracteres"
      case InvalidMorse => "Código Morse contém caracteres inválidos"
    }
  }

  /**
   * `morseDecodingSchema.safeParse`: the bounds apply to the raw string, the transform runs on
   * an accepted one, the refine checks the transformed string.
   */
  function MorseDecodingSchema(morseCode: Option<string>): Result<string, DecodingIssue> {
    match morseCode
    case None => Failure(MissingMorse)
    case Some(m) =>
      if |m| < 1 then Failure(EmptyMorse)
      else if |m| > 1000 then Failure(MorseTooLong)
      else
        var normalized := Transform(m);
        if InputValidationService.AllMorseAllowed(normalized) then Success(normalized) else Failure(InvalidMorse)
  }

  // ---------------------------------------------------------------------------------------
  // Every step keeps to the characters `[.\-\s|]`

  /** A suffix of a string of `[.\-\s|]` characters is one too. */
  lemma SuffixKeeps(s: string, k: nat)
    requires AllMorseInput(s) && k <= |s|
    ensures AllMorseInput(s[k..])
  {
    assert forall i :: 0 <= i < |s[k..]| ==> s[k..][i] == s[k + i];
  }

  lemma {:induction false} CollapseRunsKeeps(s: string)
    requires AllMorseInput(s)
    ensures AllMorseInput(CollapseRuns(s))
    decreases |s|
  {
    if s != [] {
      if |s| >= 2 && IsWhitespace(s[0]) && IsWhitespace(s[1]) {
        SuffixKeeps(s, LeadingWhitespace(s));
        CollapseRunsKeeps(TrimStart(s));
      } else {
        SuffixKeeps(s, 1);
        CollapseRunsKeeps(s[1..]);
      }
    }
  }

  /** The whitespace `TrimStart` drops from such a string leaves one too. */
  lemma TrimStartKeeps(s: string)
    requires AllMorseInput(s)
    ensures AllMorseInput(TrimStart(s))
  {
    SuffixKeeps(s, LeadingWhitespace(s));
  }

  /** Two strings of `[.\-\s|]` characters joined are one too. */
  lemma ConcatKeeps(x: string, y: string)
    requires AllMorseInput(x) && AllMorseInput(y)
    ensures AllMorseInput(x + y)
  {
    assert forall i :: 0 <= i < |x + y| ==> (x + y)[i] == if i < |x| then x[i] else y[i - |x|];
  }

  /** What follows a pipe, whitespace and a second pipe keeps to the characters. */
  lemma PipePairTailKeeps(s: string)
    requires AllMorseInput(s) && s != [] && TrimStart(s[1..]) != []
    ensures AllMorseInput(TrimStart(s[1..])[1..])
  {
    SuffixKeeps(s, 1);
    TrimStartKeeps(s[1..]);
    SuffixKeeps(TrimStart(s[1..]), 1);
  }

  lemma JoinPipePairsPairCase(s: string)
    requires s != [] && s[0] == '|' && TrimStart(s[1..]) != [] && TrimStart(s[1..])[0] == '|'
    requires AllMorseInput(JoinPipePairs(TrimStart(s[1..])[1..]))
    ensures AllMorseInput(JoinPipePairs(s))
  {
    PipeLiteralKeeps();
    ConcatKeeps(" | ", JoinPipePairs(TrimStart(s[1..])[1..]));
  }

  lemma JoinPipePairsOtherCase(s: string)
    requires s != [] && AllMorseInput(s) && !(s[0] == '|' && TrimStart(s[1..]) != [] && TrimStart(s[1..])[0] == '|')
    requires AllMorseInput(JoinPipePairs(s[1..]))
    ensures AllMorseInput(JoinPipePairs(s))
  {
    ConcatKeeps([s[0]], JoinPipePairs(s[1..]));
  }

  lemma {:induction false} JoinPipePairsKeeps(s: string)
    requires AllMorseInput(s)
    ensures AllMorseInput(JoinPipePairs(s))
    decreases |s|
  {
    if s != [] {
      var t := TrimStart(s[1..]);
      if s[0] == '|' && t != [] && t[0] == '|' {
        PipePairTailKeeps(s);
        JoinPipePairsKeeps(t[1..]);
        JoinPipePairsPairCase(s);
      } else {
        SuffixKeeps(s, 1);
        JoinPipePairsKeeps(s[1..]);
        JoinPipePairsOtherCase(s);
      }
    }
  }

  /** What follows the whitespace and the pipe `s` starts with keeps to the characters. */
  lemma PipeTailKeeps(s: string)
    requires AllMorseInput(s) && TrimStart(s) != []
    ensures AllMorseInput(TrimStart(TrimStart(s)[1..]))
  {
    TrimStartKeeps(s);
    SuffixKeeps(TrimStart(s), 1);
    TrimStartKeeps(TrimStart(s)[1..]);
  }

  /** The replacement " | " keeps to the characters. */
  lemma PipeLiteralKeeps()
    ensures AllMorseInput(" | ")
  {
  }

  lemma SpacePipesAtPipe(s: string)
    requires s != [] && TrimStart(s) != [] && TrimStart(s)[0] == '|'
    ensures SpacePipes(s) == " | " + SpacePipes(TrimStart(TrimStart(s)[1..]))
  {
    SpacePipesUnfold(s);
  }

  lemma SpacePipesPipeCase(s: string)
    requires s != [] && TrimStart(s) != [] && TrimStart(s)[0] == '|'
    requires AllMorseInput(SpacePipes(TrimStart(TrimStart(s)[1..])))
    ensures AllMorseInput(SpacePipes(s))
  {
    var u := SpacePipes(TrimStart(TrimStart(s)[1..]));
    SpacePipesAtPipe(s);
    PipeLiteralKeeps();
    ConcatKeeps(" | ", u);
  }

  lemma SpacePipesOtherCase(s: string)
    requires s != [] && AllMorseInput(s) && !(TrimStart(s) != [] && TrimStart(s)[0] == '|')
    requires AllMorseInput(SpacePipes(s[1..]))
    ensures AllMorseInput(SpacePipes(s))
  {
    SpacePipesUnfold(s);
    ConcatKeeps([s[0]], SpacePipes(s[1..]));
  }

  lemma {:induction false} SpacePipesKeeps(s: string)
    requires AllMorseInput(s)
    ensures AllMorseInput(SpacePipes(s))
    decreases |s|
  {
    if s != [] {
      var t := TrimStart(s);
      if t != [] && t[0] == '|' {
        PipeTailKeeps(s);
        SpacePipesKeeps(TrimStart(t[1..]));
        SpacePipesPipeCase(s);
      } else {
        SuffixKeeps(s, 1);
        SpacePipesKeeps(s[1..]);
        SpacePipesOtherCase(s);
      }
    }
  }

  lemma {:induction false} CollapsePipeRunsKeeps(s: string)
    requires AllMorseInput(s)
    ensures AllMorseInput(CollapsePipeRuns(s))
    decreases |s|
  {
    if s != [] {
      if |s| >= 2 && s[0] == '|' && s[1] == '|' {
        SuffixKeeps(s, LeadingPipes(s));
        CollapsePipeRunsKeeps(s[LeadingPipes(s)..]);
      } else {
        SuffixKeeps(s, 1);
        CollapsePipeRunsKeeps(s[1..]);
      }
    }
  }

  lemma StripEdgesKeeps(s: string)
    requires AllMorseInput(s)
    ensures AllMorseInput(StripEdges(s))
  {
    var a := s[LeadingEdge(s)..];
    SuffixKeeps(s, LeadingEdge(s));
    assert forall i :: 0 <= i < |a| - TrailingEdge(a) ==> a[..|a| - TrailingEdge(a)][i] == a[i];
  }

  /** The transform leaves only dots, dashes, whitespace and pipes. */
  lemma TransformAllowed(morseCode: string)
    ensures AllMorseInput(Transform(morseCode))
  {
    var a := StripInvalid(Trim(morseCode));
    CollapseRunsKeeps(a);
    var b := CollapseRuns(a);
    JoinPipePairsKeeps(b);
    var c := JoinPipePairs(b);
    SpacePipesKeeps(c);
    var d := SpacePipes(c);
    CollapsePipeRunsKeeps(d);
    StripEdgesKeeps(CollapsePipeRuns(d));
  }

  // ---------------------------------------------------------------------------------------
  // Properties of the schema

  /**
   * The schema accepts exactly the strings of 1 to 1000 characters, and hands on their
   * transform: the refine never fails, and the result neither starts nor ends with whitespace or
   * a pipe.
   */
  lemma SchemaOutcomes(morseCode: Option<string>)
    ensures MorseDecodingSchema(morseCode).Success? <==> morseCode.Some? && 1 <= |morseCode.value| <= 1000
    ensures MorseDecodingSchema(morseCode).Success? ==>
      var r := MorseDecodingSchema(morseCode).value;
      r == Transform(morseCode.value) && AllMorseInput(r)
      && (r == [] || (!IsSpaceOrPipe(r[0]) && !IsSpaceOrPipe(r[|r| - 1])))
    ensures MorseDecodingSchema(morseCode) != Failure(InvalidMorse)
  {
    if morseCode.Some? {
      TransformAllowed(morseCode.value);
    }
  }

  /** Whitespace-only Morse passes the length bounds, which look at the raw string, and becomes "". */
  lemma {:induction false} BlankBecomesEmpty(morseCode: string)
    requires IsBlank(morseCode) && 1 <= |morseCode| <= 1000
    ensures MorseDecodingSchema(Some(morseCode)) == Success("")
  {
    TransformAllowed(morseCode);
    assert Trim(morseCode) == [];
  }

  // ---------------------------------------------------------------------------------------
  // Where the client's transform and the server's normaliser differ

  /** No pipe anywhere. */
  predicate NoPipe(s: string) {
    forall i :: 0 <= i < |s| ==> s[i] != '|'
  }

  /** No two whitespace characters in a row. */
  predicate NoWhitespaceRun(s: string) {
    forall i :: 0 <= i < |s| - 1 ==> !(IsWhitespace(s[i]) && IsWhitespace(s[i + 1]))
  }

  lemma {:induction false} CollapseRunsIdentity(s: string)
    requires NoWhitespaceRun(s)
    ensures CollapseRuns(s) == s
    decreases |s|
  {
    if s != [] {
      assert forall i :: 0 <= i < |s[1..]| ==> s[1..][i] == s[i + 1];
      CollapseRunsIdentity(s[1..]);
    }
  }

  /** Every pipe is followed by one whitespace character and then a dot or a dash. */
  predicate PipesSpaced(s: string) {
    forall i :: 0 <= i < |s| && s[i] == '|' ==> i + 2 < |s| && IsWhitespace(s[i + 1]) && IsDotOrDash(s[i + 2])
  }

  lemma PipesSpacedTail(s: string)
    requires s != [] && PipesSpaced(s)
    ensures PipesSpaced(s[1..])
  {
    assert forall i :: 0 <= i < |s[1..]| ==> s[1..][i] == s[i + 1];
  }

  lemma {:induction false} JoinPipePairsIdentity(s: string)
    requires PipesSpaced(s)
    ensures JoinPipePairs(s) == s
    decreases |s|
  {
    if s != [] {
      if s[0] == '|' {
        assert LeadingWhitespace(s[1..][1..]) == 0;
        assert LeadingWhitespace(s[1..]) == 1;
        assert TrimStart(s[1..])[0] == s[2];
      }
      PipesSpacedTail(s);
      JoinPipePairsIdentity(s[1..]);
    }
  }

  lemma {:induction false} SpacePipesIdentity(s: string)
    requires NoPipe(s)
    ensures SpacePipes(s) == s
    decreases |s|
  {
    if s != [] {
      SpacePipesUnfold(s);
      var t := TrimStart(s);
      assert t != [] ==> t[0] == s[|s| - |t|];
      assert forall i :: 0 <= i < |s[1..]| ==> s[1..][i] == s[i + 1];
      SpacePipesIdentity(s[1..]);
    }
  }

  /** No two pipes in a row. */
  predicate NoPipePair(s: string) {
    forall i :: 0 <= i < |s| - 1 ==> !(s[i] == '|' && s[i + 1] == '|')
  }

  lemma {:induction false} CollapsePipeRunsIdentity(s: string)
    requires NoPipePair(s)
    ensures CollapsePipeRuns(s) == s
    decreases |s|
  {
    if s != [] {
      assert forall i :: 0 <= i < |s[1..]| ==> s[1..][i] == s[i + 1];
      CollapsePipeRunsIdentity(s[1..]);
    }
  }

  lemma StripEdgesIdentity(s: string)
    requires s == [] || (!IsSpaceOrPipe(s[0]) && !IsSpaceOrPipe(s[|s| - 1]))
    ensures StripEdges(s) == s
  {
  }

  /**
   * Dots, dashes and single whitespace characters, with no pipe and no whitespace at either end,
   * pass the client's transform unchanged.
   */
  lemma PlainMorseKept(s: string)
    requires AllMorseInput(s) && NoPipe(s) && NoWhitespaceRun(s)
    requires s == [] || (!IsWhitespace(s[0]) && !IsWhitespace(s[|s| - 1]))
    ensures Transform(s) == s
  {
    TrimUnchanged(s);
    assert StripInvalid(s) == s;
    CollapseRunsIdentity(s);
    assert PipesSpaced(s);
    JoinPipePairsIdentity(s);
    SpacePipesIdentity(s);
    CollapsePipeRunsIdentity(s);
    StripEdgesIdentity(s);
  }

  /**
   * Such a string holding a whitespace character other than the space (a lone tab or newline):
   * the client keeps it, so its result differs from the server's normaliser, whose output is
   * canonical and holds only spaces.
   */
  lemma LoneWhitespaceKept(s: string, i: nat)
    requires AllMorseInput(s) && NoPipe(s) && NoWhitespaceRun(s)
    requires s == [] || (!IsWhitespace(s[0]) && !IsWhitespace(s[|s| - 1]))
    requires i < |s| && IsWhitespace(s[i]) && s[i] != ' '
    ensures Transform(s) == s
    ensures Transform(s) != NormalizeMorseCode(s)
  {
    PlainMorseKept(s);
    NormalizedChars(s);
    NotMorseChar(s[i]);
    assert s[i] != '|';
  }

  lemma NormalizedChars(s: string)
    ensures forall j :: 0 <= j < |NormalizeMorseCode(s)| ==> IsMorseChar(NormalizeMorseCode(s)[j])
  {
    NormalizedIsCanonical(s);
    CanonicalShape(NormalizeMorseCode(s));
  }

  lemma NotMorseChar(c: char)
    requires IsWhitespace(c) && c != ' '
    ensures IsMorseChar(c) <==> c == '|'
  {
  }

  /** Canonical Morse meets the conditions under which each client step is the identity. */
  lemma CanonicalClientConditions(s: string)
    requires Canonical(s)
    ensures AllMorseInput(s) && NoWhitespaceRun(s) && PipesSpaced(s)
    ensures s == [] || (!IsSpaceOrPipe(s[0]) && !IsSpaceOrPipe(s[|s| - 1]))
  {
    CanonicalShape(s);
    CanonicalInput(s);
    CanonicalNoWhitespaceRun(s);
    CanonicalPipesSpaced(s);
    if s != [] {
      DotOrDashNotEdge(s[0]);
      DotOrDashNotEdge(s[|s| - 1]);
    }
  }

  /** Among the characters of canonical Morse the space is the only whitespace. */
  lemma MorseCharWhitespace(c: char)
    requires IsMorseChar(c)
    ensures IsMorseInputChar(c)
    ensures IsWhitespace(c) <==> c == ' '
  {
  }

  lemma DotOrDashNotEdge(c: char)
    requires IsDotOrDash(c)
    ensures !IsSpaceOrPipe(c)
  {
  }

  lemma CanonicalInput(s: string)
    requires Canonical(s)
    ensures AllMorseInput(s)
  {
    CanonicalShape(s);
    forall i | 0 <= i < |s|
      ensures IsMorseInputChar(s[i])
    {
      MorseCharWhitespace(s[i]);
    }
  }

  lemma CanonicalNoWhitespaceRun(s: string)
    requires Canonical(s)
    ensures NoWhitespaceRun(s)
  {
    CanonicalShape(s);
    forall i | 0 <= i < |s| - 1
      ensures !(IsWhitespace(s[i]) && IsWhitespace(s[i + 1]))
    {
      MorseCharWhitespace(s[i]);
      MorseCharWhitespace(s[i + 1]);
    }
  }

  lemma CanonicalPipesSpaced(s: string)
    requires Canonical(s)
    ensures PipesSpaced(s)
  {
    CanonicalShape(s);
    forall i | 0 <= i < |s| && s[i] == '|'
      ensures i + 2 < |s| && IsWhitespace(s[i + 1]) && IsDotOrDash(s[i + 2])
    {
      MorseCharWhitespace(s[i + 1]);
    }
  }

  lemma CanonicalTransform(s: string)
    requires Canonical(s)
    ensures Transform(s) == s
  {
    CanonicalClientConditions(s);
    TrimUnchanged(s);
    assert StripInvalid(s) == s;
    CollapseRunsIdentity(s);
    JoinPipePairsIdentity(s);
    SpacePipesCanonical(s);
    CollapsePipeRunsIdentity(s);
    StripEdgesIdentity(s);
  }

  /** Canonical Morse passes both normalisers unchanged. */
  lemma CanonicalAgreement(s: string)
    requires Canonical(s)
    ensures Transform(s) == s == NormalizeMorseCode(s)
  {
    CanonicalTransform(s);
    NormalizeCanonical(s);
  }

  // ---------------------------------------------------------------------------------------
  // Three pipes between two symbols: `.|||-`

  lemma TrimStartStep(r: string)
    requires r != [] && !IsWhitespace(r[0])
    ensures TrimStart(r) == r
    ensures TrimStart(" " + r) == r
  {
    assert (" " + r)[1..] == r;
    assert LeadingWhitespace(" " + r) == 1;
  }

  lemma SymbolStep(c: char, r: string)
    requires IsDotOrDash(c)
    ensures JoinPipePairs([c] + r) == [c] + JoinPipePairs(r)
    ensures SpacePipes([c] + r) == [c] + SpacePipes(r)
    ensures MergeSeparators([c] + r) == [c] + MergeSeparators(r)
  {
    assert ([c] + r)[1..] == r;
    SpacePipesKeepsDotOrDash([c] + r);
    MergeSeparatorsKeepsDotOrDash([c] + r);
  }

  lemma SymbolAlone(c: char)
    requires IsDotOrDash(c)
    ensures JoinPipePairs([c]) == [c] && SpacePipes([c]) == [c] && MergeSeparators([c]) == [c]
    ensures DropSeparators([c]) == [c] && TrimStart([c]) == [c]
  {
    SymbolStep(c, []);
    assert [c] + [] == [c];
  }

  lemma PipeStep(r: string)
    ensures SpacePipes("|" + r) == " | " + SpacePipes(TrimStart(r))
    ensures SpacePipes(" |" + r) == " | " + SpacePipes(TrimStart(r))
  {
    assert ("|" + r)[1..] == r && (" |" + r)[1..] == "|" + r;
    SpacePipesUnfold("|" + r);
    SpacePipesUnfold(" |" + r);
    assert LeadingWhitespace(" |" + r) == 1;
  }

  /** Two pipes in a row are one match of `\|\s*\|`. */
  lemma JoinPairAt(s: string)
    requires |s| >= 2 && s[0] == '|' && s[1] == '|'
    ensures JoinPipePairs(s) == " | " + JoinPipePairs(s[2..])
  {
    assert LeadingWhitespace(s[1..]) == 0;
    assert TrimStart(s[1..])[1..] == s[2..];
  }

  lemma JoinPairStep(r: string)
    ensures JoinPipePairs("||" + r) == " | " + JoinPipePairs(r)
  {
    JoinPairAt("||" + r);
    assert ("||" + r)[2..] == r;
  }

  lemma JoinLoneStep(c: char, r: string)
    requires IsDotOrDash(c)
    ensures JoinPipePairs("|" + ([c] + r)) == "|" + JoinPipePairs([c] + r)
  {
    assert ("|" + ([c] + r))[1..] == [c] + r;
    assert LeadingWhitespace([c] + r) == 0;
  }

  lemma MergeStep(r: string)
    ensures MergeSeparators(" | " + r) == " | " + MergeSeparators(DropSeparators(r))
    ensures DropSeparators(" | " + r) == DropSeparators(r)
  {
    assert (" | " + r)[3..] == r;
  }

  /** How the strings of the `.|||-` example split into their first characters. */
  lemma PipeRunPieces(b: char)
    ensures "||" + ("|" + [b]) == "|||" + [b]
    ensures " |" + (" |" + [b]) == " | |" + [b] && " |" + [b] == " " + ("|" + [b])
    ensures "|" + ("|" + [b]) == "||" + [b] && "|" + ("||" + [b]) == "|||" + [b]
    ensures " | " + ("|" + [b]) == " | |" + [b]
    ensures " | " + (" | " + [b]) == " |  | " + [b]
    ensures " | " + (" |  | " + [b]) == " |  |  | " + [b]
    ensures " | " + (" | " + (" | " + [b])) == " |  |  | " + [b]
    ensures [b] + [] == [b]
  {
  }

  lemma PipeRunJoinTail(b: char)
    requires IsDotOrDash(b)
    ensures JoinPipePairs("|||" + [b]) == " | |" + [b]
  {
    PipeRunPieces(b);
    JoinPairStep("|" + [b]);
    JoinLoneStep(b, []);
    SymbolAlone(b);
  }

  lemma SpacePipesBar(b: char)
    requires IsDotOrDash(b)
    ensures SpacePipes("|" + [b]) == " | " + [b]
  {
    PipeStep([b]);
    SymbolAlone(b);
  }

  lemma PipeRunSpaceTail(b: char)
    requires IsDotOrDash(b)
    ensures SpacePipes(" | |" + [b]) == " |  | " + [b]
  {
    PipeRunPieces(b);
    PipeStep(" |" + [b]);
    TrimStartStep("|" + [b]);
    SpacePipesBar(b);
  }

  lemma PipeRunServerTwo(b: char)
    requires IsDotOrDash(b)
    ensures SpacePipes("||" + [b]) == " |  | " + [b]
  {
    PipeRunPieces(b);
    PipeStep("|" + [b]);
    TrimStartStep("|" + [b]);
    SpacePipesBar(b);
  }

  lemma PipeRunServerTail(b: char)
    requires IsDotOrDash(b)
    ensures SpacePipes("|||" + [b]) == " |  |  | " + [b]
  {
    PipeRunPieces(b);
    PipeStep("||" + [b]);
    TrimStartStep("||" + [b]);
    PipeRunServerTwo(b);
  }

  lemma PipeRunMergeTail(b: char)
    requires IsDotOrDash(b)
    ensures MergeSeparators(" |  |  | " + [b]) == " | " + [b]
  {
    PipeRunPieces(b);
    MergeStep(" | " + (" | " + [b]));
    MergeStep(" | " + [b]);
    MergeStep([b]);
    SymbolAlone(b);
  }

  /** The characters of `[a] + "|||" + [b]`. */
  lemma PipeRunInput(a: char, b: char)
    requires IsDotOrDash(a) && IsDotOrDash(b)
    ensures var s := [a] + ("|||" + [b]);
      AllMorseInput(s) && !IsWhitespace(s[0]) && !IsWhitespace(s[|s| - 1])
      && forall i :: 0 <= i < |s| ==> !IsWhitespace(s[i])
  {
    var s := [a] + ("|||" + [b]);
    assert |s| == 5 && s[0] == a && s[4] == b;
    assert forall i :: 1 <= i < 4 ==> s[i] == '|';
  }

  /** A string without whitespace passes trimming and whitespace collapsing unchanged. */
  lemma NoWhitespaceKept(s: string)
    requires forall i :: 0 <= i < |s| ==> !IsWhitespace(s[i])
    ensures Trim(s) == s && CollapseRuns(s) == s && CollapseWhitespace(s) == s
  {
    TrimUnchanged(s);
    CollapseRunsIdentity(s);
    CollapseUnchanged(s);
  }

  /** The client steps before the pipe rewriting change nothing in `[a] + "|||" + [b]`. */
  lemma PipeRunClientStart(a: char, b: char)
    requires IsDotOrDash(a) && IsDotOrDash(b)
    ensures CollapseRuns(StripInvalid(Trim([a] + ("|||" + [b])))) == [a] + ("|||" + [b])
  {
    PipeRunInput(a, b);
    NoWhitespaceKept([a] + ("|||" + [b]));
  }

  /** The client steps after the pipe rewriting change nothing in `[a] + " |  | " + [b]`. */
  lemma PipeRunClientEnd(a: char, b: char)
    requires IsDotOrDash(a) && IsDotOrDash(b)
    ensures StripEdges(CollapsePipeRuns([a] + (" |  | " + [b]))) == [a] + (" |  | " + [b])
  {
    var s := [a] + (" |  | " + [b]);
    assert s == [a, ' ', '|', ' ', ' ', '|', ' ', b];
    CollapsePipeRunsIdentity(s);
    StripEdgesIdentity(s);
  }

  lemma PipeRunClient(a: char, b: char)
    requires IsDotOrDash(a) && IsDotOrDash(b)
    ensures Transform([a] + ("|||" + [b])) == [a] + (" |  | " + [b])
  {
    PipeRunClientStart(a, b);
    SymbolStep(a, "|||" + [b]);
    PipeRunJoinTail(b);
    SymbolStep(a, " | |" + [b]);
    PipeRunSpaceTail(b);
    PipeRunClientEnd(a, b);
  }

  /** The server steps before the pipe rewriting change nothing in `[a] + "|||" + [b]`. */
  lemma PipeRunServerEdges(a: char, b: char)
    requires IsDotOrDash(a) && IsDotOrDash(b)
    ensures CollapseWhitespace(StripInvalid([a] + ("|||" + [b]))) == [a] + ("|||" + [b])
  {
    PipeRunInput(a, b);
    NoWhitespaceKept([a] + ("|||" + [b]));
  }

  /** The server steps after the separator merging change nothing in `[a] + " | " + [b]`. */
  lemma PipeRunOutput(a: char, b: char)
    requires IsDotOrDash(a) && IsDotOrDash(b)
    ensures StripEdgePipes(Trim([a] + (" | " + [b]))) == [a] + (" | " + [b])
  {
    var r := [a] + (" | " + [b]);
    assert |r| == 5 && r[0] == a && r[4] == b;
    TrimUnchanged(r);
  }

  lemma PipeRunServer(a: char, b: char)
    requires IsDotOrDash(a) && IsDotOrDash(b)
    ensures NormalizeMorseCode([a] + ("|||" + [b])) == [a] + (" | " + [b])
  {
    PipeRunServerEdges(a, b);
    SymbolStep(a, "|||" + [b]);
    PipeRunServerTail(b);
    SymbolStep(a, " |  |  | " + [b]);
    PipeRunMergeTail(b);
    PipeRunOutput(a, b);
  }

  /**
   * Repeated separators between two symbols (`.|||-`): the client's transform leaves two
   * separators with a double space between them, the server's normaliser merges them into one.
   */
  lemma PipeRunContrast(a: char, b: char)
    requires IsDotOrDash(a) && IsDotOrDash(b)
    ensures Transform([a] + "|||" + [b]) == [a] + " |  | " + [b]
    ensures NormalizeMorseCode([a] + "|||" + [b]) == [a] + " | " + [b]
  {
    PipeRunClient(a, b);
    PipeRunServer(a, b);
    PipeRunShapes(a, b);
  }

  lemma PipeRunShapes(a: char, b: char)
    ensures [a] + "|||" + [b] == [a] + ("|||" + [b])
    ensures [a] + " |  | " + [b] == [a] + (" |  | " + [b])
    ensures [a] + " | " + [b] == [a] + (" | " + [b])
  {
  }
}
