/**
 * `normalizeMorseCode` of the translator service: a fixed chain of global regular-expression
 * replacements that turns raw Morse input into the canonical form `translateToMorse` produces.
 * Each replacement is modelled as a rewrite function with the leftmost, greedy matching of a
 * global `replace`.
 */
module MorseNormalization {
  import opened JsString

  predicate IsDotOrDash(c: char) {
    c == '.' || c == '-'
  }

  /** The characters `[.\-\s|]` keeps. */
  predicate IsMorseInputChar(c: char) {
    IsDotOrDash(c) || IsWhitespace(c) || c == '|'
  }

  /** The characters of canonical Morse text. */
  predicate IsMorseChar(c: char) {
    IsDotOrDash(c) || c == ' ' || c == '|'
  }

  // ---------------------------------------------------------------------------------------
  // Canonical Morse text

  /**
   * The length of the step at the front of the rest of a canonical text: a dot or dash (1), a
   * space and a dot or dash, which starts the next code of the word (2), or the word separator
   * " | " and a dot or dash, which starts the next word (4); 0 when none fits.
   */
  function CanonicalStep(t: string): (k: nat)
    ensures k <= |t|
  {
    if t == [] then 0
    else if IsDotOrDash(t[0]) then 1
    else if |t| >= 2 && t[0] == ' ' && IsDotOrDash(t[1]) then 2
    else if |t| >= 4 && t[0] == ' ' && t[1] == '|' && t[2] == ' ' && IsDotOrDash(t[3]) then 4
    else 0
  }

  /** Canonical Morse text: empty, or a dot or dash followed by canonical steps. */
  predicate Canonical(s: string) {
    s == [] || (IsDotOrDash(s[0]) && CanonicalTail(s[1..]))
  }

  predicate CanonicalTail(t: string)
    decreases |t|
  {
    t == [] || (CanonicalStep(t) > 0 && CanonicalTail(t[CanonicalStep(t)..]))
  }

  lemma {:induction false} TailShape(t: string)
    requires CanonicalTail(t)
    ensures forall i :: 0 <= i < |t| ==> IsMorseChar(t[i])
    ensures t != [] ==> IsDotOrDash(t[|t| - 1]) && t[0] != '|'
    ensures forall i :: 0 <= i < |t| - 1 ==> !(t[i] == ' ' && t[i + 1] == ' ')
    ensures forall i :: 0 <= i < |t| && t[i] == '|' ==>
      1 <= i < |t| - 2 && t[i - 1] == ' ' && t[i + 1] == ' ' && IsDotOrDash(t[i + 2])
      && (i >= 2 ==> IsDotOrDash(t[i - 2]))
    decreases |t|
  {
    if t != [] {
      TailShape(t[CanonicalStep(t)..]);
    }
  }

  /**
   * What canonical text looks like character by character: only dots, dashes, spaces and
   * pipes; a dot or dash at both ends; no two spaces in a row; and every pipe the middle of a
   * " | " with a dot or dash on each side, so no two separators touch.
   */
  lemma CanonicalShape(s: string)
    requires Canonical(s)
    ensures forall i :: 0 <= i < |s| ==> IsMorseChar(s[i])
    ensures s != [] ==> IsDotOrDash(s[0]) && IsDotOrDash(s[|s| - 1])
    ensures forall i :: 0 <= i < |s| - 1 ==> !(s[i] == ' ' && s[i + 1] == ' ')
    ensures forall i :: 0 <= i < |s| && s[i] == '|' ==>
      2 <= i < |s| - 2 && s[i - 1] == ' ' && s[i + 1] == ' ' && IsDotOrDash(s[i - 2]) && IsDotOrDash(s[i + 2])
  {
    if s != [] {
      TailShape(s[1..]);
    }
  }

  lemma {:induction false} TailLast(t: string)
    requires CanonicalTail(t) && t != []
    ensures IsDotOrDash(t[|t| - 1])
    decreases |t|
  {
    var k := CanonicalStep(t);
    if k < |t| {
      TailLast(t[k..]);
    }
  }

  /** Non-empty canonical text starts and ends with a dot or dash. */
  lemma CanonicalEnds(b: string)
    requires b != [] && Canonical(b)
    ensures IsDotOrDash(b[0]) && IsDotOrDash(b[|b| - 1])
    ensures !IsWhitespace(b[0]) && !IsWhitespace(b[|b| - 1])
  {
    if |b| > 1 {
      TailLast(b[1..]);
    }
  }

  /** Slicing a concatenation inside its first part. */
  lemma SliceAppend(x: string, y: string, k: int)
    requires 0 <= k <= |x|
    ensures (x + y)[k..] == x[k..] + y
  {
  }

  /** The first step of canonical text is the same whatever follows it. */
  lemma StepOfAppend(x: string, y: string)
    requires x != [] && CanonicalTail(x)
    ensures CanonicalStep(x + y) == CanonicalStep(x)
  {
    var k := CanonicalStep(x);
    assert forall i :: 0 <= i < k ==> (x + y)[i] == x[i];
  }

  lemma {:induction false} TailAppend(x: string, y: string)
    requires CanonicalTail(x) && CanonicalTail(y)
    ensures CanonicalTail(x + y)
    decreases |x|
  {
    if x == [] {
      assert x + y == y;
    } else {
      var k := CanonicalStep(x);
      StepOfAppend(x, y);
      TailAppend(x[k..], y);
      SliceAppend(x, y, k);
    }
  }

  /** The text after the first character of `a + sep + b`. */
  lemma DropFirstAppend(a: string, sep: string, b: string)
    requires a != []
    ensures (a + sep + b)[1..] == a[1..] + (sep + b)
  {
  }

  /** A separator in front of non-empty canonical text is one canonical step. */
  lemma SeparatorStep(sep: string, b: string)
    requires b != [] && Canonical(b)
    requires sep == " " || sep == " | "
    ensures CanonicalTail(sep + b)
  {
    assert CanonicalStep(sep + b) == |sep| + 1;
    assert (sep + b)[|sep| + 1..] == b[1..];
  }

  /** A canonical word or text, a separator and another one make canonical text. */
  lemma CanonicalAppend(a: string, sep: string, b: string)
    requires Canonical(a) && Canonical(b) && a != [] && b != []
    requires sep == " " || sep == " | "
    ensures Canonical(a + sep + b)
  {
    SeparatorStep(sep, b);
    TailAppend(a[1..], sep + b);
    DropFirstAppend(a, sep, b);
  }

  /** A dot or dash in front of non-empty canonical text. */
  lemma MarkBefore(x: char, b: string)
    requires IsDotOrDash(x) && b != [] && Canonical(b)
    ensures Canonical([x] + b)
  {
    assert CanonicalTail(b) by {
      assert CanonicalStep(b) == 1;
    }
    assert ([x] + b)[1..] == b;
  }

  // ---------------------------------------------------------------------------------------
  // The rewrite steps

  /** `replace(/[^.\-\s|]/g, '')`. */
  function StripInvalid(s: string): (r: string)
    ensures forall i :: 0 <= i < |r| ==> IsMorseInputChar(r[i])
    ensures forall i :: 0 <= i < |s| && IsMorseInputChar(s[i]) ==> s[i] in r
    ensures (forall i :: 0 <= i < |s| ==> IsMorseInputChar(s[i])) ==> r == s
    decreases |s|
  {
    if s == [] then []
    else (if IsMorseInputChar(s[0]) then [s[0]] else []) + StripInvalid(s[1..])
  }

  // `replace(/\s*\|\s*/g, ' | ')`: a pipe and the whitespace around it become " | ".
  function SpacePipes(s: string): string
    decreases |s|
  {
    if s == [] then []
    else
      var t := TrimStart(s);
      if t != [] && t[0] == '|' then " | " + SpacePipes(TrimStart(t[1..]))
      else [s[0]] + SpacePipes(s[1..])
  }

  /** Whitespace, a pipe, whitespace: one match of `\s\|\s`. */
  predicate StartsWithSeparator(s: string) {
    |s| >= 3 && IsWhitespace(s[0]) && s[1] == '|' && IsWhitespace(s[2])
  }

  /** What `(\s\|\s)+` consumes: every separator at the front. */
  function DropSeparators(s: string): (r: string)
    ensures |r| <= |s| && !StartsWithSeparator(r)
    decreases |s|
  {
    if StartsWithSeparator(s) then DropSeparators(s[3..]) else s
  }

  /** `replace(/(\s\|\s)+/g, ' | ')`: a run of separators becomes one. */
  function MergeSeparators(s: string): string
    decreases |s|
  {
    if s == [] then []
    else if StartsWithSeparator(s) then " | " + MergeSeparators(DropSeparators(s[3..]))
    else [s[0]] + MergeSeparators(s[1..])
  }

  /**
   * `replace(/^\|\s*|\s*\|$/g, '')`: a leading pipe with the whitespace after it, and a
   * trailing pipe with the whitespace before it, are removed.
   */
  function StripEdgePipes(s: string): string {
    StripTrailingPipe(StripLeadingPipe(s))
  }

  /** The first alternative, `^\|\s*`. */
  function StripLeadingPipe(s: string): string {
    if s != [] && s[0] == '|' then TrimStart(s[1..]) else s
  }

  /** The second alternative, `\s*\|$`, on what the first one left. */
  function StripTrailingPipe(a: string): string {
    if a != [] && a[|a| - 1] == '|' then TrimEnd(a[..|a| - 1]) else a
  }

  /** `normalizeMorseCode`. */
  function NormalizeMorseCode(morse: string): string {
    StripEdgePipes(Trim(MergeSeparators(SpacePipes(CollapseWhitespace(StripInvalid(morse))))))
  }

  // ---------------------------------------------------------------------------------------
  // After collapsing whitespace: Morse characters with no two spaces in a row

  predicate SingleSpaced(s: string) {
    (forall i :: 0 <= i < |s| ==> IsMorseChar(s[i]))
    && (forall i :: 0 <= i < |s| - 1 ==> !(s[i] == ' ' && s[i + 1] == ' '))
  }

  lemma CollapsedIsSingleSpaced(s: string)
    requires forall i :: 0 <= i < |s| ==> IsMorseInputChar(s[i])
    ensures SingleSpaced(CollapseWhitespace(s))
  {
    var r := CollapseWhitespace(s);
    forall i | 0 <= i < |r|
      ensures IsMorseChar(r[i])
    {
      if !IsWhitespace(r[i]) {
        assert r[i] in r;
        var j :| 0 <= j < |s| && s[j] == r[i];
      }
    }
  }

  lemma SingleSpacedSuffix(s: string, k: nat)
    requires SingleSpaced(s) && k <= |s|
    ensures SingleSpaced(s[k..])
  {
    assert forall i :: 0 <= i < |s| - k ==> s[k..][i] == s[k + i];
  }

  lemma SingleSpacedTrimStart(s: string)
    requires SingleSpaced(s)
    ensures SingleSpaced(TrimStart(s))
  {
    SingleSpacedSuffix(s, |s| - |TrimStart(s)|);
  }

  // ---------------------------------------------------------------------------------------
  // After spacing the pipes: every pipe inside " | "

  /** What may follow a separator once the pipes are spaced: nothing, a dot or dash, or another separator. */
  predicate SeparatorFollower(t: string) {
    t == [] || IsDotOrDash(t[0]) || (|t| >= 2 && t[0] == ' ' && t[1] == '|')
  }

  /**
   * The step at the front of a string with spaced pipes: a dot or dash (1), a lone space before
   * a dot or dash or at the end (1), or a separator " | " before what `SeparatorFollower`
   * allows (3); 0 when none fits.
   */
  function SpacedStep(s: string): (k: nat)
    ensures k <= |s|
  {
    if s == [] then 0
    else if IsDotOrDash(s[0]) then 1
    else if s[0] == ' ' && (|s| == 1 || IsDotOrDash(s[1])) then 1
    else if |s| >= 3 && s[0] == ' ' && s[1] == '|' && s[2] == ' ' && SeparatorFollower(s[3..]) then 3
    else 0
  }

  predicate SpacedPipes(s: string)
    decreases |s|
  {
    s == [] || (SpacedStep(s) > 0 && SpacedPipes(s[SpacedStep(s)..]))
  }

  /** The two ways `SpacePipes` unfolds. */
  lemma SpacePipesUnfold(s: string)
    requires s != []
    ensures var t := TrimStart(s);
      if t != [] && t[0] == '|' then SpacePipes(s) == " | " + SpacePipes(TrimStart(t[1..]))
      else SpacePipes(s) == [s[0]] + SpacePipes(s[1..])
  {
  }

  lemma SpacePipesKeepsDotOrDash(s: string)
    requires s != [] && IsDotOrDash(s[0])
    ensures SpacePipes(s) == [s[0]] + SpacePipes(s[1..])
  {
    assert !IsWhitespace(s[0]);
    assert TrimStart(s) == s;
  }

  lemma {:induction false} SpacePipesShape(s: string)
    requires SingleSpaced(s)
    ensures SpacedPipes(SpacePipes(s))
    ensures s == [] || s[0] != ' ' ==> SeparatorFollower(SpacePipes(s))
    decreases |s|, 1
  {
    if s != [] {
      var t := TrimStart(s);
      SpacePipesUnfold(s);
      if t != [] && t[0] == '|' {
        PipeShape(s);
      } else if s[0] == ' ' {
        SpaceShape(s);
      } else {
        SingleSpacedSuffix(s, 1);
        SpacePipesShape(s[1..]);
        var r := SpacePipes(s);
        assert SpacedStep(r) == 1;
        assert r[1..] == SpacePipes(s[1..]);
      }
    }
  }

  /** The text starts with a pipe, possibly after whitespace, that `SpacePipes` spaces. */
  lemma {:induction false} PipeShape(s: string)
    requires SingleSpaced(s)
    requires var t := TrimStart(s); t != [] && t[0] == '|'
    ensures SpacedPipes(SpacePipes(s)) && SeparatorFollower(SpacePipes(s))
    decreases |s|, 0
  {
    var t := TrimStart(s);
    var u := TrimStart(t[1..]);
    assert SpacePipes(s) == " | " + SpacePipes(u) by {
      SpacePipesUnfold(s);
    }
    SingleSpacedTrimStart(s);
    SingleSpacedSuffix(t, 1);
    SingleSpacedTrimStart(t[1..]);
    SpacePipesShape(u);
    assert u == [] || u[0] != ' ';
    SeparatorBefore(SpacePipes(u));
  }

  /** A separator in front of spaced pipes that may follow one. */
  lemma SeparatorBefore(r: string)
    requires SpacedPipes(r) && SeparatorFollower(r)
    ensures SpacedPipes(" | " + r) && SeparatorFollower(" | " + r)
  {
    var p := " | " + r;
    assert p[3..] == r;
    assert SpacedStep(p) == 3;
  }

  /** The text starts with a space that `SpacePipes` copies. */
  lemma {:induction false} SpaceShape(s: string)
    requires SingleSpaced(s) && s != [] && s[0] == ' '
    requires var t := TrimStart(s); t == [] || t[0] != '|'
    ensures SpacedPipes(SpacePipes(s))
    decreases |s|, 0
  {
    SpacePipesUnfold(s);
    SingleSpacedSuffix(s, 1);
    SpacePipesShape(s[1..]);
    if |s| > 1 {
      assert s[1] != ' ';
      assert TrimStart(s) == s[1..];
      SpacePipesKeepsDotOrDash(s[1..]);
    }
    var r := SpacePipes(s);
    assert SpacedStep(r) == 1;
    assert r[1..] == SpacePipes(s[1..]);
  }

  // ---------------------------------------------------------------------------------------
  // After merging separators: no two separators in a row

  /** As `SpacedStep`, but a separator must be followed by nothing or a dot or dash. */
  function MergedStep(s: string): (k: nat)
    ensures k <= |s|
  {
    if s == [] then 0
    else if IsDotOrDash(s[0]) then 1
    else if s[0] == ' ' && (|s| == 1 || IsDotOrDash(s[1])) then 1
    else if |s| >= 3 && s[0] == ' ' && s[1] == '|' && s[2] == ' ' && (|s| == 3 || IsDotOrDash(s[3])) then 3
    else 0
  }

  predicate MergedPipes(s: string)
    decreases |s|
  {
    s == [] || (MergedStep(s) > 0 && MergedPipes(s[MergedStep(s)..]))
  }

  lemma {:induction false} DropSeparatorsShape(t: string)
    requires SpacedPipes(t) && SeparatorFollower(t)
    ensures var u := DropSeparators(t); SpacedPipes(u) && (u == [] || IsDotOrDash(u[0]))
    decreases |t|
  {
    if StartsWithSeparator(t) {
      assert SpacedStep(t) == 3;
      DropSeparatorsShape(t[3..]);
    }
  }

  lemma MergeSeparatorsKeepsDotOrDash(s: string)
    requires s != [] && IsDotOrDash(s[0])
    ensures MergeSeparators(s) == [s[0]] + MergeSeparators(s[1..])
  {
  }

  lemma {:induction false} MergeSeparatorsShape(s: string)
    requires SpacedPipes(s)
    ensures MergedPipes(MergeSeparators(s))
    decreases |s|
  {
    if s != [] {
      var k := SpacedStep(s);
      if StartsWithSeparator(s) {
        assert k == 3;
        var u := DropSeparators(s[3..]);
        DropSeparatorsShape(s[3..]);
        var r := MergeSeparators(u);
        assert MergeSeparators(s) == " | " + r;
        if u != [] {
          MergeSeparatorsShape(u);
          MergeSeparatorsKeepsDotOrDash(u);
        }
        assert MergedStep(" | " + r) == 3;
        assert (" | " + r)[3..] == r;
      } else {
        assert k == 1;
        MergeSeparatorsShape(s[1..]);
        if |s| > 1 && IsDotOrDash(s[1]) {
          MergeSeparatorsKeepsDotOrDash(s[1..]);
        }
        var r := MergeSeparators(s);
        assert r == [s[0]] + MergeSeparators(s[1..]);
        assert MergedStep(r) == 1;
        assert r[1..] == MergeSeparators(s[1..]);
      }
    }
  }

  // ---------------------------------------------------------------------------------------
  // Trimming the ends

  /** The trailing " | " or " " of `s`, if any. */
  function TrailingSeparator(s: string): (t: string)
    ensures t == "" || t == " " || t == " | "
  {
    if |s| >= 3 && s[|s| - 3..] == " | " then " | "
    else if |s| >= 1 && s[|s| - 1] == ' ' then " "
    else ""
  }

  /** `s` with its trailing " | " or " " removed. */
  function DropTrailingSeparator(s: string): (b: string)
    ensures s == b + TrailingSeparator(s)
  {
    if |s| >= 3 && s[|s| - 3..] == " | " then s[..|s| - 3]
    else if |s| >= 1 && s[|s| - 1] == ' ' then s[..|s| - 1]
    else s
  }

  /** Removing a trailing separator from a text that ends with a part starting with a dot or dash leaves the front alone. */
  lemma DropTrailingAfter(p: string, r: string)
    requires r != [] && IsDotOrDash(r[0])
    ensures DropTrailingSeparator(p + r) == p + DropTrailingSeparator(r)
  {
    var s := p + r;
    if |r| >= 3 {
      assert s[|s| - 3..] == r[|r| - 3..];
      if r[|r| - 3..] == " | " {
        assert s[..|s| - 3] == p + r[..|r| - 3];
      } else if r[|r| - 1] == ' ' {
        assert s[..|s| - 1] == p + r[..|r| - 1];
      }
    } else {
      assert |s| >= 3 ==> s[|s| - 3..] != " | " by {
        if |s| >= 3 {
          assert s[|s| - 3..][3 - |r|] == r[0];
        }
      }
      if r[|r| - 1] == ' ' {
        assert s[..|s| - 1] == p + r[..|r| - 1];
      }
    }
  }

  /**
   * A merged string that starts with a dot or dash is a non-empty canonical text followed by
   * its trailing separator, if any.
   */
  lemma {:induction false} MergedBody(s: string)
    requires MergedPipes(s) && s != [] && IsDotOrDash(s[0])
    ensures var b := DropTrailingSeparator(s); b != [] && Canonical(b)
    decreases |s|, 1
  {
    MergedAfterMark(s);
    if |s| == 1 {
      LoneMark(s);
    } else if IsDotOrDash(s[1]) {
      BodyAfterMark(s);
    } else if MergedStep(s[1..]) == 1 {
      SpaceAfterMark(s);
      BodyAfter(s, " ");
    } else {
      SeparatorAfterMark(s);
      BodyAfter(s, " | ");
    }
  }

  /** The rest of a merged string after a leading dot or dash is merged. */
  lemma MergedAfterMark(s: string)
    requires MergedPipes(s) && s != [] && IsDotOrDash(s[0])
    ensures MergedPipes(s[1..])
  {
    assert MergedStep(s) == 1;
  }

  /** A lone dot or dash is its own canonical body. */
  lemma LoneMark(s: string)
    requires |s| == 1 && IsDotOrDash(s[0])
    ensures var b := DropTrailingSeparator(s); b != [] && Canonical(b)
  {
    assert DropTrailingSeparator(s) == s;
  }

  /** A space after the leading dot or dash of a merged string. */
  lemma SpaceAfterMark(s: string)
    requires |s| >= 2 && !IsDotOrDash(s[1]) && MergedPipes(s[1..]) && MergedStep(s[1..]) == 1
    ensures s[1..2] == " " && (|s| == 2 || IsDotOrDash(s[2])) && MergedPipes(s[2..])
  {
    var r := s[1..];
    assert r[0] == ' ';
    assert r[1..] == s[2..];
  }

  /** A separator after the leading dot or dash of a merged string. */
  lemma SeparatorAfterMark(s: string)
    requires |s| >= 2 && !IsDotOrDash(s[1]) && MergedPipes(s[1..]) && MergedStep(s[1..]) != 1
    ensures |s| >= 4 && s[1..4] == " | " && (|s| == 4 || IsDotOrDash(s[4])) && MergedPipes(s[4..])
  {
    var r := s[1..];
    assert MergedStep(r) == 3;
    assert r[0] == ' ' && r[1] == '|' && r[2] == ' ';
    assert r[3..] == s[4..];
  }

  /** `MergedBody` when the first dot or dash is followed by another. */
  lemma {:induction false} BodyAfterMark(s: string)
    requires |s| >= 2 && IsDotOrDash(s[0]) && IsDotOrDash(s[1]) && MergedPipes(s[1..])
    ensures var b := DropTrailingSeparator(s); b != [] && Canonical(b)
    decreases |s|, 0
  {
    var x := s[0];
    var r := s[1..];
    assert s == [x] + r;
    MergedBody(r);
    DropTrailingAfter([x], r);
    MarkBefore(x, DropTrailingSeparator(r));
  }

  /** `MergedBody` when the first dot or dash is followed by `sep`. */
  lemma {:induction false} BodyAfter(s: string, sep: string)
    requires sep == " " || sep == " | "
    requires |s| > |sep| && IsDotOrDash(s[0]) && s[1..|sep| + 1] == sep
    requires MergedPipes(s[|sep| + 1..]) && (|s| == |sep| + 1 || IsDotOrDash(s[|sep| + 1]))
    ensures var b := DropTrailingSeparator(s); b != [] && Canonical(b)
    decreases |s|, 0
  {
    var x := s[0];
    var u := s[|sep| + 1..];
    assert s == ([x] + sep) + u;
    if u == [] {
      assert DropTrailingSeparator(s) == [x];
    } else {
      MergedBody(u);
      DropTrailingAfter([x] + sep, u);
      CanonicalAppend([x], sep, DropTrailingSeparator(u));
    }
  }

  /** A dot or dash at both ends. */
  predicate DotOrDashEnds(b: string) {
    b != [] && IsDotOrDash(b[0]) && IsDotOrDash(b[|b| - 1])
  }

  /** TrimEnd removes a trailing space, and the space before a trailing pipe. */
  lemma TrimEndBody(b: string, t: string)
    requires DotOrDashEnds(b) && (t == "" || t == " " || t == " | ")
    ensures TrimEnd(b + t) == if t == " | " then b + " |" else b
  {
    var s := b + t;
    if t == "" {
      assert s == b;
    } else if t == " " {
      assert s[..|s| - 1] == b;
      assert TrailingWhitespace(s) == 1;
    } else {
      assert s[..|s| - 1] == b + " |";
      assert TrailingWhitespace(s) == 1;
    }
  }

  /** Nothing to strip when neither end is a pipe. */
  lemma StripEdgeKeeps(x: string)
    requires x != [] && x[0] != '|' && x[|x| - 1] != '|'
    ensures StripEdgePipes(x) == x
  {
  }

  /** A trailing pipe goes, with the whitespace before it. */
  lemma StripEdgeTrailing(x: string)
    requires DotOrDashEnds(x)
    ensures StripEdgePipes(x + " |") == x
  {
    var y := x + " |";
    assert y[..|y| - 1] == x + " ";
    assert (x + " ")[..|x|] == x;
    assert TrimEnd(x) == x;
  }

  /** A leading pipe goes, with the whitespace after it. */
  lemma StripEdgeLeading(x: string)
    requires x != [] && IsDotOrDash(x[0])
    ensures StripEdgePipes("| " + x) == StripEdgePipes(x)
  {
    LeadingPipeGone(x);
  }

  /** The leading pipe and the space after it go; a text starting with a dot or dash is left alone. */
  lemma LeadingPipeGone(x: string)
    requires x != [] && IsDotOrDash(x[0])
    ensures StripLeadingPipe("| " + x) == x && StripLeadingPipe(x) == x
  {
    var s := "| " + x;
    assert s[0] == '|';
    assert s[1..] == " " + x;
    TrimStartAfterBlank(" ", x);
  }

  /** Trimming the end of a body and its trailing separator, then the edge pipes, gives back the body. */
  lemma StripTrimmedBody(b: string, t: string)
    requires DotOrDashEnds(b) && (t == "" || t == " " || t == " | ")
    ensures TrimEnd(b + t) != [] && TrimEnd(b + t)[0] == b[0]
    ensures StripEdgePipes(TrimEnd(b + t)) == b
  {
    TrimEndBody(b, t);
    if t == " | " {
      StripEdgeTrailing(b);
    } else {
      StripEdgeKeeps(b);
    }
  }

  /** The three ways a merged string can start, before its first dot or dash. */
  lemma TrimLead(lead: string, e: string)
    requires lead == "" || lead == " " || lead == " | "
    requires e != [] && IsDotOrDash(e[0])
    ensures Trim(lead + e) == (if lead == " | " then "| " else "") + TrimEnd(e)
  {
    if lead == "" {
      assert lead + e == e;
      assert TrimStart(e) == e;
    } else if lead == " " {
      TrimStartAfterBlank(" ", e);
    } else {
      assert lead + e == " " + ("| " + e);
      TrimStartAfterBlank(" ", "| " + e);
      assert !IsWhitespace(e[0]);
      TrimEndAfter("| ", e);
    }
  }

  /** A merged string: an optional lone space or separator (`lead`), then one that starts with a dot or dash. */
  lemma EdgesOf(d: string, lead: string)
    requires lead == "" || lead == " " || lead == " | "
    requires |d| > |lead| && d[..|lead|] == lead && IsDotOrDash(d[|lead|]) && MergedPipes(d[|lead|..])
    ensures Canonical(StripEdgePipes(Trim(d)))
  {
    var e := d[|lead|..];
    assert d == lead + e;
    MergedBody(e);
    var b := DropTrailingSeparator(e);
    var t := TrailingSeparator(e);
    CanonicalEnds(b);
    TrimLead(lead, e);
    StripTrimmedBody(b, t);
    if lead == " | " {
      StripEdgeLeading(TrimEnd(e));
    }
  }

  /** A lone space normalizes to nothing. */
  lemma LoneSpace()
    ensures StripEdgePipes(Trim(" ")) == ""
  {
    assert LeadingWhitespace(" ") == 1;
    assert TrimStart(" ") == "";
  }

  /** A lone separator normalizes to nothing. */
  lemma LoneSeparator()
    ensures StripEdgePipes(Trim(" | ")) == ""
  {
    var d := " | ";
    assert LeadingWhitespace(d) == 1;
    assert TrimStart(d) == "| ";
    assert TrailingWhitespace("| ") == 1;
    assert TrimEnd("| ") == "|";
  }

  lemma EmptyTrims()
    ensures StripEdgePipes(Trim("")) == ""
  {
    assert TrimStart("") == "";
  }

  /** Trimming whitespace and then the edge pipes from a merged string leaves canonical text. */
  lemma EdgesOfMerged(d: string)
    requires MergedPipes(d)
    ensures Canonical(StripEdgePipes(Trim(d)))
  {
    if d == [] {
      EmptyTrims();
    } else if IsDotOrDash(d[0]) {
      EdgesAfterMark(d);
    } else if MergedStep(d) == 1 {
      EdgesAfterSpace(d);
    } else {
      EdgesAfterSeparator(d);
    }
  }

  /** `EdgesOfMerged` for a merged string that starts with a dot or dash. */
  lemma EdgesAfterMark(d: string)
    requires MergedPipes(d) && d != [] && IsDotOrDash(d[0])
    ensures Canonical(StripEdgePipes(Trim(d)))
  {
    assert d[..0] == "" && d[0..] == d;
    EdgesOf(d, "");
  }

  /** `EdgesOfMerged` for a merged string that starts with a lone space. */
  lemma EdgesAfterSpace(d: string)
    requires MergedPipes(d) && d != [] && !IsDotOrDash(d[0]) && MergedStep(d) == 1
    ensures Canonical(StripEdgePipes(Trim(d)))
  {
    if |d| == 1 {
      assert d == " ";
      LoneSpace();
    } else {
      assert d[..1] == " ";
      EdgesOf(d, " ");
    }
  }

  /** `EdgesOfMerged` for a merged string that starts with a separator. */
  lemma EdgesAfterSeparator(d: string)
    requires MergedPipes(d) && d != [] && !IsDotOrDash(d[0]) && MergedStep(d) != 1
    ensures Canonical(StripEdgePipes(Trim(d)))
  {
    assert MergedStep(d) == 3;
    assert d[..3] == " | ";
    if |d| == 3 {
      assert d == " | ";
      LoneSeparator();
    } else {
      EdgesOf(d, " | ");
    }
  }

  /** The result of normalizeMorseCode is always canonical Morse text (see `CanonicalShape`). */
  lemma NormalizedIsCanonical(morse: string)
    ensures Canonical(NormalizeMorseCode(morse))
  {
    var a := StripInvalid(morse);
    var b := CollapseWhitespace(a);
    CollapsedIsSingleSpaced(a);
    var c := SpacePipes(b);
    SpacePipesShape(b);
    var d := MergeSeparators(c);
    MergeSeparatorsShape(c);
    EdgesOfMerged(d);
  }

  // ---------------------------------------------------------------------------------------
  // Canonical text is left alone

  /** A space before a dot or dash is copied by `SpacePipes`. */
  lemma SpacePipesSpaceStep(t: string)
    requires |t| >= 2 && t[0] == ' ' && IsDotOrDash(t[1])
    ensures SpacePipes(t) == [' '] + SpacePipes(t[1..])
  {
    assert LeadingWhitespace(t[1..]) == 0;
    assert LeadingWhitespace(t) == 1;
    SpacePipesUnfold(t);
  }

  /** A separator before a dot or dash is copied by `SpacePipes`. */
  lemma SpacePipesSeparatorStep(t: string)
    requires |t| >= 4 && t[0] == ' ' && t[1] == '|' && t[2] == ' ' && IsDotOrDash(t[3])
    ensures SpacePipes(t) == " | " + SpacePipes(t[3..])
  {
    var p := t[1..];
    assert LeadingWhitespace(p) == 0;
    assert LeadingWhitespace(t) == 1;
    assert TrimStart(t) == p;
    var q := p[1..];
    assert q[1..] == t[3..];
    assert LeadingWhitespace(t[3..]) == 0;
    assert LeadingWhitespace(q) == 1;
    assert TrimStart(q) == t[3..];
    SpacePipesUnfold(t);
  }

  /** How a canonical step splits off the front of the text. */
  lemma GlueStep(t: string, k: nat)
    requires CanonicalTail(t) && t != [] && k == CanonicalStep(t)
    ensures k == 1 ==> t == [t[0]] + t[1..]
    ensures k == 2 ==> t == [' '] + ([t[1]] + t[2..])
    ensures k == 4 ==> t == " | " + ([t[3]] + t[4..])
  {
  }

  lemma {:induction false} SpacePipesTail(t: string)
    requires CanonicalTail(t)
    ensures SpacePipes(t) == t
    decreases |t|
  {
    if t != [] {
      var k := CanonicalStep(t);
      SpacePipesTail(t[k..]);
      GlueStep(t, k);
      if k == 1 {
        SpacePipesKeepsDotOrDash(t);
      } else if k == 2 {
        SpacePipesSpaceStep(t);
        assert t[1..][1..] == t[2..];
        SpacePipesKeepsDotOrDash(t[1..]);
      } else {
        SpacePipesSeparatorStep(t);
        assert t[3..][1..] == t[4..];
        SpacePipesKeepsDotOrDash(t[3..]);
      }
    }
  }

  lemma {:induction false} MergeSeparatorsTail(t: string)
    requires CanonicalTail(t)
    ensures MergeSeparators(t) == t
    decreases |t|
  {
    if t != [] {
      var k := CanonicalStep(t);
      MergeSeparatorsTail(t[k..]);
      GlueStep(t, k);
      if k == 1 {
        MergeSeparatorsKeepsDotOrDash(t);
      } else if k == 2 {
        assert !StartsWithSeparator(t);
        assert t[1..][1..] == t[2..];
        MergeSeparatorsKeepsDotOrDash(t[1..]);
      } else {
        assert StartsWithSeparator(t);
        assert DropSeparators(t[3..]) == t[3..];
        assert t[3..][1..] == t[4..];
        MergeSeparatorsKeepsDotOrDash(t[3..]);
      }
    }
  }

  lemma ConsBack(s: string)
    requires s != []
    ensures [s[0]] + s[1..] == s
  {
  }

  lemma SpacePipesCanonical(s: string)
    requires Canonical(s)
    ensures SpacePipes(s) == s
  {
    if s != [] {
      SpacePipesKeepsDotOrDash(s);
      SpacePipesTail(s[1..]);
      ConsBack(s);
    }
  }

  lemma MergeSeparatorsCanonical(s: string)
    requires Canonical(s)
    ensures MergeSeparators(s) == s
  {
    if s != [] {
      MergeSeparatorsKeepsDotOrDash(s);
      MergeSeparatorsTail(s[1..]);
    }
  }

  lemma CanonicalChars(s: string)
    requires Canonical(s)
    ensures forall i :: 0 <= i < |s| ==> IsMorseInputChar(s[i])
    ensures forall i :: 0 <= i < |s| && IsWhitespace(s[i]) ==> s[i] == ' '
    ensures forall i :: 0 <= i < |s| - 1 ==> !(s[i] == ' ' && s[i + 1] == ' ')
  {
    CanonicalShape(s);
  }

  lemma FirstStepsCanonical(s: string)
    requires Canonical(s)
    ensures CollapseWhitespace(StripInvalid(s)) == s
  {
    CanonicalChars(s);
    assert StripInvalid(s) == s;
    CollapseUnchanged(s);
  }

  lemma LastStepsCanonical(s: string)
    requires Canonical(s)
    ensures StripEdgePipes(Trim(s)) == s
  {
    if s != [] {
      CanonicalEnds(s);
      TrimUnchanged(s);
      StripEdgeKeeps(s);
    } else {
      EmptyTrims();
    }
  }

  /** normalizeMorseCode leaves canonical text unchanged. */
  lemma NormalizeCanonical(s: string)
    requires Canonical(s)
    ensures NormalizeMorseCode(s) == s
  {
    FirstStepsCanonical(s);
    SpacePipesCanonical(s);
    MergeSeparatorsCanonical(s);
    LastStepsCanonical(s);
  }

  /** Normalizing twice is normalizing once. */
  lemma NormalizeIdempotent(morse: string)
    ensures NormalizeMorseCode(NormalizeMorseCode(morse)) == NormalizeMorseCode(morse)
  {
    NormalizedIsCanonical(morse);
    NormalizeCanonical(NormalizeMorseCode(morse));
  }
  // ---------------------------------------------------------------------------------------
  // Whitespace-only input

  /** `SpacePipes` leaves whitespace-only text alone: it has no pipe. */
  lemma {:induction false} SpacePipesBlank(s: string)
    requires IsBlank(s)
    ensures SpacePipes(s) == s
    decreases |s|
  {
    if s != [] {
      assert TrimStart(s) == [];
      SpacePipesBlank(s[1..]);
    }
  }

  /** `MergeSeparators` leaves whitespace-only text alone: it has no separator. */
  lemma {:induction false} MergeSeparatorsBlank(s: string)
    requires IsBlank(s)
    ensures MergeSeparators(s) == s
    decreases |s|
  {
    if s != [] {
      assert !StartsWithSeparator(s) by {
        if |s| >= 2 { assert IsWhitespace(s[1]); }
      }
      MergeSeparatorsBlank(s[1..]);
    }
  }

  /** Whitespace-only Morse normalizes to the empty string. */
  lemma NormalizeBlank(morse: string)
    requires IsBlank(morse)
    ensures NormalizeMorseCode(morse) == ""
  {
    assert StripInvalid(morse) == morse;
    var b := CollapseWhitespace(morse);
    CollapseBlank(morse);
    SpacePipesBlank(b);
    MergeSeparatorsBlank(b);
  }

  // ---------------------------------------------------------------------------------------
  // A separator written with extra spaces

  /** A pipe between two whitespace runs collapses to a pipe between single spaces. */
  lemma SeparatorRun(w1: string, w2: string, b: string)
    requires w1 != [] && IsBlank(w1) && w2 != [] && IsBlank(w2)
    requires b != [] && !IsWhitespace(b[0])
    ensures CollapseWhitespace(w1 + (['|'] + (w2 + b))) == [' ', '|', ' '] + CollapseWhitespace(b)
  {
    var u := w2 + b;
    CollapseRun(w2, b);
    CollapseStep('|', u);
    CollapseRun(w1, ['|'] + u);
    SeparatorGlue(CollapseWhitespace(b));
  }

  lemma SeparatorGlue(x: string)
    ensures [' '] + (['|'] + ([' '] + x)) == [' ', '|', ' '] + x
  {
  }

  lemma SpacedPieces(a: string, b: string)
    ensures a + "  |  " + b == a + ("  " + (['|'] + ("  " + b)))
    ensures a + ([' ', '|', ' '] + b) == a + " | " + b
  {
  }

  /** Canonical Morse has nothing for the whitespace collapse to do. */
  lemma CollapseCanonical(s: string)
    requires Canonical(s)
    ensures CollapseWhitespace(s) == s
  {
    CanonicalChars(s);
    CollapseUnchanged(s);
  }

  lemma CollapsePieces(a: string, b: string)
    requires Canonical(a) && Canonical(b) && a != [] && b != []
    ensures CollapseWhitespace(a + ("  " + (['|'] + ("  " + b)))) == a + ([' ', '|', ' '] + b)
  {
    var rest := "  " + (['|'] + ("  " + b));
    CanonicalShape(a);
    CanonicalShape(b);
    CollapseAppend(a, rest);
    SeparatorRun("  ", "  ", b);
    CollapseCanonical(a);
    CollapseCanonical(b);
  }

  /** Collapsing turns the double spaces around the pipe into single ones. */
  lemma SpacedCollapse(a: string, b: string)
    requires Canonical(a) && Canonical(b) && a != [] && b != []
    ensures CollapseWhitespace(a + "  |  " + b) == a + " | " + b
  {
    SpacedPieces(a, b);
    CollapsePieces(a, b);
  }

  /** Nothing is stripped from two canonical words around a spaced-out pipe. */
  lemma SpacedKept(a: string, b: string)
    requires Canonical(a) && Canonical(b)
    ensures StripInvalid(a + "  |  " + b) == a + "  |  " + b
  {
    var s := a + "  |  " + b;
    CanonicalChars(a);
    CanonicalChars(b);
    forall i | 0 <= i < |s|
      ensures IsMorseInputChar(s[i])
    {
      if i < |a| {
        assert s[i] == a[i];
      } else if i >= |a| + 5 {
        assert s[i] == b[i - |a| - 5];
      }
    }
  }

  /** Two canonical words around a pipe with doubled spaces normalize to the words around " | ". */
  lemma NormalizeSpacedSeparator(a: string, b: string)
    requires Canonical(a) && Canonical(b) && a != [] && b != []
    ensures NormalizeMorseCode(a + "  |  " + b) == a + " | " + b
  {
    var c := a + " | " + b;
    SpacedKept(a, b);
    SpacedCollapse(a, b);
    CanonicalAppend(a, " | ", b);
    SpacePipesCanonical(c);
    MergeSeparatorsCanonical(c);
    LastStepsCanonical(c);
  }

  lemma SosCanonical()
    ensures Canonical("... --- ...")
  {
  }

  lemma HeCanonical()
    ensures Canonical(".... .")
  {
  }

  lemma LloCanonical()
    ensures Canonical(".-.. .-.. ---")
  {
  }

  lemma HelloPieces()
    ensures ".... ." + " " + ".-.. .-.. ---" == ".... . .-.. .-.. ---"
  {
  }

  lemma HelloCanonical()
    ensures Canonical(".... . .-.. .-.. ---")
  {
    HeCanonical();
    LloCanonical();
    HelloPieces();
    CanonicalAppend(".... .", " ", ".-.. .-.. ---");
  }

  lemma ExampleInput()
    ensures "... --- ..." + "  |  " + ".... . .-.. .-.. ---" == "... --- ...  |  .... . .-.. .-.. ---"
  {
  }

  lemma ExampleOutput()
    ensures "... --- ..." + " | " + ".... . .-.. .-.. ---" == "... --- ... | .... . .-.. .-.. ---"
  {
  }

  /** The documented example: SOS and HELLO with a spaced-out word separator. */
  lemma NormalizeExample()
    ensures NormalizeMorseCode("... --- ...  |  .... . .-.. .-.. ---") == "... --- ... | .... . .-.. .-.. ---"
  {
    SosCanonical();
    HelloCanonical();
    ExampleInput();
    ExampleOutput();
    NormalizeSpacedSeparator("... --- ...", ".... . .-.. .-.. ---");
  }
}
