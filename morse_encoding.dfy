/**
 * `translateToMorse` of the translator service: whitespace runs become one space, the ends are
 * trimmed, the text is split into words at the spaces, every character is looked up in
 * MORSE_DICTIONARY, the codes of a word are joined by " " and the words by " | ".
 */
module MorseEncoding {
  import opened Wrappers
  import opened JsString
  import opened ServiceErrors
  import opened MorseDictionary
  import opened MorseNormalization

  /** The error for text with nothing left to translate. */
  function NoContent(): ServiceError {
    ValidationError("Nenhum conteúdo válido para traduzir")
  }

  /** The error for a character without a dictionary entry. */
  function NoCode(c: char): ServiceError {
    ServiceError("TRANSLATION_ERROR", "Caractere " + [c] + " não possui equivalente em código Morse", 400)
  }

  /** What the translator makes of the text before looking anything up: `text.replace(/\s+/g, ' ').trim()`. */
  function Cleaned(text: string): string {
    Trim(CollapseWhitespace(text))
  }

  /** The words of the cleaned text, `cleanedText.split(' ')`. */
  function Words(text: string): seq<string> {
    Split(Cleaned(text), " ")
  }

  /** The codes of the characters of one word, or the error for the first character without one. */
  function LetterCodes(word: string): Result<seq<string>, ServiceError>
    decreases |word|
  {
    if word == [] then Success([])
    else
      match LetterCodes(word[..|word| - 1])
      case Failure(e) => Failure(e)
      case Success(codes) =>
        match MorseCode(word[|word| - 1])
        case None => Failure(NoCode(word[|word| - 1]))
        case Some(m) => Success(codes + [m])
  }

  /** The Morse words, each word's codes joined by " ", or the error for the first word that has none. */
  function WordCodes(words: seq<string>): Result<seq<string>, ServiceError>
    decreases |words|
  {
    if words == [] then Success([])
    else
      match WordCodes(words[..|words| - 1])
      case Failure(e) => Failure(e)
      case Success(ms) =>
        match LetterCodes(words[|words| - 1])
        case Failure(e) => Failure(e)
        case Success(codes) => Success(ms + [Join(codes, " ")])
  }

  /** What `translateToMorse` returns, or the error it throws. */
  function Encoding(text: string): Result<string, ServiceError> {
    if Cleaned(text) == [] then Failure(NoContent())
    else
      match WordCodes(Words(text))
      case Failure(e) => Failure(e)
      case Success(ms) => Success(Join(ms, " | "))
  }

  /** The inner loop of `translateToMorse`: the codes of one word's characters. */
  method WordToMorse(word: string) returns (r: Result<seq<string>, ServiceError>)
    ensures r == LetterCodes(word)
  {
    var morseLetters: seq<string> := [];
    var j := 0;
    while j < |word|
      invariant 0 <= j <= |word|
      invariant LetterCodes(word[..j]) == Success(morseLetters)
    {
      var c := word[j];
      match MorseCode(c)
      case None =>
        LetterCodesFailure(word, j);
        return Failure(NoCode(c));
      case Some(m) =>
        assert word[..j + 1][..j] == word[..j];
        morseLetters := morseLetters + [m];
      j := j + 1;
    }
    assert word[..j] == word;
    return Success(morseLetters);
  }

  /** `translateToMorse`: the cleaned text, then the outer loop over its words. */
  method TranslateToMorse(text: string) returns (r: Result<string, ServiceError>)
    ensures r == Encoding(text)
  {
    var cleaned := Cleaned(text);
    if cleaned == [] {
      return Failure(NoContent());
    }
    var morseWords := WordsToMorse(Words(text));
    if morseWords.Failure? {
      return Failure(morseWords.error);
    }
    return Success(Join(morseWords.value, " | "));
  }

  /** The outer loop of `translateToMorse`: each word's codes joined by " ", or the first word's error. */
  method WordsToMorse(words: seq<string>) returns (r: Result<seq<string>, ServiceError>)
    ensures r == WordCodes(words)
  {
    var morseWords: seq<string> := [];
    var i := 0;
    while i < |words|
      invariant 0 <= i <= |words|
      invariant WordCodes(words[..i]) == Success(morseWords)
    {
      var letters := WordToMorse(words[i]);
      if letters.Failure? {
        WordCodesFailure(words, i);
        return Failure(letters.error);
      }
      assert words[..i + 1] == words[..i] + [words[i]];
      WordCodesSnoc(words[..i], words[i], morseWords, letters.value, words[..i + 1], morseWords + [Join(letters.value, " ")]);
      morseWords := morseWords + [Join(letters.value, " ")];
      i := i + 1;
    }
    assert words[..i] == words;
    return Success(morseWords);
  }

  // ---------------------------------------------------------------------------------------
  // What the lookups compute

  /**
   * The codes of a word are the dictionary entries of its characters, one per character; the
   * lookup fails exactly when a character has no entry, with the error for the first such one.
   */
  lemma {:induction false} LetterCodesMeaning(word: string)
    ensures LetterCodes(word).Success? <==> forall i :: 0 <= i < |word| ==> MorseCode(word[i]).Some?
    ensures LetterCodes(word).Success? ==> (|LetterCodes(word).value| == |word|
      && forall i :: 0 <= i < |word| ==> MorseCode(word[i]) == Some(LetterCodes(word).value[i]))
    ensures LetterCodes(word).Failure? ==> exists i :: (0 <= i < |word| && MorseCode(word[i]).None?
      && (forall j :: 0 <= j < i ==> MorseCode(word[j]).Some?) && LetterCodes(word).error == NoCode(word[i]))
    decreases |word|
  {
    if word != [] {
      var init := word[..|word| - 1];
      LetterCodesMeaning(init);
      assert forall i :: 0 <= i < |init| ==> init[i] == word[i];
    }
  }

  /**
   * The Morse words are the joined codes of the words, one per word; the lookup fails exactly
   * when some word fails, with the error of the first such word.
   */
  lemma {:induction false} WordCodesMeaning(words: seq<string>)
    ensures WordCodes(words).Success? <==> forall i :: 0 <= i < |words| ==> LetterCodes(words[i]).Success?
    ensures WordCodes(words).Success? ==> (|WordCodes(words).value| == |words|
      && forall i :: 0 <= i < |words| ==> WordCodes(words).value[i] == Join(LetterCodes(words[i]).value, " "))
    ensures WordCodes(words).Failure? ==> exists i :: (0 <= i < |words| && LetterCodes(words[i]) == Failure(WordCodes(words).error)
      && forall j :: 0 <= j < i ==> LetterCodes(words[j]).Success?)
    decreases |words|
  {
    if words != [] {
      var init := words[..|words| - 1];
      WordCodesMeaning(init);
      assert forall i :: 0 <= i < |init| ==> init[i] == words[i];
    }
  }

  /** A character without a code after a prefix that has codes fails the whole word with its error. */
  lemma LetterCodesFailure(word: string, j: int)
    requires 0 <= j < |word| && LetterCodes(word[..j]).Success? && MorseCode(word[j]).None?
    ensures LetterCodes(word) == Failure(NoCode(word[j]))
  {
    assert word[..j + 1][..j] == word[..j];
    LetterCodesPrefixFailure(word, j + 1);
  }

  /** Once a prefix of the word fails, the whole word fails with the same error. */
  lemma {:induction false} LetterCodesPrefixFailure(word: string, k: int)
    requires 0 <= k <= |word| && LetterCodes(word[..k]).Failure?
    ensures LetterCodes(word) == LetterCodes(word[..k])
    decreases |word| - k
  {
    if k < |word| {
      assert word[..k + 1][..k] == word[..k];
      LetterCodesPrefixFailure(word, k + 1);
    } else {
      assert word[..k] == word;
    }
  }

  /** A word that fails after words that translate fails the whole text with its error. */
  lemma WordCodesFailure(words: seq<string>, i: int)
    requires 0 <= i < |words| && WordCodes(words[..i]).Success? && LetterCodes(words[i]).Failure?
    ensures WordCodes(words) == Failure(LetterCodes(words[i]).error)
  {
    assert words[..i + 1][..i] == words[..i];
    WordCodesPrefixFailure(words, i + 1);
  }

  /** Once a prefix of the words fails, all of them fail with the same error. */
  lemma {:induction false} WordCodesPrefixFailure(words: seq<string>, k: int)
    requires 0 <= k <= |words| && WordCodes(words[..k]).Failure?
    ensures WordCodes(words) == WordCodes(words[..k])
    decreases |words| - k
  {
    if k < |words| {
      assert words[..k + 1][..k] == words[..k];
      WordCodesPrefixFailure(words, k + 1);
    } else {
      assert words[..k] == words;
    }
  }

  // ---------------------------------------------------------------------------------------
  // The cleaned text and its words

  /** Whitespace only as single spaces, never two in a row. */
  predicate SpacesOnly(s: string) {
    (forall i :: 0 <= i < |s| && IsWhitespace(s[i]) ==> s[i] == ' ')
    && (forall i :: 0 <= i < |s| - 1 ==> !(s[i] == ' ' && s[i + 1] == ' '))
  }

  lemma SpacesOnlySlice(s: string, a: nat, b: nat)
    requires SpacesOnly(s) && a <= b <= |s|
    ensures SpacesOnly(s[a..b])
  {
    assert forall i :: 0 <= i < b - a ==> s[a..b][i] == s[a + i];
  }

  /** Cleaned text has single spaces for whitespace, no two of them in a row and none at either end. */
  lemma CleanedShape(text: string)
    ensures SpacesOnly(Cleaned(text))
    ensures Cleaned(text) != [] ==> Cleaned(text)[0] != ' ' && Cleaned(text)[|Cleaned(text)| - 1] != ' '
  {
    var x := CollapseWhitespace(text);
    var y := TrimStart(x);
    SpacesOnlySlice(x, |x| - |y|, |x|);
    assert y == x[|x| - |y|..|x|];
    SpacesOnlySlice(y, 0, |TrimEnd(y)|);
  }

  /** The non-whitespace characters of the cleaned text are those of the text. */
  lemma CleanedKeeps(text: string, c: char)
    requires !IsWhitespace(c)
    ensures c in Cleaned(text) <==> c in text
  {
    if c in text {
      CollapseKeeps(text, c);
      TrimKeeps(CollapseWhitespace(text), c);
    }
  }

  /** The words of text that is not blank are non-empty and hold no space. */
  lemma WordsShape(text: string)
    requires Cleaned(text) != []
    ensures forall w :: w in Words(text) ==> w != [] && ' ' !in w
  {
    CleanedShape(text);
    SplitPieces(Cleaned(text), ' ');
  }

  /** A character is in a word of the text exactly when it is a non-whitespace character of the text. */
  lemma WordsChars(text: string, c: char)
    requires Cleaned(text) != []
    ensures (exists w :: w in Words(text) && c in w) <==> c in text && !IsWhitespace(c)
  {
    var cleaned := Cleaned(text);
    JoinOfSplit(cleaned, " ");
    WordsShape(text);
    CleanedShape(text);
    if c != ' ' {
      JoinMembers(Words(text), " ", c);
      if !IsWhitespace(c) {
        CleanedKeeps(text, c);
      } else {
        assert c !in cleaned;
      }
    }
  }

  // ---------------------------------------------------------------------------------------
  // When translation fails

  /** Every non-whitespace character of the text has a dictionary entry. */
  predicate Encodable(text: string) {
    forall i :: 0 <= i < |text| && !IsWhitespace(text[i]) ==> MorseCode(text[i]).Some?
  }

  /** A character of a word of the text has a code when the text is encodable. */
  lemma WordCharEncodable(text: string, w: string, j: int)
    requires Cleaned(text) != [] && w in Words(text) && 0 <= j < |w| && Encodable(text)
    ensures MorseCode(w[j]).Some?
  {
    WordsChars(text, w[j]);
    var n :| 0 <= n < |text| && text[n] == w[j];
  }

  /** The words of text that is not blank translate exactly when the text is encodable. */
  lemma WordsEncodable(text: string)
    requires Cleaned(text) != []
    ensures WordCodes(Words(text)).Success? <==> Encodable(text)
  {
    var words := Words(text);
    WordCodesMeaning(words);
    if Encodable(text) {
      forall k | 0 <= k < |words|
        ensures LetterCodes(words[k]).Success?
      {
        LetterCodesMeaning(words[k]);
        forall j | 0 <= j < |words[k]|
          ensures MorseCode(words[k][j]).Some?
        {
          WordCharEncodable(text, words[k], j);
        }
      }
    } else {
      var n :| 0 <= n < |text| && !IsWhitespace(text[n]) && MorseCode(text[n]).None?;
      var c := text[n];
      WordsChars(text, c);
      var w :| w in words && c in w;
      var j :| 0 <= j < |w| && w[j] == c;
      LetterCodesMeaning(w);
    }
  }

  /** A character of a word of the text without a code is a non-whitespace character of the text without one. */
  lemma WordCharNoCode(text: string, w: string, j: int)
    requires Cleaned(text) != [] && w in Words(text) && 0 <= j < |w| && MorseCode(w[j]).None?
    ensures exists i :: 0 <= i < |text| && !IsWhitespace(text[i]) && MorseCode(text[i]).None? && text[i] == w[j]
  {
    WordsChars(text, w[j]);
    var n :| 0 <= n < |text| && text[n] == w[j];
  }

  /** When the words of text that is not blank do not translate, the error names a character of the text without a code. */
  lemma WordsError(text: string)
    requires Cleaned(text) != [] && WordCodes(Words(text)).Failure?
    ensures exists i :: (0 <= i < |text| && !IsWhitespace(text[i]) && MorseCode(text[i]).None?
      && WordCodes(Words(text)).error == NoCode(text[i]))
  {
    var words := Words(text);
    WordCodesMeaning(words);
    var k :| 0 <= k < |words| && LetterCodes(words[k]) == Failure(WordCodes(words).error);
    var w := words[k];
    LetterCodesMeaning(w);
    var j :| 0 <= j < |w| && MorseCode(w[j]).None? && LetterCodes(w).error == NoCode(w[j]);
    WordCharNoCode(text, w, j);
  }

  /**
   * The three outcomes of `translateToMorse`: VALIDATION_ERROR exactly when the text is blank,
   * a translation exactly when the text is not blank and every non-whitespace character has a
   * code, and otherwise TRANSLATION_ERROR naming a character of the text that has none.
   */
  lemma EncodingOutcomes(text: string)
    ensures Encoding(text) == Failure(NoContent()) <==> IsBlank(text)
    ensures Encoding(text).Success? <==> !IsBlank(text) && Encodable(text)
    ensures Encoding(text).Failure? && !IsBlank(text) ==> exists i :: (0 <= i < |text| && !IsWhitespace(text[i])
      && MorseCode(text[i]).None? && Encoding(text).error == NoCode(text[i]))
  {
    if IsBlank(text) {
      CollapseBlank(text);
    } else {
      var i :| 0 <= i < |text| && !IsWhitespace(text[i]);
      CleanedKeeps(text, text[i]);
      WordsEncodable(text);
      if WordCodes(Words(text)).Failure? {
        WordsError(text);
      }
    }
  }

  // ---------------------------------------------------------------------------------------
  // The shape of the translation

  lemma {:induction false} CodeTail(t: string)
    requires IsCode(t)
    ensures CanonicalTail(t)
    decreases |t|
  {
    if t != [] {
      assert CanonicalStep(t) == 1;
      CodeTail(t[1..]);
    }
  }

  /** A dictionary code is canonical Morse text on its own. */
  lemma CodeCanonical(c: char)
    requires MorseCode(c).Some?
    ensures Canonical(MorseCode(c).value) && MorseCode(c).value != []
    ensures '|' !in MorseCode(c).value && ' ' !in MorseCode(c).value
  {
    CodeWellFormed(c);
    CodeTail(MorseCode(c).value[1..]);
  }

  /** Non-empty canonical pieces joined by " " or " | " make non-empty canonical text. */
  lemma {:induction false} JoinCanonical(parts: seq<string>, sep: string)
    requires |parts| >= 1 && (sep == " " || sep == " | ")
    requires forall i :: 0 <= i < |parts| ==> parts[i] != [] && Canonical(parts[i])
    ensures Join(parts, sep) != [] && Canonical(Join(parts, sep))
    decreases |parts|
  {
    if |parts| > 1 {
      var init := parts[..|parts| - 1];
      JoinCanonical(init, sep);
      CanonicalAppend(Join(init, sep), sep, parts[|parts| - 1]);
    }
  }

  /** The Morse word of a word: canonical, without a pipe. */
  lemma MorseWordShape(word: string)
    requires word != [] && LetterCodes(word).Success?
    ensures Join(LetterCodes(word).value, " ") != [] && Canonical(Join(LetterCodes(word).value, " "))
    ensures '|' !in Join(LetterCodes(word).value, " ")
  {
    var codes := LetterCodes(word).value;
    LetterCodesMeaning(word);
    forall i | 0 <= i < |codes|
      ensures codes[i] != [] && Canonical(codes[i]) && '|' !in codes[i]
    {
      CodeCanonical(word[i]);
    }
    JoinCanonical(codes, " ");
    JoinMembers(codes, " ", '|');
  }

  /** The Morse words of non-empty words: canonical, without a pipe. */
  lemma MorseWordsShape(words: seq<string>, ms: seq<string>)
    requires forall w :: w in words ==> w != []
    requires WordCodes(words) == Success(ms)
    ensures |ms| == |words|
    ensures forall i :: 0 <= i < |ms| ==> (ms[i] != [] && Canonical(ms[i]) && '|' !in ms[i])
  {
    WordCodesMeaning(words);
    forall i | 0 <= i < |ms|
      ensures ms[i] != [] && Canonical(ms[i]) && '|' !in ms[i]
    {
      assert words[i] in words;
      MorseWordShape(words[i]);
    }
  }

  /** The Morse words of a text that translates, with its words. */
  lemma TranslatedWords(text: string)
    requires Encoding(text).Success?
    ensures Cleaned(text) != [] && WordCodes(Words(text)).Success?
    ensures Encoding(text).value == Join(WordCodes(Words(text)).value, " | ")
    ensures |Words(text)| >= 1 && forall w :: w in Words(text) ==> w != [] && ' ' !in w
  {
    WordsShape(text);
  }

  /**
   * A translation is canonical Morse text: only dots, dashes, spaces and pipes, one space
   * between the codes of a word, " | " between words, nothing at either end; so
   * `normalizeMorseCode` gives it back unchanged.
   */
  lemma EncodingCanonical(text: string)
    requires Encoding(text).Success?
    ensures Canonical(Encoding(text).value) && Encoding(text).value != []
    ensures NormalizeMorseCode(Encoding(text).value) == Encoding(text).value
  {
    TranslatedWords(text);
    var ms := WordCodes(Words(text)).value;
    MorseWordsShape(Words(text), ms);
    JoinCanonical(ms, " | ");
    NormalizeCanonical(Encoding(text).value);
  }

  lemma {:induction false} NoPipeNoSeparator(s: string)
    requires '|' !in s
    ensures Occurrences(s, " | ") == 0
    decreases |s|
  {
    if |s| >= 3 {
      assert s[1] in s;
      Mismatch(s, " | ", 0, 1);
      NoPipeNoSeparator(s[1..]);
    }
  }

  /** " | " in front of a piece without a pipe that starts with a dot or dash occurs once. */
  lemma SeparatorOnce(p: string)
    requires p != [] && '|' !in p && IsDotOrDash(p[0])
    ensures Occurrences(" | " + p, " | ") == 1
  {
    var s := " | " + p;
    var s1 := s[1..];
    var s2 := s1[1..];
    assert OccursAt(s, " | ", 0);
    assert Occurrences(s, " | ") == 1 + Occurrences(s1, " | ");
    assert s1 == "| " + p;
    Mismatch(s1, " | ", 0, 0);
    assert Occurrences(s1, " | ") == Occurrences(s2, " | ");
    assert s2 == " " + p;
    if |s2| >= 3 {
      Mismatch(s2, " | ", 0, 1);
      assert s2[1..] == p;
      assert Occurrences(s2, " | ") == Occurrences(p, " | ");
      NoPipeNoSeparator(p);
    }
  }

  /** Pieces without pipes that start and end with a dot or dash, joined by " | ", hold one separator fewer than pieces. */
  lemma {:induction false} SeparatorCount(parts: seq<string>)
    requires |parts| >= 1
    requires forall i :: 0 <= i < |parts| ==> (parts[i] != [] && '|' !in parts[i]
      && IsDotOrDash(parts[i][0]) && IsDotOrDash(parts[i][|parts[i]| - 1]))
    ensures Occurrences(Join(parts, " | "), " | ") == |parts| - 1
    decreases |parts|
  {
    if |parts| == 1 {
      NoPipeNoSeparator(parts[0]);
    } else {
      var init := parts[..|parts| - 1];
      var last := parts[|parts| - 1];
      SeparatorCount(init);
      var a := Join(init, " | ");
      var b := " | " + last;
      assert a != [] && IsDotOrDash(a[|a| - 1]) by {
        if |init| > 1 {
          assert a == Join(init[..|init| - 1], " | ") + " | " + init[|init| - 1];
        }
      }
      assert a + b == Join(parts, " | ");
      forall i | |a| - 3 < i < |a|
        ensures !OccursAt(a + b, " | ", i)
      {
        if i >= 0 {
          assert (a + b)[i + 1] != '|';
          Mismatch(a + b, " | ", i, 1);
        }
      }
      OccurrencesAppend(a, b, " | ");
      SeparatorOnce(last);
    }
  }

  /** A translation holds one " | " fewer than the text has words. */
  lemma EncodingSeparators(text: string)
    requires Encoding(text).Success?
    ensures Occurrences(Encoding(text).value, " | ") == |Words(text)| - 1
  {
    TranslatedWords(text);
    var ms := WordCodes(Words(text)).value;
    MorseWordsShape(Words(text), ms);
    WordEnds(ms);
    SeparatorCount(ms);
  }

  /** Each of the Morse words starts and ends with a dot or a dash. */
  lemma WordEnds(ms: seq<string>)
    requires forall i :: 0 <= i < |ms| ==> (ms[i] != [] && Canonical(ms[i]) && '|' !in ms[i])
    ensures forall i :: 0 <= i < |ms| ==> (ms[i] != [] && '|' !in ms[i]
      && IsDotOrDash(ms[i][0]) && IsDotOrDash(ms[i][|ms[i]| - 1]))
  {
    forall i | 0 <= i < |ms|
      ensures IsDotOrDash(ms[i][0]) && IsDotOrDash(ms[i][|ms[i]| - 1])
    {
      CanonicalEnds(ms[i]);
    }
  }

  /** One more character with a code extends the codes of a word by that code. */
  lemma LetterCodesSnoc(w: string, c: char, codes: seq<string>, m: string, w': string, codes': seq<string>)
    requires LetterCodes(w) == Success(codes) && MorseCode(c) == Some(m)
    requires w' == w + [c] && codes' == codes + [m]
    ensures LetterCodes(w') == Success(codes')
  {
    assert w'[..|w|] == w;
  }

  /** One more word with codes extends the Morse words by its joined codes. */
  lemma WordCodesSnoc(ws: seq<string>, w: string, ms: seq<string>, codes: seq<string>, ws': seq<string>, ms': seq<string>)
    requires WordCodes(ws) == Success(ms) && LetterCodes(w) == Success(codes)
    requires ws' == ws + [w] && ms' == ms + [Join(codes, " ")]
    ensures WordCodes(ws') == Success(ms')
  {
    assert ws'[..|ws|] == ws;
  }

  /** A five-letter word whose letters all have codes has those five codes. */
  lemma FiveLetterCodes(c1: char, c2: char, c3: char, c4: char, c5: char, m1: string, m2: string, m3: string, m4: string, m5: string)
    requires MorseCode(c1) == Some(m1) && MorseCode(c2) == Some(m2) && MorseCode(c3) == Some(m3)
    requires MorseCode(c4) == Some(m4) && MorseCode(c5) == Some(m5)
    ensures LetterCodes([c1, c2, c3, c4, c5]) == Success([m1, m2, m3, m4, m5])
    ensures Join([m1, m2, m3, m4, m5], " ") == m1 + " " + m2 + " " + m3 + " " + m4 + " " + m5
  {
    JoinFive(m1, m2, m3, m4, m5, " ");
    LetterCodesSnoc([], c1, [], m1, [c1], [m1]);
    LetterCodesSnoc([c1], c2, [m1], m2, [c1, c2], [m1, m2]);
    LetterCodesSnoc([c1, c2], c3, [m1, m2], m3, [c1, c2, c3], [m1, m2, m3]);
    LetterCodesSnoc([c1, c2, c3], c4, [m1, m2, m3], m4, [c1, c2, c3, c4], [m1, m2, m3, m4]);
    LetterCodesSnoc([c1, c2, c3, c4], c5, [m1, m2, m3, m4], m5, [c1, c2, c3, c4, c5], [m1, m2, m3, m4, m5]);
  }

  lemma JoinFive(a: string, b: string, c: string, d: string, e: string, sep: string)
    ensures Join([a, b, c, d, e], sep) == a + sep + b + sep + c + sep + d + sep + e
  {
    assert [a, b][..1] == [a];
    assert Join([a, b], sep) == a + sep + b;
    assert [a, b, c][..2] == [a, b];
    assert Join([a, b, c], sep) == a + sep + b + sep + c;
    assert [a, b, c, d][..3] == [a, b, c];
    assert Join([a, b, c, d], sep) == a + sep + b + sep + c + sep + d;
    assert [a, b, c, d, e][..4] == [a, b, c, d];
  }

  /** Two words without whitespace, joined by one space, are their own cleaned text. */
  lemma TwoWordsCleaned(a: string, b: string)
    requires a != [] && b != []
    requires forall i :: 0 <= i < |a| ==> !IsWhitespace(a[i])
    requires forall i :: 0 <= i < |b| ==> !IsWhitespace(b[i])
    ensures Cleaned(a + " " + b) == a + " " + b
  {
    var s := a + " " + b;
    forall i | 0 <= i < |s|
      ensures !IsWhitespace(s[i]) || (i == |a| && s[i] == ' ')
    {
      if i < |a| {
        assert s[i] == a[i];
      } else if i > |a| {
        assert s[i] == b[i - |a| - 1];
      }
    }
    CollapseUnchanged(s);
    TrimUnchanged(s);
  }

  /** Two words without whitespace, joined by one space, split back into the two. */
  lemma TwoWords(a: string, b: string)
    requires a != [] && b != []
    requires forall i :: 0 <= i < |a| ==> !IsWhitespace(a[i])
    requires forall i :: 0 <= i < |b| ==> !IsWhitespace(b[i])
    ensures Words(a + " " + b) == [a, b]
  {
    TwoWordsCleaned(a, b);
    var parts := [a, b];
    assert parts[..1] == [a];
    assert Join(parts, " ") == a + " " + b;
    assert ' ' !in a && ' ' !in b;
    assert MarkedBy(parts, " ", 0);
    SplitOfJoin(parts, " ", 0);
  }

  /** The Morse words of HELLO and WORLD, written out. */
  lemma ExampleWordsSpelled()
    ensures "...." + " " + "." + " " + ".-.." + " " + ".-.." + " " + "---" == ".... . .-.. .-.. ---"
    ensures ".--" + " " + "---" + " " + ".-." + " " + ".-.." + " " + "-.." == ".-- --- .-. .-.. -.."
  {
  }

  /** Two words whose letters have codes give their two Morse words. */
  lemma TwoWordCodes(w1: string, w2: string, codes1: seq<string>, codes2: seq<string>, j1: string, j2: string)
    requires LetterCodes(w1) == Success(codes1) && Join(codes1, " ") == j1
    requires LetterCodes(w2) == Success(codes2) && Join(codes2, " ") == j2
    ensures WordCodes([w1, w2]) == Success([j1, j2])
  {
    WordCodesSnoc([], w1, [], codes1, [w1], [j1]);
    WordCodesSnoc([w1], w2, [j1], codes2, [w1, w2], [j1, j2]);
  }

  lemma HelloWorldCodes()
    ensures WordCodes(["HELLO", "WORLD"]) == Success([".... . .-.. .-.. ---", ".-- --- .-. .-.. -.."])
  {
    FiveLetterCodes('H', 'E', 'L', 'L', 'O', "....", ".", ".-..", ".-..", "---");
    FiveLetterCodes('W', 'O', 'R', 'L', 'D', ".--", "---", ".-.", ".-..", "-..");
    ExampleWordsSpelled();
    TwoWordCodes("HELLO", "WORLD", ["....", ".", ".-..", ".-..", "---"], [".--", "---", ".-.", ".-..", "-.."],
      ".... . .-.. .-.. ---", ".-- --- .-. .-.. -..");
  }

  lemma JoinTwo(a: string, b: string, sep: string, ab: string)
    requires ab == a + sep + b
    ensures Join([a, b], sep) == ab
  {
    assert [a, b][..1] == [a];
  }

  /** Text whose words all have codes translates to their Morse words joined by " | ". */
  lemma EncodingOfWords(text: string, words: seq<string>, ms: seq<string>, morse: string)
    requires Cleaned(text) != [] && Words(text) == words && WordCodes(words) == Success(ms)
    requires morse == Join(ms, " | ")
    ensures Encoding(text) == Success(morse)
  {
  }

  lemma HelloWorldJoined()
    ensures Join([".... . .-.. .-.. ---", ".-- --- .-. .-.. -.."], " | ") == ".... . .-.. .-.. --- | .-- --- .-. .-.. -.."
  {
    JoinTwo(".... . .-.. .-.. ---", ".-- --- .-. .-.. -..", " | ", ".... . .-.. .-.. --- | .-- --- .-. .-.. -..");
  }

  lemma HelloWorldCleaned()
    ensures Cleaned("HELLO WORLD") == "HELLO WORLD"
  {
    assert "HELLO WORLD" == "HELLO" + " " + "WORLD";
    TwoWordsCleaned("HELLO", "WORLD");
  }

  /** The example of the source's documentation: 'HELLO WORLD'. */
  lemma EncodingExample()
    ensures Encoding("HELLO WORLD") == Success(".... . .-.. .-.. --- | .-- --- .-. .-.. -..")
  {
    assert "HELLO WORLD" == "HELLO" + " " + "WORLD";
    TwoWords("HELLO", "WORLD");
    TwoWordsCleaned("HELLO", "WORLD");
    HelloWorldCodes();
    HelloWorldJoined();
    EncodingOfWords("HELLO WORLD", ["HELLO", "WORLD"], [".... . .-.. .-.. ---", ".-- --- .-. .-.. -.."],
      ".... . .-.. .-.. --- | .-- --- .-. .-.. -..");
  }

}
