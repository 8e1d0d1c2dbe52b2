/**
 * Decoding a translation with the service's reverse tables gives back the cleaned text: the
 * reverse tables are the inverse of MORSE_DICTIONARY, and " | " and " " split the translation
 * exactly where `translateToMorse` joined it.
 */
module MorseRoundTrip {
  import opened Wrappers
  import opened JsString
  import opened MorseDictionary
  import opened MorseNormalization
  import opened MorseEncoding
  import opened MorseDecoding

  /** A code the first table resolves adds its character and no unresolved code. */
  lemma DecodeCodesSnoc(codes: seq<string>, code: string, rev: map<string, char>, fb: map<string, char>)
    requires code in rev
    ensures DecodeCodes(codes + [code], rev, fb)
      == Decoded(DecodeCodes(codes, rev, fb).text + [rev[code]], DecodeCodes(codes, rev, fb).invalidCount)
  {
    assert (codes + [code])[..|codes|] == codes;
  }

  /** A first table that resolves every dictionary code to its character. */
  predicate Inverts(rev: map<string, char>) {
    forall c :: MorseCode(c).Some? ==> MorseCode(c).value in rev && rev[MorseCode(c).value] == c
  }

  /** REVERSE_MORSE_DICTIONARY resolves every dictionary code to its character. */
  lemma ReverseInverts()
    ensures Inverts(ReverseDictionary())
  {
    forall c | MorseCode(c).Some?
      ensures MorseCode(c).value in ReverseDictionary() && ReverseDictionary()[MorseCode(c).value] == c
    {
      ReverseDecodes(c);
    }
  }

  /** With a first table that inverts the dictionary, the codes of a word decode to the word. */
  lemma {:induction false} LettersDecode(word: string, rev: map<string, char>, fb: map<string, char>)
    requires LetterCodes(word).Success? && Inverts(rev)
    ensures DecodeCodes(LetterCodes(word).value, rev, fb) == Decoded(word, 0)
    decreases |word|
  {
    if word != [] {
      var init := word[..|word| - 1];
      var c := word[|word| - 1];
      LetterCodesLast(word);
      LettersDecode(init, rev, fb);
      DecodeCodesSnoc(LetterCodes(init).value, MorseCode(c).value, rev, fb);
      assert init + [c] == word;
    }
  }

  /** The codes of a word decode to the word, with nothing unresolved. */
  lemma LettersRoundTrip(word: string)
    requires LetterCodes(word).Success?
    ensures DecodeCodes(LetterCodes(word).value, ReverseDictionary(), ReverseFallback()) == Decoded(word, 0)
  {
    ReverseInverts();
    LettersDecode(word, ReverseDictionary(), ReverseFallback());
  }

  /** The codes of a word are those of all but its last letter, then that letter's code. */
  lemma LetterCodesLast(word: string)
    requires word != [] && LetterCodes(word).Success?
    ensures LetterCodes(word[..|word| - 1]).Success? && MorseCode(word[|word| - 1]).Some?
    ensures LetterCodes(word).value == LetterCodes(word[..|word| - 1]).value + [MorseCode(word[|word| - 1]).value]
  {
  }

  /** The Morse word of a word splits back into its codes. */
  lemma MorseWordCodes(word: string)
    requires word != [] && LetterCodes(word).Success?
    ensures Codes(Join(LetterCodes(word).value, " ")) == LetterCodes(word).value
  {
    var codes := LetterCodes(word).value;
    LetterCodesMeaning(word);
    forall i | 0 <= i < |codes|
      ensures ' ' !in codes[i] && !IsBlank(codes[i])
    {
      CodeCanonical(word[i]);
      CanonicalEnds(codes[i]);
    }
    assert MarkedBy(codes, " ", 0);
    SplitOfJoin(codes, " ", 0);
    NonBlankUnchanged(codes);
  }

  /** The Morse word of a word decodes to the word, with nothing unresolved. */
  lemma MorseWordRoundTrip(word: string, rev: map<string, char>, fb: map<string, char>)
    requires word != [] && LetterCodes(word).Success? && Inverts(rev)
    ensures DecodeWord(Join(LetterCodes(word).value, " "), rev, fb) == (Some(word), 0)
  {
    var m := Join(LetterCodes(word).value, " ");
    MorseWordCodes(word);
    LetterCodesMeaning(word);
    CodesEmpty(m);
    LettersDecode(word, rev, fb);
  }

  /** The Morse words of non-empty words decode to those words, with nothing unresolved. */
  lemma {:induction false} WordsDecode(words: seq<string>, ms: seq<string>, rev: map<string, char>, fb: map<string, char>)
    requires WordCodes(words) == Success(ms) && Inverts(rev)
    requires forall i :: 0 <= i < |words| ==> words[i] != []
    ensures DecodeWords(ms, rev, fb) == (words, 0)
    decreases |words|
  {
    if words != [] {
      var init := words[..|words| - 1];
      var last := words[|words| - 1];
      var msInit := WordCodes(init).value;
      WordsDecode(init, msInit, rev, fb);
      assert ms == msInit + [Join(LetterCodes(last).value, " ")];
      assert ms[..|ms| - 1] == msInit;
      MorseWordRoundTrip(last, rev, fb);
      assert init + [last] == words;
    }
  }

  /** With the service's reverse tables, the Morse words of non-empty words decode to those words. */
  lemma WordsRoundTrip(words: seq<string>, ms: seq<string>)
    requires WordCodes(words) == Success(ms)
    requires forall i :: 0 <= i < |words| ==> words[i] != []
    ensures DecodeWords(ms, ReverseDictionary(), ReverseFallback()) == (words, 0)
  {
    ReverseInverts();
    WordsDecode(words, ms, ReverseDictionary(), ReverseFallback());
  }

  /** A translation is not blank, and " | " splits it back into its Morse words. */
  lemma TranslationSplits(text: string)
    requires Encoding(text).Success?
    ensures WordCodes(Words(text)).Success?
    ensures forall i :: 0 <= i < |Words(text)| ==> Words(text)[i] != []
    ensures !IsBlank(Encoding(text).value)
    ensures Split(Encoding(text).value, " | ") == WordCodes(Words(text)).value
  {
    TranslatedWords(text);
    assert forall i :: 0 <= i < |Words(text)| ==> Words(text)[i] in Words(text);
    TranslationNotBlank(text);
    TranslationSplitsWords(text);
  }

  lemma TranslationNotBlank(text: string)
    requires Encoding(text).Success?
    ensures !IsBlank(Encoding(text).value)
  {
    EncodingCanonical(text);
    CanonicalEnds(Encoding(text).value);
  }

  lemma TranslationSplitsWords(text: string)
    requires Encoding(text).Success?
    ensures WordCodes(Words(text)).Success?
    ensures Split(Encoding(text).value, " | ") == WordCodes(Words(text)).value
  {
    TranslatedWords(text);
    var ms := WordCodes(Words(text)).value;
    MorseWordsShape(Words(text), ms);
    assert MarkedBy(ms, " | ", 1);
    SplitOfJoin(ms, " | ", 1);
  }

  /** With a first table that inverts the dictionary, a translation decodes to the cleaned text. */
  lemma RoundTripWith(text: string, rev: map<string, char>, fb: map<string, char>)
    requires Encoding(text).Success? && Inverts(rev)
    ensures Decoding(Encoding(text).value, rev, fb) == Decoded(Cleaned(text), 0)
  {
    TranslationSplits(text);
    WordsDecode(Words(text), WordCodes(Words(text)).value, rev, fb);
    JoinOfSplit(Cleaned(text), " ");
  }

  /**
   * Decoding a translation of `text` gives back `text` with its whitespace runs collapsed to one
   * space and trimmed, and no unresolved code.
   */
  lemma RoundTrip(text: string)
    requires Encoding(text).Success?
    ensures Decoding(Encoding(text).value, ReverseDictionary(), ReverseFallback()) == Decoded(Cleaned(text), 0)
  {
    ReverseInverts();
    RoundTripWith(text, ReverseDictionary(), ReverseFallback());
  }

  /** The round trip for a given translation and cleaned text. */
  lemma RoundTripOf(text: string, morse: string, cleaned: string)
    requires Encoding(text) == Success(morse) && Cleaned(text) == cleaned
    ensures Decoding(morse, ReverseDictionary(), ReverseFallback()) == Decoded(cleaned, 0)
  {
    RoundTrip(text);
  }

  /** The example of the source's documentation, decoded. */
  lemma DecodingExample()
    ensures Decoding(".... . .-.. .-.. --- | .-- --- .-. .-.. -..", ReverseDictionary(), ReverseFallback())
      == Decoded("HELLO WORLD", 0)
  {
    EncodingExample();
    HelloWorldCleaned();
    RoundTripOf("HELLO WORLD", ".... . .-.. .-.. --- | .-- --- .-. .-.. -..", "HELLO WORLD");
  }
}
