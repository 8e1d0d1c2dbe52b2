/**
 * SUPPORTED_CHARACTERS: the keys of MORSE_DICTIONARY, then the keys of NORMALIZATION_MAP,
 * then the space.
 */
module SupportedCharacters {
  import MorseDictionary
  import NormalizationMap

  const Chars: seq<char> := MorseDictionary.Keys + NormalizationMap.Keys + [' ']

  /** `SUPPORTED_CHARACTERS.includes(c)` holds for a dictionary key, a normalization key or the space, and nothing else. */
  lemma Exact(c: char)
    ensures c in Chars <==> MorseDictionary.MorseCode(c).Some? || NormalizationMap.Fold(c).Some? || c == ' '
  {
    MorseDictionary.KeysExact(c);
    NormalizationMap.KeysExact(c);
  }

  /** The list has 100 entries, so it is never empty. */
  lemma Count()
    ensures |Chars| == 100
  {
    MorseDictionary.KeyCount();
    NormalizationMap.KeyCount();
  }

  /** Lowercase ASCII letters are not supported: the translator sees text only after upper-casing. */
  lemma NoLowercase(c: char)
    requires 'a' <= c <= 'z'
    ensures c !in Chars
  {
    MorseDictionary.NoLowercaseKeys(c);
    assert NormalizationMap.Fold(c).None?;
    Exact(c);
  }

  /** '&', '_' and '$' are not supported. */
  lemma NoAmpersandUnderscoreDollar(c: char)
    requires c == '&' || c == '_' || c == '$'
    ensures c !in Chars
  {
    assert MorseDictionary.MorseCode(c).None? && NormalizationMap.Fold(c).None?;
    Exact(c);
  }
}
