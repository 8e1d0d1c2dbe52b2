/**
 * NORMALIZATION_MAP: each accented letter the translator accepts, lowercase and uppercase,
 * with the plain uppercase ASCII letter it is folded to.
 */
module NormalizationMap {
  import opened Wrappers
  import MorseDictionary

  /** The lowercase entries: accented vowels, then ç and ñ. */
  function LowercaseFold(c: char): Option<char> {
    match c
    case 'á' => Some('A')
    case 'à' => Some('A')
    case 'â' => Some('A')
    case 'ã' => Some('A')
    case 'ä' => Some('A')
    case 'é' => Some('E')
    case 'è' => Some('E')
    case 'ê' => Some('E')
    case 'ë' => Some('E')
    case 'í' => Some('I')
    case 'ì' => Some('I')
    case 'î' => Some('I')
    case 'ï' => Some('I')
    case 'ó' => Some('O')
    case 'ò' => Some('O')
    case 'ô' => Some('O')
    case 'õ' => Some('O')
    case 'ö' => Some('O')
    case 'ú' => Some('U')
    case 'ù' => Some('U')
    case 'û' => Some('U')
    case 'ü' => Some('U')
    case 'ç' => Some('C')
    case 'ñ' => Some('N')
    case _ => None
  }
  /** The uppercase entries: accented vowels, then Ç and Ñ. */
  function UppercaseFold(c: char): Option<char> {
    match c
    case 'Á' => Some('A')
    case 'À' => Some('A')
    case 'Â' => Some('A')
    case 'Ã' => Some('A')
    case 'Ä' => Some('A')
    case 'É' => Some('E')
    case 'È' => Some('E')
    case 'Ê' => Some('E')
    case 'Ë' => Some('E')
    case 'Í' => Some('I')
    case 'Ì' => Some('I')
    case 'Î' => Some('I')
    case 'Ï' => Some('I')
    case 'Ó' => Some('O')
    case 'Ò' => Some('O')
    case 'Ô' => Some('O')
    case 'Õ' => Some('O')
    case 'Ö' => Some('O')
    case 'Ú' => Some('U')
    case 'Ù' => Some('U')
    case 'Û' => Some('U')
    case 'Ü' => Some('U')
    case 'Ç' => Some('C')
    case 'Ñ' => Some('N')
    case _ => None
  }
  /** `NORMALIZATION_MAP[c]`, None when `c` is not a key. */
  function Fold(c: char): Option<char> {
    if '\U{00E0}' <= c <= '\U{00FC}' then LowercaseFold(c)
    else if '\U{00C0}' <= c <= '\U{00DC}' then UppercaseFold(c)
    else None
  }

  const LowercaseVowelKeys: seq<char> := ['á', 'à', 'â', 'ã', 'ä', 'é', 'è', 'ê', 'ë', 'í', 'ì', 'î', 'ï', 'ó', 'ò', 'ô', 'õ', 'ö', 'ú', 'ù', 'û', 'ü']
  const UppercaseVowelKeys: seq<char> := ['Á', 'À', 'Â', 'Ã', 'Ä', 'É', 'È', 'Ê', 'Ë', 'Í', 'Ì', 'Î', 'Ï', 'Ó', 'Ò', 'Ô', 'Õ', 'Ö', 'Ú', 'Ù', 'Û', 'Ü']
  const ConsonantKeys: seq<char> := ['ç', 'Ç', 'ñ', 'Ñ']

  /** `Object.keys(NORMALIZATION_MAP)`, in insertion order. */
  const Keys: seq<char> := LowercaseVowelKeys + UppercaseVowelKeys + ConsonantKeys

  lemma LowercaseVowelKeysExact(c: char)
    ensures c in LowercaseVowelKeys <==> LowercaseFold(c).Some? && c != 'ç' && c != 'ñ'
  {
  }

  lemma UppercaseVowelKeysExact(c: char)
    ensures c in UppercaseVowelKeys <==> UppercaseFold(c).Some? && c != 'Ç' && c != 'Ñ'
  {
  }

  lemma ConsonantKeysExact(c: char)
    ensures c in ConsonantKeys <==> c == 'ç' || c == 'Ç' || c == 'ñ' || c == 'Ñ'
  {
  }

  /** The keys that `Object.keys` lists are exactly the characters the map folds. */
  lemma KeysExact(c: char)
    ensures c in Keys <==> Fold(c).Some?
  {
    LowercaseVowelKeysExact(c);
    UppercaseVowelKeysExact(c);
    ConsonantKeysExact(c);
  }

  lemma LowercaseVowelKeysDistinct()
    ensures forall i, j :: 0 <= i < j < |LowercaseVowelKeys| ==> LowercaseVowelKeys[i] != LowercaseVowelKeys[j]
  {
  }

  lemma UppercaseVowelKeysDistinct()
    ensures forall i, j :: 0 <= i < j < |UppercaseVowelKeys| ==> UppercaseVowelKeys[i] != UppercaseVowelKeys[j]
  {
  }

  lemma LowercaseVowelRange(c: char)
    requires c in LowercaseVowelKeys
    ensures '\U{00E0}' <= c <= '\U{00FC}' && c != 'ç' && c != 'ñ'
  {
  }

  lemma UppercaseVowelRange(c: char)
    requires c in UppercaseVowelKeys
    ensures '\U{00C0}' <= c <= '\U{00DC}' && c != 'Ç' && c != 'Ñ'
  {
  }

  /** The map has 48 distinct keys. */
  lemma KeyCount()
    ensures |Keys| == 48
    ensures forall i, j :: 0 <= i < j < |Keys| ==> Keys[i] != Keys[j]
  {
    LowercaseVowelKeysDistinct();
    UppercaseVowelKeysDistinct();
    forall i, j | 0 <= i < j < |Keys|
      ensures Keys[i] != Keys[j]
    {
      if i < 22 && j >= 22 {
        LowercaseVowelRange(Keys[i]);
        if j < 44 {
          UppercaseVowelRange(Keys[j]);
        } else {
          ConsonantKeysExact(Keys[j]);
        }
      } else if 22 <= i < 44 && j >= 44 {
        UppercaseVowelRange(Keys[i]);
        ConsonantKeysExact(Keys[j]);
      }
    }
  }

  lemma AllKeysFold()
    ensures forall k :: k in Keys ==> Fold(k).Some?
  {
    forall k | k in Keys
      ensures Fold(k).Some?
    {
      KeysExact(k);
    }
  }

  /** Every value is one of the uppercase ASCII letters A, E, I, O, U, C and N. */
  lemma FoldedPlain(c: char)
    requires Fold(c).Some?
    ensures Fold(c).value in {'A', 'E', 'I', 'O', 'U', 'C', 'N'}
  {
  }

  /** Every value is a key of MORSE_DICTIONARY. */
  lemma FoldedIsMorseKey(c: char)
    requires Fold(c).Some?
    ensures MorseDictionary.MorseCode(Fold(c).value).Some?
  {
    FoldedPlain(c);
    MorseDictionary.LettersTotal(Fold(c).value);
  }

  /** No value is itself a key, so folding twice is folding once. */
  lemma FoldedIsNotKey(c: char)
    requires Fold(c).Some?
    ensures Fold(Fold(c).value).None?
  {
    FoldedPlain(c);
  }

  /** No key of the map is a key of MORSE_DICTIONARY. */
  lemma KeysNotInDictionary(c: char)
    requires Fold(c).Some?
    ensures MorseDictionary.MorseCode(c).None?
  {
  }

  /**
   * Each accented letter is in the map in both cases with the same value: a Latin-1 lowercase
   * letter and its uppercase form (0x20 below it) fold alike.
   */
  lemma BothCases(c: char)
    requires '\U{00E0}' <= c <= '\U{00FE}'
    ensures Fold(c) == Fold((c as int - 0x20) as char)
  {
    if c <= '\U{00EF}' {
      BothCasesLow(c);
    } else {
      BothCasesHigh(c);
    }
  }

  lemma BothCasesLow(c: char)
    requires '\U{00E0}' <= c <= '\U{00EF}'
    ensures Fold(c) == Fold((c as int - 0x20) as char)
  {
    match c
    case 'á' => assert (c as int - 0x20) as char == 'Á';
    case 'à' => assert (c as int - 0x20) as char == 'À';
    case 'â' => assert (c as int - 0x20) as char == 'Â';
    case 'ã' => assert (c as int - 0x20) as char == 'Ã';
    case 'ä' => assert (c as int - 0x20) as char == 'Ä';
    case 'é' => assert (c as int - 0x20) as char == 'É';
    case 'è' => assert (c as int - 0x20) as char == 'È';
    case 'ê' => assert (c as int - 0x20) as char == 'Ê';
    case 'ë' => assert (c as int - 0x20) as char == 'Ë';
    case 'í' => assert (c as int - 0x20) as char == 'Í';
    case 'ì' => assert (c as int - 0x20) as char == 'Ì';
    case 'î' => assert (c as int - 0x20) as char == 'Î';
    case 'ï' => assert (c as int - 0x20) as char == 'Ï';
    case 'ç' => assert (c as int - 0x20) as char == 'Ç';
    case _ =>
  }

  lemma BothCasesHigh(c: char)
    requires '\U{00F0}' <= c <= '\U{00FE}'
    ensures Fold(c) == Fold((c as int - 0x20) as char)
  {
    if c <= '\U{00F6}' {
      BothCasesO(c);
    } else {
      BothCasesU(c);
    }
  }

  lemma BothCasesO(c: char)
    requires '\U{00F0}' <= c <= '\U{00F6}'
    ensures Fold(c) == Fold((c as int - 0x20) as char)
  {
    match c
    case 'ó' => assert (c as int - 0x20) as char == 'Ó';
    case 'ò' => assert (c as int - 0x20) as char == 'Ò';
    case 'ô' => assert (c as int - 0x20) as char == 'Ô';
    case 'õ' => assert (c as int - 0x20) as char == 'Õ';
    case 'ö' => assert (c as int - 0x20) as char == 'Ö';
    case 'ñ' => assert (c as int - 0x20) as char == 'Ñ';
    case _ =>
  }

  lemma BothCasesU(c: char)
    requires '\U{00F7}' <= c <= '\U{00FE}'
    ensures Fold(c) == Fold((c as int - 0x20) as char)
  {
    match c
    case 'ú' => assert (c as int - 0x20) as char == 'Ú';
    case 'ù' => assert (c as int - 0x20) as char == 'Ù';
    case 'û' => assert (c as int - 0x20) as char == 'Û';
    case 'ü' => assert (c as int - 0x20) as char == 'Ü';
    case _ =>
  }
}
