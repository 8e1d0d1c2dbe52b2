/**
 * The text side of the translator service: `normalizeText`, which upper-cases the input and
 * folds accented letters through NORMALIZATION_MAP, and `validateCharacters`, which rejects
 * the first character SUPPORTED_CHARACTERS does not list.
 */
module MorseText {
  import opened Wrappers
  import opened ServiceErrors
  import MorseDictionary
  import NormalizationMap
  import SupportedCharacters
  import JsString

  /**
   * `toUpperCase` on one character, for the characters this translator cares about: ASCII
   * a to z and the Latin-1 lowercase letters U+00E0 to U+00FE except the division sign
   * U+00F7, each 0x20 above its uppercase form. Every other character is left as it is.
   */
  function UpperChar(c: char): char {
    if 'a' <= c <= 'z' || ('\U{00E0}' <= c <= '\U{00FE}' && c != '\U{00F7}') then
      (c as int - 0x20) as char
    else c
  }

  /** `s.toUpperCase()`, character by character. */
  function ToUpper(s: string): (r: string)
    ensures |r| == |s|
  {
    seq(|s|, i requires 0 <= i < |s| => UpperChar(s[i]))
  }

  /** `s.replace(new RegExp(accented, 'g'), plain)` for a one-letter pattern: every `accented` becomes `plain`. */
  function ReplaceAll(s: string, accented: char, plain: char): (r: string)
    ensures |r| == |s|
  {
    seq(|s|, i requires 0 <= i < |s| => if s[i] == accented then plain else s[i])
  }

  /** What the replacements for the map entries with keys `keys` make of one character. */
  function FoldIn(c: char, keys: seq<char>): char {
    if c in keys && NormalizationMap.Fold(c).Some? then NormalizationMap.Fold(c).value else c
  }

  /** The replacements for the entries with keys `keys`, applied one after the other in that order. */
  function ApplyEntries(s: string, keys: seq<char>): (r: string)
    requires forall k :: k in keys ==> NormalizationMap.Fold(k).Some?
    ensures |r| == |s|
  {
    if keys == [] then s
    else
      var last := keys[|keys| - 1];
      ReplaceAll(ApplyEntries(s, keys[..|keys| - 1]), last, NormalizationMap.Fold(last).value)
  }

  /**
   * Whatever the order of the entries, applying them replaces each key by its value and
   * leaves every other character alone; this holds because no value is itself a key, so a
   * later entry never rewrites what an earlier one produced.
   */
  lemma {:induction false} ApplyEntriesFolds(s: string, keys: seq<char>)
    requires forall k :: k in keys ==> NormalizationMap.Fold(k).Some?
    ensures ApplyEntries(s, keys) == seq(|s|, i requires 0 <= i < |s| => FoldIn(s[i], keys))
    decreases |keys|
  {
    if keys != [] {
      var init := keys[..|keys| - 1];
      var last := keys[|keys| - 1];
      assert forall k :: k in init ==> k in keys;
      ApplyEntriesFolds(s, init);
      var r := ApplyEntries(s, keys);
      forall i | 0 <= i < |s|
        ensures r[i] == FoldIn(s[i], keys)
      {
        var x := s[i];
        assert keys == init + [last];
        if x in init {
          NormalizationMap.FoldedIsNotKey(x);
        }
      }
    }
  }

  /** The order of the entries does not matter: two key lists with the same members give the same result. */
  lemma EntryOrderIrrelevant(s: string, keys1: seq<char>, keys2: seq<char>)
    requires forall k :: k in keys1 ==> NormalizationMap.Fold(k).Some?
    requires forall k :: k in keys1 <==> k in keys2
    ensures ApplyEntries(s, keys1) == ApplyEntries(s, keys2)
  {
    ApplyEntriesFolds(s, keys1);
    ApplyEntriesFolds(s, keys2);
    assert forall i :: 0 <= i < |s| ==> FoldIn(s[i], keys1) == FoldIn(s[i], keys2);
  }

  /** One character of normalized text: upper-cased, then folded if it is a key of the map. */
  function NormalChar(c: char): char {
    var u := UpperChar(c);
    match NormalizationMap.Fold(u)
    case Some(p) => p
    case None => u
  }

  /** The text `normalizeText` returns. */
  function NormalForm(text: string): (r: string)
    ensures |r| == |text|
  {
    seq(|text|, i requires 0 <= i < |text| => NormalChar(text[i]))
  }

  /** A normalized character is neither a lowercase ASCII letter nor a key of NORMALIZATION_MAP. */
  lemma NormalCharPlain(c: char)
    ensures !('a' <= NormalChar(c) <= 'z')
    ensures NormalizationMap.Fold(NormalChar(c)).None?
  {
    var u := UpperChar(c);
    if NormalizationMap.Fold(u).Some? {
      NormalizationMap.FoldedPlain(u);
    }
  }

  /** Normalized text holds no lowercase ASCII letter and no key of NORMALIZATION_MAP. */
  lemma NormalFormPlain(text: string)
    ensures forall i :: 0 <= i < |NormalForm(text)| ==>
      !('a' <= NormalForm(text)[i] <= 'z') && NormalizationMap.Fold(NormalForm(text)[i]).None?
  {
    forall i | 0 <= i < |text|
      ensures !('a' <= NormalForm(text)[i] <= 'z') && NormalizationMap.Fold(NormalForm(text)[i]).None?
    {
      NormalCharPlain(text[i]);
    }
  }

  /** Normalizing twice is normalizing once. */
  lemma NormalFormIdempotent(text: string)
    ensures NormalForm(NormalForm(text)) == NormalForm(text)
  {
    forall i | 0 <= i < |text|
      ensures NormalChar(NormalChar(text[i])) == NormalChar(text[i])
    {
      NormalCharPlain(text[i]);
    }
  }

  /** The example of the source's documentation: 'Olá Mundo!' becomes 'OLA MUNDO!'. */
  lemma NormalFormExample()
    ensures NormalForm("Olá Mundo!") == "OLA MUNDO!"
  {
    assert NormalChar('á') == 'A';
    assert NormalChar('l') == 'L' && NormalChar('u') == 'U' && NormalChar('n') == 'N';
    assert NormalChar('d') == 'D' && NormalChar('o') == 'O';
  }

  /**
   * `normalizeText`: upper-case, then for each entry of NORMALIZATION_MAP in the order
   * `Object.entries` lists them replace every occurrence of the key by its value.
   */
  method NormalizeText(text: string) returns (normalized: string)
    ensures normalized == NormalForm(text)
  {
    NormalizationMap.AllKeysFold();
    var keys := NormalizationMap.Keys;
    normalized := ToUpper(text);
    var i := 0;
    while i < |keys|
      invariant 0 <= i <= |keys|
      invariant normalized == ApplyEntries(ToUpper(text), keys[..i])
    {
      EntriesStep(ToUpper(text), keys, i);
      normalized := ReplaceAll(normalized, keys[i], NormalizationMap.Fold(keys[i]).value);
      i := i + 1;
    }
    assert keys[..i] == keys;
    AllEntriesNormalize(text);
  }

  /** One more entry of the list is one more replacement. */
  lemma EntriesStep(s: string, keys: seq<char>, i: nat)
    requires forall k :: k in keys ==> NormalizationMap.Fold(k).Some?
    requires i < |keys|
    ensures ApplyEntries(s, keys[..i + 1]) == ReplaceAll(ApplyEntries(s, keys[..i]), keys[i], NormalizationMap.Fold(keys[i]).value)
  {
    assert keys[..i + 1][..i] == keys[..i];
  }

  /** All the entries of NORMALIZATION_MAP applied to the upper-cased text give its normal form. */
  lemma AllEntriesNormalize(text: string)
    ensures forall k :: k in NormalizationMap.Keys ==> NormalizationMap.Fold(k).Some?
    ensures ApplyEntries(ToUpper(text), NormalizationMap.Keys) == NormalForm(text)
  {
    NormalizationMap.AllKeysFold();
    ApplyEntriesFolds(ToUpper(text), NormalizationMap.Keys);
    forall j | 0 <= j < |text|
      ensures FoldIn(ToUpper(text)[j], NormalizationMap.Keys) == NormalChar(text[j])
    {
      NormalizationMap.KeysExact(UpperChar(text[j]));
    }
  }

  /** The characters `validateCharacters` lets through: the space and whatever SUPPORTED_CHARACTERS lists. */
  predicate Supported(c: char) {
    c == ' ' || c in SupportedCharacters.Chars
  }

  /** The error `validateCharacters` throws for an unsupported character. */
  function UnsupportedCharacter(c: char): ServiceError {
    ValidationError("Caractere " + [c] + " não é suportado pelo sistema")
  }

  /**
   * What `validateCharacters` decides: the error for the first character, scanning from the
   * front, that is not supported, or None.
   */
  function CharacterCheck(text: string): (r: Option<ServiceError>)
    decreases |text|
  {
    if text == [] then None
    else if !Supported(text[0]) then Some(UnsupportedCharacter(text[0]))
    else CharacterCheck(text[1..])
  }

  /** CharacterCheck reports nothing exactly when every character is supported, and otherwise the first that is not. */
  lemma CharacterCheckMeaning(text: string)
    ensures CharacterCheck(text).None? <==> forall i :: 0 <= i < |text| ==> Supported(text[i])
    ensures CharacterCheck(text).Some? ==> exists i :: (0 <= i < |text| && !Supported(text[i])
      && (forall j :: 0 <= j < i ==> Supported(text[j]))
      && CharacterCheck(text) == Some(UnsupportedCharacter(text[i])))
  {
    CharacterCheckNone(text);
    if CharacterCheck(text).Some? {
      var i := CharacterCheckFirst(text);
      assert 0 <= i < |text| && !Supported(text[i]) && (forall j :: 0 <= j < i ==> Supported(text[j]))
        && CharacterCheck(text) == Some(UnsupportedCharacter(text[i]));
    }
  }

  lemma {:induction false} CharacterCheckNone(text: string)
    ensures CharacterCheck(text).None? <==> forall i :: 0 <= i < |text| ==> Supported(text[i])
    decreases |text|
  {
    if text != [] && Supported(text[0]) {
      var t := text[1..];
      CharacterCheckNone(t);
      assert forall i :: 0 <= i < |t| ==> t[i] == text[i + 1];
      if CharacterCheck(t).None? {
        forall i | 0 <= i < |text| ensures Supported(text[i]) {
          if i > 0 { assert text[i] == t[i - 1]; }
        }
      }
    }
  }

  /** The position of the character CharacterCheck reports: the first unsupported one. */
  lemma {:induction false} CharacterCheckFirst(text: string) returns (i: nat)
    requires CharacterCheck(text).Some?
    ensures i < |text| && !Supported(text[i]) && forall j :: 0 <= j < i ==> Supported(text[j])
    ensures CharacterCheck(text) == Some(UnsupportedCharacter(text[i]))
    decreases |text|
  {
    if Supported(text[0]) {
      var k := CharacterCheckFirst(text[1..]);
      i := k + 1;
      SupportedPrefixStep(text, k);
    } else {
      i := 0;
    }
  }

  lemma SupportedPrefixStep(text: string, k: nat)
    requires k < |text| - 1 && Supported(text[0]) && !Supported(text[1..][k])
    requires forall j :: 0 <= j < k ==> Supported(text[1..][j])
    ensures !Supported(text[k + 1]) && forall j :: 0 <= j < k + 1 ==> Supported(text[j])
  {
    forall j | 0 <= j < k + 1 ensures Supported(text[j]) {
      if j > 0 { assert text[j] == text[1..][j - 1]; }
    }
  }

  /** Whatever the first unsupported character is, CharacterCheck reports that one. */
  lemma {:induction false} CharacterCheckAt(text: string, i: nat)
    requires i < |text| && !Supported(text[i]) && forall j :: 0 <= j < i ==> Supported(text[j])
    ensures CharacterCheck(text) == Some(UnsupportedCharacter(text[i]))
    decreases i
  {
    if i > 0 {
      var t := text[1..];
      assert Supported(text[0]);
      CharacterCheckTail(text);
      forall j | 0 <= j < i - 1
        ensures Supported(t[j])
      {
        assert t[j] == text[j + 1];
      }
      assert t[i - 1] == text[i];
      CharacterCheckAt(t, i - 1);
    }
  }

  /** A supported first character is skipped. */
  lemma CharacterCheckTail(text: string)
    requires text != [] && Supported(text[0])
    ensures CharacterCheck(text) == CharacterCheck(text[1..])
  {
  }

  /** `validateCharacters`: scans the text and stops at the first unsupported character. */
  method ValidateCharacters(text: string) returns (error: Option<ServiceError>)
    ensures error == CharacterCheck(text)
  {
    var i := 0;
    while i < |text|
      invariant 0 <= i <= |text|
      invariant CharacterCheck(text[i..]) == CharacterCheck(text)
    {
      var c := text[i];
      assert text[i..][1..] == text[i + 1..];
      if !Supported(c) {
        return Some(UnsupportedCharacter(c));
      }
      i := i + 1;
    }
    return None;
  }

  /**
   * In normalized text a supported character is the space or a key of MORSE_DICTIONARY: the
   * keys of NORMALIZATION_MAP that SUPPORTED_CHARACTERS also lists never survive normalization.
   */
  lemma SupportedNormalHasCode(text: string)
    requires forall i :: 0 <= i < |NormalForm(text)| ==> Supported(NormalForm(text)[i])
    ensures forall i :: 0 <= i < |NormalForm(text)| ==>
      NormalForm(text)[i] == ' ' || MorseDictionary.MorseCode(NormalForm(text)[i]).Some?
  {
    forall i | 0 <= i < |text|
      ensures NormalForm(text)[i] == ' ' || MorseDictionary.MorseCode(NormalForm(text)[i]).Some?
    {
      var c := NormalForm(text)[i];
      NormalCharPlain(text[i]);
      SupportedCharacters.Exact(c);
    }
  }

  /** Tabs, line breaks and every other whitespace character but the space are rejected. */
  lemma OtherWhitespaceUnsupported(c: char)
    requires JsString.IsWhitespace(c) && c != ' '
    ensures !Supported(c)
  {
    NoPunctuationCode(c);
    assert MorseDictionary.MorseCode(c).None?;
    assert NormalizationMap.Fold(c).None?;
    SupportedCharacters.Exact(c);
  }

  /** No character below the space or above '~' is a punctuation key. */
  lemma NoPunctuationCode(c: char)
    requires c < ' ' || c > '~'
    ensures MorseDictionary.PunctuationCode(c).None?
  {
  }
}
