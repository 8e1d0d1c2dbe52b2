/**
 * MORSE_DICTIONARY: the character-to-code table of the translator, International Morse code
 * as in ITU-R Recommendation M.1677-1, Part I, section 1.1 (letters, figures, punctuation),
 * plus '!' and ';', two common extensions. The record is split here by the three groups it lists.
 */
module MorseDictionary {
  import opened Wrappers

  /** A Morse code: dots and dashes only. */
  predicate IsCode(s: string) {
    forall i :: 0 <= i < |s| ==> s[i] == '.' || s[i] == '-'
  }
  /** The entries for the letters A to Z. */
  function LetterCode(c: char): Option<string> {
    match c
    case 'A' => Some(".-")
    case 'B' => Some("-...")
    case 'C' => Some("-.-.")
    case 'D' => Some("-..")
    case 'E' => Some(".")
    case 'F' => Some("..-.")
    case 'G' => Some("--.")
    case 'H' => Some("....")
    case 'I' => Some("..")
    case 'J' => Some(".---")
    case 'K' => Some("-.-")
    case 'L' => Some(".-..")
    case 'M' => Some("--")
    case 'N' => Some("-.")
    case 'O' => Some("---")
    case 'P' => Some(".--.")
    case 'Q' => Some("--.-")
    case 'R' => Some(".-.")
    case 'S' => Some("...")
    case 'T' => Some("-")
    case 'U' => Some("..-")
    case 'V' => Some("...-")
    case 'W' => Some(".--")
    case 'X' => Some("-..-")
    case 'Y' => Some("-.--")
    case 'Z' => Some("--..")
    case _ => None
  }
  /** The entries for the figures 0 to 9. */
  function DigitCode(c: char): Option<string> {
    match c
    case '0' => Some("-----")
    case '1' => Some(".----")
    case '2' => Some("..---")
    case '3' => Some("...--")
    case '4' => Some("....-")
    case '5' => Some(".....")
    case '6' => Some("-....")
    case '7' => Some("--...")
    case '8' => Some("---..")
    case '9' => Some("----.")
    case _ => None
  }
  /** The entries for the fifteen punctuation marks. */
  function PunctuationCode(c: char): Option<string> {
    match c
    case ',' => Some("--..--")
    case '.' => Some(".-.-.-")
    case '?' => Some("..--..")
    case '!' => Some("-.-.--")
    case ':' => Some("---...")
    case ';' => Some("-.-.-.")
    case '(' => Some("-.--.")
    case ')' => Some("-.--.-")
    case '-' => Some("-....-")
    case '/' => Some("-..-.")
    case '"' => Some(".-..-.")
    case '\'' => Some(".----.")
    case '@' => Some(".--.-.")
    case '=' => Some("-...-")
    case '+' => Some(".-.-.")
    case _ => None
  }
  /** `MORSE_DICTIONARY[c]`, None when `c` is not a key. */
  function MorseCode(c: char): Option<string> {
    if 'A' <= c <= 'Z' then LetterCode(c)
    else if '0' <= c <= '9' then DigitCode(c)
    else PunctuationCode(c)
  }

  /** The figures, which `Object.entries` lists first because they are integer-like keys. */
  const DigitKeys: seq<char> := ['0', '1', '2', '3', '4', '5', '6', '7', '8', '9']

  /** The letters, in insertion order. */
  const LetterKeys: seq<char> := ['A', 'B', 'C', 'D', 'E', 'F', 'G', 'H', 'I', 'J', 'K', 'L', 'M', 'N', 'O', 'P', 'Q', 'R', 'S', 'T', 'U', 'V', 'W', 'X', 'Y', 'Z']

  /** The punctuation marks, in insertion order. */
  const PunctuationKeys: seq<char> := [',', '.', '?', '!', ':', ';', '(', ')', '-', '/', '"', '\'', '@', '=', '+']

  /** `Object.keys(MORSE_DICTIONARY)`, in the order `Object.entries` visits them. */
  const Keys: seq<char> := DigitKeys + LetterKeys + PunctuationKeys

  /**
   * The Morse code tree, independent of the table: from the root, a dot goes left and a dash
   * goes right; the node reached names the character.
   */
  ghost function TreeDecode(s: string): (r: Option<char>)
    ensures r.Some? ==> 1 <= |s| <= 6 && IsCode(s)
  {
    if |s| == 0 then None
    else if s[0] == '.' then (
      if |s| == 1 then Some('E')
      else if s[1] == '.' then (
        if |s| == 2 then Some('I')
        else if s[2] == '.' then (
          if |s| == 3 then Some('S')
          else if s[3] == '.' then (
            if |s| == 4 then Some('H')
            else if s[4] == '.' then (
              if |s| == 5 then Some('5') else None
            )
            else if s[4] == '-' then (
              if |s| == 5 then Some('4') else None
            )
            else None
          )
          else if s[3] == '-' then (
            if |s| == 4 then Some('V')
            else if s[4] == '-' then (
              if |s| == 5 then Some('3') else None
            )
            else None
          )
          else None
        )
        else if s[2] == '-' then (
          if |s| == 3 then Some('U')
          else if s[3] == '.' then (
            if |s| == 4 then Some('F') else None
          )
          else if s[3] == '-' then (
            if |s| == 4 then None
            else if s[4] == '.' then (
              if |s| == 5 then None
              else if s[5] == '.' then (
                if |s| == 6 then Some('?') else None
              )
              else None
            )
            else if s[4] == '-' then (
              if |s| == 5 then Some('2') else None
            )
            else None
          )
          else None
        )
        else None
      )
      else if s[1] == '-' then (
        if |s| == 2 then Some('A')
        else if s[2] == '.' then (
          if |s| == 3 then Some('R')
          else if s[3] == '.' then (
            if |s| == 4 then Some('L')
            else if s[4] == '-' then (
              if |s| == 5 then None
              else if s[5] == '.' then (
                if |s| == 6 then Some('"') else None
              )
              else None
            )
            else None
          )
          else if s[3] == '-' then (
            if |s| == 4 then None
            else if s[4] == '.' then (
              if |s| == 5 then Some('+')
              else if s[5] == '-' then (
                if |s| == 6 then Some('.') else None
              )
              else None
            )
            else None
          )
          else None
        )
        else if s[2] == '-' then (
          if |s| == 3 then Some('W')
          else if s[3] == '.' then (
            if |s| == 4 then Some('P')
            else if s[4] == '-' then (
              if |s| == 5 then None
              else if s[5] == '.' then (
                if |s| == 6 then Some('@') else None
              )
              else None
            )
            else None
          )
          else if s[3] == '-' then (
            if |s| == 4 then Some('J')
            else if s[4] == '-' then (
              if |s| == 5 then Some('1')
              else if s[5] == '.' then (
                if |s| == 6 then Some('\'') else None
              )
              else None
            )
            else None
          )
          else None
        )
        else None
      )
      else None
    )
    else if s[0] == '-' then (
      if |s| == 1 then Some('T')
      else if s[1] == '.' then (
        if |s| == 2 then Some('N')
        else if s[2] == '.' then (
          if |s| == 3 then Some('D')
          else if s[3] == '.' then (
            if |s| == 4 then Some('B')
            else if s[4] == '.' then (
              if |s| == 5 then Some('6')
              else if s[5] == '-' then (
                if |s| == 6 then Some('-') else None
              )
              else None
            )
            else if s[4] == '-' then (
              if |s| == 5 then Some('=') else None
            )
            else None
          )
          else if s[3] == '-' then (
            if |s| == 4 then Some('X')
            else if s[4] == '.' then (
              if |s| == 5 then Some('/') else None
            )
            else None
          )
          else None
        )
        else if s[2] == '-' then (
          if |s| == 3 then Some('K')
          else if s[3] == '.' then (
            if |s| == 4 then Some('C')
            else if s[4] == '-' then (
              if |s| == 5 then None
              else if s[5] == '.' then (
                if |s| == 6 then Some(';') else None
              )
              else if s[5] == '-' then (
                if |s| == 6 then Some('!') else None
              )
              else None
            )
            else None
          )
          else if s[3] == '-' then (
            if |s| == 4 then Some('Y')
            else if s[4] == '.' then (
              if |s| == 5 then Some('(')
              else if s[5] == '-' then (
                if |s| == 6 then Some(')') else None
              )
              else None
            )
            else None
          )
          else None
        )
        else None
      )
      else if s[1] == '-' then (
        if |s| == 2 then Some('M')
        else if s[2] == '.' then (
          if |s| == 3 then Some('G')
          else if s[3] == '.' then (
            if |s| == 4 then Some('Z')
            else if s[4] == '.' then (
              if |s| == 5 then Some('7') else None
            )
            else if s[4] == '-' then (
              if |s| == 5 then None
              else if s[5] == '-' then (
                if |s| == 6 then Some(',') else None
              )
              else None
            )
            else None
          )
          else if s[3] == '-' then (
            if |s| == 4 then Some('Q') else None
          )
          else None
        )
        else if s[2] == '-' then (
          if |s| == 3 then Some('O')
          else if s[3] == '.' then (
            if |s| == 4 then None
            else if s[4] == '.' then (
              if |s| == 5 then Some('8')
              else if s[5] == '.' then (
                if |s| == 6 then Some(':') else None
              )
              else None
            )
            else None
          )
          else if s[3] == '-' then (
            if |s| == 4 then None
            else if s[4] == '.' then (
              if |s| == 5 then Some('9') else None
            )
            else if s[4] == '-' then (
              if |s| == 5 then Some('0') else None
            )
            else None
          )
          else None
        )
        else None
      )
      else None
    )
    else None
  }

  /** Each letter code leads to its letter in the Morse tree. */
  lemma LetterDecodes(c: char)
    requires LetterCode(c).Some?
    ensures TreeDecode(LetterCode(c).value) == Some(c)
  {
    match c
    case 'A' => assert LetterCode(c).value == ".-";
    case 'B' => assert LetterCode(c).value == "-...";
    case 'C' => assert LetterCode(c).value == "-.-.";
    case 'D' => assert LetterCode(c).value == "-..";
    case 'E' => assert LetterCode(c).value == ".";
    case 'F' => assert LetterCode(c).value == "..-.";
    case 'G' => assert LetterCode(c).value == "--.";
    case 'H' => assert LetterCode(c).value == "....";
    case 'I' => assert LetterCode(c).value == "..";
    case 'J' => assert LetterCode(c).value == ".---";
    case 'K' => assert LetterCode(c).value == "-.-";
    case 'L' => assert LetterCode(c).value == ".-..";
    case 'M' => assert LetterCode(c).value == "--";
    case 'N' => assert LetterCode(c).value == "-.";
    case 'O' => assert LetterCode(c).value == "---";
    case 'P' => assert LetterCode(c).value == ".--.";
    case 'Q' => assert LetterCode(c).value == "--.-";
    case 'R' => assert LetterCode(c).value == ".-.";
    case 'S' => assert LetterCode(c).value == "...";
    case 'T' => assert LetterCode(c).value == "-";
    case 'U' => assert LetterCode(c).value == "..-";
    case 'V' => assert LetterCode(c).value == "...-";
    case 'W' => assert LetterCode(c).value == ".--";
    case 'X' => assert LetterCode(c).value == "-..-";
    case 'Y' => assert LetterCode(c).value == "-.--";
    case 'Z' => assert LetterCode(c).value == "--..";
  }

  /** Each figure code leads to its figure in the Morse tree. */
  lemma DigitDecodes(c: char)
    requires DigitCode(c).Some?
    ensures TreeDecode(DigitCode(c).value) == Some(c)
  {
    match c
    case '0' => assert DigitCode(c).value == "-----";
    case '1' => assert DigitCode(c).value == ".----";
    case '2' => assert DigitCode(c).value == "..---";
    case '3' => assert DigitCode(c).value == "...--";
    case '4' => assert DigitCode(c).value == "....-";
    case '5' => assert DigitCode(c).value == ".....";
    case '6' => assert DigitCode(c).value == "-....";
    case '7' => assert DigitCode(c).value == "--...";
    case '8' => assert DigitCode(c).value == "---..";
    case '9' => assert DigitCode(c).value == "----.";
  }

  /** Each punctuation code leads to its mark in the Morse tree. */
  lemma PunctuationDecodes(c: char)
    requires PunctuationCode(c).Some?
    ensures TreeDecode(PunctuationCode(c).value) == Some(c)
  {
    match c
    case ',' => assert PunctuationCode(c).value == "--..--";
    case '.' => assert PunctuationCode(c).value == ".-.-.-";
    case '?' => assert PunctuationCode(c).value == "..--..";
    case '!' => assert PunctuationCode(c).value == "-.-.--";
    case ':' => assert PunctuationCode(c).value == "---...";
    case ';' => assert PunctuationCode(c).value == "-.-.-.";
    case '(' => assert PunctuationCode(c).value == "-.--.";
    case ')' => assert PunctuationCode(c).value == "-.--.-";
    case '-' => assert PunctuationCode(c).value == "-....-";
    case '/' => assert PunctuationCode(c).value == "-..-.";
    case '"' => assert PunctuationCode(c).value == ".-..-.";
    case '\'' => assert PunctuationCode(c).value == ".----.";
    case '@' => assert PunctuationCode(c).value == ".--.-.";
    case '=' => assert PunctuationCode(c).value == "-...-";
    case '+' => assert PunctuationCode(c).value == ".-.-.";
  }

  /** Decoding by the Morse tree inverts MORSE_DICTIONARY on every key. */
  lemma CodeDecodes(c: char)
    requires MorseCode(c).Some?
    ensures TreeDecode(MorseCode(c).value) == Some(c)
  {
    if 'A' <= c <= 'Z' {
      LetterDecodes(c);
    } else if '0' <= c <= '9' {
      DigitDecodes(c);
    } else {
      PunctuationDecodes(c);
    }
  }

  /** Every value is a non-empty string of at most six dots and dashes. */
  lemma CodeWellFormed(c: char)
    requires MorseCode(c).Some?
    ensures IsCode(MorseCode(c).value) && 1 <= |MorseCode(c).value| <= 6
  {
    CodeDecodes(c);
  }

  /** No two keys share a code. */
  lemma CodesInjective(c: char, d: char)
    requires MorseCode(c).Some? && MorseCode(c) == MorseCode(d)
    ensures c == d
  {
    CodeDecodes(c);
    CodeDecodes(d);
  }

  /** Only uppercase letters are keys. */
  lemma NoLowercaseKeys(c: char)
    requires 'a' <= c <= 'z'
    ensures MorseCode(c).None?
  {
  }

  lemma LettersTotal(c: char)
    requires 'A' <= c <= 'Z'
    ensures LetterCode(c).Some?
  {
  }

  lemma DigitsTotal(c: char)
    requires '0' <= c <= '9'
    ensures DigitCode(c).Some?
  {
  }

  lemma PunctuationKeysExact(c: char)
    ensures c in PunctuationKeys <==> PunctuationCode(c).Some?
  {
  }

  lemma LetterKeysExact(c: char)
    ensures c in LetterKeys <==> 'A' <= c <= 'Z'
  {
  }

  lemma DigitKeysExact(c: char)
    ensures c in DigitKeys <==> '0' <= c <= '9'
  {
  }

  /** The keys that `Object.keys` lists are exactly the characters the table maps. */
  lemma KeysExact(c: char)
    ensures c in Keys <==> MorseCode(c).Some?
  {
    PunctuationKeysExact(c);
    LetterKeysExact(c);
    DigitKeysExact(c);
    if 'A' <= c <= 'Z' {
      LettersTotal(c);
    } else if '0' <= c <= '9' {
      DigitsTotal(c);
    }
  }

  lemma LetterKeysDistinct()
    ensures forall i, j :: 0 <= i < j < |LetterKeys| ==> LetterKeys[i] != LetterKeys[j]
  {
    assert forall i :: 0 <= i < |LetterKeys| ==> LetterKeys[i] as int == 'A' as int + i;
  }

  lemma DigitKeysDistinct()
    ensures forall i, j :: 0 <= i < j < |DigitKeys| ==> DigitKeys[i] != DigitKeys[j]
  {
  }

  lemma PunctuationKeysDistinct()
    ensures forall i, j :: 0 <= i < j < |PunctuationKeys| ==> PunctuationKeys[i] != PunctuationKeys[j]
  {
  }

  /** The table has 51 distinct keys: 26 letters, 10 figures, 15 punctuation marks. */
  lemma KeyCount()
    ensures |Keys| == 51 && |LetterKeys| == 26 && |DigitKeys| == 10 && |PunctuationKeys| == 15
    ensures forall i, j :: 0 <= i < j < |Keys| ==> Keys[i] != Keys[j]
  {
    DigitKeysDistinct();
    LetterKeysDistinct();
    PunctuationKeysDistinct();
    forall i, j | 0 <= i < j < |Keys|
      ensures Keys[i] != Keys[j]
    {
      if i < 10 && j >= 10 {
        DigitKeysExact(Keys[i]);
        if j < 36 {
          LetterKeysExact(Keys[j]);
        } else {
          PunctuationKeysExact(Keys[j]);
        }
      } else if 10 <= i < 36 && j >= 36 {
        LetterKeysExact(Keys[i]);
        PunctuationKeysExact(Keys[j]);
      }
    }
  }

  /** `Object.entries(MORSE_DICTIONARY)`: each key with its code, in key order. */
  function Entries(): seq<(char, string)>
  {
    AllKeysMapped();
    seq(|Keys|, i requires 0 <= i < |Keys| => (Keys[i], MorseCode(Keys[i]).value))
  }

  lemma AllKeysMapped()
    ensures forall c :: c in Keys ==> MorseCode(c).Some?
  {
    forall c | c in Keys
      ensures MorseCode(c).Some?
    {
      KeysExact(c);
    }
  }

  /** An entry is a key paired with its code, and every key has its entry. */
  lemma EntriesExact(c: char, m: string)
    ensures (c, m) in Entries() <==> MorseCode(c) == Some(m)
  {
    KeysExact(c);
    if MorseCode(c) == Some(m) {
      var i :| 0 <= i < |Keys| && Keys[i] == c;
      assert Entries()[i] == (c, m);
    }
  }
}
