/**
 * `translateFromMorse` of the translator service and the reverse tables it reads. The Morse
 * text is split into words at " | " and each word into codes at " "; a code is looked up in
 * the reverse of MORSE_DICTIONARY, then in the reverse of FALLBACK_DICTIONARY, and a code in
 * neither becomes the placeholder "[?]" and is counted.
 */
module MorseDecoding {
  import opened Wrappers
  import opened JsString
  import opened MorseDictionary

  // ---------------------------------------------------------------------------------------
  // FALLBACK_DICTIONARY and the reverse tables

  /** FALLBACK_DICTIONARY: the letters A to Z and the figures 0 to 9 with their codes. */
  function FallbackCode(c: char): Option<string> {
    match c
    case 'A' => Some(".-")
    case 'B' => Some("-...")
    case 'C' => Some("-.-.")
    case 'D' => Some("-..")
    case 'E' => Some(".")
    case 'F' => Some("..-.")
    case 'G' => Some("--.")
    case 'H' => Some("....")
    case 'I' => Some("..")
    case 'J' => Some(".---")
    case 'K' => Some("-.-")
    case 'L' => Some(".-..")
    case 'M' => Some("--")
    case 'N' => Some("-.")
    case 'O' => Some("---")
    case 'P' => Some(".--.")
    case 'Q' => Some("--.-")
    case 'R' => Some(".-.")
    case 'S' => Some("...")
    case 'T' => Some("-")
    case 'U' => Some("..-")
    case 'V' => Some("...-")
    case 'W' => Some(".--")
    case 'X' => Some("-..-")
    case 'Y' => Some("-.--")
    case 'Z' => Some("--..")
    case '0' => Some("-----")
    case '1' => Some(".----")
    case '2' => Some("..---")
    case '3' => Some("...--")
    case '4' => Some("....-")
    case '5' => Some(".....")
    case '6' => Some("-....")
    case '7' => Some("--...")
    case '8' => Some("---..")
    case '9' => Some("----.")
    case _ => None
  }

  /** The fallback table has the letters and figures, and with the same codes as MORSE_DICTIONARY. */
  lemma FallbackAgrees(c: char)
    ensures FallbackCode(c) == if 'A' <= c <= 'Z' || '0' <= c <= '9' then MorseCode(c) else None
  {
    if 'A' <= c <= 'Z' {
      LettersTotal(c);
    } else if '0' <= c <= '9' {
      DigitsTotal(c);
    }
  }

  /** `Object.keys(FALLBACK_DICTIONARY)`, figures first as `Object.entries` visits them. */
  const FallbackKeys: seq<char> := DigitKeys + LetterKeys

  lemma FallbackKeysExact(c: char)
    ensures c in FallbackKeys <==> FallbackCode(c).Some?
  {
    DigitKeysExact(c);
    LetterKeysExact(c);
    FallbackAgrees(c);
    if '0' <= c <= '9' {
      DigitsTotal(c);
    } else if 'A' <= c <= 'Z' {
      LettersTotal(c);
    }
  }

  lemma AllFallbackKeysMapped()
    ensures forall c :: c in FallbackKeys ==> FallbackCode(c).Some?
  {
    forall c | c in FallbackKeys
      ensures FallbackCode(c).Some?
    {
      FallbackKeysExact(c);
    }
  }

  /** `Object.entries(FALLBACK_DICTIONARY)`: each key with its code, in key order. */
  function FallbackEntries(): seq<(char, string)>
  {
    AllFallbackKeysMapped();
    seq(|FallbackKeys|, i requires 0 <= i < |FallbackKeys| => (FallbackKeys[i], FallbackCode(FallbackKeys[i]).value))
  }

  /** An entry of the fallback table is a key paired with its code, and every key has its entry. */
  lemma FallbackEntriesExact(c: char, m: string)
    ensures (c, m) in FallbackEntries() <==> FallbackCode(c) == Some(m)
  {
    FallbackKeysExact(c);
    if FallbackCode(c) == Some(m) {
      var i :| 0 <= i < |FallbackKeys| && FallbackKeys[i] == c;
      assert FallbackEntries()[i] == (c, m);
    }
  }

  /** The reverse table that `initializeSystem` fills from entries: `reverse[morse] = char`, in entry order. */
  function Reverse(entries: seq<(char, string)>): map<string, char>
    decreases |entries|
  {
    if entries == [] then map[]
    else Reverse(entries[..|entries| - 1])[entries[|entries| - 1].1 := entries[|entries| - 1].0]
  }

  /** A code is in the reverse table exactly when some entry has it, and it maps to the character of such an entry. */
  lemma {:induction false} ReverseEntries(entries: seq<(char, string)>, code: string)
    ensures code in Reverse(entries) <==> exists c :: (c, code) in entries
    ensures code in Reverse(entries) ==> (Reverse(entries)[code], code) in entries
    decreases |entries|
  {
    if entries != [] {
      var init := entries[..|entries| - 1];
      var last := entries[|entries| - 1];
      ReverseEntries(init, code);
      assert entries == init + [last];
    }
  }

  /** REVERSE_MORSE_DICTIONARY once `initializeSystem` has filled it. */
  function ReverseDictionary(): map<string, char> {
    Reverse(Entries())
  }

  /** REVERSE_FALLBACK_DICTIONARY once `initializeSystem` has filled it. */
  function ReverseFallback(): map<string, char> {
    Reverse(FallbackEntries())
  }

  /** The reverse dictionary holds exactly the codes of the dictionary, each mapped to a character that has it. */
  lemma ReverseDictionaryExact(code: string)
    ensures code in ReverseDictionary() <==> exists c :: MorseCode(c) == Some(code)
    ensures code in ReverseDictionary() ==> MorseCode(ReverseDictionary()[code]) == Some(code)
  {
    ReverseEntries(Entries(), code);
    if code in ReverseDictionary() {
      EntriesExact(ReverseDictionary()[code], code);
    }
    if exists c :: MorseCode(c) == Some(code) {
      var c :| MorseCode(c) == Some(code);
      EntriesExact(c, code);
    }
  }

  /** The reverse dictionary is the inverse of the dictionary: the code of a character gives that character back. */
  lemma ReverseDecodes(c: char)
    requires MorseCode(c).Some?
    ensures MorseCode(c).value in ReverseDictionary() && ReverseDictionary()[MorseCode(c).value] == c
  {
    var code := MorseCode(c).value;
    ReverseDictionaryExact(code);
    CodesInjective(c, ReverseDictionary()[code]);
  }

  /** The reverse fallback table holds exactly the codes of the fallback table, each mapped to a character that has it. */
  lemma ReverseFallbackExact(code: string)
    ensures code in ReverseFallback() <==> exists c :: FallbackCode(c) == Some(code)
    ensures code in ReverseFallback() ==> FallbackCode(ReverseFallback()[code]) == Some(code)
  {
    ReverseEntries(FallbackEntries(), code);
    if code in ReverseFallback() {
      FallbackEntriesExact(ReverseFallback()[code], code);
    }
    if exists c :: FallbackCode(c) == Some(code) {
      var c :| FallbackCode(c) == Some(code);
      FallbackEntriesExact(c, code);
    }
  }

  /** Every code of the fallback table is already in the reverse dictionary, with the same character. */
  lemma FallbackRedundant(code: string)
    requires code in ReverseFallback()
    ensures code in ReverseDictionary() && ReverseDictionary()[code] == ReverseFallback()[code]
  {
    ReverseFallbackExact(code);
    var c := ReverseFallback()[code];
    FallbackAgrees(c);
    ReverseDecodes(c);
  }

  /** No character of either reverse table is '['. */
  lemma NoBracketValues(code: string)
    ensures code in ReverseDictionary() ==> ReverseDictionary()[code] != '['
    ensures code in ReverseFallback() ==> ReverseFallback()[code] != '['
  {
    ReverseDictionaryExact(code);
    ReverseFallbackExact(code);
    FallbackAgrees('[');
  }

  // ---------------------------------------------------------------------------------------
  // translateFromMorse

  /** What `translateFromMorse` returns: the text and the number of codes it could not resolve. */
  datatype Decoded = Decoded(text: string, invalidCount: nat)

  /** A code looked up in the primary reverse table, then in the fallback one. */
  function Lookup(code: string, rev: map<string, char>, fb: map<string, char>): Option<char> {
    if code in rev then Some(rev[code])
    else if code in fb then Some(fb[code])
    else None
  }

  /** The piece a code contributes to its word: its character, or "[?]". */
  function Piece(found: Option<char>): string {
    match found
    case Some(c) => [c]
    case None => "[?]"
  }

  /** `pieces.filter(code => code.trim() !== '')`: `trim()` is empty exactly for blank strings. */
  function NonBlank(pieces: seq<string>): seq<string>
    decreases |pieces|
  {
    if pieces == [] then []
    else
      var last := pieces[|pieces| - 1];
      NonBlank(pieces[..|pieces| - 1]) + (if IsBlank(last) then [] else [last])
  }

  /** The filter keeps exactly the pieces that are not blank. */
  lemma {:induction false} NonBlankMembers(pieces: seq<string>)
    ensures forall p :: p in NonBlank(pieces) <==> p in pieces && !IsBlank(p)
    decreases |pieces|
  {
    if pieces != [] {
      var init := pieces[..|pieces| - 1];
      NonBlankMembers(init);
      assert pieces == init + [pieces[|pieces| - 1]];
    }
  }

  /** The filter changes nothing when no piece is blank. */
  lemma {:induction false} NonBlankUnchanged(pieces: seq<string>)
    requires forall i :: 0 <= i < |pieces| ==> !IsBlank(pieces[i])
    ensures NonBlank(pieces) == pieces
    decreases |pieces|
  {
    if pieces != [] {
      var init := pieces[..|pieces| - 1];
      NonBlankUnchanged(init);
      assert pieces == init + [pieces[|pieces| - 1]];
    }
  }

  /** The codes of one Morse word: `word.split(' ')` without the blank pieces. */
  function Codes(word: string): seq<string> {
    NonBlank(Split(word, " "))
  }

  /** The inner loop over the codes of one word: the joined pieces and the unresolved codes. */
  function DecodeCodes(codes: seq<string>, rev: map<string, char>, fb: map<string, char>): Decoded
    decreases |codes|
  {
    if codes == [] then Decoded("", 0)
    else
      var d := DecodeCodes(codes[..|codes| - 1], rev, fb);
      var found := Lookup(codes[|codes| - 1], rev, fb);
      Decoded(d.text + Piece(found), d.invalidCount + if found.None? then 1 else 0)
  }

  /** One pass of the outer loop: a Morse word's decoded text, unless it is blank or has no codes, and its unresolved codes. */
  function DecodeWord(word: string, rev: map<string, char>, fb: map<string, char>): (Option<string>, nat) {
    if IsBlank(word) then (None, 0)
    else
      var codes := Codes(word);
      var d := DecodeCodes(codes, rev, fb);
      (if |codes| > 0 then Some(d.text) else None, d.invalidCount)
  }

  /** One word's result added to the running result: its text kept when there is one, its unresolved codes counted. */
  function Tally(acc: (seq<string>, nat), w: (Option<string>, nat)): (seq<string>, nat) {
    (if w.0.Some? then acc.0 + [w.0.value] else acc.0, acc.1 + w.1)
  }

  /** The outer loop over the Morse words: the decoded words kept and the unresolved codes. */
  function DecodeWords(words: seq<string>, rev: map<string, char>, fb: map<string, char>): (seq<string>, nat)
    decreases |words|
  {
    if words == [] then ([], 0)
    else
      Tally(DecodeWords(words[..|words| - 1], rev, fb), DecodeWord(words[|words| - 1], rev, fb))
  }

  /** What `translateFromMorse` returns for `morse` with the reverse tables `rev` and `fb`. */
  function Decoding(morse: string, rev: map<string, char>, fb: map<string, char>): Decoded {
    if IsBlank(morse) then Decoded("", 0)
    else
      var (kept, n) := DecodeWords(Split(morse, " | "), rev, fb);
      Decoded(Join(kept, " "), n)
  }

  /** One more code: its piece is appended and, when unresolved, counted. */
  lemma DecodeCodesStep(codes: seq<string>, j: int, rev: map<string, char>, fb: map<string, char>)
    requires 0 <= j < |codes|
    ensures DecodeCodes(codes[..j + 1], rev, fb).text == DecodeCodes(codes[..j], rev, fb).text + Piece(Lookup(codes[j], rev, fb))
    ensures DecodeCodes(codes[..j + 1], rev, fb).invalidCount
      == DecodeCodes(codes[..j], rev, fb).invalidCount + if Lookup(codes[j], rev, fb).None? then 1 else 0
  {
    assert codes[..j + 1][..j] == codes[..j];
  }

  /** The inner loop of `translateFromMorse`, over the codes of one word. */
  method TranslateCodes(codes: seq<string>, rev: map<string, char>, fb: map<string, char>) returns (d: Decoded)
    ensures d == DecodeCodes(codes, rev, fb)
  {
    var translatedChars: seq<string> := [];
    var invalidCount := 0;
    var j := 0;
    while j < |codes|
      invariant 0 <= j <= |codes|
      invariant DecodeCodes(codes[..j], rev, fb) == Decoded(Join(translatedChars, ""), invalidCount)
    {
      var code := codes[j];
      var found := Lookup(code, rev, fb);
      var piece;
      if found.None? {
        piece := "[?]";
        invalidCount := invalidCount + 1;
      } else {
        piece := [found.value];
      }
      DecodeCodesStep(codes, j, rev, fb);
      JoinConcatSnoc(translatedChars, piece);
      translatedChars := translatedChars + [piece];
      j := j + 1;
    }
    assert codes[..j] == codes;
    return Decoded(Join(translatedChars, ""), invalidCount);
  }

  /** The body of the outer loop of `translateFromMorse`: one Morse word, skipped when blank. */
  method TranslateWord(word: string, kept: seq<string>, invalidCount: nat, rev: map<string, char>, fb: map<string, char>)
    returns (kept': seq<string>, invalidCount': nat)
    ensures (kept', invalidCount') == Tally((kept, invalidCount), DecodeWord(word, rev, fb))
  {
    kept', invalidCount' := kept, invalidCount;
    if !IsBlank(word) {
      var codes := Codes(word);
      var d := TranslateCodes(codes, rev, fb);
      invalidCount' := invalidCount' + d.invalidCount;
      if |codes| > 0 {
        kept' := kept' + [d.text];
      }
    }
  }

  /** The decoding of the first `n` words, folded by index. */
  function DecodePrefix(words: seq<string>, n: nat, rev: map<string, char>, fb: map<string, char>): (seq<string>, nat)
    requires n <= |words|
  {
    if n == 0 then ([], 0)
    else
      Tally(DecodePrefix(words, n - 1, rev, fb), DecodeWord(words[n - 1], rev, fb))
  }

  /** Folding the first `n` words by index is decoding the prefix of `n` words. */
  lemma {:induction false} DecodePrefixIs(words: seq<string>, n: nat, rev: map<string, char>, fb: map<string, char>)
    requires n <= |words|
    ensures DecodePrefix(words, n, rev, fb) == DecodeWords(words[..n], rev, fb)
  {
    if n > 0 {
      DecodePrefixIs(words, n - 1, rev, fb);
      assert words[..n][..n - 1] == words[..n - 1];
    }
  }

  /** The outer loop of `translateFromMorse`, over the Morse words. */
  method TranslateWords(words: seq<string>, rev: map<string, char>, fb: map<string, char>) returns (kept: seq<string>, invalidCount: nat)
    ensures (kept, invalidCount) == DecodeWords(words, rev, fb)
  {
    kept := [];
    invalidCount := 0;
    var i := 0;
    while i < |words|
      invariant 0 <= i <= |words|
      invariant DecodePrefix(words, i, rev, fb) == (kept, invalidCount)
    {
      kept, invalidCount := TranslateWord(words[i], kept, invalidCount, rev, fb);
      i := i + 1;
    }
    DecodePrefixIs(words, i, rev, fb);
    assert words[..i] == words;
  }

  /** `translateFromMorse`: blank input decodes to nothing; otherwise each word is decoded and kept words are joined by spaces. */
  method TranslateFromMorse(morse: string, rev: map<string, char>, fb: map<string, char>) returns (r: Decoded)
    ensures r == Decoding(morse, rev, fb)
  {
    if IsBlank(morse) {
      return Decoded("", 0);
    }
    var kept, invalidCount := TranslateWords(Split(morse, " | "), rev, fb);
    r := Decoded(Join(kept, " "), invalidCount);
  }

  // ---------------------------------------------------------------------------------------
  // What the decoding computes

  /**
   * A word's codes: at most one unresolved per code, none exactly when every code resolves,
   * and then the text is the characters of the codes in order.
   */
  lemma {:induction false} DecodeCodesMeaning(codes: seq<string>, rev: map<string, char>, fb: map<string, char>)
    ensures DecodeCodes(codes, rev, fb).invalidCount <= |codes|
    ensures |DecodeCodes(codes, rev, fb).text| >= |codes|
    ensures DecodeCodes(codes, rev, fb).invalidCount == 0 <==> forall i :: 0 <= i < |codes| ==> Lookup(codes[i], rev, fb).Some?
    ensures (forall i :: 0 <= i < |codes| ==> Lookup(codes[i], rev, fb).Some?) ==>
      (|DecodeCodes(codes, rev, fb).text| == |codes|
      && forall i :: 0 <= i < |codes| ==> DecodeCodes(codes, rev, fb).text[i] == Lookup(codes[i], rev, fb).value)
    decreases |codes|
  {
    if codes != [] {
      var init := codes[..|codes| - 1];
      DecodeCodesMeaning(init, rev, fb);
      assert forall i :: 0 <= i < |init| ==> init[i] == codes[i];
    }
  }

  /** A piece of a Morse word holds only characters of the word, apart from spaces. */
  lemma PiecesOfWord(word: string, p: string, c: char)
    requires p in Split(word, " ") && c in p && c != ' '
    ensures c in word
  {
    JoinOfSplit(word, " ");
    JoinMembers(Split(word, " "), " ", c);
  }

  /** A Morse word has no codes exactly when it is blank. */
  lemma CodesEmpty(word: string)
    ensures Codes(word) == [] <==> IsBlank(word)
  {
    var pieces := Split(word, " ");
    NonBlankMembers(pieces);
    assert Codes(word) == [] || Codes(word)[0] in Codes(word);
    if IsBlank(word) {
      forall p | p in pieces
        ensures IsBlank(p)
      {
        forall i | 0 <= i < |p|
          ensures IsWhitespace(p[i])
        {
          if p[i] != ' ' {
            PiecesOfWord(word, p, p[i]);
          }
        }
      }
    } else {
      var i :| 0 <= i < |word| && !IsWhitespace(word[i]);
      JoinOfSplit(word, " ");
      JoinMembers(pieces, " ", word[i]);
      var p :| p in pieces && word[i] in p;
      assert p in Codes(word);
    }
  }

  /** A Morse word is left out of the text exactly when it is blank; otherwise its text is not empty. */
  lemma DecodeWordKept(word: string, rev: map<string, char>, fb: map<string, char>)
    ensures DecodeWord(word, rev, fb).0.None? <==> IsBlank(word)
    ensures DecodeWord(word, rev, fb).0.Some? ==> DecodeWord(word, rev, fb).0.value != []
  {
    CodesEmpty(word);
    DecodeCodesMeaning(Codes(word), rev, fb);
  }

  /** The decoded words: none exactly when every Morse word is blank, and none of them empty. */
  lemma {:induction false} DecodeWordsKept(words: seq<string>, rev: map<string, char>, fb: map<string, char>)
    ensures DecodeWords(words, rev, fb).0 == [] <==> forall i :: 0 <= i < |words| ==> IsBlank(words[i])
    ensures forall t :: t in DecodeWords(words, rev, fb).0 ==> t != []
    decreases |words|
  {
    if words != [] {
      var init := words[..|words| - 1];
      DecodeWordsKept(init, rev, fb);
      DecodeWordKept(words[|words| - 1], rev, fb);
      assert forall i :: 0 <= i < |init| ==> init[i] == words[i];
    }
  }

  /**
   * The text is empty exactly when the Morse text is blank or all of its " | "-separated
   * words are.
   */
  lemma DecodingEmpty(morse: string, rev: map<string, char>, fb: map<string, char>)
    ensures Decoding(morse, rev, fb).text == [] <==>
      IsBlank(morse) || forall w :: w in Split(morse, " | ") ==> IsBlank(w)
  {
    if !IsBlank(morse) {
      var words := Split(morse, " | ");
      DecodeWordsKept(words, rev, fb);
      var kept := DecodeWords(words, rev, fb).0;
      if kept != [] {
        assert kept[|kept| - 1] in kept;
        assert |Join(kept, " ")| >= |kept[|kept| - 1]|;
      }
      if forall i :: 0 <= i < |words| ==> IsBlank(words[i]) {
        assert forall w :: w in words ==> IsBlank(w);
      }
    }
  }

  /** The number of codes of a Morse text, over its " | "-separated words. */
  function CodeCount(words: seq<string>): nat
    decreases |words|
  {
    if words == [] then 0 else CodeCount(words[..|words| - 1]) + |Codes(words[|words| - 1])|
  }

  lemma {:induction false} DecodeWordsBound(words: seq<string>, rev: map<string, char>, fb: map<string, char>)
    ensures DecodeWords(words, rev, fb).1 <= CodeCount(words)
    decreases |words|
  {
    if words != [] {
      DecodeWordsBound(words[..|words| - 1], rev, fb);
      DecodeCodesMeaning(Codes(words[|words| - 1]), rev, fb);
    }
  }

  /** `invalidCount` is at most the number of codes: each unresolved code is counted once. */
  lemma DecodingBound(morse: string, rev: map<string, char>, fb: map<string, char>)
    ensures Decoding(morse, rev, fb).invalidCount <= if IsBlank(morse) then 0 else CodeCount(Split(morse, " | "))
  {
    if !IsBlank(morse) {
      DecodeWordsBound(Split(morse, " | "), rev, fb);
    }
  }

  // ---------------------------------------------------------------------------------------
  // The placeholders in the text

  /** Every '[' of `s` opens a "[?]". */
  predicate Bracketed(s: string) {
    forall i :: 0 <= i < |s| && s[i] == '[' ==> i + 2 < |s| && s[i + 1] == '?' && s[i + 2] == ']'
  }

  /** No character of a reverse table is '['. */
  predicate NoBracket(table: map<string, char>) {
    forall code :: code in table ==> table[code] != '['
  }

  /** Placeholders add up over a concatenation of bracketed strings, and the result is bracketed. */
  lemma BracketedAppend(a: string, b: string)
    requires Bracketed(a) && Bracketed(b)
    ensures Bracketed(a + b)
    ensures Occurrences(a + b, "[?]") == Occurrences(a, "[?]") + Occurrences(b, "[?]")
  {
    var ab := a + b;
    forall i | |a| - 3 < i < |a|
      ensures !OccursAt(ab, "[?]", i)
    {
      if i >= 0 {
        assert ab[i] == a[i];
        Mismatch(ab, "[?]", i, 0);
      }
    }
    OccurrencesAppend(a, b, "[?]");
    forall i | 0 <= i < |ab| && ab[i] == '['
      ensures i + 2 < |ab| && ab[i + 1] == '?' && ab[i + 2] == ']'
    {
      if i < |a| {
        assert ab[i] == a[i];
      } else {
        assert ab[i] == b[i - |a|];
      }
    }
  }

  /** A piece is bracketed, and holds a placeholder exactly when its code is unresolved. */
  lemma PiecePlaceholders(found: Option<char>)
    requires found.Some? ==> found.value != '['
    ensures Bracketed(Piece(found))
    ensures Occurrences(Piece(found), "[?]") == if found.None? then 1 else 0
  {
    if found.None? {
      assert OccursAt("[?]", "[?]", 0);
      assert "[?]"[1..] == "?]";
    }
  }

  lemma {:induction false} DecodeCodesPlaceholders(codes: seq<string>, rev: map<string, char>, fb: map<string, char>)
    requires NoBracket(rev) && NoBracket(fb)
    ensures Bracketed(DecodeCodes(codes, rev, fb).text)
    ensures Occurrences(DecodeCodes(codes, rev, fb).text, "[?]") == DecodeCodes(codes, rev, fb).invalidCount
    decreases |codes|
  {
    if codes != [] {
      var init := codes[..|codes| - 1];
      DecodeCodesPlaceholders(init, rev, fb);
      var found := Lookup(codes[|codes| - 1], rev, fb);
      PiecePlaceholders(found);
      BracketedAppend(DecodeCodes(init, rev, fb).text, Piece(found));
    }
  }

  /** A Morse word's decoded text is bracketed and holds its unresolved codes as placeholders; a word left out has none. */
  lemma DecodeWordPlaceholders(word: string, rev: map<string, char>, fb: map<string, char>)
    requires NoBracket(rev) && NoBracket(fb)
    ensures DecodeWord(word, rev, fb).0.None? ==> DecodeWord(word, rev, fb).1 == 0
    ensures DecodeWord(word, rev, fb).0.Some? ==>
      Bracketed(DecodeWord(word, rev, fb).0.value)
      && Occurrences(DecodeWord(word, rev, fb).0.value, "[?]") == DecodeWord(word, rev, fb).1
  {
    if !IsBlank(word) {
      DecodeCodesPlaceholders(Codes(word), rev, fb);
    }
  }

  /** Joining one more bracketed word with " " adds its placeholders. */
  lemma JoinPlaceholders(kept: seq<string>, t: string)
    requires Bracketed(Join(kept, " ")) && Bracketed(t)
    ensures Bracketed(Join(kept + [t], " "))
    ensures Occurrences(Join(kept + [t], " "), "[?]") == Occurrences(Join(kept, " "), "[?]") + Occurrences(t, "[?]")
  {
    if kept == [] {
      assert kept + [t] == [t];
    } else {
      JoinSnoc(kept, t, " ");
      assert Occurrences(" ", "[?]") == 0;
      BracketedAppend(Join(kept, " "), " ");
      BracketedAppend(Join(kept, " ") + " ", t);
    }
  }

  lemma {:induction false} DecodeWordsPlaceholders(words: seq<string>, rev: map<string, char>, fb: map<string, char>)
    requires NoBracket(rev) && NoBracket(fb)
    ensures Bracketed(Join(DecodeWords(words, rev, fb).0, " "))
    ensures Occurrences(Join(DecodeWords(words, rev, fb).0, " "), "[?]") == DecodeWords(words, rev, fb).1
    decreases |words|
  {
    if words != [] {
      var init := words[..|words| - 1];
      DecodeWordsPlaceholders(init, rev, fb);
      var w := DecodeWord(words[|words| - 1], rev, fb);
      DecodeWordPlaceholders(words[|words| - 1], rev, fb);
      if w.0.Some? {
        JoinPlaceholders(DecodeWords(init, rev, fb).0, w.0.value);
      }
    }
  }

  /** `invalidCount` is the number of "[?]" placeholders in the text, for tables without a '[' character. */
  lemma DecodingPlaceholders(morse: string, rev: map<string, char>, fb: map<string, char>)
    requires NoBracket(rev) && NoBracket(fb)
    ensures Decoding(morse, rev, fb).invalidCount == Occurrences(Decoding(morse, rev, fb).text, "[?]")
  {
    if !IsBlank(morse) {
      DecodeWordsPlaceholders(Split(morse, " | "), rev, fb);
    }
  }

  /** The service's reverse tables have no '[' character, so its count is the number of placeholders. */
  lemma ServicePlaceholders(morse: string)
    ensures Decoding(morse, ReverseDictionary(), ReverseFallback()).invalidCount
      == Occurrences(Decoding(morse, ReverseDictionary(), ReverseFallback()).text, "[?]")
  {
    forall code | code in ReverseDictionary()
      ensures ReverseDictionary()[code] != '['
    {
      NoBracketValues(code);
    }
    forall code | code in ReverseFallback()
      ensures ReverseFallback()[code] != '['
    {
      NoBracketValues(code);
    }
    DecodingPlaceholders(morse, ReverseDictionary(), ReverseFallback());
  }

  /** With the service's tables, the fallback lookup never resolves a code the primary one missed. */
  lemma FallbackNeverUsed(code: string)
    ensures Lookup(code, ReverseDictionary(), ReverseFallback()) == Lookup(code, ReverseDictionary(), map[])
  {
    if code in ReverseFallback() {
      FallbackRedundant(code);
    }
  }
}
