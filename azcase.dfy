/**
 * Azerbaijani case conversion: the dotted and dotless I pairs (I/ı, İ/i) and
 * the generic Unicode mapping for every other rune.
 */
module AzCase {
  import Unicode

  /** The 32 letters of the Azerbaijani Latin alphabet, lower case, in alphabet order. */
  const LowerAlphabet: string := "abcçdeəfgğhxıijkqlmnoöprsştuüvyz"
  /** The same letters in upper case. */
  const UpperAlphabet: string := "ABCÇDEƏFGĞHXIİJKQLMNOÖPRSŞTUÜVYZ"

  /** Lower-case form of one rune: I becomes ı and İ becomes i. */
  function Lower(r: char): (l: char)
    ensures r == 'I' ==> l == 'ı'
    ensures r == 'İ' ==> l == 'i'
    ensures !Unicode.IsUpper(l)
  {
    if r == 'I' then 'ı' else if r == 'İ' then 'i' else Unicode.ToLower(r)
  }

  /** Upper-case form of one rune: i becomes İ and ı becomes I. */
  function Upper(r: char): (u: char)
    ensures r == 'i' ==> u == 'İ'
    ensures r == 'ı' ==> u == 'I'
    ensures Unicode.ToUpper(u) == u
  {
    if r == 'i' then 'İ' else if r == 'ı' then 'I' else Unicode.ToUpper(r)
  }

  /** Upper-casing and lower-casing are inverse on the alphabet, letter by letter. */
  lemma AlphabetRoundTrip(k: nat)
    requires k < |LowerAlphabet|
    ensures |UpperAlphabet| == |LowerAlphabet| == 32
    ensures Upper(LowerAlphabet[k]) == UpperAlphabet[k]
    ensures Lower(UpperAlphabet[k]) == LowerAlphabet[k]
  {
    if k < 8 {
      LettersFrom0(k);
    } else if k < 16 {
      LettersFrom8(k);
    } else if k < 24 {
      LettersFrom16(k);
    } else {
      LettersFrom24(k);
    }
  }

  /** The letters a, b, c, ç, d, e, ə, f and their capitals. */
  lemma LettersFrom0(k: nat)
    requires k < 8
    ensures Upper(LowerAlphabet[k]) == UpperAlphabet[k] && Lower(UpperAlphabet[k]) == LowerAlphabet[k]
  {
    if k == 0 {
      assert LowerAlphabet[0] == 'a' && UpperAlphabet[0] == 'A';
    } else if k == 1 {
      assert LowerAlphabet[1] == 'b' && UpperAlphabet[1] == 'B';
    } else if k == 2 {
      assert LowerAlphabet[2] == 'c' && UpperAlphabet[2] == 'C';
    } else if k == 3 {
      assert LowerAlphabet[3] == 'ç' && UpperAlphabet[3] == 'Ç';
    } else if k == 4 {
      assert LowerAlphabet[4] == 'd' && UpperAlphabet[4] == 'D';
    } else if k == 5 {
      assert LowerAlphabet[5] == 'e' && UpperAlphabet[5] == 'E';
    } else if k == 6 {
      assert LowerAlphabet[6] == 'ə' && UpperAlphabet[6] == 'Ə';
    } else if k == 7 {
      assert LowerAlphabet[7] == 'f' && UpperAlphabet[7] == 'F';
    }
  }

  /** The letters g, ğ, h, x, ı, i, j, k and their capitals. */
  lemma LettersFrom8(k: nat)
    requires 8 <= k < 16
    ensures Upper(LowerAlphabet[k]) == UpperAlphabet[k] && Lower(UpperAlphabet[k]) == LowerAlphabet[k]
  {
    if k == 8 {
      assert LowerAlphabet[8] == 'g' && UpperAlphabet[8] == 'G';
    } else if k == 9 {
      assert LowerAlphabet[9] == 'ğ' && UpperAlphabet[9] == 'Ğ';
    } else if k == 10 {
      assert LowerAlphabet[10] == 'h' && UpperAlphabet[10] == 'H';
    } else if k == 11 {
      assert LowerAlphabet[11] == 'x' && UpperAlphabet[11] == 'X';
    } else if k == 12 {
      assert LowerAlphabet[12] == 'ı' && UpperAlphabet[12] == 'I';
    } else if k == 13 {
      assert LowerAlphabet[13] == 'i' && UpperAlphabet[13] == 'İ';
    } else if k == 14 {
      assert LowerAlphabet[14] == 'j' && UpperAlphabet[14] == 'J';
    } else if k == 15 {
      assert LowerAlphabet[15] == 'k' && UpperAlphabet[15] == 'K';
    }
  }

  /** The letters q, l, m, n, o, ö, p, r and their capitals. */
  lemma LettersFrom16(k: nat)
    requires 16 <= k < 24
    ensures Upper(LowerAlphabet[k]) == UpperAlphabet[k] && Lower(UpperAlphabet[k]) == LowerAlphabet[k]
  {
    if k == 16 {
      assert LowerAlphabet[16] == 'q' && UpperAlphabet[16] == 'Q';
    } else if k == 17 {
      assert LowerAlphabet[17] == 'l' && UpperAlphabet[17] == 'L';
    } else if k == 18 {
      assert LowerAlphabet[18] == 'm' && UpperAlphabet[18] == 'M';
    } else if k == 19 {
      assert LowerAlphabet[19] == 'n' && UpperAlphabet[19] == 'N';
    } else if k == 20 {
      assert LowerAlphabet[20] == 'o' && UpperAlphabet[20] == 'O';
    } else if k == 21 {
      assert LowerAlphabet[21] == 'ö' && UpperAlphabet[21] == 'Ö';
    } else if k == 22 {
      assert LowerAlphabet[22] == 'p' && UpperAlphabet[22] == 'P';
    } else if k == 23 {
      assert LowerAlphabet[23] == 'r' && UpperAlphabet[23] == 'R';
    }
  }

  /** The letters s, ş, t, u, ü, v, y, z and their capitals. */
  lemma LettersFrom24(k: nat)
    requires 24 <= k < 32
    ensures Upper(LowerAlphabet[k]) == UpperAlphabet[k] && Lower(UpperAlphabet[k]) == LowerAlphabet[k]
  {
    if k == 24 {
      assert LowerAlphabet[24] == 's' && UpperAlphabet[24] == 'S';
    } else if k == 25 {
      assert LowerAlphabet[25] == 'ş' && UpperAlphabet[25] == 'Ş';
    } else if k == 26 {
      assert LowerAlphabet[26] == 't' && UpperAlphabet[26] == 'T';
    } else if k == 27 {
      assert LowerAlphabet[27] == 'u' && UpperAlphabet[27] == 'U';
    } else if k == 28 {
      assert LowerAlphabet[28] == 'ü' && UpperAlphabet[28] == 'Ü';
    } else if k == 29 {
      assert LowerAlphabet[29] == 'v' && UpperAlphabet[29] == 'V';
    } else if k == 30 {
      assert LowerAlphabet[30] == 'y' && UpperAlphabet[30] == 'Y';
    } else if k == 31 {
      assert LowerAlphabet[31] == 'z' && UpperAlphabet[31] == 'Z';
    }
  }

  /** Rune-wise lower-casing: same rune count, and no upper-case rune remains. */
  function ToLower(s: string): (r: string)
    ensures |r| == |s|
    ensures forall i :: 0 <= i < |s| ==> r[i] == Lower(s[i])
    ensures forall i :: 0 <= i < |r| ==> !Unicode.IsUpper(r[i])
  {
    seq(|s|, i requires 0 <= i < |s| => Lower(s[i]))
  }

  /** Rune-wise upper-casing: same rune count, and every rune is its own upper case. */
  function ToUpper(s: string): (r: string)
    ensures |r| == |s|
    ensures forall i :: 0 <= i < |s| ==> r[i] == Upper(s[i])
    ensures forall i :: 0 <= i < |r| ==> Unicode.ToUpper(r[i]) == r[i]
  {
    seq(|s|, i requires 0 <= i < |s| => Upper(s[i]))
  }

  /** A word over the lower-case alphabet. */
  predicate AlphabetWord(w: string) { forall i :: 0 <= i < |w| ==> w[i] in LowerAlphabet }

  lemma LowerUpperOnAlphabet(c: char)
    requires c in LowerAlphabet
    ensures Lower(Upper(c)) == c
  {
    var k :| 0 <= k < |LowerAlphabet| && LowerAlphabet[k] == c;
    AlphabetRoundTrip(k);
  }

  /** Upper-casing a lower-case alphabet word and lower-casing it again gives the word back. */
  lemma ToLowerToUpper(w: string)
    requires AlphabetWord(w)
    ensures ToLower(ToUpper(w)) == w
  {
    forall i | 0 <= i < |w| ensures ToLower(ToUpper(w))[i] == w[i] {
      LowerUpperOnAlphabet(w[i]);
    }
  }

  /** The replacement rune utf8.DecodeRuneInString reports for a U+FFFD prefix. */
  const RuneError: char := '\U{FFFD}'

  /** The first rune upper-cased, the rest untouched; "" and a leading U+FFFD are returned as is. */
  function UpperFirst(s: string): (r: string)
    ensures |r| == |s| && (s != [] ==> r[1..] == s[1..])
    ensures s != [] ==> r[0] == Upper(s[0])
  {
    if s == [] || s[0] == RuneError then s else [Upper(s[0])] + s[1..]
  }

  /** Go's loop over the runes after the first: some letter in it is not upper case. */
  predicate HasNonUpperLetterAfterFirst(s: string) {
    exists i :: 1 <= i < |s| && Unicode.IsLetter(s[i]) && !Unicode.IsUpper(s[i])
  }

  /** First rune upper case, more runes follow, and one of them is a letter that is not upper case. */
  predicate IsTitleCase(s: string) {
    s != [] && s[0] != RuneError && Unicode.IsUpper(s[0]) && |s| > 1 && HasNonUpperLetterAfterFirst(s)
  }

  /** Some rune is a letter, and every letter is upper case. */
  predicate IsAllUpper(s: string) {
    (exists i :: 0 <= i < |s| && Unicode.IsLetter(s[i]))
    && forall i :: 0 <= i < |s| && Unicode.IsLetter(s[i]) ==> Unicode.IsUpper(s[i])
  }

  /** A single rune and an all-upper acronym are not title case; a string without letters is not all upper. */
  lemma CaseClasses(s: string)
    ensures |s| <= 1 ==> !IsTitleCase(s)
    ensures IsAllUpper(s) ==> !IsTitleCase(s)
    ensures (forall i :: 0 <= i < |s| ==> !Unicode.IsLetter(s[i])) ==> !IsAllUpper(s)
  {
  }

  /** Which case pattern ApplyCase copies from the original. */
  datatype CaseMode = AllUpper | TitleFirst | Unchanged

  function ModeOf(original: string): CaseMode
    requires original != []
  {
    if IsAllUpper(original) then AllUpper
    else if Unicode.IsUpper(original[0]) then TitleFirst
    else Unchanged
  }

  /** Transfers the case pattern of original onto corrected. */
  function ApplyCase(original: string, corrected: string): (r: string)
    ensures |r| == |corrected|
    ensures original == [] || corrected == [] ==> r == corrected
    ensures original != [] && corrected != [] && ModeOf(original) == AllUpper ==> r == ToUpper(corrected)
    ensures original != [] && corrected != [] && ModeOf(original) == TitleFirst ==> r == UpperFirst(corrected)
    ensures original != [] && corrected != [] && ModeOf(original) == Unchanged ==> r == corrected
  {
    if original == [] || corrected == [] then corrected
    else if IsAllUpper(original) then ToUpper(corrected)
    else if Unicode.IsUpper(original[0]) then UpperFirst(corrected)
    else corrected
  }

  /** Applying a case pattern to a lower-case alphabet word changes only case. */
  lemma ApplyCaseOnlyCase(original: string, corrected: string)
    requires AlphabetWord(corrected)
    ensures ToLower(ApplyCase(original, corrected)) == corrected
  {
    var r := ApplyCase(original, corrected);
    forall i | 0 <= i < |corrected| ensures ToLower(r)[i] == corrected[i] {
      LowerUpperOnAlphabet(corrected[i]);
      var c := corrected[i];
      var k :| 0 <= k < |LowerAlphabet| && LowerAlphabet[k] == c;
      AlphabetRoundTrip(k);
      assert Lower(c) == c by {
        assert c != 'I' && c != 'İ';
      }
    }
  }

  /** Some rune is a decimal digit. */
  predicate ContainsDigit(s: string) { exists i :: 0 <= i < |s| && Unicode.IsDigit(s[i]) }
}
