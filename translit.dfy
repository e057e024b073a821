/**
 * Conversion between Azerbaijani Latin and Soviet-era Cyrillic script, rune
 * by rune through the letter tables; Cyrillic Г is resolved by context and the
 * soft and hard signs are dropped.
 */
module Translit {
  import opened Wrappers
  import opened TranslitMapping

  predicate IsSign(c: char) { c == 'Ь' || c == 'ь' || c == 'Ъ' || c == 'ъ' }

  /** The input uses the separate letter Ҝ for G, so every Г stands for Q. */
  predicate ContainsGje(s: string) { exists i :: 0 <= i < |s| && (s[i] == 'Ҝ' || s[i] == 'ҝ') }

  /**
   * Latin reading of Г (upper) or г: Q when the text has Ҝ; otherwise G before
   * a front vowel and Q before anything else or at the end, keeping the case.
   */
  function ResolveG(upper: bool, rest: string, hasGje: bool): (c: char)
    ensures upper ==> c in {'G', 'Q'}
    ensures !upper ==> c in {'g', 'q'}
    ensures hasGje ==> c == (if upper then 'Q' else 'q')
  {
    var q := hasGje || rest == [] || !IsFrontVowel(rest[0]);
    if upper then (if q then 'Q' else 'G') else (if q then 'q' else 'g')
  }

  /** The Latin runes written for one Cyrillic rune, given the text after it. */
  function CyrRune(r: char, rest: string, hasGje: bool): string {
    if r == 'Г' || r == 'г' then [ResolveG(r == 'Г', rest, hasGje)]
    else if IsSign(r) then []
    else if CyrToLat(r).Some? then [CyrToLat(r).value]
    else [r]
  }

  /** The loop over the runes of the input. */
  function ConvertCyr(s: string, hasGje: bool): (r: string)
    ensures |r| <= |s|
    ensures forall i :: 0 <= i < |r| ==> !IsSign(r[i])
    decreases |s|
  {
    if s == [] then [] else CyrRune(s[0], s[1..], hasGje) + ConvertCyr(s[1..], hasGje)
  }

  function CyrillicToLatin(s: string): (r: string)
    ensures s == [] ==> r == []
    ensures forall i :: 0 <= i < |r| ==> !IsSign(r[i])
  {
    if s == [] then [] else ConvertCyr(s, ContainsGje(s))
  }

  /** Without signs, each input rune gives exactly the one rune at the same position. */
  lemma {:induction false} ConvertCyrAt(s: string, hasGje: bool, i: nat)
    requires forall k :: 0 <= k < |s| ==> !IsSign(s[k])
    requires i < |s|
    ensures |ConvertCyr(s, hasGje)| == |s|
    ensures |CyrRune(s[i], s[i + 1..], hasGje)| == 1
    ensures ConvertCyr(s, hasGje)[i] == CyrRune(s[i], s[i + 1..], hasGje)[0]
    decreases |s|
  {
    var r := ConvertCyr(s, hasGje);
    if i == 0 {
      if |s| > 1 { ConvertCyrAt(s[1..], hasGje, 0); }
    } else {
      ConvertCyrAt(s[1..], hasGje, i - 1);
      assert s[1..][i - 1] == s[i] && s[1..][i - 1 + 1..] == s[i + 1..];
    }
  }

  /** Runes outside the table pass through, table runes are translated, position for position. */
  lemma ConvertCyrPerRune(s: string, hasGje: bool, i: nat)
    requires forall k :: 0 <= k < |s| ==> !IsSign(s[k])
    requires i < |s|
    ensures |ConvertCyr(s, hasGje)| == |s|
    ensures s[i] != 'Г' && s[i] != 'г' && CyrToLat(s[i]).None? ==> ConvertCyr(s, hasGje)[i] == s[i]
    ensures CyrToLat(s[i]).Some? ==> ConvertCyr(s, hasGje)[i] == CyrToLat(s[i]).value
  {
    ConvertCyrAt(s, hasGje, i);
  }

  /** Each sign is dropped and every other rune gives exactly one rune. */
  function SignCount(s: string): nat {
    if s == [] then 0 else (if IsSign(s[0]) then 1 else 0) + SignCount(s[1..])
  }

  lemma {:induction false} ConvertCyrLength(s: string, hasGje: bool)
    ensures |ConvertCyr(s, hasGje)| == |s| - SignCount(s)
    decreases |s|
  {
    if s != [] { ConvertCyrLength(s[1..], hasGje); }
  }

  /** The Cyrillic rune for a Latin rune: the table entry, or the rune itself. */
  function LatRune(r: char): char {
    if LatToCyr(r).Some? then LatToCyr(r).value else r
  }

  /** Rune-by-rune table mapping; the rune count is preserved. */
  function LatinToCyrillic(s: string): (r: string)
    ensures |r| == |s|
    ensures forall i :: 0 <= i < |s| ==> r[i] == LatRune(s[i])
  {
    if s == [] then [] else seq(|s|, i requires 0 <= i < |s| => LatRune(s[i]))
  }

  /** No rune of the text is Cyrillic (a table key, Г, г or a sign). */
  predicate NoCyrillic(s: string) {
    forall i :: 0 <= i < |s| ==> CyrToLat(s[i]).None? && s[i] != 'Г' && s[i] != 'г' && !IsSign(s[i])
  }

  predicate HasQ(s: string) { exists i :: 0 <= i < |s| && (s[i] == 'Q' || s[i] == 'q') }
  predicate HasG(s: string) { exists i :: 0 <= i < |s| && (s[i] == 'G' || s[i] == 'g') }

  lemma LatRuneBack(c: char, rest: string, hasGje: bool)
    requires CyrToLat(c).None? && c != 'Г' && c != 'г' && !IsSign(c)
    requires (c == 'Q' || c == 'q') ==> hasGje
    ensures CyrRune(LatRune(c), rest, hasGje) == [c]
  {
    SpecialLettersNotKeys();
    if LatToCyr(c).Some? {
      TablesInverse(c);
    }
  }

  lemma {:induction false} ConvertBack(s: string, hasGje: bool)
    requires NoCyrillic(s) && (HasQ(s) ==> hasGje)
    ensures ConvertCyr(LatinToCyrillic(s), hasGje) == s
    decreases |s|
  {
    if s != [] {
      var t := LatinToCyrillic(s);
      assert t[1..] == LatinToCyrillic(s[1..]);
      assert HasQ(s[1..]) ==> HasQ(s) by {
        if HasQ(s[1..]) { var i :| 0 <= i < |s[1..]| && (s[1..][i] == 'Q' || s[1..][i] == 'q'); assert s[i + 1] == s[1..][i]; }
      }
      assert (s[0] == 'Q' || s[0] == 'q') ==> HasQ(s);
      LatRuneBack(s[0], t[1..], hasGje);
      ConvertBack(s[1..], hasGje);
    }
  }

  /**
   * Latin text without Cyrillic runes comes back unchanged from Cyrillic,
   * provided it has no Q, or it has a G (so the Cyrillic text has Ҝ and every Г reads as Q).
   */
  lemma RoundTrip(s: string)
    requires NoCyrillic(s)
    requires !HasQ(s) || HasG(s)
    ensures CyrillicToLatin(LatinToCyrillic(s)) == s
  {
    var t := LatinToCyrillic(s);
    if s != [] {
      if HasG(s) {
        var i :| 0 <= i < |s| && (s[i] == 'G' || s[i] == 'g');
        assert t[i] == 'Ҝ' || t[i] == 'ҝ';
      }
      ConvertBack(s, ContainsGje(t));
    }
  }

  /** Why the round trip needs that side condition: "Qe" comes back as "Ge". */
  lemma QBeforeFrontVowel()
    ensures CyrillicToLatin(LatinToCyrillic("Qe")) == "Ge"
  {
    var t := LatinToCyrillic("Qe");
    assert t == "Ге";
    assert !ContainsGje(t);
    assert t[1..] == "е";
  }
}
