/**
 * Azerbaijani phonology for the morphological analyser: the vowel classes,
 * the voiceless consonants, the last vowel of a stem, the stem validity test
 * and the two vowel-harmony checks (back/front and four-way).
 */
module MorphPhonology {
  import AzCase
  import Unicode

  /** The back vowels a, ı, o, u in both cases. */
  const BackVowels: set<char> := {'a', 'A', 'ı', 'I', 'o', 'O', 'u', 'U'}
  /** The front vowels e, ə, i, ö, ü in both cases. */
  const FrontVowels: set<char> := {'e', 'E', 'ə', 'Ə', 'i', 'İ', 'ö', 'Ö', 'ü', 'Ü'}
  /** The voiceless consonants, lower case only. */
  const Voiceless: set<char> := {'p', 'ç', 't', 'k', 'q', 'f', 's', 'ş', 'x', 'h'}

  /** The rune 0, which stands for "no vowel". */
  const NoVowel: char := '\0'

  predicate IsVowel(r: char) { r in BackVowels || r in FrontVowels }
  predicate IsBackVowel(r: char) { r in BackVowels }
  predicate IsVoiceless(r: char) { r in Voiceless }

  /** The eighteen Azerbaijani vowels, lower case then upper case. */
  const AllVowels: string := "aeəıioöuüAEƏIİOÖUÜ"

  /** No rune is both a back and a front vowel, and the vowels are exactly the eighteen letters. */
  lemma VowelClasses()
    ensures forall r :: !(r in BackVowels && r in FrontVowels)
    ensures forall r :: IsVowel(r) <==> r in AllVowels
    ensures !IsVowel(NoVowel)
  {
  }

  /** The rightmost vowel of s, or NoVowel when s has none. */
  function LastVowel(s: string): (r: char)
    ensures r == NoVowel <==> forall i :: 0 <= i < |s| ==> !IsVowel(s[i])
    ensures r != NoVowel ==> (IsVowel(r)
      && exists i :: 0 <= i < |s| && s[i] == r && forall j :: i < j < |s| ==> !IsVowel(s[j]))
    decreases |s|
  {
    if s == [] then NoVowel
    else if IsVowel(s[|s| - 1]) then s[|s| - 1]
    else
      var p := s[..|s| - 1];
      var r := LastVowel(p);
      assert forall i :: 0 <= i < |p| ==> p[i] == s[i];
      r
  }

  /** A stem candidate needs at least two runes and at least one vowel. */
  function IsValidStem(s: string): (b: bool)
    ensures b <==> |s| >= 2 && exists i :: 0 <= i < |s| && IsVowel(s[i])
  {
    |s| >= 2 && LastVowel(s) != NoVowel
  }

  /** Two-way harmony: a back stem vowel wants a back suffix vowel, a front one a front one. */
  function MatchesBackFront(stemLastVowel: char, suffixVowel: char): (b: bool)
    ensures stemLastVowel == NoVowel ==> b
  {
    if stemLastVowel == NoVowel then true
    else IsBackVowel(AzCase.Lower(stemLastVowel)) == IsBackVowel(AzCase.Lower(suffixVowel))
  }

  /** The high vowel a four-way suffix takes after a given lower-case stem vowel. */
  function FourWayTarget(v: char): (t: char)
    ensures t == 'ı' || t == 'u' || t == 'i' || t == 'ü'
    ensures (v == 'a' || v == 'ı') ==> t == 'ı'
    ensures (v == 'o' || v == 'u') ==> t == 'u'
    ensures (v == 'e' || v == 'ə' || v == 'i') ==> t == 'i'
    ensures (v == 'ö' || v == 'ü') ==> t == 'ü'
  {
    if v == 'a' || v == 'ı' then 'ı'
    else if v == 'o' || v == 'u' then 'u'
    else if v == 'e' || v == 'ə' || v == 'i' then 'i'
    else if v == 'ö' || v == 'ü' then 'ü'
    else 'i'
  }

  /** The target keeps the stem vowel's backness and roundness. */
  lemma FourWayTargetClasses(v: char)
    requires IsVowel(v) && !Unicode.IsUpper(v)
    ensures IsBackVowel(FourWayTarget(v)) <==> IsBackVowel(v)
    ensures (FourWayTarget(v) in {'u', 'ü'}) <==> (v in {'o', 'ö', 'u', 'ü'})
  {
  }

  /** Four-way harmony: the lower-cased suffix vowel is the target of the stem vowel. */
  function MatchesFourWay(stemLastVowel: char, suffixVowel: char): (b: bool)
    ensures stemLastVowel == NoVowel ==> b
  {
    if stemLastVowel == NoVowel then true
    else AzCase.Lower(suffixVowel) == FourWayTarget(AzCase.Lower(stemLastVowel))
  }

  /** Four-way harmony is the finer check: whatever it accepts, back/front harmony accepts too. */
  lemma FourWayRefinesBackFront(stemLastVowel: char, suffixVowel: char)
    requires MatchesFourWay(stemLastVowel, suffixVowel)
    ensures MatchesBackFront(stemLastVowel, suffixVowel)
  {
    if stemLastVowel != NoVowel {
      var l := AzCase.Lower(stemLastVowel);
      assert l != 'A' && l != 'I' && l != 'O' && l != 'U';
      var t := FourWayTarget(l);
      assert AzCase.Lower(suffixVowel) == t;
      assert IsBackVowel(t) <==> IsBackVowel(l);
    }
  }
}
