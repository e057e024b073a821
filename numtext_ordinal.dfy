/** Ordinal numbers: the cardinal text followed by a suffix chosen by vowel harmony. */
module NumtextOrdinal {
  import opened NumtextWords
  import opened NumtextConvert
  import Unicode
  import GoInt

  /** The Azerbaijani vowels. */
  predicate IsVowel(c: char) {
    c == 'a' || c == 'e' || c == 'ə' || c == 'ı' || c == 'i' || c == 'o' || c == 'ö' || c == 'u' || c == 'ü'
  }

  /** Front vowels; the others are back vowels. */
  predicate IsFront(c: char) { c == 'e' || c == 'ə' || c == 'i' || c == 'ö' || c == 'ü' }

  /** Rounded vowels. */
  predicate IsRounded(c: char) { c == 'o' || c == 'ö' || c == 'u' || c == 'ü' }

  /** The high vowel that harmonises with v: it agrees with v in frontness and rounding. */
  function HarmonyVowel(v: char): (h: char)
    requires IsVowel(v)
    ensures IsVowel(h) && IsFront(h) == IsFront(v) && IsRounded(h) == IsRounded(v)
  {
    if IsFront(v) then (if IsRounded(v) then 'ü' else 'i') else (if IsRounded(v) then 'u' else 'ı')
  }

  /** lastVowel's "no vowel" result, the zero rune. */
  const NoVowel: char := '\0'

  /** The last vowel of s, or NoVowel when s has none. */
  function LastVowelOf(s: string): (v: char)
    ensures v == NoVowel ==> forall i :: 0 <= i < |s| ==> !IsVowel(s[i])
    ensures v != NoVowel ==> (IsVowel(v) && exists i :: 0 <= i < |s| && s[i] == v && forall j :: i < j < |s| ==> !IsVowel(s[j]))
  {
    if s == [] then NoVowel
    else if IsVowel(s[|s| - 1]) then s[|s| - 1]
    else
      var v := LastVowelOf(s[..|s| - 1]);
      assert forall i :: 0 <= i < |s| - 1 ==> s[..|s| - 1][i] == s[i];
      v
  }

  /** lastVowel: scans s backwards for a vowel. */
  method LastVowel(s: string) returns (v: char)
    ensures v == LastVowelOf(s)
  {
    var i := |s|;
    while i > 0
      invariant 0 <= i <= |s|
      invariant LastVowelOf(s) == LastVowelOf(s[..i])
    {
      var r := s[i - 1];
      assert s[..i][..i - 1] == s[..i - 1];
      if IsVowel(r) {
        return r;
      }
      i := i - 1;
    }
    return NoVowel;
  }

  /** A vowel in the appended part hides every vowel before it. */
  lemma {:induction false} LastVowelAppend(a: string, b: string)
    requires LastVowelOf(b) != NoVowel
    ensures LastVowelOf(a + b) == LastVowelOf(b)
    decreases |b|
  {
    assert b != [];
    assert (a + b)[..|a + b| - 1] == a + b[..|b| - 1];
    if !IsVowel(b[|b| - 1]) {
      LastVowelAppend(a, b[..|b| - 1]);
    }
  }

  /** The ordinal suffix after a final consonant. */
  function FullSuffix(v: char): string {
    match v
    case 'a' => "ıncı" case 'ı' => "ıncı"
    case 'e' => "inci" case 'ə' => "inci" case 'i' => "inci"
    case 'o' => "uncu" case 'u' => "uncu"
    case 'ö' => "üncü" case 'ü' => "üncü"
    case _ => ""
  }

  /** The ordinal suffix after a final vowel. */
  function ShortSuffix(v: char): string {
    match v
    case 'a' => "ncı" case 'ı' => "ncı"
    case 'e' => "nci" case 'ə' => "nci" case 'i' => "nci"
    case 'o' => "ncu" case 'u' => "ncu"
    case 'ö' => "ncü" case 'ü' => "ncü"
    case _ => ""
  }

  /**
   * The full suffix is "-nc-" between two copies of the harmonising high vowel, and the
   * short suffix is the full one without its first vowel; other runes get no suffix.
   */
  lemma SuffixHarmony(v: char)
    ensures IsVowel(v) ==> FullSuffix(v) == [HarmonyVowel(v), 'n', 'c', HarmonyVowel(v)]
    ensures IsVowel(v) ==> ShortSuffix(v) == FullSuffix(v)[1..]
    ensures !IsVowel(v) ==> FullSuffix(v) == "" && ShortSuffix(v) == ""
  {
  }

  /** locativeSuffix: "da" after a back vowel, "də" otherwise (also when s has no vowel). */
  function LocativeSuffix(s: string): (r: string)
    ensures r == "da" <==> (LastVowelOf(s) != NoVowel && !IsFront(LastVowelOf(s)))
    ensures r == "da" || r == "də"
  {
    var lv := LastVowelOf(s);
    match lv
    case 'a' => "da" case 'ı' => "da" case 'o' => "da" case 'u' => "da"
    case _ => "də"
  }

  /** The ordinal of a cardinal text: the text and its suffix, or "" when the text has no vowel. */
  function OrdinalOf(cardinal: string): string {
    var lv := LastVowelOf(cardinal);
    if lv == NoVowel then ""
    else cardinal + (if IsVowel(cardinal[|cardinal| - 1]) then ShortSuffix(lv) else FullSuffix(lv))
  }

  /** The ordinal text convertOrdinal produces. */
  function OrdinalText(n: int): string {
    if n > MaxAbs || n < -MaxAbs then ""
    else
      var ordinal := OrdinalOf(CardinalText(Abs(n)));
      if n < 0 && ordinal != "" then WordNegative + " " + ordinal else ordinal
  }

  /** convertOrdinal. */
  method ConvertOrdinal(n: int) returns (r: string)
    requires GoInt.InInt64(n)
    ensures r == OrdinalText(n)
  {
    if n > MaxAbs || n < -MaxAbs {
      return "";
    }
    var negative := n < 0;
    var absN := n;
    if negative {
      absN := -n;
    }
    var cardinal := Convert(absN);
    r := Suffixed(cardinal);
    if negative && r != "" {
      r := WordNegative + " " + r;
    }
  }

  /** The suffixing part of convertOrdinal, applied to the cardinal text. */
  method Suffixed(cardinal: string) returns (r: string)
    ensures r == OrdinalOf(cardinal)
  {
    var lv := LastVowel(cardinal);
    if lv == NoVowel {
      return "";
    }
    var suffix: string;
    var lastRune := cardinal[|cardinal| - 1];
    if IsVowel(lastRune) {
      suffix := ShortSuffix(lv);
    } else {
      suffix := FullSuffix(lv);
    }
    r := cardinal + suffix;
  }

  /** Words that each contain a vowel. */
  predicate Vowelled(ws: seq<string>) { forall i :: 0 <= i < |ws| ==> LastVowelOf(ws[i]) != NoVowel }

  lemma VowelledAppend(ws: seq<string>, vs: seq<string>)
    requires Vowelled(ws) && Vowelled(vs)
    ensures Vowelled(ws + vs)
  {
    forall i | 0 <= i < |ws + vs| ensures LastVowelOf((ws + vs)[i]) != NoVowel {
      if i < |ws| { assert (ws + vs)[i] == ws[i]; } else { assert (ws + vs)[i] == vs[i - |ws|]; }
    }
  }

  lemma OnesVowelled()
    ensures forall d :: 1 <= d < 10 ==> LastVowelOf(Ones[d]) != NoVowel
  {
    assert LastVowelOf("bir") == 'i';
    assert LastVowelOf("iki") == 'i';
    assert LastVowelOf("üç") == 'ü';
    assert LastVowelOf("dörd") == 'ö';
    assert LastVowelOf("beş") == 'e';
    assert LastVowelOf("altı") == 'ı';
    assert LastVowelOf("yeddi") == 'i';
    assert LastVowelOf("səkkiz") == 'i';
    assert LastVowelOf("doqquz") == 'u';
  }

  lemma TensVowelled()
    ensures forall t :: 1 <= t < 10 ==> LastVowelOf(Tens[t]) != NoVowel
  {
    assert LastVowelOf("on") == 'o';
    assert LastVowelOf("iyirmi") == 'i';
    assert LastVowelOf("otuz") == 'u';
    assert LastVowelOf("qırx") == 'ı';
    assert LastVowelOf("əlli") == 'i';
    assert LastVowelOf("altmış") == 'ı';
    assert LastVowelOf("yetmiş") == 'i';
    assert LastVowelOf("səksən") == 'ə';
    assert LastVowelOf("doxsan") == 'a';
  }

  lemma MagnitudesVowelled()
    ensures forall k :: 0 <= k < |Magnitudes| ==> LastVowelOf(Magnitudes[k].word) != NoVowel
    ensures LastVowelOf(WordHundred) != NoVowel
  {
    LargeMagnitudesVowelled();
    SmallMagnitudesVowelled();
  }

  lemma LargeMagnitudesVowelled()
    ensures LastVowelOf("kvintilyon") == 'o' && LastVowelOf("kvadrilyon") == 'o' && LastVowelOf("trilyon") == 'o'
  {
    assert LastVowelOf("kvintilyon") == 'o';
    assert LastVowelOf("kvadrilyon") == 'o';
  }

  lemma SmallMagnitudesVowelled()
    ensures LastVowelOf("milyard") == 'a' && LastVowelOf("milyon") == 'o' && LastVowelOf("min") == 'i' && LastVowelOf("yüz") == 'ü'
  {
    assert LastVowelOf("milyard") == 'a';
    assert LastVowelOf("milyon") == 'o';
  }

  lemma GroupVowelled(n: int)
    requires 0 < n <= 999
    ensures Vowelled(GroupWords(n))
  {
    OnesVowelled();
    TensVowelled();
    MagnitudesVowelled();
  }

  lemma MagnitudeVowelled(count: int, k: nat)
    requires 0 <= count <= 999 && k < |Magnitudes|
    ensures Vowelled(MagnitudeWords(count, Magnitudes[k]))
  {
    MagnitudesVowelled();
    if count > 0 && !(Magnitudes[k].value == 1000 && count == 1) {
      GroupVowelled(count);
      VowelledAppend(GroupWords(count), [Magnitudes[k].word]);
    }
  }

  lemma {:induction false} ConvertVowelled(n: int, k: nat)
    requires k <= |Magnitudes| && 0 <= n <= MaxAbs
    requires k > 0 ==> n < Magnitudes[k - 1].value
    ensures Vowelled(ConvertWords(n, k))
    decreases |Magnitudes| - k
  {
    if k == |Magnitudes| {
      MagnitudeChain(k - 1);
      ConvertLast(n);
      if n > 0 { GroupVowelled(n); }
    } else {
      var c, rest := Split(n, k).0, Split(n, k).1;
      ConvertVowelled(rest, k + 1);
      MagnitudeVowelled(c, k);
      VowelledAppend(MagnitudeWords(c, Magnitudes[k]), ConvertWords(rest, k + 1));
    }
  }

  /** The last vowel of a join of vowelled words is the last vowel of its last word. */
  lemma JoinLastVowel(ws: seq<string>)
    requires ws != [] && Vowelled(ws)
    ensures LastVowelOf(Unicode.Join(ws, " ")) == LastVowelOf(ws[|ws| - 1])
  {
    var last := ws[|ws| - 1];
    assert LastVowelOf(last) != NoVowel;
    if |ws| > 1 {
      var init := ws[..|ws| - 1];
      JoinSnoc(ws);
      LastVowelAppend(Unicode.Join(init, " ") + " ", last);
    }
  }

  /** A join of several words is the join of all but the last, a space, and the last. */
  lemma JoinSnoc(ws: seq<string>)
    requires |ws| > 1
    ensures Unicode.Join(ws, " ") == Unicode.Join(ws[..|ws| - 1], " ") + " " + ws[|ws| - 1]
  {
    var last := ws[|ws| - 1];
    var init := ws[..|ws| - 1];
    assert ws == init + [last];
    Unicode.JoinAppend(init, [last], " ");
  }

  /** Every cardinal convert produces contains a vowel. */
  lemma CardinalVowel(m: int)
    requires 0 <= m <= MaxAbs
    ensures LastVowelOf(CardinalText(m)) != NoVowel
  {
    if m == 0 {
      assert LastVowelOf("sıfır") == 'ı';
    } else {
      PositiveWords(m);
      ConvertVowelled(m, 0);
      JoinLastVowel(ConvertWords(m, 0));
    }
  }

  /**
   * The ordinal of a text with a vowel is the text and a suffix; the suffix starts with a
   * consonant exactly when the text ends in a vowel, and its vowel harmonises with the text's
   * last vowel.
   */
  lemma OrdinalOfHarmony(cardinal: string)
    requires LastVowelOf(cardinal) != NoVowel
    ensures var o := OrdinalOf(cardinal); |o| > |cardinal| && o[..|cardinal|] == cardinal
    ensures var o := OrdinalOf(cardinal); IsVowel(cardinal[|cardinal| - 1]) <==> !IsVowel(o[|cardinal|])
    ensures LastVowelOf(OrdinalOf(cardinal)) == HarmonyVowel(LastVowelOf(cardinal))
  {
    var lv := LastVowelOf(cardinal);
    SuffixHarmony(lv);
    var suffix := if IsVowel(cardinal[|cardinal| - 1]) then ShortSuffix(lv) else FullSuffix(lv);
    assert OrdinalOf(cardinal) == cardinal + suffix;
    assert LastVowelOf(suffix) == HarmonyVowel(lv) by {
      assert suffix[|suffix| - 1] == HarmonyVowel(lv);
    }
    LastVowelAppend(cardinal, suffix);
  }

  /** convertOrdinal returns "" exactly for values beyond 10^18 in magnitude. */
  lemma OrdinalEmpty(n: int)
    ensures OrdinalText(n) == "" <==> n > MaxAbs || n < -MaxAbs
  {
    if -MaxAbs <= n <= MaxAbs {
      CardinalVowel(Abs(n));
      OrdinalOfHarmony(CardinalText(Abs(n)));
    }
  }

  /** A negative ordinal is "mənfi", a space, and the ordinal of the magnitude. */
  lemma OrdinalNegative(n: int)
    requires 0 < n <= MaxAbs
    ensures OrdinalText(-n) == WordNegative + " " + OrdinalText(n)
  {
    CardinalVowel(n);
    OrdinalOfHarmony(CardinalText(n));
  }

  /** Zero's ordinal takes the full suffix: "sıfırıncı". */
  lemma OrdinalZero()
    ensures OrdinalText(0) == "sıfırıncı"
  {
    assert LastVowelOf("sıfır") == 'ı';
  }

  /** After a final consonant the full suffix: "birinci", "üçüncü". */
  lemma OrdinalOfConsonant()
    ensures OrdinalOf("bir") == "birinci"
    ensures OrdinalOf("üç") == "üçüncü"
  {
    assert LastVowelOf("bir") == 'i';
    assert LastVowelOf("üç") == 'ü';
  }

  /** After a final vowel the short suffix: "iyirminci", "altıncı". */
  lemma OrdinalOfVowel()
    ensures OrdinalOf("iyirmi") == "iyirminci"
    ensures OrdinalOf("altı") == "altıncı"
  {
    assert LastVowelOf("iyirmi") == 'i';
    assert LastVowelOf("altı") == 'ı';
  }

  /** Ordinals of non-negative values are the ordinal of their cardinal text. */
  lemma OrdinalOfCardinal(n: int)
    requires 0 <= n <= MaxAbs
    ensures OrdinalText(n) == OrdinalOf(CardinalText(n))
  {
  }
}
