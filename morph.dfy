/**
 * The public API of the morphological analyser: Analyze (all analyses of a
 * word, always non-empty for non-empty input), Stem (the base form chosen
 * with the dictionary's help) and Stems (Stem over a list of words).
 */
module Morph {
  import AzCase
  import Unicode
  import opened Wrappers
  import P = MorphPhonology
  import opened MorphTags
  import opened MorphDict
  import MorphFsm

  /** Words longer than this many bytes are not analysed. */
  const MaxWordBytes: nat := 256

  /** The bare analysis: the word itself as the stem, no suffixes. */
  function Bare(word: string): Analysis { Analysis(word, []) }

  /**
   * Analyze: nothing for "", the bare word for over-long input, otherwise the
   * walk results followed by the bare word when it is itself a valid stem,
   * and the bare word alone when that leaves nothing.
   */
  function Analyze(word: string): (r: seq<Analysis>)
    ensures word == "" <==> r == []
    ensures Unicode.ByteLen(word) > MaxWordBytes ==> r == [Bare(word)]
  {
    if word == "" then []
    else if Unicode.ByteLen(word) > MaxWordBytes then [Bare(word)]
    else
      var rs := MorphFsm.AnalyzeSpec(word);
      var rs' := if P.IsValidStem(AzCase.ToLower(word)) then rs + [Bare(word)] else rs;
      if |rs'| == 0 then [Bare(word)] else rs'
  }

  /**
   * Every analysis Analyze returns is the bare word or a walk analysis: a valid
   * stem with at most MaxDepth suffixes that, with its suffixes, reads the word.
   * The bare word is included whenever it is a valid stem.
   */
  lemma AnalyzeContents(word: string)
    ensures forall a :: a in Analyze(word) ==>
      a == Bare(word) || MorphFsm.Found(word, AzCase.ToLower(word), MorphFsm.MaxDepth, a)
    ensures word != "" && P.IsValidStem(AzCase.ToLower(word)) ==> Bare(word) in Analyze(word)
  {
    MorphFsm.AnalyzeSound(word);
  }

  /** The rune index of the first occurrence of c, or -1. */
  function IndexOf(s: string, c: char): (i: int)
    ensures -1 <= i < |s|
    ensures i == -1 <==> c !in s
    ensures i >= 0 ==> s[i] == c && c !in s[..i]
  {
    if s == [] then -1
    else if s[0] == c then 0
    else
      var j := IndexOf(s[1..], c);
      assert j >= 0 ==> s[..j + 1] == [s[0]] + s[1..][..j];
      if j == -1 then -1 else j + 1
  }

  /** The rune index of the first apostrophe of any of the three kinds, or -1. */
  function FirstApostrophe(s: string): (i: int)
    ensures -1 <= i < |s|
    ensures i == -1 <==> forall k :: 0 <= k < |s| ==> !Unicode.IsApostrophe(s[k])
    ensures i >= 0 ==> Unicode.IsApostrophe(s[i]) && forall k :: 0 <= k < i ==> !Unicode.IsApostrophe(s[k])
  {
    if s == [] then -1
    else if Unicode.IsApostrophe(s[0]) then 0
    else
      var j := FirstApostrophe(s[1..]);
      assert forall k :: 1 <= k < |s| ==> s[k] == s[1..][k - 1];
      if j == -1 then -1 else j + 1
  }

  /** The first analysis with suffixes whose lower-cased stem is in the dictionary. */
  function FirstKnown(d: Dict, rs: seq<Analysis>): (r: Option<string>)
    ensures r.Some? ==>
      exists k :: 0 <= k < |rs| && rs[k].stem == r.value
        && rs[k].morphemes != [] && KnownStem(d, AzCase.ToLower(rs[k].stem))
    ensures r.None? <==> forall k :: 0 <= k < |rs| ==>
      rs[k].morphemes == [] || !KnownStem(d, AzCase.ToLower(rs[k].stem))
  {
    if rs == [] then None
    else if rs[0].morphemes != [] && KnownStem(d, AzCase.ToLower(rs[0].stem)) then Some(rs[0].stem)
    else
      var r := FirstKnown(d, rs[1..]);
      assert forall k :: 1 <= k < |rs| ==> rs[k] == rs[1..][k - 1];
      r
  }

  /** The first analysis with suffixes. */
  function FirstInflected(rs: seq<Analysis>): (r: Option<string>)
    ensures r.Some? ==> exists k :: 0 <= k < |rs| && rs[k].stem == r.value && rs[k].morphemes != []
    ensures r.None? <==> forall k :: 0 <= k < |rs| ==> rs[k].morphemes == []
  {
    if rs == [] then None
    else if rs[0].morphemes != [] then Some(rs[0].stem)
    else
      var r := FirstInflected(rs[1..]);
      assert forall k :: 1 <= k < |rs| ==> rs[k] == rs[1..][k - 1];
      r
  }

  /**
   * Stem for a word without a usable hyphen: the apostrophe cut, then the
   * three passes over Analyze's results (a dictionary stem, unless the word
   * itself is known; the word itself if known; any inflected analysis).
   */
  function StemPart(d: Dict, word: string): (r: string)
    ensures word == "" || Unicode.ByteLen(word) > MaxWordBytes ==> r == word
  {
    if word == "" || Unicode.ByteLen(word) > MaxWordBytes then word
    else
      var ap := FirstApostrophe(word);
      if ap >= 0 then (if ap > 0 then word[..ap] else word)
      else
        var results := Analyze(word);
        var wordKnown := KnownStem(d, AzCase.ToLower(word));
        var known := FirstKnown(d, results);
        if !wordKnown && known.Some? then known.value
        else if wordKnown then word
        else
          var inflected := FirstInflected(results);
          if inflected.Some? then inflected.value else word
  }

  /**
   * Stem: a word whose first hyphen is neither its first nor its last rune is
   * split at every hyphen, each part stemmed, and the parts rejoined.
   */
  function Stem(d: Dict, word: string): (r: string)
    ensures word == "" || Unicode.ByteLen(word) > MaxWordBytes ==> r == word
  {
    if word == "" || Unicode.ByteLen(word) > MaxWordBytes then word
    else
      var idx := IndexOf(word, '-');
      if idx > 0 && idx < |word| - 1 then
        var parts := Unicode.Split(word, '-');
        Unicode.Join(StemEach(d, parts), "-")
      else StemPart(d, word)
  }

  /** The stem of each part, in order. */
  function StemEach(d: Dict, parts: seq<string>): (r: seq<string>)
    ensures |r| == |parts|
    ensures forall i :: 0 <= i < |parts| ==> r[i] == StemPart(d, parts[i])
  {
    seq(|parts|, i requires 0 <= i < |parts| => StemPart(d, parts[i]))
  }

  /**
   * Stem's recursion on the parts is StemPart: a part holds no hyphen, so the
   * hyphen branch never fires on it.
   */
  lemma StemOfPart(d: Dict, part: string)
    requires '-' !in part
    ensures Stem(d, part) == StemPart(d, part)
  {
  }

  /** A hyphenated word keeps its hyphens: the stem has as many parts as the word. */
  lemma StemHyphenated(d: Dict, word: string)
    requires word != "" && Unicode.ByteLen(word) <= MaxWordBytes
    requires var idx := IndexOf(word, '-'); idx > 0 && idx < |word| - 1
    ensures Unicode.Split(Stem(d, word), '-') == seq(|Unicode.Split(word, '-')|, i
      requires 0 <= i < |Unicode.Split(word, '-')| => StemPart(d, Unicode.Split(word, '-')[i]))
  {
    var parts := Unicode.Split(word, '-');
    var stems := StemEach(d, parts);
    forall i | 0 <= i < |parts| ensures '-' !in stems[i] {
      StemPartNoHyphen(d, parts[i]);
    }
    SplitJoin(stems, '-');
  }

  /** A walk analysis of a hyphen-free word has a hyphen-free stem: the stem spells a prefix of the word. */
  lemma FoundNoHyphen(word: string, a: Analysis)
    requires '-' !in word
    requires MorphFsm.Found(word, AzCase.ToLower(word), MorphFsm.MaxDepth, a)
    ensures '-' !in a.stem
  {
    var t := a.stem + MorphFsm.Surfaces(a.morphemes);
    forall i | 0 <= i < |a.stem| ensures a.stem[i] != '-' {
      assert t[i] == a.stem[i];
      assert word[i] in word;
    }
  }

  /** Every stem Analyze offers for a hyphen-free word is hyphen-free. */
  lemma AnalyzeNoHyphen(word: string)
    requires '-' !in word
    ensures forall k :: 0 <= k < |Analyze(word)| ==> '-' !in Analyze(word)[k].stem
  {
    var rs := Analyze(word);
    AnalyzeContents(word);
    forall k | 0 <= k < |rs| ensures '-' !in rs[k].stem {
      assert rs[k] in rs;
      if rs[k] != Bare(word) {
        FoundNoHyphen(word, rs[k]);
      }
    }
  }

  /** Stemming a hyphen-free part gives a hyphen-free stem. */
  lemma StemPartNoHyphen(d: Dict, part: string)
    requires '-' !in part
    ensures '-' !in StemPart(d, part)
  {
    if part != "" && Unicode.ByteLen(part) <= MaxWordBytes {
      var ap := FirstApostrophe(part);
      if ap > 0 {
        assert forall c :: c in part[..ap] ==> c in part;
      } else if ap < 0 {
        AnalyzeNoHyphen(part);
      }
    }
  }

  /** Splitting a join of separator-free pieces gives the pieces back. */
  lemma {:induction false} SplitJoin(ws: seq<string>, sep: char)
    requires ws != [] && forall k :: 0 <= k < |ws| ==> sep !in ws[k]
    ensures Unicode.Split(Unicode.Join(ws, [sep]), sep) == ws
    decreases |ws|
  {
    if |ws| == 1 {
      SplitNoSep(ws[0], sep);
    } else {
      SplitJoin(ws[1..], sep);
      SplitPrefix(ws[0], sep, Unicode.Join(ws[1..], [sep]));
      assert Unicode.Join(ws, [sep]) == ws[0] + ([sep] + Unicode.Join(ws[1..], [sep]));
    }
  }

  lemma {:induction false} SplitNoSep(w: string, sep: char)
    requires sep !in w
    ensures Unicode.Split(w, sep) == [w]
    decreases |w|
  {
    if w != [] {
      SplitNoSep(w[1..], sep);
      assert [w[0]] + w[1..] == w;
    }
  }

  /** A separator-free prefix followed by the separator becomes the first piece. */
  lemma {:induction false} SplitPrefix(w: string, sep: char, rest: string)
    requires sep !in w
    ensures Unicode.Split(w + ([sep] + rest), sep) == [w] + Unicode.Split(rest, sep)
    decreases |w|
  {
    if w == [] {
      assert w + ([sep] + rest) == [sep] + rest;
      assert ([sep] + rest)[1..] == rest;
    } else {
      SplitPrefix(w[1..], sep, rest);
      assert (w + ([sep] + rest))[1..] == w[1..] + ([sep] + rest);
      assert [w[0]] + w[1..] == w;
    }
  }

  /** A word with an apostrophe after its first rune stems to the text before the first apostrophe. */
  lemma StemApostrophe(d: Dict, word: string)
    requires word != "" && Unicode.ByteLen(word) <= MaxWordBytes && '-' !in word
    requires FirstApostrophe(word) > 0
    ensures Stem(d, word) == word[..FirstApostrophe(word)]
  {
  }

  /**
   * The three passes: a known word is its own stem unless no pass applies;
   * an unknown word takes the first dictionary-known inflected analysis, else
   * the first inflected one, else stays as it is.
   */
  lemma StemPasses(d: Dict, word: string)
    requires word != "" && Unicode.ByteLen(word) <= MaxWordBytes && FirstApostrophe(word) < 0
    ensures KnownStem(d, AzCase.ToLower(word)) ==> StemPart(d, word) == word
    ensures !KnownStem(d, AzCase.ToLower(word)) && FirstKnown(d, Analyze(word)).Some? ==>
      StemPart(d, word) == FirstKnown(d, Analyze(word)).value
    ensures !KnownStem(d, AzCase.ToLower(word)) && FirstKnown(d, Analyze(word)).None? ==>
      StemPart(d, word) == (if FirstInflected(Analyze(word)).Some? then FirstInflected(Analyze(word)).value else word)
  {
  }

  /** Stem over each word, in order. */
  function StemAll(d: Dict, ws: seq<string>): (r: seq<string>)
    ensures |r| == |ws|
  {
    if ws == [] then [] else StemAll(d, ws[..|ws| - 1]) + [Stem(d, ws[|ws| - 1])]
  }

  lemma {:induction false} StemAllAt(d: Dict, ws: seq<string>, i: nat)
    requires i < |ws|
    ensures StemAll(d, ws)[i] == Stem(d, ws[i])
    decreases |ws|
  {
    if i < |ws| - 1 {
      StemAllAt(d, ws[..|ws| - 1], i);
    }
  }

  /** Stems: nil stays nil; otherwise one stem per word, in an output buffer of the same length. */
  method Stems(d: Dict, words: Option<seq<string>>) returns (out: Option<seq<string>>)
    ensures words.None? <==> out.None?
    ensures words.Some? ==> |out.value| == |words.value|
    ensures words.Some? ==>
      forall i :: 0 <= i < |words.value| ==> out.value[i] == Stem(d, words.value[i])
  {
    if words.None? {
      return None;
    }
    var ws := words.value;
    var buf := new string[|ws|];
    for i := 0 to |ws|
      invariant buf[..i] == StemAll(d, ws[..i])
    {
      assert ws[..i + 1][..i] == ws[..i];
      buf[i] := Stem(d, ws[i]);
      assert buf[..i + 1] == buf[..i] + [buf[i]];
    }
    assert ws[..|ws|] == ws;
    forall i | 0 <= i < |ws| ensures buf[..][i] == Stem(d, ws[i]) {
      StemAllAt(d, ws, i);
    }
    return Some(buf[..]);
  }
}
