/**
 * The spell checker's public layer: IsCorrect validates a word through the
 * frequency dictionary, morphological analysis and diacritic restoration;
 * Suggest ranks corrections, first for the whole word and then for its
 * stem with the original suffixes put back; CorrectWord and Correct apply
 * the best suggestion, keeping the word's case pattern. The frequency
 * index and the stem dictionary are parameters.
 */
module Spell {
  import Unicode
  import AzCase
  import Morph
  import MorphFsm
  import opened MorphTags
  import opened MorphDict
  import Normalize
  import opened TokenizerTypes
  import Tokenizer
  import Sc = TokenizerScanner
  import opened SpellSymspell

  /** Words longer than this many bytes are accepted unchecked. */
  const MaxWordBytes: nat := 256
  /** Texts longer than this many bytes are returned unchanged. */
  const MaxInputBytes: nat := 0x10_0000
  /** Words shorter than this many runes are accepted unchecked. */
  const MinWordRunes: nat := 2
  /** Hyphenated words with more parts than this are accepted unchecked. */
  const MaxHyphenParts: nat := 8

  /** Lower-casing maps no rune but '-' itself to '-'. */
  lemma LowerHyphen(c: char)
    ensures AzCase.Lower(c) == '-' ==> c == '-'
  {
  }

  /** Lower-casing twice is lower-casing once. */
  lemma LowerIdem(s: string)
    ensures AzCase.ToLower(AzCase.ToLower(s)) == AzCase.ToLower(s)
  {
  }

  /** A string that holds the separator splits into strictly shorter parts. */
  lemma {:induction false} SplitShorter(s: string, sep: char)
    ensures forall k :: 0 <= k < |Unicode.Split(s, sep)| ==> |Unicode.Split(s, sep)[k]| <= |s|
    ensures sep in s ==> forall k :: 0 <= k < |Unicode.Split(s, sep)| ==> |Unicode.Split(s, sep)[k]| < |s|
    decreases |s|
  {
    if s != [] {
      SplitShorter(s[1..], sep);
      if sep in s && s[0] != sep {
        assert sep in s[1..];
      }
    }
  }

  /** The lower-cased word holds a hyphen only where the word does. */
  lemma HyphenOfLower(word: string, h: nat)
    requires h < |word| && AzCase.ToLower(word)[h] == '-'
    ensures '-' in word
  {
    LowerHyphen(word[h]);
  }

  /** Some analysis has suffixes and a known lower-cased stem. */
  predicate KnownAnalysis(d: Dict, w: string) {
    Morph.FirstKnown(d, Morph.Analyze(w)).Some?
  }

  /**
   * IsCorrect: "", words over 256 bytes and words under two runes are
   * accepted; a hyphen that is neither first nor last makes the word correct
   * when every non-empty part is (or when there are more than eight parts);
   * a usable apostrophe leaves only the stem before it to check; a digit
   * accepts the word; otherwise the lower-cased word must be a dictionary
   * word, have an analysis with a known stem, or restore diacritics to a
   * different word that does.
   */
  function IsCorrect(idx: Index, d: Dict, word: string): bool
    decreases |word|
  {
    if word == "" then true
    else if Unicode.ByteLen(word) > MaxWordBytes then true
    else
      var lower := AzCase.ToLower(word);
      if |lower| < MinWordRunes then true
      else
        var h := Morph.IndexOf(lower, '-');
        if h > 0 && h < |lower| - 1 then
          var parts := Unicode.Split(word, '-');
          if |parts| > MaxHyphenParts then true
          else
            HyphenOfLower(word, h);
            SplitShorter(word, '-');
            forall k :: 0 <= k < |parts| ==> parts[k] == "" || IsCorrect(idx, d, parts[k])
        else
          var cut := Normalize.FirstCut(lower, 0);
          if cut >= 0 then IsCorrect(idx, d, lower[..cut])
          else if AzCase.ContainsDigit(lower) then true
          else if lower in idx.words then true
          else if KnownAnalysis(d, lower) then true
          else
            var normalized := Normalize.NormalizeWord(d, lower);
            normalized != lower && (normalized in idx.words || KnownAnalysis(d, normalized))
  }

  /** The rune-count guards: "", over-long and one-rune words are correct. */
  lemma IsCorrectGuards(idx: Index, d: Dict, word: string)
    ensures word == "" || Unicode.ByteLen(word) > MaxWordBytes || |word| < MinWordRunes ==> IsCorrect(idx, d, word)
  {
  }

  /**
   * A hyphen inside the word decides by its parts: more than eight parts are
   * accepted, otherwise the word is correct exactly when each non-empty part is.
   */
  lemma IsCorrectHyphenated(idx: Index, d: Dict, word: string)
    requires word != "" && Unicode.ByteLen(word) <= MaxWordBytes && |word| >= MinWordRunes
    requires var h := Morph.IndexOf(AzCase.ToLower(word), '-'); h > 0 && h < |word| - 1
    ensures var parts := Unicode.Split(word, '-');
      IsCorrect(idx, d, word) ==
        (|parts| > MaxHyphenParts || forall k :: 0 <= k < |parts| ==> parts[k] == "" || IsCorrect(idx, d, parts[k]))
  {
    var lower := AzCase.ToLower(word);
    assert |lower| == |word|;
  }

  /**
   * Without an inner hyphen or a usable apostrophe, a word with a digit is
   * correct, and a word without one is correct exactly when one of the three
   * dictionary layers accepts it.
   */
  lemma IsCorrectLayers(idx: Index, d: Dict, word: string)
    requires word != "" && Unicode.ByteLen(word) <= MaxWordBytes && |word| >= MinWordRunes
    requires var lower := AzCase.ToLower(word); var h := Morph.IndexOf(lower, '-');
      !(h > 0 && h < |lower| - 1) && Normalize.FirstCut(lower, 0) < 0
    ensures AzCase.ContainsDigit(AzCase.ToLower(word)) ==> IsCorrect(idx, d, word)
    ensures !AzCase.ContainsDigit(AzCase.ToLower(word)) ==>
      var lower := AzCase.ToLower(word);
      var normalized := Normalize.NormalizeWord(d, lower);
      (IsCorrect(idx, d, word) <==>
        lower in idx.words || KnownAnalysis(d, lower)
        || (normalized != lower && (normalized in idx.words || KnownAnalysis(d, normalized))))
  {
  }

  /** A usable apostrophe leaves only the lower-cased stem before it to check. */
  lemma IsCorrectApostrophe(idx: Index, d: Dict, word: string)
    requires word != "" && Unicode.ByteLen(word) <= MaxWordBytes && |word| >= MinWordRunes
    requires var lower := AzCase.ToLower(word); var h := Morph.IndexOf(lower, '-');
      !(h > 0 && h < |lower| - 1) && Normalize.FirstCut(lower, 0) >= 0
    ensures var lower := AzCase.ToLower(word);
      IsCorrect(idx, d, word) == IsCorrect(idx, d, lower[..Normalize.FirstCut(lower, 0)])
  {
  }

  /** suffixSurface: the surfaces of the analysis's morphemes, in order. */
  method SuffixSurface(a: Analysis) returns (s: string)
    ensures s == MorphFsm.Surfaces(a.morphemes)
  {
    s := "";
    var i := 0;
    while i < |a.morphemes|
      invariant 0 <= i <= |a.morphemes|
      invariant s == MorphFsm.Surfaces(a.morphemes[..i])
    {
      SurfacesSnoc(a.morphemes[..i + 1]);
      assert a.morphemes[..i + 1][..i] == a.morphemes[..i];
      s := s + a.morphemes[i].surface;
      i := i + 1;
    }
    assert a.morphemes[..i] == a.morphemes;
  }

  /** The surfaces of a non-empty list end with its last morpheme's surface. */
  lemma {:induction false} SurfacesSnoc(ms: seq<Morpheme>)
    requires ms != []
    ensures MorphFsm.Surfaces(ms) == MorphFsm.Surfaces(ms[..|ms| - 1]) + ms[|ms| - 1].surface
    decreases |ms|
  {
    if |ms| > 1 {
      SurfacesSnoc(ms[1..]);
      assert ms[1..][..|ms[1..]| - 1] == ms[..|ms| - 1][1..];
    }
  }

  /** An analysis with suffixes reads the whole word: stem and suffixes together are as long as the word. */
  lemma SuffixFills(w: string, a: Analysis)
    requires a in Morph.Analyze(w) && a.morphemes != []
    ensures |a.stem| + |MorphFsm.Surfaces(a.morphemes)| == |w|
  {
    Morph.AnalyzeContents(w);
  }

  /**
   * A suggestion built at the stem level: analysis a of the word has
   * suffixes and an unknown stem; s is a lookup result for that stem; the
   * term is s with the analysis's suffixes; and the term has an analysis
   * with a known stem.
   */
  ghost predicate StemStep(idx: Index, d: Dict, a: Analysis, md: int, s: string, x: Suggestion) {
    a.morphemes != [] && !KnownStem(d, AzCase.ToLower(a.stem))
    && Found(idx, AzCase.ToLower(a.stem), md, Suggestion(s, x.distance, x.frequency))
    && x.term == s + MorphFsm.Surfaces(a.morphemes)
    && KnownAnalysis(d, x.term)
  }

  /** Some analysis of lower yields x at the stem level. */
  ghost predicate StemDerived(idx: Index, d: Dict, lower: string, md: int, x: Suggestion) {
    exists i, s :: 0 <= i < |Morph.Analyze(lower)| && StemStep(idx, d, Morph.Analyze(lower)[i], md, s, x)
  }

  /** A suggestion (before case transfer) is a whole-word lookup result or a stem-level one. */
  ghost predicate Derived(idx: Index, d: Dict, lower: string, md: int, x: Suggestion) {
    Found(idx, lower, md, x) || StemDerived(idx, d, lower, md, x)
  }

  /** Sortedness looks at distances and frequencies only, so changing terms keeps it. */
  lemma SortedRetermed(s: seq<Suggestion>, t: seq<Suggestion>)
    requires Sorted(s) && |s| == |t|
    requires forall k :: 0 <= k < |s| ==> t[k].distance == s[k].distance && t[k].frequency == s[k].frequency
    ensures Sorted(t)
  {
    forall x, y | 0 <= x < y < |t| ensures !SuggestionLess(t[y], t[x]) {
      assert !SuggestionLess(s[y], s[x]);
    }
  }

  /** Every term takes the case pattern of word. */
  method CaseAll(word: string, rs: seq<Suggestion>) returns (out: seq<Suggestion>)
    ensures |out| == |rs|
    ensures forall k :: 0 <= k < |rs| ==>
      out[k] == Suggestion(AzCase.ApplyCase(word, rs[k].term), rs[k].distance, rs[k].frequency)
  {
    out := [];
    for k := 0 to |rs|
      invariant |out| == k
      invariant forall m :: 0 <= m < k ==>
        out[m] == Suggestion(AzCase.ApplyCase(word, rs[m].term), rs[m].distance, rs[m].frequency)
    {
      out := out + [Suggestion(AzCase.ApplyCase(word, rs[k].term), rs[k].distance, rs[k].frequency)];
    }
  }

  /** Some suggestion in rs has term t. */
  ghost predicate HasTerm(rs: seq<Suggestion>, t: string) {
    exists j :: 0 <= j < |rs| && rs[j].term == t
  }

  /** Appending a suggestion keeps every term already present and adds its own. */
  lemma HasTermSnoc(rs: seq<Suggestion>, x: Suggestion)
    ensures forall t :: HasTerm(rs, t) ==> HasTerm(rs + [x], t)
    ensures HasTerm(rs + [x], x.term)
  {
    assert (rs + [x])[|rs|] == x;
    forall t | HasTerm(rs, t) ensures HasTerm(rs + [x], t) {
      var j :| 0 <= j < |rs| && rs[j].term == t;
      assert (rs + [x])[j] == rs[j];
    }
  }

  /** Every seen reconstruction that re-analyses to a known stem has been kept. */
  ghost predicate SeenKept(d: Dict, results: seq<Suggestion>, seen: set<string>) {
    forall t {:trigger KnownAnalysis(d, t)} :: t in seen && KnownAnalysis(d, t) ==> HasTerm(results, t)
  }

  /**
   * What the stem-level loops have gathered so far: every suggestion is
   * stem-derived and its reconstruction has been seen, and every seen
   * reconstruction that re-analyses to a known stem has been kept.
   */
  ghost predicate StemGathered(idx: Index, d: Dict, lower: string, md: int, results: seq<Suggestion>, seen: set<string>) {
    (forall k :: 0 <= k < |results| ==> StemDerived(idx, d, lower, md, results[k]) && results[k].term in seen)
    && SeenKept(d, results, seen)
  }

  /** The reconstruction of stem-lookup term s with the suffixes of analysis a. */
  function Rebuilt(a: Analysis, s: string): string {
    s + MorphFsm.Surfaces(a.morphemes)
  }

  /**
   * h is what the loop looks up for analysis a: nothing when a has no
   * suffixes or a known stem, and otherwise a lookup result for its stem.
   */
  ghost predicate StemHit(idx: Index, d: Dict, a: Analysis, md: int, h: seq<Suggestion>) {
    (a.morphemes == [] || KnownStem(d, AzCase.ToLower(a.stem)) ==> h == [])
    && (a.morphemes != [] && !KnownStem(d, AzCase.ToLower(a.stem)) ==> LookedUp(idx, AzCase.ToLower(a.stem), md, h))
  }

  /** One stem lookup per analysis of lower, in order. */
  ghost predicate StemHits(idx: Index, d: Dict, lower: string, md: int, hits: seq<seq<Suggestion>>) {
    |hits| == |Morph.Analyze(lower)|
    && forall i :: 0 <= i < |hits| ==> StemHit(idx, d, Morph.Analyze(lower)[i], md, hits[i])
  }

  /** Every reconstruction from the stem lookups that re-analyses to a known stem is among terms. */
  ghost predicate StemComplete(d: Dict, lower: string, hits: seq<seq<Suggestion>>, terms: seq<string>) {
    forall i, k :: 0 <= i < |hits| && i < |Morph.Analyze(lower)| && 0 <= k < |hits[i]|
      && KnownAnalysis(d, Rebuilt(Morph.Analyze(lower)[i], hits[i][k].term))
      ==> Rebuilt(Morph.Analyze(lower)[i], hits[i][k].term) in terms
  }

  /**
   * The suggestions for one analysis: its stem's lookup results with the
   * suffixes put back, each reconstruction seen once, kept when it
   * re-analyses to a known stem.
   */
  method StemCandidates(idx: Index, d: Dict, lower: string, md: int, i: nat, results: seq<Suggestion>, seen: set<string>)
    returns (results': seq<Suggestion>, seen': set<string>, ghost h: seq<Suggestion>)
    requires ValidIndex(idx) && i < |Morph.Analyze(lower)|
    requires StemGathered(idx, d, lower, md, results, seen)
    ensures StemGathered(idx, d, lower, md, results', seen') && seen <= seen'
    ensures StemHit(idx, d, Morph.Analyze(lower)[i], md, h)
    ensures forall k :: 0 <= k < |h| ==> Rebuilt(Morph.Analyze(lower)[i], h[k].term) in seen'
  {
    results', seen', h := results, seen, [];
    var a := Morph.Analyze(lower)[i];
    if a.morphemes == [] {
      return;
    }
    var stem := AzCase.ToLower(a.stem);
    if KnownStem(d, stem) {
      return;
    }
    var stemSuggestions := Lookup(idx, stem, md);
    assert LookedUp(idx, stem, md, stemSuggestions);
    h := stemSuggestions;
    LowerIdem(a.stem);
    var suffix := SuffixSurface(a);
    assert forall k :: 0 <= k < |stemSuggestions| ==> Found(idx, stem, md, stemSuggestions[k]);
    results', seen' := Reconstruct(idx, d, a, stem, md, stemSuggestions, suffix, results, seen);
    StemGatheredAfter(idx, d, lower, md, i, stemSuggestions, results, seen, results', seen');
  }

  /** x is the reconstruction of one of the stem lookup results hs, and re-analyses to a known stem. */
  ghost predicate FromHits(d: Dict, a: Analysis, hs: seq<Suggestion>, x: Suggestion) {
    exists j :: 0 <= j < |hs| && x == Suggestion(Rebuilt(a, hs[j].term), hs[j].distance, hs[j].frequency)
      && KnownAnalysis(d, x.term)
  }

  /** What the loop over hs adds keeps the gathered state for analysis i of lower. */
  lemma StemGatheredAfter(idx: Index, d: Dict, lower: string, md: int, i: nat, hs: seq<Suggestion>,
                          results: seq<Suggestion>, seen: set<string>, results': seq<Suggestion>, seen': set<string>)
    requires i < |Morph.Analyze(lower)|
    requires var a := Morph.Analyze(lower)[i]; a.morphemes != [] && !KnownStem(d, AzCase.ToLower(a.stem))
    requires forall k :: 0 <= k < |hs| ==> Found(idx, AzCase.ToLower(Morph.Analyze(lower)[i].stem), md, hs[k])
    requires StemGathered(idx, d, lower, md, results, seen)
    requires SeenKept(d, results', seen') && seen <= seen' && results <= results'
    requires forall k :: |results| <= k < |results'| ==>
      results'[k].term in seen' && FromHits(d, Morph.Analyze(lower)[i], hs, results'[k])
    ensures StemGathered(idx, d, lower, md, results', seen')
  {
    var a := Morph.Analyze(lower)[i];
    forall k | 0 <= k < |results'|
      ensures StemDerived(idx, d, lower, md, results'[k]) && results'[k].term in seen'
    {
      if k < |results| {
        assert results'[k] == results[k];
      } else {
        var j :| 0 <= j < |hs| && results'[k] == Suggestion(Rebuilt(a, hs[j].term), hs[j].distance, hs[j].frequency)
          && KnownAnalysis(d, results'[k].term);
        assert StemStep(idx, d, a, md, hs[j].term, results'[k]);
      }
    }
  }

  /** The loop over one stem's lookup results: each reconstruction is seen, and kept when valid. */
  method Reconstruct(idx: Index, d: Dict, a: Analysis, stem: string, md: int, hs: seq<Suggestion>, suffix: string,
                     results: seq<Suggestion>, seen: set<string>)
    returns (results': seq<Suggestion>, seen': set<string>)
    requires suffix == MorphFsm.Surfaces(a.morphemes)
    requires SeenKept(d, results, seen)
    ensures SeenKept(d, results', seen') && seen <= seen' && results <= results'
    ensures forall k :: |results| <= k < |results'| ==> results'[k].term in seen' && FromHits(d, a, hs, results'[k])
    ensures forall k :: 0 <= k < |hs| ==> Rebuilt(a, hs[k].term) in seen'
  {
    results', seen' := results, seen;
    for k := 0 to |hs|
      invariant SeenKept(d, results', seen') && seen <= seen' && results <= results'
      invariant forall n :: |results| <= n < |results'| ==> results'[n].term in seen' && FromHits(d, a, hs, results'[n])
      invariant forall k' :: 0 <= k' < k ==> Rebuilt(a, hs[k'].term) in seen'
    {
      var ss := hs[k];
      var reconstructed := ss.term + suffix;
      if reconstructed in seen' {
        continue;
      }
      seen' := seen' + {reconstructed};
      if !KnownAnalysis(d, reconstructed) {
        continue;
      }
      var x := Suggestion(reconstructed, ss.distance, ss.frequency);
      assert FromHits(d, a, hs, x);
      HasTermSnoc(results', x);
      results' := results' + [x];
    }
  }

  /** Sorting the stem-level suggestions keeps what is known of each, and every term. */
  lemma StemPerm(idx: Index, d: Dict, lower: string, md: int, results: seq<Suggestion>, seen: set<string>, r: seq<Suggestion>)
    requires StemGathered(idx, d, lower, md, results, seen) && multiset(results) == multiset(r)
    ensures forall k :: 0 <= k < |r| ==> StemDerived(idx, d, lower, md, r[k])
    ensures forall t :: HasTerm(results, t) ==> HasTerm(r, t)
  {
    forall k | 0 <= k < |r| ensures StemDerived(idx, d, lower, md, r[k]) {
      assert r[k] in multiset(results);
    }
    forall t | HasTerm(results, t) ensures HasTerm(r, t) {
      var j :| 0 <= j < |results| && results[j].term == t;
      assert results[j] in multiset(r);
      var m :| 0 <= m < |r| && r[m] == results[j];
    }
  }

  /** The lower-case terms Recase keeps are exactly the terms of its input. */
  lemma BasesHold(src: seq<Suggestion>, r: seq<Suggestion>, bases: seq<string>)
    requires |bases| == |src| == |r|
    requires forall k :: 0 <= k < |r| ==> Suggestion(bases[k], r[k].distance, r[k].frequency) == src[k]
    ensures forall t :: HasTerm(src, t) ==> t in bases
  {
    forall t | HasTerm(src, t) ensures t in bases {
      var j :| 0 <= j < |src| && src[j].term == t;
      assert bases[j] == t;
    }
  }

  /** The sorted suggestions with each term in the word's case; bases keeps the lower-case terms. */
  method Recase(word: string, src: seq<Suggestion>) returns (r: seq<Suggestion>, ghost bases: seq<string>)
    requires Sorted(src)
    ensures |r| == |src| && |bases| == |r| && Sorted(r)
    ensures forall k :: 0 <= k < |r| ==>
      r[k].term == AzCase.ApplyCase(word, bases[k]) && Suggestion(bases[k], r[k].distance, r[k].frequency) == src[k]
  {
    r := CaseAll(word, src);
    bases := seq(|src|, k requires 0 <= k < |src| => src[k].term);
    SortedRetermed(src, r);
  }

  /**
   * What Suggest promises for a word that is not correct, with md the
   * capped distance: whole is the whole-word lookup result; when it has
   * hits, r is those hits in their order with each term in the word's case;
   * when it has none, hits are the stem lookups of every analysis and r
   * holds, sorted, every reconstruction from them that re-analyses to a
   * known stem. bases are r's terms before the case transfer.
   */
  ghost predicate SuggestedAs(idx: Index, d: Dict, word: string, md: int,
                              r: seq<Suggestion>, bases: seq<string>, whole: seq<Suggestion>, hits: seq<seq<Suggestion>>) {
    var lower := AzCase.ToLower(word);
    LookedUp(idx, lower, md, whole)
    && (whole != [] ==> |r| == |whole| && forall k :: 0 <= k < |r| ==>
          r[k] == Suggestion(AzCase.ApplyCase(word, whole[k].term), whole[k].distance, whole[k].frequency))
    && (whole == [] ==> StemHits(idx, d, lower, md, hits) && StemComplete(d, lower, hits, bases))
    && (whole == [] ==> |bases| == |r| && Sorted(r) && forall k :: 0 <= k < |r| ==>
          r[k].term == AzCase.ApplyCase(word, bases[k])
          && StemDerived(idx, d, lower, md, Suggestion(bases[k], r[k].distance, r[k].frequency)))
  }

  /** Some reconstruction from the stem lookups re-analyses to a known stem. */
  ghost predicate StemFound(d: Dict, lower: string, hits: seq<seq<Suggestion>>) {
    exists i, k :: 0 <= i < |hits| && i < |Morph.Analyze(lower)| && 0 <= k < |hits[i]|
      && KnownAnalysis(d, Rebuilt(Morph.Analyze(lower)[i], hits[i][k].term))
  }

  /** A complete stem-level list holds something whenever some reconstruction survives. */
  lemma StemFoundNonEmpty(d: Dict, lower: string, hits: seq<seq<Suggestion>>, bases: seq<string>)
    requires StemComplete(d, lower, hits, bases) && StemFound(d, lower, hits)
    ensures bases != []
  {
    var i, k :| 0 <= i < |hits| && i < |Morph.Analyze(lower)| && 0 <= k < |hits[i]|
      && KnownAnalysis(d, Rebuilt(Morph.Analyze(lower)[i], hits[i][k].term));
    assert Rebuilt(Morph.Analyze(lower)[i], hits[i][k].term) in bases;
  }

  /**
   * Suggest: nothing for "" or a correct word; otherwise, with maxDist
   * capped at 2, the whole-word lookup results when there are any, else the
   * stem-level suggestions sorted; every term takes the word's case pattern.
   */
  method Suggest(idx: Index, d: Dict, word: string, maxDist: int)
    returns (r: seq<Suggestion>, ghost bases: seq<string>, ghost whole: seq<Suggestion>, ghost hits: seq<seq<Suggestion>>)
    requires ValidIndex(idx)
    ensures word == "" || IsCorrect(idx, d, word) ==> r == [] && whole == []
    ensures word != "" && !IsCorrect(idx, d, word) ==> SuggestedAs(idx, d, word, Clamp(maxDist), r, bases, whole, hits)
    ensures |bases| == |r| && Sorted(r)
    ensures forall k :: 0 <= k < |r| ==>
      r[k].term == AzCase.ApplyCase(word, bases[k])
      && Derived(idx, d, AzCase.ToLower(word), Clamp(maxDist), Suggestion(bases[k], r[k].distance, r[k].frequency))
    ensures word != "" && !IsCorrect(idx, d, word) && Reachable(idx, AzCase.ToLower(word), Clamp(maxDist)) ==> r != []
  {
    bases, whole, hits := [], [], [];
    if word == "" || IsCorrect(idx, d, word) {
      return [], bases, whole, hits;
    }
    // A word over MaxWordBytes is correct, so the source's byte-length check
    // that follows cannot fire here and is not repeated.
    var lower := AzCase.ToLower(word);
    var md := maxDist;
    if md > MaxEditDistance {
      md := MaxEditDistance;
    }
    var found := Lookup(idx, lower, md);
    assert LookedUp(idx, lower, md, found);
    whole := found;
    LowerIdem(word);
    if |found| > 0 {
      r, bases := Recase(word, found);
      return;
    }
    r, bases, hits := StemSuggest(idx, d, word, lower, md);
  }

  /**
   * Suggest's stem-level fallback: for every analysis with suffixes and an
   * unknown stem, the stem's lookup results with the suffixes put back;
   * the ones that re-analyse to a known stem, sorted, each term in the
   * word's case.
   */
  method StemSuggest(idx: Index, d: Dict, word: string, lower: string, md: int)
    returns (r: seq<Suggestion>, ghost bases: seq<string>, ghost hits: seq<seq<Suggestion>>)
    requires ValidIndex(idx)
    ensures |bases| == |r| && Sorted(r)
    ensures forall k :: 0 <= k < |r| ==>
      r[k].term == AzCase.ApplyCase(word, bases[k]) && StemDerived(idx, d, lower, md, Suggestion(bases[k], r[k].distance, r[k].frequency))
    ensures StemHits(idx, d, lower, md, hits) && StemComplete(d, lower, hits, bases)
  {
    var results, seen;
    results, seen, hits := GatherStems(idx, d, lower, md);
    if |results| == 0 {
      KeptComplete(d, lower, hits, results, seen, []);
      return [], [], hits;
    }
    var arr := new Suggestion[|results|](k requires 0 <= k < |results| => results[k]);
    assert arr[..] == results;
    SortSuggestions(arr);
    var sorted := arr[..];
    StemPerm(idx, d, lower, md, results, seen, sorted);
    r, bases := Recase(word, sorted);
    BasesHold(sorted, r, bases);
    KeptComplete(d, lower, hits, results, seen, bases);
  }

  /** The loop over the analyses of lower: one stem lookup each, every reconstruction seen. */
  method GatherStems(idx: Index, d: Dict, lower: string, md: int)
    returns (results: seq<Suggestion>, seen: set<string>, ghost hits: seq<seq<Suggestion>>)
    requires ValidIndex(idx)
    ensures StemGathered(idx, d, lower, md, results, seen) && StemHits(idx, d, lower, md, hits)
    ensures RebuiltSeen(Morph.Analyze(lower), hits, seen)
  {
    results, seen, hits := [], {}, [];
    var analyses := Morph.Analyze(lower);
    for i := 0 to |analyses|
      invariant StemGathered(idx, d, lower, md, results, seen)
      invariant |hits| == i && HitsFor(idx, d, analyses, md, hits) && RebuiltSeen(analyses, hits, seen)
    {
      ghost var h;
      ghost var seen0 := seen;
      results, seen, h := StemCandidates(idx, d, lower, md, i, results, seen);
      HitsSnoc(idx, d, analyses, md, hits, h, seen0, seen);
      hits := hits + [h];
    }
  }

  /** hits[i] is what the loop looked up for analysis an[i]. */
  ghost predicate HitsFor(idx: Index, d: Dict, an: seq<Analysis>, md: int, hits: seq<seq<Suggestion>>) {
    forall i :: 0 <= i < |hits| && i < |an| ==> StemHit(idx, d, an[i], md, hits[i])
  }

  /** Every reconstruction from hits has been seen. */
  ghost predicate RebuiltSeen(an: seq<Analysis>, hits: seq<seq<Suggestion>>, seen: set<string>) {
    forall i, k :: 0 <= i < |hits| && i < |an| && 0 <= k < |hits[i]| ==> Rebuilt(an[i], hits[i][k].term) in seen
  }

  /** One more analysis looked up keeps HitsFor and RebuiltSeen. */
  lemma HitsSnoc(idx: Index, d: Dict, an: seq<Analysis>, md: int, hits: seq<seq<Suggestion>>, h: seq<Suggestion>,
                 seen: set<string>, seen': set<string>)
    requires |hits| < |an| && HitsFor(idx, d, an, md, hits) && RebuiltSeen(an, hits, seen) && seen <= seen'
    requires StemHit(idx, d, an[|hits|], md, h)
    requires forall k :: 0 <= k < |h| ==> Rebuilt(an[|hits|], h[k].term) in seen'
    ensures HitsFor(idx, d, an, md, hits + [h]) && RebuiltSeen(an, hits + [h], seen')
  {
    var hs: seq<seq<Suggestion>> := hits + [h];
    forall i, k | 0 <= i < |hs| && i < |an| && 0 <= k < |hs[i]|
      ensures Rebuilt(an[i], hs[i][k].term) in seen'
    {
      if i < |hits| {
        assert hs[i] == hits[i];
      }
    }
  }

  /** When every reconstruction was seen and every kept term is among terms, the stem lookups are complete. */
  lemma KeptComplete(d: Dict, lower: string, hits: seq<seq<Suggestion>>, results: seq<Suggestion>, seen: set<string>, terms: seq<string>)
    requires SeenKept(d, results, seen)
    requires RebuiltSeen(Morph.Analyze(lower), hits, seen)
    requires forall t :: HasTerm(results, t) ==> t in terms
    ensures StemComplete(d, lower, hits, terms)
  {
  }

  /**
   * CorrectWord: "", over-long and correct words are kept; otherwise the
   * first, best-ranked suggestion at distance up to 2, or the word itself
   * when there is none.
   */
  method CorrectWord(idx: Index, d: Dict, word: string)
    returns (r: string, ghost suggestions: seq<Suggestion>, ghost bases: seq<string>,
             ghost whole: seq<Suggestion>, ghost hits: seq<seq<Suggestion>>)
    requires ValidIndex(idx)
    ensures word == "" || Unicode.ByteLen(word) > MaxWordBytes || IsCorrect(idx, d, word) ==> r == word
    ensures word != "" && Unicode.ByteLen(word) <= MaxWordBytes && !IsCorrect(idx, d, word) ==>
      SuggestedAs(idx, d, word, MaxEditDistance, suggestions, bases, whole, hits)
      && r == (if suggestions != [] then suggestions[0].term else word)
    ensures whole != [] ==> r == AzCase.ApplyCase(word, whole[0].term)
    ensures word != "" && Unicode.ByteLen(word) <= MaxWordBytes && !IsCorrect(idx, d, word) && whole == []
            && StemFound(d, AzCase.ToLower(word), hits) ==>
      suggestions != [] && r == suggestions[0].term && r == AzCase.ApplyCase(word, bases[0])
    ensures (word != "" && Unicode.ByteLen(word) <= MaxWordBytes && !IsCorrect(idx, d, word)
             && Reachable(idx, AzCase.ToLower(word), MaxEditDistance)) ==> suggestions != []
  {
    suggestions, bases, whole, hits := [], [], [], [];
    if word == "" || Unicode.ByteLen(word) > MaxWordBytes {
      return word, suggestions, bases, whole, hits;
    }
    if IsCorrect(idx, d, word) {
      return word, suggestions, bases, whole, hits;
    }
    var sugg;
    sugg, bases, whole, hits := Suggest(idx, d, word, MaxEditDistance);
    suggestions := sugg;
    if whole == [] && StemFound(d, AzCase.ToLower(word), hits) {
      StemFoundNonEmpty(d, AzCase.ToLower(word), hits, bases);
    }
    if |sugg| == 0 {
      return word, suggestions, bases, whole, hits;
    }
    r := sugg[0].term;
  }

  /**
   * piece is what CorrectWord gives for word: the first suggestion of some
   * result Suggest may return at distance 2, or word itself when it is empty.
   */
  ghost predicate CorrectedTo(idx: Index, d: Dict, word: string, piece: string) {
    exists r: seq<Suggestion>, bases: seq<string>, whole: seq<Suggestion>, hits: seq<seq<Suggestion>> ::
      SuggestedAs(idx, d, word, MaxEditDistance, r, bases, whole, hits)
      && piece == (if r != [] then r[0].term else word)
  }

  /**
   * The piece one token contributes to Correct's output: non-word tokens and
   * unknown title-case words verbatim, other words through CorrectWord.
   */
  method CorrectToken(idx: Index, d: Dict, tok: Token) returns (piece: string)
    requires ValidIndex(idx)
    ensures Kept(idx, d, tok) ==> piece == tok.text
    ensures !Kept(idx, d, tok) ==> CorrectedTo(idx, d, tok.text, piece)
  {
    if tok.ttype != Word {
      piece := tok.text;
    } else if AzCase.IsTitleCase(tok.text) && !IsCorrect(idx, d, tok.text) {
      piece := tok.text;
    } else {
      ghost var gs, gb, gw, gh;
      piece, gs, gb, gw, gh := CorrectWord(idx, d, tok.text);
      IsCorrectGuards(idx, d, tok.text);
    }
  }

  /** The pieces of the output, concatenated. */
  function Joined(pieces: seq<string>): string {
    if pieces == [] then "" else Joined(pieces[..|pieces| - 1]) + pieces[|pieces| - 1]
  }

  /** A token Correct leaves alone: not a word, a title-case word, or a correct word. */
  predicate Kept(idx: Index, d: Dict, t: Token) {
    t.ttype != Word || AzCase.IsTitleCase(t.text) || IsCorrect(idx, d, t.text)
  }

  /** Pieces equal to their tokens' texts join into the tokens' concatenation. */
  lemma {:induction false} JoinedTexts(ts: seq<Token>, pieces: seq<string>)
    requires |pieces| == |ts| && forall k :: 0 <= k < |ts| ==> pieces[k] == ts[k].text
    ensures Joined(pieces) == Concat(ts)
  {
    if ts != [] {
      JoinedTexts(ts[..|ts| - 1], pieces[..|pieces| - 1]);
    }
  }

  /**
   * Correct: "" and input over 1 MiB unchanged; otherwise each token of the
   * text contributes one piece: non-word tokens and unknown title-case words
   * verbatim, other words through CorrectWord. A text whose words are all
   * correct comes back unchanged.
   */
  method Correct(idx: Index, d: Dict, text: string) returns (r: string, ghost tokens: seq<Token>, ghost pieces: seq<string>)
    requires ValidIndex(idx)
    ensures text == "" || Unicode.ByteLen(text) > MaxInputBytes ==> r == text
    ensures text != "" && Unicode.ByteLen(text) <= MaxInputBytes ==>
      tokens == Sc.WordTokensOf(text) && Tiles(tokens, text, |text|) && |pieces| == |tokens| && r == Joined(pieces)
      && (forall k :: 0 <= k < |tokens| && Kept(idx, d, tokens[k]) ==> pieces[k] == tokens[k].text)
      && (forall k :: 0 <= k < |tokens| && !Kept(idx, d, tokens[k]) ==> CorrectedTo(idx, d, tokens[k].text, pieces[k]))
    ensures (forall k :: 0 <= k < |tokens| ==> Kept(idx, d, tokens[k])) ==> r == text
  {
    tokens, pieces := [], [];
    if text == "" || Unicode.ByteLen(text) > MaxInputBytes {
      return text, tokens, pieces;
    }
    var wt := Tokenizer.WordTokens(text);
    var toks := wt.value;
    tokens := toks;
    r := "";
    for i := 0 to |toks|
      invariant |pieces| == i && r == Joined(pieces)
      invariant forall k :: 0 <= k < i && Kept(idx, d, toks[k]) ==> pieces[k] == toks[k].text
      invariant forall k :: 0 <= k < i && !Kept(idx, d, toks[k]) ==> CorrectedTo(idx, d, toks[k].text, pieces[k])
    {
      var piece := CorrectToken(idx, d, toks[i]);
      assert (pieces + [piece])[..i] == pieces;
      pieces := pieces + [piece];
      r := r + piece;
    }
    if forall k :: 0 <= k < |tokens| ==> Kept(idx, d, tokens[k]) {
      JoinedTexts(tokens, pieces);
    }
  }
}
