/**
 * The backtracking suffix stripper. Starting from each terminal state it
 * strips suffixes from the right of the word, following the rule table
 * backwards (a rule's toState to one of its fromStates), checking vowel
 * harmony and d/t assimilation, trying k/q restoration before a vowel-initial
 * suffix, and recording an analysis whenever a walk reaches the initial state
 * over a valid stem. The results are de-duplicated and ranked.
 */
module MorphFsm {
  import AzCase
  import Seqs
  import Unicode
  import StrOrder
  import P = MorphPhonology
  import opened MorphTags
  import opened MorphSuffixes

  /** The deepest chain of suffixes a walk may strip. */
  const MaxDepth: nat := 10

  /** Every surface of every rule is non-empty (the walk reads its first rune). */
  predicate RulesOK(rules: seq<Rule>) {
    forall k, j :: 0 <= k < |rules| && 0 <= j < |rules[k].surfaces| ==> rules[k].surfaces[j] != []
  }

  lemma SuffixRulesOK()
    ensures RulesOK(SuffixRules)
  {
    TableShape();
  }

  /** The leftmost vowel of s, or NoVowel. */
  function FirstVowel(s: string): (v: char)
    ensures v == P.NoVowel <==> forall i :: 0 <= i < |s| ==> !P.IsVowel(s[i])
    ensures v != P.NoVowel ==> (P.IsVowel(v)
      && exists i :: 0 <= i < |s| && s[i] == v && forall j :: 0 <= j < i ==> !P.IsVowel(s[j]))
  {
    P.VowelClasses();
    if s == [] then P.NoVowel
    else if P.IsVowel(s[0]) then s[0]
    else
      var v := FirstVowel(s[1..]);
      assert forall i :: 1 <= i < |s| ==> s[i] == s[1..][i - 1];
      v
  }

  /** firstVowel: the forward scan with an early return. */
  method FirstVowelScan(s: string) returns (v: char)
    ensures v == FirstVowel(s)
  {
    for i := 0 to |s|
      invariant FirstVowel(s) == FirstVowel(s[i..])
    {
      assert s[i..][1..] == s[i + 1..];
      if P.IsVowel(s[i]) {
        return s[i];
      }
    }
    return P.NoVowel;
  }

  /** runesEqual: length check, then a rune-by-rune comparison. */
  method RunesEqual(a: seq<char>, b: seq<char>) returns (eq: bool)
    ensures eq <==> a == b
  {
    if |a| != |b| {
      return false;
    }
    for i := 0 to |a|
      invariant a[..i] == b[..i]
    {
      if a[i] != b[i] {
        return false;
      }
      assert a[..i + 1] == a[..i] + [a[i]] && b[..i + 1] == b[..i] + [b[i]];
    }
    assert a == a[..|a|] && b == b[..|b|];
    return true;
  }

  predicate StartsWith(s: string, c: char) { |s| > 0 && s[0] == c }

  /** The rule has both a d-initial and a t-initial surface, so d/t assimilation applies to it. */
  predicate HasDTVariants(rule: Rule) {
    (exists j :: 0 <= j < |rule.surfaces| && StartsWith(rule.surfaces[j], 'd'))
    && (exists j :: 0 <= j < |rule.surfaces| && StartsWith(rule.surfaces[j], 't'))
  }

  /** hasDTVariants: one pass over the surfaces, stopping once both kinds are seen. */
  method HasDTVariantsScan(rule: Rule) returns (b: bool)
    ensures b == HasDTVariants(rule)
  {
    var hasD := false;
    var hasT := false;
    for j := 0 to |rule.surfaces|
      invariant hasD <==> exists k :: 0 <= k < j && StartsWith(rule.surfaces[k], 'd')
      invariant hasT <==> exists k :: 0 <= k < j && StartsWith(rule.surfaces[k], 't')
      invariant !(hasD && hasT)
    {
      var runes := rule.surfaces[j];
      if |runes| > 0 {
        if runes[0] == 'd' {
          hasD := true;
        } else if runes[0] == 't' {
          hasT := true;
        }
      }
      if hasD && hasT {
        return true;
      }
    }
    return false;
  }

  /** The harmony check between what remains of the stem and the suffix. */
  predicate HarmonyOK(h: Harmony, stemPart: string, surface: string) {
    var stemLV := P.LastVowel(stemPart);
    var suffFV := FirstVowel(surface);
    match h
    case BackFront => stemLV == P.NoVowel || suffFV == P.NoVowel || P.MatchesBackFront(stemLV, suffFV)
    case FourWay => stemLV == P.NoVowel || suffFV == P.NoVowel || P.MatchesFourWay(stemLV, suffFV)
    case NoHarmony => true
  }

  /**
   * d/t assimilation for a suffix starting with `first` that would leave the
   * stem ending at stemEnd: applies only to rules with both d and t forms,
   * never to Copula, and only when a stem rune precedes.
   */
  predicate AssimilationOK(rule: Rule, lower: string, stemEnd: nat, first: char)
    requires stemEnd <= |lower|
  {
    if (first == 't' || first == 'd') && HasDTVariants(rule) && stemEnd > 0 && rule.tag != Copula then
      var preceding := lower[stemEnd - 1];
      !(first == 't' && !P.IsVoiceless(preceding))
      && !(first == 'd' && P.IsVoiceless(preceding) && preceding != 'q')
    else true
  }

  /** The surface can be stripped from the lower-cased runes ending at pos. */
  predicate Strips(rule: Rule, lower: string, pos: nat, surface: string)
    requires pos <= |lower| && surface != []
  {
    |surface| <= pos
    && var stemEnd := pos - |surface|;
    lower[stemEnd..pos] == surface
    && HarmonyOK(rule.harmony, lower[..stemEnd], surface)
    && AssimilationOK(rule, lower, stemEnd, surface[0])
  }

  /** The word as original-case runes and lower-case runes, with a usable rule table. */
  predicate Ctx(rules: seq<Rule>, orig: string, lower: string) {
    RulesOK(rules) && |orig| == |lower|
  }

  /** walk: the analyses a walk from (pos, state) records, in the order it records them. */
  function Parses(rules: seq<Rule>, orig: string, lower: string, pos: nat, state: State,
                  ms: seq<Morpheme>, depth: nat): seq<Analysis>
    requires Ctx(rules, orig, lower) && pos <= |lower|
    decreases MaxDepth - depth, 3, 0, 0
  {
    if state == Initial then
      if pos > 0 && P.IsValidStem(lower[..pos]) then [Analysis(orig[..pos], ms)] else []
    else if depth >= MaxDepth then []
    else RuleParses(rules, orig, lower, pos, state, ms, depth, |rules|)
  }

  /** The rule loop of walk, over the first n rules. */
  function RuleParses(rules: seq<Rule>, orig: string, lower: string, pos: nat, state: State,
                      ms: seq<Morpheme>, depth: nat, n: nat): seq<Analysis>
    requires Ctx(rules, orig, lower) && pos <= |lower| && depth < MaxDepth && n <= |rules|
    decreases MaxDepth - depth, 2, n, 0
  {
    if n == 0 then []
    else
      RuleParses(rules, orig, lower, pos, state, ms, depth, n - 1)
      + (if rules[n - 1].toState == state
         then SurfaceParses(rules, orig, lower, pos, ms, depth, n - 1, |rules[n - 1].surfaces|)
         else [])
  }

  /** The surface loop of walk for rule ri, over its first n surfaces. */
  function SurfaceParses(rules: seq<Rule>, orig: string, lower: string, pos: nat,
                         ms: seq<Morpheme>, depth: nat, ri: nat, n: nat): seq<Analysis>
    requires Ctx(rules, orig, lower) && pos <= |lower| && depth < MaxDepth
    requires ri < |rules| && n <= |rules[ri].surfaces|
    decreases MaxDepth - depth, 1, n, 1
  {
    if n == 0 then []
    else SurfaceParses(rules, orig, lower, pos, ms, depth, ri, n - 1) + SurfaceStep(rules, orig, lower, pos, ms, depth, ri, n - 1)
  }

  /** One surface of rule ri: when it can be stripped, the walks from the rule's predecessors. */
  function SurfaceStep(rules: seq<Rule>, orig: string, lower: string, pos: nat,
                       ms: seq<Morpheme>, depth: nat, ri: nat, si: nat): seq<Analysis>
    requires Ctx(rules, orig, lower) && pos <= |lower| && depth < MaxDepth
    requires ri < |rules| && si < |rules[ri].surfaces|
    decreases MaxDepth - depth, 1, si, 0
  {
    var rule := rules[ri];
    var surface := rule.surfaces[si];
    if Strips(rule, lower, pos, surface) then
      var stemEnd := pos - |surface|;
      PredecessorParses(rules, orig, lower, stemEnd, [Morpheme(orig[stemEnd..pos], rule.tag)] + ms,
                        depth, ri, surface[0], |rule.fromStates|)
    else []
  }

  /** The predecessor loop of walk: each fromState, then the k/q restorations. */
  function PredecessorParses(rules: seq<Rule>, orig: string, lower: string, stemEnd: nat,
                             ms: seq<Morpheme>, depth: nat, ri: nat, first: char, n: nat): seq<Analysis>
    requires Ctx(rules, orig, lower) && stemEnd <= |lower| && depth < MaxDepth
    requires ri < |rules| && n <= |rules[ri].fromStates|
    decreases MaxDepth - depth, 0, n, 0
  {
    if n == 0 then []
    else
      var from := rules[ri].fromStates[n - 1];
      PredecessorParses(rules, orig, lower, stemEnd, ms, depth, ri, first, n - 1)
      + Parses(rules, orig, lower, stemEnd, from, ms, depth + 1)
      + RestoredParses(rules, orig, lower, stemEnd, from, ms, depth, first)
  }

  /**
   * Before a vowel-initial suffix, a stem ending in y is also tried with k,
   * and one ending in ğ with q (tryRestoredStem).
   */
  function RestoredParses(rules: seq<Rule>, orig: string, lower: string, stemEnd: nat, from: State,
                          ms: seq<Morpheme>, depth: nat, first: char): seq<Analysis>
    requires Ctx(rules, orig, lower) && stemEnd <= |lower| && depth < MaxDepth
    decreases MaxDepth - depth, 0, 0, 0
  {
    if stemEnd > 0 && P.IsVowel(first) then
      var last := lower[stemEnd - 1];
      (if last == 'y' then Restore(rules, orig, lower, stemEnd, 'k', from, ms, depth) else [])
      + (if last == 'ğ' then Restore(rules, orig, lower, stemEnd, 'q', from, ms, depth) else [])
    else []
  }

  /** tryRestoredStem: the walk over the word with the rune before newPos replaced. */
  function Restore(rules: seq<Rule>, orig: string, lower: string, newPos: nat, r: char, from: State,
                   ms: seq<Morpheme>, depth: nat): seq<Analysis>
    requires Ctx(rules, orig, lower) && 0 < newPos <= |lower| && depth < MaxDepth
    decreases MaxDepth - depth - 1, 4, 0, 0
  {
    Parses(rules, orig[newPos - 1 := r], lower[newPos - 1 := r], newPos, from, ms, depth + 1)
  }

  /** The walker: the word as two rune buffers, and the analyses found so far. */
  class Walker {
    const rules: seq<Rule>
    const origRunes: array<char>
    const lowerRunes: array<char>
    var results: seq<Analysis>

    ghost predicate Valid()
      reads this
    {
      origRunes != lowerRunes && origRunes.Length == lowerRunes.Length && RulesOK(rules)
    }

    constructor (rules: seq<Rule>, word: string, low: string)
      requires RulesOK(rules) && |word| == |low|
      ensures Valid() && this.rules == rules && results == []
      ensures origRunes[..] == word && lowerRunes[..] == low
      ensures fresh(origRunes) && fresh(lowerRunes)
    {
      this.rules := rules;
      origRunes := new char[|word|](i requires 0 <= i < |word| => word[i]);
      lowerRunes := new char[|low|](i requires 0 <= i < |low| => low[i]);
      results := [];
    }

    /** walk: appends every analysis reachable from (pos, state) and leaves both buffers as they were. */
    method Walk(pos: nat, state: State, ms: seq<Morpheme>, depth: nat)
      requires Valid() && pos <= lowerRunes.Length
      modifies this, origRunes, lowerRunes
      ensures origRunes[..] == old(origRunes[..]) && lowerRunes[..] == old(lowerRunes[..])
      ensures results == old(results) + Parses(rules, old(origRunes[..]), old(lowerRunes[..]), pos, state, ms, depth)
      decreases MaxDepth - depth, 5
    {
      if state == Initial {
        if pos > 0 && P.IsValidStem(lowerRunes[..pos]) {
          results := results + [Analysis(origRunes[..pos], ms)];
        }
        return;
      }
      if depth >= MaxDepth {
        return;
      }
      ghost var orig0, low0 := origRunes[..], lowerRunes[..];
      var ri := 0;
      while ri < |rules|
        invariant 0 <= ri <= |rules|
        invariant origRunes[..] == orig0 && lowerRunes[..] == low0
        invariant results == old(results) + RuleParses(rules, orig0, low0, pos, state, ms, depth, ri)
      {
        if rules[ri].toState == state {
          WalkRule(pos, ms, depth, ri);
        }
        ri := ri + 1;
      }
    }

    /** The surface loop of walk for one rule whose toState is the current state. */
    method WalkRule(pos: nat, ms: seq<Morpheme>, depth: nat, ri: nat)
      requires Valid() && pos <= lowerRunes.Length && depth < MaxDepth && ri < |rules|
      modifies this, origRunes, lowerRunes
      ensures origRunes[..] == old(origRunes[..]) && lowerRunes[..] == old(lowerRunes[..])
      ensures results == old(results)
        + SurfaceParses(rules, old(origRunes[..]), old(lowerRunes[..]), pos, ms, depth, ri, |rules[ri].surfaces|)
      decreases MaxDepth - depth, 4
    {
      ghost var orig0, low0 := origRunes[..], lowerRunes[..];
      var rule := rules[ri];
      for si := 0 to |rule.surfaces|
        invariant origRunes[..] == orig0 && lowerRunes[..] == low0
        invariant results == old(results) + SurfaceParses(rules, orig0, low0, pos, ms, depth, ri, si)
      {
        WalkSurface(pos, ms, depth, ri, si);
      }
    }

    /** One pass of the surface loop: the checks, then the predecessors of the stripped stem. */
    method WalkSurface(pos: nat, ms: seq<Morpheme>, depth: nat, ri: nat, si: nat)
      requires Valid() && pos <= lowerRunes.Length && depth < MaxDepth && ri < |rules| && si < |rules[ri].surfaces|
      modifies this, origRunes, lowerRunes
      ensures origRunes[..] == old(origRunes[..]) && lowerRunes[..] == old(lowerRunes[..])
      ensures results == old(results)
        + SurfaceStep(rules, old(origRunes[..]), old(lowerRunes[..]), pos, ms, depth, ri, si)
      decreases MaxDepth - depth, 3
    {
      var rule := rules[ri];
      var surfRunes := rule.surfaces[si];
      var ok := CanStrip(pos, ri, surfRunes);
      if !ok {
        return;
      }
      var stemEnd := pos - |surfRunes|;
      var origSurface := origRunes[stemEnd..pos];
      var newMorphemes := [Morpheme(origSurface, rule.tag)] + ms;
      WalkPredecessors(stemEnd, newMorphemes, depth, ri, surfRunes[0]);
    }

    /** The checks of walk for one surface: it fits, it matches, harmony holds, assimilation holds. */
    method CanStrip(pos: nat, ri: nat, surfRunes: string) returns (ok: bool)
      requires Valid() && pos <= lowerRunes.Length && ri < |rules| && surfRunes != []
      ensures ok == Strips(rules[ri], lowerRunes[..], pos, surfRunes)
    {
      var rule := rules[ri];
      var surfLen := |surfRunes|;
      if surfLen > pos {
        return false;
      }
      var stemEnd := pos - surfLen;
      assert lowerRunes[stemEnd..pos] == lowerRunes[..][stemEnd..pos];
      assert lowerRunes[..stemEnd] == lowerRunes[..][..stemEnd];
      var eq := RunesEqual(lowerRunes[stemEnd..pos], surfRunes);
      if !eq {
        return false;
      }
      var harmonic := HarmonyCheck(rule.harmony, lowerRunes[..stemEnd], surfRunes);
      if !harmonic {
        return false;
      }
      ok := AssimilationCheck(rule, stemEnd, surfRunes[0]);
    }

    /** The vowel-harmony check between the stem's last vowel and the suffix's first. */
    static method HarmonyCheck(h: Harmony, stemPart: string, surfRunes: string) returns (ok: bool)
      ensures ok == HarmonyOK(h, stemPart, surfRunes)
    {
      var stemLV := P.LastVowel(stemPart);
      var suffFV := FirstVowelScan(surfRunes);
      match h {
        case BackFront =>
          if stemLV != P.NoVowel && suffFV != P.NoVowel && !P.MatchesBackFront(stemLV, suffFV) {
            return false;
          }
        case FourWay =>
          if stemLV != P.NoVowel && suffFV != P.NoVowel && !P.MatchesFourWay(stemLV, suffFV) {
            return false;
          }
        case NoHarmony =>
      }
      return true;
    }

    /** The d/t assimilation check against the rune before the stripped suffix. */
    method AssimilationCheck(rule: Rule, stemEnd: nat, first: char) returns (ok: bool)
      requires stemEnd <= lowerRunes.Length
      ensures ok == AssimilationOK(rule, lowerRunes[..], stemEnd, first)
    {
      if first == 't' || first == 'd' {
        var dt := HasDTVariantsScan(rule);
        if dt && stemEnd > 0 && rule.tag != Copula {
          var preceding := lowerRunes[stemEnd - 1];
          if first == 't' && !P.IsVoiceless(preceding) {
            return false;
          }
          if first == 'd' && P.IsVoiceless(preceding) && preceding != 'q' {
            return false;
          }
        }
      }
      return true;
    }

    /** The predecessor loop of walk: recurse into each fromState, then try k/q restoration. */
    method WalkPredecessors(stemEnd: nat, ms: seq<Morpheme>, depth: nat, ri: nat, first: char)
      requires Valid() && stemEnd <= lowerRunes.Length && depth < MaxDepth && ri < |rules|
      modifies this, origRunes, lowerRunes
      ensures origRunes[..] == old(origRunes[..]) && lowerRunes[..] == old(lowerRunes[..])
      ensures results == old(results)
        + PredecessorParses(rules, old(origRunes[..]), old(lowerRunes[..]), stemEnd, ms, depth, ri, first,
                            |rules[ri].fromStates|)
      decreases MaxDepth - depth, 2
    {
      ghost var orig0, low0 := origRunes[..], lowerRunes[..];
      var fromStates := rules[ri].fromStates;
      for fi := 0 to |fromStates|
        invariant origRunes[..] == orig0 && lowerRunes[..] == low0
        invariant results == old(results) + PredecessorParses(rules, orig0, low0, stemEnd, ms, depth, ri, first, fi)
      {
        var fromState := fromStates[fi];
        Walk(stemEnd, fromState, ms, depth + 1);
        TryRestorations(stemEnd, fromState, ms, depth, first);
      }
    }

    /** The k/q softening step after each predecessor: before a vowel-initial suffix, y may be k and ğ may be q. */
    method TryRestorations(stemEnd: nat, fromState: State, ms: seq<Morpheme>, depth: nat, first: char)
      requires Valid() && stemEnd <= lowerRunes.Length && depth < MaxDepth
      modifies this, origRunes, lowerRunes
      ensures origRunes[..] == old(origRunes[..]) && lowerRunes[..] == old(lowerRunes[..])
      ensures results == old(results)
        + RestoredParses(rules, old(origRunes[..]), old(lowerRunes[..]), stemEnd, fromState, ms, depth, first)
      decreases MaxDepth - depth, 1
    {
      if stemEnd > 0 && P.IsVowel(first) {
        var lastStemRune := lowerRunes[stemEnd - 1];
        if lastStemRune == 'y' {
          TryRestoredStem(stemEnd, 'k', fromState, ms, depth);
        }
        if lastStemRune == 'ğ' {
          TryRestoredStem(stemEnd, 'q', fromState, ms, depth);
        }
      }
    }

    /** tryRestoredStem: overwrite the rune before newPos in both buffers, walk, then put both back. */
    method TryRestoredStem(newPos: nat, restoredRune: char, state: State, ms: seq<Morpheme>, depth: nat)
      requires Valid() && 0 < newPos <= lowerRunes.Length && depth < MaxDepth
      modifies this, origRunes, lowerRunes
      ensures origRunes[..] == old(origRunes[..]) && lowerRunes[..] == old(lowerRunes[..])
      ensures results == old(results)
        + Restore(rules, old(origRunes[..]), old(lowerRunes[..]), newPos, restoredRune, state, ms, depth)
      decreases MaxDepth - depth, 0
    {
      var idx := newPos - 1;
      var savedLower := lowerRunes[idx];
      var savedOrig := origRunes[idx];
      lowerRunes[idx] := restoredRune;
      origRunes[idx] := restoredRune;
      Walk(newPos, state, ms, depth + 1);
      lowerRunes[idx] := savedLower;
      origRunes[idx] := savedOrig;
    }
  }

  /** The suffix texts of a morpheme list, concatenated. */
  function Surfaces(ms: seq<Morpheme>): string
    decreases |ms|
  {
    if ms == [] then "" else ms[0].surface + Surfaces(ms[1..])
  }

  /** k/q softening: a lower-case y may stand for a k, and a ğ for a q. */
  predicate Restorable(l: char, r: char) {
    (l == 'y' && r == 'k') || (l == 'ğ' && r == 'q')
  }

  /** t spells the word, except that runes whose lower case is y or ğ may read as k or q. */
  predicate Reading(word: string, lowerWord: string, t: string)
    requires |lowerWord| == |word|
  {
    |t| == |word| && forall i :: 0 <= i < |t| ==> t[i] == word[i] || Restorable(lowerWord[i], t[i])
  }

  /**
   * The walker's buffers during a walk over word: lower is the lower case of
   * orig, and each position holds either the word's own runes or a restored k or q.
   */
  predicate Buffers(word: string, lowerWord: string, orig: string, lower: string) {
    |orig| == |word| && |lower| == |word| && |lowerWord| == |word|
    && forall i :: 0 <= i < |word| ==>
      AzCase.Lower(orig[i]) == lower[i]
      && ((orig[i] == word[i] && lower[i] == lowerWord[i]) || (orig[i] == lower[i] && Restorable(lowerWord[i], orig[i])))
  }

  /**
   * What every recorded analysis satisfies: a valid stem of at least two runes,
   * at most `bound` morphemes, and stem plus suffixes reading the word.
   */
  predicate Found(word: string, lowerWord: string, bound: nat, a: Analysis)
    requires |lowerWord| == |word|
  {
    |a.stem| >= 2 && P.IsValidStem(AzCase.ToLower(a.stem)) && |a.morphemes| <= bound
    && Reading(word, lowerWord, a.stem + Surfaces(a.morphemes))
  }

  lemma {:induction false} ParsesFound(word: string, lowerWord: string, rules: seq<Rule>, orig: string, lower: string,
                                       pos: nat, state: State, ms: seq<Morpheme>, depth: nat, bound: nat)
    requires Ctx(rules, orig, lower) && pos <= |lower| && depth <= MaxDepth && |ms| + MaxDepth - depth <= bound
    requires Buffers(word, lowerWord, orig, lower) && Reading(word, lowerWord, orig[..pos] + Surfaces(ms))
    ensures forall a :: a in Parses(rules, orig, lower, pos, state, ms, depth) ==> Found(word, lowerWord, bound, a)
    decreases MaxDepth - depth, 3, 0
  {
    if state == Initial {
      if pos > 0 && P.IsValidStem(lower[..pos]) {
        assert AzCase.ToLower(orig[..pos]) == lower[..pos];
      }
    } else if depth < MaxDepth {
      RuleParsesFound(word, lowerWord, rules, orig, lower, pos, state, ms, depth, bound, |rules|);
    }
  }

  lemma {:induction false} RuleParsesFound(word: string, lowerWord: string, rules: seq<Rule>, orig: string, lower: string,
                                           pos: nat, state: State, ms: seq<Morpheme>, depth: nat, bound: nat, n: nat)
    requires Ctx(rules, orig, lower) && pos <= |lower| && depth < MaxDepth && n <= |rules| && |ms| + MaxDepth - depth <= bound
    requires Buffers(word, lowerWord, orig, lower) && Reading(word, lowerWord, orig[..pos] + Surfaces(ms))
    ensures forall a :: a in RuleParses(rules, orig, lower, pos, state, ms, depth, n) ==> Found(word, lowerWord, bound, a)
    decreases MaxDepth - depth, 2, n
  {
    if n > 0 {
      RuleParsesFound(word, lowerWord, rules, orig, lower, pos, state, ms, depth, bound, n - 1);
      if rules[n - 1].toState == state {
        SurfaceParsesFound(word, lowerWord, rules, orig, lower, pos, ms, depth, bound, n - 1, |rules[n - 1].surfaces|);
      }
    }
  }

  lemma {:induction false} SurfaceParsesFound(word: string, lowerWord: string, rules: seq<Rule>, orig: string, lower: string,
                                              pos: nat, ms: seq<Morpheme>, depth: nat, bound: nat, ri: nat, n: nat)
    requires Ctx(rules, orig, lower) && pos <= |lower| && depth < MaxDepth && |ms| + MaxDepth - depth <= bound
    requires ri < |rules| && n <= |rules[ri].surfaces|
    requires Buffers(word, lowerWord, orig, lower) && Reading(word, lowerWord, orig[..pos] + Surfaces(ms))
    ensures forall a :: a in SurfaceParses(rules, orig, lower, pos, ms, depth, ri, n) ==> Found(word, lowerWord, bound, a)
    decreases MaxDepth - depth, 1, n
  {
    if n > 0 {
      SurfaceParsesFound(word, lowerWord, rules, orig, lower, pos, ms, depth, bound, ri, n - 1);
      var rule := rules[ri];
      var surface := rule.surfaces[n - 1];
      if Strips(rule, lower, pos, surface) {
        var stemEnd := pos - |surface|;
        var ms' := [Morpheme(orig[stemEnd..pos], rule.tag)] + ms;
        assert ms'[1..] == ms;
        assert orig[..stemEnd] + Surfaces(ms') == orig[..pos] + Surfaces(ms) by {
          assert orig[..stemEnd] + orig[stemEnd..pos] == orig[..pos];
        }
        PredecessorParsesFound(word, lowerWord, rules, orig, lower, stemEnd, ms', depth, bound, ri, surface[0],
                               |rule.fromStates|);
      }
    }
  }

  lemma {:induction false} PredecessorParsesFound(word: string, lowerWord: string, rules: seq<Rule>, orig: string,
                                                  lower: string, stemEnd: nat, ms: seq<Morpheme>, depth: nat, bound: nat,
                                                  ri: nat, first: char, n: nat)
    requires Ctx(rules, orig, lower) && stemEnd <= |lower| && depth < MaxDepth && |ms| + MaxDepth - depth <= bound + 1
    requires ri < |rules| && n <= |rules[ri].fromStates|
    requires Buffers(word, lowerWord, orig, lower) && Reading(word, lowerWord, orig[..stemEnd] + Surfaces(ms))
    ensures forall a :: a in PredecessorParses(rules, orig, lower, stemEnd, ms, depth, ri, first, n) ==>
      Found(word, lowerWord, bound, a)
    decreases MaxDepth - depth, 0, n
  {
    if n > 0 {
      var from := rules[ri].fromStates[n - 1];
      var earlier := PredecessorParses(rules, orig, lower, stemEnd, ms, depth, ri, first, n - 1);
      var direct := Parses(rules, orig, lower, stemEnd, from, ms, depth + 1);
      var restored := RestoredParses(rules, orig, lower, stemEnd, from, ms, depth, first);
      PredecessorParsesFound(word, lowerWord, rules, orig, lower, stemEnd, ms, depth, bound, ri, first, n - 1);
      ParsesFound(word, lowerWord, rules, orig, lower, stemEnd, from, ms, depth + 1, bound);
      RestoredParsesFound(word, lowerWord, rules, orig, lower, stemEnd, from, ms, depth, bound, first);
      assert PredecessorParses(rules, orig, lower, stemEnd, ms, depth, ri, first, n) == earlier + direct + restored;
    }
  }

  lemma {:induction false} RestoredParsesFound(word: string, lowerWord: string, rules: seq<Rule>, orig: string,
                                               lower: string, stemEnd: nat, from: State, ms: seq<Morpheme>, depth: nat,
                                               bound: nat, first: char)
    requires Ctx(rules, orig, lower) && stemEnd <= |lower| && depth < MaxDepth && |ms| + MaxDepth - depth <= bound + 1
    requires Buffers(word, lowerWord, orig, lower) && Reading(word, lowerWord, orig[..stemEnd] + Surfaces(ms))
    ensures forall a :: a in RestoredParses(rules, orig, lower, stemEnd, from, ms, depth, first) ==>
      Found(word, lowerWord, bound, a)
    decreases MaxDepth - depth, 0, 0
  {
    if stemEnd > 0 && P.IsVowel(first) {
      var last := lower[stemEnd - 1];
      if last == 'y' {
        RestoreFound(word, lowerWord, rules, orig, lower, stemEnd, 'k', from, ms, depth, bound);
      }
      if last == 'ğ' {
        RestoreFound(word, lowerWord, rules, orig, lower, stemEnd, 'q', from, ms, depth, bound);
      }
    }
  }

  lemma {:induction false} RestoreFound(word: string, lowerWord: string, rules: seq<Rule>, orig: string, lower: string,
                                        newPos: nat, r: char, from: State, ms: seq<Morpheme>, depth: nat, bound: nat)
    requires Ctx(rules, orig, lower) && 0 < newPos <= |lower| && depth < MaxDepth && |ms| + MaxDepth - depth <= bound + 1
    requires Restorable(lower[newPos - 1], r)
    requires Buffers(word, lowerWord, orig, lower) && Reading(word, lowerWord, orig[..newPos] + Surfaces(ms))
    ensures forall a :: a in Restore(rules, orig, lower, newPos, r, from, ms, depth) ==> Found(word, lowerWord, bound, a)
    decreases MaxDepth - depth - 1, 4, 0
  {
    var idx := newPos - 1;
    var orig' := orig[idx := r];
    var lower' := lower[idx := r];
    assert AzCase.Lower('k') == 'k' && AzCase.Lower('q') == 'q';
    assert Restorable(lowerWord[idx], r);
    assert Buffers(word, lowerWord, orig', lower');
    var t := orig[..newPos] + Surfaces(ms);
    assert orig'[..newPos] + Surfaces(ms) == t[idx := r];
    ParsesFound(word, lowerWord, rules, orig', lower', newPos, from, ms, depth + 1, bound);
  }

  /** The distinct toStates of the rules, in order of first occurrence. */
  function TerminalStates(rules: seq<Rule>): (ts: seq<State>)
    ensures Seqs.Distinct(ts)
    ensures forall s :: s in ts <==> exists k :: 0 <= k < |rules| && rules[k].toState == s
  {
    if rules == [] then []
    else
      var init := rules[..|rules| - 1];
      var prev := TerminalStates(init);
      var t := rules[|rules| - 1].toState;
      assert forall k :: 0 <= k < |init| ==> init[k] == rules[k];
      if t in prev then prev else prev + [t]
  }

  /** No walk starts at the initial state: every terminal state is some rule's toState. */
  lemma TerminalStatesNotInitial()
    ensures Initial !in TerminalStates(SuffixRules)
  {
    TableStates();
  }

  /** The analyses of all walks, one per terminal state in turn, over the whole word. */
  function AllParses(rules: seq<Rule>, orig: string, lower: string, ts: seq<State>): seq<Analysis>
    requires Ctx(rules, orig, lower)
  {
    if ts == [] then []
    else AllParses(rules, orig, lower, ts[..|ts| - 1]) + Parses(rules, orig, lower, |lower|, ts[|ts| - 1], [], 0)
  }

  /** tagsKey: the tag names joined with "|". */
  function TagsKey(ms: seq<Morpheme>): string {
    Unicode.Join(seq(|ms|, i requires 0 <= i < |ms| => TagString(ms[i].tag)), "|")
  }

  /** The dedup key: stem and tag sequence. */
  datatype Key = Key(stem: string, tags: string)

  function KeyOf(a: Analysis): Key { Key(a.stem, TagsKey(a.morphemes)) }

  function Keys(xs: seq<Analysis>): set<Key> {
    set a | a in xs :: KeyOf(a)
  }

  /** dedup: the first analysis of each key, in order. */
  function Dedup(xs: seq<Analysis>): seq<Analysis>
    decreases |xs|
  {
    if xs == [] then []
    else
      var d := Dedup(xs[..|xs| - 1]);
      var a := xs[|xs| - 1];
      if KeyOf(a) in Keys(d) then d else d + [a]
  }

  lemma KeysSnoc(xs: seq<Analysis>, a: Analysis)
    ensures Keys(xs + [a]) == Keys(xs) + {KeyOf(a)}
  {
    assert forall b :: b in xs + [a] <==> b in xs || b == a;
  }

  predicate UniqueKeys(xs: seq<Analysis>) {
    forall i, j :: 0 <= i < j < |xs| ==> KeyOf(xs[i]) != KeyOf(xs[j])
  }

  /** Dedup keeps no key twice, keeps the input order, and loses no key. */
  lemma DedupProps(xs: seq<Analysis>)
    ensures UniqueKeys(Dedup(xs))
    ensures Seqs.SubseqOf(Dedup(xs), xs)
    ensures Keys(Dedup(xs)) == Keys(xs)
  {
    DedupUnique(xs);
    DedupSubseq(xs);
    DedupKeys(xs);
  }

  lemma {:induction false} DedupKeys(xs: seq<Analysis>)
    ensures Keys(Dedup(xs)) == Keys(xs)
    decreases |xs|
  {
    if xs != [] {
      var pre := xs[..|xs| - 1];
      var a := xs[|xs| - 1];
      DedupKeys(pre);
      assert xs == pre + [a];
      KeysSnoc(pre, a);
      KeysSnoc(Dedup(pre), a);
    }
  }

  lemma {:induction false} DedupSubseq(xs: seq<Analysis>)
    ensures Seqs.SubseqOf(Dedup(xs), xs)
    decreases |xs|
  {
    if xs != [] {
      var pre := xs[..|xs| - 1];
      DedupSubseq(pre);
      assert xs == pre + [xs[|xs| - 1]];
      Seqs.SubseqSnoc(Dedup(pre), pre, xs[|xs| - 1]);
    }
  }

  lemma {:induction false} DedupUnique(xs: seq<Analysis>)
    ensures UniqueKeys(Dedup(xs))
    decreases |xs|
  {
    if xs != [] {
      var pre := xs[..|xs| - 1];
      var a := xs[|xs| - 1];
      var d := Dedup(pre);
      DedupUnique(pre);
      if KeyOf(a) !in Keys(d) {
        forall i | 0 <= i < |d| ensures KeyOf(d[i]) != KeyOf(a) {
          assert d[i] in d;
        }
      }
    }
  }

  /** What dedup keeps of a key is the first analysis with that key. */
  lemma {:induction false} DedupKeepsFirst(xs: seq<Analysis>, j: nat)
    requires j < |xs| && forall k :: 0 <= k < j ==> KeyOf(xs[k]) != KeyOf(xs[j])
    ensures xs[j] in Dedup(xs)
    decreases |xs|
  {
    var pre := xs[..|xs| - 1];
    if j < |xs| - 1 {
      DedupKeepsFirst(pre, j);
    } else {
      DedupKeys(pre);
    }
  }

  /** dedup's loop: a seen set of keys, appending each analysis with an unseen key. */
  method DedupScan(results: seq<Analysis>) returns (out: seq<Analysis>)
    ensures out == Dedup(results)
  {
    if |results| <= 1 {
      assert results == [] || results == results[..0] + [results[0]];
      return results;
    }
    var seen: set<Key> := {};
    out := [];
    for i := 0 to |results|
      invariant out == Dedup(results[..i])
      invariant seen == Keys(out)
    {
      var a := results[i];
      assert results[..i + 1][..i] == results[..i];
      var k := Key(a.stem, TagsKey(a.morphemes));
      if k in seen {
        continue;
      }
      KeysSnoc(out, a);
      seen := seen + {k};
      out := out + [a];
    }
    assert results[..|results|] == results;
  }

  /** The ranking: more morphemes first, then the shorter stem, then the smaller tags key. */
  predicate RankLess(a: Analysis, b: Analysis) {
    if |a.morphemes| != |b.morphemes| then |a.morphemes| > |b.morphemes|
    else if |a.stem| != |b.stem| then |a.stem| < |b.stem|
    else StrOrder.Less(TagsKey(a.morphemes), TagsKey(b.morphemes))
  }

  lemma RankLessTransitive(a: Analysis, b: Analysis, c: Analysis)
    requires RankLess(a, b) && RankLess(b, c)
    ensures RankLess(a, c)
  {
    if |a.morphemes| == |b.morphemes| == |c.morphemes| && |a.stem| == |b.stem| == |c.stem| {
      StrOrder.Transitive(TagsKey(a.morphemes), TagsKey(b.morphemes), TagsKey(c.morphemes));
    }
  }

  lemma RankLessIrreflexive(a: Analysis)
    ensures !RankLess(a, a)
  {
    StrOrder.Irreflexive(TagsKey(a.morphemes));
  }

  /** No analysis ranks strictly before an earlier one. */
  predicate Ranked(xs: seq<Analysis>) {
    forall i, j :: 0 <= i < j < |xs| ==> !RankLess(xs[j], xs[i])
  }

  /** Inserts a before the first analysis it ranks strictly before. */
  function Insert(a: Analysis, xs: seq<Analysis>): (r: seq<Analysis>)
    ensures multiset(r) == multiset(xs) + multiset{a}
    decreases |xs|
  {
    if xs == [] then [a]
    else if RankLess(a, xs[0]) then [a] + xs
    else
      assert xs == [xs[0]] + xs[1..];
      [xs[0]] + Insert(a, xs[1..])
  }

  /** The ranking sort, as an insertion sort: a permutation of its input. */
  function SortRanked(xs: seq<Analysis>): (r: seq<Analysis>)
    ensures multiset(r) == multiset(xs)
    decreases |xs|
  {
    if xs == [] then []
    else
      assert xs == xs[..|xs| - 1] + [xs[|xs| - 1]];
      Insert(xs[|xs| - 1], SortRanked(xs[..|xs| - 1]))
  }

  /** An analysis no later one ranks before can go in front of a ranked list. */
  lemma RankedCons(x: Analysis, xs: seq<Analysis>)
    requires Ranked(xs) && forall k :: 0 <= k < |xs| ==> !RankLess(xs[k], x)
    ensures Ranked([x] + xs)
  {
    var r := [x] + xs;
    forall i, j | 0 <= i < j < |r| ensures !RankLess(r[j], r[i]) {
      if i > 0 {
        assert r[i] == xs[i - 1] && r[j] == xs[j - 1];
      }
    }
  }

  lemma {:induction false} InsertRanked(a: Analysis, xs: seq<Analysis>)
    requires Ranked(xs)
    ensures Ranked(Insert(a, xs))
    decreases |xs|
  {
    if xs != [] {
      if RankLess(a, xs[0]) {
        forall k | 0 <= k < |xs| ensures !RankLess(xs[k], a) {
          if RankLess(xs[k], a) {
            RankLessTransitive(xs[k], a, xs[0]);
            RankLessIrreflexive(xs[0]);
          }
        }
        RankedCons(a, xs);
      } else {
        var rest := xs[1..];
        InsertRanked(a, rest);
        var ins := Insert(a, rest);
        forall k | 0 <= k < |ins| ensures !RankLess(ins[k], xs[0]) {
          assert ins[k] in multiset(ins);
          if ins[k] != a {
            assert ins[k] in multiset(rest);
            var m :| 0 <= m < |rest| && rest[m] == ins[k];
            assert xs[m + 1] == ins[k];
          }
        }
        RankedCons(xs[0], ins);
      }
    }
  }

  /** The ranking sort orders its output. */
  lemma {:induction false} SortRankedRanked(xs: seq<Analysis>)
    ensures Ranked(SortRanked(xs))
    decreases |xs|
  {
    if xs != [] {
      SortRankedRanked(xs[..|xs| - 1]);
      InsertRanked(xs[|xs| - 1], SortRanked(xs[..|xs| - 1]));
    }
  }

  /** analyze() without the public wrapper: every walk, then dedup, then the ranking. */
  function AnalyzeSpec(word: string): seq<Analysis> {
    SortRanked(Deduped(word))
  }

  /** The walk results of every terminal state over the word, de-duplicated. */
  function Deduped(word: string): seq<Analysis> {
    SuffixRulesOK();
    Dedup(AllParses(SuffixRules, word, AzCase.ToLower(word), TerminalStates(SuffixRules)))
  }

  /** analyze: one walker over the word, one walk per terminal state, then dedup and sort. */
  method Analyze(word: string) returns (results: seq<Analysis>)
    ensures results == AnalyzeSpec(word)
  {
    var low := AzCase.ToLower(word);
    SuffixRulesOK();
    var w := new Walker(SuffixRules, word, low);
    var runeLen := w.lowerRunes.Length;
    var ts := TerminalStates(SuffixRules);
    for i := 0 to |ts|
      invariant w.Valid() && w.rules == SuffixRules
      invariant w.origRunes[..] == word && w.lowerRunes[..] == low
      invariant w.results == AllParses(SuffixRules, word, low, ts[..i])
    {
      assert ts[..i + 1][..i] == ts[..i];
      w.Walk(runeLen, ts[i], [], 0);
    }
    assert ts[..|ts|] == ts;
    var deduped := DedupScan(w.results);
    results := SortRanked(deduped);
  }

  lemma {:induction false} AllParsesFound(word: string, lowerWord: string, ts: seq<State>)
    requires |lowerWord| == |word| && forall i :: 0 <= i < |word| ==> lowerWord[i] == AzCase.Lower(word[i])
    requires RulesOK(SuffixRules)
    ensures forall a :: a in AllParses(SuffixRules, word, lowerWord, ts) ==> Found(word, lowerWord, MaxDepth, a)
    decreases |ts|
  {
    if ts != [] {
      AllParsesFound(word, lowerWord, ts[..|ts| - 1]);
      assert word[..|word|] + Surfaces([]) == word;
      ParsesFound(word, lowerWord, SuffixRules, word, lowerWord, |lowerWord|, ts[|ts| - 1], [], 0, MaxDepth);
    }
  }

  /**
   * Every analysis analyze returns has a valid stem of at least two runes and at
   * most MaxDepth suffixes, and its stem followed by its suffix texts spells the
   * word (a stem-final y or ğ possibly read as the k or q it softened from).
   */
  lemma AnalyzeSound(word: string)
    ensures forall a :: a in AnalyzeSpec(word) ==> Found(word, AzCase.ToLower(word), MaxDepth, a)
  {
    SuffixRulesOK();
    var low := AzCase.ToLower(word);
    var all := AllParses(SuffixRules, word, low, TerminalStates(SuffixRules));
    AllParsesFound(word, low, TerminalStates(SuffixRules));
    DedupSubseq(all);
    assert Deduped(word) == Dedup(all);
    forall a | a in AnalyzeSpec(word) ensures Found(word, low, MaxDepth, a) {
      assert a in multiset(SortRanked(Dedup(all)));
      assert a in Dedup(all);
      Seqs.SubseqMember(Dedup(all), all, a);
    }
  }

  /**
   * analyze's output is ranked (more morphemes first, then shorter stems, then
   * tag keys), and is a reordering of the de-duplicated walk results.
   */
  lemma AnalyzeRanked(word: string)
    ensures Ranked(AnalyzeSpec(word))
    ensures multiset(AnalyzeSpec(word)) == multiset(Deduped(word))
  {
    SortRankedRanked(Deduped(word));
  }

  /** The d/t check: after stripping, a t-initial suffix of an assimilating rule follows a voiceless rune, and a d-initial one a voiced rune or q. */
  lemma Assimilation(rule: Rule, lower: string, pos: nat, surface: string)
    requires pos <= |lower| && surface != [] && Strips(rule, lower, pos, surface)
    requires HasDTVariants(rule) && rule.tag != Copula && |surface| < pos
    ensures var preceding := lower[pos - |surface| - 1];
      (surface[0] == 't' ==> P.IsVoiceless(preceding))
      && (surface[0] == 'd' ==> !P.IsVoiceless(preceding) || preceding == 'q')
  {
  }

  /** Copula is exempt: its d and t forms are accepted after any rune. */
  lemma CopulaExempt(rule: Rule, lower: string, stemEnd: nat, first: char)
    requires stemEnd <= |lower| && rule.tag == Copula
    ensures AssimilationOK(rule, lower, stemEnd, first)
  {
  }
}
