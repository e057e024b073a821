/**
 * Diacritic restoration for one word. After Turkic lower-casing, every rune
 * with an Azerbaijani diacritic twin (e, o, u, g, c, s) is a substitutable
 * position; each subset of those positions, written as a bitmask, gives one
 * variant, and the word is rewritten only when exactly one non-empty subset
 * gives a dictionary stem. The original's upper-case positions are then
 * upper-cased again.
 */
module NormalizeDiacritics {
  import Unicode
  import AzCase
  import opened MorphDict

  /** At most 2^10 variants are tried. */
  const MaxSubstitutablePositions: nat := 10
  /** Longer words (in UTF-8 bytes) are left alone. */
  const MaxWordBytes: nat := 256

  /** asciiToDiacritic: e→ə, o→ö, u→ü, g→ğ, c→ç, s→ş; the zero rune for every other rune. */
  function AsciiToDiacritic(c: char): char {
    if c == 'e' then '\U{0259}'
    else if c == 'o' then '\U{00F6}'
    else if c == 'u' then '\U{00FC}'
    else if c == 'g' then '\U{011F}'
    else if c == 'c' then '\U{00E7}'
    else if c == 's' then '\U{015F}'
    else '\0'
  }

  /** hasDiacriticAlt: an ASCII rune with a non-zero table entry. */
  predicate HasDiacriticAlt(c: char) { (c as int) < 128 && AsciiToDiacritic(c) != '\0' }

  /** The twelve Azerbaijani diacritic letters, both cases. */
  predicate IsDiacritic(c: char) {
    c == '\U{0259}' || c == '\U{00F6}' || c == '\U{00FC}' || c == '\U{011F}' || c == '\U{00E7}' || c == '\U{015F}'
    || c == '\U{018F}' || c == '\U{00D6}' || c == '\U{00DC}' || c == '\U{011E}' || c == '\U{00C7}' || c == '\U{015E}'
  }

  /** containsDiacritics: some rune is one of the twelve. */
  predicate ContainsDiacritics(s: string) { exists i :: 0 <= i < |s| && IsDiacritic(s[i]) }

  /** A substituted rune is a diacritic letter, and so is its upper case. */
  lemma TwinIsDiacritic(c: char)
    requires HasDiacriticAlt(c)
    ensures IsDiacritic(AsciiToDiacritic(c)) && IsDiacritic(AzCase.Upper(AsciiToDiacritic(c)))
  {
  }

  /** Strictly increasing indices below n. */
  predicate IncreasingBelow(ps: seq<nat>, n: nat) {
    (forall k :: 0 <= k < |ps| ==> ps[k] < n)
    && (forall k, l :: 0 <= k < l < |ps| ==> ps[k] < ps[l])
  }

  /** The substitutable positions of rs, in increasing order. */
  function Positions(rs: string): (ps: seq<nat>)
    ensures IncreasingBelow(ps, |rs|)
    ensures forall k :: 0 <= k < |ps| ==> HasDiacriticAlt(rs[ps[k]])
    ensures forall i :: 0 <= i < |rs| && HasDiacriticAlt(rs[i]) ==> i in ps
  {
    if rs == [] then []
    else
      var init := rs[..|rs| - 1];
      var ps := Positions(init);
      assert forall k :: 0 <= k < |ps| ==> rs[ps[k]] == init[ps[k]];
      if HasDiacriticAlt(rs[|rs| - 1]) then ps + [|rs| - 1] else ps
  }

  function Pow2(n: nat): (p: nat)
    ensures p >= 1
  {
    if n == 0 then 1 else 2 * Pow2(n - 1)
  }

  /** mask&(1<<b) != 0: bit b of mask is set. */
  predicate Bit(mask: nat, b: nat) {
    if b == 0 then mask % 2 == 1 else Bit(mask / 2, b - 1)
  }

  /** A non-zero mask below 2^n has one of its n low bits set. */
  lemma {:induction false} SomeBitSet(mask: nat, n: nat)
    requires 1 <= mask < Pow2(n)
    ensures exists b :: 0 <= b < n && Bit(mask, b)
  {
    if mask % 2 == 1 {
      assert Bit(mask, 0);
    } else {
      SomeBitSet(mask / 2, n - 1);
      var b :| 0 <= b < n - 1 && Bit(mask / 2, b);
      assert Bit(mask, b + 1);
    }
  }

  /** The candidate after the first b positions of the mask are applied to rs. */
  function Apply(rs: string, ps: seq<nat>, mask: nat, b: nat): (v: string)
    requires b <= |ps| && IncreasingBelow(ps, |rs|)
    ensures |v| == |rs|
  {
    if b == 0 then rs
    else
      var v := Apply(rs, ps, mask, b - 1);
      if Bit(mask, b - 1) then v[ps[b - 1] := AsciiToDiacritic(rs[ps[b - 1]])] else v
  }

  /** The variant a mask selects. */
  function Variant(rs: string, ps: seq<nat>, mask: nat): (v: string)
    requires IncreasingBelow(ps, |rs|)
    ensures |v| == |rs|
  {
    Apply(rs, ps, mask, |ps|)
  }

  /** Every rune of a candidate is the lower-cased rune or, at a position, its twin. */
  lemma {:induction false} ApplyShape(rs: string, ps: seq<nat>, mask: nat, b: nat)
    requires b <= |ps| && IncreasingBelow(ps, |rs|)
    ensures forall i :: 0 <= i < |rs| ==>
      Apply(rs, ps, mask, b)[i] == rs[i] || (i in ps && Apply(rs, ps, mask, b)[i] == AsciiToDiacritic(rs[i]))
  {
    if b > 0 { ApplyShape(rs, ps, mask, b - 1); }
  }

  /** Positions the first b steps have not reached still hold the lower-cased rune. */
  lemma {:induction false} ApplyUntouched(rs: string, ps: seq<nat>, mask: nat, b: nat, i: nat)
    requires b <= |ps| && IncreasingBelow(ps, |rs|) && i < |rs|
    requires forall k :: 0 <= k < b ==> ps[k] != i
    ensures Apply(rs, ps, mask, b)[i] == rs[i]
  {
    if b > 0 { ApplyUntouched(rs, ps, mask, b - 1, i); }
  }

  /** A position whose bit is set holds its twin once it has been reached. */
  lemma {:induction false} ApplySet(rs: string, ps: seq<nat>, mask: nat, b: nat, k: nat)
    requires b <= |ps| && IncreasingBelow(ps, |rs|) && k < b && Bit(mask, k)
    ensures Apply(rs, ps, mask, b)[ps[k]] == AsciiToDiacritic(rs[ps[k]])
  {
    if k < b - 1 {
      ApplySet(rs, ps, mask, b - 1, k);
      assert ps[k] < ps[b - 1];
    }
  }

  /** The variant of mask is a dictionary stem. */
  predicate Matches(d: Dict, rs: string, ps: seq<nat>, mask: nat)
    requires IncreasingBelow(ps, |rs|)
  {
    KnownStem(d, Variant(rs, ps, mask))
  }

  /** The number of masks in [1, hi) whose variant is a stem. */
  function Count(d: Dict, rs: string, ps: seq<nat>, hi: nat): nat
    requires IncreasingBelow(ps, |rs|)
  {
    if hi <= 1 then 0
    else Count(d, rs, ps, hi - 1) + (if Matches(d, rs, ps, hi - 1) then 1 else 0)
  }

  /** The first mask in [1, hi) whose variant is a stem, or 0. */
  function FirstMatch(d: Dict, rs: string, ps: seq<nat>, hi: nat): nat
    requires IncreasingBelow(ps, |rs|)
  {
    if hi <= 1 then 0
    else
      var m := FirstMatch(d, rs, ps, hi - 1);
      if m != 0 then m else if Matches(d, rs, ps, hi - 1) then hi - 1 else 0
  }

  lemma {:induction false} CountMono(d: Dict, rs: string, ps: seq<nat>, lo: nat, hi: nat)
    requires IncreasingBelow(ps, |rs|) && lo <= hi
    ensures Count(d, rs, ps, lo) <= Count(d, rs, ps, hi)
    decreases hi - lo
  {
    if lo < hi { CountMono(d, rs, ps, lo, hi - 1); }
  }

  /**
   * FirstMatch finds a mask exactly when Count is positive; the mask it finds
   * matches, lies in [1, hi), and when Count is 1 it is the only match.
   */
  lemma {:induction false} FirstMatchCount(d: Dict, rs: string, ps: seq<nat>, hi: nat)
    requires IncreasingBelow(ps, |rs|)
    ensures (FirstMatch(d, rs, ps, hi) == 0) <==> (Count(d, rs, ps, hi) == 0)
    ensures FirstMatch(d, rs, ps, hi) != 0 ==>
      1 <= FirstMatch(d, rs, ps, hi) < hi && Matches(d, rs, ps, FirstMatch(d, rs, ps, hi))
    ensures Count(d, rs, ps, hi) == 1 ==>
      forall m :: 1 <= m < hi && Matches(d, rs, ps, m) ==> m == FirstMatch(d, rs, ps, hi)
  {
    if hi > 1 {
      FirstMatchCount(d, rs, ps, hi - 1);
      if Count(d, rs, ps, hi) == 1 && Matches(d, rs, ps, hi - 1) {
        forall m | 1 <= m < hi - 1 ensures !Matches(d, rs, ps, m) {
          if Matches(d, rs, ps, m) { CountPositive(d, rs, ps, m, hi - 1); }
        }
      }
    }
  }

  /** A match below hi makes Count(hi) positive. */
  lemma {:induction false} CountPositive(d: Dict, rs: string, ps: seq<nat>, m: nat, hi: nat)
    requires IncreasingBelow(ps, |rs|) && 1 <= m < hi && Matches(d, rs, ps, m)
    ensures Count(d, rs, ps, hi) >= 1
    decreases hi
  {
    if m < hi - 1 { CountPositive(d, rs, ps, m, hi - 1); }
  }

  /** The case pattern of o applied to the rune x. */
  function CaseOf(o: char, x: char): char {
    if Unicode.IsUpper(o) then AzCase.Upper(x) else x
  }

  /** restoreCase: the original's upper-case positions upper-cased; the original on a rune-count mismatch. */
  function RestoreCase(original: string, restored: string): (r: string)
    ensures |r| == |original|
    ensures |original| != |restored| ==> r == original
    ensures |original| == |restored| ==> forall i :: 0 <= i < |r| ==>
      r[i] == CaseOf(original[i], restored[i])
  {
    if |original| != |restored| then original
    else seq(|original|, i requires 0 <= i < |original| => CaseOf(original[i], restored[i]))
  }

  /**
   * What restoreWord returns: the word itself for "", over-long input, input
   * with diacritics, no substitutable position, a lower-cased form that is
   * already a stem, or more than ten positions; otherwise the unique matching
   * variant in the original's case, or the word when zero or several match.
   */
  function Restored(d: Dict, word: string): (r: string)
    ensures |r| == |word|
  {
    if word == "" || Unicode.ByteLen(word) > MaxWordBytes then word
    else if ContainsDiacritics(word) then word
    else
      var rs := AzCase.ToLower(word);
      var ps := Positions(rs);
      if |ps| == 0 then word
      else if KnownStem(d, rs) then word
      else if |ps| > MaxSubstitutablePositions then word
      else
        var total := Pow2(|ps|);
        if Count(d, rs, ps, total) != 1 then word
        else RestoreCase(word, Variant(rs, ps, FirstMatch(d, rs, ps, total)))
  }

  /**
   * A word changes only when exactly one non-empty subset of its positions
   * gives a stem, and then every rune is its lower-cased rune or, at a
   * substitutable position, that rune's twin, each in the original's case:
   * the word is that one variant in the original's case.
   */
  lemma RestoredChange(d: Dict, word: string)
    ensures var r := Restored(d, word);
      r != word ==>
        !ContainsDiacritics(word) && word != "" && Unicode.ByteLen(word) <= MaxWordBytes
        && var rs := AzCase.ToLower(word);
           var ps := Positions(rs);
           1 <= |ps| <= MaxSubstitutablePositions && !KnownStem(d, rs)
           && Count(d, rs, ps, Pow2(|ps|)) == 1
           && (forall i :: 0 <= i < |word| ==>
                 r[i] == CaseOf(word[i], rs[i])
                 || (HasDiacriticAlt(rs[i]) && r[i] == CaseOf(word[i], AsciiToDiacritic(rs[i]))))
           && exists m :: 1 <= m < Pow2(|ps|) && Matches(d, rs, ps, m) && r == RestoreCase(word, Variant(rs, ps, m))
                && forall m' :: 1 <= m' < Pow2(|ps|) && Matches(d, rs, ps, m') ==> m' == m
  {
    var r := Restored(d, word);
    if r != word {
      var rs := AzCase.ToLower(word);
      var ps := Positions(rs);
      var m := FirstMatch(d, rs, ps, Pow2(|ps|));
      ApplyShape(rs, ps, m, |ps|);
      FirstMatchCount(d, rs, ps, Pow2(|ps|));
    }
  }

  /** A rewritten word holds a diacritic letter. */
  lemma RestoredHasDiacritic(d: Dict, word: string)
    requires Restored(d, word) != word
    ensures ContainsDiacritics(Restored(d, word))
  {
    var rs := AzCase.ToLower(word);
    var ps := Positions(rs);
    var total := Pow2(|ps|);
    FirstMatchCount(d, rs, ps, total);
    var m := FirstMatch(d, rs, ps, total);
    SomeBitSet(m, |ps|);
    var b :| 0 <= b < |ps| && Bit(m, b);
    ApplySet(rs, ps, m, |ps|, b);
    TwinIsDiacritic(rs[ps[b]]);
    var r := Restored(d, word);
    assert IsDiacritic(r[ps[b]]);
  }

  /** Restoring twice is restoring once: a rewritten word holds a diacritic, which stops the second pass. */
  lemma RestoredIdempotent(d: Dict, word: string)
    ensures Restored(d, Restored(d, word)) == Restored(d, word)
  {
    if Restored(d, word) != word {
      RestoredHasDiacritic(d, word);
    }
  }

  /** The positions loop of restoreWord. */
  method ScanPositions(runes: string) returns (positions: seq<nat>)
    ensures positions == Positions(runes)
  {
    positions := [];
    var i := 0;
    while i < |runes|
      invariant 0 <= i <= |runes|
      invariant positions == Positions(runes[..i])
    {
      assert runes[..i + 1][..i] == runes[..i];
      if HasDiacriticAlt(runes[i]) {
        positions := positions + [i];
      }
      i := i + 1;
    }
    assert runes[..|runes|] == runes;
  }

  /** One pass of the bit loop: the variant of mask, written into a copy of the runes. */
  method BuildVariant(runes: string, positions: seq<nat>, mask: nat) returns (candidate: string)
    requires IncreasingBelow(positions, |runes|)
    ensures candidate == Variant(runes, positions, mask)
  {
    candidate := runes;
    var bit := 0;
    while bit < |positions|
      invariant 0 <= bit <= |positions|
      invariant candidate == Apply(runes, positions, mask, bit)
    {
      if Bit(mask, bit) {
        candidate := candidate[positions[bit] := AsciiToDiacritic(runes[positions[bit]])];
      }
      bit := bit + 1;
    }
  }

  /**
   * The mask loop: counts matching variants over [1, 2^n), stopping at the
   * second match; reports whether exactly one matched, and which.
   */
  method SearchMasks(d: Dict, runes: string, positions: seq<nat>) returns (unique: bool, matchMask: nat)
    requires IncreasingBelow(positions, |runes|)
    ensures unique <==> Count(d, runes, positions, Pow2(|positions|)) == 1
    ensures unique ==> matchMask == FirstMatch(d, runes, positions, Pow2(|positions|))
  {
    var total := Pow2(|positions|);
    var matchCount := 0;
    matchMask := 0;
    var mask := 1;
    while mask < total
      invariant 1 <= mask <= total
      invariant matchCount == Count(d, runes, positions, mask) <= 1
      invariant matchMask == FirstMatch(d, runes, positions, mask)
    {
      FirstMatchCount(d, runes, positions, mask);
      var candidate := BuildVariant(runes, positions, mask);
      if KnownStem(d, candidate) {
        matchCount := matchCount + 1;
        if matchCount == 1 {
          matchMask := mask;
        } else {
          CountMono(d, runes, positions, mask + 1, total);
          return false, matchMask;
        }
      }
      mask := mask + 1;
    }
    return matchCount == 1, matchMask;
  }

  /** The rebuild loop: each position is read before it is overwritten, as the source does in place. */
  method Rebuild(runes: string, positions: seq<nat>, mask: nat) returns (restored: string)
    requires IncreasingBelow(positions, |runes|)
    ensures restored == Variant(runes, positions, mask)
  {
    restored := runes;
    var bit := 0;
    while bit < |positions|
      invariant 0 <= bit <= |positions|
      invariant restored == Apply(runes, positions, mask, bit)
    {
      if Bit(mask, bit) {
        ApplyUntouched(runes, positions, mask, bit, positions[bit]);
        restored := restored[positions[bit] := AsciiToDiacritic(restored[positions[bit]])];
      }
      bit := bit + 1;
    }
  }

  /** restoreWord: the guards, the positions scan, the bitmask search and the rebuild. */
  method RestoreWord(d: Dict, word: string) returns (r: string)
    ensures r == Restored(d, word)
  {
    if word == "" || Unicode.ByteLen(word) > MaxWordBytes {
      return word;
    }
    if ContainsDiacritics(word) {
      return word;
    }
    var runes := AzCase.ToLower(word);
    var positions := ScanPositions(runes);
    if |positions| == 0 {
      return word;
    }
    if KnownStem(d, runes) {
      return word;
    }
    if |positions| > MaxSubstitutablePositions {
      return word;
    }
    var unique, matchMask := SearchMasks(d, runes, positions);
    if !unique {
      return word;
    }
    var restored := Rebuild(runes, positions, matchMask);
    return RestoreCase(word, restored);
  }
}
