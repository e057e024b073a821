/**
 * Composition of the decomposed forms of the six Azerbaijani letters with
 * diacritics (ö ü ç ş ğ and İ). Only these base + combining-mark pairs are
 * composed; this is not full Unicode NFC.
 */
module AzCaseNfc {
  import opened Wrappers

  const Breve: char := '\U{0306}'
  const DotAbove: char := '\U{0307}'
  const Diaeresis: char := '\U{0308}'
  const Cedilla: char := '\U{0327}'

  predicate IsCombiner(c: char) { c == Breve || c == DotAbove || c == Diaeresis || c == Cedilla }

  /** The replacer's table: the precomposed rune for a base followed by a mark, if listed. */
  function Composed(base: char, mark: char): Option<char> {
    if mark == Diaeresis then
      (if base == 'o' then Some('ö') else if base == 'u' then Some('ü')
       else if base == 'O' then Some('Ö') else if base == 'U' then Some('Ü') else None)
    else if mark == Cedilla then
      (if base == 'c' then Some('ç') else if base == 's' then Some('ş')
       else if base == 'C' then Some('Ç') else if base == 'S' then Some('Ş') else None)
    else if mark == Breve then
      (if base == 'g' then Some('ğ') else if base == 'G' then Some('Ğ') else None)
    else if mark == DotAbove then
      (if base == 'I' then Some('İ') else None)
    else None
  }

  /** A composed rune is never itself a base of the table nor a combining mark. */
  lemma ComposedIsFinal(base: char, mark: char)
    requires Composed(base, mark).Some?
    ensures IsCombiner(mark)
    ensures !IsCombiner(Composed(base, mark).value)
    ensures forall m :: Composed(Composed(base, mark).value, m).None?
  {
  }

  /** No listed pair starts at position i. */
  predicate NoPairAt(s: string, i: nat) { i + 1 < |s| ==> Composed(s[i], s[i + 1]).None? }
  predicate NoPair(s: string) { forall i :: 0 <= i < |s| ==> NoPairAt(s, i) }

  /** strings.Replacer.Replace, scanning left to right and replacing each listed pair. */
  function Replace(s: string): (r: string)
    ensures |r| <= |s|
    ensures s != [] ==> r != [] && r[0] == (if |s| > 1 && Composed(s[0], s[1]).Some? then Composed(s[0], s[1]).value else s[0])
    decreases |s|
  {
    if |s| >= 2 && Composed(s[0], s[1]).Some? then [Composed(s[0], s[1]).value] + Replace(s[2..])
    else if s == [] then []
    else [s[0]] + Replace(s[1..])
  }

  /** The output of Replace holds no listed pair. */
  lemma {:induction false} ReplaceNoPair(s: string)
    ensures NoPair(Replace(s))
    decreases |s|
  {
    if |s| >= 2 && Composed(s[0], s[1]).Some? {
      ReplaceNoPair(s[2..]);
      ComposedIsFinal(s[0], s[1]);
      var r := Replace(s);
      assert r[1..] == Replace(s[2..]);
      forall i | 0 <= i < |r| ensures NoPairAt(r, i) {
        if i > 0 { assert NoPairAt(r[1..], i - 1); }
      }
    } else if s != [] {
      ReplaceNoPair(s[1..]);
      var r := Replace(s);
      var t := Replace(s[1..]);
      assert r[1..] == t;
      forall i | 0 <= i < |r| ensures NoPairAt(r, i) {
        if i > 0 {
          assert NoPairAt(t, i - 1);
        } else if |r| > 1 {
          if |s[1..]| > 1 && Composed(s[1], s[2]).Some? {
            ComposedIsFinal(s[1], s[2]);
          }
        }
      }
    }
  }

  /** A string with no listed pair is left as is. */
  lemma {:induction false} ReplaceFixesPairFree(s: string)
    requires NoPair(s)
    ensures Replace(s) == s
    decreases |s|
  {
    if s != [] {
      assert NoPairAt(s, 0);
      var t := s[1..];
      assert NoPair(t) by {
        forall i | 0 <= i < |t| ensures NoPairAt(t, i) { assert NoPairAt(s, i + 1); }
      }
      ReplaceFixesPairFree(t);
    }
  }

  /** A string without combining marks has no listed pair. */
  lemma NoCombinerNoPair(s: string)
    requires forall i :: 0 <= i < |s| ==> !IsCombiner(s[i])
    ensures NoPair(s)
  {
    forall i | 0 <= i < |s| ensures NoPairAt(s, i) {
      if i + 1 < |s| && Composed(s[i], s[i + 1]).Some? { ComposedIsFinal(s[i], s[i + 1]); }
    }
  }

  /** Fast path for text without marks; otherwise the single-pass replacer. */
  function ComposeNFC(s: string): (r: string)
    ensures (forall i :: 0 <= i < |s| ==> !IsCombiner(s[i])) ==> r == s
    ensures NoPair(r)
  {
    var hasCombiner := exists i :: 0 <= i < |s| && IsCombiner(s[i]);
    if !hasCombiner then NoCombinerNoPair(s); s
    else ReplaceNoPair(s); Replace(s)
  }

  /** Each listed pair alone becomes its precomposed rune; an unlisted mark after a base stays. */
  lemma PairComposes(base: char, mark: char)
    ensures Composed(base, mark).Some? ==> ComposeNFC([base, mark]) == [Composed(base, mark).value]
    ensures Composed(base, mark).None? ==> ComposeNFC([base, mark]) == [base, mark]
  {
    var s := [base, mark];
    if Composed(base, mark).Some? {
      assert IsCombiner(s[1]);
      assert s[2..] == [];
    } else {
      assert s[1..] == [mark] && s[1..][1..] == [];
      if exists i :: 0 <= i < |s| && IsCombiner(s[i]) {
        assert Replace(s) == [base] + Replace([mark]);
      }
    }
  }

  /** Composing twice is the same as composing once. */
  lemma ComposeIdempotent(s: string)
    ensures ComposeNFC(ComposeNFC(s)) == ComposeNFC(s)
  {
    var r := ComposeNFC(s);
    if exists i :: 0 <= i < |r| && IsCombiner(r[i]) {
      ReplaceFixesPairFree(r);
    }
  }
}
