/**
 * Text-level diacritic restoration: Normalize composes the text, tokenizes
 * it and restores every Word token; NormalizeWord does the same for one
 * word. A word token is split at its hyphens, or cut at its first usable
 * apostrophe, before the single-word restoration runs on its parts.
 */
module Normalize {
  import Unicode
  import AzCase
  import AzCaseNfc
  import Morph
  import opened MorphDict
  import opened TokenizerTypes
  import Tokenizer
  import Sc = TokenizerScanner
  import opened Wrappers
  import opened NormalizeDiacritics

  /** Texts longer than this many bytes are returned unchanged. */
  const MaxInputBytes: nat := 0x10_0000
  /** Hyphenated words with more parts than this are returned unchanged. */
  const MaxHyphenParts: nat := 8

  /**
   * The source's apostrophe test at rune k: not the first rune, one of the
   * three apostrophes, and its byte offset below the word's byte length less one.
   */
  predicate CutsAt(word: string, k: nat)
    requires k < |word|
  {
    k > 0 && Unicode.IsApostrophe(word[k]) && Unicode.ByteLen(word[..k]) < Unicode.ByteLen(word) - 1
  }

  /**
   * In runes: the byte test fails only for an ASCII apostrophe in last place;
   * a trailing U+2019 or U+02BC, being several bytes long, still cuts.
   */
  lemma CutsAtRunes(word: string, k: nat)
    requires k < |word|
    ensures CutsAt(word, k) <==>
      k > 0 && Unicode.IsApostrophe(word[k]) && (k < |word| - 1 || word[k] != '\'')
  {
    assert word == word[..k] + [word[k]] + word[k + 1..];
    Unicode.ByteLenAppend(word[..k] + [word[k]], word[k + 1..]);
    Unicode.ByteLenAppend(word[..k], [word[k]]);
    assert Unicode.ByteLen([word[k]]) == Unicode.RuneLen(word[k]) by {
      assert [word[k]][..0] == [];
    }
    Unicode.ByteLenBounds(word[k + 1..]);
  }

  /** The first rune at or after k where the word is cut, or -1. */
  function FirstCut(word: string, k: nat): (i: int)
    requires k <= |word|
    ensures i == -1 || (k <= i < |word| && CutsAt(word, i))
    ensures forall j :: k <= j < |word| && (i == -1 || j < i) ==> !CutsAt(word, j)
    decreases |word| - k
  {
    if k == |word| then -1 else if CutsAt(word, k) then k else FirstCut(word, k + 1)
  }

  /** Each non-empty part restored, empty parts kept. */
  function RestoreParts(d: Dict, parts: seq<string>): (r: seq<string>)
    ensures |r| == |parts|
    ensures forall i :: 0 <= i < |parts| ==> r[i] == (if parts[i] == "" then "" else Restored(d, parts[i]))
  {
    seq(|parts|, i requires 0 <= i < |parts| => if parts[i] == "" then "" else Restored(d, parts[i]))
  }

  /** restoreHyphenated: split at '-', restore each part, rejoin; one part or more than eight: unchanged. */
  function RestoreHyphenated(d: Dict, word: string): (r: string)
    ensures var n := |Unicode.Split(word, '-')|; n <= 1 || n > MaxHyphenParts ==> r == word
  {
    var parts := Unicode.Split(word, '-');
    if |parts| <= 1 || |parts| > MaxHyphenParts then word
    else Unicode.Join(RestoreParts(d, parts), "-")
  }

  /** Restoration never introduces a hyphen. */
  lemma RestoredNoHyphen(d: Dict, part: string)
    requires '-' !in part
    ensures '-' !in Restored(d, part)
  {
    var r := Restored(d, part);
    if r != part {
      RestoredChange(d, part);
      var rs := AzCase.ToLower(part);
      forall i | 0 <= i < |part| ensures r[i] != '-' {
        assert part[i] != '-';
        CaseKeepsNonHyphen(part[i], rs[i]);
        if HasDiacriticAlt(rs[i]) { CaseKeepsNonHyphen(part[i], AsciiToDiacritic(rs[i])); }
      }
    }
  }

  /** Lower-casing and upper-casing map no rune but '-' itself to '-'. */
  lemma CaseKeepsNonHyphen(o: char, x: char)
    requires o != '-' && (x == AzCase.Lower(o) || x == AsciiToDiacritic(AzCase.Lower(o)))
    ensures CaseOf(o, x) != '-'
  {
  }

  /**
   * A word of two to eight hyphen parts keeps its hyphens: splitting the
   * result gives back the parts, each non-empty one restored on its own.
   */
  lemma RestoreHyphenatedParts(d: Dict, word: string)
    requires 1 < |Unicode.Split(word, '-')| <= MaxHyphenParts
    ensures Unicode.Split(RestoreHyphenated(d, word), '-') == RestoreParts(d, Unicode.Split(word, '-'))
  {
    var parts := Unicode.Split(word, '-');
    var rs := RestoreParts(d, parts);
    forall k | 0 <= k < |rs| ensures '-' !in rs[k] {
      if parts[k] != "" { RestoredNoHyphen(d, parts[k]); }
    }
    Morph.SplitJoin(rs, '-');
  }

  /**
   * restoreWordToken: a hyphen that is neither first nor last sends the word
   * to RestoreHyphenated; otherwise a usable apostrophe restores only the
   * stem before it and keeps the rest; otherwise the whole word is restored.
   */
  function RestoreWordToken(d: Dict, word: string): (r: string)
  {
    var idx := Morph.IndexOf(word, '-');
    if idx > 0 && idx < |word| - 1 then RestoreHyphenated(d, word)
    else
      var cut := FirstCut(word, 0);
      if cut >= 0 then Restored(d, word[..cut]) + word[cut..]
      else Restored(d, word)
  }

  /**
   * Without a usable hyphen, the token keeps its rune count, and everything
   * from the first usable apostrophe on is kept as is.
   */
  lemma RestoreWordTokenShape(d: Dict, word: string)
    requires var idx := Morph.IndexOf(word, '-'); !(idx > 0 && idx < |word| - 1)
    ensures |RestoreWordToken(d, word)| == |word|
    ensures var cut := FirstCut(word, 0);
      cut >= 0 ==> (RestoreWordToken(d, word)[cut..] == word[cut..]
        && RestoreWordToken(d, word)[..cut] == Restored(d, word[..cut]))
  {
  }

  /** NormalizeWord: "" as is; else composed, and restored unless it is over 256 bytes. */
  function NormalizeWord(d: Dict, word: string): (r: string)
    ensures word == "" ==> r == ""
    ensures word != "" && Unicode.ByteLen(AzCaseNfc.ComposeNFC(word)) > MaxWordBytes ==> r == AzCaseNfc.ComposeNFC(word)
  {
    if word == "" then word
    else
      var w := AzCaseNfc.ComposeNFC(word);
      if Unicode.ByteLen(w) > MaxWordBytes then w else RestoreWordToken(d, w)
  }

  /** One token's contribution: a Word token restored, any other token verbatim. */
  function RestoreToken(d: Dict, t: Token): string {
    if t.ttype == Word then RestoreWordToken(d, t.text) else t.text
  }

  /** The contributions of the tokens, concatenated. */
  function RestoreTokens(d: Dict, ts: seq<Token>): string {
    if ts == [] then "" else RestoreTokens(d, ts[..|ts| - 1]) + RestoreToken(d, ts[|ts| - 1])
  }

  /** Tokens every one of which restores to itself reassemble into their own concatenation. */
  lemma {:induction false} RestoreTokensFixed(d: Dict, ts: seq<Token>)
    requires forall k :: 0 <= k < |ts| ==> RestoreToken(d, ts[k]) == ts[k].text
    ensures RestoreTokens(d, ts) == Concat(ts)
  {
    if ts != [] {
      RestoreTokensFixed(d, ts[..|ts| - 1]);
    }
  }

  /** The loop over the tokens: words are restored, every other token is copied. */
  method RestoreAll(d: Dict, toks: seq<Token>) returns (r: string)
    ensures r == RestoreTokens(d, toks)
  {
    r := "";
    var i := 0;
    while i < |toks|
      invariant 0 <= i <= |toks|
      invariant r == RestoreTokens(d, toks[..i])
    {
      assert toks[..i + 1][..i] == toks[..i];
      if toks[i].ttype == Word {
        r := r + RestoreWordToken(d, toks[i].text);
      } else {
        r := r + toks[i].text;
      }
      i := i + 1;
    }
    assert toks[..|toks|] == toks;
  }

  /**
   * Normalize: "" and input over 1 MiB unchanged; otherwise the composed text
   * is tokenized and each token's contribution appended in order, so a text
   * without Word tokens comes back composed and otherwise unchanged.
   */
  method Normalize(d: Dict, s: string) returns (r: string, ghost tokens: seq<Token>)
    ensures s == "" || Unicode.ByteLen(s) > MaxInputBytes ==> r == s
    ensures s != "" && Unicode.ByteLen(s) <= MaxInputBytes ==>
      var c := AzCaseNfc.ComposeNFC(s);
      tokens == Sc.WordTokensOf(c) && Tiles(tokens, c, |c|) && Sc.Classified(tokens) && r == RestoreTokens(d, tokens)
      && ((forall k :: 0 <= k < |tokens| ==> tokens[k].ttype != Word) ==> r == c)
  {
    tokens := [];
    if s == "" || Unicode.ByteLen(s) > MaxInputBytes {
      return s, tokens;
    }
    var c := AzCaseNfc.ComposeNFC(s);
    var wt := Tokenizer.WordTokens(c);
    if wt.None? {
      return c, tokens;
    }
    var toks := wt.value;
    tokens := toks;
    if |toks| == 0 {
      return c, tokens;
    }
    r := RestoreAll(d, toks);
    if forall k :: 0 <= k < |tokens| ==> tokens[k].ttype != Word {
      RestoreTokensFixed(d, tokens);
      Tokenizer.Reconstructs(tokens, c);
    }
  }
}
