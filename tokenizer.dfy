/**
 * The tokenizer's public entry points: WordTokens and SentenceTokens return
 * nil (None) for the empty string and the scanner's tokens otherwise; Words
 * keeps the texts of the Word tokens and Sentences the texts of the
 * sentence tokens.
 */
module Tokenizer {
  import opened Wrappers
  import Unicode
  import opened TokenizerTypes
  import Sc = TokenizerScanner
  import Se = TokenizerSentence

  /** A tiling of the whole of s concatenates back to s. */
  lemma Reconstructs(ts: seq<Token>, s: string)
    requires Tiles(ts, s, |s|)
    ensures Concat(ts) == s
  {
    TilesConcat(ts, s, |s|);
    assert s[..|s|] == s;
  }

  /** WordTokens: nil for "", else the scanner's tokens of s, which tile it. */
  method WordTokens(s: string) returns (r: Option<seq<Token>>)
    ensures r.None? <==> s == ""
    ensures r.Some? ==> r.value == Sc.WordTokensOf(s)
    ensures r.Some? ==> Tiles(r.value, s, |s|) && Concat(r.value) == s && Sc.Classified(r.value)
  {
    if s == "" {
      return None;
    }
    var tokens := Sc.Scan(s);
    Reconstructs(tokens, s);
    return Some(tokens);
  }

  /** SentenceTokens: nil for "", else the sentence split of s. */
  method SentenceTokens(s: string) returns (r: Option<seq<Token>>)
    ensures r.None? <==> s == ""
    ensures r.Some? ==> r.value == Se.SentencesOf(s)
    ensures r.Some? ==> Se.SentenceSplit(s, r.value) && Concat(r.value) == s
  {
    if s == "" {
      return None;
    }
    var tokens := Se.SentenceTokens(s);
    Reconstructs(tokens, s);
    return Some(tokens);
  }

  /** The texts of the Word tokens of ts, in order. */
  function WordTexts(ts: seq<Token>): (ws: seq<string>)
    ensures |ws| <= |ts|
  {
    if ts == [] then []
    else
      var last := ts[|ts| - 1];
      WordTexts(ts[..|ts| - 1]) + (if last.ttype == Word then [last.text] else [])
  }

  /** Filtering distributes over concatenation, so the order of the tokens is kept. */
  lemma {:induction false} WordTextsAppend(a: seq<Token>, b: seq<Token>)
    ensures WordTexts(a + b) == WordTexts(a) + WordTexts(b)
    decreases |b|
  {
    if b != [] {
      var b' := b[..|b| - 1];
      assert (a + b)[..|a + b| - 1] == a + b';
      WordTextsAppend(a, b');
    } else {
      assert a + b == a;
    }
  }

  /**
   * Exactly the Word tokens' texts: every text kept comes from a Word token,
   * and every Word token's text is kept.
   */
  lemma {:induction false} WordTextsExactly(ts: seq<Token>)
    ensures forall w :: w in WordTexts(ts) ==> exists k :: 0 <= k < |ts| && ts[k].ttype == Word && ts[k].text == w
    ensures forall k :: 0 <= k < |ts| && ts[k].ttype == Word ==> ts[k].text in WordTexts(ts)
    decreases |ts|
  {
    if ts != [] {
      var init := ts[..|ts| - 1];
      WordTextsExactly(init);
      forall w | w in WordTexts(ts) ensures exists k :: 0 <= k < |ts| && ts[k].ttype == Word && ts[k].text == w {
        if w in WordTexts(init) {
          var k :| 0 <= k < |init| && init[k].ttype == Word && init[k].text == w;
          assert ts[k] == init[k];
        } else {
          assert ts[|ts| - 1].text == w;
        }
      }
      forall k | 0 <= k < |ts| && ts[k].ttype == Word ensures ts[k].text in WordTexts(ts) {
        if k < |init| {
          assert init[k] == ts[k];
        }
      }
    }
  }

  /** A token list without Word tokens yields no words. */
  lemma {:induction false} WordTextsNone(ts: seq<Token>)
    requires forall k :: 0 <= k < |ts| ==> ts[k].ttype != Word
    ensures WordTexts(ts) == []
    decreases |ts|
  {
    if ts != [] {
      WordTextsNone(ts[..|ts| - 1]);
    }
  }

  /** words are the texts of the Word tokens the scanner finds in s; none for "". */
  predicate WordsOf(s: string, words: seq<string>) {
    words == WordTexts(Sc.WordTokensOf(s))
  }

  /** A run of ASCII letters is its own single word. */
  lemma LettersAreOneWord(s: string)
    requires s != [] && forall k :: 0 <= k < |s| ==> Unicode.IsAsciiLetter(s[k])
    ensures WordsOf(s, [s])
  {
    Sc.LettersAreOneWord(s);
    var ts := [Token(s, 0, |s|, Word)];
    assert ts[..0] == [];
  }

  /**
   * Words: nil for "", else the texts of the Word tokens of the scanner's
   * tokens of s, in order.
   */
  method Words(s: string) returns (r: Option<seq<string>>)
    ensures r.None? <==> s == ""
    ensures r.Some? ==> r.value == WordTexts(Sc.WordTokensOf(s))
    ensures WordsOf(s, if r.Some? then r.value else [])
  {
    if s == "" {
      assert Sc.WordTokensOf(s) == [];
      return None;
    }
    var tokens := Sc.Scan(s);
    var words: seq<string> := [];
    for i := 0 to |tokens|
      invariant words == WordTexts(tokens[..i])
    {
      assert tokens[..i + 1][..i] == tokens[..i];
      if tokens[i].ttype == Word {
        words := words + [tokens[i].text];
      }
    }
    assert tokens[..|tokens|] == tokens;
    return Some(words);
  }

  /** ws holds the tokens' texts, one for one and in order. */
  predicate SameTexts(ws: seq<string>, ts: seq<Token>) {
    |ws| == |ts| && forall i :: 0 <= i < |ts| ==> ws[i] == ts[i].text
  }

  /** Sentences: nil for "", else one string per sentence token, in order. */
  method Sentences(s: string) returns (r: Option<seq<string>>)
    ensures r.None? <==> s == ""
    ensures r.Some? ==> SameTexts(r.value, Se.SentencesOf(s))
    ensures r.Some? ==> exists ts: seq<Token> :: Se.SentenceSplit(s, ts) && SameTexts(r.value, ts)
  {
    if s == "" {
      return None;
    }
    var tokens := Se.SentenceTokens(s);
    var sentences := new string[|tokens|];
    for i := 0 to |tokens|
      invariant forall k :: 0 <= k < i ==> sentences[k] == tokens[k].text
    {
      sentences[i] := tokens[i].text;
    }
    assert SameTexts(sentences[..], tokens);
    return Some(sentences[..]);
  }
}
