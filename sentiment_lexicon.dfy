/**
 * Lexicon-based sentiment: the lexicon file's parser, and the analysis
 * that stems every word, looks the stem up in the lexicon, flips the
 * score of a word whose next meaningful word is the copula "deyil", and
 * averages the scores.
 *
 * Scores are reals here (float64 in the program); the lexicon file's
 * number syntax is read by a parameter standing for strconv.ParseFloat.
 */
module SentimentLexicon {
  import opened Wrappers
  import Unicode
  import AzCase
  import AzCaseNfc
  import Morph
  import MorphDict
  import Normalize
  import Tokenizer

  const MaxInputBytes: nat := 0x10_0000

  /** The Azerbaijani copula that negates a predicate. */
  const NegationWord: string := "deyil"

  // ---------------------------------------------------------------------
  // The lexicon file: "stem<TAB>score" lines
  // ---------------------------------------------------------------------

  /** strings.SplitN(line, "\t", 2): the text before the first tab and after it, if there is a tab. */
  function CutTab(line: string): (r: Option<(string, string)>)
    ensures r.None? <==> '\t' !in line
    ensures r.Some? ==> r.value.0 + "\t" + r.value.1 == line && '\t' !in r.value.0
  {
    if line == [] then None
    else if line[0] == '\t' then Some(([], line[1..]))
    else
      match CutTab(line[1..])
      case None => None
      case Some(p) => Some(([line[0]] + p.0, p.1))
  }

  /** The entry one line of the file gives, if any: its trimmed stem and its score. */
  function Entry(line: string, parseFloat: string -> Option<real>): Option<(string, real)> {
    var t := Unicode.TrimSpace(line);
    if t == "" || t[0] == '#' then None
    else
      match CutTab(t)
      case None => None
      case Some(p) =>
        match parseFloat(Unicode.TrimSpace(p.1))
        case None => None
        case Some(v) => Some((Unicode.TrimSpace(p.0), v))
  }

  /** Blank lines, '#' comments, lines without a tab and unparsable scores give no entry. */
  lemma EntrySkips(line: string, parseFloat: string -> Option<real>)
    ensures Entry(line, parseFloat).Some? <==>
      var t := Unicode.TrimSpace(line);
      && t != "" && t[0] != '#' && '\t' in t
      && parseFloat(Unicode.TrimSpace(CutTab(t).value.1)).Some?
  {
  }

  /** The entries of the lines, one per line. */
  function Entries(lines: seq<string>, parseFloat: string -> Option<real>): (es: seq<Option<(string, real)>>)
    ensures |es| == |lines| && forall i :: 0 <= i < |lines| ==> es[i] == Entry(lines[i], parseFloat)
  {
    seq(|lines|, i requires 0 <= i < |lines| => Entry(lines[i], parseFloat))
  }

  /** The map the entries give, each in turn: a later entry for a stem overrides an earlier one. */
  function LexiconOf(es: seq<Option<(string, real)>>): map<string, real> {
    if es == [] then map[]
    else
      var m := LexiconOf(es[..|es| - 1]);
      match es[|es| - 1]
      case None => m
      case Some(e) => m[e.0 := e.1]
  }

  /** Entry i is one for stem. */
  predicate EntryAt(es: seq<Option<(string, real)>>, i: int, stem: string) {
    0 <= i < |es| && es[i].Some? && es[i].value.0 == stem
  }

  /** A stem is in the lexicon iff some line gives an entry for it. */
  lemma {:induction false} LexiconHas(es: seq<Option<(string, real)>>, stem: string)
    ensures stem in LexiconOf(es) <==> exists i :: EntryAt(es, i, stem)
    decreases |es|
  {
    if es != [] {
      var n := |es| - 1;
      var init := es[..n];
      LexiconHas(init, stem);
      if stem in LexiconOf(es) && !EntryAt(es, n, stem) {
        var i :| EntryAt(init, i, stem);
        assert EntryAt(es, i, stem);
      }
      if exists i :: EntryAt(es, i, stem) {
        var i :| EntryAt(es, i, stem);
        if i < n {
          assert EntryAt(init, i, stem);
        }
      }
    }
  }

  /** A stem's score is the one on the last line that gives an entry for it. */
  lemma {:induction false} LexiconLast(es: seq<Option<(string, real)>>, stem: string, i: int)
    requires EntryAt(es, i, stem)
    requires forall j :: i < j < |es| ==> !EntryAt(es, j, stem)
    ensures stem in LexiconOf(es) && LexiconOf(es)[stem] == es[i].value.1
    decreases |es|
  {
    var n := |es| - 1;
    if i < n {
      var init := es[..n];
      assert !EntryAt(es, n, stem);
      forall j | i < j < n ensures !EntryAt(init, j, stem) {
        assert !EntryAt(es, j, stem);
      }
      LexiconLast(init, stem, i);
    }
  }

  lemma LexiconStep(es: seq<Option<(string, real)>>, i: nat)
    requires i < |es|
    ensures LexiconOf(es[..i + 1]) == match es[i] case None => LexiconOf(es[..i]) case Some(e) => LexiconOf(es[..i])[e.0 := e.1]
  {
    assert es[..i + 1][..i] == es[..i];
  }

  /** parseLexicon: the lexicon the newline-separated lines of the file give. */
  method ParseLexicon(raw: string, parseFloat: string -> Option<real>) returns (m: map<string, real>)
    ensures m == LexiconOf(Entries(Unicode.Split(raw, '\n'), parseFloat))
  {
    var lines := Unicode.Split(raw, '\n');
    ghost var es := Entries(lines, parseFloat);
    m := map[];
    for i := 0 to |lines|
      invariant m == LexiconOf(es[..i])
    {
      LexiconStep(es, i);
      var line := Unicode.TrimSpace(lines[i]);
      if line == "" || line[0] == '#' {
        assert es[i] == None;
        continue;
      }
      var parts := CutTab(line);
      if parts.None? {
        assert es[i] == None;
        continue;
      }
      var stem := Unicode.TrimSpace(parts.value.0);
      var score := parseFloat(Unicode.TrimSpace(parts.value.1));
      if score.None? {
        assert es[i] == None;
        continue;
      }
      assert es[i] == Some((stem, score.value));
      m := m[stem := score.value];
    }
    assert es[..|lines|] == es;
  }

  // ---------------------------------------------------------------------
  // Analysis
  // ---------------------------------------------------------------------

  /** The polarity; the program encodes it as -1, 0 and 1. */
  datatype Sentiment = Negative | Neutral | Positive

  datatype Result = Result(sentiment: Sentiment, score: real, positive: nat, negative: nat, total: nat)

  /** Go's zero Result. */
  const Zero := Result(Neutral, 0.0, 0, 0, 0)

  /** A word token with no letter (digits, symbols) takes no part in the analysis. */
  predicate NonLinguistic(word: string) {
    forall i :: 0 <= i < |word| ==> !Unicode.IsLetter(word[i])
  }

  /** isNonLinguistic. */
  method IsNonLinguistic(word: string) returns (b: bool)
    ensures b <==> NonLinguistic(word)
  {
    for i := 0 to |word|
      invariant forall k :: 0 <= k < i ==> !Unicode.IsLetter(word[k])
    {
      if Unicode.IsLetter(word[i]) {
        return false;
      }
    }
    return true;
  }

  /** The lowercase stem of the word with its diacritics restored. */
  function StemWord(d: MorphDict.Dict, word: string): string {
    AzCase.ToLower(Morph.Stem(d, Normalize.NormalizeWord(d, word)))
  }

  /** The stem analyze looks up for a word: "" for a non-linguistic word. */
  function StemOf(d: MorphDict.Dict, word: string): string {
    if NonLinguistic(word) then "" else StemWord(d, word)
  }

  /** The first non-empty stem at position j or later. */
  function NextStem(stems: seq<string>, j: nat): (r: Option<string>)
    ensures r.Some? ==> j < |stems| && r.value != "" && r.value in stems[j..]
    decreases |stems| - j
  {
    if j >= |stems| then None
    else if stems[j] == "" then NextStem(stems, j + 1)
    else Some(stems[j])
  }

  /** The next meaningful word after idx is the negation word. */
  predicate Negated(stems: seq<string>, idx: nat) {
    NextStem(stems, idx + 1) == Some(NegationWord)
  }

  /**
   * Only the next non-empty stem decides: the word at idx is negated iff
   * some later stem is the negation word and every stem between is empty.
   */
  lemma {:induction false} NegatedIff(stems: seq<string>, idx: nat, j: nat)
    requires idx < j
    requires forall k :: idx < k < j && k < |stems| ==> stems[k] == ""
    ensures NextStem(stems, j) == Some(NegationWord) <==>
      exists p :: j <= p < |stems| && stems[p] == NegationWord && forall k :: idx < k < p ==> stems[k] == ""
    decreases |stems| - j
  {
    if j < |stems| && stems[j] == "" {
      NegatedIff(stems, idx, j + 1);
      if exists p :: j <= p < |stems| && stems[p] == NegationWord && forall k :: idx < k < p ==> stems[k] == "" {
        var p :| j <= p < |stems| && stems[p] == NegationWord && forall k :: idx < k < p ==> stems[k] == "";
        assert p != j;
      }
    } else if j < |stems| {
      if exists p :: j <= p < |stems| && stems[p] == NegationWord && forall k :: idx < k < p ==> stems[k] == "" {
        var p :| j <= p < |stems| && stems[p] == NegationWord && forall k :: idx < k < p ==> stems[k] == "";
      }
    }
  }

  /** followedByNeg. */
  method FollowedByNeg(stems: seq<string>, idx: nat) returns (b: bool)
    ensures b <==> Negated(stems, idx)
  {
    var j := idx + 1;
    while j < |stems|
      invariant idx + 1 <= j
      invariant NextStem(stems, j) == NextStem(stems, idx + 1)
      decreases |stems| - j
    {
      if stems[j] == "" {
        j := j + 1;
        continue;
      }
      return stems[j] == NegationWord;
    }
    return false;
  }

  /**
   * The score word i adds, if any: none for a non-linguistic word, the
   * negation word itself or a stem not in the lexicon; else the stem's
   * score, sign-flipped when the word is negated.
   */
  function WordScore(lex: map<string, real>, words: seq<string>, stems: seq<string>, i: nat): Option<real>
    requires |stems| == |words| && i < |words|
  {
    if NonLinguistic(words[i]) || stems[i] == NegationWord || stems[i] !in lex then None
    else Some(if Negated(stems, i) then -lex[stems[i]] else lex[stems[i]])
  }

  /** The four counters of the scoring loop. */
  datatype Tally = Tally(sum: real, scored: nat, pos: nat, neg: nat)

  /** The counters after the first n words. */
  function TallyOf(lex: map<string, real>, words: seq<string>, stems: seq<string>, n: nat): Tally
    requires |stems| == |words| && n <= |words|
  {
    if n == 0 then Tally(0.0, 0, 0, 0)
    else
      var t := TallyOf(lex, words, stems, n - 1);
      match WordScore(lex, words, stems, n - 1)
      case None => t
      case Some(s) => Tally(t.sum + s, t.scored + 1, t.pos + (if s > 0.0 then 1 else 0), t.neg + (if s < 0.0 then 1 else 0))
  }

  /**
   * Every word counted positive or negative was scored, at most every word
   * was scored, and with scores within [-1, 1] the sum is bounded by the
   * number of scored words.
   */
  lemma {:induction false} TallyBounds(lex: map<string, real>, words: seq<string>, stems: seq<string>, n: nat)
    requires |stems| == |words| && n <= |words|
    ensures var t := TallyOf(lex, words, stems, n); t.pos + t.neg <= t.scored <= n
    ensures (forall s :: s in lex ==> -1.0 <= lex[s] <= 1.0) ==>
      var t := TallyOf(lex, words, stems, n); -(t.scored as real) <= t.sum <= t.scored as real
  {
    if n > 0 {
      TallyBounds(lex, words, stems, n - 1);
    }
  }

  /** The result the counters give for total words: the average score and its sign. */
  function Outcome(t: Tally, total: nat): (r: Result)
    ensures t.scored == 0 ==> r == Result(Neutral, 0.0, 0, 0, total)
    ensures r.sentiment == Positive <==> r.score > 0.0
    ensures r.sentiment == Negative <==> r.score < 0.0
    ensures r.sentiment == Neutral <==> r.score == 0.0
    ensures t.scored > 0 ==> r.score * (t.scored as real) == t.sum
  {
    if t.scored == 0 then Result(Neutral, 0.0, 0, 0, total)
    else
      var avg := t.sum / t.scored as real;
      Result(if avg > 0.0 then Positive else if avg < 0.0 then Negative else Neutral, avg, t.pos, t.neg, total)
  }

  /** What analyze returns for the words and their stems. */
  function Analysis(lex: map<string, real>, words: seq<string>, stems: seq<string>): Result
    requires |stems| == |words|
  {
    if words == [] then Zero else Outcome(TallyOf(lex, words, stems, |words|), |words|)
  }

  /** Positive and negative words together never outnumber the words analyzed. */
  lemma AnalysisCounts(lex: map<string, real>, words: seq<string>, stems: seq<string>)
    requires |stems| == |words|
    ensures var r := Analysis(lex, words, stems); r.positive + r.negative <= r.total == |words|
  {
    TallyBounds(lex, words, stems, |words|);
  }

  /** With lexicon scores within [-1, 1] the score is within [-1, 1]. */
  lemma AnalysisScoreRange(lex: map<string, real>, words: seq<string>, stems: seq<string>)
    requires |stems| == |words|
    requires forall s :: s in lex ==> -1.0 <= lex[s] <= 1.0
    ensures -1.0 <= Analysis(lex, words, stems).score <= 1.0
  {
    if words != [] {
      var t := TallyOf(lex, words, stems, |words|);
      TallyBounds(lex, words, stems, |words|);
      var r := Outcome(t, |words|);
      if t.scored > 0 {
        AverageBound(r.score, t.scored as real, t.sum);
      }
    }
  }

  lemma AverageBound(a: real, k: real, s: real)
    requires k > 0.0 && a * k == s && -k <= s <= k
    ensures -1.0 <= a <= 1.0
  {
  }

  /** A word whose next meaningful word is "deyil" adds the negation of its lexicon score. */
  lemma NegationFlips(lex: map<string, real>, words: seq<string>, stems: seq<string>, i: nat)
    requires |stems| == |words| && i + 1 < |words|
    requires !NonLinguistic(words[i]) && stems[i] != NegationWord && stems[i] in lex
    requires stems[i + 1] == NegationWord
    ensures WordScore(lex, words, stems, i) == Some(-lex[stems[i]])
  {
  }

  /** analyze: compose, split into words, stem, then score and average. */
  method AnalyzeText(d: MorphDict.Dict, lex: map<string, real>, text: string)
    returns (r: Result, ghost words: seq<string>, ghost stems: seq<string>)
    ensures Tokenizer.WordsOf(AzCaseNfc.ComposeNFC(text), words)
    ensures stems == StemsOf(d, words)
    ensures r == Analysis(lex, words, stems)
  {
    var t := AzCaseNfc.ComposeNFC(text);
    var ws := Tokenizer.Words(t);
    var toks := if ws.Some? then ws.value else [];
    words, stems := toks, [];
    if |toks| == 0 {
      return Zero, words, stems;
    }
    var ss := StemWords(d, toks);
    stems := ss;
    var tally := ScoreWords(lex, toks, ss);
    r := Outcome(tally, |toks|);
  }

  /** The stem of each word, in order. */
  function StemsOf(d: MorphDict.Dict, ws: seq<string>): (ss: seq<string>)
    ensures |ss| == |ws|
  {
    if ws == [] then [] else StemsOf(d, ws[..|ws| - 1]) + [StemOf(d, ws[|ws| - 1])]
  }

  lemma {:induction false} StemsOfAt(d: MorphDict.Dict, ws: seq<string>, k: nat)
    requires k < |ws|
    ensures StemsOf(d, ws)[k] == StemOf(d, ws[k])
    decreases |ws|
  {
    if k < |ws| - 1 {
      StemsOfAt(d, ws[..|ws| - 1], k);
    }
  }

  /** analyze's first loop: the stem of every word, "" for the non-linguistic ones. */
  method StemWords(d: MorphDict.Dict, toks: seq<string>) returns (ss: seq<string>)
    ensures ss == StemsOf(d, toks)
  {
    ss := [];
    for i := 0 to |toks|
      invariant ss == StemsOf(d, toks[..i])
    {
      var skip := IsNonLinguistic(toks[i]);
      var stem := if skip then "" else StemWord(d, toks[i]);
      StemOfIs(d, toks[i], skip, stem);
      assert toks[..i + 1][..i] == toks[..i];
      ss := ss + [stem];
    }
    assert toks[..|toks|] == toks;
  }

  lemma StemOfIs(d: MorphDict.Dict, w: string, skip: bool, stem: string)
    requires skip <==> NonLinguistic(w)
    requires stem == if skip then "" else StemWord(d, w)
    ensures stem == StemOf(d, w)
  {
  }

  /** analyze's second loop: the counters over all the words. */
  method ScoreWords(lex: map<string, real>, toks: seq<string>, ss: seq<string>) returns (t: Tally)
    requires |ss| == |toks|
    ensures t == TallyOf(lex, toks, ss, |toks|)
  {
    var sum := 0.0;
    var scored, posCount, negCount := 0, 0, 0;
    for i := 0 to |toks|
      invariant Tally(sum, scored, posCount, negCount) == TallyOf(lex, toks, ss, i)
    {
      var skip := IsNonLinguistic(toks[i]);
      if skip {
        assert WordScore(lex, toks, ss, i) == None;
        continue;
      }
      var stem := ss[i];
      if stem == NegationWord {
        assert WordScore(lex, toks, ss, i) == None;
        continue;
      }
      if stem !in lex {
        assert WordScore(lex, toks, ss, i) == None;
        continue;
      }
      var score := lex[stem];
      var neg := FollowedByNeg(ss, i);
      if neg {
        score := -score;
      }
      assert WordScore(lex, toks, ss, i) == Some(score);
      sum := sum + score;
      scored := scored + 1;
      if score > 0.0 {
        posCount := posCount + 1;
      } else if score < 0.0 {
        negCount := negCount + 1;
      }
    }

    t := Tally(sum, scored, posCount, negCount);
  }

  /** Analyze: the zero result for an empty or oversized text, else analyze. */
  method Analyze(d: MorphDict.Dict, lex: map<string, real>, text: string)
    returns (r: Result, ghost words: seq<string>, ghost stems: seq<string>)
    ensures text == "" || Unicode.ByteLen(text) > MaxInputBytes ==> r == Zero
    ensures text != "" && Unicode.ByteLen(text) <= MaxInputBytes ==>
      && Tokenizer.WordsOf(AzCaseNfc.ComposeNFC(text), words)
      && stems == StemsOf(d, words)
      && r == Analysis(lex, words, stems)
  {
    words, stems := [], [];
    if text == "" || Unicode.ByteLen(text) > MaxInputBytes {
      return Zero, words, stems;
    }
    r, words, stems := AnalyzeText(d, lex, text);
  }
}
