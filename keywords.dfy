/**
 * Keyword extraction: the shared pipeline (normalize, tokenize, drop
 * pathologically hyphenated words, stem, lowercase, drop short stems and
 * stopwords), then one of two scorers, then the sort by score (ties by
 * stem) and the cut to the top N.
 *
 * The TF-IDF scorer and PageRank are floating-point computations over an
 * embedded corpus; both are parameters here. The co-occurrence graph that
 * PageRank runs on is modelled in KeywordsTextRank.
 */
module Keywords {
  import Unicode
  import AzCase
  import AzCaseNfc
  import Morph
  import Seqs
  import Sorting
  import StrOrder
  import Normalize
  import Tokenizer
  import Tok = TokenizerTypes
  import Sc = TokenizerScanner
  import opened Wrappers
  import MorphDict
  import opened KeywordsTextRank

  const MaxInputBytes: nat := 0x10_0000
  const DefaultTopN: nat := 10
  const MinStemRunes: nat := 2
  const MaxHyphenParts: nat := 8

  /** Function words and high-frequency auxiliaries that never become keywords. */
  const Stopwords: set<string> := {
    "mən", "sən", "o", "biz", "siz", "onlar",
    "bu", "belə", "elə", "həmin",
    "kim", "nə", "hara", "hansı", "neçə",
    "öz",
    "kimsə", "nəsə", "heç",
    "və", "ilə", "da", "də", "həm",
    "ya", "ancaq", "lakin", "amma", "ki", "çünki",
    "üçün", "qarşı", "doğru", "qədər", "dək",
    "görə", "sonra", "əvvəl", "başqa",
    "yalnız", "lap", "ən",
    "əlbəttə", "bəlkə", "yəqin", "əslində",
    "həqiqətən", "deməli", "guya",
    "var", "yox", "deyil",
    "ol", "et", "ed", "de", "get", "gəl", "ver", "al", "qoy"
  }

  // ---------------------------------------------------------------------
  // The pipeline, as specification functions
  // ---------------------------------------------------------------------

  /** The text is refused before any work: empty, or over 1 MiB of UTF-8. */
  predicate Refused(text: string) {
    text == "" || Unicode.ByteLen(text) > MaxInputBytes
  }

  /** Number of hyphens in a word (strings.Count with "-"). */
  function Hyphens(w: string): nat {
    if w == [] then 0 else Hyphens(w[..|w| - 1]) + (if w[|w| - 1] == '-' then 1 else 0)
  }

  /** The words with fewer than MaxHyphenParts hyphens, in order. */
  function HyphenSafe(ws: seq<string>): seq<string> {
    if ws == [] then []
    else
      var init := HyphenSafe(ws[..|ws| - 1]);
      if Hyphens(ws[|ws| - 1]) < MaxHyphenParts then init + [ws[|ws| - 1]] else init
  }

  /** The stem of every word, in order. */
  function StemAll(d: MorphDict.Dict, ws: seq<string>): (r: seq<string>)
    ensures |r| == |ws|
  {
    seq(|ws|, i requires 0 <= i < |ws| => Morph.Stem(d, ws[i]))
  }

  /** A lowercased stem is a candidate when it has at least two runes and is no stopword. */
  predicate Candidate(low: string) {
    |low| >= MinStemRunes && low !in Stopwords
  }

  /** The lowercased stems that are candidates, in order. */
  function KeepStems(stems: seq<string>): seq<string> {
    if stems == [] then []
    else
      var init := KeepStems(stems[..|stems| - 1]);
      var low := AzCase.ToLower(stems[|stems| - 1]);
      if Candidate(low) then init + [low] else init
  }

  /** What the pipeline makes of the words of the normalized text. */
  function Kept(d: MorphDict.Dict, words: seq<string>): seq<string> {
    KeepStems(StemAll(d, HyphenSafe(words)))
  }

  /** clean is the normalizer's output for an accepted text. */
  ghost predicate Normalized(d: MorphDict.Dict, text: string, clean: string) {
    clean == Normalize.RestoreTokens(d, Sc.WordTokensOf(AzCaseNfc.ComposeNFC(text)))
  }

  /** stems is the pipeline's output for text. */
  ghost predicate Filtered(d: MorphDict.Dict, text: string, stems: seq<string>) {
    if Refused(text) then stems == []
    else exists clean, words :: Normalized(d, text, clean) && Tokenizer.WordsOf(clean, words) && stems == Kept(d, words)
  }

  // ---------------------------------------------------------------------
  // What the pipeline keeps
  // ---------------------------------------------------------------------

  /** A word survives the hyphen filter iff it is a word with fewer than eight hyphens. */
  lemma {:induction false} HyphenSafeMember(ws: seq<string>, w: string)
    ensures w in HyphenSafe(ws) <==> w in ws && Hyphens(w) < MaxHyphenParts
    decreases |ws|
  {
    if ws != [] {
      HyphenSafeMember(ws[..|ws| - 1], w);
      assert ws == ws[..|ws| - 1] + [ws[|ws| - 1]];
    }
  }

  /** The hyphen filter only deletes: the survivors keep their order. */
  lemma {:induction false} HyphenSafeSubseq(ws: seq<string>)
    ensures Seqs.SubseqOf(HyphenSafe(ws), ws)
    decreases |ws|
  {
    if ws != [] {
      var init := ws[..|ws| - 1];
      HyphenSafeSubseq(init);
      assert ws == init + [ws[|ws| - 1]];
      Seqs.SubseqSnoc(HyphenSafe(init), init, ws[|ws| - 1]);
    }
  }

  /**
   * A string is kept iff it is the lowercase form of one of the stems and
   * that form has two or more runes and is no stopword.
   */
  lemma {:induction false} KeepStemsMember(stems: seq<string>, s: string)
    ensures s in KeepStems(stems) <==>
      exists t :: t in stems && s == AzCase.ToLower(t) && Candidate(s)
    decreases |stems|
  {
    if stems != [] {
      var init := stems[..|stems| - 1];
      var last := stems[|stems| - 1];
      KeepStemsMember(init, s);
      assert stems == init + [last];
      assert forall t :: t in stems <==> t in init || t == last;
    }
  }

  /** Every stem the pipeline yields is lowercase, has two or more runes and is no stopword. */
  lemma KeptShape(d: MorphDict.Dict, words: seq<string>, s: string)
    requires s in Kept(d, words)
    ensures |s| >= MinStemRunes && s !in Stopwords
    ensures forall i :: 0 <= i < |s| ==> !Unicode.IsUpper(s[i])
  {
    KeepStemsMember(StemAll(d, HyphenSafe(words)), s);
  }

  // ---------------------------------------------------------------------
  // The pipeline, as the program runs it
  // ---------------------------------------------------------------------

  /** pipeline: nothing for a refused text, else the filtered lowercase stems of its words. */
  method Pipeline(d: MorphDict.Dict, text: string) returns (r: seq<string>)
    ensures Filtered(d, text, r)
  {
    if text == "" || Unicode.ByteLen(text) > MaxInputBytes {
      return [];
    }
    var clean, tokens := Normalize.Normalize(d, text);
    NormalizedBy(d, text, clean, tokens);
    var words := Tokenizer.Words(clean);
    var ws := if words.Some? then words.value else [];
    var safe := DropHyphenated(ws);
    var st := Morph.Stems(d, Some(safe));
    var stems := st.value;
    assert stems == StemAll(d, safe);
    r := KeepCandidates(stems);
    FilteredBy(d, text, clean, ws, r);
  }

  /** The loop that drops the words with MaxHyphenParts or more hyphens. */
  method DropHyphenated(ws: seq<string>) returns (safe: seq<string>)
    ensures safe == HyphenSafe(ws)
  {
    safe := [];
    for i := 0 to |ws|
      invariant safe == HyphenSafe(ws[..i])
    {
      assert ws[..i + 1][..i] == ws[..i];
      if Hyphens(ws[i]) < MaxHyphenParts {
        safe := safe + [ws[i]];
      }
    }
    assert ws[..|ws|] == ws;
  }

  /** The loop that lowercases the stems and keeps the candidates. */
  method KeepCandidates(stems: seq<string>) returns (r: seq<string>)
    ensures r == KeepStems(stems)
  {
    r := [];
    for i := 0 to |stems|
      invariant r == KeepStems(stems[..i])
    {
      assert stems[..i + 1][..i] == stems[..i];
      var low := AzCase.ToLower(stems[i]);
      if |low| >= MinStemRunes && low !in Stopwords {
        r := r + [low];
      }
    }
    assert stems[..|stems|] == stems;
  }

  lemma NormalizedBy(d: MorphDict.Dict, text: string, clean: string, tokens: seq<Tok.Token>)
    requires tokens == Sc.WordTokensOf(AzCaseNfc.ComposeNFC(text)) && clean == Normalize.RestoreTokens(d, tokens)
    ensures Normalized(d, text, clean)
  {
  }

  lemma FilteredBy(d: MorphDict.Dict, text: string, clean: string, ws: seq<string>, r: seq<string>)
    requires !Refused(text) && Normalized(d, text, clean) && Tokenizer.WordsOf(clean, ws) && r == Kept(d, ws)
    ensures Filtered(d, text, r)
  {
  }

  // ---------------------------------------------------------------------
  // Ranking
  // ---------------------------------------------------------------------

  /** cmpKeyword: higher score first, ties broken by the stem in Go's string order. */
  predicate KeywordLess(a: Keyword, b: Keyword) {
    a.score > b.score || (a.score == b.score && StrOrder.Less(a.stem, b.stem))
  }

  lemma KeywordLessPreorder()
    ensures Sorting.Preorder(KeywordLess)
  {
    forall x: Keyword, y: Keyword | KeywordLess(x, y) ensures !KeywordLess(y, x) {
      if x.score == y.score {
        StrOrder.Asymmetric(x.stem, y.stem);
      }
    }
    forall x: Keyword, y: Keyword, z: Keyword | !KeywordLess(x, y) && !KeywordLess(y, z)
      ensures !KeywordLess(x, z)
    {
      if x.score == z.score && StrOrder.Less(x.stem, z.stem) {
        assert x.score == y.score == z.score;
        if x.stem != y.stem { StrOrder.Total(x.stem, y.stem); }
        if y.stem != z.stem { StrOrder.Total(y.stem, z.stem); }
        assert StrOrder.LessEq(y.stem, x.stem) && StrOrder.LessEq(z.stem, y.stem);
        StrOrder.LessEqTransitive(z.stem, y.stem, x.stem);
        if z.stem == x.stem {
          StrOrder.Irreflexive(x.stem);
        } else {
          StrOrder.Asymmetric(z.stem, x.stem);
        }
      }
    }
  }

  /** The number of keywords asked for: topN, or the default when it is not positive. */
  function TopN(topN: int): (n: nat)
    ensures n >= 1
    ensures topN > 0 ==> n == topN
  {
    if topN <= 0 then DefaultTopN else topN
  }

  function Min(a: nat, b: nat): nat { if a < b then a else b }

  /**
   * r is a top-N selection from cands: as many as asked for (or all),
   * drawn from cands, best first, and no candidate left out ranks above
   * one kept.
   */
  ghost predicate Ranked(r: seq<Keyword>, cands: seq<Keyword>, topN: int) {
    && |r| == Min(|cands|, TopN(topN))
    && Sorting.SortedBy(r, KeywordLess)
    && multiset(r) <= multiset(cands)
    && forall x, y :: x in multiset(cands) - multiset(r) && y in r ==> !KeywordLess(x, y)
  }

  /** The sort by cmpKeyword and the cut to topN that both extractors end with. */
  method SelectTop(cands: seq<Keyword>, topN: int) returns (r: seq<Keyword>)
    ensures Ranked(r, cands, topN)
  {
    var a := new Keyword[|cands|](i requires 0 <= i < |cands| => cands[i]);
    assert a[..] == cands;
    KeywordLessPreorder();
    Sorting.SortBy(a, KeywordLess);
    var ranked := a[..];
    r := ranked[..Min(|ranked|, TopN(topN))];
    SortedPrefixRanked(cands, ranked, topN);
  }

  /** A prefix of a sorted permutation of the candidates is a top selection from them. */
  lemma SortedPrefixRanked(cands: seq<Keyword>, ranked: seq<Keyword>, topN: int)
    requires multiset(ranked) == multiset(cands) && Sorting.SortedBy(ranked, KeywordLess)
    ensures Ranked(ranked[..Min(|ranked|, TopN(topN))], cands, topN)
  {
    var m := Min(|ranked|, TopN(topN));
    var r := ranked[..m];
    assert |ranked| == |cands| by {
      assert |multiset(ranked)| == |multiset(cands)|;
    }
    assert ranked == r + ranked[m..];
    assert multiset(cands) - multiset(r) == multiset(ranked[m..]);
    DroppedBelowKept(ranked, m);
  }

  /** In a sorted sequence nothing after position m ranks above anything before it. */
  lemma DroppedBelowKept(ranked: seq<Keyword>, m: nat)
    requires m <= |ranked| && Sorting.SortedBy(ranked, KeywordLess)
    ensures forall x, y :: x in multiset(ranked[m..]) && y in ranked[..m] ==> !KeywordLess(x, y)
  {
    forall x, y | x in multiset(ranked[m..]) && y in ranked[..m] ensures !KeywordLess(x, y) {
      var j :| m <= j < |ranked| && ranked[j] == x;
      var i :| 0 <= i < m && ranked[i] == y;
    }
  }

  /** cands are the graph's nodes with their PageRank scores and their counts among the stems. */
  ghost predicate Scored(stems: seq<string>, edges: seq<seq<Edge>>,
                         rank: (seq<string>, seq<seq<Edge>>) -> seq<real>, cands: seq<Keyword>)
    requires forall ns, es :: |rank(ns, es)| == |ns|
  {
    && |cands| == |Seqs.Dedup(stems)|
    && forall i :: 0 <= i < |cands| ==>
      && cands[i].stem == Seqs.Dedup(stems)[i]
      && cands[i].score == rank(Seqs.Dedup(stems), edges)[i]
      && cands[i].count == multiset(stems)[cands[i].stem]
  }

  /** r is the top topN of the scored nodes of the co-occurrence graph of stems. */
  ghost predicate TopTextRank(stems: seq<string>, edges: seq<seq<Edge>>,
                              rank: (seq<string>, seq<seq<Edge>>) -> seq<real>,
                              cands: seq<Keyword>, r: seq<Keyword>, topN: int)
    requires forall ns, es :: |rank(ns, es)| == |ns|
  {
    IsGraph(stems, Seqs.Dedup(stems), edges) && Scored(stems, edges, rank, cands) && Ranked(r, cands, topN)
  }

  /** A non-empty stem list yields at least one node. */
  lemma DedupNonEmpty(stems: seq<string>)
    requires stems != []
    ensures Seqs.Dedup(stems) != []
  {
    assert stems[0] in stems;
  }

  /**
   * ExtractTFIDF: nothing when the pipeline keeps nothing, else the top
   * candidates of the TF-IDF scorer.
   */
  method ExtractTFIDF(d: MorphDict.Dict, text: string, topN: int, score: seq<string> -> seq<Keyword>)
    returns (r: seq<Keyword>, ghost stems: seq<string>)
    requires forall ss :: ss != [] ==> score(ss) != []
    ensures Filtered(d, text, stems)
    ensures r == [] <==> stems == []
    ensures stems != [] ==> Ranked(r, score(stems), topN)
  {
    var filtered := Pipeline(d, text);
    stems := filtered;
    if |filtered| == 0 {
      return [], stems;
    }
    r := SelectTop(score(filtered), topN);
  }

  /**
   * ExtractTextRank: nothing when the pipeline keeps nothing, else the top
   * nodes of the co-occurrence graph by PageRank score; each carries its
   * number of occurrences among the stems.
   */
  method ExtractTextRank(d: MorphDict.Dict, text: string, topN: int, rank: (seq<string>, seq<seq<Edge>>) -> seq<real>)
    returns (r: seq<Keyword>, ghost stems: seq<string>, ghost edges: seq<seq<Edge>>, ghost cands: seq<Keyword>)
    requires forall ns, es :: |rank(ns, es)| == |ns|
    ensures Filtered(d, text, stems)
    ensures r == [] <==> stems == []
    ensures stems != [] ==> TopTextRank(stems, edges, rank, cands, r, topN)
    ensures |r| <= TopN(topN)
    ensures forall i :: 0 <= i < |r| ==> r[i].stem in stems && r[i].count == multiset(stems)[r[i].stem] > 0
  {
    var filtered := Pipeline(d, text);
    stems := filtered;
    edges, cands := [], [];
    if |filtered| == 0 {
      return [], stems, edges, cands;
    }
    var cs, es := ScoreTextRank(filtered, rank);
    edges, cands := es, cs;
    DedupNonEmpty(filtered);
    r := SelectTop(cs, topN);
    forall j | 0 <= j < |r| ensures r[j].stem in stems && r[j].count == multiset(stems)[r[j].stem] > 0 {
      var k := r[j];
      assert k in multiset(r);
      var i :| 0 <= i < |cands| && cands[i] == k;
      assert Seqs.Dedup(stems)[i] in Seqs.Dedup(stems);
    }
  }

  lemma StemsKept(r: seq<string>, top: seq<Keyword>, stems: seq<string>)
    requires |r| == |top| && forall i :: 0 <= i < |r| ==> r[i] == top[i].stem
    requires forall i :: 0 <= i < |top| ==> top[i].stem in stems
    ensures forall i :: 0 <= i < |r| ==> r[i] in stems
  {
  }

  /** Keywords: the stems of the top ten TextRank keywords, best first. */
  method Keywords(d: MorphDict.Dict, text: string, rank: (seq<string>, seq<seq<Edge>>) -> seq<real>)
    returns (r: seq<string>, ghost kws: seq<Keyword>, ghost stems: seq<string>,
             ghost edges: seq<seq<Edge>>, ghost cands: seq<Keyword>)
    requires forall ns, es :: |rank(ns, es)| == |ns|
    ensures Filtered(d, text, stems)
    ensures r == [] <==> stems == []
    ensures stems != [] ==> TopTextRank(stems, edges, rank, cands, kws, DefaultTopN)
    ensures |r| == |kws| <= DefaultTopN
    ensures forall i :: 0 <= i < |r| ==> r[i] == kws[i].stem && r[i] in stems
  {
    var top, st, es, cs := ExtractTextRank(d, text, DefaultTopN, rank);
    kws, stems, edges, cands := top, st, es, cs;
    if |top| == 0 {
      return [], kws, stems, edges, cands;
    }
    r := StemsOf(top);
    StemsKept(r, top, stems);
  }

  /** The stems of the keywords, in order. */
  method StemsOf(top: seq<Keyword>) returns (r: seq<string>)
    ensures |r| == |top| && forall i :: 0 <= i < |r| ==> r[i] == top[i].stem
  {
    r := [];
    for i := 0 to |top|
      invariant |r| == i
      invariant forall j :: 0 <= j < i ==> r[j] == top[j].stem
    {
      r := r + [top[i].stem];
    }
  }
}
