/**
 * The helper rules of the lexicon-evaluation script: the rating-to-class
 * mapping, the per-class review counts, the distinct stems of a review
 * and the lexicon's prediction for a review. The script reads the lexicon
 * file with the same parser as the sentiment analyzer
 * (SentimentLexicon.ParseLexicon).
 */
module BuildLexicon {
  import Seqs
  import AzCaseNfc
  import MorphDict
  import Tokenizer
  import Sc = TokenizerScanner
  import opened SentimentLexicon

  /** A review's sentiment class. */
  datatype ReviewClass = ClassNegative | ClassNeutral | ClassPositive

  /** A processed review: its distinct stems and its class. */
  datatype Review = Review(stems: seq<string>, rclass: ReviewClass)

  /** scoreToClass: ratings up to 2 are negative, from 4 positive, 3 neutral. */
  function ScoreToClass(rating: int): (c: ReviewClass)
    ensures c == ClassNegative <==> rating <= 2
    ensures c == ClassPositive <==> rating >= 4
    ensures c == ClassNeutral <==> rating == 3
  {
    if rating <= 2 then ClassNegative
    else if rating >= 4 then ClassPositive
    else ClassNeutral
  }

  // ---------------------------------------------------------------------
  // countClasses
  // ---------------------------------------------------------------------

  /** The number of reviews of class c. */
  function ClassCount(reviews: seq<Review>, c: ReviewClass): nat {
    if reviews == [] then 0
    else ClassCount(reviews[..|reviews| - 1], c) + (if reviews[|reviews| - 1].rclass == c then 1 else 0)
  }

  /** Every review is of exactly one class, so the three counts add up to the number of reviews. */
  lemma {:induction false} ClassCountsTotal(reviews: seq<Review>)
    ensures ClassCount(reviews, ClassPositive) + ClassCount(reviews, ClassNegative)
      + ClassCount(reviews, ClassNeutral) == |reviews|
    decreases |reviews|
  {
    if reviews != [] {
      ClassCountsTotal(reviews[..|reviews| - 1]);
    }
  }

  /** countClasses: the positive, negative and neutral reviews, counted in one pass. */
  method CountClasses(reviews: seq<Review>) returns (pos: nat, neg: nat, neu: nat)
    ensures pos == ClassCount(reviews, ClassPositive)
    ensures neg == ClassCount(reviews, ClassNegative)
    ensures neu == ClassCount(reviews, ClassNeutral)
    ensures pos + neg + neu == |reviews|
  {
    pos, neg, neu := 0, 0, 0;
    for i := 0 to |reviews|
      invariant pos == ClassCount(reviews[..i], ClassPositive)
      invariant neg == ClassCount(reviews[..i], ClassNegative)
      invariant neu == ClassCount(reviews[..i], ClassNeutral)
    {
      assert reviews[..i + 1][..i] == reviews[..i];
      match reviews[i].rclass
      case ClassPositive => pos := pos + 1;
      case ClassNegative => neg := neg + 1;
      case ClassNeutral => neu := neu + 1;
    }
    assert reviews[..|reviews|] == reviews;
    ClassCountsTotal(reviews);
  }

  // ---------------------------------------------------------------------
  // extractStems
  // ---------------------------------------------------------------------

  /** The non-empty strings, in order. */
  function NonEmpty(ss: seq<string>): (r: seq<string>)
    ensures forall s :: s in r <==> s in ss && s != ""
  {
    if ss == [] then []
    else NonEmpty(ss[..|ss| - 1]) + (if ss[|ss| - 1] != "" then [ss[|ss| - 1]] else [])
  }

  /** The stems a review contributes: its distinct non-empty word stems, in order of first occurrence. */
  function ReviewStems(d: MorphDict.Dict, words: seq<string>): seq<string> {
    Seqs.Dedup(NonEmpty(StemsOf(d, words)))
  }

  /**
   * The stems are distinct and non-empty, each is the stem of a word, and
   * every non-empty word stem is among them.
   */
  lemma ReviewStemsShape(d: MorphDict.Dict, words: seq<string>)
    ensures Seqs.Distinct(ReviewStems(d, words))
    ensures forall s :: s in ReviewStems(d, words) <==> s != "" && s in StemsOf(d, words)
  {
  }

  /** Adding one word's stem: a new non-empty stem is appended, anything else changes nothing. */
  lemma ReviewStemsStep(d: MorphDict.Dict, words: seq<string>, i: nat)
    requires i < |words|
    ensures var st := StemOf(d, words[i]);
      ReviewStems(d, words[..i + 1]) ==
        if st == "" || st in ReviewStems(d, words[..i]) then ReviewStems(d, words[..i])
        else ReviewStems(d, words[..i]) + [st]
  {
    assert words[..i + 1][..i] == words[..i];
    StemsAppend(StemsOf(d, words[..i]), StemOf(d, words[i]));
  }

  lemma StemsAppend(ss: seq<string>, st: string)
    ensures Seqs.Dedup(NonEmpty(ss + [st])) ==
      if st == "" || st in Seqs.Dedup(NonEmpty(ss)) then Seqs.Dedup(NonEmpty(ss))
      else Seqs.Dedup(NonEmpty(ss)) + [st]
  {
    assert (ss + [st])[..|ss|] == ss;
    var ne := NonEmpty(ss);
    if st != "" {
      assert NonEmpty(ss + [st]) == ne + [st];
      assert (ne + [st])[..|ne|] == ne;
    } else {
      assert NonEmpty(ss + [st]) == ne;
    }
  }

  /** extractStems: the distinct stems of the words of the composed text, as a loop with a seen set. */
  method ExtractStems(d: MorphDict.Dict, text: string) returns (stems: seq<string>)
    ensures stems == ReviewStems(d, Tokenizer.WordTexts(Sc.WordTokensOf(AzCaseNfc.ComposeNFC(text))))
  {
    var t := AzCaseNfc.ComposeNFC(text);
    var ws := Tokenizer.Words(t);
    var toks := if ws.Some? then ws.value else [];
    assert Tokenizer.WordsOf(t, toks);
    var seen: set<string> := {};
    stems := [];
    for i := 0 to |toks|
      invariant stems == ReviewStems(d, toks[..i])
      invariant forall s :: s in seen <==> s in stems
    {
      ReviewStemsStep(d, toks, i);
      var skip := IsNonLinguistic(toks[i]);
      if skip {
        continue;
      }
      var stem := StemWord(d, toks[i]);
      if stem == "" {
        continue;
      }
      if stem in seen {
        continue;
      }
      seen := seen + {stem};
      stems := stems + [stem];
    }
    assert toks[..|toks|] == toks;
  }

  // ---------------------------------------------------------------------
  // predictClass
  // ---------------------------------------------------------------------

  /** The sum of the lexicon scores of the stems found in the lexicon. */
  function LexSum(stems: seq<string>, lex: map<string, real>): real {
    if stems == [] then 0.0
    else
      var last := stems[|stems| - 1];
      LexSum(stems[..|stems| - 1], lex) + (if last in lex then lex[last] else 0.0)
  }

  /** The number of stems found in the lexicon. */
  function LexHits(stems: seq<string>, lex: map<string, real>): nat {
    if stems == [] then 0
    else LexHits(stems[..|stems| - 1], lex) + (if stems[|stems| - 1] in lex then 1 else 0)
  }

  /** No stem is scored exactly when none is in the lexicon. */
  lemma {:induction false} LexHitsNone(stems: seq<string>, lex: map<string, real>)
    ensures LexHits(stems, lex) == 0 <==> forall s :: s in stems ==> s !in lex
    decreases |stems|
  {
    if stems != [] {
      var init := stems[..|stems| - 1];
      LexHitsNone(init, lex);
      assert stems == init + [stems[|stems| - 1]];
    }
  }

  /**
   * predictClass: neutral when no stem is in the lexicon; otherwise the
   * sign of the average score of the stems found.
   */
  method PredictClass(stems: seq<string>, lex: map<string, real>) returns (c: ReviewClass)
    ensures LexHits(stems, lex) == 0 ==> c == ClassNeutral
    ensures c == ClassPositive <==> LexHits(stems, lex) > 0 && LexSum(stems, lex) > 0.0
    ensures c == ClassNegative <==> LexHits(stems, lex) > 0 && LexSum(stems, lex) < 0.0
  {
    var sum := 0.0;
    var scored: nat := 0;
    for i := 0 to |stems|
      invariant sum == LexSum(stems[..i], lex) && scored == LexHits(stems[..i], lex)
    {
      assert stems[..i + 1][..i] == stems[..i];
      if stems[i] !in lex {
        continue;
      }
      sum := sum + lex[stems[i]];
      scored := scored + 1;
    }
    assert stems[..|stems|] == stems;
    if scored == 0 {
      return ClassNeutral;
    }
    var avg := sum / scored as real;
    if avg > 0.0 {
      c := ClassPositive;
    } else if avg < 0.0 {
      c := ClassNegative;
    } else {
      c := ClassNeutral;
    }
  }

  /** A review none of whose stems is in the lexicon is predicted neutral. */
  lemma PredictNoHits(stems: seq<string>, lex: map<string, real>)
    requires forall s :: s in stems ==> s !in lex
    ensures LexHits(stems, lex) == 0
  {
    LexHitsNone(stems, lex);
  }
}
