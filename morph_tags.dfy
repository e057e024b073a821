/**
 * The morpheme tags of the morphological analyser, their names, and the
 * debug rendering of an analysis (stem followed by its tagged suffixes).
 */
module MorphTags {
  import GoInt
  import Unicode

  /** A morpheme tag is a Go int; the named tags below are the only ones the suffix table uses. */
  type MorphTag = int

  const Plural: MorphTag := 100
  const Poss1Sg: MorphTag := 101
  const Poss2Sg: MorphTag := 102
  const Poss3Sg: MorphTag := 103
  const Poss1Pl: MorphTag := 104
  const Poss2Pl: MorphTag := 105
  const Poss3Pl: MorphTag := 106

  const CaseGen: MorphTag := 110
  const CaseDat: MorphTag := 111
  const CaseAcc: MorphTag := 112
  const CaseLoc: MorphTag := 113
  const CaseAbl: MorphTag := 114
  const CaseIns: MorphTag := 115

  const DerivAgent: MorphTag := 200
  const DerivAbstract: MorphTag := 201
  const DerivPriv: MorphTag := 202
  const DerivPoss: MorphTag := 203
  const DerivVerb: MorphTag := 204

  const Copula: MorphTag := 250

  const VoicePass: MorphTag := 300
  const VoiceReflex: MorphTag := 301
  const VoiceRecip: MorphTag := 302
  const VoiceCaus: MorphTag := 303

  const Negation: MorphTag := 310

  const TensePastDef: MorphTag := 320
  const TensePastIndef: MorphTag := 321
  const TensePresent: MorphTag := 322
  const TenseFuture: MorphTag := 323
  const TenseAorist: MorphTag := 324

  const MoodOblig: MorphTag := 330
  const MoodCond: MorphTag := 331
  const MoodImper: MorphTag := 332

  const Participle: MorphTag := 340
  const ParticipleAdj: MorphTag := 341
  const Gerund: MorphTag := 342

  const Pers1Sg: MorphTag := 350
  const Pers2Sg: MorphTag := 351
  const Pers1Pl: MorphTag := 352
  const Pers2Pl: MorphTag := 353
  const Pers3: MorphTag := 354

  const Question: MorphTag := 400

  /** The name table: the tag's name, or "" for a value that is not a named tag. */
  function TagName(t: MorphTag): string {
    if t == 100 then "Plural" else if t == 101 then "Poss1Sg" else if t == 102 then "Poss2Sg"
    else if t == 103 then "Poss3Sg" else if t == 104 then "Poss1Pl" else if t == 105 then "Poss2Pl"
    else if t == 106 then "Poss3Pl"
    else if t == 110 then "CaseGen" else if t == 111 then "CaseDat" else if t == 112 then "CaseAcc"
    else if t == 113 then "CaseLoc" else if t == 114 then "CaseAbl" else if t == 115 then "CaseIns"
    else if t == 200 then "DerivAgent" else if t == 201 then "DerivAbstract" else if t == 202 then "DerivPriv"
    else if t == 203 then "DerivPoss" else if t == 204 then "DerivVerb"
    else if t == 250 then "Copula"
    else if t == 300 then "VoicePass" else if t == 301 then "VoiceReflex" else if t == 302 then "VoiceRecip"
    else if t == 303 then "VoiceCaus"
    else if t == 310 then "Negation"
    else if t == 320 then "TensePastDef" else if t == 321 then "TensePastIndef" else if t == 322 then "TensePresent"
    else if t == 323 then "TenseFuture" else if t == 324 then "TenseAorist"
    else if t == 330 then "MoodOblig" else if t == 331 then "MoodCond" else if t == 332 then "MoodImper"
    else if t == 340 then "Participle" else if t == 341 then "ParticipleAdj" else if t == 342 then "Gerund"
    else if t == 350 then "Pers1Sg" else if t == 351 then "Pers2Sg" else if t == 352 then "Pers1Pl"
    else if t == 353 then "Pers2Pl" else if t == 354 then "Pers3"
    else if t == 400 then "Question"
    else ""
  }

  /** MorphTag.String: the name of a named tag, otherwise "MorphTag(n)". */
  function TagString(t: MorphTag): (s: string)
    ensures TagName(t) != "" ==> s == TagName(t)
    ensures TagName(t) == "" ==> s == "MorphTag(" + GoInt.FormatInt(t) + ")"
  {
    if TagName(t) != "" then TagName(t) else "MorphTag(" + GoInt.FormatInt(t) + ")"
  }

  /** The values the name table knows: exactly the tag constants above. */
  const NamedTags: set<MorphTag> := {
    100, 101, 102, 103, 104, 105, 106, 110, 111, 112, 113, 114, 115,
    200, 201, 202, 203, 204, 250, 300, 301, 302, 303, 310,
    320, 321, 322, 323, 324, 330, 331, 332, 340, 341, 342,
    350, 351, 352, 353, 354, 400}

  lemma NamedTagsHaveNames(t: MorphTag)
    ensures TagName(t) != "" <==> t in NamedTags
    ensures t !in NamedTags ==> TagString(t) == "MorphTag(" + GoInt.FormatInt(t) + ")"
  {
  }

  /** One stripped suffix: its text as written in the word, and its tag. */
  datatype Morpheme = Morpheme(surface: string, tag: MorphTag)

  /** A stem and its suffixes, left to right. */
  datatype Analysis = Analysis(stem: string, morphemes: seq<Morpheme>)

  /** "Tag:surface" for one morpheme. */
  function MorphemeText(m: Morpheme): string {
    TagString(m.tag) + ":" + m.surface
  }

  /** The "Tag:surface" items of a morpheme list. */
  function Items(ms: seq<Morpheme>): (items: seq<string>)
    ensures |items| == |ms| && forall i :: 0 <= i < |ms| ==> items[i] == MorphemeText(ms[i])
  {
    seq(|ms|, i requires 0 <= i < |ms| => MorphemeText(ms[i]))
  }

  /** The debug form of an analysis: the bare stem, or stem[Tag:surface|Tag:surface|...]. */
  function AnalysisText(a: Analysis): string {
    if a.morphemes == [] then a.stem
    else a.stem + "[" + Unicode.Join(Items(a.morphemes), "|") + "]"
  }

  /** The debug form is the bare stem exactly when there are no morphemes. */
  lemma AnalysisTextBare(a: Analysis)
    ensures AnalysisText(a) == a.stem <==> a.morphemes == []
    ensures a.morphemes != [] ==> AnalysisText(a)[..|a.stem|] == a.stem && AnalysisText(a)[|a.stem|] == '['
  {
    if a.morphemes != [] {
      var t := AnalysisText(a);
      assert |t| > |a.stem|;
    }
  }

  /** Analysis.String: writes the stem, then "[", the morphemes separated by "|", and "]". */
  method AnalysisString(a: Analysis) returns (s: string)
    ensures s == AnalysisText(a)
  {
    if |a.morphemes| == 0 {
      return a.stem;
    }
    var items := Items(a.morphemes);
    var body := "";
    var i := 0;
    while i < |items|
      invariant 0 <= i <= |items|
      invariant body == Unicode.Join(items[..i], "|")
    {
      JoinStep(items, i);
      if i > 0 {
        body := body + "|";
      }
      body := body + items[i];
      i := i + 1;
    }
    assert items[..i] == items;
    s := a.stem + "[" + body + "]";
  }

  /** Joining one more item adds a separator before it, except for the first. */
  lemma JoinStep(items: seq<string>, i: nat)
    requires i < |items|
    ensures Unicode.Join(items[..i + 1], "|") == Unicode.Join(items[..i], "|") + (if i > 0 then "|" else "") + items[i]
  {
    assert items[..i + 1] == items[..i] + [items[i]];
    if i > 0 {
      Unicode.JoinAppend(items[..i], [items[i]], "|");
    }
  }
}
