/**
 * The morphotactic suffix table: the states of the analyser's state machine,
 * the harmony classes, and the forty suffix rules, with the table's shape
 * stated and proved (forty rules, lower-case surfaces, longest surface first,
 * no rule leading into the initial state, verbal Pers3 only after a tense).
 */
module MorphSuffixes {
  import AzCase
  import opened MorphTags

  /** A position in the morphotactic chain; the walk starts from the outermost state and ends at Initial. */
  datatype State =
    | Initial | AfterCopula | AfterQuestion
    | NounAfterCase | NounAfterPoss | NounAfterPlural | NounAfterDeriv
    | VerbAfterPerson | VerbAfterTense | VerbAfterNeg | VerbAfterVoice
    | StemState

  /** How the suffix vowel must agree with the stem's last vowel. */
  datatype Harmony = NoHarmony | BackFront | FourWay

  /**
   * One suffix (with all its allomorphs): read left to right, it may follow any of
   * fromStates and leads to toState.
   */
  datatype Rule = Rule(surfaces: seq<string>, tag: MorphTag, fromStates: seq<State>, toState: State, harmony: Harmony)

  /**
   * The suffix table, in the order the analyser tries it. Read left to right,
   * a rule's suffix may follow any of its fromStates and leads to its toState.
   */
  const SuffixRules: seq<Rule> := [
    // Plural and the possessives.
    Rule(["lar", "lər"], Plural, [Initial, NounAfterDeriv], NounAfterPlural, BackFront),
    Rule(["ım", "im", "um", "üm", "m"], Poss1Sg, [Initial, NounAfterPlural, NounAfterDeriv], NounAfterPoss, FourWay),
    Rule(["ın", "in", "un", "ün", "n"], Poss2Sg, [Initial, NounAfterPlural, NounAfterDeriv], NounAfterPoss, FourWay),
    Rule(["sı", "si", "su", "sü", "ı", "i", "u", "ü"], Poss3Sg, [Initial, NounAfterPlural, NounAfterDeriv], NounAfterPoss, FourWay),
    Rule(["ımız", "imiz", "umuz", "ümüz", "mız", "miz", "muz", "müz"], Poss1Pl,
      [Initial, NounAfterPlural, NounAfterDeriv], NounAfterPoss, FourWay),
    Rule(["ınız", "iniz", "unuz", "ünüz", "nız", "niz", "nuz", "nüz"], Poss2Pl,
      [Initial, NounAfterPlural, NounAfterDeriv], NounAfterPoss, FourWay),
    Rule(["ları", "ləri"], Poss3Pl, [Initial, NounAfterPlural, NounAfterDeriv], NounAfterPoss, BackFront),
    // The six cases.
    Rule(["nın", "nin", "nun", "nün", "ın", "in", "un", "ün"], CaseGen,
      [Initial, NounAfterPoss, NounAfterPlural, NounAfterDeriv], NounAfterCase, FourWay),
    Rule(["ya", "yə", "na", "nə", "a", "ə"], CaseDat,
      [Initial, NounAfterPoss, NounAfterPlural, NounAfterDeriv], NounAfterCase, BackFront),
    Rule(["nı", "ni", "nu", "nü", "ı", "i", "u", "ü"], CaseAcc,
      [Initial, NounAfterPoss, NounAfterPlural, NounAfterDeriv], NounAfterCase, FourWay),
    Rule(["nda", "ndə", "da", "də", "ta", "tə"], CaseLoc,
      [Initial, NounAfterPoss, NounAfterPlural, NounAfterDeriv], NounAfterCase, BackFront),
    Rule(["ndan", "ndən", "dan", "dən", "tan", "tən"], CaseAbl,
      [Initial, NounAfterPoss, NounAfterPlural, NounAfterDeriv], NounAfterCase, BackFront),
    Rule(["la", "lə"], CaseIns,
      [Initial, NounAfterPoss, NounAfterPlural, NounAfterDeriv], NounAfterCase, BackFront),
    // The derivational suffixes and the copula.
    Rule(["çı", "çi", "çu", "çü"], DerivAgent, [Initial, NounAfterDeriv], NounAfterDeriv, FourWay),
    Rule(["lıq", "lik", "luq", "lük"], DerivAbstract, [Initial, NounAfterDeriv], NounAfterDeriv, FourWay),
    Rule(["sız", "siz", "suz", "süz"], DerivPriv, [Initial, NounAfterDeriv], NounAfterDeriv, FourWay),
    Rule(["lı", "li", "lu", "lü"], DerivPoss, [Initial, NounAfterDeriv], NounAfterDeriv, FourWay),
    Rule(["laş", "ləş"], DerivVerb, [Initial, NounAfterDeriv], VerbAfterVoice, BackFront),
    Rule(["dır", "dir", "dur", "dür", "tır", "tir", "tur", "tür"], Copula,
      [Initial, NounAfterCase, NounAfterPoss, NounAfterPlural, NounAfterDeriv, VerbAfterTense], AfterCopula, FourWay),
    // Negation and the voices.
    Rule(["ma", "mə"], Negation, [Initial, VerbAfterVoice], VerbAfterNeg, BackFront),
    Rule(["ıl", "il", "ul", "ül"], VoicePass, [Initial], VerbAfterVoice, FourWay),
    Rule(["ın", "in", "un", "ün"], VoiceReflex, [Initial], VerbAfterVoice, FourWay),
    Rule(["ış", "iş", "uş", "üş"], VoiceRecip, [Initial], VerbAfterVoice, FourWay),
    Rule(["t"], VoiceCaus, [Initial], VerbAfterVoice, NoHarmony),
    Rule(["ır", "ir", "ur", "ür"], VoiceCaus, [Initial], VerbAfterVoice, FourWay),
    // Tenses, moods, the participle and the gerund.
    Rule(["dı", "di", "du", "dü", "tı", "ti", "tu", "tü"], TensePastDef,
      [Initial, VerbAfterNeg, VerbAfterVoice, VerbAfterTense], VerbAfterTense, FourWay),
    Rule(["mış", "miş", "muş", "müş"], TensePastIndef, [Initial, VerbAfterNeg, VerbAfterVoice], VerbAfterTense, FourWay),
    Rule(["ır", "ir", "ur", "ür"], TensePresent, [Initial, VerbAfterNeg, VerbAfterVoice], VerbAfterTense, FourWay),
    Rule(["acaq", "əcək"], TenseFuture, [Initial, VerbAfterNeg, VerbAfterVoice], VerbAfterTense, BackFront),
    Rule(["ar", "ər"], TenseAorist, [Initial, VerbAfterNeg, VerbAfterVoice], VerbAfterTense, BackFront),
    Rule(["malı", "məli"], MoodOblig, [Initial, VerbAfterNeg, VerbAfterVoice], VerbAfterTense, BackFront),
    Rule(["sa", "sə"], MoodCond, [Initial, VerbAfterNeg, VerbAfterVoice], VerbAfterTense, BackFront),
    Rule(["an", "ən"], Participle, [Initial, VerbAfterNeg, VerbAfterVoice], VerbAfterTense, BackFront),
    Rule(["araq", "ərək"], Gerund, [Initial, VerbAfterNeg, VerbAfterVoice], VerbAfterTense, BackFront),
    // The personal endings and the question particle.
    Rule(["əm", "am", "m"], Pers1Sg, [VerbAfterTense], VerbAfterPerson, BackFront),
    Rule(["sən", "san", "n"], Pers2Sg, [VerbAfterTense], VerbAfterPerson, BackFront),
    Rule(["ıq", "ik", "uq", "ük", "q", "k"], Pers1Pl, [VerbAfterTense], VerbAfterPerson, FourWay),
    Rule(["sınız", "siniz", "sunuz", "sünüz", "nız", "niz", "nuz", "nüz"], Pers2Pl,
      [VerbAfterTense], VerbAfterPerson, FourWay),
    Rule(["lar", "lər"], Pers3, [VerbAfterTense], VerbAfterPerson, BackFront),
    Rule(["mı", "mi", "mu", "mü"], Question, [Initial, VerbAfterPerson, AfterCopula, VerbAfterTense], AfterQuestion, FourWay)
  ]

  /** A surface is non-empty and already lower case. */
  predicate LowerSurface(s: string) {
    s != [] && forall i :: 0 <= i < |s| ==> AzCase.Lower(s[i]) == s[i]
  }

  /** Each surface has no more runes than the one before it. */
  predicate LongestFirst(ss: seq<string>) {
    forall i :: 0 < i < |ss| ==> |ss[i]| <= |ss[i - 1]|
  }

  /** Longest-first between neighbours gives longest-first between any two surfaces. */
  lemma {:induction false} LongestFirstOrdered(ss: seq<string>, i: nat, j: nat)
    requires LongestFirst(ss) && i <= j < |ss|
    ensures |ss[j]| <= |ss[i]|
    decreases j - i
  {
    if i < j {
      LongestFirstOrdered(ss, i, j - 1);
    }
  }

  /** The letters the surfaces are written with. */
  const SurfaceLetters: set<char> := {'a', 'c', 'ç', 'd', 'ə', 'ı', 'i', 'k', 'l', 'm', 'n', 'q', 'r', 's', 'ş', 't', 'u', 'ü', 'y', 'z'}

  /** Every surface is non-empty and written with surface letters only. */
  predicate Spelled(ss: seq<string>) {
    forall j :: 0 <= j < |ss| ==> ss[j] != [] && forall i :: 0 <= i < |ss[j]| ==> ss[j][i] in SurfaceLetters
  }

  /** Every surface letter is its own lower-case form. */
  lemma SurfaceLettersLower()
    ensures forall c :: c in SurfaceLetters ==> AzCase.Lower(c) == c
  {
  }

  /** The table, rule by rule: forty rules, none leading into Initial, each with surfaces and predecessors. */
  lemma TableStates()
    ensures |SuffixRules| == 40
    ensures forall k :: 0 <= k < |SuffixRules| ==>
      SuffixRules[k].toState != Initial && SuffixRules[k].surfaces != [] && SuffixRules[k].fromStates != []
  {
  }

  lemma PluralPossessiveSpelled()
    ensures forall k :: 0 <= k < 7 ==> Spelled(SuffixRules[k].surfaces)
  {
  }

  lemma CaseSpelled()
    ensures forall k :: 7 <= k < 13 ==> Spelled(SuffixRules[k].surfaces)
  {
  }

  lemma DerivationVoiceSpelled()
    ensures forall k :: 13 <= k < 25 ==> Spelled(SuffixRules[k].surfaces)
  {
  }

  lemma VerbSpelled()
    ensures forall k :: 25 <= k < 40 ==> Spelled(SuffixRules[k].surfaces)
  {
    TenseSpelled();
    PersonSpelled();
  }

  lemma TenseSpelled()
    ensures forall k :: 25 <= k < 32 ==> Spelled(SuffixRules[k].surfaces)
  {
  }

  lemma PersonSpelled()
    ensures forall k :: 32 <= k < 40 ==> Spelled(SuffixRules[k].surfaces)
  {
  }

  lemma PluralPossessiveLongestFirst()
    ensures forall k :: 0 <= k < 7 ==> LongestFirst(SuffixRules[k].surfaces)
  {
  }

  lemma CaseLongestFirst()
    ensures forall k :: 7 <= k < 13 ==> LongestFirst(SuffixRules[k].surfaces)
  {
  }

  lemma DerivationVoiceLongestFirst()
    ensures forall k :: 13 <= k < 25 ==> LongestFirst(SuffixRules[k].surfaces)
  {
  }

  lemma VerbLongestFirst()
    ensures forall k :: 25 <= k < 40 ==> LongestFirst(SuffixRules[k].surfaces)
  {
  }

  /** The shape every rule of the table has. */
  predicate WellFormed(r: Rule) {
    r.toState != Initial && r.surfaces != [] && r.fromStates != []
    && LongestFirst(r.surfaces)
    && forall j :: 0 <= j < |r.surfaces| ==> LowerSurface(r.surfaces[j])
  }

  /**
   * The table has forty rules and every rule is well formed: its surfaces are
   * lower case and run longest first, and no rule leads into Initial, so the
   * backward walk reaches Initial only through a rule's fromStates.
   */
  lemma TableShape()
    ensures |SuffixRules| == 40
    ensures forall k :: 0 <= k < |SuffixRules| ==> WellFormed(SuffixRules[k])
  {
    TableStates();
    PluralPossessiveSpelled();
    CaseSpelled();
    DerivationVoiceSpelled();
    VerbSpelled();
    PluralPossessiveLongestFirst();
    CaseLongestFirst();
    DerivationVoiceLongestFirst();
    VerbLongestFirst();
    SurfaceLettersLower();
  }

  /** The verbal Pers3 rule applies only after a tense; the noun Plural rule carries the same surfaces. */
  lemma Pers3OnlyAfterTense()
    ensures forall k :: 0 <= k < |SuffixRules| && SuffixRules[k].tag == Pers3 ==> SuffixRules[k].fromStates == [VerbAfterTense]
  {
  }
}
