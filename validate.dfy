/**
 * The text validator's entry points. Validate runs the four checks in a
 * fixed order (spelling, punctuation, layout, mixed script), sorts what
 * they found by offset and then by severity, most severe first, and scores
 * the text: 100 less a penalty per issue, never below 0. IsValid runs only
 * the two checks that report errors and says whether either found one.
 *
 * The script detector is not part of this model: its verdict is a
 * parameter, as are the speller's index and the morphological dictionary.
 */
module Validate {
  import Wrappers
  import Unicode
  import Sorting
  import Tok = TokenizerTypes
  import Scanner = TokenizerScanner
  import Tokenizer
  import SpellSymspell
  import MorphDict
  import opened ValidateChecks

  /** Texts longer than this many UTF-8 bytes are not examined. */
  const MaxInputBytes: nat := 0x10_0000
  const DeductError: nat := 10
  const DeductWarning: nat := 3
  const DeductInfo: nat := 1
  const MaxScore: nat := 100

  /** A quality score from 0 to 100 and the issues, ordered by offset, then most severe first. */
  datatype Report = Report(score: int, issues: seq<Issue>)

  /** The texts the validator reports clean without looking: empty, or over the byte limit. */
  predicate Refused(text: string) {
    text == [] || Unicode.ByteLen(text) > MaxInputBytes
  }

  // ---------- the score ----------

  /** The points one issue costs; a severity outside the three named ones costs nothing. */
  function Penalty(severity: int): nat {
    if severity == Error then DeductError
    else if severity == Warning then DeductWarning
    else if severity == Info then DeductInfo
    else 0
  }

  /** The points all the issues cost together. */
  function Deduction(issues: seq<Issue>): nat {
    if issues == [] then 0
    else Deduction(issues[..|issues| - 1]) + Penalty(issues[|issues| - 1].severity)
  }

  /** The score: 100 less the deduction, floored at 0. */
  function Score(issues: seq<Issue>): (s: int)
    ensures 0 <= s <= MaxScore
    ensures s == MaxScore <==> Deduction(issues) == 0
  {
    if Deduction(issues) >= MaxScore then 0 else MaxScore - Deduction(issues)
  }

  /** How many of the issues carry the given severity. */
  function CountSeverity(issues: seq<Issue>, severity: int): nat {
    if issues == [] then 0
    else CountSeverity(issues[..|issues| - 1], severity) + (if issues[|issues| - 1].severity == severity then 1 else 0)
  }

  /** The deduction is 10 per error, 3 per warning and 1 per informational issue. */
  lemma {:induction false} DeductionCounts(issues: seq<Issue>)
    ensures Deduction(issues) == DeductError * CountSeverity(issues, Error)
      + DeductWarning * CountSeverity(issues, Warning) + DeductInfo * CountSeverity(issues, Info)
  {
    if issues != [] {
      DeductionCounts(issues[..|issues| - 1]);
    }
  }

  /** A text scores 100 exactly when none of its issues has one of the three severities. */
  lemma {:induction false} ScorePerfect(issues: seq<Issue>)
    ensures Score(issues) == MaxScore <==> forall k :: 0 <= k < |issues| ==> Penalty(issues[k].severity) == 0
  {
    if issues != [] {
      var init := issues[..|issues| - 1];
      ScorePerfect(init);
      assert forall k :: 0 <= k < |init| ==> init[k] == issues[k];
    }
  }

  /** Adding issues never raises the score. */
  lemma {:induction false} ScoreAppend(xs: seq<Issue>, ys: seq<Issue>)
    ensures Deduction(xs + ys) == Deduction(xs) + Deduction(ys)
    ensures Score(xs + ys) <= Score(xs)
    decreases |ys|
  {
    if ys != [] {
      var init := ys[..|ys| - 1];
      assert (xs + ys)[..|xs + ys| - 1] == xs + init;
      ScoreAppend(xs, init);
    } else {
      assert xs + ys == xs;
    }
  }

  /** calculateScore: start at 100, subtract each issue's penalty in turn, floor at 0. */
  method CalculateScore(issues: seq<Issue>) returns (score: int)
    ensures score == Score(issues)
  {
    score := MaxScore;
    var i := 0;
    while i < |issues|
      invariant 0 <= i <= |issues|
      invariant score == MaxScore - Deduction(issues[..i])
    {
      assert issues[..i + 1][..i] == issues[..i];
      var severity := issues[i].severity;
      if severity == Error {
        score := score - DeductError;
      } else if severity == Warning {
        score := score - DeductWarning;
      } else if severity == Info {
        score := score - DeductInfo;
      }
      i := i + 1;
    }
    assert issues[..i] == issues;
    if score < 0 {
      score := 0;
    }
  }

  // ---------- the order ----------

  /** The report's order: lower offset first; at equal offsets, higher severity first. */
  predicate IssueLess(a: Issue, b: Issue) {
    a.start < b.start || (a.start == b.start && a.severity > b.severity)
  }

  lemma IssueLessPreorder()
    ensures Sorting.Preorder(IssueLess)
  {
  }

  // ---------- the checks together ----------

  /**
   * What the spelling check may have produced from the tokens: nothing
   * under a Cyrillic text; otherwise one issue per misspelt word up to the
   * cap, each with a suggestion the speller derives or none.
   */
  ghost predicate SpellingList(idx: SpellSymspell.Index, d: MorphDict.Dict, tokens: seq<Tok.Token>,
                               det: Detection, spelled: seq<Issue>) {
    && (det.script == Cyrl ==> spelled == [])
    && (det.script != Cyrl ==> Unsuggested(spelled) == Capped([], SpellFound(idx, d, tokens), 0))
    && forall k :: 0 <= k < |spelled| ==> SuggestedFor(idx, d, spelled[k])
  }

  /** The issues after the punctuation, layout and mixed-script checks have run on the spelling check's list. */
  function Collected(spelled: seq<Issue>, tokens: seq<Tok.Token>, det: Detection): seq<Issue> {
    var p := Capped(spelled, PunctFound(tokens), 0);
    var l := if ScriptChecks(det) then Capped(p, LayoutFound(tokens, det.script), 0) else p;
    if ScriptChecks(det) then Capped(l, MixedFound(tokens, det.script), 0) else l
  }

  /** The spelling check's list is within the cap. */
  lemma SpellingBound(idx: SpellSymspell.Index, d: MorphDict.Dict, tokens: seq<Tok.Token>,
                      det: Detection, spelled: seq<Issue>)
    requires SpellingList(idx, d, tokens, det, spelled)
    ensures |spelled| <= MaxIssues
    ensures spelled == [] <==> det.script == Cyrl || forall k :: 0 <= k < |tokens| ==> SpellFound(idx, d, tokens)[k].None?
  {
    CappedBound([], SpellFound(idx, d, tokens));
    assert |spelled| == |Unsuggested(spelled)|;
  }

  /**
   * Every check stops adding at MaxIssues, so the checks together keep the
   * spelling check's issues first and never go past the cap: the final
   * truncation to MaxIssues cuts nothing.
   */
  lemma CollectedBound(spelled: seq<Issue>, tokens: seq<Tok.Token>, det: Detection)
    requires |spelled| <= MaxIssues
    ensures spelled <= Collected(spelled, tokens, det)
    ensures |Collected(spelled, tokens, det)| <= MaxIssues
  {
    var p := Capped(spelled, PunctFound(tokens), 0);
    CappedBound(spelled, PunctFound(tokens));
    if ScriptChecks(det) {
      var l := Capped(p, LayoutFound(tokens, det.script), 0);
      CappedBound(p, LayoutFound(tokens, det.script));
      CappedBound(l, MixedFound(tokens, det.script));
    }
  }

  /** A capped check leaves an empty list exactly when it starts empty and no token yields an issue. */
  lemma CappedEmpty(acc: seq<Issue>, found: seq<Wrappers.Option<Issue>>)
    ensures Capped(acc, found, 0) == [] <==> acc == [] && forall k :: 0 <= k < |found| ==> found[k].None?
  {
    CappedBound(acc, found);
  }

  /**
   * The checks find nothing exactly when the spelling check found nothing,
   * no token breaks a punctuation rule and, when the script checks run, no
   * token has a wrong-script homoglyph and none is in the other script.
   */
  lemma CollectedEmpty(spelled: seq<Issue>, tokens: seq<Tok.Token>, det: Detection)
    ensures Collected(spelled, tokens, det) == [] <==>
      && spelled == []
      && (forall k :: 0 <= k < |tokens| ==> PunctFound(tokens)[k].None?)
      && (ScriptChecks(det) ==> forall k :: 0 <= k < |tokens| ==> LayoutFound(tokens, det.script)[k].None?)
      && (ScriptChecks(det) ==> forall k :: 0 <= k < |tokens| ==> MixedFound(tokens, det.script)[k].None?)
  {
    var p := Capped(spelled, PunctFound(tokens), 0);
    CappedEmpty(spelled, PunctFound(tokens));
    if ScriptChecks(det) {
      var l := Capped(p, LayoutFound(tokens, det.script), 0);
      CappedEmpty(p, LayoutFound(tokens, det.script));
      CappedEmpty(l, MixedFound(tokens, det.script));
    }
  }

  /**
   * The checks in order over the tokens, the cap, the sort and the score:
   * the report holds the capped issues in sorted order and scores them.
   */
  method ValidateTokens(tokens: seq<Tok.Token>, det: Detection, idx: SpellSymspell.Index, d: MorphDict.Dict)
    returns (r: Report, ghost spelled: seq<Issue>)
    requires SpellSymspell.ValidIndex(idx)
    ensures SpellingList(idx, d, tokens, det, spelled)
    ensures multiset(r.issues) == multiset(Take(Collected(spelled, tokens, det), MaxIssues))
    ensures Sorting.SortedBy(r.issues, IssueLess)
    ensures r.score == Score(r.issues)
  {
    var issues := AppendSpellingIssues([], tokens, det, idx, d);
    spelled := issues;
    issues := AppendPunctuationIssues(issues, tokens);
    issues := AppendLayoutIssues(issues, tokens, det);
    issues := AppendMixedScriptIssues(issues, tokens, det);
    assert issues == Collected(spelled, tokens, det);
    if |issues| > MaxIssues {
      issues := issues[..MaxIssues];
    }
    var a := new Issue[|issues|](k requires 0 <= k < |issues| => issues[k]);
    assert a[..] == issues;
    IssueLessPreorder();
    Sorting.SortBy(a, IssueLess);
    var score := CalculateScore(a[..]);
    r := Report(score, a[..]);
  }

  /**
   * Validate: a perfect empty report for a refused text or one without
   * tokens; otherwise the report of the checks over the text's tokens,
   * with at most MaxIssues issues and a score from 0 to 100.
   */
  method Validate(text: string, det: Detection, idx: SpellSymspell.Index, d: MorphDict.Dict)
    returns (r: Report, ghost tokens: seq<Tok.Token>, ghost spelled: seq<Issue>)
    requires SpellSymspell.ValidIndex(idx)
    ensures Refused(text) ==> r == Report(MaxScore, [])
    ensures !Refused(text) ==> tokens == Scanner.WordTokensOf(text)
    ensures !Refused(text) ==> Tok.Tiles(tokens, text, |text|) && Scanner.Classified(tokens)
    ensures !Refused(text) ==> SpellingList(idx, d, tokens, det, spelled)
    ensures !Refused(text) ==> multiset(r.issues) == multiset(Collected(spelled, tokens, det))
    ensures Sorting.SortedBy(r.issues, IssueLess) && |r.issues| <= MaxIssues
    ensures r.score == Score(r.issues)
  {
    if text == [] || Unicode.ByteLen(text) > MaxInputBytes {
      return Report(MaxScore, []), [], [];
    }
    var words := Tokenizer.WordTokens(text);
    var toks := words.value;
    tokens := toks;
    if |toks| == 0 {
      return Report(MaxScore, []), tokens, [];
    }
    r, spelled := ValidateTokens(toks, det, idx, d);
    SpellingBound(idx, d, tokens, det, spelled);
    CollectedBound(spelled, tokens, det);
    assert |r.issues| == |multiset(r.issues)|;
  }

  // ---------- IsValid ----------

  /**
   * Whether the checks that report errors find one: a misspelt word when
   * the text is not Cyrillic, or a word with a wrong-script homoglyph when
   * the script checks run.
   */
  predicate HasErrors(idx: SpellSymspell.Index, d: MorphDict.Dict, tokens: seq<Tok.Token>, det: Detection) {
    || (det.script != Cyrl && exists k :: 0 <= k < |tokens| && Misspelt(idx, d, tokens[k]))
    || (ScriptChecks(det) && exists k :: 0 <= k < |tokens| && tokens[k].ttype == Tok.Word && NeedsReplacement(tokens[k].text, det.script))
  }

  /** Whether one of the issues is an error. */
  method AnyError(issues: seq<Issue>) returns (b: bool)
    ensures b <==> exists k :: 0 <= k < |issues| && issues[k].severity == Error
  {
    var i := 0;
    while i < |issues|
      invariant 0 <= i <= |issues|
      invariant forall k :: 0 <= k < i ==> issues[k].severity != Error
    {
      if issues[i].severity == Error {
        return true;
      }
      i := i + 1;
    }
    return false;
  }

  /** Every issue is an error. */
  predicate AllErrors(issues: seq<Issue>) {
    forall k :: 0 <= k < |issues| ==> issues[k].severity == Error
  }

  lemma {:induction false} CappedErrors(acc: seq<Issue>, found: seq<Wrappers.Option<Issue>>, i: nat)
    requires AllErrors(acc)
    requires forall k :: i <= k < |found| && found[k].Some? ==> found[k].value.severity == Error
    ensures AllErrors(Capped(acc, found, i))
    decreases |found| - i
  {
    if i < |found| && |acc| < MaxIssues {
      CappedErrors(acc + Opt(found[i]), found, i + 1);
    }
  }

  /** The spelling check reports only errors, and reports one exactly when a word is misspelt. */
  lemma SpellingErrors(idx: SpellSymspell.Index, d: MorphDict.Dict, tokens: seq<Tok.Token>,
                       det: Detection, spelled: seq<Issue>)
    requires SpellingList(idx, d, tokens, det, spelled)
    ensures AllErrors(spelled)
    ensures spelled != [] <==> det.script != Cyrl && exists k :: 0 <= k < |tokens| && Misspelt(idx, d, tokens[k])
  {
    var found := SpellFound(idx, d, tokens);
    SpellingBound(idx, d, tokens, det, spelled);
    CappedErrors([], found, 0);
    assert forall k :: 0 <= k < |spelled| ==> Unsuggested(spelled)[k].severity == spelled[k].severity;
    assert forall k :: 0 <= k < |tokens| ==> (found[k].Some? <==> Misspelt(idx, d, tokens[k]));
  }

  /** The layout check reports only errors, and reports one exactly when a word has a wrong-script homoglyph. */
  lemma LayoutErrors(tokens: seq<Tok.Token>, det: Detection)
    requires ScriptChecks(det)
    ensures AllErrors(Capped([], LayoutFound(tokens, det.script), 0))
    ensures Capped([], LayoutFound(tokens, det.script), 0) != [] <==>
      exists k :: 0 <= k < |tokens| && tokens[k].ttype == Tok.Word && NeedsReplacement(tokens[k].text, det.script)
  {
    var found := LayoutFound(tokens, det.script);
    CappedErrors([], found, 0);
    CappedBound([], found);
    assert forall k :: 0 <= k < |tokens| ==>
      (found[k].Some? <==> tokens[k].ttype == Tok.Word && NeedsReplacement(tokens[k].text, det.script));
  }

  /** A non-empty list of errors holds an error. */
  lemma ErrorsFound(issues: seq<Issue>)
    requires AllErrors(issues)
    ensures (exists k :: 0 <= k < |issues| && issues[k].severity == Error) <==> issues != []
  {
    if issues != [] {
      assert issues[0].severity == Error;
    }
  }

  /** isValid over the tokens: the spelling check, then the layout check, each from an empty list. */
  method IsValidTokens(tokens: seq<Tok.Token>, det: Detection, idx: SpellSymspell.Index, d: MorphDict.Dict)
    returns (ok: bool)
    requires SpellSymspell.ValidIndex(idx)
    ensures ok <==> !HasErrors(idx, d, tokens, det)
  {
    var spelled := AppendSpellingIssues([], tokens, det, idx, d);
    var bad := AnyError(spelled);
    SpellingErrors(idx, d, tokens, det, spelled);
    ErrorsFound(spelled);
    if bad {
      return false;
    }
    var layout := AppendLayoutIssues([], tokens, det);
    bad := AnyError(layout);
    if ScriptChecks(det) {
      LayoutErrors(tokens, det);
    }
    ErrorsFound(layout);
    return !bad;
  }

  /**
   * IsValid: true for a refused text or one without tokens; otherwise
   * true exactly when neither the spelling nor the layout check finds an
   * error in the text's tokens.
   */
  method IsValid(text: string, det: Detection, idx: SpellSymspell.Index, d: MorphDict.Dict)
    returns (ok: bool, ghost tokens: seq<Tok.Token>)
    requires SpellSymspell.ValidIndex(idx)
    ensures Refused(text) ==> ok
    ensures !Refused(text) ==> tokens == Scanner.WordTokensOf(text)
    ensures !Refused(text) ==> Tok.Tiles(tokens, text, |text|) && Scanner.Classified(tokens)
    ensures !Refused(text) ==> (ok <==> !HasErrors(idx, d, tokens, det))
  {
    if text == [] || Unicode.ByteLen(text) > MaxInputBytes {
      return true, [];
    }
    var words := Tokenizer.WordTokens(text);
    var toks := words.value;
    tokens := toks;
    if |toks| == 0 {
      return true, tokens;
    }
    ok := IsValidTokens(toks, det, idx, d);
  }
}
