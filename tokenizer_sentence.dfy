/**
 * The sentence splitter: one left-to-right pass that cuts the input after a
 * double newline, or after terminal punctuation that whitespace and an
 * upper-case letter follow, unless the dot closes a known abbreviation.
 * The tokens tile the input, every sentence but the last ends at such a
 * break, and every double-newline run and every cut (a terminal cluster
 * not opened by an abbreviation dot, or an ellipsis, before whitespace and
 * a capital) ends a sentence.
 */
module TokenizerSentence {
  import opened Unicode
  import AzCase
  import T = TokenizerTypes
  import Sc = TokenizerScanner

  /** The lower-case abbreviations, each with its trailing dot. */
  const Abbreviations: set<string> := {
    "prof.", "dos.", "ak.", "dr.",
    "az.", "az.r.", "ar.",
    "b.e.", "m.e.", "e.ə.",
    "vb.",
    "km.", "kq.", "sm.", "min."
  }

  /** The abbreviation table's lookup. */
  predicate Listed(candidate: string) { candidate in Abbreviations }

  const Ellipsis: char := '\U{2026}'

  predicate IsNewline(c: char) { c == '\n' }
  predicate IsTerminal(c: char) { c == '.' || c == '?' || c == '!' }

  /**
   * wordBefore: skip the dots just before pos, then take the letters before
   * them. The result is the word and its start, or ("", pos) when no letter
   * precedes the dots.
   */
  function WordBefore(s: string, pos: nat): (r: (string, nat))
    requires pos <= |s|
    ensures r.1 <= pos
    ensures r.0 == "" ==> r.1 == pos
  {
    var e := RunStart(s, pos, Sc.IsDot);
    var b := RunStart(s, e, IsLetter);
    if b == e then ("", pos) else (s[b..e], b)
  }

  /**
   * The word wordBefore returns is the maximal run of letters that ends
   * where the dots before pos begin; it is empty exactly when no letter
   * precedes those dots.
   */
  lemma WordBeforeShape(s: string, pos: nat)
    requires pos <= |s|
    ensures var (w, b) := WordBefore(s, pos);
      (w != "" ==> b + |w| <= pos && w == s[b..b + |w|])
      && (forall m :: 0 <= m < |w| ==> IsLetter(w[m]))
      && (w != "" ==> (b == 0 || !IsLetter(s[b - 1])))
      && (w != "" ==> forall m :: b + |w| <= m < pos ==> s[m] == '.')
      && (w == "" <==> (RunStart(s, pos, Sc.IsDot) == 0 || !IsLetter(s[RunStart(s, pos, Sc.IsDot) - 1])))
  {
    var e := RunStart(s, pos, Sc.IsDot);
    var b := RunStart(s, e, IsLetter);
    DotsBefore(s, pos, e);
    LetterRun(s, e, b);
    RunStartStays(s, e, IsLetter);
  }

  /** The run RunStart skips before pos holds dots only. */
  lemma DotsBefore(s: string, pos: nat, e: nat)
    requires pos <= |s| && e == RunStart(s, pos, Sc.IsDot)
    ensures forall m :: e <= m < pos ==> s[m] == '.'
  {
  }

  /** The run of letters RunStart finds before e, read as a string, holds letters only. */
  lemma LetterRun(s: string, e: nat, b: nat)
    requires e <= |s| && b == RunStart(s, e, IsLetter)
    ensures forall m :: 0 <= m < |s[b..e]| ==> IsLetter(s[b..e][m])
  {
    assert forall m :: 0 <= m < |s[b..e]| ==> s[b..e][m] == s[b + m];
  }

  /** RunStart stays at j exactly when no rune satisfying p precedes j. */
  lemma RunStartStays(s: string, j: nat, p: char -> bool)
    requires j <= |s|
    ensures RunStart(s, j, p) == j <==> (j == 0 || !p(s[j - 1]))
  {
  }

  /** wordBefore's two backward loops. */
  method FindWordBefore(s: string, pos: nat) returns (word: string, start: nat)
    requires pos <= |s|
    ensures (word, start) == WordBefore(s, pos)
  {
    var i := Sc.ScanBackward(s, pos, Sc.IsDot);
    var end := i;
    i := Sc.ScanBackward(s, i, IsLetter);
    if i == end {
      return "", pos;
    }
    return s[i..end], i;
  }

  /** pos is followed by at least one whitespace rune and then an upper-case letter. */
  predicate FollowedBy(s: string, pos: nat)
    requires pos <= |s|
  {
    var j := RunEnd(s, pos, IsSpace);
    pos < j < |s| && IsUpper(s[j])
  }

  lemma UpperIsNotSpace(c: char)
    requires IsUpper(c)
    ensures !IsSpace(c)
  {
  }

  /** FollowedBy holds exactly when some upper-case rune sits after a non-empty whitespace run. */
  lemma FollowedByIff(s: string, pos: nat)
    requires pos <= |s|
    ensures FollowedBy(s, pos) <==>
      exists j :: pos < j < |s| && IsUpper(s[j]) && forall m :: pos <= m < j ==> IsSpace(s[m])
  {
    var k := RunEnd(s, pos, IsSpace);
    if exists j :: pos < j < |s| && IsUpper(s[j]) && forall m :: pos <= m < j ==> IsSpace(s[m]) {
      var j :| pos < j < |s| && IsUpper(s[j]) && forall m :: pos <= m < j ==> IsSpace(s[m]);
      UpperIsNotSpace(s[j]);
      assert k >= j by {
        if k < j {
          assert false;
        }
      }
      assert k == j;
    }
  }

  /** followedByWhitespaceUppercase: the forward loop with its foundSpace flag. */
  method FollowedByWhitespaceUppercase(s: string, pos: nat) returns (b: bool)
    requires pos <= |s|
    ensures b == FollowedBy(s, pos)
  {
    var i := pos;
    var foundSpace := false;
    while i < |s|
      invariant pos <= i <= |s|
      invariant foundSpace <==> pos < i
      invariant RunEnd(s, pos, IsSpace) == RunEnd(s, i, IsSpace)
    {
      if IsSpace(s[i]) {
        foundSpace := true;
        i := i + 1;
      } else {
        return foundSpace && IsUpper(s[i]);
      }
    }
    return false;
  }

  /** strings.EqualFold(w, "və"): v or V, then ə or Ə. */
  predicate IsVe(w: string) {
    |w| == 2 && (w[0] == 'v' || w[0] == 'V') && (w[1] == '\U{0259}' || w[1] == '\U{018F}')
  }

  /**
   * greedyAbbreviation: while the letters after pos and a dot extend the
   * matched prefix to another abbreviation, move past that dot.
   */
  function Greedy(s: string, prefix: string, pos: nat): bool
    requires pos <= |s|
    decreases |s| - pos
  {
    if pos >= |s| then true
    else
      var j := RunEnd(s, pos, IsLetter);
      if j == pos || j >= |s| || s[j] != '.' then true
      else
        var extended := prefix + AzCase.ToLower(s[pos..j]) + ".";
        if Listed(extended) then Greedy(s, extended, j + 1) else true
  }

  /**
   * Every path of the greedy extension confirms the match: at the end of the
   * input, when nothing extends it, and after any number of extensions.
   */
  lemma {:induction false} GreedyConfirms(s: string, prefix: string, pos: nat)
    requires pos <= |s|
    ensures Greedy(s, prefix, pos)
    decreases |s| - pos
  {
    if pos < |s| {
      var j := RunEnd(s, pos, IsLetter);
      if !(j == pos || j >= |s| || s[j] != '.') {
        var extended := prefix + AzCase.ToLower(s[pos..j]) + ".";
        if Listed(extended) {
          GreedyConfirms(s, extended, j + 1);
        }
      }
    }
  }

  /** isAbbreviation: the dot at dotPos closes a known abbreviation, or the "s" of "və s.". */
  function IsAbbreviation(s: string, dotPos: nat): bool
    requires dotPos < |s|
  {
    var (word, wordStart) := WordBefore(s, dotPos);
    if word == "" then false
    else
      var lower := AzCase.ToLower(word);
      var candidate := lower + ".";
      if lower == "s" && IsVe(WordBefore(s, wordStart).0) then true
      else if !Listed(candidate) then false
      else Greedy(s, candidate, dotPos + 1)
  }

  /**
   * A dot is an abbreviation dot exactly when a word precedes it and either
   * that word lower-cased with its dot is listed, or it is "s" after "və".
   */
  lemma AbbreviationIff(s: string, dotPos: nat)
    requires dotPos < |s|
    ensures IsAbbreviation(s, dotPos) <==>
      WordBefore(s, dotPos).0 != ""
      && (Listed(AzCase.ToLower(WordBefore(s, dotPos).0) + ".")
          || (AzCase.ToLower(WordBefore(s, dotPos).0) == "s" && IsVe(WordBefore(s, WordBefore(s, dotPos).1).0)))
  {
    var (w, ws) := WordBefore(s, dotPos);
    if w != "" {
      var lower := AzCase.ToLower(w);
      GreedyConfirms(s, lower + ".", dotPos + 1);
    }
  }

  /** isAbbreviation with wordBefore's loops. */
  method IsAbbreviationAt(s: string, dotPos: nat) returns (b: bool)
    requires dotPos < |s|
    ensures b == IsAbbreviation(s, dotPos)
  {
    var word, wordStart := FindWordBefore(s, dotPos);
    if word == "" {
      return false;
    }
    var lower := AzCase.ToLower(word);
    var candidate := lower + ".";
    if lower == "s" {
      var prevWord, _ := FindWordBefore(s, wordStart);
      if IsVe(prevWord) {
        return true;
      }
    }
    if !Listed(candidate) {
      return false;
    }
    return Greedy(s, candidate, dotPos + 1);
  }

  /** A maximal run of two or more newlines ends at e. */
  predicate NewlineBreak(s: string, e: nat) {
    2 <= e <= |s| && s[e - 1] == '\n' && s[e - 2] == '\n' && (e == |s| || s[e] != '\n')
  }

  /** The rune before e is a dot that no other terminal mark precedes. */
  predicate LoneDot(s: string, e: nat)
    requires 1 <= e <= |s|
  {
    s[e - 1] == '.' && (e == 1 || !IsTerminal(s[e - 2]))
  }

  /**
   * A punctuation break: terminal punctuation or an ellipsis ends at e,
   * whitespace and an upper-case letter follow, and a lone dot there is not
   * an abbreviation.
   */
  predicate PunctBreak(s: string, e: nat) {
    1 <= e <= |s| && (IsTerminal(s[e - 1]) || s[e - 1] == Ellipsis) && FollowedBy(s, e)
    && (LoneDot(s, e) ==> !AbbreviationDot(s, e - 1))
  }

  predicate BreakAt(s: string, e: nat) { NewlineBreak(s, e) || PunctBreak(s, e) }

  /** Some token of ts ends at e. */
  predicate EndsAt(ts: seq<T.Token>, e: nat) {
    exists k :: 0 <= k < |ts| && ts[k].end == e
  }

  /**
   * A cut the splitter never misses: whitespace and an upper-case letter
   * follow e, and e ends either an ellipsis rune or a cluster of . ? !
   * whose first mark is not an abbreviation dot.
   */
  predicate Cut(s: string, e: nat) {
    1 <= e <= |s| && FollowedBy(s, e)
    && (s[e - 1] == Ellipsis
        || (IsTerminal(s[e - 1]) && !AbbreviationDot(s, RunStart(s, e, IsTerminal))))
  }

  /** The dot at p closes an abbreviation, read from the set of all such dots. */
  predicate AbbreviationDot(s: string, p: nat) {
    p in AbbreviationDots(s)
  }

  /** The positions of the dots in s that close an abbreviation. */
  function AbbreviationDots(s: string): set<nat> {
    Positions(|s|, 0, (p: nat) => p < |s| && s[p] == '.' && IsAbbreviation(s, p))
  }

  /** AbbreviationDots holds exactly the abbreviation dots. */
  lemma AbbreviationDotsIff(s: string, p: nat)
    ensures AbbreviationDot(s, p) <==> p < |s| && s[p] == '.' && IsAbbreviation(s, p)
  {
    PositionsIff(|s|, 0, p, (p: nat) => p < |s| && s[p] == '.' && IsAbbreviation(s, p));
  }

  /** The positions from k up to n that satisfy test, gathered one by one. */
  function Positions(n: nat, k: nat, test: nat -> bool): (r: set<nat>)
    requires k <= n
    ensures forall p :: p in r ==> k <= p < n
    decreases n - k
  {
    if k == n then {} else (if test(k) then {k} else {}) + Positions(n, k + 1, test)
  }

  /** Positions holds exactly the positions from k up to n that satisfy test. */
  lemma {:induction false} PositionsIff(n: nat, k: nat, p: nat, test: nat -> bool)
    requires k <= n
    ensures p in Positions(n, k, test) <==> k <= p < n && test(p)
    decreases n - k
  {
    if k < n {
      PositionsIff(n, k + 1, p, test);
    }
  }

  /** Where the mark that a cut at e closes begins. */
  function CutStart(s: string, e: nat): (p: nat)
    requires 1 <= e <= |s|
    ensures p < e
  {
    if IsTerminal(s[e - 1]) then RunStart(s, e, IsTerminal) else e - 1
  }

  /** Every cut is a punctuation break. */
  lemma CutIsBreak(s: string, e: nat)
    requires Cut(s, e)
    ensures PunctBreak(s, e)
  {
    if LoneDot(s, e) {
      assert RunStart(s, e, IsTerminal) == e - 1;
    }
  }

  /** A cut's mark holds terminal marks only, so it starts at or after any q below e that is not flanked by two. */
  lemma CutAfter(s: string, e: nat, q: nat)
    requires Cut(s, e) && 0 < q < e && (!IsTerminal(s[q - 1]) || !IsTerminal(s[q]))
    ensures q <= CutStart(s, e)
  {
  }

  /** No cut ends before a rune that is not whitespace. */
  lemma NoCutBefore(s: string, e: nat)
    requires e < |s| && !IsSpace(s[e])
    ensures !Cut(s, e)
  {
  }

  /** No newline in s[a..b]. */
  predicate NoNewline(s: string, a: nat, b: nat)
    requires a <= b <= |s|
  {
    forall m :: a <= m < b ==> s[m] != '\n'
  }

  /** No cut ends in s[a + 1..b + 1]. */
  predicate NoCut(s: string, a: nat, b: nat) {
    forall e :: a < e <= b ==> !Cut(s, e)
  }

  /** Every newline break and every cut up to i is a token end. */
  predicate Ended(s: string, tokens: seq<T.Token>, i: nat) {
    forall e {:trigger Cut(s, e)} {:trigger NewlineBreak(s, e)} ::
      0 < e <= i && (NewlineBreak(s, e) || Cut(s, e)) ==> EndsAt(tokens, e)
  }

  /** When i stands strictly inside the mark of a cut, it stands at ? or !, never at a dot. */
  predicate NoDotMidCut(s: string, i: nat) {
    forall e {:trigger Cut(s, e)} :: i < e <= |s| && Cut(s, e) && CutStart(s, e) < i ==> s[i] != '.'
  }

  /** At the end of a run of terminal marks, i stands inside no cut's mark. */
  lemma AfterRun(s: string, i: nat)
    requires 0 < i <= |s| && (i == |s| || !IsTerminal(s[i]) || !IsTerminal(s[i - 1]))
    ensures NoDotMidCut(s, i)
  {
    forall e | i < e <= |s| && Cut(s, e) ensures i <= CutStart(s, e) {
      CutAfter(s, e, i);
    }
  }

  /** A run of terminal marks after i holds no cut before its last mark. */
  lemma NoCutInRun(s: string, i: nat, j: nat)
    requires i < j <= |s| && forall m :: i < m < j ==> IsTerminal(s[m])
    ensures NoCut(s, i, j - 1)
  {
    forall e | i < e <= j - 1 ensures !Cut(s, e) {
      assert IsTerminal(s[e]);
      NoCutBefore(s, e);
    }
  }

  /**
   * The loop state: the tokens tile s[..sentStart] with Sentence tokens
   * each ending at a break, i never stands inside a newline run, every
   * newline break and cut up to i is a token end, and i never stands at a
   * dot inside the mark of a cut.
   */
  predicate SentState(s: string, tokens: seq<T.Token>, sentStart: nat, i: nat) {
    sentStart <= i <= |s| && T.Tiles(tokens, s, sentStart)
    && (forall k :: 0 <= k < |tokens| ==> tokens[k].ttype == T.Sentence && BreakAt(s, tokens[k].end))
    && (0 < i < |s| && s[i - 1] == '\n' ==> s[i] != '\n')
    && Ended(s, tokens, i)
    && NoDotMidCut(s, i)
  }

  /** Moving i over newline-free text without cuts keeps the state. */
  lemma Advance(s: string, tokens: seq<T.Token>, sentStart: nat, i: nat, i': nat)
    requires SentState(s, tokens, sentStart, i) && i < i' <= |s| && NoNewline(s, i, i')
    requires NoCut(s, i, i') && NoDotMidCut(s, i')
    ensures SentState(s, tokens, sentStart, i')
  {
    forall e | i < e <= i' ensures !NewlineBreak(s, e) {
      assert s[e - 1] != '\n';
    }
  }

  /** Emitting s[sentStart..j] at a break keeps the tiling, the breaks and the ends up to i. */
  lemma Emit(s: string, tokens: seq<T.Token>, sentStart: nat, i: nat, j: nat, ts: seq<T.Token>)
    requires SentState(s, tokens, sentStart, i) && i < j <= |s| && BreakAt(s, j)
    requires ts == tokens + [T.Token(s[sentStart..j], sentStart, j, T.Sentence)]
    ensures T.Tiles(ts, s, j) && EndsAt(ts, j)
    ensures forall k :: 0 <= k < |ts| ==> ts[k].ttype == T.Sentence && BreakAt(s, ts[k].end)
    ensures Ended(s, ts, i)
  {
    T.TilesSnoc(tokens, s, sentStart, j, T.Sentence);
    assert ts[|ts| - 1].end == j;
    forall e | 0 < e <= i && (NewlineBreak(s, e) || Cut(s, e)) ensures EndsAt(ts, e) {
      var k :| 0 <= k < |tokens| && tokens[k].end == e;
      assert ts[k] == tokens[k];
    }
  }

  /** Emitting at a punctuation break over newline-free text without earlier cuts moves the state to j. */
  lemma EmitPunct(s: string, tokens: seq<T.Token>, sentStart: nat, i: nat, j: nat, ts: seq<T.Token>)
    requires SentState(s, tokens, sentStart, i) && i < j <= |s| && PunctBreak(s, j) && NoNewline(s, i, j)
    requires NoCut(s, i, j - 1) && NoDotMidCut(s, j)
    requires ts == tokens + [T.Token(s[sentStart..j], sentStart, j, T.Sentence)]
    ensures SentState(s, ts, j, j)
  {
    Emit(s, tokens, sentStart, i, j, ts);
    forall e | i < e <= j ensures !NewlineBreak(s, e) {
      assert s[e - 1] != '\n';
    }
  }

  /** Inside and at the end of a newline run there is no cut. */
  lemma NewlineRunNoCut(s: string, i: nat, j: nat)
    requires i < j <= |s| && forall m :: i <= m < j ==> s[m] == '\n'
    ensures NoCut(s, i, j) && NoDotMidCut(s, j)
  {
    AfterRun(s, j);
  }

  /** A double newline: the whole newline run joins the sentence, which ends there. */
  method NewlineRun(s: string, tokens: seq<T.Token>, sentStart: nat, i: nat)
    returns (tokens': seq<T.Token>, sentStart': nat, i': nat)
    requires SentState(s, tokens, sentStart, i) && i + 1 < |s| && s[i] == '\n' && s[i + 1] == '\n'
    ensures SentState(s, tokens', sentStart', i') && i < i'
    ensures (tokens', sentStart', i') == Next(s, tokens, sentStart, i)
  {
    var j := Sc.ScanForward(s, i, IsNewline);
    assert s[j - 1] == '\n' && s[j - 2] == '\n';
    assert NewlineBreak(s, j);
    tokens' := tokens + [T.Token(s[sentStart..j], sentStart, j, T.Sentence)];
    Emit(s, tokens, sentStart, i, j, tokens');
    NewlineRunNoCut(s, i, j);
    forall e | i < e < j ensures !NewlineBreak(s, e) {
      assert s[e] == '\n';
    }
    sentStart', i' := j, j;
    assert (tokens', sentStart', i') == Next(s, tokens, sentStart, i) by {
      NewlineStep(s, i);
      NextIs(s, tokens, sentStart, i, j, true);
    }
  }

  /** A run of three or more dots is newline-free, holds no cut before its end and ends at a break when followed. */
  lemma DotRunFacts(s: string, i: nat, j: nat)
    requires i + 2 < |s| && s[i] == '.' && s[i + 1] == '.' && s[i + 2] == '.' && j == RunEnd(s, i, Sc.IsDot)
    ensures i + 2 < j && NoNewline(s, i, j) && NoCut(s, i, j - 1) && NoDotMidCut(s, j)
    ensures FollowedBy(s, j) ==> PunctBreak(s, j)
    ensures !FollowedBy(s, j) ==> NoCut(s, i, j)
  {
    NoCutInRun(s, i, j);
    assert s[j - 2] == '.';
  }

  /** Three or more dots: the run is one mark, a break when whitespace and a capital follow. */
  method DotRun(s: string, tokens: seq<T.Token>, sentStart: nat, i: nat)
    returns (tokens': seq<T.Token>, sentStart': nat, i': nat)
    requires SentState(s, tokens, sentStart, i) && i + 2 < |s| && s[i] == '.' && s[i + 1] == '.' && s[i + 2] == '.'
    ensures SentState(s, tokens', sentStart', i') && i < i'
    ensures (tokens', sentStart', i') == Next(s, tokens, sentStart, i)
  {
    var j := Sc.ScanForward(s, i, Sc.IsDot);
    DotRunFacts(s, i, j);
    var followed := FollowedByWhitespaceUppercase(s, j);
    if followed {
      tokens' := tokens + [T.Token(s[sentStart..j], sentStart, j, T.Sentence)];
      EmitPunct(s, tokens, sentStart, i, j, tokens');
      sentStart' := j;
    } else {
      Advance(s, tokens, sentStart, i, j);
      tokens', sentStart' := tokens, sentStart;
    }
    i' := j;
    assert (tokens', sentStart', i') == Next(s, tokens, sentStart, i) by {
      DotRunStep(s, i);
      NextIs(s, tokens, sentStart, i, j, followed);
    }
  }

  /** Skipping an abbreviation dot passes no cut and lands inside none. */
  lemma AbbreviationSkip(s: string, i: nat)
    requires NoDotMidCut(s, i) && i < |s| && s[i] == '.' && AbbreviationDot(s, i)
    ensures !Cut(s, i + 1) && NoDotMidCut(s, i + 1)
  {
    AbbreviationNotCut(s, i);
    forall e | i + 1 < e <= |s| && Cut(s, e) ensures i + 1 <= CutStart(s, e) {
      AbbreviationNotInCut(s, i, e);
    }
  }

  /** The abbreviation dot itself ends no cut. */
  lemma AbbreviationNotCut(s: string, i: nat)
    requires NoDotMidCut(s, i) && i < |s| && s[i] == '.' && AbbreviationDot(s, i)
    ensures !Cut(s, i + 1)
  {
    assert CutStart(s, i + 1) <= i;
  }

  /** The mark of a later cut cannot hold the abbreviation dot. */
  lemma AbbreviationNotInCut(s: string, i: nat, e: nat)
    requires NoDotMidCut(s, i) && i + 1 < e <= |s| && s[i] == '.' && AbbreviationDot(s, i) && Cut(s, e)
    ensures i + 1 <= CutStart(s, e)
  {
    assert CutStart(s, e) != i;
  }

  /** Moving i past a dot that ends no cut and lands inside none keeps the state. */
  lemma DotAdvance(s: string, tokens: seq<T.Token>, sentStart: nat, i: nat)
    requires SentState(s, tokens, sentStart, i) && i < |s| && s[i] == '.'
    requires !Cut(s, i + 1) && NoDotMidCut(s, i + 1)
    ensures SentState(s, tokens, sentStart, i + 1)
  {
    assert !NewlineBreak(s, i + 1);
  }

  /** Moving past an abbreviation dot keeps the state. */
  lemma SkipState(s: string, tokens: seq<T.Token>, sentStart: nat, i: nat)
    requires SentState(s, tokens, sentStart, i) && i < |s| && s[i] == '.' && AbbreviationDot(s, i)
    ensures SentState(s, tokens, sentStart, i + 1)
  {
    AbbreviationSkip(s, i);
    DotAdvance(s, tokens, sentStart, i);
  }

  /** An abbreviation dot that starts no run of three dots is passed over without a break. */
  lemma SkipStep(s: string, i: nat)
    requires i < |s| && s[i] == '.' && IsAbbreviation(s, i)
    requires !(i + 2 < |s| && s[i + 1] == '.' && s[i + 2] == '.')
    ensures SentStep(s, i) == (i + 1, false)
  {
  }

  /** A terminal mark that starts no run of three dots and closes no abbreviation takes its whole cluster. */
  lemma ClusterStep(s: string, i: nat)
    requires i < |s| && IsTerminal(s[i]) && !(s[i] == '.' && IsAbbreviation(s, i))
    requires !(s[i] == '.' && i + 2 < |s| && s[i + 1] == '.' && s[i + 2] == '.')
    ensures SentStep(s, i) == (RunEnd(s, i + 1, IsTerminal), FollowedBy(s, RunEnd(s, i + 1, IsTerminal)))
  {
  }

  /** The terminal mark at i is a dot that closes an abbreviation. */
  method ClosesAbbreviation(s: string, i: nat) returns (b: bool)
    requires i < |s|
    ensures b <==> AbbreviationDot(s, i)
    ensures b <==> s[i] == '.' && IsAbbreviation(s, i)
  {
    b := false;
    if s[i] == '.' {
      b := IsAbbreviationAt(s, i);
    }
    AbbreviationDotsIff(s, i);
  }

  /**
   * A terminal mark that does not start an ellipsis: an abbreviation dot is
   * skipped; otherwise the whole cluster of . ? ! is one mark.
   */
  method Terminal(s: string, tokens: seq<T.Token>, sentStart: nat, i: nat)
    returns (tokens': seq<T.Token>, sentStart': nat, i': nat)
    requires SentState(s, tokens, sentStart, i) && i < |s| && IsTerminal(s[i])
    requires !(s[i] == '.' && i + 2 < |s| && s[i + 1] == '.' && s[i + 2] == '.')
    ensures SentState(s, tokens', sentStart', i') && i < i'
    ensures (tokens', sentStart', i') == Next(s, tokens, sentStart, i)
  {
    var abbreviation := ClosesAbbreviation(s, i);
    if abbreviation {
      tokens', sentStart', i' := SkipDot(s, tokens, sentStart, i);
    } else {
      tokens', sentStart', i' := Cluster(s, tokens, sentStart, i);
    }
  }

  /** An abbreviation dot is passed over: the sentence goes on. */
  method SkipDot(s: string, tokens: seq<T.Token>, sentStart: nat, i: nat)
    returns (tokens': seq<T.Token>, sentStart': nat, i': nat)
    requires SentState(s, tokens, sentStart, i) && i < |s| && s[i] == '.' && AbbreviationDot(s, i)
    requires !(i + 2 < |s| && s[i + 1] == '.' && s[i + 2] == '.')
    ensures SentState(s, tokens', sentStart', i') && i < i'
    ensures (tokens', sentStart', i') == Next(s, tokens, sentStart, i)
  {
    tokens', sentStart', i' := tokens, sentStart, i + 1;
    assert SentState(s, tokens', sentStart', i') by {
      SkipState(s, tokens, sentStart, i);
    }
    assert (tokens', sentStart', i') == Next(s, tokens, sentStart, i) by {
      SkipNext(s, tokens, sentStart, i);
    }
  }

  /** Next after an abbreviation dot keeps the tokens and the sentence start and moves one rune on. */
  lemma SkipNext(s: string, tokens: seq<T.Token>, sentStart: nat, i: nat)
    requires sentStart <= i < |s| && s[i] == '.' && AbbreviationDot(s, i)
    requires !(i + 2 < |s| && s[i + 1] == '.' && s[i + 2] == '.')
    ensures Next(s, tokens, sentStart, i) == (tokens, sentStart, i + 1)
  {
    AbbreviationDotsIff(s, i);
    SkipStep(s, i);
    NextIs(s, tokens, sentStart, i, i + 1, false);
  }

  /** A cluster that whitespace and a capital follow is a break, unless it is a lone abbreviation dot. */
  lemma ClusterBreak(s: string, i: nat, j: nat)
    requires i < j <= |s| && IsTerminal(s[i]) && forall m :: i < m < j ==> IsTerminal(s[m])
    requires FollowedBy(s, j)
    requires !AbbreviationDot(s, i)
    ensures PunctBreak(s, j)
  {
    if j > i + 1 {
      assert IsTerminal(s[j - 2]);
    }
  }

  /**
   * The cluster that starts at a terminal mark runs over terminal marks
   * only, so it holds no newline and no cut before its end.
   */
  lemma TerminalRun(s: string, i: nat, j: nat)
    requires i < |s| && IsTerminal(s[i]) && j == Unicode.RunEnd(s, i + 1, IsTerminal)
    ensures i < j <= |s| && NoNewline(s, i, j) && forall m :: i < m < j ==> IsTerminal(s[m])
    ensures NoCut(s, i, j - 1) && NoDotMidCut(s, j)
    ensures !FollowedBy(s, j) ==> NoCut(s, i, j)
  {
    NoCutInRun(s, i, j);
    AfterRun(s, j);
    if !FollowedBy(s, j) {
      NoCutExtends(s, i, j);
    }
  }

  /** A position whitespace and a capital do not follow ends no cut, so the cut-free range extends to it. */
  lemma NoCutExtends(s: string, i: nat, j: nat)
    requires i < j <= |s| && NoCut(s, i, j - 1) && !FollowedBy(s, j)
    ensures NoCut(s, i, j)
  {
  }

  /** A cluster of . ? ! is one mark, a break when whitespace and a capital follow. */
  method Cluster(s: string, tokens: seq<T.Token>, sentStart: nat, i: nat)
    returns (tokens': seq<T.Token>, sentStart': nat, i': nat)
    requires SentState(s, tokens, sentStart, i) && i < |s| && IsTerminal(s[i])
    requires !(s[i] == '.' && i + 2 < |s| && s[i + 1] == '.' && s[i + 2] == '.')
    requires !AbbreviationDot(s, i)
    ensures SentState(s, tokens', sentStart', i') && i < i'
    ensures (tokens', sentStart', i') == Next(s, tokens, sentStart, i)
  {
    var j := Sc.ScanForward(s, i + 1, IsTerminal);
    TerminalRun(s, i, j);
    var followed := FollowedByWhitespaceUppercase(s, j);
    if followed {
      ClusterBreak(s, i, j);
      tokens' := tokens + [T.Token(s[sentStart..j], sentStart, j, T.Sentence)];
      EmitPunct(s, tokens, sentStart, i, j, tokens');
      sentStart' := j;
    } else {
      Advance(s, tokens, sentStart, i, j);
      tokens', sentStart' := tokens, sentStart;
    }
    i' := j;
    assert (tokens', sentStart', i') == Next(s, tokens, sentStart, i) by {
      AbbreviationDotsIff(s, i);
      ClusterStep(s, i);
      NextIs(s, tokens, sentStart, i, j, followed);
    }
  }

  /** The ellipsis rune is no newline, and it breaks whenever whitespace and a capital follow. */
  lemma EllipsisFacts(s: string, i: nat)
    requires i < |s| && s[i] == Ellipsis
    ensures NoNewline(s, i, i + 1) && (FollowedBy(s, i + 1) ==> PunctBreak(s, i + 1))
    ensures NoDotMidCut(s, i + 1)
  {
    AfterRun(s, i + 1);
  }

  /** The ellipsis rune U+2026: a break when whitespace and a capital follow. */
  method EllipsisRune(s: string, tokens: seq<T.Token>, sentStart: nat, i: nat)
    returns (tokens': seq<T.Token>, sentStart': nat, i': nat)
    requires SentState(s, tokens, sentStart, i) && i < |s| && s[i] == Ellipsis
    ensures SentState(s, tokens', sentStart', i') && i < i'
    ensures (tokens', sentStart', i') == Next(s, tokens, sentStart, i)
  {
    var j := i + 1;
    EllipsisFacts(s, i);
    var followed := FollowedByWhitespaceUppercase(s, j);
    if followed {
      tokens' := tokens + [T.Token(s[sentStart..j], sentStart, j, T.Sentence)];
      EmitPunct(s, tokens, sentStart, i, j, tokens');
      sentStart' := j;
    } else {
      Advance(s, tokens, sentStart, i, j);
      tokens', sentStart' := tokens, sentStart;
    }
    i' := j;
    assert (tokens', sentStart', i') == Next(s, tokens, sentStart, i) by {
      EllipsisStep(s, i);
      NextIs(s, tokens, sentStart, i, j, followed);
    }
  }

  /** Any other rune, a single newline included, stays in the sentence. */
  lemma Step(s: string, tokens: seq<T.Token>, sentStart: nat, i: nat)
    requires SentState(s, tokens, sentStart, i) && i < |s|
    requires !(s[i] == '\n' && i + 1 < |s| && s[i + 1] == '\n')
    requires !IsTerminal(s[i]) && s[i] != Ellipsis
    ensures SentState(s, tokens, sentStart, i + 1)
  {
    assert !NewlineBreak(s, i + 1);
    AfterRun(s, i + 1);
  }

  /** What sentenceTokens promises of its tokens. */
  predicate SentenceSplit(s: string, tokens: seq<T.Token>) {
    T.Tiles(tokens, s, |s|)
    && (forall k :: 0 <= k < |tokens| ==> tokens[k].ttype == T.Sentence)
    && (forall k :: 0 <= k < |tokens| - 1 ==> BreakAt(s, tokens[k].end))
    && Ended(s, tokens, |s|)
  }

  /**
   * A question or exclamation mark that whitespace and a capital follow
   * always ends a sentence, and so does a dot there unless it closes an
   * abbreviation.
   */
  lemma MarkEndsSentence(s: string, tokens: seq<T.Token>, e: nat)
    requires SentenceSplit(s, tokens) && 1 <= e <= |s| && FollowedBy(s, e)
    requires IsTerminal(s[e - 1]) && (e == 1 || !IsTerminal(s[e - 2]))
    requires s[e - 1] == '.' ==> !IsAbbreviation(s, e - 1)
    ensures EndsAt(tokens, e)
  {
    assert RunStart(s, e, IsTerminal) == e - 1;
    AbbreviationDotsIff(s, e - 1);
    assert Cut(s, e);
  }

  /**
   * The "və s." case as written: the word before "s" is looked for right
   * before it, past dots only, so the case fires when a dot joins the two
   * words ("və.s.") ...
   */
  lemma VeSJoined()
    ensures IsAbbreviation("və.s. Bu", 4)
  {
    VeSJoinedWords();
    AfterVe("və.s. Bu", 4);
  }

  /** In "və.s. Bu" the word before the second dot is "s", and "və" comes right before it. */
  lemma VeSJoinedWords()
    ensures WordBefore("və.s. Bu", 4) == ("s", 3) && WordBefore("və.s. Bu", 3).0 == "və"
  {
    var s := "və.s. Bu";
    VeSRunes();
    assert RunStart(s, 4, Sc.IsDot) == 4 && RunStart(s, 4, IsLetter) == 3 && s[3..4] == "s";
    VeBeforeDot(s);
  }

  /** Right before a dot at 2 that follows "və", wordBefore finds "və". */
  lemma VeBeforeDot(s: string)
    requires |s| >= 3 && s[0] == 'v' && s[1] == 'ə' && s[2] == '.'
    ensures WordBefore(s, 3).0 == "və"
  {
    VeSRunes();
    assert RunStart(s, 3, Sc.IsDot) == 2;
    assert RunStart(s, 2, IsLetter) == 0;
    assert s[0..2] == "və";
  }

  /** An "s" before a dot with "və" right before it makes an abbreviation. */
  lemma AfterVe(s: string, dotPos: nat)
    requires dotPos < |s| && WordBefore(s, dotPos).0 == "s" && IsVe(WordBefore(s, WordBefore(s, dotPos).1).0)
    ensures IsAbbreviation(s, dotPos)
  {
    LowerS();
  }

  /** ... while after a space ("və s.") no word is found, and a capital after the dot starts a new sentence. */
  lemma VeSSpaced(tokens: seq<T.Token>)
    requires SentenceSplit("və s. Bu", tokens)
    ensures EndsAt(tokens, 5)
  {
    VeSSpacedBreaks();
    MarkEndsSentence("və s. Bu", tokens, 5);
  }

  /** The dot of a spaced "və s." followed by a capital is a sentence mark, not an abbreviation dot. */
  lemma VeSSpacedBreaks()
    ensures !IsAbbreviation("və s. Bu", 4) && FollowedBy("və s. Bu", 5)
  {
    VeSSpacedWords();
    LoneS("və s. Bu", 4);
    VeSFollowed();
  }

  /** A lone "s" before a dot, with no word right before it, does not make an abbreviation. */
  lemma LoneS(s: string, dotPos: nat)
    requires dotPos < |s| && WordBefore(s, dotPos).0 == "s" && WordBefore(s, WordBefore(s, dotPos).1).0 == ""
    ensures !IsAbbreviation(s, dotPos)
  {
    LowerS();
  }

  /** "s" is its own lower case, and "s." is not listed. */
  lemma LowerS()
    ensures AzCase.ToLower("s") == "s" && !Listed("s.")
  {
    assert AzCase.ToLower("s")[0] == 's';
  }

  /** In "və s. Bu" a space and a capital follow the dot. */
  lemma VeSFollowed()
    ensures FollowedBy("və s. Bu", 5)
  {
    assert RunEnd("və s. Bu", 5, IsSpace) == 6;
  }

  /** In "və s. Bu" the word before the dot is "s", and no word comes right before it. */
  lemma VeSSpacedWords()
    ensures WordBefore("və s. Bu", 4) == ("s", 3) && WordBefore("və s. Bu", 3).0 == ""
  {
    var s := "və s. Bu";
    VeSRunes();
    assert RunStart(s, 4, Sc.IsDot) == 4 && RunStart(s, 4, IsLetter) == 3 && s[3..4] == "s";
    assert RunStart(s, 3, Sc.IsDot) == 3 && RunStart(s, 3, IsLetter) == 3;
  }

  /** The runes of "və" and "s" are letters; a space and a dot are not. */
  lemma VeSRunes()
    ensures IsLetter('v') && IsLetter('ə') && IsLetter('s') && !IsLetter(' ') && !IsLetter('.')
  {
  }

  /**
   * One pass of sentenceTokens' loop at i, in the source's rule order: a
   * double newline takes its whole run and always breaks; three dots take
   * the whole dot run; a dot closing an abbreviation is skipped; any other
   * . ? ! takes its whole cluster; U+2026 is one mark; any other rune is
   * passed over. The result is where the scan goes on and whether a
   * sentence ends there.
   */
  function SentStep(s: string, i: nat): (r: (nat, bool))
    requires i < |s|
    ensures i < r.0 <= |s|
  {
    if s[i] == '\n' && i + 1 < |s| && s[i + 1] == '\n' then
      (RunEnd(s, i, IsNewline), true)
    else if s[i] == '.' && i + 2 < |s| && s[i + 1] == '.' && s[i + 2] == '.' then
      var j := RunEnd(s, i, Sc.IsDot);
      (j, FollowedBy(s, j))
    else if s[i] == '.' && IsAbbreviation(s, i) then
      (i + 1, false)
    else if IsTerminal(s[i]) then
      var j := RunEnd(s, i + 1, IsTerminal);
      (j, FollowedBy(s, j))
    else if s[i] == Ellipsis then
      (i + 1, FollowedBy(s, i + 1))
    else
      (i + 1, false)
  }

  /** The loop's state after one pass: the tokens, the sentence start and i. */
  function Next(s: string, tokens: seq<T.Token>, sentStart: nat, i: nat): (r: (seq<T.Token>, nat, nat))
    requires sentStart <= i < |s|
    ensures r.1 <= r.2 && i < r.2 <= |s|
  {
    var (j, brk) := SentStep(s, i);
    if brk then (tokens + [T.Token(s[sentStart..j], sentStart, j, T.Sentence)], j, j)
    else (tokens, sentStart, j)
  }

  /** Next appends the sentence up to j when the step breaks, and otherwise only moves i to j. */
  lemma NextIs(s: string, tokens: seq<T.Token>, sentStart: nat, i: nat, j: nat, brk: bool)
    requires sentStart <= i < |s| && SentStep(s, i) == (j, brk)
    ensures Next(s, tokens, sentStart, i)
      == if brk then (tokens + [T.Token(s[sentStart..j], sentStart, j, T.Sentence)], j, j) else (tokens, sentStart, j)
  {
  }

  /** A double newline takes its whole run and breaks. */
  lemma NewlineStep(s: string, i: nat)
    requires i + 1 < |s| && s[i] == '\n' && s[i + 1] == '\n'
    ensures SentStep(s, i) == (RunEnd(s, i, IsNewline), true)
  {
  }

  /** Three dots take the whole dot run, which breaks when whitespace and a capital follow. */
  lemma DotRunStep(s: string, i: nat)
    requires i + 2 < |s| && s[i] == '.' && s[i + 1] == '.' && s[i + 2] == '.'
    ensures SentStep(s, i) == (RunEnd(s, i, Sc.IsDot), FollowedBy(s, RunEnd(s, i, Sc.IsDot)))
  {
  }

  /** U+2026 is one mark, which breaks when whitespace and a capital follow. */
  lemma EllipsisStep(s: string, i: nat)
    requires i < |s| && s[i] == Ellipsis
    ensures SentStep(s, i) == (i + 1, FollowedBy(s, i + 1))
  {
  }

  /** Any other rune, a lone newline included, is passed over. */
  lemma OtherStep(s: string, i: nat)
    requires i < |s| && !(s[i] == '\n' && i + 1 < |s| && s[i + 1] == '\n')
    requires !IsTerminal(s[i]) && s[i] != Ellipsis
    ensures SentStep(s, i) == (i + 1, false)
  {
  }

  /** The loop run from i to the end, followed by the final sentence. */
  function SplitFrom(s: string, tokens: seq<T.Token>, sentStart: nat, i: nat): seq<T.Token>
    requires sentStart <= i <= |s|
    decreases |s| - i
  {
    if i == |s| then
      if sentStart < |s| then tokens + [T.Token(s[sentStart..], sentStart, |s|, T.Sentence)] else tokens
    else
      var (tokens', sentStart', i') := Next(s, tokens, sentStart, i);
      SplitFrom(s, tokens', sentStart', i')
  }

  /**
   * Three dots are taken as one mark before the abbreviation test is ever
   * reached, so "dr... Bu" ends a sentence after the dots although "dr."
   * is an abbreviation.
   */
  lemma DrEllipsisBreaks(s: string)
    requires s == "dr... Bu"
    ensures SentencesOf(s) == [T.Token("dr...", 0, 5, T.Sentence), T.Token(" Bu", 5, 8, T.Sentence)]
  {
    var first := [T.Token("dr...", 0, 5, T.Sentence)];
    assert SplitFrom(s, [], 0, 0) == SplitFrom(s, [], 0, 2) by {
      PassPlain(s, [], 0, 0, 2);
    }
    assert SplitFrom(s, [], 0, 2) == SplitFrom(s, first, 5, 5) by {
      assert RunEnd(s, 5, Sc.IsDot) == 5;
      assert RunEnd(s, 3, Sc.IsDot) == RunEnd(s, 4, Sc.IsDot) == 5;
      assert RunEnd(s, 2, Sc.IsDot) == 5;
      assert FollowedBy(s, 5) by {
        assert RunEnd(s, 5, IsSpace) == 6;
      }
      assert s[0..5] == "dr...";
      DotRunStep(s, 2);
      NextIs(s, [], 0, 2, 5, true);
      SplitStep(s, [], 0, 2);
      assert [] + [T.Token(s[0..5], 0, 5, T.Sentence)] == first;
      assert Next(s, [], 0, 2) == (first, 5, 5);
    }
    assert SplitFrom(s, first, 5, 5) == first + [T.Token(" Bu", 5, 8, T.Sentence)] by {
      assert s[5..] == " Bu";
      PassOver(s, first, 5, 5, 8);
    }
  }

  /**
   * A dot that closes an abbreviation is skipped, and the ? after it then
   * ends the sentence: "Dr.? Bu" breaks after the question mark, and so it
   * would if the dot were no abbreviation dot.
   */
  lemma DrQuestionBreaks(s: string)
    requires s == "Dr.? Bu"
    ensures SentencesOf(s) == [T.Token("Dr.?", 0, 4, T.Sentence), T.Token(" Bu", 4, 7, T.Sentence)]
  {
    var first := [T.Token("Dr.?", 0, 4, T.Sentence)];
    assert SplitFrom(s, [], 0, 0) == SplitFrom(s, [], 0, 2) by {
      PassPlain(s, [], 0, 0, 2);
    }
    assert SplitFrom(s, [], 0, 2) == SplitFrom(s, first, 4, 4) by {
      QuestionAfterDot(s, first);
    }
    assert SplitFrom(s, first, 4, 4) == first + [T.Token(" Bu", 4, 7, T.Sentence)] by {
      assert s[4..] == " Bu";
      PassOver(s, first, 4, 4, 7);
    }
  }

  /** In "Dr.? Bu" the scan from the dot ends the first sentence after the question mark, whether or not the dot is skipped. */
  lemma QuestionAfterDot(s: string, first: seq<T.Token>)
    requires s == "Dr.? Bu" && first == [T.Token("Dr.?", 0, 4, T.Sentence)]
    ensures SplitFrom(s, [], 0, 2) == SplitFrom(s, first, 4, 4)
  {
    assert RunEnd(s, 3, IsTerminal) == 4;
    assert FollowedBy(s, 4) by {
      assert RunEnd(s, 4, IsSpace) == 5;
    }
    assert s[0..4] == "Dr.?";
    SplitStep(s, [], 0, 2);
    if IsAbbreviation(s, 2) {
      SkipStep(s, 2);
      NextIs(s, [], 0, 2, 3, false);
      assert RunEnd(s, 4, IsTerminal) == 4;
      ClusterStep(s, 3);
      NextIs(s, [], 0, 3, 4, true);
      SplitStep(s, [], 0, 3);
      assert [] + [T.Token(s[0..4], 0, 4, T.Sentence)] == first;
      assert Next(s, [], 0, 3) == (first, 4, 4);
    } else {
      ClusterStep(s, 2);
      NextIs(s, [], 0, 2, 4, true);
      assert [] + [T.Token(s[0..4], 0, 4, T.Sentence)] == first;
    }
  }

  /** A rune no rule of the loop applies to. */
  predicate Plain(c: char) { !IsTerminal(c) && c != Ellipsis && c != '\n' }

  /** Runes no rule applies to are passed over without a break. */
  lemma {:induction false} PassPlain(s: string, tokens: seq<T.Token>, sentStart: nat, i: nat, k: nat)
    requires sentStart <= i <= k <= |s|
    requires forall m :: i <= m < k ==> Plain(s[m])
    ensures SplitFrom(s, tokens, sentStart, i) == SplitFrom(s, tokens, sentStart, k)
    decreases k - i
  {
    if i < k {
      OtherStep(s, i);
      NextIs(s, tokens, sentStart, i, i + 1, false);
      PassPlain(s, tokens, sentStart, i + 1, k);
    }
  }

  /** From i to the end of a text of runes no rule applies to, the rest becomes the last sentence. */
  lemma PassOver(s: string, tokens: seq<T.Token>, sentStart: nat, i: nat, n: nat)
    requires sentStart <= i <= |s| == n && sentStart < n
    requires forall m :: i <= m < n ==> Plain(s[m])
    ensures SplitFrom(s, tokens, sentStart, i) == tokens + [T.Token(s[sentStart..], sentStart, n, T.Sentence)]
  {
    PassPlain(s, tokens, sentStart, i, n);
  }

  /** Run to the end from a tiling of s[..sentStart], the loop gives a tiling of s. */
  lemma {:induction false} SplitFromTiles(s: string, tokens: seq<T.Token>, sentStart: nat, i: nat)
    requires sentStart <= i <= |s| && T.Tiles(tokens, s, sentStart)
    ensures T.Tiles(SplitFrom(s, tokens, sentStart, i), s, |s|)
    decreases |s| - i
  {
    if i == |s| {
      if sentStart < |s| {
        T.TilesSnoc(tokens, s, sentStart, |s|, T.Sentence);
        assert s[sentStart..] == s[sentStart..|s|];
      }
    } else {
      var (j, brk) := SentStep(s, i);
      NextIs(s, tokens, sentStart, i, j, brk);
      if brk {
        T.TilesSnoc(tokens, s, sentStart, j, T.Sentence);
        SplitFromTiles(s, tokens + [T.Token(s[sentStart..j], sentStart, j, T.Sentence)], j, j);
      } else {
        SplitFromTiles(s, tokens, sentStart, j);
      }
    }
  }

  /** The sentence tokens of s tile it. */
  lemma SentencesTile(s: string)
    ensures T.Tiles(SentencesOf(s), s, |s|)
  {
    SplitFromTiles(s, [], 0, 0);
  }

  /** Running the loop from i is one pass followed by running it from where that pass leaves off. */
  lemma SplitStep(s: string, tokens: seq<T.Token>, sentStart: nat, i: nat)
    requires sentStart <= i < |s|
    ensures var (tokens', sentStart', i') := Next(s, tokens, sentStart, i);
      SplitFrom(s, tokens, sentStart, i) == SplitFrom(s, tokens', sentStart', i')
  {
  }

  /** The sentence tokens of s, as sentenceTokens computes them. */
  function SentencesOf(s: string): seq<T.Token> {
    SplitFrom(s, [], 0, 0)
  }

  /**
   * sentenceTokens: the Sentence tokens tile s; every sentence but the last
   * ends at a break (a newline run, or terminal punctuation that whitespace
   * and a capital follow and that is not an abbreviation dot); every run of
   * two or more newlines and every cut ends a sentence.
   */
  method SentenceTokens(s: string) returns (tokens: seq<T.Token>)
    ensures tokens == SentencesOf(s)
    ensures SentenceSplit(s, tokens)
  {
    tokens := [];
    var sentStart: nat := 0;
    var i: nat := 0;
    while i < |s|
      invariant SentState(s, tokens, sentStart, i)
      invariant SplitFrom(s, tokens, sentStart, i) == SentencesOf(s)
      decreases |s| - i
    {
      var tokens', sentStart', i' := Pass(s, tokens, sentStart, i);
      SplitStep(s, tokens, sentStart, i);
      tokens, sentStart, i := tokens', sentStart', i';
    }
    tokens := FinalSentence(s, tokens, sentStart);
  }

  /** One pass of the loop: the rule that applies at i, in the source's order. */
  method Pass(s: string, tokens: seq<T.Token>, sentStart: nat, i: nat)
    returns (tokens': seq<T.Token>, sentStart': nat, i': nat)
    requires SentState(s, tokens, sentStart, i) && i < |s|
    ensures SentState(s, tokens', sentStart', i') && i < i'
    ensures (tokens', sentStart', i') == Next(s, tokens, sentStart, i)
  {
    if s[i] == '\n' && i + 1 < |s| && s[i + 1] == '\n' {
      tokens', sentStart', i' := NewlineRun(s, tokens, sentStart, i);
    } else if s[i] == '.' && i + 2 < |s| && s[i + 1] == '.' && s[i + 2] == '.' {
      tokens', sentStart', i' := DotRun(s, tokens, sentStart, i);
    } else if IsTerminal(s[i]) {
      tokens', sentStart', i' := Terminal(s, tokens, sentStart, i);
    } else if s[i] == Ellipsis {
      tokens', sentStart', i' := EllipsisRune(s, tokens, sentStart, i);
    } else {
      tokens', sentStart', i' := OtherRune(s, tokens, sentStart, i);
    }
  }

  /** Any other rune, a single newline included, is passed over. */
  method OtherRune(s: string, tokens: seq<T.Token>, sentStart: nat, i: nat)
    returns (tokens': seq<T.Token>, sentStart': nat, i': nat)
    requires SentState(s, tokens, sentStart, i) && i < |s|
    requires !(s[i] == '\n' && i + 1 < |s| && s[i + 1] == '\n')
    requires !IsTerminal(s[i]) && s[i] != Ellipsis
    ensures SentState(s, tokens', sentStart', i') && i < i'
    ensures (tokens', sentStart', i') == Next(s, tokens, sentStart, i)
  {
    tokens', sentStart', i' := tokens, sentStart, i + 1;
    assert SentState(s, tokens', sentStart', i') by {
      Step(s, tokens, sentStart, i);
    }
    assert (tokens', sentStart', i') == Next(s, tokens, sentStart, i) by {
      OtherStep(s, i);
      NextIs(s, tokens, sentStart, i, i + 1, false);
    }
  }

  /** The rest of the input after the last break is the final sentence. */
  method FinalSentence(s: string, tokens: seq<T.Token>, sentStart: nat) returns (tokens': seq<T.Token>)
    requires SentState(s, tokens, sentStart, |s|)
    ensures tokens' == SplitFrom(s, tokens, sentStart, |s|)
    ensures SentenceSplit(s, tokens')
  {
    tokens' := tokens;
    if sentStart < |s| {
      var last := T.Token(s[sentStart..], sentStart, |s|, T.Sentence);
      T.TilesSnoc(tokens, s, sentStart, |s|, T.Sentence);
      assert s[sentStart..] == s[sentStart..|s|];
      tokens' := tokens + [last];
      forall e | 0 < e <= |s| && (NewlineBreak(s, e) || Cut(s, e)) ensures EndsAt(tokens', e) {
        var k :| 0 <= k < |tokens| && tokens[k].end == e;
        assert tokens'[k] == tokens[k];
      }
    }
  }
}
