/**
 * The text validator's checks over a token stream: spelling, punctuation
 * spacing and repetition, homoglyphs from the wrong script (layout) and
 * words written wholly in the other script (mixed script). Each check
 * walks the tokens in order, appends at most one issue per token to a
 * shared list, and stops as soon as the list holds MaxIssues.
 *
 * Each check is a method proved against a function giving the issue one
 * token yields; Capped folds those per-token results under the cap.
 */
module ValidateChecks {
  import Wrappers
  import Unicode
  import AzCase
  import Tok = TokenizerTypes
  import Spell
  import SpellSymspell
  import MorphDict

  /** IssueType values. */
  const Spelling: int := 0
  const Punctuation: int := 1
  const Layout: int := 2
  const MixedScript: int := 3

  /** Severity values: a higher value is more severe. */
  const Info: int := 0
  const Warning: int := 1
  const Error: int := 2

  /** No check appends once the list holds this many issues. */
  const MaxIssues: nat := 1000
  /** A space token with at least this many spaces is flagged. */
  const MinDoubleSpaces: nat := 2
  /** A run of at least this many identical punctuation tokens is flagged... */
  const MinConsecutivePunct: nat := 2
  /** ...unless it is exactly this many dots. */
  const EllipsisLength: nat := 3
  /** The edit distance the spelling check asks suggestions for. */
  const MaxEditDist: int := 2

  /** One finding: the offending text and its offsets, kind, severity, message and suggested fix. */
  datatype Issue = Issue(text: string, start: int, end: int, itype: int, severity: int,
                         message: string, suggestion: string)

  /** The dominant script of the text, and whether its detection is confident enough (at least 0.5). */
  datatype Script = Latn | Cyrl | OtherScript
  datatype Detection = Detection(script: Script, confident: bool)

  // ---------- the shared cap ----------

  function Opt(o: Wrappers.Option<Issue>): (r: seq<Issue>)
    ensures |r| <= 1 && (r == [] <==> o.None?)
  {
    if o.Some? then [o.value] else []
  }

  /**
   * The issues a check leaves: starting from acc at token i, each token's
   * issue is appended in order until the list holds MaxIssues.
   */
  function Capped(acc: seq<Issue>, found: seq<Wrappers.Option<Issue>>, i: nat): seq<Issue>
    decreases |found| - i
  {
    if i >= |found| || |acc| >= MaxIssues then acc
    else Capped(acc + Opt(found[i]), found, i + 1)
  }

  /** Every issue the tokens from i yield, in order, with no cap. */
  function Somes(found: seq<Wrappers.Option<Issue>>, i: nat): seq<Issue>
    decreases |found| - i
  {
    if i >= |found| then [] else Opt(found[i]) + Somes(found, i + 1)
  }

  /** The first n elements, or all when there are fewer. */
  function Take(s: seq<Issue>, n: nat): (r: seq<Issue>)
    ensures |r| <= n && r <= s
  {
    if |s| <= n then s else s[..n]
  }

  lemma TakeCons(o: seq<Issue>, rest: seq<Issue>, n: nat)
    requires |o| <= 1 && |o| <= n
    ensures o + Take(rest, n - |o|) == Take(o + rest, n)
  {
    if |o + rest| > n {
      assert (o + rest)[..n] == o + rest[..n - |o|];
    }
  }

  lemma IssuesAssoc(a: seq<Issue>, b: seq<Issue>, c: seq<Issue>)
    ensures (a + b) + c == a + (b + c)
  {
  }

  /**
   * A capped check appends the first issues the tokens yield, as many as
   * still fit under MaxIssues, and leaves a full list unchanged.
   */
  lemma {:induction false} CappedTake(acc: seq<Issue>, found: seq<Wrappers.Option<Issue>>, i: nat)
    ensures |acc| >= MaxIssues ==> Capped(acc, found, i) == acc
    ensures |acc| < MaxIssues ==> Capped(acc, found, i) == acc + Take(Somes(found, i), MaxIssues - |acc|)
    decreases |found| - i
  {
    if i >= |found| {
      assert Somes(found, i) == [];
    } else if |acc| < MaxIssues {
      var o := Opt(found[i]);
      CappedTake(acc + o, found, i + 1);
      CappedStep(acc, o, Somes(found, i + 1), Capped(acc + o, found, i + 1));
    }
  }

  /** One step of CappedTake: the token's issue, then the rest as the step after it leaves them. */
  lemma CappedStep(acc: seq<Issue>, o: seq<Issue>, rest: seq<Issue>, after: seq<Issue>)
    requires |acc| < MaxIssues && |o| <= 1
    requires |acc + o| >= MaxIssues ==> after == acc + o
    requires |acc + o| < MaxIssues ==> after == acc + o + Take(rest, MaxIssues - |acc + o|)
    ensures after == acc + Take(o + rest, MaxIssues - |acc|)
  {
    var n := MaxIssues - |acc|;
    TakeCons(o, rest, n);
    if |acc + o| >= MaxIssues {
      assert Take(o + rest, 1) == o;
    } else {
      IssuesAssoc(acc, o, Take(rest, n - |o|));
    }
  }

  /** A check appends nothing exactly when no token yields an issue. */
  lemma {:induction false} SomesNone(found: seq<Wrappers.Option<Issue>>, i: nat)
    ensures Somes(found, i) == [] <==> forall k :: i <= k < |found| ==> found[k].None?
    decreases |found| - i
  {
    if i < |found| {
      SomesNone(found, i + 1);
    }
  }

  /** A capped check never takes a list past MaxIssues and only appends. */
  lemma CappedBound(acc: seq<Issue>, found: seq<Wrappers.Option<Issue>>)
    ensures acc <= Capped(acc, found, 0)
    ensures |acc| <= MaxIssues ==> |Capped(acc, found, 0)| <= MaxIssues
    ensures Capped([], found, 0) == [] <==> forall k :: 0 <= k < |found| ==> found[k].None?
  {
    CappedTake(acc, found, 0);
    CappedTake([], found, 0);
    SomesNone(found, 0);
    if Somes(found, 0) != [] {
      assert Take(Somes(found, 0), MaxIssues) != [] by {
        assert Take(Somes(found, 0), MaxIssues)[0] == Somes(found, 0)[0];
      }
    }
  }

  // ---------- punctuation ----------

  /** strings.Count for a one-rune pattern: how often c occurs in s. */
  function Count(s: string, c: char): nat {
    if s == [] then 0 else (if s[0] == c then 1 else 0) + Count(s[1..], c)
  }

  /** strings.Repeat. */
  function Repeat(s: string, n: nat): string {
    if n == 0 then [] else s + Repeat(s, n - 1)
  }

  /** The first rune, or the replacement rune U+FFFD for the empty string. */
  function FirstRune(s: string): char {
    if s == [] then '\U{FFFD}' else s[0]
  }

  /** isSpaceSensitivePunct: one of , . ; : ! ? alone. */
  predicate SpaceSensitive(t: string) {
    |t| == 1 && t[0] in ",.;:!?"
  }

  /** isSentenceEnd: one of . ! ? alone. */
  predicate SentenceEnd(t: string) {
    |t| == 1 && t[0] in ".!?"
  }

  /** b continues a run of punctuation tokens with a's text. */
  predicate SamePunct(a: Tok.Token, b: Tok.Token) {
    b.ttype == Tok.Punctuation && b.text == a.text
  }

  /** The index where the run of tokens equal to tokens[i] that reaches j ends. */
  function RunEnd(tokens: seq<Tok.Token>, i: nat, j: nat): (k: nat)
    requires i < |tokens| && i < j <= |tokens|
    ensures j <= k <= |tokens|
    ensures forall m :: j <= m < k ==> SamePunct(tokens[i], tokens[m])
    ensures k < |tokens| ==> !SamePunct(tokens[i], tokens[k])
    decreases |tokens| - j
  {
    if j < |tokens| && SamePunct(tokens[i], tokens[j]) then RunEnd(tokens, i, j + 1) else j
  }

  function Warn(tok: Tok.Token, message: string, suggestion: string): Issue {
    Issue(tok.text, tok.start, tok.end, Punctuation, Warning, message, suggestion)
  }

  /**
   * The punctuation issue token i yields: several spaces; a space before
   * , . ; : ! or ?; a sentence end directly before a word or number; or,
   * at the first token of a run of two or more identical punctuation
   * tokens that is not exactly "...", the whole run.
   */
  function PunctAt(tokens: seq<Tok.Token>, i: nat): Wrappers.Option<Issue>
    requires i < |tokens|
  {
    var tok := tokens[i];
    if tok.ttype == Tok.Space && Count(tok.text, ' ') >= MinDoubleSpaces then
      Wrappers.Some(Warn(tok, "multiple spaces", " "))
    else if tok.ttype == Tok.Space && i + 1 < |tokens|
            && tokens[i + 1].ttype == Tok.Punctuation && SpaceSensitive(tokens[i + 1].text) then
      Wrappers.Some(Warn(tok, "space before punctuation", ""))
    else if tok.ttype == Tok.Punctuation && SentenceEnd(tok.text) && i + 1 < |tokens|
            && (tokens[i + 1].ttype == Tok.Word || tokens[i + 1].ttype == Tok.Number) then
      Wrappers.Some(Warn(tok, "missing space after punctuation", tok.text + " "))
    else if tok.ttype == Tok.Punctuation && (i == 0 || !SamePunct(tok, tokens[i - 1])) then
      var count := RunEnd(tokens, i, i + 1) - i;
      if count >= MinConsecutivePunct && (FirstRune(tok.text) != '.' || count != EllipsisLength) then
        Wrappers.Some(Issue(Repeat(tok.text, count), tok.start, tokens[i + count - 1].end,
                            Punctuation, Info, "repeated punctuation", tok.text))
      else Wrappers.None
    else Wrappers.None
  }

  function PunctFound(tokens: seq<Tok.Token>): (f: seq<Wrappers.Option<Issue>>)
    ensures |f| == |tokens| && forall i :: 0 <= i < |tokens| ==> f[i] == PunctAt(tokens, i)
  {
    seq(|tokens|, i requires 0 <= i < |tokens| => PunctAt(tokens, i))
  }

  /** The run of a maximal block of k identical tokens from i ends at i + k. */
  lemma {:induction false} RunEndIs(tokens: seq<Tok.Token>, i: nat, k: nat, j: nat)
    requires i < j <= i + k <= |tokens|
    requires forall m :: i < m < i + k ==> SamePunct(tokens[i], tokens[m])
    requires i + k == |tokens| || !SamePunct(tokens[i], tokens[i + k])
    ensures RunEnd(tokens, i, j) == i + k
    decreases i + k - j
  {
    if j < i + k {
      RunEndIs(tokens, i, k, j + 1);
    }
  }

  /**
   * A maximal run of k >= 2 identical punctuation tokens starting at i is
   * reported once, at i, as one info issue spanning the run with the text
   * repeated k times, unless it is exactly three dots; no later token of
   * the run yields a repeated-punctuation issue.
   */
  lemma RepeatedOnce(tokens: seq<Tok.Token>, i: nat, k: nat)
    requires 2 <= k && i + k <= |tokens|
    requires tokens[i].ttype == Tok.Punctuation
    requires forall m :: i < m < i + k ==> SamePunct(tokens[i], tokens[m])
    requires i == 0 || !SamePunct(tokens[i], tokens[i - 1])
    requires i + k == |tokens| || !SamePunct(tokens[i], tokens[i + k])
    ensures FirstRune(tokens[i].text) == '.' && k == EllipsisLength ==> PunctAt(tokens, i).None?
    ensures !(FirstRune(tokens[i].text) == '.' && k == EllipsisLength) ==>
      PunctAt(tokens, i) == Wrappers.Some(Issue(Repeat(tokens[i].text, k), tokens[i].start, tokens[i + k - 1].end,
                                                Punctuation, Info, "repeated punctuation", tokens[i].text))
    ensures forall m :: i < m < i + k ==>
      PunctAt(tokens, m).None? || PunctAt(tokens, m).value.message != "repeated punctuation"
  {
    RunEndIs(tokens, i, k, i + 1);
    var e := RunEnd(tokens, i, i + 1);
    assert e == i + k;
    assert i + 1 < |tokens| && tokens[i + 1].ttype == Tok.Punctuation;
    forall m | i < m < i + k
      ensures PunctAt(tokens, m).None? || PunctAt(tokens, m).value.message != "repeated punctuation"
    {
      assert SamePunct(tokens[i], tokens[m - 1]) || m - 1 == i;
      assert SamePunct(tokens[m], tokens[m - 1]);
    }
  }

  /** A sentence end directly followed by a word or a number is a missing-space warning suggesting the end plus a space. */
  lemma MissingSpace(tokens: seq<Tok.Token>, i: nat)
    requires i + 1 < |tokens|
    requires tokens[i].ttype == Tok.Punctuation && SentenceEnd(tokens[i].text)
    requires tokens[i + 1].ttype == Tok.Word || tokens[i + 1].ttype == Tok.Number
    ensures PunctAt(tokens, i) == Wrappers.Some(Issue(tokens[i].text, tokens[i].start, tokens[i].end, Punctuation, Warning,
                                                      "missing space after punctuation", tokens[i].text + " "))
  {
  }

  /**
   * appendPunctuationIssues: one pass over the tokens; the run of identical
   * punctuation is counted by an inner loop.
   */
  method AppendPunctuationIssues(acc: seq<Issue>, tokens: seq<Tok.Token>) returns (issues: seq<Issue>)
    ensures issues == Capped(acc, PunctFound(tokens), 0)
  {
    ghost var found := PunctFound(tokens);
    issues := acc;
    var i := 0;
    while i < |tokens|
      invariant 0 <= i <= |tokens|
      invariant Capped(issues, found, i) == Capped(acc, found, 0)
    {
      if |issues| >= MaxIssues {
        return;
      }
      var tok := tokens[i];
      var o: Wrappers.Option<Issue> := Wrappers.None;
      if tok.ttype == Tok.Space && Count(tok.text, ' ') >= MinDoubleSpaces {
        o := Wrappers.Some(Warn(tok, "multiple spaces", " "));
      } else if tok.ttype == Tok.Space && i + 1 < |tokens|
                && tokens[i + 1].ttype == Tok.Punctuation && SpaceSensitive(tokens[i + 1].text) {
        o := Wrappers.Some(Warn(tok, "space before punctuation", ""));
      } else if tok.ttype == Tok.Punctuation && SentenceEnd(tok.text) && i + 1 < |tokens|
                && (tokens[i + 1].ttype == Tok.Word || tokens[i + 1].ttype == Tok.Number) {
        o := Wrappers.Some(Warn(tok, "missing space after punctuation", tok.text + " "));
      } else if tok.ttype == Tok.Punctuation && (i == 0 || !SamePunct(tok, tokens[i - 1])) {
        var count := 1;
        var j := i + 1;
        while j < |tokens|
          invariant i + 1 <= j <= |tokens| && count == j - i
          invariant RunEnd(tokens, i, j) == RunEnd(tokens, i, i + 1)
        {
          if !SamePunct(tok, tokens[j]) {
            break;
          }
          count := count + 1;
          j := j + 1;
        }
        if count >= MinConsecutivePunct && (FirstRune(tok.text) != '.' || count != EllipsisLength) {
          var last := tokens[i + count - 1];
          o := Wrappers.Some(Issue(Repeat(tok.text, count), tok.start, last.end,
                                   Punctuation, Info, "repeated punctuation", tok.text));
        }
      }
      assert o == found[i];
      issues := issues + Opt(o);
      i := i + 1;
    }
  }

  // ---------- homoglyphs and scripts ----------

  /** Go's unicode.Cyrillic table, as of Unicode 15.0. */
  predicate IsCyrillic(c: char) {
    var n := c as int;
    (0x400 <= n <= 0x484) || (0x487 <= n <= 0x52F) || (0x1C80 <= n <= 0x1C88) || n == 0x1D2B || n == 0x1D78
    || (0x2DE0 <= n <= 0x2DFF) || (0xA640 <= n <= 0xA69F) || (0xFE2E <= n <= 0xFE2F)
    || (0x1E030 <= n <= 0x1E06D) || n == 0x1E08F
  }

  /** Go's unicode.Latin table. */
  predicate IsLatin(c: char) {
    var n := c as int;
    ('A' <= c <= 'Z') || ('a' <= c <= 'z') || n == 0xAA || n == 0xBA
    || (0xC0 <= n <= 0xD6) || (0xD8 <= n <= 0xF6) || (0xF8 <= n <= 0x2B8) || (0x2E0 <= n <= 0x2E4)
    || (0x1D00 <= n <= 0x1D25) || (0x1D2C <= n <= 0x1D5C) || (0x1D62 <= n <= 0x1D65) || (0x1D6B <= n <= 0x1D77)
    || (0x1D79 <= n <= 0x1DBE) || (0x1E00 <= n <= 0x1EFF) || n == 0x2071 || n == 0x207F || (0x2090 <= n <= 0x209C)
    || (0x212A <= n <= 0x212B) || n == 0x2132 || n == 0x214E || (0x2160 <= n <= 0x2188) || (0x2C60 <= n <= 0x2C7F)
    || (0xA722 <= n <= 0xA787) || (0xA78B <= n <= 0xA7CA) || (0xA7F2 <= n <= 0xA7FF) || (0xAB30 <= n <= 0xAB5A)
    || (0xAB5C <= n <= 0xAB64) || (0xFB00 <= n <= 0xFB06) || (0xFF21 <= n <= 0xFF3A) || (0xFF41 <= n <= 0xFF5A)
  }

  /**
   * cyrToLat: the Cyrillic runes that look like Latin ones, keyed by code
   * point (а е о р с х у, А Е О Р С Х У, і І, ј Ј), and the Latin runes they
   * look like; None for a rune that is not a key.
   */
  function CyrToLat(c: char): Wrappers.Option<char> {
    match c as int
    case 0x0430 => Wrappers.Some('a') case 0x0435 => Wrappers.Some('e') case 0x043E => Wrappers.Some('o') case 0x0440 => Wrappers.Some('p')
    case 0x0441 => Wrappers.Some('c') case 0x0445 => Wrappers.Some('x') case 0x0443 => Wrappers.Some('y') case 0x0410 => Wrappers.Some('A')
    case 0x0415 => Wrappers.Some('E') case 0x041E => Wrappers.Some('O') case 0x0420 => Wrappers.Some('P') case 0x0421 => Wrappers.Some('C')
    case 0x0425 => Wrappers.Some('X') case 0x0423 => Wrappers.Some('Y') case 0x0456 => Wrappers.Some('i') case 0x0406 => Wrappers.Some('I')
    case 0x0458 => Wrappers.Some('j') case 0x0408 => Wrappers.Some('J')
    case _ => Wrappers.None
  }

  /** latToCyr: the same pairs the other way round. */
  function LatToCyr(c: char): Wrappers.Option<char> {
    match c as int
    case 0x0061 => Wrappers.Some('\U{0430}') case 0x0065 => Wrappers.Some('\U{0435}') case 0x006F => Wrappers.Some('\U{043E}') case 0x0070 => Wrappers.Some('\U{0440}')
    case 0x0063 => Wrappers.Some('\U{0441}') case 0x0078 => Wrappers.Some('\U{0445}') case 0x0079 => Wrappers.Some('\U{0443}') case 0x0041 => Wrappers.Some('\U{0410}')
    case 0x0045 => Wrappers.Some('\U{0415}') case 0x004F => Wrappers.Some('\U{041E}') case 0x0050 => Wrappers.Some('\U{0420}') case 0x0043 => Wrappers.Some('\U{0421}')
    case 0x0058 => Wrappers.Some('\U{0425}') case 0x0059 => Wrappers.Some('\U{0423}') case 0x0069 => Wrappers.Some('\U{0456}') case 0x0049 => Wrappers.Some('\U{0406}')
    case 0x006A => Wrappers.Some('\U{0458}') case 0x004A => Wrappers.Some('\U{0408}')
    case _ => Wrappers.None
  }

  /** The Cyrillic table maps Cyrillic runes to Latin ones, and the Latin table back. */
  lemma CyrToLatScripts()
    ensures forall c :: CyrToLat(c).Some? ==> IsCyrillic(c) && IsLatin(CyrToLat(c).value)
  {
  }

  lemma LatToCyrScripts()
    ensures forall c :: LatToCyr(c).Some? ==> IsLatin(c) && IsCyrillic(LatToCyr(c).value)
  {
  }

  /** The two homoglyph tables are inverse to each other. */
  lemma HomoglyphInverse()
    ensures forall c :: CyrToLat(c).Some? ==> LatToCyr(CyrToLat(c).value) == Wrappers.Some(c)
    ensures forall c :: LatToCyr(c).Some? ==> CyrToLat(LatToCyr(c).value) == Wrappers.Some(c)
  {
    forall c | CyrToLat(c).Some? ensures LatToCyr(CyrToLat(c).value) == Wrappers.Some(c) {
      CyrToLatBack(c);
    }
    forall c | LatToCyr(c).Some? ensures CyrToLat(LatToCyr(c).value) == Wrappers.Some(c) {
      LatToCyrBack(c);
    }
  }

  lemma CyrToLatBack(c: char)
    requires CyrToLat(c).Some?
    ensures LatToCyr(CyrToLat(c).value) == Wrappers.Some(c)
  {
  }

  lemma LatToCyrBack(c: char)
    requires LatToCyr(c).Some?
    ensures CyrToLat(LatToCyr(c).value) == Wrappers.Some(c)
  {
  }

  /** No rune is in both tables, so no table maps a rune to itself. */
  lemma HomoglyphTables()
    ensures forall c :: CyrToLat(c).Some? ==> IsCyrillic(c) && LatToCyr(c).None? && LatToCyr(CyrToLat(c).value).Some?
    ensures forall c :: LatToCyr(c).Some? ==> IsLatin(c) && CyrToLat(c).None? && CyrToLat(LatToCyr(c).value).Some?
  {
    CyrToLatScripts();
    LatToCyrScripts();
    HomoglyphInverse();
    forall c | CyrToLat(c).Some? ensures LatToCyr(c).None? {
      assert IsCyrillic(c) && !IsLatin(c);
    }
    forall c | LatToCyr(c).Some? ensures CyrToLat(c).None? {
      assert IsLatin(c) && !IsCyrillic(c);
    }
  }

  /** The table lookup under a dominant script: Cyrillic look-alikes in Latin text and the reverse. */
  function Lookup(c: char, dom: Script): Wrappers.Option<char> {
    match dom
    case Latn => CyrToLat(c)
    case Cyrl => LatToCyr(c)
    case OtherScript => Wrappers.None
  }

  /** c is in the script the dominant one is not (Cyrillic for Latin text, Latin for Cyrillic text). */
  predicate OtherScript(c: char, dom: Script) {
    (dom == Latn && IsCyrillic(c)) || (dom == Cyrl && IsLatin(c))
  }

  /** c is a key of the table for the dominant script. */
  predicate Homoglyph(c: char, dom: Script) {
    Lookup(c, dom).Some?
  }

  /** c is a homoglyph from the wrong script. */
  predicate Foreign(c: char, dom: Script) {
    OtherScript(c, dom) && Homoglyph(c, dom)
  }

  predicate NeedsReplacement(word: string, dom: Script) {
    exists i :: 0 <= i < |word| && Foreign(word[i], dom)
  }

  /** c with a table rune swapped for its dominant-script twin. */
  function Swap(c: char, dom: Script): char {
    if Homoglyph(c, dom) then Lookup(c, dom).value else c
  }

  function Replaced(word: string, dom: Script): (r: string)
    ensures |r| == |word| && forall i :: 0 <= i < |word| ==> r[i] == Swap(word[i], dom)
  {
    seq(|word|, i requires 0 <= i < |word| => Swap(word[i], dom))
  }

  /**
   * replaceHomoglyphs: a first loop looks for a wrong-script rune in the
   * table, a second rebuilds the word swapping every table rune.
   */
  method ReplaceHomoglyphs(word: string, dom: Script) returns (r: string, found: bool)
    ensures found == NeedsReplacement(word, dom)
    ensures r == if found then Replaced(word, dom) else word
  {
    found := FindForeign(word, dom);
    if !found {
      return word, false;
    }
    r := SwapAll(word, dom);
  }

  /** replaceHomoglyphs' first loop: is there a wrong-script rune in the table? */
  method FindForeign(word: string, dom: Script) returns (found: bool)
    ensures found == NeedsReplacement(word, dom)
  {
    found := false;
    var i := 0;
    while i < |word|
      invariant 0 <= i <= |word|
      invariant found ==> NeedsReplacement(word, dom)
      invariant !found ==> forall k :: 0 <= k < i ==> !Foreign(word[k], dom)
    {
      var c := word[i];
      match dom {
        case Latn =>
          if IsCyrillic(c) && Homoglyph(c, dom) {
            found := true;
          }
        case Cyrl =>
          if IsLatin(c) && Homoglyph(c, dom) {
            found := true;
          }
        case OtherScript =>
      }
      if found {
        break;
      }
      i := i + 1;
    }
  }

  /** replaceHomoglyphs' second loop: rebuild the word, swapping every table rune. */
  method SwapAll(word: string, dom: Script) returns (r: string)
    ensures r == Replaced(word, dom)
  {
    r := [];
    var j := 0;
    while j < |word|
      invariant 0 <= j <= |word|
      invariant |r| == j && forall k :: 0 <= k < j ==> r[k] == Swap(word[k], dom)
    {
      var c := word[j];
      var t := Lookup(c, dom);
      if t.Some? {
        r := r + [t.value];
      } else {
        r := r + [c];
      }
      j := j + 1;
    }
  }

  /** A swapped rune is never one to replace, and a rune to replace always changes. */
  lemma SwapClean(c: char, dom: Script)
    ensures !Foreign(Swap(c, dom), dom)
    ensures Foreign(c, dom) ==> Swap(c, dom) != c
  {
    HomoglyphTables();
  }

  /**
   * A replacement changes the word and leaves nothing to replace: every
   * swapped rune lands in the dominant script's half of the table.
   */
  lemma ReplacedClean(word: string, dom: Script)
    ensures NeedsReplacement(word, dom) ==> Replaced(word, dom) != word
    ensures !NeedsReplacement(Replaced(word, dom), dom)
  {
    var r := Replaced(word, dom);
    if NeedsReplacement(word, dom) {
      var i :| 0 <= i < |word| && Foreign(word[i], dom);
      SwapClean(word[i], dom);
      assert r[i] != word[i];
    }
    forall i | 0 <= i < |r| ensures !Foreign(r[i], dom) {
      SwapClean(word[i], dom);
    }
  }

  predicate HasLetter(word: string) {
    exists i :: 0 <= i < |word| && Unicode.IsLetter(word[i])
  }

  /** Some letter, and every letter in the other script. */
  predicate NonDominant(word: string, dom: Script) {
    HasLetter(word) && forall i :: 0 <= i < |word| && Unicode.IsLetter(word[i]) ==> OtherScript(word[i], dom)
  }


  /** A rune that is not a letter, or a letter in the table. */
  predicate LetterInTable(c: char, dom: Script) {
    Unicode.IsLetter(c) ==> Homoglyph(c, dom)
  }

  /** Some letter, and every letter in the homoglyph table. */
  predicate AllHomoglyphLetters(word: string, dom: Script) {
    HasLetter(word) && forall i :: 0 <= i < |word| ==> LetterInTable(word[i], dom)
  }

  /**
   * isNonDominantScript: false at the first letter outside the other
   * script (every letter, under a script other than Latin or Cyrillic),
   * else whether there was a letter.
   */
  method IsNonDominantScript(word: string, dom: Script) returns (r: bool)
    ensures r == NonDominant(word, dom)
  {
    var hasLetter := false;
    var i := 0;
    while i < |word|
      invariant 0 <= i <= |word|
      invariant hasLetter <==> exists k :: 0 <= k < i && Unicode.IsLetter(word[k])
      invariant forall k :: 0 <= k < i && Unicode.IsLetter(word[k]) ==> OtherScript(word[k], dom)
    {
      var c := word[i];
      if Unicode.IsLetter(c) {
        hasLetter := true;
        match dom {
          case Latn =>
            if !IsCyrillic(c) {
              return false;
            }
          case Cyrl =>
            if !IsLatin(c) {
              return false;
            }
          case OtherScript =>
            return false;
        }
      }
      i := i + 1;
    }
    return hasLetter;
  }

  /** allHomoglyphs: false at the first letter outside the table, else whether there was a letter. */
  method AllHomoglyphs(word: string, dom: Script) returns (r: bool)
    ensures r == AllHomoglyphLetters(word, dom)
  {
    var hasLetter := false;
    var i := 0;
    while i < |word|
      invariant 0 <= i <= |word|
      invariant hasLetter <==> exists k :: 0 <= k < i && Unicode.IsLetter(word[k])
      invariant forall k :: 0 <= k < i ==> LetterInTable(word[k], dom)
    {
      var letter, inTable := RuneInTable(word[i], dom);
      if !inTable {
        return false;
      }
      hasLetter := hasLetter || letter;
      i := i + 1;
    }
    return hasLetter;
  }

  /** One pass of allHomoglyphs' loop: is the rune a letter, and may the scan go on past it? */
  method RuneInTable(c: char, dom: Script) returns (letter: bool, inTable: bool)
    ensures letter == Unicode.IsLetter(c) && inTable == LetterInTable(c, dom)
  {
    letter := Unicode.IsLetter(c);
    inTable := !letter || Lookup(c, dom).Some?;
  }

  /**
   * A word whose letters are all homoglyphs is in the other script and has
   * a rune to replace: the words the mixed-script check skips for that
   * reason are the layout check's.
   */
  lemma AllHomoglyphsLayout(word: string, dom: Script)
    requires AllHomoglyphLetters(word, dom)
    ensures NonDominant(word, dom) && NeedsReplacement(word, dom)
  {
    var i :| 0 <= i < |word| && Unicode.IsLetter(word[i]);
    HomoglyphForeign(word[i], dom);
    forall k | 0 <= k < |word| && Unicode.IsLetter(word[k]) ensures OtherScript(word[k], dom) {
      HomoglyphForeign(word[k], dom);
    }
  }

  /** Every table key is in the other script. */
  lemma HomoglyphForeign(c: char, dom: Script)
    requires Homoglyph(c, dom)
    ensures Foreign(c, dom)
  {
    if dom == Latn {
      CyrToLatScripts();
    } else {
      LatToCyrScripts();
    }
  }

  // ---------- layout and mixed script ----------

  /** The checks that look at scripts run only under a confident Latin or Cyrillic detection. */
  predicate ScriptChecks(det: Detection) {
    det.confident && (det.script == Latn || det.script == Cyrl)
  }

  /** The layout issue token i yields: a word with a wrong-script homoglyph, with the replaced word as the fix. */
  function LayoutAt(tokens: seq<Tok.Token>, dom: Script, i: nat): Wrappers.Option<Issue>
    requires i < |tokens|
  {
    var tok := tokens[i];
    if tok.ttype == Tok.Word && NeedsReplacement(tok.text, dom) then
      Wrappers.Some(Issue(tok.text, tok.start, tok.end, Layout, Error,
                          "contains characters from wrong script (possible keyboard layout error)",
                          Replaced(tok.text, dom)))
    else Wrappers.None
  }

  function LayoutFound(tokens: seq<Tok.Token>, dom: Script): (f: seq<Wrappers.Option<Issue>>)
    ensures |f| == |tokens| && forall i :: 0 <= i < |tokens| ==> f[i] == LayoutAt(tokens, dom, i)
  {
    seq(|tokens|, i requires 0 <= i < |tokens| => LayoutAt(tokens, dom, i))
  }

  /** appendLayoutIssues. */
  method AppendLayoutIssues(acc: seq<Issue>, tokens: seq<Tok.Token>, det: Detection) returns (issues: seq<Issue>)
    ensures !ScriptChecks(det) ==> issues == acc
    ensures ScriptChecks(det) ==> issues == Capped(acc, LayoutFound(tokens, det.script), 0)
  {
    issues := acc;
    if !det.confident || (det.script != Latn && det.script != Cyrl) {
      return;
    }
    ghost var found := LayoutFound(tokens, det.script);
    var i := 0;
    while i < |tokens|
      invariant 0 <= i <= |tokens|
      invariant Capped(issues, found, i) == Capped(acc, found, 0)
    {
      if |issues| >= MaxIssues {
        return;
      }
      var tok := tokens[i];
      ghost var before := issues;
      if tok.ttype == Tok.Word {
        var replaced, hit := ReplaceHomoglyphs(tok.text, det.script);
        if hit {
          issues := issues + [Issue(tok.text, tok.start, tok.end, Layout, Error,
                                    "contains characters from wrong script (possible keyboard layout error)", replaced)];
        }
      }
      assert issues == before + Opt(found[i]);
      i := i + 1;
    }
  }

  /** The mixed-script issue token i yields: a word wholly in the other script that is not all homoglyphs. */
  function MixedAt(tokens: seq<Tok.Token>, dom: Script, i: nat): Wrappers.Option<Issue>
    requires i < |tokens|
  {
    var tok := tokens[i];
    if tok.ttype == Tok.Word && NonDominant(tok.text, dom) && !AllHomoglyphLetters(tok.text, dom) then
      Wrappers.Some(Issue(tok.text, tok.start, tok.end, MixedScript, Info, "text in different script", ""))
    else Wrappers.None
  }

  function MixedFound(tokens: seq<Tok.Token>, dom: Script): (f: seq<Wrappers.Option<Issue>>)
    ensures |f| == |tokens| && forall i :: 0 <= i < |tokens| ==> f[i] == MixedAt(tokens, dom, i)
  {
    seq(|tokens|, i requires 0 <= i < |tokens| => MixedAt(tokens, dom, i))
  }

  /** appendMixedScriptIssues. */
  method AppendMixedScriptIssues(acc: seq<Issue>, tokens: seq<Tok.Token>, det: Detection) returns (issues: seq<Issue>)
    ensures !ScriptChecks(det) ==> issues == acc
    ensures ScriptChecks(det) ==> issues == Capped(acc, MixedFound(tokens, det.script), 0)
  {
    issues := acc;
    if !det.confident || (det.script != Latn && det.script != Cyrl) {
      return;
    }
    ghost var found := MixedFound(tokens, det.script);
    var i := 0;
    while i < |tokens|
      invariant 0 <= i <= |tokens|
      invariant Capped(issues, found, i) == Capped(acc, found, 0)
    {
      if |issues| >= MaxIssues {
        return;
      }
      var tok := tokens[i];
      ghost var before := issues;
      if tok.ttype == Tok.Word {
        var other := IsNonDominantScript(tok.text, det.script);
        if other {
          var skip := AllHomoglyphs(tok.text, det.script);
          if !skip {
            issues := issues + [Issue(tok.text, tok.start, tok.end, MixedScript, Info, "text in different script", "")];
          }
        }
      }
      assert issues == before + Opt(found[i]);
      i := i + 1;
    }
  }

  // ---------- spelling ----------

  /** A word the spelling check flags: non-empty, no digit, not title case, and not correct. */
  predicate Misspelt(idx: SpellSymspell.Index, d: MorphDict.Dict, tok: Tok.Token) {
    tok.ttype == Tok.Word && tok.text != [] && !AzCase.ContainsDigit(tok.text)
    && !AzCase.IsTitleCase(tok.text) && !Spell.IsCorrect(idx, d, tok.text)
  }

  /** The spelling issue token i yields, with the suggestion left empty. */
  function SpellAt(idx: SpellSymspell.Index, d: MorphDict.Dict, tokens: seq<Tok.Token>, i: nat): Wrappers.Option<Issue>
    requires i < |tokens|
  {
    var tok := tokens[i];
    if Misspelt(idx, d, tok) then Wrappers.Some(Issue(tok.text, tok.start, tok.end, Spelling, Error, "unknown word", ""))
    else Wrappers.None
  }

  function SpellFound(idx: SpellSymspell.Index, d: MorphDict.Dict, tokens: seq<Tok.Token>): (f: seq<Wrappers.Option<Issue>>)
    ensures |f| == |tokens| && forall i :: 0 <= i < |tokens| ==> f[i] == SpellAt(idx, d, tokens, i)
  {
    seq(|tokens|, i requires 0 <= i < |tokens| => SpellAt(idx, d, tokens, i))
  }

  /** The issues with their suggestions blanked. */
  function Unsuggested(issues: seq<Issue>): (r: seq<Issue>)
    ensures |r| == |issues|
    ensures forall k :: 0 <= k < |issues| ==> r[k] == issues[k].(suggestion := "")
  {
    seq(|issues|, k requires 0 <= k < |issues| => issues[k].(suggestion := ""))
  }

  /**
   * The suggestion is the word's case put onto the first suggestion of a
   * result Suggest may return at the check's distance, or empty when that
   * result is empty.
   */
  ghost predicate SuggestedFor(idx: SpellSymspell.Index, d: MorphDict.Dict, x: Issue) {
    exists r: seq<SpellSymspell.Suggestion>, bases: seq<string>, whole: seq<SpellSymspell.Suggestion>,
           hits: seq<seq<SpellSymspell.Suggestion>> ::
      Spell.SuggestedAs(idx, d, x.text, SpellSymspell.Clamp(MaxEditDist), r, bases, whole, hits)
      && x.suggestion == (if r != [] then AzCase.ApplyCase(x.text, r[0].term) else "")
  }

  lemma UnsuggestedSnoc(xs: seq<Issue>, ys: seq<Issue>)
    requires |ys| <= 1
    ensures Unsuggested(xs + ys) == Unsuggested(xs) + Unsuggested(ys)
  {
  }

  /**
   * The issue for a misspelt word carries the case-adjusted first
   * suggestion: the top whole-word hit when there is one, else the top
   * stem-level correction when one survives, and "" only when the lookup can
   * reach no word.
   */
  lemma SuggestionOk(idx: SpellSymspell.Index, d: MorphDict.Dict, tok: Tok.Token,
                     suggestions: seq<SpellSymspell.Suggestion>, bases: seq<string>,
                     whole: seq<SpellSymspell.Suggestion>, hits: seq<seq<SpellSymspell.Suggestion>>, x: Issue)
    requires Spell.SuggestedAs(idx, d, tok.text, SpellSymspell.Clamp(MaxEditDist), suggestions, bases, whole, hits)
    requires tok.text != [] && x.text == tok.text
    requires x.suggestion == if |suggestions| > 0 then AzCase.ApplyCase(tok.text, suggestions[0].term) else ""
    ensures SuggestedFor(idx, d, x)
    ensures whole != [] ==> x.suggestion == AzCase.ApplyCase(tok.text, AzCase.ApplyCase(tok.text, whole[0].term))
    ensures whole == [] && Spell.StemFound(d, AzCase.ToLower(tok.text), hits) ==>
      bases != [] && x.suggestion == AzCase.ApplyCase(tok.text, AzCase.ApplyCase(tok.text, bases[0]))
    ensures |suggestions| == 0 ==> !SpellSymspell.Reachable(idx, AzCase.ToLower(tok.text), SpellSymspell.Clamp(MaxEditDist))
  {
    if whole == [] && Spell.StemFound(d, AzCase.ToLower(tok.text), hits) {
      Spell.StemFoundNonEmpty(d, AzCase.ToLower(tok.text), hits, bases);
    }
    if |suggestions| == 0 {
      var lower := AzCase.ToLower(tok.text);
      var md := SpellSymspell.Clamp(MaxEditDist);
      Spell.LowerIdem(tok.text);
      assert SpellSymspell.Clamp(md) == md && whole == [];
      assert SpellSymspell.LookedUp(idx, lower, md, whole);
    }
  }

  /** The issue for a misspelt token: its best suggestion recased to the token, or "" when there is none. */
  method MisspeltIssue(idx: SpellSymspell.Index, d: MorphDict.Dict, tok: Tok.Token) returns (x: Issue)
    requires SpellSymspell.ValidIndex(idx) && tok.text != [] && !Spell.IsCorrect(idx, d, tok.text)
    ensures x == Issue(tok.text, tok.start, tok.end, Spelling, Error, "unknown word", x.suggestion)
    ensures SuggestedFor(idx, d, x)
  {
    var suggestion := "";
    ghost var bases, whole, hits;
    var suggestions;
    suggestions, bases, whole, hits := Spell.Suggest(idx, d, tok.text, MaxEditDist);
    if |suggestions| > 0 {
      suggestion := AzCase.ApplyCase(tok.text, suggestions[0].term);
    }
    x := Issue(tok.text, tok.start, tok.end, Spelling, Error, "unknown word", suggestion);
    SuggestionOk(idx, d, tok, suggestions, bases, whole, hits, x);
  }

  /** The issue one token yields, if misspelt, with its suggestion. */
  method SpellingIssue(idx: SpellSymspell.Index, d: MorphDict.Dict, tok: Tok.Token) returns (r: seq<Issue>)
    requires SpellSymspell.ValidIndex(idx)
    ensures Unsuggested(r) == Opt(SpellAt(idx, d, [tok], 0))
    ensures forall k :: 0 <= k < |r| ==> SuggestedFor(idx, d, r[k])
  {
    if tok.ttype == Tok.Word && tok.text != [] && !AzCase.ContainsDigit(tok.text)
       && !AzCase.IsTitleCase(tok.text) && !Spell.IsCorrect(idx, d, tok.text) {
      var x := MisspeltIssue(idx, d, tok);
      r := [x];
    } else {
      r := [];
    }
  }

  /**
   * appendSpellingIssues: nothing under a Cyrillic text; otherwise one
   * error per misspelt word, suggesting the case-adjusted best correction.
   */
  method AppendSpellingIssues(acc: seq<Issue>, tokens: seq<Tok.Token>, det: Detection,
                              idx: SpellSymspell.Index, d: MorphDict.Dict) returns (issues: seq<Issue>)
    requires SpellSymspell.ValidIndex(idx)
    ensures det.script == Cyrl ==> issues == acc
    ensures det.script != Cyrl ==> Unsuggested(issues) == Capped(Unsuggested(acc), SpellFound(idx, d, tokens), 0)
    ensures acc <= issues && forall k :: |acc| <= k < |issues| ==> SuggestedFor(idx, d, issues[k])
  {
    issues := acc;
    if det.script == Cyrl {
      return;
    }
    ghost var found := SpellFound(idx, d, tokens);
    var i := 0;
    while i < |tokens|
      invariant 0 <= i <= |tokens|
      invariant Capped(Unsuggested(issues), found, i) == Capped(Unsuggested(acc), found, 0)
      invariant acc <= issues && forall k :: |acc| <= k < |issues| ==> SuggestedFor(idx, d, issues[k])
    {
      if |issues| >= MaxIssues {
        return;
      }
      ghost var before := issues;
      var r := SpellingIssue(idx, d, tokens[i]);
      assert Opt(found[i]) == Opt(SpellAt(idx, d, [tokens[i]], 0));
      issues := issues + r;
      UnsuggestedSnoc(before, r);
      i := i + 1;
    }
  }
}
